/**
 * The cyclic traffic signal: an integer countdown and the index of the group
 * that currently has right of way.
 */
module TrafficSignals {
  import opened Basics

  /** Number of updates a group keeps right of way, less one (the countdown runs 500..0). */
  const CYCLE_LENGTH: int := 500
  /** Length of the all-stop window at the start of every cycle. */
  const CYCLE_COOLDOWN: int := 50

  /**
   * The active group index. JavaScript's `(i + 1) % 0` is NaN, so a signal that
   * arbitrates no group at all ends with an index that is not a number.
   */
  datatype ActiveGroup = Group(index: nat) | NotANumber

  /** The mutable part of a signal, as a value. */
  datatype SignalState = SignalState(active: ActiveGroup, countdown: int)
  {
    /** The invariant every update keeps: a countdown in range and, with groups, an index in range. */
    ghost predicate Valid(groupsCount: nat) {
      && 0 <= countdown <= CYCLE_LENGTH
      && (groupsCount > 0 ==> active.Group? && active.index < groupsCount)
    }

    /** `isGroupStopped`: every group but the active one is stopped, and the active one during the cooldown. */
    predicate IsGroupStopped(groupIndex: int) {
      match active
      case Group(i) => if groupIndex == i then countdown > CYCLE_LENGTH - CYCLE_COOLDOWN else true
      case NotANumber => true
    }

    /** The one group that may be moving, if any. */
    function MovingGroup(): (r: Option<int>)
      ensures forall g :: !IsGroupStopped(g) <==> r == Some(g)
    {
      if active.Group? && countdown <= CYCLE_LENGTH - CYCLE_COOLDOWN then Some(active.index) else None
    }

    /** `update`: count down; below zero, restart the cycle and hand over to the next group. */
    function Updated(groupsCount: nat): (r: SignalState)
      ensures Valid(groupsCount) ==> r.Valid(groupsCount)
    {
      if countdown - 1 < 0 then SignalState(NextGroup(active, groupsCount), CYCLE_LENGTH)
      else SignalState(active, countdown - 1)
    }
  }

  /** `(activeGroupIndex + 1) % groupsCount`, with NaN for zero groups. */
  function NextGroup(a: ActiveGroup, groupsCount: nat): (r: ActiveGroup)
    ensures groupsCount == 0 ==> r == NotANumber
    ensures a.Group? && groupsCount > 0 ==> r.Group? && r.index < groupsCount
  {
    match a
    case Group(i) => if groupsCount == 0 then NotANumber else Group((i + 1) % groupsCount)
    case NotANumber => NotANumber
  }

  /** The state after `n` updates. */
  function Updates(s: SignalState, groupsCount: nat, n: nat): SignalState
  {
    if n == 0 then s else Updates(s, groupsCount, n - 1).Updated(groupsCount)
  }

  /** The state of a newly created signal. */
  const Fresh: SignalState := SignalState(Group(0), CYCLE_LENGTH)

  /** Every reachable state is valid: the index stays in `[0, groupsCount)` and the countdown in `[0, CYCLE_LENGTH]`. */
  lemma {:induction false} UpdatesKeepValid(s: SignalState, groupsCount: nat, n: nat)
    requires s.Valid(groupsCount)
    ensures Updates(s, groupsCount, n).Valid(groupsCount)
  {
    if n > 0 {
      UpdatesKeepValid(s, groupsCount, n - 1);
    }
  }

  /** Within a cycle the active group does not change and the countdown drops by one per update. */
  lemma {:induction false} UpdatesWithinCycle(s: SignalState, groupsCount: nat, k: nat)
    requires k <= s.countdown
    ensures Updates(s, groupsCount, k) == SignalState(s.active, s.countdown - k)
  {
    if k > 0 {
      UpdatesWithinCycle(s, groupsCount, k - 1);
    }
  }

  /**
   * A cycle of `CYCLE_LENGTH + 1` updates from a fresh countdown hands right of way
   * to the next group (mod `groupsCount`) and restarts the countdown; before that
   * the active group is unchanged.
   */
  lemma CycleHandsOver(s: SignalState, groupsCount: nat, k: nat)
    requires s.countdown == CYCLE_LENGTH && k <= CYCLE_LENGTH + 1
    ensures k <= CYCLE_LENGTH ==> Updates(s, groupsCount, k).active == s.active
    ensures k == CYCLE_LENGTH + 1 ==>
      Updates(s, groupsCount, k) == SignalState(NextGroup(s.active, groupsCount), CYCLE_LENGTH)
  {
    if k <= CYCLE_LENGTH {
      UpdatesWithinCycle(s, groupsCount, k);
    } else {
      UpdatesWithinCycle(s, groupsCount, CYCLE_LENGTH);
    }
  }

  /**
   * The cooldown: after a restart the active group stays stopped for exactly the
   * first `CYCLE_COOLDOWN` states of its cycle, and may move for the rest of it.
   */
  lemma CooldownWindow(s: SignalState, groupsCount: nat, k: nat)
    requires s.countdown == CYCLE_LENGTH && s.active.Group? && k <= CYCLE_LENGTH
    ensures Updates(s, groupsCount, k).IsGroupStopped(s.active.index) <==> k < CYCLE_COOLDOWN
  {
    UpdatesWithinCycle(s, groupsCount, k);
  }

  /**
   * Two full cycles from a fresh countdown hand right of way on twice (mod
   * `groupsCount`) and restart the countdown.
   */
  lemma TwoCycles(s: SignalState, groupsCount: nat)
    requires s.countdown == CYCLE_LENGTH
    ensures Updates(s, groupsCount, 2 * (CYCLE_LENGTH + 1))
         == SignalState(NextGroup(NextGroup(s.active, groupsCount), groupsCount), CYCLE_LENGTH)
  {
    var n := CYCLE_LENGTH + 1;
    CycleHandsOver(s, groupsCount, n);
    var s1 := Updates(s, groupsCount, n);
    CycleHandsOver(s1, groupsCount, n);
    UpdatesAdd(s, groupsCount, n, n);
  }

  /**
   * With two groups, a signal at the start of group 0's cycle (a fresh one, say)
   * hands over to group 1 after one full cycle and back to group 0 after two.
   */
  lemma TwoGroupsAlternate(s: SignalState, groupsCount: nat)
    requires s.active == Group(0) && s.countdown == CYCLE_LENGTH && groupsCount == 2
    ensures Updates(s, groupsCount, CYCLE_LENGTH + 1) == SignalState(Group(1), CYCLE_LENGTH)
    ensures Updates(s, groupsCount, 2 * (CYCLE_LENGTH + 1)) == SignalState(Group(0), CYCLE_LENGTH)
  {
    CycleHandsOver(s, groupsCount, CYCLE_LENGTH + 1);
    TwoCycles(s, groupsCount);
    assert NextGroup(Group(1), groupsCount) == Group(0);
  }

  /** Updating `m` then `n` times is updating `m + n` times. */
  lemma {:induction false} UpdatesAdd(s: SignalState, groupsCount: nat, m: nat, n: nat)
    ensures Updates(Updates(s, groupsCount, m), groupsCount, n) == Updates(s, groupsCount, m + n)
  {
    if n > 0 {
      UpdatesAdd(s, groupsCount, m, n - 1);
    }
  }

  /** A traffic signal (`TrafficSignal`), updated in place once per simulation tick. */
  class TrafficSignal {
    var activeGroupIndex: ActiveGroup
    var currentCycleLength: int
    const stopDistance: real
    const slowDistance: real
    const groupsCount: nat

    function State(): SignalState
      reads this`activeGroupIndex, this`currentCycleLength
    {
      SignalState(activeGroupIndex, currentCycleLength)
    }

    constructor (groupsCount: nat)
      ensures this.groupsCount == groupsCount
      ensures State() == Fresh && State().Valid(groupsCount)
      ensures stopDistance == 20.0 && slowDistance == 55.0
    {
      this.groupsCount := groupsCount;
      activeGroupIndex := Group(0);
      currentCycleLength := CYCLE_LENGTH;
      stopDistance := 20.0;
      slowDistance := 55.0;
    }

    /** `isGroupStopped`, a query that changes nothing. */
    predicate IsGroupStopped(groupIndex: int)
      reads this`activeGroupIndex, this`currentCycleLength
    {
      State().IsGroupStopped(groupIndex)
    }

    /** `update`: one step of the countdown. */
    method Update()
      modifies this`activeGroupIndex, this`currentCycleLength
      ensures State() == old(State()).Updated(groupsCount)
      ensures old(State().Valid(groupsCount)) ==> State().Valid(groupsCount)
    {
      currentCycleLength := currentCycleLength - 1;
      if currentCycleLength < 0 {
        currentCycleLength := CYCLE_LENGTH;
        activeGroupIndex := NextGroup(activeGroupIndex, groupsCount);
      }
    }
  }
}
