/**
 * The traffic on the lane graph as a value: every lane's queue, the state of
 * every vehicle and the vehicles reported removed, with the engine's `tick`
 * written as functions on it. `Engine.Simulation` proves that its methods
 * change the heap exactly as these functions say.
 */
module LaneTraffic {
  import opened Basics
  import opened Vehicles
  import opened LaneGraph

  /** `findFirstVehicle`'s result: the lane, its rearmost vehicle and the distance to it. */
  datatype FirstFound = FirstFound(lane: Lane, vehicle: Vehicle<Lane>, distanceToVehicle: real)

  /** `findDistanceToLeadVehicle`'s result: the lead vehicle and the gap to it. */
  datatype LeadFound = LeadFound(leadVehicle: Vehicle<Lane>, distance: real)

  /**
   * One vehicle as a tick sees it: the motion and lane index it rewrites, and
   * the path and driver parameters it only reads.
   */
  datatype Car = Car(motion: Motion, index: int, path: seq<Lane>, driver: Driver)

  /** The queue of every lane, every vehicle's state and the vehicles reported removed, in order. */
  datatype Traffic = Traffic(queues: map<Lane, seq<Vehicle<Lane>>>, cars: map<Vehicle<Lane>, Car>,
                             removed: seq<Vehicle<Lane>>)
  {
    /** The queue of `l`, front first; empty for a lane the traffic does not hold. */
    function Queue(l: Lane): seq<Vehicle<Lane>> {
      if l in queues then queues[l] else []
    }

    /** The position of `v` on its lane (0 for a vehicle the traffic does not hold). */
    function X(v: Vehicle<Lane>): real {
      if v in cars then cars[v].motion.x else 0.0
    }

    /** The speed of `v` (0 for a vehicle the traffic does not hold). */
    function Speed(v: Vehicle<Lane>): real {
      if v in cars then cars[v].motion.speed else 0.0
    }
  }

  /**
   * `findFirstVehicle` on the traffic: the rearmost vehicle of the first
   * non-empty lane of `path` from `k` on, at the summed length of the lanes
   * skipped plus its position.
   */
  function FirstAhead(t: Traffic, path: seq<Lane>, k: nat): (r: Option<FirstFound>)
    decreases |path| - k
    ensures r.Some? ==>
      && k < |path| && r.value.lane in path[k..] && |t.Queue(r.value.lane)| > 0
      && r.value.vehicle == Last(t.Queue(r.value.lane))
    ensures r.None? <==> forall j :: k <= j < |path| ==> |t.Queue(path[j])| == 0
  {
    if k >= |path| then None
    else
      var q := t.Queue(path[k]);
      if |q| > 0 then Some(FirstFound(path[k], Last(q), t.X(Last(q))))
      else
        match FirstAhead(t, path, k + 1)
        case None => None
        case Some(f) => Some(FirstFound(f.lane, f.vehicle, path[k].length + f.distanceToVehicle))
  }

  /** A found vehicle, further away by `d`. */
  function Shifted(r: Option<FirstFound>, d: real): Option<FirstFound> {
    match r
    case None => None
    case Some(f) => Some(FirstFound(f.lane, f.vehicle, d + f.distanceToVehicle))
  }

  /** Past an empty lane the search goes on, that lane's length further. */
  lemma FirstAheadSkips(t: Traffic, path: seq<Lane>, k: nat)
    requires k < |path| && |t.Queue(path[k])| == 0
    ensures FirstAhead(t, path, k) == Shifted(FirstAhead(t, path, k + 1), path[k].length)
  {
  }

  /** At a non-empty lane the search stops at its rearmost vehicle. */
  lemma FirstAheadStops(t: Traffic, path: seq<Lane>, k: nat)
    requires k < |path| && |t.Queue(path[k])| > 0
    ensures var v := Last(t.Queue(path[k]));
      FirstAhead(t, path, k) == Some(FirstFound(path[k], v, t.X(v)))
  {
  }

  /**
   * `findDistanceToLeadVehicle` on the traffic, for the vehicle at
   * `vehicleIndex` of lane `k` of `path`: the vehicle just ahead on the same
   * lane, or for the front vehicle the first one further along the path; the
   * gap is bumper to bumper. Nothing when there is no such vehicle.
   */
  function LeadAhead(t: Traffic, path: seq<Lane>, k: int, vehicleIndex: nat): (r: Option<LeadFound>)
    ensures 0 <= k < |path| && 0 < vehicleIndex < |t.Queue(path[k])| ==>
      r.Some? && r.value.leadVehicle == t.Queue(path[k])[vehicleIndex - 1]
    ensures 0 <= k < |path| && vehicleIndex == 0 && |t.Queue(path[k])| > 0 ==>
      (r.None? <==> FirstAhead(t, path, k + 1).None?)
      && (r.Some? ==> r.value.leadVehicle == FirstAhead(t, path, k + 1).value.vehicle)
  {
    if k < 0 || k >= |path| || vehicleIndex >= |t.Queue(path[k])| then None
    else
      var lane := path[k];
      var q := t.Queue(lane);
      var vehicle := q[vehicleIndex];
      if vehicleIndex > 0 then
        var leadVehicle := q[vehicleIndex - 1];
        Some(LeadFound(leadVehicle, t.X(leadVehicle) - leadVehicle.length / 2.0 - t.X(vehicle) - vehicle.length / 2.0))
      else
        match FirstAhead(t, path, k + 1)
        case None => None
        case Some(leadVehicle) =>
          var distanceToEndOfRoute := lane.length - t.X(vehicle);
          Some(LeadFound(leadVehicle.vehicle,
            distanceToEndOfRoute + leadVehicle.distanceToVehicle - leadVehicle.vehicle.length / 2.0 - vehicle.length / 2.0))
  }

  /**
   * `vehicle.tick(...)` on the traffic: `v` makes its kinematic step, then
   * responds to the lead found (whose speed is read after the step, so a
   * vehicle that leads itself sees its new speed). Nothing else changes; a
   * vehicle the traffic does not hold, or one with invalid driver parameters,
   * stays as it is.
   */
  function Ticked(t: Traffic, v: Vehicle<Lane>, lead: Option<LeadFound>): (r: Traffic)
    ensures r.queues == t.queues && r.removed == t.removed && r.cars.Keys == t.cars.Keys
    ensures forall u :: u in t.cars && u != v ==> r.cars[u] == t.cars[u]
    ensures v in t.cars && t.cars[v].driver.Valid() ==>
      var c := t.cars[v];
      var moved := Kinematics(c.motion);
      && r.cars[v].index == c.index && r.cars[v].path == c.path && r.cars[v].driver == c.driver
      && r.cars[v].motion.x == moved.x && r.cars[v].motion.speed >= 0.0
  {
    if v !in t.cars || !t.cars[v].driver.Valid() then t
    else
      var c := t.cars[v];
      var moved := Kinematics(c.motion);
      var leadSpeed :=
        if lead.None? then None
        else if lead.value.leadVehicle == v then Some(moved.speed)
        else Some(t.Speed(lead.value.leadVehicle));
      var gap := if lead.None? then None else Some(lead.value.distance);
      t.(cars := t.cars[v := c.(motion := Respond(moved, leadSpeed, gap, c.driver))])
  }

  /** The lane `v` moves to when it leaves its current one, if its path goes on. */
  function NextLane(c: Car): Option<Lane> {
    if 0 <= c.index + 1 < |c.path| then Some(c.path[c.index + 1]) else None
  }

  /** The queue of `l` in `queues`, empty when `l` has none. */
  function QueueIn(queues: map<Lane, seq<Vehicle<Lane>>>, l: Lane): seq<Vehicle<Lane>> {
    if l in queues then queues[l] else []
  }

  /**
   * The transfer at the end of each step of `tickLaneVehicles`: when the
   * front vehicle of `lane` is past its end, it leaves the front, restarts at
   * position 0 with its lane index advanced, and joins the back of the next
   * lane of its path, or is reported removed when its path is done.
   * Otherwise nothing changes.
   */
  function Advanced(t: Traffic, lane: Lane): (r: Traffic)
    ensures var q := t.Queue(lane);
      if |q| == 0 || q[0] !in t.cars || t.X(q[0]) <= lane.length then r == t
      else
        var v, c := q[0], t.cars[q[0]];
        && r.cars == t.cars[v := c.(motion := c.motion.(x := 0.0), index := c.index + 1)]
        && r.queues.Keys == t.queues.Keys + (if NextLane(c).Some? then {NextLane(c).value} else {})
        && (forall l: Lane :: l in r.queues && l != lane && NextLane(c) != Some(l) ==> r.queues[l] == t.Queue(l))
        && r.Queue(lane) == q[1..] + (if NextLane(c) == Some(lane) then [v] else [])
        && (NextLane(c).Some? && NextLane(c).value != lane ==>
              r.Queue(NextLane(c).value) == t.Queue(NextLane(c).value) + [v])
        && r.removed == t.removed + (if c.index + 1 < |c.path| then [] else [v])
  {
    var q := t.Queue(lane);
    if |q| == 0 || q[0] !in t.cars || t.X(q[0]) <= lane.length then t
    else
      var v, c := q[0], t.cars[q[0]];
      var shifted := t.queues[lane := q[1..]];
      var queues := match NextLane(c)
        case Some(next) => shifted[next := QueueIn(shifted, next) + [v]]
        case None => shifted;
      Traffic(queues,
              t.cars[v := c.(motion := c.motion.(x := 0.0), index := c.index + 1)],
              t.removed + (if c.index + 1 < |c.path| then [] else [v]))
  }

  /** A traffic that agrees with a transfer lane by lane and vehicle by vehicle is that transfer. */
  lemma AdvancedPointwise(t: Traffic, lane: Lane, r: Traffic)
    requires var q := t.Queue(lane); |q| > 0 && q[0] in t.cars && t.X(q[0]) > lane.length
    requires var v := t.Queue(lane)[0]; var c := t.cars[v];
      && lane in t.queues && (NextLane(c).Some? ==> NextLane(c).value in t.queues)
      && r.queues.Keys == t.queues.Keys && r.cars.Keys == t.cars.Keys
      && (forall l: Lane :: l in t.queues ==>
            r.queues[l] == (if l == lane then t.queues[l][1..] else t.queues[l])
                           + (if NextLane(c) == Some(l) then [v] else []))
      && r.cars[v] == c.(motion := c.motion.(x := 0.0), index := c.index + 1)
      && (forall u :: u in t.cars && u != v ==> r.cars[u] == t.cars[u])
      && r.removed == t.removed + (if c.index + 1 < |c.path| then [] else [v])
    ensures r == Advanced(t, lane)
  {
    var w := Advanced(t, lane);
    assert w.queues.Keys == r.queues.Keys;
    forall l | l in r.queues
      ensures r.queues[l] == w.queues[l]
    {
      assert w.Queue(l) == w.queues[l];
    }
    assert r.queues == w.queues;
    assert r.cars == w.cars;
  }

  /**
   * The first half of the callback of `tickLaneVehicles` for index
   * `vehicleIndex`: the vehicle at that index of the lane's queue AS IT NOW
   * STANDS ticks behind its lead.
   */
  function TickedAt(t: Traffic, lane: Lane, vehicleIndex: nat): (r: Traffic)
  {
    var q := t.Queue(lane);
    if vehicleIndex >= |q| || q[vehicleIndex] !in t.cars then t
    else
      var v := q[vehicleIndex];
      var c := t.cars[v];
      Ticked(t, v, LeadAhead(t, c.path, c.index, vehicleIndex))
  }

  /**
   * The callback of `tickLaneVehicles` for index `vehicleIndex`: the tick of
   * the vehicle at that index, then the front transfer. An index past the
   * current end of the queue is skipped, as `forEach` skips it.
   */
  function StepAt(t: Traffic, lane: Lane, vehicleIndex: nat): (r: Traffic)
  {
    if vehicleIndex >= |t.Queue(lane)| then t else Advanced(TickedAt(t, lane, vehicleIndex), lane)
  }

  /**
   * The first `i` steps of `tickLaneVehicles` on `lane`. The recursion is in
   * `StepsRun` and `StepRun`; this wrapper exposes one unfolding at a time.
   */
  function LaneSteps(t: Traffic, lane: Lane, i: nat): Traffic
  {
    StepsRun(t, lane, i)
  }

  /** The first `i` steps, as a recursion through `StepRun`. */
  function StepsRun(t: Traffic, lane: Lane, i: nat): Traffic
    decreases i, 0
  {
    if i == 0 then t else StepRun(t, lane, i - 1)
  }

  /** The traffic once the callback for index `i` has run, after the steps before it. */
  function StepRun(t: Traffic, lane: Lane, i: nat): Traffic
    decreases i, 1
  {
    StepAt(StepsRun(t, lane, i), lane, i)
  }

  /** One more step of `tickLaneVehicles` is the step at the next index. */
  lemma LaneStepsNext(t: Traffic, lane: Lane, i: nat)
    ensures LaneSteps(t, lane, i + 1) == StepAt(LaneSteps(t, lane, i), lane, i)
  {
    assert StepsRun(t, lane, i + 1) == StepRun(t, lane, i);
  }

  /**
   * `tickLaneVehicles`: one step per index below the queue's length at the
   * start. A transfer shifts the queue under the loop, so after one the
   * vehicle that moves into the index just handled is not ticked in this
   * pass (see `AdvancedShifts` and `ShiftSkipsNext`).
   */
  function LanePass(t: Traffic, lane: Lane): Traffic
  {
    StepsRun(t, lane, |t.Queue(lane)|)
  }

  /** `tickLaneVehicles` on each of `lanes` in turn. */
  function LanesPass(t: Traffic, lanes: seq<Lane>): Traffic
    decreases |lanes|
  {
    if |lanes| == 0 then t else LanePass(LanesPass(t, lanes[..|lanes| - 1]), lanes[|lanes| - 1])
  }

  /** Passing over `a + b` is passing over `a`, then over `b`. */
  lemma {:induction false} LanesPassAppend(t: Traffic, a: seq<Lane>, b: seq<Lane>)
    ensures LanesPass(t, a + b) == LanesPass(LanesPass(t, a), b)
    decreases |b|
  {
    if |b| == 0 {
      assert a + b == a;
    } else {
      var n := |b| - 1;
      assert (a + b)[..|a + b| - 1] == a + b[..n];
      assert (a + b)[|a + b| - 1] == b[n];
      LanesPassAppend(t, a, b[..n]);
    }
  }

  /**
   * The transfer leaves the queue of `lane` as it was, or drops its front
   * vehicle (which rejoins at the back only when its path comes back to the
   * same lane).
   */
  lemma AdvancedShifts(t: Traffic, lane: Lane)
    ensures var q, r := t.Queue(lane), Advanced(t, lane).Queue(lane);
      r == q || (|q| > 0 && (r == q[1..] || r == q[1..] + [q[0]]))
  {
  }

  /**
   * After step `i` shifts the front vehicle off `lane` (and it does not come
   * back), the vehicle that stood at index `i + 1` now stands at index `i`,
   * which the loop has passed: it is not ticked in this pass.
   */
  lemma ShiftSkipsNext(t: Traffic, lane: Lane, i: nat)
    requires i + 1 < |t.Queue(lane)|
    requires StepAt(t, lane, i).Queue(lane) == t.Queue(lane)[1..]
    ensures StepAt(t, lane, i).Queue(lane)[i] == t.Queue(lane)[i + 1]
  {
  }

  /** A step changes neither the speed, the acceleration nor the lane index of a vehicle not queued on the lane. */
  lemma StepFrame(t: Traffic, lane: Lane, i: nat, u: Vehicle<Lane>)
    requires u in t.cars && u !in t.Queue(lane)
    ensures var r := StepAt(t, lane, i);
      u in r.cars && r.cars[u].motion.speed == t.cars[u].motion.speed
      && r.cars[u].motion.acceleration == t.cars[u].motion.acceleration
      && r.cars[u].index == t.cars[u].index
  {
  }

  /** Every vehicle queued on `lane` after some steps was queued there at the start. */
  lemma {:induction false} LaneStepsKeepQueue(t: Traffic, lane: Lane, i: nat)
    ensures forall v :: v in LaneSteps(t, lane, i).Queue(lane) ==> v in t.Queue(lane)
    ensures LaneSteps(t, lane, i).cars.Keys == t.cars.Keys
  {
    if i > 0 {
      var s := LaneSteps(t, lane, i - 1);
      LaneStepsNext(t, lane, i - 1);
      LaneStepsKeepQueue(t, lane, i - 1);
      AdvancedQueue(s, lane, i - 1);
    }
  }

  /** One step puts on `lane` only vehicles that were already queued on it, and keeps the set of vehicles. */
  lemma AdvancedQueue(t: Traffic, lane: Lane, i: nat)
    ensures forall v :: v in StepAt(t, lane, i).Queue(lane) ==> v in t.Queue(lane)
    ensures StepAt(t, lane, i).cars.Keys == t.cars.Keys
  {
    if i < |t.Queue(lane)| {
      AdvancedShifts(TickedAt(t, lane, i), lane);
    }
  }

  /**
   * A lane's pass changes neither the speed, the acceleration nor the lane
   * index of a vehicle that was not queued on the lane.
   */
  lemma {:induction false} LaneStepsFrame(t: Traffic, lane: Lane, i: nat, u: Vehicle<Lane>)
    requires u in t.cars && u !in t.Queue(lane)
    ensures var r := LaneSteps(t, lane, i);
      u in r.cars && r.cars[u].motion.speed == t.cars[u].motion.speed
      && r.cars[u].motion.acceleration == t.cars[u].motion.acceleration
      && r.cars[u].index == t.cars[u].index
  {
    if i > 0 {
      var s := LaneSteps(t, lane, i - 1);
      LaneStepsNext(t, lane, i - 1);
      LaneStepsFrame(t, lane, i - 1, u);
      LaneStepsKeepQueue(t, lane, i - 1);
      StepFrame(s, lane, i - 1, u);
    }
  }
}
