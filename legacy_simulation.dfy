/**
 * The older engine of `src/Simulation.ts`: roads built one per graph edge,
 * vehicles queued on roads by road index, a car-following step with a
 * per-vehicle acceleration limit and a bumper-to-bumper crash test, and
 * vehicles added on a route found by `dijkstra`.
 */
module Legacy {
  import opened Basics
  import opened Graphs
  import opened Pathfinding
  import Vehicles

  /** What `tick` reads from a vehicle besides its motion. */
  datatype Traits = Traits(length: real, maxSpeed: real, maxAcceleration: real, reactionTime: real, accelerationRoot: real)
  {
    /** `accelerationRoot` stands for `Math.sqrt(maxAcceleration * maxDeceleration)`. */
    predicate Valid() {
      length > 0.0 && maxSpeed > 0.0 && maxAcceleration > 0.0 && accelerationRoot > 0.0
    }

    /** The parameters the shared interaction term reads. */
    function Driver(): (d: Vehicles.Driver)
      ensures Valid() ==> d.Valid()
    {
      Vehicles.Driver(maxSpeed, reactionTime, accelerationRoot, false)
    }
  }

  /** `maxAcceleration * (1 - (speed/maxSpeed)^4 - alpha^2)`, with this vehicle's own acceleration limit. */
  function Acceleration(speed: real, maxSpeed: real, maxAcceleration: real, alpha: real): real
    requires maxSpeed > 0.0
  {
    var q := speed / maxSpeed;
    maxAcceleration * (1.0 - q * q * q * q - alpha * alpha)
  }

  /**
   * The acceleration update after the kinematic step, behind `lead` when there
   * is a lead vehicle. The gap is `lead.x - x - length`; a negative gap is a
   * crash: the vehicle stops dead. A gap of exactly 0 is also taken as a crash.
   */
  function Respond(m: Vehicles.Motion, lead: Option<Vehicles.Motion>, t: Traits): (r: Vehicles.Motion)
    requires t.Valid()
    ensures r.x == m.x
    ensures lead.Some? && lead.value.x - m.x - t.length < 0.0 ==> r.speed == 0.0 && r.acceleration == 0.0
    ensures lead.None? ==> r.speed == m.speed && r.acceleration == Acceleration(m.speed, t.maxSpeed, t.maxAcceleration, 0.0)
    ensures lead.Some? && lead.value.x - m.x - t.length > 0.0 ==>
      && r.speed == m.speed
      && r.acceleration == Acceleration(m.speed, t.maxSpeed, t.maxAcceleration,
                                        Vehicles.Alpha(m.speed, lead.value.speed, lead.value.x - m.x - t.length, t.Driver()))
  {
    if lead.None? then
      Vehicles.Motion(m.x, m.speed, Acceleration(m.speed, t.maxSpeed, t.maxAcceleration, 0.0))
    else
      var gap := lead.value.x - m.x - t.length;
      if gap <= 0.0 then Vehicles.Motion(m.x, 0.0, 0.0)
      else
        var alpha := Vehicles.Alpha(m.speed, lead.value.speed, gap, t.Driver());
        Vehicles.Motion(m.x, m.speed, Acceleration(m.speed, t.maxSpeed, t.maxAcceleration, alpha))
  }

  /** After a whole `tick` the speed is never negative: the kinematic step clamps it and the crash sets it to 0. */
  lemma StepKeepsSpeed(m: Vehicles.Motion, lead: Option<Vehicles.Motion>, t: Traits)
    requires t.Valid()
    ensures Respond(Vehicles.Kinematics(m), lead, t).speed >= 0.0
  {
  }

  /** With no lead and a speed below its maximum, a vehicle accelerates. */
  lemma FreeFlowAccelerates(m: Vehicles.Motion, t: Traits)
    requires t.Valid() && 0.0 <= m.speed < t.maxSpeed
    ensures Respond(m, None, t).acceleration > 0.0
  {
    var q := m.speed / t.maxSpeed;
    assert 0.0 <= q < 1.0 by {
      assert q * t.maxSpeed == m.speed;
    }
    assert q * q < 1.0;
    assert q * q * q * q <= q * q;
    Vehicles.ScaleStrict(t.maxAcceleration, 0.0, 1.0 - q * q * q * q);
  }

  /**
   * Behind a lead closer than the desired following distance (but not
   * touching it), a vehicle brakes: the interaction term exceeds 1.
   */
  lemma CloseLeadBrakes(m: Vehicles.Motion, lead: Vehicles.Motion, t: Traits)
    requires t.Valid() && 0.0 < lead.x - m.x - t.length < Vehicles.DESIRED_DISTANCE
    ensures Respond(m, Some(lead), t).acceleration < 0.0
  {
    var gap := lead.x - m.x - t.length;
    var alpha := Vehicles.Alpha(m.speed, lead.speed, gap, t.Driver());
    assert alpha * gap >= Vehicles.DESIRED_DISTANCE;
    assert alpha > 1.0 by {
      if alpha <= 1.0 {
        Vehicles.ScaleMonotone(gap, alpha, 1.0);
        assert false;
      }
    }
    assert alpha * alpha > 1.0 by {
      Vehicles.ScaleStrict(alpha, 1.0, alpha);
    }
    var q := m.speed / t.maxSpeed;
    assert q * q * q * q >= 0.0 by {
      assert q * q * q * q == (q * q) * (q * q);
    }
    Vehicles.ScaleStrict(t.maxAcceleration, 1.0 - q * q * q * q - alpha * alpha, 0.0);
  }

  /** `Math.floor(6 + Math.random() * 40)`, with the draw in `[0, 1)`. */
  function InitialMaxSpeed(draw: real): (maxSpeed: int)
    requires 0.0 <= draw < 1.0
    ensures 6 <= maxSpeed <= 45
  {
    (6.0 + draw * 40.0).Floor
  }

  /** `1.44 + Math.random() * 1.5`, with the draw in `[0, 1)`. */
  function InitialMaxAcceleration(draw: real): (maxAcceleration: real)
    requires 0.0 <= draw < 1.0
    ensures Vehicles.MAX_ACCELERATION <= maxAcceleration < Vehicles.MAX_ACCELERATION + 1.5
  {
    1.44 + draw * 1.5
  }

  /** `Math.floor(Math.random() * n)`: a node index drawn from `[0, n)`, or 0 when there are no nodes. */
  function RandomIndex(draw: real, n: nat): (i: int)
    requires 0.0 <= draw < 1.0
    ensures n > 0 ==> 0 <= i < n
    ensures n == 0 ==> i == 0
  {
    var scaled := n as real * draw;
    assert 0.0 <= scaled < n as real || n == 0 by {
      if n > 0 {
        Vehicles.ScaleStrict(n as real, draw, 1.0);
        Vehicles.ScaleMonotone(n as real, 0.0, draw);
      }
    }
    scaled.Floor
  }

  /**
   * The motions of a road's queue after one pass of `tick` over it: vehicle
   * `k` makes its kinematic step and responds to vehicle `k - 1` as that one
   * has just become; the front vehicle has no lead.
   */
  function TickQueue(before: seq<Vehicles.Motion>, profiles: seq<Traits>): (after: seq<Vehicles.Motion>)
    requires |profiles| == |before| && forall k :: 0 <= k < |profiles| ==> profiles[k].Valid()
    ensures |after| == |before|
    decreases |before|
  {
    if |before| == 0 then []
    else
      var n := |before| - 1;
      var front := TickQueue(before[..n], profiles[..n]);
      front + [Respond(Vehicles.Kinematics(before[n]), Ahead(front, n), profiles[n])]
  }

  /**
   * The queue pass, vehicle by vehicle: vehicle `k` responds to vehicle
   * `k - 1` as that one has just become, the front vehicle to no lead, and
   * its speed does not end negative.
   */
  lemma {:induction false} TickQueueAt(before: seq<Vehicles.Motion>, profiles: seq<Traits>, k: nat)
    requires |profiles| == |before| && forall j :: 0 <= j < |profiles| ==> profiles[j].Valid()
    requires k < |before|
    ensures var after := TickQueue(before, profiles);
      && after[k] == Respond(Vehicles.Kinematics(before[k]), Ahead(after, k), profiles[k])
      && after[k].speed >= 0.0
    decreases |before|
  {
    var n := |before| - 1;
    var after, front := TickQueue(before, profiles), TickQueue(before[..n], profiles[..n]);
    if k < n {
      TickQueueAt(before[..n], profiles[..n], k);
      assert after[k] == front[k] && before[..n][k] == before[k] && profiles[..n][k] == profiles[k];
      if k > 0 {
        assert after[k - 1] == front[k - 1];
      }
    }
    StepKeepsSpeed(before[k], Ahead(after, k), profiles[k]);
  }

  /** The motions of a queue, vehicle by vehicle. */
  function Motions(vehicles: seq<Vehicle>): (ms: seq<Vehicles.Motion>)
    reads set v | v in vehicles
    ensures |ms| == |vehicles| && forall k :: 0 <= k < |vehicles| ==> ms[k] == vehicles[k].State()
  {
    seq(|vehicles|, k requires 0 <= k < |vehicles| reads set v | v in vehicles => vehicles[k].State())
  }

  /** The traits of a queue, vehicle by vehicle. */
  function Profiles(vehicles: seq<Vehicle>): (ps: seq<Traits>)
    ensures |ps| == |vehicles| && forall k :: 0 <= k < |vehicles| ==> ps[k] == vehicles[k].Profile()
    ensures (forall k :: 0 <= k < |vehicles| ==> vehicles[k].Valid()) ==> forall k :: 0 <= k < |ps| ==> ps[k].Valid()
  {
    seq(|vehicles|, k requires 0 <= k < |vehicles| => vehicles[k].Profile())
  }

  /** The vehicle just ahead of position `k` in a queue, as it now is; none for the front vehicle. */
  function Ahead(queue: seq<Vehicles.Motion>, k: nat): (lead: Option<Vehicles.Motion>)
    requires k <= |queue|
    ensures lead.None? <==> k == 0
  {
    if k == 0 then None else Some(queue[k - 1])
  }

  /**
   * `ticked` is the queue pass over the first `|ticked|` vehicles: each
   * responds to its own kinematic step and to the vehicle just ahead as that
   * one has already become.
   */
  ghost predicate Responds(before: seq<Vehicles.Motion>, profiles: seq<Traits>, ticked: seq<Vehicles.Motion>)
    requires |profiles| == |before| && forall k :: 0 <= k < |profiles| ==> profiles[k].Valid()
  {
    && |ticked| <= |before|
    && forall k {:trigger before[k]} :: 0 <= k < |ticked| ==>
         ticked[k] == Respond(Vehicles.Kinematics(before[k]), Ahead(ticked, k), profiles[k])
  }

  /** A sequence of responses extends by the response of the next vehicle. */
  lemma RespondsSnoc(before: seq<Vehicles.Motion>, profiles: seq<Traits>, ticked: seq<Vehicles.Motion>)
    requires |profiles| == |before| && forall j :: 0 <= j < |profiles| ==> profiles[j].Valid()
    requires Responds(before, profiles, ticked) && |ticked| < |before|
    ensures var n := |ticked|;
      Responds(before, profiles, ticked + [Respond(Vehicles.Kinematics(before[n]), Ahead(ticked, n), profiles[n])])
  {
    var n := |ticked|;
    var longer := ticked + [Respond(Vehicles.Kinematics(before[n]), Ahead(ticked, n), profiles[n])];
    forall k | 0 <= k < |longer|
      ensures longer[k] == Respond(Vehicles.Kinematics(before[k]), Ahead(longer, k), profiles[k])
    {
      assert Ahead(longer, k) == Ahead(ticked, k);
    }
  }

  /** Agreement with the queue pass, index by index. */
  lemma {:induction false} RespondsAt(before: seq<Vehicles.Motion>, profiles: seq<Traits>, ticked: seq<Vehicles.Motion>, k: nat)
    requires |profiles| == |before| && forall j :: 0 <= j < |profiles| ==> profiles[j].Valid()
    requires Responds(before, profiles, ticked) && |ticked| == |before| && k < |ticked|
    ensures ticked[k] == TickQueue(before, profiles)[k]
    decreases k
  {
    var after := TickQueue(before, profiles);
    TickQueueAt(before, profiles, k);
    assert ticked[k] == Respond(Vehicles.Kinematics(before[k]), Ahead(ticked, k), profiles[k]);
    if k > 0 {
      RespondsAt(before, profiles, ticked, k - 1);
    }
  }

  /** The queue pass is the only full-length sequence of responses. */
  lemma RespondsIsTickQueue(before: seq<Vehicles.Motion>, profiles: seq<Traits>, ticked: seq<Vehicles.Motion>)
    requires |profiles| == |before| && forall j :: 0 <= j < |profiles| ==> profiles[j].Valid()
    requires |ticked| == |before|
    ensures Responds(before, profiles, ticked) <==> ticked == TickQueue(before, profiles)
  {
    var after := TickQueue(before, profiles);
    if Responds(before, profiles, ticked) {
      forall k | 0 <= k < |ticked| ensures ticked[k] == after[k] {
        RespondsAt(before, profiles, ticked, k);
      }
    } else if ticked == after {
      forall k | 0 <= k < |after|
        ensures after[k] == Respond(Vehicles.Kinematics(before[k]), Ahead(after, k), profiles[k])
      {
        TickQueueAt(before, profiles, k);
      }
      assert false;
    }
  }

  /** One step of TickEach: the vehicle at `index` reacts to the one just ahead of it. */
  method TickAt(vehicles: seq<Vehicle>, index: nat, ghost ticked: seq<Vehicles.Motion>)
    requires Distinct(vehicles) && index < |vehicles| && vehicles[index].Valid()
    requires |ticked| == index && (index > 0 ==> vehicles[index - 1].State() == ticked[index - 1])
    modifies {vehicles[index]}`x, {vehicles[index]}`speed, {vehicles[index]}`acceleration
    ensures vehicles[index].State()
      == Respond(Vehicles.Kinematics(old(vehicles[index].State())),
                 Ahead(ticked, index), vehicles[index].Profile())
  {
    var vehicle := vehicles[index];
    assert index > 0 ==> vehicles[index - 1] != vehicle;
    vehicle.Tick(if index > 0 then vehicles[index - 1] else null);
  }

  /**
   * The `forEach` of `tick` over a road's queue: every vehicle ticks in queue
   * order behind the vehicle before it, which has already ticked; the front
   * vehicle has no lead.
   */
  method TickEach(vehicles: seq<Vehicle>)
    requires Distinct(vehicles) && forall k :: 0 <= k < |vehicles| ==> vehicles[k].Valid()
    modifies (set v | v in vehicles)`x, (set v | v in vehicles)`speed, (set v | v in vehicles)`acceleration
    ensures Motions(vehicles) == TickQueue(old(Motions(vehicles)), Profiles(vehicles))
  {
    ghost var before := Motions(vehicles);
    ghost var profiles := Profiles(vehicles);
    ghost var ticked: seq<Vehicles.Motion> := [];
    var index := 0;
    while index < |vehicles|
      invariant 0 <= index <= |vehicles| && |ticked| == index && Responds(before, profiles, ticked)
      invariant forall k {:trigger vehicles[k].State()} :: 0 <= k < index ==> vehicles[k].State() == ticked[k]
      invariant forall k {:trigger vehicles[k].State()} :: index <= k < |vehicles| ==> vehicles[k].State() == before[k]
    {
      TickAt(vehicles, index, ticked);
      RespondsSnoc(before, profiles, ticked);
      ticked := ticked + [vehicles[index].State()];
      index := index + 1;
    }
    RespondsIsTickQueue(before, profiles, ticked);
  }

  /** A vehicle of the older engine; its path lists road indices. */
  class Vehicle {
    var x: real
    var speed: real
    var acceleration: real
    var path: seq<int>
    var currentRoadIndex: int
    const length: real
    const maxSpeed: real
    const maxAcceleration: real
    const driverReactionTime: real
    const accelerationRoot: real

    ghost predicate Valid() {
      Profile().Valid()
    }

    function State(): Vehicles.Motion
      reads this`x, this`speed, this`acceleration
    {
      Vehicles.Motion(x, speed, acceleration)
    }

    function Profile(): Traits {
      Traits(length, maxSpeed, maxAcceleration, driverReactionTime, accelerationRoot)
    }

    /**
     * A vehicle at rest at the start of an empty path, from the three random
     * draws of the source and the square root of its acceleration limit times
     * the deceleration limit 4.61.
     */
    constructor (lengthDraw: real, speedDraw: real, accelerationDraw: real, accelerationRoot: real)
      requires 0.0 <= lengthDraw < 1.0 && 0.0 <= speedDraw < 1.0 && 0.0 <= accelerationDraw < 1.0
      requires accelerationRoot > 0.0
      requires accelerationRoot * accelerationRoot == InitialMaxAcceleration(accelerationDraw) * Vehicles.MAX_DECELERATION
      ensures Valid() && State() == Vehicles.Motion(0.0, 0.0, 0.0) && path == [] && currentRoadIndex == 0
      ensures length == Vehicles.InitialLength(lengthDraw) && maxSpeed == InitialMaxSpeed(speedDraw) as real
      ensures maxAcceleration == InitialMaxAcceleration(accelerationDraw) && driverReactionTime == 1.0
      ensures this.accelerationRoot == accelerationRoot
    {
      x, speed, acceleration := 0.0, 0.0, 0.0;
      path, currentRoadIndex := [], 0;
      length := Vehicles.InitialLength(lengthDraw);
      maxSpeed := InitialMaxSpeed(speedDraw) as real;
      maxAcceleration := InitialMaxAcceleration(accelerationDraw);
      driverReactionTime := 1.0;
      this.accelerationRoot := accelerationRoot;
    }

    /**
     * `tick(leadVehicle)`: the kinematic step, then the acceleration law. The
     * lead is read after this vehicle's own update, as in the source.
     */
    method Tick(leadVehicle: Vehicle?)
      requires Valid()
      modifies this`x, this`speed, this`acceleration
      ensures var moved := Vehicles.Kinematics(old(State()));
        State() == Respond(moved,
          if leadVehicle == null then None
          else if leadVehicle == this then Some(moved)
          else Some(leadVehicle.State()),
          Profile())
    {
      // The kinematic step, clamped at rest when the speed would turn negative.
      if speed + acceleration * Vehicles.DT < 0.0 {
        x := x - 0.5 * speed * speed * acceleration;
        speed := 0.0;
      } else {
        speed := speed + acceleration * Vehicles.DT;
        x := x + speed * Vehicles.DT + (acceleration * Vehicles.DT * Vehicles.DT) / 2.0;
      }

      // The acceleration law behind the lead, if any.
      var alpha := 0.0;
      if leadVehicle != null {
        var distanceBetweenVehicle := leadVehicle.x - x - length;
        var speedDifference := speed - leadVehicle.speed;
        if distanceBetweenVehicle <= 0.0 {
          // No room left to the lead: the crash case stops the vehicle dead.
          speed := 0.0;
          acceleration := 0.0;
          return;
        }
        var sqrt := 2.0 * accelerationRoot;
        alpha := (Vehicles.DESIRED_DISTANCE + Vehicles.Max(0.0, driverReactionTime * speed + (speedDifference * speed) / sqrt))
          / distanceBetweenVehicle;
        assert alpha == Vehicles.Alpha(speed, leadVehicle.speed, distanceBetweenVehicle, Profile().Driver());
      }
      acceleration := Acceleration(speed, maxSpeed, maxAcceleration, alpha);
    }
  }

  /** A road of the older engine: its queue, lead vehicle first, and its end points. */
  class Road {
    var vehicles: seq<Vehicle>
    const source: Point
    const target: Point
    const length: real

    /** An empty road from `source` to `target`; `length` is the distance between them. */
    constructor (source: Point, target: Point, length: real)
      ensures vehicles == [] && this.source == source && this.target == target && this.length == length
    {
      vehicles := [];
      this.source, this.target, this.length := source, target, length;
    }
  }

  /** `v`'s path says it is on road `i`. */
  ghost predicate OnRoad(v: Vehicle, i: int)
    reads v`path, v`currentRoadIndex
  {
    0 <= v.currentRoadIndex < |v.path| && v.path[v.currentRoadIndex] == i
  }

  /** A vehicle as the older engine's `tick` sees it: the motion and road index it rewrites, the path and traits it reads. */
  datatype Rider = Rider(motion: Vehicles.Motion, path: seq<int>, roadIndex: int, traits: Traits)

  /**
   * The older engine's roads and vehicles as a value: the length and the queue
   * of each road by road index, the state of every vehicle, and the vehicles
   * reported removed, in order.
   */
  datatype World = World(lengths: seq<real>, queues: seq<seq<Vehicle>>, riders: map<Vehicle, Rider>, removed: seq<Vehicle>)

  /** The position of `x` in a sequence that holds it. */
  function IndexOf<T(==)>(s: seq<T>, x: T): (k: nat)
    requires x in s
    ensures k < |s| && s[k] == x
  {
    if s[0] == x then 0 else 1 + IndexOf(s[1..], x)
  }

  /** In a sequence without repeats, an element's position is the only one holding it. */
  lemma IndexOfDistinct<T>(s: seq<T>, k: nat)
    requires Distinct(s) && k < |s|
    ensures IndexOf(s, s[k]) == k
  {
  }

  /** Road `i` exists and its queue holds distinct known vehicles with valid traits. */
  predicate Tickable(w: World, i: nat) {
    && i < |w.queues|
    && Distinct(w.queues[i])
    && forall v :: v in w.queues[i] ==> v in w.riders && w.riders[v].traits.Valid()
  }

  /** The motions of queue `q`, front first. */
  function QueueMotions(w: World, q: seq<Vehicle>): (ms: seq<Vehicles.Motion>)
    requires forall v :: v in q ==> v in w.riders
    ensures |ms| == |q| && forall k :: 0 <= k < |q| ==> ms[k] == w.riders[q[k]].motion
  {
    seq(|q|, k requires 0 <= k < |q| => w.riders[q[k]].motion)
  }

  /** The traits of queue `q`, front first. */
  function QueueTraits(w: World, q: seq<Vehicle>): (ts: seq<Traits>)
    requires forall v :: v in q ==> v in w.riders
    ensures |ts| == |q| && forall k :: 0 <= k < |q| ==> ts[k] == w.riders[q[k]].traits
  {
    seq(|q|, k requires 0 <= k < |q| => w.riders[q[k]].traits)
  }

  /**
   * The first half of road `i`'s turn in `tick`: the queue pass `TickQueue`
   * over its vehicles, which rewrites their motions and nothing else. A road
   * whose queue does not meet `Tickable` is left as it is.
   */
  function TickRoad(w: World, i: nat): (r: World)
    ensures r.lengths == w.lengths && r.queues == w.queues && r.removed == w.removed
    ensures r.riders.Keys == w.riders.Keys
    ensures forall v :: v in w.riders && (!Tickable(w, i) || v !in w.queues[i]) ==> r.riders[v] == w.riders[v]
    ensures Tickable(w, i) ==>
      var q := w.queues[i];
      var after := TickQueue(QueueMotions(w, q), QueueTraits(w, q));
      forall k :: 0 <= k < |q| ==> r.riders[q[k]] == w.riders[q[k]].(motion := after[k])
  {
    if !Tickable(w, i) then w
    else
      var q := w.queues[i];
      var after := TickQueue(QueueMotions(w, q), QueueTraits(w, q));
      assert forall k :: 0 <= k < |q| ==> IndexOf(q, q[k]) == k by {
        forall k | 0 <= k < |q| ensures IndexOf(q, q[k]) == k {
          IndexOfDistinct(q, k);
        }
      }
      w.(riders := map v | v in w.riders :: if v in q then w.riders[v].(motion := after[IndexOf(q, v)]) else w.riders[v])
  }

  /** A world that agrees with the queue pass over road `i` vehicle by vehicle is that pass. */
  lemma TickRoadPointwise(w: World, i: nat, r: World)
    requires Tickable(w, i)
    requires r.lengths == w.lengths && r.queues == w.queues && r.removed == w.removed && r.riders.Keys == w.riders.Keys
    requires forall v :: v in w.riders && v !in w.queues[i] ==> r.riders[v] == w.riders[v]
    requires var q := w.queues[i];
      var after := TickQueue(QueueMotions(w, q), QueueTraits(w, q));
      forall k :: 0 <= k < |q| ==> r.riders[q[k]] == w.riders[q[k]].(motion := after[k])
    ensures r == TickRoad(w, i)
  {
    var t, q := TickRoad(w, i), w.queues[i];
    forall v | v in w.riders
      ensures r.riders[v] == t.riders[v]
    {
      if v in q {
        var k := IndexOf(q, v);
      }
    }
    assert r.riders == t.riders;
  }

  /** The road a rider moves to when it leaves its current one, if its path goes on. */
  function NextRoad(c: Rider): Option<int> {
    if 0 <= c.roadIndex + 1 < |c.path| then Some(c.path[c.roadIndex + 1]) else None
  }

  /** Whether the front vehicle of road `i` is known and past the end of the road. */
  predicate FrontPast(w: World, i: nat) {
    i < |w.queues| && i < |w.lengths| && |w.queues[i]| > 0 && w.queues[i][0] in w.riders
    && w.riders[w.queues[i][0]].motion.x > w.lengths[i]
  }

  /**
   * The second half of road `i`'s turn in `tick`: a front vehicle past the end
   * of the road leaves its front, restarts at 0 with its road index advanced,
   * and joins the back of the next road of its path (the shifted queue itself
   * when that is road `i` again), or is reported removed when its path is
   * done. Otherwise nothing changes.
   */
  function AdvanceRoad(w: World, i: nat): (r: World)
    ensures !FrontPast(w, i) ==> r == w
    ensures FrontPast(w, i) ==>
      var v, c := w.queues[i][0], w.riders[w.queues[i][0]];
      && r.lengths == w.lengths && |r.queues| == |w.queues|
      && r.riders == w.riders[v := c.(motion := c.motion.(x := 0.0), roadIndex := c.roadIndex + 1)]
      && (forall j :: 0 <= j < |w.queues| ==>
            r.queues[j] == (if j == i then w.queues[i][1..] else w.queues[j]) + (if NextRoad(c) == Some(j) then [v] else []))
      && r.removed == w.removed + (if c.roadIndex + 1 < |c.path| then [] else [v])
  {
    if !FrontPast(w, i) then w
    else
      var v, c := w.queues[i][0], w.riders[w.queues[i][0]];
      var shifted := w.queues[i := w.queues[i][1..]];
      var queues := match NextRoad(c)
        case Some(j) => if 0 <= j < |shifted| then shifted[j := shifted[j] + [v]] else shifted
        case None => shifted;
      World(w.lengths, queues,
            w.riders[v := c.(motion := c.motion.(x := 0.0), roadIndex := c.roadIndex + 1)],
            w.removed + (if c.roadIndex + 1 < |c.path| then [] else [v]))
  }

  /** A world that agrees with the transfer at road `i` road by road is that transfer. */
  lemma AdvanceRoadPointwise(w: World, i: nat, r: World)
    requires FrontPast(w, i)
    requires var v, c := w.queues[i][0], w.riders[w.queues[i][0]];
      && r.lengths == w.lengths && |r.queues| == |w.queues|
      && r.riders == w.riders[v := c.(motion := c.motion.(x := 0.0), roadIndex := c.roadIndex + 1)]
      && (forall j :: 0 <= j < |w.queues| ==>
            r.queues[j] == (if j == i then w.queues[i][1..] else w.queues[j]) + (if NextRoad(c) == Some(j) then [v] else []))
      && r.removed == w.removed + (if c.roadIndex + 1 < |c.path| then [] else [v])
    ensures r == AdvanceRoad(w, i)
  {
    var t := AdvanceRoad(w, i);
    assert r.queues == t.queues;
  }

  /** Road `i`'s whole turn in `tick`: its queue pass, then the transfer of its front vehicle. */
  function RoadTurn(w: World, i: nat): World {
    AdvanceRoad(TickRoad(w, i), i)
  }

  /** The turns of the first `n` roads, in road order. */
  function TickRoads(w: World, n: nat): World
    decreases n, 0
  {
    if n == 0 then w else TurnAfter(w, n - 1)
  }

  /** The world once road `i` has had its turn, after the roads before it. */
  function TurnAfter(w: World, i: nat): World
    decreases i, 1
  {
    RoadTurn(TickRoads(w, i), i)
  }

  /** The turns of one more road are the turn of that road after the others. */
  lemma TickRoadsNext(w: World, i: nat)
    ensures TickRoads(w, i + 1) == RoadTurn(TickRoads(w, i), i)
  {
    assert TickRoads(w, i + 1) == TurnAfter(w, i);
  }

  /**
   * `tick` as a value: the turn of every road in road order. A vehicle moved
   * onto a later road is ticked again in that road's turn.
   */
  function TickWorld(w: World): World {
    TickRoads(w, |w.queues|)
  }

  /**
   * `r` has the roads, the vehicles and each vehicle's path and traits of
   * `w`, and extends its reports of removed vehicles.
   */
  ghost predicate Keeps(w: World, r: World) {
    && r.lengths == w.lengths && |r.queues| == |w.queues| && r.riders.Keys == w.riders.Keys
    && w.removed <= r.removed
    && forall v :: v in w.riders ==> r.riders[v].path == w.riders[v].path && r.riders[v].traits == w.riders[v].traits
  }

  /** One road's turn keeps the roads, the vehicles and their paths and traits, and only adds reports. */
  lemma RoadTurnKeeps(w: World, i: nat)
    ensures Keeps(w, RoadTurn(w, i))
  {
    var m := TickRoad(w, i);
    assert Keeps(w, m);
    assert Keeps(m, AdvanceRoad(m, i));
  }

  /**
   * The turns of the first `n` roads keep the roads, the set of vehicles and
   * each vehicle's path and traits; the reports of removed vehicles only grow.
   */
  lemma {:induction false} TickRoadsKeeps(w: World, n: nat)
    ensures Keeps(w, TickRoads(w, n))
  {
    if n > 0 {
      var m := TickRoads(w, n - 1);
      TickRoadsKeeps(w, n - 1);
      RoadTurnKeeps(m, n - 1);
      TickRoadsNext(w, n - 1);
    }
  }

  /** The length of each road, in road order. */
  function Lengths(rs: seq<Road>): (ls: seq<real>)
    ensures |ls| == |rs| && forall k :: 0 <= k < |rs| ==> ls[k] == rs[k].length
  {
    seq(|rs|, k requires 0 <= k < |rs| => rs[k].length)
  }

  /** The queue of each road, in road order. */
  function QueuesOf(rs: seq<Road>): (qs: seq<seq<Vehicle>>)
    reads set r | r in rs
    ensures |qs| == |rs| && forall k :: 0 <= k < |rs| ==> qs[k] == rs[k].vehicles
  {
    seq(|rs|, k requires 0 <= k < |rs| reads set r | r in rs => rs[k].vehicles)
  }

  /** One front-of-road transfer: the index of the road left and the vehicle that leaves it. */
  datatype Transfer = Transfer(i: nat, vehicle: Vehicle)

  class Simulation {
    const graph: Graph
    /** `Phaser.Math.Distance.Between` on node positions: road lengths and edge weights. */
    const measure: (Point, Point) -> real
    const roads: seq<Road>
    ghost const Roads: set<Road>
    /** The vehicles reported to `onVehicleAdded`, in order. */
    var added: seq<Vehicle>
    /** The vehicles reported to `onVehicleRemoved`, in order. */
    var removed: seq<Vehicle>
    /** Every vehicle ever added. */
    ghost var Fleet: set<Vehicle>

    /**
     * The older engine's invariant. Roads hold distinct vehicles, each on the
     * road its path says it is on; every vehicle added is either queued on that
     * road or reported removed after the end of its path.
     */
    ghost predicate Valid()
      reads this, (set r | r in roads)`vehicles, Fleet`path, Fleet`currentRoadIndex
    {
      && graph.Valid() && NonNegative(measure)
      && |roads| == |graph.edges| && Distinct(roads) && Roads == (set r | r in roads)
      && Queues() && Places()
    }

    /** Every road's queue holds distinct vehicles, each on that road. */
    ghost predicate Queues()
      reads this, (set r | r in roads)`vehicles, Fleet`path, Fleet`currentRoadIndex
    {
      forall i :: 0 <= i < |roads| ==>
        Distinct(roads[i].vehicles) && forall v :: v in roads[i].vehicles ==> v in Fleet && OnRoad(v, i)
    }

    /**
     * Conservation: every vehicle added follows a path of road indices and is
     * queued on its current road, or has been reported removed after the end
     * of its path; each report is made once.
     */
    ghost predicate Places()
      reads this, (set r | r in roads)`vehicles, Fleet`path, Fleet`currentRoadIndex
    {
      && Distinct(added) && Distinct(removed)
      && (forall v :: v in Fleet ==> v in added) && (forall v :: v in added ==> v in Fleet)
      && (forall v :: v in Fleet ==> v.Valid() && forall k :: 0 <= k < |v.path| ==> 0 <= v.path[k] < |roads|)
      && (forall v :: v in Fleet ==>
            (0 <= v.currentRoadIndex < |v.path| && v in roads[v.path[v.currentRoadIndex]].vehicles)
            || (v.currentRoadIndex >= |v.path| && v in removed))
      && (forall v :: v in removed ==> v in Fleet && v.currentRoadIndex >= |v.path|)
    }

    /** The constructor: one empty road per graph edge, in edge order, from the edge's source node to its target node. */
    constructor (graph: Graph, measure: (Point, Point) -> real)
      requires graph.Valid() && NonNegative(measure)
      ensures Valid() && this.graph == graph && this.measure == measure
      ensures |roads| == |graph.edges| && added == [] && removed == [] && Fleet == {}
      ensures forall i :: 0 <= i < |roads| ==>
        var e := graph.edges[i];
        && roads[i].source == graph.nodes[e.source] && roads[i].target == graph.nodes[e.target]
        && roads[i].length == measure(graph.nodes[e.source], graph.nodes[e.target])
        && roads[i].vehicles == [] && fresh(roads[i])
    {
      var built: seq<Road> := [];
      var i := 0;
      while i < |graph.edges|
        invariant 0 <= i <= |graph.edges| && |built| == i && Distinct(built)
        invariant forall k :: 0 <= k < i ==>
          var e := graph.edges[k];
          && built[k].source == graph.nodes[e.source] && built[k].target == graph.nodes[e.target]
          && built[k].length == measure(graph.nodes[e.source], graph.nodes[e.target])
          && built[k].vehicles == [] && fresh(built[k])
      {
        var e := graph.edges[i];
        var road := new Road(graph.nodes[e.source], graph.nodes[e.target], measure(graph.nodes[e.source], graph.nodes[e.target]));
        built := built + [road];
        i := i + 1;
      }
      this.graph, this.measure := graph, measure;
      roads := built;
      Roads := set r | r in built;
      added, removed := [], [];
      Fleet := {};
    }

    /** The roads and vehicles as a value. */
    ghost function Snapshot(): World
      reads this, (set r | r in roads), Fleet
    {
      World(Lengths(roads), QueuesOf(roads),
            map v | v in Fleet :: Rider(v.State(), v.path, v.currentRoadIndex, v.Profile()),
            removed)
    }

    /** The invariant does not depend on positions, speeds or accelerations. */
    twostate lemma MotionKeepsValid()
      requires old(Valid())
      requires unchanged(this) && unchanged((set r | r in roads)`vehicles) && unchanged(Fleet`path, Fleet`currentRoadIndex)
      ensures Valid()
    {
    }

    /**
     * The first half of a road's turn in `tick`: the vehicles on road `i` tick
     * as `TickQueue` describes. No other vehicle changes.
     */
    method TickVehicles(i: nat)
      requires Valid() && i < |roads|
      modifies Fleet`x, Fleet`speed, Fleet`acceleration
      ensures Valid()
      ensures Motions(roads[i].vehicles) == TickQueue(old(Motions(roads[i].vehicles)), Profiles(roads[i].vehicles))
      ensures forall u :: u in Fleet && u !in roads[i].vehicles ==> u.State() == old(u.State())
      ensures Snapshot() == TickRoad(old(Snapshot()), i)
    {
      var road := roads[i];
      assert road in roads;
      assert forall k :: 0 <= k < |road.vehicles| ==> road.vehicles[k] in Fleet;
      TickEach(road.vehicles);
      MotionKeepsValid();
      TickedRoadSnapshot(i);
    }

    /** A queue pass over road `i` that changes no other vehicle and no queue is `TickRoad` on the snapshot. */
    twostate lemma TickedRoadSnapshot(i: nat)
      requires i < |roads| && unchanged(this) && forall r :: r in roads ==> unchanged(r)
      requires roads[i].vehicles == old(roads[i].vehicles)
      requires Distinct(roads[i].vehicles) && forall v :: v in roads[i].vehicles ==> v in Fleet
      requires forall u :: u in Fleet ==> u.Valid() && unchanged(u`path, u`currentRoadIndex)
      requires forall k :: 0 <= k < |roads[i].vehicles| ==> roads[i].vehicles[k].Valid()
      requires Motions(roads[i].vehicles) == TickQueue(old(Motions(roads[i].vehicles)), Profiles(roads[i].vehicles))
      requires forall u :: u in Fleet && u !in roads[i].vehicles ==> u.State() == old(u.State())
      ensures Snapshot() == TickRoad(old(Snapshot()), i)
    {
      var s, r := old(Snapshot()), Snapshot();
      var q := roads[i].vehicles;
      QueueSnapshot(i);
      MotionSnapshot();
      forall k | 0 <= k < |q|
        ensures r.riders[q[k]] == s.riders[q[k]].(motion := Motions(q)[k])
      {
        assert q[k] in q;
      }
      TickRoadPointwise(s, i, r);
    }

    /** Road `i`'s queue, motions and traits as the snapshot before a change of motions holds them. */
    twostate lemma QueueSnapshot(i: nat)
      requires i < |roads| && unchanged(this) && roads[i].vehicles == old(roads[i].vehicles)
      requires Distinct(roads[i].vehicles) && forall v :: v in roads[i].vehicles ==> v in Fleet && v.Valid()
      ensures var s, q := old(Snapshot()), roads[i].vehicles;
        && s.queues[i] == q && Tickable(s, i)
        && QueueMotions(s, q) == old(Motions(q)) && QueueTraits(s, q) == Profiles(q)
    {
      var s, q := old(Snapshot()), roads[i].vehicles;
      assert s.queues[i] == q;
    }

    /** A change of motions alone is a change of the snapshot's motions alone. */
    twostate lemma MotionSnapshot()
      requires unchanged(this) && forall r :: r in roads ==> unchanged(r)
      requires forall u :: u in Fleet ==> unchanged(u`path, u`currentRoadIndex)
      ensures var s, r := old(Snapshot()), Snapshot();
        && r.lengths == s.lengths && r.queues == s.queues && r.removed == s.removed && r.riders.Keys == s.riders.Keys
        && forall u :: u in Fleet ==> r.riders[u] == s.riders[u].(motion := u.State())
    {
      assert QueuesOf(roads) == old(QueuesOf(roads));
    }

    /**
     * The second half of a road's turn in `tick`: a front vehicle past the end
     * of road `i` leaves it, restarts at 0 with its road index advanced, and
     * joins the back of the next road of its path or, when its path is done,
     * is reported removed. Nothing else changes.
     */
    method AdvanceFront(i: nat)
      requires Valid() && i < |roads|
      modifies Roads`vehicles, Fleet`x, Fleet`currentRoadIndex, this`removed
      ensures Valid() && old(removed) <= removed
      ensures !old(|roads[i].vehicles| > 0 && roads[i].vehicles[0].x > roads[i].length) ==>
        unchanged(this`removed, Roads`vehicles, Fleet`x, Fleet`currentRoadIndex)
      ensures old(|roads[i].vehicles| > 0 && roads[i].vehicles[0].x > roads[i].length) ==>
        && old(roads[i].vehicles[0]).x == 0.0
        && (forall u :: u in Fleet && u != old(roads[i].vehicles[0]) ==> u.x == old(u.x))
        && Transferred(Transfer(i, old(roads[i].vehicles[0])))
      ensures Snapshot() == AdvanceRoad(old(Snapshot()), i)
    {
      var road := roads[i];
      assert road in roads;
      if |road.vehicles| > 0 && road.vehicles[0].x > road.length {
        MoveFront(i);
      }
    }

    /** The transfer itself: reset, index advance, shift, then push or report. */
    method MoveFront(i: nat)
      requires Valid() && i < |roads| && |roads[i].vehicles| > 0 && roads[i].vehicles[0].x > roads[i].length
      modifies Roads`vehicles, Fleet`x, Fleet`currentRoadIndex, this`removed
      ensures Valid() && old(removed) <= removed
      ensures old(roads[i].vehicles[0]).x == 0.0
      ensures forall u :: u in Fleet && u != old(roads[i].vehicles[0]) ==> u.x == old(u.x)
      ensures Transferred(Transfer(i, old(roads[i].vehicles[0])))
      ensures Snapshot() == AdvanceRoad(old(Snapshot()), i)
    {
      assert roads[i] in roads && roads[i].vehicles[0] in roads[i].vehicles && roads[i].vehicles[0] in Fleet;
      ghost var t := Transfer(i, roads[i].vehicles[0]);
      Shift(i);
      TransferKeepsQueues(t);
      TransferKeepsPlaces(t);
      TransferSnapshot(t);
    }

    /** The state changes of MoveFront, needing only the front vehicle's own facts. */
    method Shift(i: nat)
      requires i < |roads| && Distinct(roads) && Roads == (set r | r in roads) && |roads[i].vehicles| > 0
      requires var v := roads[i].vehicles[0];
        v in Fleet && OnRoad(v, i) && forall k :: 0 <= k < |v.path| ==> 0 <= v.path[k] < |roads|
      modifies Roads`vehicles, Fleet`x, Fleet`currentRoadIndex, this`removed
      ensures old(roads[i].vehicles[0]).x == 0.0
      ensures forall u :: u in Fleet && u != old(roads[i].vehicles[0]) ==> u.x == old(u.x)
      ensures Transferred(Transfer(i, old(roads[i].vehicles[0])))
    {
      var road := roads[i];
      var leadVehicle := road.vehicles[0];
      assert road in roads && leadVehicle in road.vehicles;
      leadVehicle.x := 0.0;
      leadVehicle.currentRoadIndex := leadVehicle.currentRoadIndex + 1;
      road.vehicles := road.vehicles[1..];
      if leadVehicle.currentRoadIndex < |leadVehicle.path| {
        var nextRoad := roads[leadVehicle.path[leadVehicle.currentRoadIndex]];
        assert nextRoad in Roads;
        nextRoad.vehicles := nextRoad.vehicles + [leadVehicle];
      } else {
        removed := removed + [leadVehicle];
      }
      assert Transferred(Transfer(i, leadVehicle));
    }

    /**
     * The state change of one transfer of `t.vehicle`, the front vehicle of
     * road `t.i`: it leaves the front of that road, its road index advances by
     * one, and it joins the back of the next road of its path or, when its path
     * is done, is reported removed. No other vehicle's place and no path changes.
     */
    twostate predicate Transferred(t: Transfer)
      reads this, (set r | r in roads)`vehicles, Fleet, t.vehicle
    {
      var i, v := t.i, t.vehicle;
      && Fleet == old(Fleet) && added == old(added)
      && i < |roads| && |old(roads[i].vehicles)| > 0 && v == old(roads[i].vehicles[0])
      && (forall u :: u in Fleet ==> u.path == old(u.path))
      && (forall u :: u in Fleet && u != v ==> u.currentRoadIndex == old(u.currentRoadIndex))
      && v.currentRoadIndex == old(v.currentRoadIndex) + 1
      && (forall j :: 0 <= j < |roads| ==>
            roads[j].vehicles == (if j == i then old(roads[i].vehicles)[1..] else old(roads[j].vehicles))
                                 + (if OnRoad(v, j) then [v] else []))
      && removed == old(removed) + (if v.currentRoadIndex < |v.path| then [] else [v])
    }

    /** A transfer keeps every queue distinct and every queued vehicle on its road. */
    twostate lemma {:induction false} TransferKeepsQueues(t: Transfer)
      requires old(Valid()) && Transferred(t)
      ensures Queues()
    {
      var i, v := t.i, t.vehicle;
      var q := old(roads[i].vehicles);
      assert v in q;
      assert v !in q[1..];
      forall j | 0 <= j < |roads|
        ensures Distinct(roads[j].vehicles)
        ensures forall u :: u in roads[j].vehicles ==> u in Fleet && OnRoad(u, j)
      {
        var base := if j == i then q[1..] else old(roads[j].vehicles);
        assert Distinct(base);
        assert forall u :: u in base ==> u in old(roads[j].vehicles);
        assert old(OnRoad(v, i));
        assert v !in base;
        if OnRoad(v, j) {
          DistinctSnoc(base, v);
        }
      }
    }

    /** A transfer keeps every vehicle ever added either queued on its road or reported removed. */
    twostate lemma {:induction false} TransferKeepsPlaces(t: Transfer)
      requires old(Valid()) && Transferred(t)
      ensures Places()
    {
      var i, v := t.i, t.vehicle;
      var q := old(roads[i].vehicles);
      assert v in q;
      assert v !in old(removed);
      if v.currentRoadIndex >= |v.path| {
        DistinctSnoc(old(removed), v);
      }
      forall u | u in Fleet
        ensures (0 <= u.currentRoadIndex < |u.path| && u in roads[u.path[u.currentRoadIndex]].vehicles)
                || (u.currentRoadIndex >= |u.path| && u in removed)
      {
        if u != v && 0 <= u.currentRoadIndex < |u.path| {
          var j := u.path[u.currentRoadIndex];
          assert OnRoad(u, j);
          if j == i {
            assert u in q[1..];
          }
        }
      }
    }

    /** A transfer of the front vehicle of road `t.i`, which resets its position and changes no other motion, is `AdvanceRoad` on the snapshot. */
    twostate lemma TransferSnapshot(t: Transfer)
      requires Transferred(t) && t.vehicle in old(Fleet)
      requires old(t.vehicle.x > roads[t.i].length) && t.vehicle.x == 0.0
      requires forall u :: u in Fleet && u != t.vehicle ==> u.x == old(u.x)
      requires forall u :: u in Fleet ==> u.speed == old(u.speed) && u.acceleration == old(u.acceleration)
      ensures Snapshot() == AdvanceRoad(old(Snapshot()), t.i)
    {
      TransferQueues(t);
      TransferRiders(t);
      AdvanceRoadPointwise(old(Snapshot()), t.i, Snapshot());
    }

    /** The snapshot's queues and reports after a transfer, road by road. */
    twostate lemma TransferQueues(t: Transfer)
      requires Transferred(t) && t.vehicle in old(Fleet) && old(t.vehicle.x > roads[t.i].length)
      ensures var i, v, s, r := t.i, t.vehicle, old(Snapshot()), Snapshot();
        var c := s.riders[v];
        && FrontPast(s, i) && s.queues[i][0] == v
        && r.lengths == s.lengths && |r.queues| == |s.queues|
        && (forall j :: 0 <= j < |s.queues| ==>
              r.queues[j] == (if j == i then s.queues[i][1..] else s.queues[j]) + (if NextRoad(c) == Some(j) then [v] else []))
        && r.removed == s.removed + (if c.roadIndex + 1 < |c.path| then [] else [v])
    {
      var i, v, s, r := t.i, t.vehicle, old(Snapshot()), Snapshot();
      var c := s.riders[v];
      assert s.queues[i] == old(roads[i].vehicles);
      forall j | 0 <= j < |s.queues|
        ensures r.queues[j] == (if j == i then s.queues[i][1..] else s.queues[j]) + (if NextRoad(c) == Some(j) then [v] else [])
      {
        assert r.queues[j] == roads[j].vehicles && s.queues[j] == old(roads[j].vehicles);
        assert OnRoad(v, j) <==> NextRoad(c) == Some(j);
      }
    }

    /** The snapshot's vehicles after a transfer: only the moved vehicle's position and road index change. */
    twostate lemma TransferRiders(t: Transfer)
      requires Transferred(t) && t.vehicle in old(Fleet) && t.vehicle.x == 0.0
      requires forall u :: u in Fleet && u != t.vehicle ==> u.x == old(u.x)
      requires forall u :: u in Fleet ==> u.speed == old(u.speed) && u.acceleration == old(u.acceleration)
      ensures var v, s := t.vehicle, old(Snapshot()); var c := s.riders[v];
        Snapshot().riders == s.riders[v := c.(motion := c.motion.(x := 0.0), roadIndex := c.roadIndex + 1)]
    {
      var v, s, r := t.vehicle, old(Snapshot()), Snapshot();
      var c := s.riders[v];
      forall u | u in Fleet
        ensures r.riders[u] == s.riders[v := c.(motion := c.motion.(x := 0.0), roadIndex := c.roadIndex + 1)][u]
      {
      }
    }

    /**
     * `tick`: road by road, every vehicle on the road ticks behind the one
     * before it, then the road's front vehicle is moved on if it is past the end.
     */
    method Tick()
      requires Valid()
      modifies Roads`vehicles, Fleet`x, Fleet`speed, Fleet`acceleration, Fleet`currentRoadIndex, this`removed
      ensures Valid() && old(removed) <= removed && added == old(added)
      ensures Snapshot() == TickWorld(old(Snapshot()))
    {
      ghost var start, reported := Snapshot(), removed;
      assert |start.queues| == |roads|;
      for i := 0 to |roads|
        invariant reported <= removed && added == old(added)
        invariant Settled() == Some(TickRoads(start, i))
      {
        TickRoadsNext(start, i);
        Turn(i);
      }
    }

    /** Road `i`'s turn in `tick`: its vehicles tick, then its front vehicle moves on if it is past the end. */
    method Turn(i: nat)
      requires Settled().Some? && i < |roads|
      modifies Roads`vehicles, Fleet`x, Fleet`speed, Fleet`acceleration, Fleet`currentRoadIndex, this`removed
      ensures old(removed) <= removed && added == old(added)
      ensures Settled() == Some(RoadTurn(old(Snapshot()), i))
    {
      TickVehicles(i);
      AdvanceFront(i);
    }

    /** The snapshot of a simulation that keeps its invariant; nothing for one that does not. */
    ghost function Settled(): (r: Option<World>)
      reads this, (set r | r in roads), Fleet
      ensures r.Some? <==> Valid()
    {
      if Valid() then Some(Snapshot()) else None
    }

    /** `update(time, delta)`: exactly one `tick`; the clock arguments are not used. */
    method Update(time: real, delta: real)
      requires Valid()
      modifies Roads`vehicles, Fleet`x, Fleet`speed, Fleet`acceleration, Fleet`currentRoadIndex, this`removed
      ensures Valid() && old(removed) <= removed && added == old(added)
      ensures Snapshot() == TickWorld(old(Snapshot()))
    {
      Tick();
    }

    /**
     * `addVehicle(sourceNode)`: the source node is the one given or else a
     * random one, the target node is random, and a new vehicle is queued at the
     * back of the first road of the path `dijkstra` finds and reported added.
     * When that path is missing or empty nothing changes and the answer is
     * false. The random draws and the square root of the new vehicle's
     * acceleration limit times 4.61 are parameters.
     */
    method AddVehicle(sourceNode: Option<int>, sourceDraw: real, targetDraw: real,
                      lengthDraw: real, speedDraw: real, accelerationDraw: real, accelerationRoot: real)
      returns (ok: bool)
      requires Valid()
      requires 0.0 <= sourceDraw < 1.0 && 0.0 <= targetDraw < 1.0
      requires 0.0 <= lengthDraw < 1.0 && 0.0 <= speedDraw < 1.0 && 0.0 <= accelerationDraw < 1.0
      requires accelerationRoot > 0.0
      requires accelerationRoot * accelerationRoot == InitialMaxAcceleration(accelerationDraw) * Vehicles.MAX_DECELERATION
      modifies Roads`vehicles, this`added, this`Fleet
      ensures Valid() && removed == old(removed)
      ensures !ok ==> unchanged(this) && forall r :: r in roads ==> r.vehicles == old(r.vehicles)
      ensures ok ==> |added| == |old(added)| + 1 && added[..|old(added)|] == old(added)
      ensures ok ==>
        var v := Last(added);
        && fresh(v)
        && Fleet == old(Fleet) + {v}
        && v.State() == Vehicles.Motion(0.0, 0.0, 0.0) && v.currentRoadIndex == 0
        && v.length == Vehicles.InitialLength(lengthDraw) && v.maxSpeed == InitialMaxSpeed(speedDraw) as real
        && v.maxAcceleration == InitialMaxAcceleration(accelerationDraw)
        && |v.path| > 0 && graph.Chain(v.path)
        && (forall k :: 0 <= k < |v.path| ==> graph.edges[v.path[k]].source != 0)
        && (forall j :: 0 <= j < |roads| ==> roads[j].vehicles == old(roads[j].vehicles) + (if j == v.path[0] then [v] else []))
      ensures var n := |graph.nodes|;
        var source := if sourceNode.Some? then sourceNode.value else RandomIndex(sourceDraw, n);
        var target := RandomIndex(targetDraw, n);
        && (ok ==> graph.Reaches(source, target) && graph.edges[Last(Last(added).path)].target == target)
        && (ok && source != 0 && !graph.Reaches(source, 0) ==> graph.Walk(Last(added).path, source, target))
        && (0 <= source < n && source == target ==> !ok)
        && ((0 <= source < n && 0 <= target < n && source != target && graph.Reaches(source, target)
             && !(exists i :: graph.Joins(i, 0, target))) ==> ok)
    {
      var n := |graph.nodes|;
      var sourceNodeIndex := if sourceNode.Some? then sourceNode.value else RandomIndex(sourceDraw, n);
      var targetNodeIndex := RandomIndex(targetDraw, n);
      var path := Dijkstra(graph, sourceNodeIndex, targetNodeIndex, measure);
      if path.Some? && |path.value| > 0 {
        var road := roads[path.value[0]];
        var v := new Vehicle(lengthDraw, speedDraw, accelerationDraw, accelerationRoot);
        v.path := path.value;
        assert road in roads && OnRoad(v, path.value[0]);
        road.vehicles := road.vehicles + [v];
        added := added + [v];
        Fleet := Fleet + {v};
        AdmitKeepsValid(v);
        return true;
      }
      return false;
    }

    /** Queueing a new vehicle on the first road of its path keeps the invariant. */
    twostate lemma {:induction false} AdmitKeepsValid(new v: Vehicle)
      requires old(Valid()) && !old(allocated(v)) && v.Valid() && v.currentRoadIndex == 0
      requires |v.path| > 0 && forall k :: 0 <= k < |v.path| ==> 0 <= v.path[k] < |roads|
      requires unchanged(this`removed) && added == old(added) + [v] && Fleet == old(Fleet) + {v}
      requires forall u :: u in old(Fleet) ==> unchanged(u`path, u`currentRoadIndex)
      requires forall j :: 0 <= j < |roads| ==>
        roads[j].vehicles == old(roads[j].vehicles) + (if j == v.path[0] then [v] else [])
      ensures Valid()
    {
      assert v !in old(added) && v !in old(removed);
      DistinctSnoc(old(added), v);
      forall j | 0 <= j < |roads|
        ensures Distinct(roads[j].vehicles)
        ensures forall u :: u in roads[j].vehicles ==> u in Fleet && OnRoad(u, j)
      {
        assert v !in old(roads[j].vehicles);
        if j == v.path[0] {
          DistinctSnoc(old(roads[j].vehicles), v);
        }
      }
      forall u | u in Fleet
        ensures (0 <= u.currentRoadIndex < |u.path| && u in roads[u.path[u.currentRoadIndex]].vehicles)
                || (u.currentRoadIndex >= |u.path| && u in removed)
      {
        if u != v && 0 <= u.currentRoadIndex < |u.path| {
          assert u in old(roads[u.path[u.currentRoadIndex]].vehicles);
        }
      }
    }
  }
}
