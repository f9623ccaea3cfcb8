/**
 * A vehicle and its per-tick update: the kinematic step followed by an
 * Intelligent-Driver-Model-style acceleration law. Arithmetic is over the
 * reals; `Math.pow` is written out as products.
 */
module Vehicles {
  import opened Basics

  /** The fixed simulation step, in seconds. */
  const DT: real := 1.0 / 60.0
  const MAX_ACCELERATION: real := 1.44
  const MAX_DECELERATION: real := 4.61
  /** `desiredDistanceFromLeadVehicle`: the minimum following distance. */
  const DESIRED_DISTANCE: real := 4.0

  /** The part of a vehicle that `tick` rewrites. */
  datatype Motion = Motion(x: real, speed: real, acceleration: real)

  /** What `tick` reads from the vehicle besides its motion. */
  datatype Driver = Driver(maxSpeed: real, reactionTime: real, accelerationRoot: real, shouldStop: bool)
  {
    /** `accelerationRoot` stands for `Math.sqrt(maxAcceleration * maxDeceleration)`. */
    predicate Valid() {
      maxSpeed > 0.0 && accelerationRoot > 0.0
    }
  }

  /**
   * Position and velocity update. Speed never ends negative. Without clamping the
   * position advances by the NEW speed times DT plus half the acceleration times
   * DT squared, so by `v*DT + 1.5*a*DT*DT` in terms of the old speed. The clamp
   * branch keeps the source's formula `x - 0.5 * v * v * a` as it is.
   */
  function Kinematics(m: Motion): (r: Motion)
    ensures r.speed >= 0.0 && r.acceleration == m.acceleration
    ensures m.speed + m.acceleration * DT >= 0.0 ==>
      r.speed == m.speed + m.acceleration * DT &&
      r.x == m.x + m.speed * DT + 1.5 * m.acceleration * DT * DT
    ensures m.speed + m.acceleration * DT < 0.0 ==>
      r.speed == 0.0 && r.x == m.x - 0.5 * m.speed * m.speed * m.acceleration
  {
    if m.speed + m.acceleration * DT < 0.0 then
      Motion(m.x - 0.5 * m.speed * m.speed * m.acceleration, 0.0, m.acceleration)
    else
      var speed := m.speed + m.acceleration * DT;
      Motion(m.x + speed * DT + (m.acceleration * DT * DT) / 2.0, speed, m.acceleration)
  }

  function Max(a: real, b: real): real {
    if a >= b then a else b
  }

  /**
   * The interaction term `alpha`: desired dynamic gap over actual gap. Its
   * numerator is at least the minimum following distance, so it is positive.
   */
  function Alpha(speed: real, leadSpeed: real, gap: real, d: Driver): (alpha: real)
    requires d.Valid() && gap > 0.0
    ensures alpha * gap >= DESIRED_DISTANCE && alpha > 0.0
  {
    var sqrt := 2.0 * d.accelerationRoot;
    (DESIRED_DISTANCE + Max(0.0, d.reactionTime * speed + ((speed - leadSpeed) * speed) / sqrt)) / gap
  }

  /** `maxAcceleration * (1 - (speed/maxSpeed)^4 - alpha^2)`. */
  function Acceleration(speed: real, maxSpeed: real, alpha: real): real
    requires maxSpeed > 0.0
  {
    var q := speed / maxSpeed;
    MAX_ACCELERATION * (1.0 - q * q * q * q - alpha * alpha)
  }

  /**
   * The acceleration update after the kinematic step. `leadSpeed` is the lead
   * vehicle's speed when there is one. The source tests `leadVehicle &&
   * distanceToLeadVehicle`, so a gap of exactly 0 counts as no lead. A negative
   * gap is a crash: the vehicle stops dead and `shouldStop` is not consulted.
   */
  function Respond(m: Motion, leadSpeed: Option<real>, gap: Option<real>, d: Driver): (r: Motion)
    requires d.Valid()
    ensures r.x == m.x
    ensures leadSpeed.Some? && gap.Some? && gap.value < 0.0 ==> r.speed == 0.0 && r.acceleration == 0.0
    ensures !(leadSpeed.Some? && gap.Some? && gap.value < 0.0) ==> r.speed == m.speed
    ensures !(leadSpeed.Some? && gap.Some? && gap.value < 0.0) && d.shouldStop ==>
      r.acceleration == -MAX_DECELERATION
    ensures (leadSpeed.None? || gap.None? || gap.value == 0.0) && !d.shouldStop ==>
      r.acceleration == Acceleration(m.speed, d.maxSpeed, 0.0)
    ensures leadSpeed.Some? && gap.Some? && gap.value > 0.0 && !d.shouldStop ==>
      r.acceleration == Acceleration(m.speed, d.maxSpeed, Alpha(m.speed, leadSpeed.value, gap.value, d))
  {
    var alpha :=
      if leadSpeed.Some? && gap.Some? && gap.value > 0.0 then Alpha(m.speed, leadSpeed.value, gap.value, d)
      else 0.0;
    if leadSpeed.Some? && gap.Some? && gap.value < 0.0 then
      Motion(m.x, 0.0, 0.0)
    else if d.shouldStop then
      Motion(m.x, m.speed, -MAX_DECELERATION)
    else
      Motion(m.x, m.speed, Acceleration(m.speed, d.maxSpeed, alpha))
  }

  /** Free flow: with no lead and a speed below the limit, the vehicle accelerates. */
  lemma FreeFlowAccelerates(speed: real, maxSpeed: real)
    requires maxSpeed > 0.0 && 0.0 <= speed < maxSpeed
    ensures Acceleration(speed, maxSpeed, 0.0) > 0.0
  {
    var q := speed / maxSpeed;
    assert 0.0 <= q < 1.0 by {
      assert q * maxSpeed == speed;
    }
    assert q * q < 1.0;
    assert q * q * q * q <= q * q;
  }

  /**
   * A larger positive gap gives a smaller interaction term and so a larger
   * acceleration, all else being equal.
   */
  lemma LargerGapAcceleratesMore(speed: real, leadSpeed: real, g1: real, g2: real, d: Driver)
    requires d.Valid() && 0.0 < g1 < g2
    ensures Alpha(speed, leadSpeed, g1, d) > Alpha(speed, leadSpeed, g2, d)
    ensures Acceleration(speed, d.maxSpeed, Alpha(speed, leadSpeed, g1, d))
          < Acceleration(speed, d.maxSpeed, Alpha(speed, leadSpeed, g2, d))
  {
    var a1, a2 := Alpha(speed, leadSpeed, g1, d), Alpha(speed, leadSpeed, g2, d);
    assert a1 * g1 == a2 * g2 by {
      var sqrt := 2.0 * d.accelerationRoot;
      var num := DESIRED_DISTANCE + Max(0.0, d.reactionTime * speed + ((speed - leadSpeed) * speed) / sqrt);
      assert a1 == num / g1 && a2 == num / g2;
    }
    InverseOrder(g1, g2, a1, a2);
  }

  /**
   * Two positive values with the same product against a smaller and a larger
   * gap: the one against the smaller gap is larger, and so is its square.
   */
  lemma InverseOrder(g1: real, g2: real, a1: real, a2: real)
    requires 0.0 < g1 < g2 && a1 > 0.0 && a2 > 0.0 && a1 * g1 == a2 * g2
    ensures a1 > a2 && a1 * a1 > a2 * a2
  {
    ScaleStrict(a2, g1, g2);
    if a1 <= a2 {
      ScaleMonotone(g1, a1, a2);
    }
    ScaleStrict(a1, a2, a1);
    ScaleStrict(a2, a2, a1);
  }

  /** Multiplying by a positive factor keeps a strict order. */
  lemma ScaleStrict(c: real, x: real, y: real)
    requires c > 0.0 && x < y
    ensures c * x < c * y
  {
    assert c * y - c * x == c * (y - x);
  }

  /** Multiplying by a positive factor keeps a weak order. */
  lemma ScaleMonotone(c: real, x: real, y: real)
    requires c > 0.0 && x <= y
    ensures x * c <= y * c
  {
    if x < y {
      ScaleStrict(c, x, y);
    }
  }

  /** `length = 10 + Math.random() * 10`, with the draw in `[0, 1)`. */
  function InitialLength(draw: real): (length: real)
    requires 0.0 <= draw < 1.0
    ensures 10.0 <= length < 20.0
  {
    10.0 + draw * 10.0
  }

  /** `maxSpeed = Math.floor(8 + Math.random() * 20)`, with the draw in `[0, 1)`. */
  function InitialMaxSpeed(draw: real): (maxSpeed: int)
    requires 0.0 <= draw < 1.0
    ensures 8 <= maxSpeed <= 27
  {
    (8.0 + draw * 20.0).Floor
  }

  /**
   * A vehicle (`Vehicle`). `L` is the type of the lanes its path is made of; the
   * engine uses lane objects and a lane index (`currentLaneIndex`).
   */
  class Vehicle<L> {
    var x: real
    var speed: real
    var acceleration: real
    var path: seq<L>
    var currentLaneIndex: int
    var shouldStop: bool
    const length: real
    const maxSpeed: real
    const engineMaxSpeed: real
    var driverReactionTime: real
    const accelerationRoot: real

    /** What construction guarantees and `tick` relies on. */
    ghost predicate Valid() {
      maxSpeed > 0.0 && accelerationRoot > 0.0 && length > 0.0
    }

    /** The motion `tick` rewrites. */
    function State(): Motion
      reads this`x, this`speed, this`acceleration
    {
      Motion(x, speed, acceleration)
    }

    /** The driver parameters `tick` reads. */
    function Profile(): Driver
      reads this`driverReactionTime, this`shouldStop
    {
      Driver(maxSpeed, driverReactionTime, accelerationRoot, shouldStop)
    }

    /**
     * A vehicle at rest at the start of an empty path. The two random draws of the
     * source are supplied by the caller.
     */
    constructor (lengthDraw: real, speedDraw: real, accelerationRoot: real)
      requires 0.0 <= lengthDraw < 1.0 && 0.0 <= speedDraw < 1.0
      requires accelerationRoot > 0.0 && accelerationRoot * accelerationRoot == MAX_ACCELERATION * MAX_DECELERATION
      ensures Valid() && this.accelerationRoot == accelerationRoot
      ensures State() == Motion(0.0, 0.0, 0.0)
      ensures path == [] && currentLaneIndex == 0 && !shouldStop && driverReactionTime == 1.0
      ensures length == InitialLength(lengthDraw) && maxSpeed == InitialMaxSpeed(speedDraw) as real
      ensures engineMaxSpeed == maxSpeed
    {
      x, speed, acceleration := 0.0, 0.0, 0.0;
      path, currentLaneIndex, shouldStop := [], 0, false;
      length := InitialLength(lengthDraw);
      maxSpeed := InitialMaxSpeed(speedDraw) as real;
      engineMaxSpeed := maxSpeed;
      driverReactionTime := 1.0;
      this.accelerationRoot := accelerationRoot;
    }

    /**
     * `tick`: the kinematic step, then the acceleration law. The lead's speed is
     * read after this vehicle's own speed has been updated, as in the source.
     */
    method Tick(leadVehicle: Vehicle?<L>, distanceToLeadVehicle: Option<real>)
      requires Valid()
      modifies this`x, this`speed, this`acceleration
      ensures var moved := Kinematics(old(State()));
        State() == Respond(moved,
          if leadVehicle == null then None
          else if leadVehicle == this then Some(moved.speed)
          else Some(leadVehicle.speed),
          distanceToLeadVehicle, Profile())
    {
      ghost var moved := Kinematics(State());
      // The kinematic step, clamped at rest when the speed would turn negative.
      if speed + acceleration * DT < 0.0 {
        x := x - 0.5 * speed * speed * acceleration;
        speed := 0.0;
      } else {
        speed := speed + acceleration * DT;
        x := x + speed * DT + (acceleration * DT * DT) / 2.0;
      }
      assert State() == moved;

      // The acceleration law behind the lead, if any.
      var alpha := 0.0;
      if leadVehicle != null && distanceToLeadVehicle.Some? && distanceToLeadVehicle.value != 0.0 {
        var speedDifference := speed - leadVehicle.speed;
        if distanceToLeadVehicle.value <= 0.0 {
          // No room left to the lead: the crash case stops the vehicle dead.
          speed := 0.0;
          acceleration := 0.0;
          return;
        }
        var sqrt := 2.0 * accelerationRoot;
        alpha := (DESIRED_DISTANCE + Max(0.0, driverReactionTime * speed + (speedDifference * speed) / sqrt))
          / distanceToLeadVehicle.value;
        assert alpha == Alpha(speed, leadVehicle.speed, distanceToLeadVehicle.value, Profile());
      }

      acceleration := Acceleration(speed, maxSpeed, alpha);

      if shouldStop {
        // A vehicle told to stop brakes at the deceleration limit.
        acceleration := -MAX_DECELERATION;
      }
    }
  }
}
