/**
 * The position guard every road applies to queries, and the straight road
 * (`LinearRoad`) whose geometry is linear in the position along it.
 */
module Roads {
  import opened Basics

  datatype Result<T> = Ok(value: T) | InvalidLocationOnRoad

  /**
   * `assertValidPositionOnRoad`: a position is rejected when it lies before the
   * start or past the end of the road; both ends are accepted.
   */
  function CheckPosition(positionOnRoad: real, length: real): (valid: bool)
    ensures valid <==> 0.0 <= positionOnRoad <= length
    ensures positionOnRoad == 0.0 && length >= 0.0 ==> valid
    ensures positionOnRoad == length && length >= 0.0 ==> valid
  {
    !(positionOnRoad < 0.0 || positionOnRoad > length)
  }

  /**
   * A straight road. Its length is the Euclidean distance between the endpoints,
   * supplied by the caller (`Phaser.Math.Distance.Between`), and `angle` is the
   * direction supplied by `Phaser.Math.Angle.Between`.
   */
  datatype LinearRoad = LinearRoad(source: Point, target: Point, length: real,
                                   angleSin: real, angleCos: real, angle: real)
  {
    function GetLength(): real {
      length
    }

    /** `getPoint`: the point at `positionOnRoad` along the road, or a failure outside `[0, length]`. */
    function GetPoint(positionOnRoad: real): (r: Result<Point>)
      ensures r.Ok? <==> 0.0 <= positionOnRoad <= length
    {
      if !CheckPosition(positionOnRoad, length) then InvalidLocationOnRoad
      else Ok(Point(source.x + positionOnRoad * angleCos, source.y + positionOnRoad * angleSin))
    }

    /** `getAngle`: the road's direction, or a failure outside `[0, length]`. */
    function GetAngle(positionOnRoad: real): (r: Result<real>)
      ensures r.Ok? <==> 0.0 <= positionOnRoad <= length
    {
      if !CheckPosition(positionOnRoad, length) then InvalidLocationOnRoad else Ok(angle)
    }
  }

  /**
   * The constructor's derived fields. With a positive length the road starts at
   * `source` and ends exactly at `target`.
   */
  function NewLinearRoad(source: Point, target: Point, length: real, angle: real): (road: LinearRoad)
    requires length > 0.0
    requires length * length == (target.x - source.x) * (target.x - source.x) + (target.y - source.y) * (target.y - source.y)
    ensures road.source == source && road.target == target && road.GetLength() == length
    ensures road.GetPoint(0.0) == Ok(source)
    ensures road.GetPoint(length) == Ok(target)
  {
    var road := LinearRoad(source, target, length, (target.y - source.y) / length, (target.x - source.x) / length, angle);
    assert length * road.angleCos == target.x - source.x;
    assert length * road.angleSin == target.y - source.y;
    assert road.GetPoint(length).value == Point(source.x + length * road.angleCos, source.y + length * road.angleSin);
    road
  }

  /** The angle does not depend on the position. */
  lemma AngleIsConstant(road: LinearRoad, a: real, b: real)
    requires 0.0 <= a <= road.length && 0.0 <= b <= road.length
    ensures road.GetAngle(a) == road.GetAngle(b) == Ok(road.angle)
  {
  }

  /** `getPoint` is affine: the midpoint of two positions maps to the midpoint of their points. */
  lemma GetPointIsAffine(road: LinearRoad, a: real, b: real)
    requires 0.0 <= a <= road.length && 0.0 <= b <= road.length
    ensures road.GetPoint((a + b) / 2.0) == Ok(Midpoint(road.GetPoint(a).value, road.GetPoint(b).value))
  {
  }

  /** The point at position `p` of a road built by `NewLinearRoad` lies at Euclidean distance `p` from its source. */
  lemma PositionIsDistanceFromSource(source: Point, target: Point, length: real, angle: real, p: real)
    requires length > 0.0
    requires length * length == (target.x - source.x) * (target.x - source.x) + (target.y - source.y) * (target.y - source.y)
    requires 0.0 <= p <= length
    ensures var q := NewLinearRoad(source, target, length, angle).GetPoint(p).value;
      (q.x - source.x) * (q.x - source.x) + (q.y - source.y) * (q.y - source.y) == p * p
  {
    var road := NewLinearRoad(source, target, length, angle);
    var c, s := road.angleCos, road.angleSin;
    var dx, dy := target.x - source.x, target.y - source.y;
    assert c * length == dx && s * length == dy;
    calc {
      (c * c + s * s) * (length * length);
      c * c * (length * length) + s * s * (length * length);
      (c * length) * (c * length) + (s * length) * (s * length);
      dx * dx + dy * dy;
      length * length;
    }
    var q := road.GetPoint(p).value;
    calc {
      (q.x - source.x) * (q.x - source.x) + (q.y - source.y) * (q.y - source.y);
      (p * c) * (p * c) + (p * s) * (p * s);
      p * p * (c * c + s * s);
      p * p;
    }
  }
}
