/**
 * The curve experiments of the debug scene (`DebugScene.ts`): de Casteljau
 * splitting of a quadratic Bézier curve, the right-hand edge of a thick
 * quadratic curve and the offset of a polyline. Square roots are supplied by
 * the caller as lengths whose squares are given; a zero length, which makes
 * the source divide by zero, is where the model says no result.
 */
module DebugCurves {
  import opened Basics

  /** One coordinate of a quadratic Bézier curve at `t`, in Bernstein form. */
  function Bernstein(a: real, b: real, c: real, t: real): real {
    (1.0 - t) * (1.0 - t) * a + 2.0 * t * (1.0 - t) * b + t * t * c
  }

  /** The point at `t` of the quadratic Bézier curve with control points `p0`, `p1`, `p2`. */
  function BezierPoint(p0: Point, p1: Point, p2: Point, t: real): Point {
    Point(Bernstein(p0.x, p1.x, p2.x, t), Bernstein(p0.y, p1.y, p2.y, t))
  }

  /** The number a fraction `t` of the way from `a` to `b`. */
  function Mix(a: real, b: real, t: real): real {
    a + t * (b - a)
  }

  /** The point a fraction `t` of the way from `a` to `b`. */
  function Lerp(a: Point, b: Point, t: real): Point {
    Point(Mix(a.x, b.x, t), Mix(a.y, b.y, t))
  }

  /** Two rounds of interpolation give the Bernstein form, coordinate by coordinate. */
  lemma CasteljauCoordinate(a: real, b: real, c: real, t: real)
    ensures Mix(Mix(a, b, t), Mix(b, c, t), t) == Bernstein(a, b, c, t)
  {
  }

  /**
   * `splitQuadraticBezierCurve(p0, p1, p2, t)`: the control points of the two
   * pieces of the curve on either side of parameter `t`. The first piece
   * starts at `p0`, the second ends at `p2`, and both meet at the point of
   * the curve at `t`.
   */
  function SplitQuadraticBezierCurve(p0: Point, p1: Point, p2: Point, t: real): (halves: (seq<Point>, seq<Point>))
    ensures |halves.0| == 3 && |halves.1| == 3
    ensures halves.0[0] == p0 && halves.1[2] == p2
    ensures halves.0[2] == halves.1[0] == BezierPoint(p0, p1, p2, t)
  {
    var q0 := Lerp(p0, p1, t);
    var q1 := Lerp(p1, p2, t);
    var r := Lerp(q0, q1, t);
    CasteljauCoordinate(p0.x, p1.x, p2.x, t);
    CasteljauCoordinate(p0.y, p1.y, p2.y, t);
    ([p0, q0, r], [r, q1, p2])
  }

  /** Splitting at 0 leaves a point and the whole curve; splitting at 1 the whole curve and a point. */
  lemma SplitAtEnds(p0: Point, p1: Point, p2: Point)
    ensures SplitQuadraticBezierCurve(p0, p1, p2, 0.0) == ([p0, p0, p0], [p0, p1, p2])
    ensures SplitQuadraticBezierCurve(p0, p1, p2, 1.0) == ([p0, p1, p2], [p2, p2, p2])
  {
  }

  /** The first piece at `s` is the curve at `t * s`, one coordinate at a time. */
  lemma FirstPieceCoordinate(a: real, b: real, c: real, t: real, s: real)
    ensures var q0 := Mix(a, b, t);
      Bernstein(a, q0, Mix(q0, Mix(b, c, t), t), s) == Bernstein(a, b, c, t * s)
  {
  }

  /** The second piece at `s` is the curve at `t + (1 - t) * s`, one coordinate at a time. */
  lemma SecondPieceCoordinate(a: real, b: real, c: real, t: real, s: real)
    ensures var q1 := Mix(b, c, t);
      Bernstein(Mix(Mix(a, b, t), q1, t), q1, c, s) == Bernstein(a, b, c, t + (1.0 - t) * s)
  {
  }

  /**
   * The two pieces trace the original curve: the first piece covers the
   * parameters from 0 to `t`, the second those from `t` to 1.
   */
  lemma SplitTracesCurve(p0: Point, p1: Point, p2: Point, t: real, s: real)
    ensures var halves := SplitQuadraticBezierCurve(p0, p1, p2, t);
      && BezierPoint(halves.0[0], halves.0[1], halves.0[2], s) == BezierPoint(p0, p1, p2, t * s)
      && BezierPoint(halves.1[0], halves.1[1], halves.1[2], s) == BezierPoint(p0, p1, p2, t + (1.0 - t) * s)
  {
    var q0, q1 := Lerp(p0, p1, t), Lerp(p1, p2, t);
    var r := Lerp(q0, q1, t);
    assert SplitQuadraticBezierCurve(p0, p1, p2, t) == ([p0, q0, r], [r, q1, p2]);
    FirstPiece(p0, p1, p2, t, s);
    SecondPiece(p0, p1, p2, t, s);
  }

  lemma FirstPiece(p0: Point, p1: Point, p2: Point, t: real, s: real)
    ensures var q0 := Lerp(p0, p1, t);
      BezierPoint(p0, q0, Lerp(q0, Lerp(p1, p2, t), t), s) == BezierPoint(p0, p1, p2, t * s)
  {
    FirstPieceCoordinate(p0.x, p1.x, p2.x, t, s);
    FirstPieceCoordinate(p0.y, p1.y, p2.y, t, s);
  }

  lemma SecondPiece(p0: Point, p1: Point, p2: Point, t: real, s: real)
    ensures var q1 := Lerp(p1, p2, t);
      BezierPoint(Lerp(Lerp(p0, p1, t), q1, t), q1, p2, s) == BezierPoint(p0, p1, p2, t + (1.0 - t) * s)
  {
    SecondPieceCoordinate(p0.x, p1.x, p2.x, t, s);
    SecondPieceCoordinate(p0.y, p1.y, p2.y, t, s);
  }

  /** `b - a` as a vector. */
  function Minus(b: Point, a: Point): Point {
    Point(b.x - a.x, b.y - a.y)
  }

  function Dot(u: Point, v: Point): real {
    u.x * v.x + u.y * v.y
  }

  /** The z component of the cross product of `u` and `v`. */
  function Cross(u: Point, v: Point): real {
    u.x * v.y - u.y * v.x
  }

  /** `length` is `Math.sqrt` of the squared length of `u`. */
  predicate IsLength(u: Point, length: real) {
    length >= 0.0 && length * length == Dot(u, u)
  }

  /**
   * The tangent `u` scaled to unit length and turned a quarter turn
   * clockwise; `length` is the length of `u`.
   */
  function Normal(u: Point, length: real): Point
    requires length > 0.0
  {
    Point(u.y / length, -(u.x / length))
  }

  /** The normal is perpendicular to the tangent, has unit length and lies to its right. */
  lemma NormalIsUnit(u: Point, length: real)
    requires IsLength(u, length) && length > 0.0
    ensures Dot(Normal(u, length), u) == 0.0
    ensures Dot(Normal(u, length), Normal(u, length)) == 1.0
    ensures Cross(u, Normal(u, length)) == -length
  {
    var n := Normal(u, length);
    assert n.x * length == u.y && n.y * length == -u.x;
    assert Dot(n, u) * length == 0.0;
    UnitFromTurn(n.x, n.y, u.x, u.y, length);
  }

  /**
   * The algebra of the unit normal on coordinates: `(nx, ny)` times `len` is
   * `(ux, uy)` turned a quarter turn and `len` is the length of `(ux, uy)`.
   */
  lemma UnitFromTurn(nx: real, ny: real, ux: real, uy: real, len: real)
    requires len > 0.0 && nx * len == uy && ny * len == -ux && len * len == ux * ux + uy * uy
    ensures nx * nx + ny * ny == 1.0
  {
    TurnedCross(nx, ny, ux, uy, len);
    Cancel(nx * uy - ny * ux, len, len);
    TurnedSquare(nx, ny, ux, uy, len);
    Cancel(nx * nx + ny * ny, 1.0, len);
  }

  lemma TurnedSquare(nx: real, ny: real, ux: real, uy: real, len: real)
    requires nx * len == uy && ny * len == -ux
    ensures (nx * nx + ny * ny) * len == nx * uy - ny * ux
  {
  }

  lemma TurnedCross(nx: real, ny: real, ux: real, uy: real, len: real)
    requires nx * len == uy && ny * len == -ux
    ensures (nx * uy - ny * ux) * len == ux * ux + uy * uy
  {
  }

  lemma Cancel(a: real, b: real, c: real)
    requires c > 0.0 && a * c == b * c
    ensures a == b
  {
    assert (a - b) * c == 0.0;
  }

  /** `p` moved by `scale` times the vector `n`. */
  function Offset(p: Point, n: Point, scale: real): Point {
    Point(p.x + n.x * scale, p.y + n.y * scale)
  }

  /** `p` moved along `n` by half of `lineWidth` times `n`. */
  function HalfWidthAlong(p: Point, n: Point, lineWidth: real): Point {
    Point(p.x + (n.x * lineWidth) / 2.0, p.y + (n.y * lineWidth) / 2.0)
  }

  /**
   * `quadraticBezierRightEdge(p0, p1, p2, lineWidth)`: the control points of
   * the right-hand edge of the curve drawn `lineWidth` wide. The ends move
   * half the width along the normals of the first and last tangents; the
   * middle control point moves by both. `t0len` and `t2len` are the lengths of
   * the two tangents; when one is zero the source divides by zero and gives
   * points that are not numbers, here no result.
   */
  function QuadraticBezierRightEdge(p0: Point, p1: Point, p2: Point, lineWidth: real, t0len: real, t2len: real)
    : (edge: Option<seq<Point>>)
    requires IsLength(Minus(p1, p0), t0len) && IsLength(Minus(p2, p1), t2len)
    ensures edge.Some? <==> t0len > 0.0 && t2len > 0.0
    ensures edge.Some? ==> |edge.value| == 3
  {
    if t0len == 0.0 || t2len == 0.0 then None
    else
      var n0 := Normal(Minus(p1, p0), t0len);
      var n2 := Normal(Minus(p2, p1), t2len);
      var r0 := HalfWidthAlong(p0, n0, lineWidth);
      var r1 := Point(p1.x + (n0.x * lineWidth) / 2.0 + (n2.x * lineWidth) / 2.0,
                      p1.y + (n0.y * lineWidth) / 2.0 + (n2.y * lineWidth) / 2.0);
      var r2 := HalfWidthAlong(p2, n2, lineWidth);
      Some([r0, r1, r2])
  }

  /** With no width the right-hand edge is the curve itself. */
  lemma RightEdgeOfLine(p0: Point, p1: Point, p2: Point, t0len: real, t2len: real)
    requires IsLength(Minus(p1, p0), t0len) && IsLength(Minus(p2, p1), t2len)
    requires t0len > 0.0 && t2len > 0.0
    ensures QuadraticBezierRightEdge(p0, p1, p2, 0.0, t0len, t2len) == Some([p0, p1, p2])
  {
  }

  /**
   * `q` lies `distance` from `p`, square to the direction `u` of length
   * `length`, and on the right of `u` when `distance` is positive.
   */
  predicate Beside(p: Point, q: Point, u: Point, length: real, distance: real) {
    var moved := Minus(q, p);
    && Dot(moved, u) == 0.0
    && Dot(moved, moved) == distance * distance
    && Cross(u, moved) == -distance * length
  }

  /**
   * `p` moved half the width along the normal of the tangent `u` lies half the
   * width from `p`, square to `u` and on its right.
   */
  lemma HalfWidthOffset(p: Point, u: Point, length: real, lineWidth: real)
    requires IsLength(u, length) && length > 0.0
    ensures var n := Normal(u, length);
      Beside(p, HalfWidthAlong(p, n, lineWidth), u, length, lineWidth / 2.0)
  {
    var n := Normal(u, length);
    var h := lineWidth / 2.0;
    NormalIsUnit(u, length);
    assert Minus(HalfWidthAlong(p, n, lineWidth), p) == Point(n.x * h, n.y * h);
    ScaledVector(n, u, h);
  }

  /**
   * Each end of the right-hand edge lies half the width away from the end of
   * the curve, square to the tangent there and on its right; the middle
   * control point moves by the sum of the two end moves.
   */
  lemma RightEdgeOffsets(p0: Point, p1: Point, p2: Point, lineWidth: real, t0len: real, t2len: real)
    requires IsLength(Minus(p1, p0), t0len) && IsLength(Minus(p2, p1), t2len)
    requires t0len > 0.0 && t2len > 0.0
    ensures var r := QuadraticBezierRightEdge(p0, p1, p2, lineWidth, t0len, t2len).value;
      && Beside(p0, r[0], Minus(p1, p0), t0len, lineWidth / 2.0)
      && Beside(p2, r[2], Minus(p2, p1), t2len, lineWidth / 2.0)
      && Minus(r[1], p1) == Point(Minus(r[0], p0).x + Minus(r[2], p2).x, Minus(r[0], p0).y + Minus(r[2], p2).y)
  {
    HalfWidthOffset(p0, Minus(p1, p0), t0len, lineWidth);
    HalfWidthOffset(p2, Minus(p2, p1), t2len, lineWidth);
  }

  /** Scaling a vector scales its dot and cross products with `u` and squares its length's scale. */
  lemma ScaledVector(n: Point, u: Point, h: real)
    ensures Dot(Point(n.x * h, n.y * h), u) == h * Dot(n, u)
    ensures Dot(Point(n.x * h, n.y * h), Point(n.x * h, n.y * h)) == h * h * Dot(n, n)
    ensures Cross(u, Point(n.x * h, n.y * h)) == h * Cross(u, n)
  {
  }

  /** `lengths[i]` is the length of the segment from `points[i]` to `points[i + 1]`, and none is zero. */
  predicate Measured(points: seq<Point>, lengths: seq<real>) {
    && |lengths| >= |points| - 1
    && forall i :: 0 <= i < |points| - 1 ==> IsLength(Minus(points[i + 1], points[i]), lengths[i]) && lengths[i] > 0.0
  }

  /** The normal of segment `i` of the polyline. */
  function SegmentNormal(points: seq<Point>, lengths: seq<real>, i: nat): Point
    requires Measured(points, lengths) && i < |points| - 1
  {
    Normal(Minus(points[i + 1], points[i]), lengths[i])
  }

  /**
   * The offset polyline, point by point: the first point moved along the
   * first segment's normal, every later point along the normal of the
   * segment that ends at it, and the last point once more.
   */
  function OffsetCurve(points: seq<Point>, lengths: seq<real>, distance: real): (curve: seq<Point>)
    requires Measured(points, lengths)
    ensures |points| < 2 ==> curve == []
    ensures |points| >= 2 ==> |curve| == |points| + 1
  {
    if |points| < 2 then []
    else
      seq(|points| + 1, j requires 0 <= j <= |points| =>
        if j == 0 then Offset(points[0], SegmentNormal(points, lengths, 0), distance)
        else if j < |points| then Offset(points[j], SegmentNormal(points, lengths, j - 1), distance)
        else Offset(points[|points| - 1], SegmentNormal(points, lengths, |points| - 2), distance))
  }

  /** The offset curve ends on a repeated point. */
  lemma OffsetCurveRepeatsLast(points: seq<Point>, lengths: seq<real>, distance: real)
    requires Measured(points, lengths) && |points| >= 2
    ensures var curve := OffsetCurve(points, lengths, distance);
      curve[|curve| - 1] == curve[|curve| - 2]
  {
  }

  /** With no distance the offset curve is the polyline with its last point repeated. */
  lemma OffsetCurveAtZero(points: seq<Point>, lengths: seq<real>)
    requires Measured(points, lengths) && |points| >= 2
    ensures OffsetCurve(points, lengths, 0.0) == points + [points[|points| - 1]]
  {
    var curve := OffsetCurve(points, lengths, 0.0);
    forall j | 0 <= j < |curve|
      ensures curve[j] == (points + [points[|points| - 1]])[j]
    {
    }
  }

  /**
   * Every point of the offset curve but the first lies `distance` away from
   * the polyline point it comes from, square to the segment ending there and
   * on its right for a positive distance; the first does so for the first
   * segment.
   */
  lemma OffsetCurveDistance(points: seq<Point>, lengths: seq<real>, distance: real, j: nat)
    requires Measured(points, lengths) && |points| >= 2 && j < |points|
    ensures var i := if j == 0 then 0 else j - 1;
      Beside(points[j], OffsetCurve(points, lengths, distance)[j], Minus(points[i + 1], points[i]), lengths[i], distance)
  {
    var i := if j == 0 then 0 else j - 1;
    var segment := Minus(points[i + 1], points[i]);
    assert IsLength(segment, lengths[i]) && lengths[i] > 0.0;
    OffsetCurveAt(points, lengths, distance, j);
    OffsetAlongNormal(points[j], OffsetCurve(points, lengths, distance)[j], segment, lengths[i], distance);
  }

  /** Point `j` of the offset curve is point `j` of the polyline moved along the normal of its segment. */
  lemma OffsetCurveAt(points: seq<Point>, lengths: seq<real>, distance: real, j: nat)
    requires Measured(points, lengths) && |points| >= 2 && j < |points|
    ensures var i := if j == 0 then 0 else j - 1;
      OffsetCurve(points, lengths, distance)[j] == Offset(points[j], Normal(Minus(points[i + 1], points[i]), lengths[i]), distance)
  {
  }

  /** A point moved `distance` along the normal of `u` lies beside where it was. */
  lemma OffsetAlongNormal(p: Point, q: Point, u: Point, length: real, distance: real)
    requires IsLength(u, length) && length > 0.0 && q == Offset(p, Normal(u, length), distance)
    ensures Beside(p, q, u, length, distance)
  {
    var n := Normal(u, length);
    NormalIsUnit(u, length);
    OffsetMoves(p, n, distance);
    ScaledVector(n, u, distance);
  }

  lemma OffsetMoves(p: Point, n: Point, scale: real)
    ensures Minus(Offset(p, n, scale), p) == Point(n.x * scale, n.y * scale)
  {
  }

  /**
   * `getOffsetCurve(points, distance)`: the loop over the segments that
   * pushes the first offset point once, the end of every segment, and the
   * last end a second time. `lengths` holds each segment's `Math.sqrt`.
   */
  method GetOffsetCurve(points: seq<Point>, lengths: seq<real>, distance: real) returns (offsetPoints: seq<Point>)
    requires Measured(points, lengths)
    ensures offsetPoints == OffsetCurve(points, lengths, distance)
  {
    ghost var curve := OffsetCurve(points, lengths, distance);
    offsetPoints := [];
    var i := 0;
    while i < |points| - 1
      invariant 0 <= i && (|points| >= 2 ==> i <= |points| - 1)
      invariant offsetPoints == if i == 0 then [] else if i < |points| - 1 then curve[..i + 1] else curve
    {
      var p0 := points[i];
      var p1 := points[i + 1];
      var normal := Normal(Minus(p1, p0), lengths[i]);
      var offsetP0 := Offset(p0, normal, distance);
      var offsetP1 := Offset(p1, normal, distance);
      assert offsetP1 == curve[i + 1];
      assert i == 0 ==> offsetP0 == curve[0];
      if i == 0 {
        offsetPoints := offsetPoints + [offsetP0];
      }
      offsetPoints := offsetPoints + [offsetP1];
      if i == |points| - 2 {
        offsetPoints := offsetPoints + [offsetP1];
      }
      i := i + 1;
    }
  }
}
