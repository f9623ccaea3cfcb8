/** Small value types shared by every part of the model. */
module Basics {

  datatype Option<T> = None | Some(value: T)

  /** A plane position (`Coordinates` in the source); coordinates are reals, not doubles. */
  datatype Point = Point(x: real, y: real)

  /** The point halfway between `a` and `b`. */
  function Midpoint(a: Point, b: Point): Point {
    Point((a.x + b.x) / 2.0, (a.y + b.y) / 2.0)
  }

  /**
   * `randomElement(list)`: the caller supplies the random draw as `pick`, and the
   * element chosen is `list[pick % |list|]`. An empty list yields JavaScript's
   * `undefined`, here `None`.
   */
  function RandomElement<T>(list: seq<T>, pick: nat): (r: Option<T>)
    ensures r.Some? <==> |list| > 0
    ensures r.Some? ==> r.value in list
    ensures pick < |list| ==> r == Some(list[pick])
  {
    if |list| == 0 then None else Some(list[pick % |list|])
  }

  /** The last element of a non-empty sequence. */
  function Last<T>(s: seq<T>): T
    requires |s| > 0
  {
    s[|s| - 1]
  }

  /** No element occurs twice (an array used as a JavaScript `Set`, or a queue of distinct objects). */
  predicate Distinct<T(==)>(s: seq<T>) {
    forall i, j :: 0 <= i < j < |s| ==> s[i] != s[j]
  }

  /** The prefix of one more element is the prefix with that element appended. */
  lemma PrefixGrows<T>(s: seq<T>, i: nat)
    requires i < |s|
    ensures s[..i + 1] == s[..i] + [s[i]]
  {
  }

  /** Appending an element not yet present keeps a sequence distinct. */
  lemma DistinctSnoc<T>(a: seq<T>, x: T)
    requires Distinct(a) && x !in a
    ensures Distinct(a + [x])
  {
  }
}
