/**
 * The priority queue of the lane search: a JavaScript `Map` from key to tentative
 * distance. A `Map` keeps its keys in insertion order, `set` on a present key
 * updates its value in place, and `delete` drops the key. The queue is a
 * sequence of entries with distinct keys, in that order.
 */
module PriorityQueues {

  datatype Entry<K> = Entry(key: K, distance: real)

  function Keys<K>(q: seq<Entry<K>>): set<K> {
    set e | e in q :: e.key
  }

  /** No key occurs in two entries. */
  predicate UniqueKeys<K(==)>(q: seq<Entry<K>>) {
    forall i, j :: 0 <= i < j < |q| ==> q[i].key != q[j].key
  }

  /**
   * `[...queue.entries()].reduce((a, b) => a[1] < b[1] ? a : b)`: the accumulator
   * is kept only when strictly smaller, so among the entries of least distance
   * the last one in insertion order is chosen.
   */
  function Reduce<K>(q: seq<Entry<K>>): (e: Entry<K>)
    requires |q| > 0
    ensures e in q
    ensures forall x :: x in q ==> e.distance <= x.distance
    ensures exists k :: 0 <= k < |q| && q[k] == e && forall j :: k < j < |q| ==> q[j].distance > e.distance
  {
    q[ReduceIndex(q)]
  }

  /** The position of the entry `Reduce` selects. */
  function ReduceIndex<K>(q: seq<Entry<K>>): (k: nat)
    requires |q| > 0
    ensures k < |q|
    ensures forall i :: 0 <= i < |q| ==> q[k].distance <= q[i].distance
    ensures forall j :: k < j < |q| ==> q[j].distance > q[k].distance
  {
    if |q| == 1 then 0
    else
      var k := ReduceIndex(q[..|q| - 1]);
      assert q[k] == q[..|q| - 1][k];
      if q[k].distance < q[|q| - 1].distance then k else |q| - 1
  }

  /**
   * `queue.set(key, distance)`: the value of a present key is replaced in place
   * (`SetInPlace`), a new key goes last (`SetAppends`).
   */
  function Set<K(==)>(q: seq<Entry<K>>, key: K, distance: real): (r: seq<Entry<K>>)
    ensures Keys(r) == Keys(q) + {key} && Entry(key, distance) in r
    ensures UniqueKeys(q) ==> UniqueKeys(r)
  {
    if |q| == 0 then [Entry(key, distance)]
    else if q[0].key == key then
      assert Keys(q) == {key} + Keys(q[1..]) by {
        assert forall e :: e in q ==> e == q[0] || e in q[1..];
      }
      [Entry(key, distance)] + q[1..]
    else
      var rest := Set(q[1..], key, distance);
      assert Keys(q) == {q[0].key} + Keys(q[1..]) by {
        assert forall e :: e in q ==> e == q[0] || e in q[1..];
      }
      assert Keys([q[0]] + rest) == {q[0].key} + Keys(rest) by {
        assert forall e :: e in [q[0]] + rest ==> e == q[0] || e in rest;
      }
      [q[0]] + rest
  }

  /** Setting a present key changes the value of its entry and nothing else. */
  lemma {:induction false} SetInPlace<K>(q: seq<Entry<K>>, key: K, distance: real)
    requires UniqueKeys(q) && key in Keys(q)
    ensures |Set(q, key, distance)| == |q|
    ensures forall i :: 0 <= i < |q| ==> Set(q, key, distance)[i] == if q[i].key == key then Entry(key, distance) else q[i]
  {
    if q[0].key != key {
      assert key in Keys(q[1..]) by {
        var e :| e in q && e.key == key;
        assert e != q[0];
      }
      assert UniqueKeys(q[1..]) by {
        forall i, j | 0 <= i < j < |q| - 1 ensures q[1..][i].key != q[1..][j].key {
          assert q[1..][i] == q[i + 1] && q[1..][j] == q[j + 1];
        }
      }
      SetInPlace(q[1..], key, distance);
      var rest := Set(q[1..], key, distance);
      assert Set(q, key, distance) == [q[0]] + rest;
      forall i | 0 < i < |q|
        ensures Set(q, key, distance)[i] == if q[i].key == key then Entry(key, distance) else q[i]
      {
        assert Set(q, key, distance)[i] == rest[i - 1] && q[1..][i - 1] == q[i];
      }
    } else {
      forall i | 0 < i < |q| ensures q[i].key != key {
        assert q[0].key != q[i].key;
      }
    }
  }

  /** Setting a new key appends its entry. */
  lemma {:induction false} SetAppends<K>(q: seq<Entry<K>>, key: K, distance: real)
    requires key !in Keys(q)
    ensures Set(q, key, distance) == q + [Entry(key, distance)]
  {
    if |q| > 0 {
      assert q[0] in q;
      assert key !in Keys(q[1..]) by {
        assert forall e :: e in q[1..] ==> e in q;
      }
      SetAppends(q[1..], key, distance);
      assert q == [q[0]] + q[1..];
    }
  }

  /** `queue.delete(key)`: the entry of `key` is dropped, the others keep their order. */
  function Delete<K(==)>(q: seq<Entry<K>>, key: K): (r: seq<Entry<K>>)
    ensures Keys(r) == Keys(q) - {key}
    ensures forall e :: e in r ==> e in q && e.key != key
    ensures forall e :: e in q && e.key != key ==> e in r
    ensures |r| <= |q| && (key in Keys(q) ==> |r| < |q|)
    ensures UniqueKeys(q) ==> UniqueKeys(r)
  {
    if |q| == 0 then []
    else
      var rest := Delete(q[1..], key);
      assert forall e :: e in q ==> e == q[0] || e in q[1..];
      if q[0].key == key then rest
      else [q[0]] + rest
  }
}
