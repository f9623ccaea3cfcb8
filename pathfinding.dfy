/**
 * The index-based Dijkstra search of `pathfinding.ts` (`dijkstra`), used
 * by the older engine. Nodes and edges are referred to by their indices in the
 * graph; the result is a list of edge indices, or `null`.
 */
module Pathfinding {
  import opened Basics
  import opened Graphs

  /** A tentative distance: a number, or `Infinity` for a node not reached yet. */
  datatype Distance = Finite(value: real) | Infinity

  /** JavaScript's `a < b` on distances: `Infinity` is below nothing and above every number. */
  predicate Below(a: Distance, b: Distance) {
    a.Finite? && (b.Infinity? || a.value < b.value)
  }

  /** `d + w` for a number `w`: `Infinity` absorbs it. */
  function Plus(d: Distance, w: real): (r: Distance)
    ensures r.Finite? <==> d.Finite?
    ensures w >= 0.0 ==> !Below(r, d)
  {
    if d.Finite? then Finite(d.value + w) else Infinity
  }

  /** Edge lengths are never negative (`Phaser.Math.Distance.Between` is a Euclidean distance). */
  ghost predicate NonNegative(measure: (Point, Point) -> real) {
    forall p, q :: measure(p, q) >= 0.0
  }

  /** `edgeLength(graph, edge)`: the measure between the two end nodes of edge `i`. */
  function EdgeLength(graph: Graph, i: int, measure: (Point, Point) -> real): real
    requires graph.Valid() && 0 <= i < |graph.edges|
  {
    measure(graph.nodes[graph.edges[i].source], graph.nodes[graph.edges[i].target])
  }

  /**
   * The records of `dijkstra`: tentative distances and predecessors indexed by
   * node (`null` as `None`), and the queue of nodes not yet taken.
   */
  datatype Search = Search(distances: seq<Distance>, previous: seq<Option<int>>, queue: seq<int>)

  /**
   * `queue.reduce(...)` started at `queue[0]`: a later node replaces the choice
   * only when strictly closer, so the choice is the first node of least distance.
   */
  function NearestIndex(distances: seq<Distance>, queue: seq<int>): (k: nat)
    requires |queue| > 0 && forall j :: 0 <= j < |queue| ==> 0 <= queue[j] < |distances|
    ensures k < |queue|
    ensures forall j :: 0 <= j < |queue| ==> !Below(distances[queue[j]], distances[queue[k]])
    ensures forall j :: 0 <= j < k ==> Below(distances[queue[k]], distances[queue[j]])
  {
    if |queue| == 1 then 0
    else
      var front := queue[..|queue| - 1];
      var k := NearestIndex(distances, front);
      assert forall j :: 0 <= j < |front| ==> front[j] == queue[j];
      if Below(distances[queue[|queue| - 1]], distances[queue[k]]) then |queue| - 1 else k
  }

  /** `queue.splice(queue.indexOf(node), 1)` for the node at `k`, which occurs only there. */
  function Splice(queue: seq<int>, k: nat): (r: seq<int>)
    requires k < |queue| && Distinct(queue)
    ensures |r| == |queue| - 1 && Distinct(r)
    ensures forall x :: x in r <==> x in queue && x != queue[k]
  {
    var r := queue[..k] + queue[k + 1..];
    assert forall j :: 0 <= j < |r| ==> r[j] == if j < k then queue[j] else queue[j + 1];
    r
  }

  /** `graph.edges.findIndex(...)`: the first edge from `u` to `v`, or -1. */
  function FindEdge(graph: Graph, u: int, v: int): (i: int)
    ensures -1 <= i < |graph.edges|
    ensures i >= 0 ==> graph.Joins(i, u, v) && forall j :: 0 <= j < i ==> !graph.Joins(j, u, v)
    ensures i == -1 <==> forall j :: 0 <= j < |graph.edges| ==> !graph.Joins(j, u, v)
  {
    FindEdgeFrom(graph, u, v, 0)
  }

  /** The first edge from `u` to `v` at index `from` or later, or -1. */
  function FindEdgeFrom(graph: Graph, u: int, v: int, from: nat): (i: int)
    requires from <= |graph.edges|
    ensures -1 <= i < |graph.edges|
    ensures i >= 0 ==> from <= i && graph.Joins(i, u, v) && forall j :: from <= j < i ==> !graph.Joins(j, u, v)
    ensures i == -1 <==> forall j :: from <= j < |graph.edges| ==> !graph.Joins(j, u, v)
    decreases |graph.edges| - from
  {
    if from == |graph.edges| then -1
    else if graph.Joins(from, u, v) then from
    else FindEdgeFrom(graph, u, v, from + 1)
  }

  /**
   * What one relaxation may do to node `v`: leave its distance and predecessor
   * alone, or lower its distance strictly, to the distance of `current` plus
   * the length of an edge from `current` to `v`, and make `current` its predecessor.
   */
  ghost predicate Relaxed(graph: Graph, measure: (Point, Point) -> real, s: Search, r: Search, current: int, v: int)
    requires graph.Valid() && 0 <= current < |s.distances| && 0 <= v < |s.distances| && v < |r.distances|
    requires |s.previous| == |r.previous| == |s.distances|
  {
    || (r.distances[v] == s.distances[v] && r.previous[v] == s.previous[v])
    || (&& Below(r.distances[v], s.distances[v]) && r.previous[v] == Some(current)
        && exists i :: graph.Joins(i, current, v) && r.distances[v] == Plus(s.distances[current], EdgeLength(graph, i, measure)))
  }

  /**
   * The relaxation loop of `dijkstra` over every edge, in order: an edge leaving
   * `current` lowers its target's distance when that is a strict improvement.
   * Afterwards no edge leaving `current` offers an improvement.
   */
  method Relax(graph: Graph, measure: (Point, Point) -> real, s: Search, current: int) returns (r: Search)
    requires graph.Valid() && NonNegative(measure)
    requires 0 <= current < |graph.nodes| && |s.distances| == |graph.nodes| && |s.previous| == |graph.nodes|
    ensures r.queue == s.queue && |r.distances| == |graph.nodes| && |r.previous| == |graph.nodes|
    ensures r.distances[current] == s.distances[current]
    ensures forall v :: 0 <= v < |graph.nodes| ==> Relaxed(graph, measure, s, r, current, v)
    ensures forall i :: 0 <= i < |graph.edges| && graph.edges[i].source == current ==>
      !Below(Plus(s.distances[current], EdgeLength(graph, i, measure)), r.distances[graph.edges[i].target])
  {
    r := s;
    var j := 0;
    while j < |graph.edges|
      invariant 0 <= j <= |graph.edges|
      invariant r.queue == s.queue && |r.distances| == |graph.nodes| && |r.previous| == |graph.nodes|
      invariant r.distances[current] == s.distances[current]
      invariant forall v :: 0 <= v < |graph.nodes| ==> Relaxed(graph, measure, s, r, current, v)
      invariant forall i :: 0 <= i < j && graph.edges[i].source == current ==>
        !Below(Plus(s.distances[current], EdgeLength(graph, i, measure)), r.distances[graph.edges[i].target])
    {
      var edge := graph.edges[j];
      if edge.source == current {
        var neighbor := edge.target;
        var tentativeDistance := Plus(r.distances[current], EdgeLength(graph, j, measure));
        if Below(tentativeDistance, r.distances[neighbor]) {
          RelaxStep(graph, measure, s, r, current, j);
          r := r.(distances := r.distances[neighbor := tentativeDistance],
                  previous := r.previous[neighbor := Some(current)]);
        }
      }
      j := j + 1;
    }
  }

  /** One improving edge `j` keeps the relaxation facts of the loop in `Relax`. */
  lemma RelaxStep(graph: Graph, measure: (Point, Point) -> real, s: Search, r: Search, current: int, j: int)
    requires graph.Valid() && NonNegative(measure) && 0 <= j < |graph.edges| && graph.edges[j].source == current
    requires 0 <= current < |graph.nodes| && |s.distances| == |graph.nodes| && |s.previous| == |graph.nodes|
    requires |r.distances| == |graph.nodes| && |r.previous| == |graph.nodes|
    requires r.distances[current] == s.distances[current]
    requires forall v :: 0 <= v < |graph.nodes| ==> Relaxed(graph, measure, s, r, current, v)
    requires forall i :: 0 <= i < j && graph.edges[i].source == current ==>
      !Below(Plus(s.distances[current], EdgeLength(graph, i, measure)), r.distances[graph.edges[i].target])
    requires Below(Plus(r.distances[current], EdgeLength(graph, j, measure)), r.distances[graph.edges[j].target])
    ensures var neighbor, d := graph.edges[j].target, Plus(r.distances[current], EdgeLength(graph, j, measure));
      var t := r.(distances := r.distances[neighbor := d], previous := r.previous[neighbor := Some(current)]);
      && t.distances[current] == s.distances[current]
      && (forall v :: 0 <= v < |graph.nodes| ==> Relaxed(graph, measure, s, t, current, v))
      && (forall i :: 0 <= i <= j && graph.edges[i].source == current ==>
            !Below(Plus(s.distances[current], EdgeLength(graph, i, measure)), t.distances[graph.edges[i].target]))
  {
    var neighbor, d := graph.edges[j].target, Plus(r.distances[current], EdgeLength(graph, j, measure));
    var t := r.(distances := r.distances[neighbor := d], previous := r.previous[neighbor := Some(current)]);
    assert neighbor != current by {
      assert !Below(d, r.distances[current]);
    }
    assert graph.Joins(j, current, neighbor);
    forall v | 0 <= v < |graph.nodes|
      ensures Relaxed(graph, measure, s, t, current, v)
    {
      assert Relaxed(graph, measure, s, r, current, v);
      if v == neighbor {
        assert Below(t.distances[v], s.distances[v]);
      }
    }
    forall i | 0 <= i <= j && graph.edges[i].source == current
      ensures !Below(Plus(s.distances[current], EdgeLength(graph, i, measure)), t.distances[graph.edges[i].target])
    {
    }
  }

  /**
   * The search invariant of `dijkstra`: the queue and the order of the nodes
   * taken agree, the records hold their settled facts, and no queued node is
   * closer than a node taken.
   */
  ghost predicate SearchInv(graph: Graph, start: int, s: Search, order: map<int, nat>, count: nat) {
    Queued(graph, s, order, count) && Settled(graph, start, s, order) && Frontier(s, order)
  }

  /**
   * `order` numbers the nodes taken from the queue, all below `count`: the
   * nodes that are not queued. The queue holds distinct nodes.
   */
  ghost predicate Queued(graph: Graph, s: Search, order: map<int, nat>, count: nat) {
    var n := |graph.nodes|;
    && Distinct(s.queue) && (forall k :: 0 <= k < |s.queue| ==> 0 <= s.queue[k] < n)
    && (forall v :: v in order <==> 0 <= v < n && v !in s.queue)
    && (forall v :: v in order ==> order[v] < count)
  }

  /**
   * Known distances are not negative; the start node, when it is a node, keeps
   * distance 0 and no predecessor; a node with a distance is the start or has
   * a predecessor; and every predecessor is `Linked`.
   */
  ghost predicate Settled(graph: Graph, start: int, s: Search, order: map<int, nat>) {
    var n := |graph.nodes|;
    && |s.distances| == n && |s.previous| == n
    && (forall v :: 0 <= v < n && s.distances[v].Finite? ==>
          s.distances[v].value >= 0.0 && (v == start || s.previous[v].Some?))
    && (0 <= start < n ==> s.distances[start] == Finite(0.0) && s.previous[start].None?)
    && (forall v :: 0 <= v < n && s.previous[v].Some? ==> Linked(graph, start, s, order, v))
  }

  /** No queued node is closer than a node taken. */
  ghost predicate Frontier(s: Search, order: map<int, nat>) {
    forall r, q :: r in order && q in s.queue && 0 <= r < |s.distances| && 0 <= q < |s.distances| ==>
      !Below(s.distances[q], s.distances[r])
  }

  /**
   * The predecessor `u` of node `v` was taken from the queue before `v`, has
   * a distance and is joined to `v` by an edge, and `v` is reachable from the start.
   */
  ghost predicate Linked(graph: Graph, start: int, s: Search, order: map<int, nat>, v: int)
    requires 0 <= v < |s.previous| && s.previous[v].Some?
  {
    var u := s.previous[v].value;
    && u in order && 0 <= u < |s.distances| && s.distances[u].Finite?
    && (exists i :: graph.Joins(i, u, v)) && graph.Reaches(start, v)
    && (v in order ==> order[u] < order[v])
  }

  /** Every edge leaving a node of `nodes` that has a distance leads to a node that has one. */
  ghost predicate Closed(graph: Graph, s: Search, nodes: set<int>) {
    && graph.Valid() && |s.distances| == |graph.nodes|
    && forall i :: 0 <= i < |graph.edges| && graph.edges[i].source in nodes && s.distances[graph.edges[i].source].Finite? ==>
         s.distances[graph.edges[i].target].Finite?
  }

  /**
   * Taking the node at `k`, the first nearest, out of the queue keeps the
   * invariant, with that node next in order and no closer than any node taken.
   */
  lemma TakeKeeps(graph: Graph, start: int, s: Search, k: nat, order: map<int, nat>, count: nat)
    requires SearchInv(graph, start, s, order, count) && k < |s.queue|
    requires forall j :: 0 <= j < |s.queue| ==> !Below(s.distances[s.queue[j]], s.distances[s.queue[k]])
    ensures var current := s.queue[k];
      var t := s.(queue := Splice(s.queue, k));
      && SearchInv(graph, start, t, order[current := count], count + 1)
      && forall r :: r in order[current := count] ==> !Below(s.distances[current], s.distances[r])
  {
    var current := s.queue[k];
    var t := s.(queue := Splice(s.queue, k));
    var o := order[current := count];
    assert current in s.queue;
    forall v | 0 <= v < |graph.nodes| && t.previous[v].Some?
      ensures Linked(graph, start, t, o, v)
    {
      assert Linked(graph, start, s, order, v);
    }
    forall r, q | r in o && q in t.queue
      ensures !Below(t.distances[q], t.distances[r])
    {
      if r == current {
        var j :| 0 <= j < |s.queue| && s.queue[j] == q;
      }
    }
  }

  /**
   * A node whose distance or predecessor a relaxation from `current` changed
   * was not taken yet, and now follows `current`, no closer than `current`.
   */
  lemma RelaxedNode(graph: Graph, measure: (Point, Point) -> real, start: int, s: Search, r: Search,
                    current: int, order: map<int, nat>, v: int)
    requires graph.Valid() && NonNegative(measure)
    requires Settled(graph, start, s, order) && current in order && 0 <= current < |graph.nodes|
    requires forall x :: x in order && 0 <= x < |graph.nodes| ==> !Below(s.distances[current], s.distances[x])
    requires |r.distances| == |graph.nodes| && |r.previous| == |graph.nodes|
    requires r.distances[current] == s.distances[current]
    requires 0 <= v < |graph.nodes| && Relaxed(graph, measure, s, r, current, v)
    requires r.distances[v] != s.distances[v] || r.previous[v] != s.previous[v]
    ensures v !in order && r.previous[v] == Some(current) && r.distances[v].Finite? && r.distances[v].value >= 0.0
    ensures !Below(r.distances[v], s.distances[current])
    ensures Linked(graph, start, r, order, v)
  {
    var i :| graph.Joins(i, current, v) && r.distances[v] == Plus(s.distances[current], EdgeLength(graph, i, measure));
    if v in order {
      assert false;
    }
    if current == start {
      assert graph.Walk([i], start, v);
    } else {
      assert Linked(graph, start, s, order, current);
      var p :| graph.Walk(p, start, current);
      WalkExtends(graph, p, start, current, i, v);
    }
  }

  /** The facts a relaxation from `current`, the node taken last, is known to keep. */
  ghost predicate RelaxFrom(graph: Graph, measure: (Point, Point) -> real, start: int, s: Search, r: Search,
                            current: int, order: map<int, nat>)
  {
    && graph.Valid() && NonNegative(measure)
    && Settled(graph, start, s, order) && current in order && 0 <= current < |graph.nodes|
    && (forall x :: x in order && 0 <= x < |graph.nodes| ==> !Below(s.distances[current], s.distances[x]))
    && r.queue == s.queue && |r.distances| == |graph.nodes| && |r.previous| == |graph.nodes|
    && r.distances[current] == s.distances[current]
    && forall v :: 0 <= v < |graph.nodes| ==> Relaxed(graph, measure, s, r, current, v)
  }

  /** A relaxation from the node taken last changes no node taken. */
  lemma RelaxTaken(graph: Graph, measure: (Point, Point) -> real, start: int, s: Search, r: Search,
                   current: int, order: map<int, nat>)
    requires RelaxFrom(graph, measure, start, s, r, current, order)
    ensures forall x :: x in order && 0 <= x < |graph.nodes| ==> r.distances[x] == s.distances[x] && r.previous[x] == s.previous[x]
  {
    forall x | x in order && 0 <= x < |graph.nodes|
      ensures r.distances[x] == s.distances[x] && r.previous[x] == s.previous[x]
    {
      if r.distances[x] != s.distances[x] || r.previous[x] != s.previous[x] {
        RelaxedNode(graph, measure, start, s, r, current, order, x);
      }
    }
  }

  /** A relaxation from the node taken last keeps the settled facts. */
  lemma RelaxSettled(graph: Graph, measure: (Point, Point) -> real, start: int, s: Search, r: Search,
                     current: int, order: map<int, nat>)
    requires RelaxFrom(graph, measure, start, s, r, current, order)
    ensures Settled(graph, start, r, order)
  {
    var n := |graph.nodes|;
    forall v | 0 <= v < n && r.previous[v].Some?
      ensures Linked(graph, start, r, order, v)
    {
      if r.distances[v] != s.distances[v] || r.previous[v] != s.previous[v] {
        RelaxedNode(graph, measure, start, s, r, current, order, v);
      } else {
        assert Linked(graph, start, s, order, v);
        var u := s.previous[v].value;
        assert Relaxed(graph, measure, s, r, current, u);
      }
    }
    forall v | 0 <= v < n && r.distances[v].Finite?
      ensures r.distances[v].value >= 0.0 && (v == start || r.previous[v].Some?)
    {
      if r.distances[v] != s.distances[v] || r.previous[v] != s.previous[v] {
        RelaxedNode(graph, measure, start, s, r, current, order, v);
      }
    }
    if 0 <= start < n && (r.distances[start] != s.distances[start] || r.previous[start] != s.previous[start]) {
      RelaxedNode(graph, measure, start, s, r, current, order, start);
    }
  }

  /** A relaxation from the node taken last brings no queued node closer than a node taken. */
  lemma RelaxFrontier(graph: Graph, measure: (Point, Point) -> real, start: int, s: Search, r: Search,
                      current: int, order: map<int, nat>)
    requires RelaxFrom(graph, measure, start, s, r, current, order) && Frontier(s, order)
    requires forall x :: x in order && 0 <= x < |graph.nodes| ==> r.distances[x] == s.distances[x]
    ensures Frontier(r, order)
  {
    forall x, q | x in order && q in r.queue && 0 <= x < |r.distances| && 0 <= q < |r.distances|
      ensures !Below(r.distances[q], r.distances[x])
    {
      if r.distances[q] != s.distances[q] || r.previous[q] != s.previous[q] {
        RelaxedNode(graph, measure, start, s, r, current, order, q);
      }
    }
  }

  /**
   * A relaxation from `current`, the node taken last, keeps the invariant: a
   * node taken is never improved again, since it is no farther than `current`.
   */
  lemma RelaxKeeps(graph: Graph, measure: (Point, Point) -> real, start: int, s: Search, r: Search,
                   current: int, order: map<int, nat>, count: nat)
    requires graph.Valid() && NonNegative(measure)
    requires SearchInv(graph, start, s, order, count) && current in order
    requires forall x :: x in order ==> !Below(s.distances[current], s.distances[x])
    requires r.queue == s.queue && |r.distances| == |graph.nodes| && |r.previous| == |graph.nodes|
    requires r.distances[current] == s.distances[current]
    requires forall v :: 0 <= v < |graph.nodes| ==> Relaxed(graph, measure, s, r, current, v)
    ensures SearchInv(graph, start, r, order, count)
    ensures forall x :: x in order ==> r.distances[x] == s.distances[x]
  {
    assert RelaxFrom(graph, measure, start, s, r, current, order);
    RelaxTaken(graph, measure, start, s, r, current, order);
    RelaxSettled(graph, measure, start, s, r, current, order);
    RelaxFrontier(graph, measure, start, s, r, current, order);
  }

  /**
   * After the relaxation from `current`, every edge leaving a node taken that
   * has a distance, `current` included, leads to a node that has one.
   */
  lemma ClosedKeeps(graph: Graph, measure: (Point, Point) -> real, s: Search, r: Search, current: int, nodes: set<int>)
    requires graph.Valid() && Closed(graph, s, nodes) && 0 <= current < |graph.nodes|
    requires forall x :: x in nodes ==> 0 <= x < |graph.nodes|
    requires |s.previous| == |graph.nodes| && |r.distances| == |graph.nodes| && |r.previous| == |graph.nodes|
    requires r.distances[current] == s.distances[current] && forall x :: x in nodes ==> r.distances[x] == s.distances[x]
    requires forall v :: 0 <= v < |graph.nodes| ==> Relaxed(graph, measure, s, r, current, v)
    requires forall i :: 0 <= i < |graph.edges| && graph.edges[i].source == current ==>
      !Below(Plus(s.distances[current], EdgeLength(graph, i, measure)), r.distances[graph.edges[i].target])
    ensures Closed(graph, r, nodes + {current})
  {
    forall i | 0 <= i < |graph.edges| && graph.edges[i].source in nodes + {current} && r.distances[graph.edges[i].source].Finite?
      ensures r.distances[graph.edges[i].target].Finite?
    {
      var u, v := graph.edges[i].source, graph.edges[i].target;
      assert Relaxed(graph, measure, s, r, current, u);
      assert Relaxed(graph, measure, s, r, current, v);
    }
  }

  /** Along a walk, a graph whose every edge keeps a distance carries one from its first node to its last. */
  lemma {:induction false} FiniteAlong(graph: Graph, s: Search, p: seq<int>, u: int, v: int)
    requires graph.Valid() && |s.distances| == |graph.nodes| && graph.Walk(p, u, v)
    requires forall i :: 0 <= i < |graph.edges| && s.distances[graph.edges[i].source].Finite? ==>
      s.distances[graph.edges[i].target].Finite?
    requires s.distances[u].Finite?
    ensures s.distances[v].Finite?
    decreases |p|
  {
    var w := graph.edges[p[0]].target;
    if |p| > 1 {
      var rest := p[1..];
      assert graph.Walk(rest, w, v) by {
        assert forall k :: 0 <= k < |rest| ==> rest[k] == p[k + 1];
        assert Last(rest) == Last(p);
      }
      FiniteAlong(graph, s, rest, w, v);
    }
  }

  /**
   * When the node at `k`, nearest in the queue, can be reached from the start
   * and is not the start, it has a predecessor: were its distance `Infinity`,
   * every node with a distance would have been taken, and a walk from the
   * start would carry a distance to it.
   */
  lemma ReachedWhenTaken(graph: Graph, start: int, s: Search, order: map<int, nat>, count: nat, k: nat)
    requires graph.Valid() && SearchInv(graph, start, s, order, count) && Closed(graph, s, order.Keys)
    requires k < |s.queue| && forall j :: 0 <= j < |s.queue| ==> !Below(s.distances[s.queue[j]], s.distances[s.queue[k]])
    requires 0 <= start < |graph.nodes| && s.queue[k] != start && graph.Reaches(start, s.queue[k])
    ensures s.previous[s.queue[k]].Some?
  {
    var e := s.queue[k];
    if s.distances[e].Infinity? {
      forall i | 0 <= i < |graph.edges| && s.distances[graph.edges[i].source].Finite?
        ensures s.distances[graph.edges[i].target].Finite?
      {
        var u := graph.edges[i].source;
        if u in s.queue {
          assert false;
        }
      }
      var p :| graph.Walk(p, start, e);
      FiniteAlong(graph, s, p, start, e);
    }
  }

  /**
   * The reconstruction of `dijkstra` from `end`: while the predecessor is
   * truthy, put in front the first edge from it to the node and step back.
   * The test `previous[node]` is falsy for node 0 as for `null`, so the walk
   * back stops at a node whose predecessor is node 0, and no edge leaving
   * node 0 is ever part of the result. Unless node 0 is the start or can be
   * reached from it, the walk back ends at the start.
   */
  method Reconstruct(graph: Graph, start: int, s: Search, ghost order: map<int, nat>, ghost count: nat, end: int)
    returns (path: seq<int>)
    requires graph.Valid() && Settled(graph, start, s, order) && 0 <= end < |graph.nodes|
    requires forall v :: v in order ==> order[v] < count
    ensures graph.Chain(path) && (|path| > 0 ==> graph.edges[Last(path)].target == end)
    ensures forall k :: 0 <= k < |path| ==> graph.edges[path[k]].source != 0
    ensures |path| > 0 ==> graph.Reaches(start, end)
    ensures |path| > 0 && start != 0 && !graph.Reaches(start, 0) ==> graph.Walk(path, start, end)
    ensures s.previous[end].None? ==> path == []
    ensures path == [] && s.previous[end].Some? ==> s.previous[end] == Some(0) && exists i :: graph.Joins(i, 0, end)
  {
    path := [];
    var node := end;
    while s.previous[node].Some? && s.previous[node].value != 0
      invariant 0 <= node < |graph.nodes| && (node == end || node in order)
      invariant graph.Chain(path)
      invariant |path| == 0 ==> node == end
      invariant |path| > 0 ==> graph.edges[path[0]].source == node && graph.edges[Last(path)].target == end
      invariant |path| > 0 ==> s.previous[end].Some? && s.distances[node].Finite?
      invariant forall k :: 0 <= k < |path| ==> graph.edges[path[k]].source != 0
      decreases if node in order then order[node] else count
    {
      assert Linked(graph, start, s, order, node);
      var previousNode := s.previous[node].value;
      var edgeIndex := FindEdge(graph, previousNode, node);
      path := [edgeIndex] + path;
      node := previousNode;
    }
    if s.previous[end].Some? {
      assert Linked(graph, start, s, order, end);
    }
  }

  /**
   * `dijkstra(graph, startIndex, endIndex)`, with `measure` for the distance
   * between two node positions. `null` exactly when `endIndex` is not a node
   * (it is then never taken from the queue). Otherwise a chain of edges ending
   * at `endIndex`, which is empty when the start is the end and when the end
   * cannot be reached; a non-empty result means it can be reached, and a
   * reachable end other than the start gets a non-empty result unless an edge
   * from node 0 leads to it. Because of the falsy test in the reconstruction
   * no edge of the result leaves node 0; when node 0 is neither the start nor
   * reachable from it, a non-empty result is a walk from the start to the end.
   */
  method Dijkstra(graph: Graph, startIndex: int, endIndex: int, measure: (Point, Point) -> real)
    returns (path: Option<seq<int>>)
    requires graph.Valid() && NonNegative(measure)
    ensures path.None? <==> !(0 <= endIndex < |graph.nodes|)
    ensures path.Some? ==> graph.Chain(path.value) && (|path.value| > 0 ==> graph.edges[Last(path.value)].target == endIndex)
    ensures path.Some? ==> forall k :: 0 <= k < |path.value| ==> graph.edges[path.value[k]].source != 0
    ensures path.Some? && |path.value| > 0 ==> graph.Reaches(startIndex, endIndex)
    ensures path.Some? && |path.value| > 0 && startIndex != 0 && !graph.Reaches(startIndex, 0) ==>
      graph.Walk(path.value, startIndex, endIndex)
    ensures 0 <= endIndex < |graph.nodes| && !graph.Reaches(startIndex, endIndex) ==> path == Some([])
    ensures 0 <= startIndex < |graph.nodes| && startIndex == endIndex ==> path == Some([])
    ensures (0 <= startIndex < |graph.nodes| && 0 <= endIndex < |graph.nodes| && startIndex != endIndex
             && graph.Reaches(startIndex, endIndex)) ==>
      path.Some? && (|path.value| > 0 || exists i :: graph.Joins(i, 0, endIndex))
  {
    var n := |graph.nodes|;
    var distances: seq<Distance> := [];
    var previous: seq<Option<int>> := [];
    var queue := seq(n, i => i);
    var i := 0;
    while i < n
      invariant 0 <= i <= n && |distances| == i && |previous| == i
      invariant forall v :: 0 <= v < i ==> distances[v] == Infinity && previous[v] == None
    {
      distances := distances + [Infinity];
      previous := previous + [None];
      i := i + 1;
    }
    // A start that is not a node gets a record entry that is never read.
    if 0 <= startIndex < n {
      distances := distances[startIndex := Finite(0.0)];
    }
    var s := Search(distances, previous, queue);
    ghost var order: map<int, nat> := map[];
    ghost var count: nat := 0;
    forall v | 0 <= v < n
      ensures v in s.queue
    {
      assert s.queue[v] == v;
    }
    while |s.queue| > 0
      invariant SearchInv(graph, startIndex, s, order, count) && Closed(graph, s, order.Keys)
      invariant 0 <= endIndex < n ==> endIndex in s.queue
      decreases |s.queue|
    {
      var k := NearestIndex(s.distances, s.queue);
      var currentNode := s.queue[k];
      if currentNode == endIndex {
        if 0 <= startIndex < n && startIndex != endIndex && graph.Reaches(startIndex, endIndex) {
          ReachedWhenTaken(graph, startIndex, s, order, count, k);
        }
        var p := Reconstruct(graph, startIndex, s, order, count, endIndex);
        return Some(p);
      }
      s := Settle(graph, measure, startIndex, s, k, order, count);
      order := order[currentNode := count];
      count := count + 1;
    }
    return None;
  }

  /**
   * One round of `dijkstra` that does not end it: the node at `k`, the first
   * nearest, leaves the queue and the edges leaving it are relaxed.
   */
  method Settle(graph: Graph, measure: (Point, Point) -> real, start: int, s: Search, k: nat,
                ghost order: map<int, nat>, ghost count: nat) returns (t: Search)
    requires graph.Valid() && NonNegative(measure)
    requires SearchInv(graph, start, s, order, count) && Closed(graph, s, order.Keys)
    requires k < |s.queue| && forall j :: 0 <= j < |s.queue| ==> !Below(s.distances[s.queue[j]], s.distances[s.queue[k]])
    ensures t.queue == Splice(s.queue, k)
    ensures var o := order[s.queue[k] := count]; SearchInv(graph, start, t, o, count + 1) && Closed(graph, t, o.Keys)
  {
    var currentNode := s.queue[k];
    TakeKeeps(graph, start, s, k, order, count);
    var taken := s.(queue := Splice(s.queue, k));
    ghost var o := order[currentNode := count];
    t := Relax(graph, measure, taken, currentNode);
    RelaxKeeps(graph, measure, start, taken, t, currentNode, o, count + 1);
    ClosedKeeps(graph, measure, taken, t, currentNode, order.Keys);
    assert o.Keys == order.Keys + {currentNode};
  }
}
