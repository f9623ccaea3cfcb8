/**
 * The serialisable road graph of `types.ts`: nodes are points, and each edge
 * joins two nodes by their indices, optionally through a control point.
 */
module Graphs {
  import opened Basics

  /** An edge from node `source` to node `target`; `curvedControl` is present for a curved edge. */
  datatype Edge = Edge(source: int, target: int, curvedControl: Option<Point>)

  datatype Graph = Graph(nodes: seq<Point>, edges: seq<Edge>)
  {
    /** Every edge joins two nodes of the graph. */
    predicate Valid() {
      forall i :: 0 <= i < |edges| ==> 0 <= edges[i].source < |nodes| && 0 <= edges[i].target < |nodes|
    }

    /** Edge `i` leads from node `u` to node `v`. */
    predicate Joins(i: int, u: int, v: int) {
      0 <= i < |edges| && edges[i].source == u && edges[i].target == v
    }

    /** `p` lists edges, each one starting where the one before it ends. */
    predicate Chain(p: seq<int>) {
      && (forall k :: 0 <= k < |p| ==> 0 <= p[k] < |edges|)
      && (forall k :: 0 <= k < |p| - 1 ==> edges[p[k]].target == edges[p[k + 1]].source)
    }

    /** `p` is a non-empty chain of edges from node `u` to node `v`. */
    predicate Walk(p: seq<int>, u: int, v: int) {
      |p| > 0 && Chain(p) && edges[p[0]].source == u && edges[Last(p)].target == v
    }

    /** Some non-empty chain of edges leads from `u` to `v`. */
    ghost predicate Reaches(u: int, v: int) {
      exists p :: Walk(p, u, v)
    }
  }

  /** A walk followed by an edge leaving its end is a longer walk. */
  lemma WalkExtends(graph: Graph, p: seq<int>, u: int, v: int, i: int, w: int)
    requires graph.Walk(p, u, v) && graph.Joins(i, v, w)
    ensures graph.Walk(p + [i], u, w)
  {
    var q := p + [i];
    forall k | 0 <= k < |q| - 1
      ensures graph.edges[q[k]].target == graph.edges[q[k + 1]].source
    {
      if k < |p| - 1 {
        assert q[k] == p[k] && q[k + 1] == p[k + 1];
      }
    }
  }
}
