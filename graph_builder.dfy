/**
 * The graph editor scene (`GraphBuilderScene.ts`): hit-testing of nodes under
 * the pointer, deletion of a node with the renumbering of the edges that
 * survive it, and the clicks that add nodes, select them, move them and join
 * them by edges. Drawing, the keyboard and the pointer are not modelled; the
 * state of the Shift key and the pointer position are parameters.
 */
module GraphBuilder {
  import opened Basics
  import opened Graphs

  /** Half the side of the square around a node that a click hits. */
  const NODE_RADIUS: real := 6.0

  function Abs(r: real): (a: real)
    ensures a >= 0.0 && (a == r || a == -r)
  {
    if r < 0.0 then -r else r
  }

  /** `node` lies within `NODE_RADIUS` of `(x, y)` on both axes. */
  predicate Hit(node: Point, x: real, y: real) {
    Abs(node.x - x) <= NODE_RADIUS && Abs(node.y - y) <= NODE_RADIUS
  }

  /**
   * `findNodeIndexBelow(graph, x, y)`: the first node index at or after `from`
   * whose node the click hits, or -1 when there is none.
   */
  function FindNodeIndexBelow(nodes: seq<Point>, x: real, y: real, from: nat := 0): (i: int)
    requires from <= |nodes|
    ensures i == -1 || from <= i < |nodes|
    ensures i >= 0 ==> Hit(nodes[i], x, y) && forall j :: from <= j < i ==> !Hit(nodes[j], x, y)
    ensures i == -1 <==> forall j :: from <= j < |nodes| ==> !Hit(nodes[j], x, y)
    decreases |nodes| - from
  {
    if from == |nodes| then -1
    else if Hit(nodes[from], x, y) then from
    else FindNodeIndexBelow(nodes, x, y, from + 1)
  }

  /** Edge `e` survives the deletion of node `k`: it neither starts nor ends there. */
  predicate Apart(e: Edge, k: int) {
    e.source != k && e.target != k
  }

  /** The `filter` of the deletion: the edges that survive the deletion of node `k`, in order. */
  function Detach(edges: seq<Edge>, k: int): (r: seq<Edge>)
    ensures |r| <= |edges|
    ensures forall e :: e in r <==> e in edges && Apart(e, k)
  {
    if |edges| == 0 then []
    else
      var rest := Detach(edges[1..], k);
      assert forall e :: e in edges <==> e == edges[0] || e in edges[1..];
      if Apart(edges[0], k) then [edges[0]] + rest else rest
  }

  /** The filter keeps the order of the edges: it distributes over concatenation. */
  lemma {:induction false} DetachAppend(a: seq<Edge>, b: seq<Edge>, k: int)
    ensures Detach(a + b, k) == Detach(a, k) + Detach(b, k)
    decreases |a|
  {
    if |a| == 0 {
      assert a + b == b;
    } else {
      assert (a + b)[0] == a[0] && (a + b)[1..] == a[1..] + b;
      DetachAppend(a[1..], b, k);
    }
  }

  /**
   * The renumbering of one edge after node `k` is deleted: an end above `k`
   * moves down by one, an end below it stays. The new edge object has only
   * `source` and `target`, so a curve's control point is dropped.
   */
  function Renumber(e: Edge, k: int): (r: Edge)
    ensures r.curvedControl.None?
    ensures e.source > k ==> r.source == e.source - 1
    ensures e.source <= k ==> r.source == e.source
    ensures e.target > k ==> r.target == e.target - 1
    ensures e.target <= k ==> r.target == e.target
  {
    Edge(if e.source > k then e.source - 1 else e.source,
         if e.target > k then e.target - 1 else e.target,
         None)
  }

  /** The `map` of the deletion over the surviving edges. */
  function RenumberAll(edges: seq<Edge>, k: int): (r: seq<Edge>)
    ensures |r| == |edges|
    ensures forall i :: 0 <= i < |edges| ==> r[i] == Renumber(edges[i], k)
  {
    seq(|edges|, i requires 0 <= i < |edges| => Renumber(edges[i], k))
  }

  /** `nodes.splice(k, 1)` for an index `k` of the list. */
  function Splice(nodes: seq<Point>, k: nat): (r: seq<Point>)
    requires k < |nodes|
    ensures |r| == |nodes| - 1
    ensures forall i :: 0 <= i < |nodes| && i != k ==> r[if i > k then i - 1 else i] == nodes[i]
  {
    nodes[..k] + nodes[k + 1..]
  }

  /** The graph once node `k` is deleted: filter the edges, splice the node, renumber. */
  function DeleteNode(graph: Graph, k: nat): (g: Graph)
    requires k < |graph.nodes|
    ensures |g.nodes| == |graph.nodes| - 1
  {
    Graph(Splice(graph.nodes, k), RenumberAll(Detach(graph.edges, k), k))
  }

  /**
   * Deleting a node of a valid graph leaves a valid graph: every renumbered
   * end is an index of the shorter node list.
   */
  lemma DeleteNodeValid(graph: Graph, k: nat)
    requires graph.Valid() && k < |graph.nodes|
    ensures DeleteNode(graph, k).Valid()
  {
    var kept := Detach(graph.edges, k);
    forall i | 0 <= i < |kept|
      ensures 0 <= Renumber(kept[i], k).source < |graph.nodes| - 1
      ensures 0 <= Renumber(kept[i], k).target < |graph.nodes| - 1
    {
      assert kept[i] in kept;
      var j :| 0 <= j < |graph.edges| && graph.edges[j] == kept[i];
    }
  }

  /**
   * Every edge that does not touch the deleted node survives, renumbered, and
   * still joins the same two nodes.
   */
  lemma DeleteNodeKeeps(graph: Graph, k: nat, e: Edge)
    requires graph.Valid() && k < |graph.nodes| && e in graph.edges && Apart(e, k)
    ensures var g, r := DeleteNode(graph, k), Renumber(e, k);
      && r in g.edges
      && 0 <= r.source < |g.nodes| && g.nodes[r.source] == graph.nodes[e.source]
      && 0 <= r.target < |g.nodes| && g.nodes[r.target] == graph.nodes[e.target]
  {
    var kept := Detach(graph.edges, k);
    assert e in kept;
    var i :| 0 <= i < |kept| && kept[i] == e;
    assert DeleteNode(graph, k).edges[i] == Renumber(e, k);
    var j :| 0 <= j < |graph.edges| && graph.edges[j] == e;
    assert 0 <= e.source < |graph.nodes| && 0 <= e.target < |graph.nodes|;
  }

  /** Every edge after a deletion is the renumbering of an edge that did not touch the deleted node. */
  lemma DeleteNodeOrigin(graph: Graph, k: nat, r: Edge)
    requires k < |graph.nodes| && r in DeleteNode(graph, k).edges
    ensures exists e :: e in graph.edges && Apart(e, k) && r == Renumber(e, k)
  {
    var kept := Detach(graph.edges, k);
    var i :| 0 <= i < |kept| && DeleteNode(graph, k).edges[i] == r;
    assert kept[i] in kept;
  }

  /** The edge-drawing state of the scene: the graph being built and the selected node. */
  class Scene {
    var graph: Graph
    /** `selectedNodeIndex`, with `null` as `None`. */
    var selectedNodeIndex: Option<int>

    /** The graph is valid and a selection names one of its nodes. */
    ghost predicate Valid()
      reads this
    {
      graph.Valid() && (selectedNodeIndex.Some? ==> 0 <= selectedNodeIndex.value < |graph.nodes|)
    }

    /** `create()`: the scene starts on a given graph with nothing selected. */
    constructor (graph: Graph)
      requires graph.Valid()
      ensures Valid() && this.graph == graph && selectedNodeIndex == None
    {
      this.graph := graph;
      selectedNodeIndex := None;
    }

    /**
     * The `keydown-D` handler: with a node selected, that node and every edge
     * touching it are deleted, the other edges are renumbered and the
     * selection is cleared; with none selected nothing happens.
     */
    method DeleteSelected()
      requires Valid()
      modifies this
      ensures Valid() && selectedNodeIndex == None
      ensures old(selectedNodeIndex).None? ==> graph == old(graph)
      ensures old(selectedNodeIndex).Some? ==> graph == DeleteNode(old(graph), old(selectedNodeIndex).value)
    {
      if selectedNodeIndex.Some? {
        var k := selectedNodeIndex.value;
        DeleteNodeValid(graph, k);
        var edges := Detach(graph.edges, k);
        var nodes := Splice(graph.nodes, k);
        graph := Graph(nodes, RenumberAll(edges, k));
        selectedNodeIndex := None;
      }
    }

    /**
     * The `pointerdown` handler for a click at `(x, y)`, with `shift` telling
     * whether the Shift key is down.
     *
     * - Shift with a selection: a click on a node adds one edge from the
     *   selected node to it and clears the selection; elsewhere nothing happens.
     * - Otherwise, a selection other than node 0 (the test is on the index's
     *   truth value) moves that node to the click and clears the selection.
     * - Otherwise a click on empty ground adds a node there and a click on a
     *   node selects it.
     */
    method PointerDown(shift: bool, x: real, y: real)
      requires Valid()
      modifies this
      ensures Valid()
      ensures var nodes, edges, selected := old(graph.nodes), old(graph.edges), old(selectedNodeIndex);
        var below := FindNodeIndexBelow(nodes, x, y);
        if shift && selected.Some? then
          if below >= 0 then
            graph == Graph(nodes, edges + [Edge(selected.value, below, None)]) && selectedNodeIndex == None
          else
            graph == old(graph) && selectedNodeIndex == selected
        else if selected.Some? && selected.value != 0 then
          graph == Graph(nodes[selected.value := Point(x, y)], edges) && selectedNodeIndex == None
        else if below == -1 then
          graph == Graph(nodes + [Point(x, y)], edges) && selectedNodeIndex == selected
        else
          graph == old(graph) && selectedNodeIndex == Some(below)
    {
      if shift && selectedNodeIndex.Some? {
        var nodeIndex := FindNodeIndexBelow(graph.nodes, x, y);
        if nodeIndex >= 0 {
          graph := graph.(edges := graph.edges + [Edge(selectedNodeIndex.value, nodeIndex, None)]);
          selectedNodeIndex := None;
        }
      } else {
        if selectedNodeIndex.Some? && selectedNodeIndex.value != 0 {
          graph := graph.(nodes := graph.nodes[selectedNodeIndex.value := Point(x, y)]);
          selectedNodeIndex := None;
        } else {
          var nodeBelow := FindNodeIndexBelow(graph.nodes, x, y);
          if nodeBelow == -1 {
            graph := graph.(nodes := graph.nodes + [Point(x, y)]);
          } else {
            selectedNodeIndex := Some(nodeBelow);
          }
        }
      }
    }
  }
}
