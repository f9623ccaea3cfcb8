/**
 * The connection lanes `addRoad` builds across a road node
 * (`generateConnectionLane`): for every incoming lane and every outgoing lane,
 * in that nesting, a lane from where the incoming lane ends to where the
 * outgoing lane starts, unless a lane between those two lane nodes is already
 * listed on the node whose list is checked.
 */
module Connections {
  import opened Basics
  import opened LaneGraph

  /** The two lane nodes a connection lane joins. */
  datatype Link = Link(source: LaneNode, target: LaneNode)

  /** The endpoints of each lane, in order. */
  function LinksOf(lanes: seq<Lane>): seq<Link> {
    seq(|lanes|, i requires 0 <= i < |lanes| => Link(lanes[i].source, lanes[i].target))
  }

  /** The endpoints of the lanes, as a set. */
  function LinkSet(lanes: seq<Lane>): set<Link> {
    set l | l in lanes :: Link(l.source, l.target)
  }

  /** `lanes.some((lane) => lane.source === a && lane.target === b)`. */
  predicate Linked(lanes: seq<Lane>, a: LaneNode, b: LaneNode) {
    exists l :: l in lanes && l.source == a && l.target == b
  }

  lemma LinkedIff(lanes: seq<Lane>, a: LaneNode, b: LaneNode)
    ensures Linked(lanes, a, b) <==> Link(a, b) in LinkSet(lanes)
  {
  }

  /** The links of `a + b` are those of `a` and those of `b`. */
  lemma LinkSetAppend(a: seq<Lane>, b: seq<Lane>)
    ensures LinkSet(a + b) == LinkSet(a) + LinkSet(b)
  {
    assert forall l :: l in a + b <==> l in a || l in b;
  }

  /** The pairs `a` forms with each of `outgoing`, in order (the inner `forEach`). */
  function Row(a: Lane, outgoing: seq<Lane>): seq<Link> {
    if |outgoing| == 0 then []
    else Row(a, outgoing[..|outgoing| - 1]) + [Link(a.target, outgoing[|outgoing| - 1].source)]
  }

  /** Entry `j` of `a`'s row pairs it with `outgoing[j]`. */
  lemma {:induction false} RowAt(a: Lane, outgoing: seq<Lane>)
    ensures |Row(a, outgoing)| == |outgoing|
    ensures forall j :: 0 <= j < |outgoing| ==> Row(a, outgoing)[j] == Link(a.target, outgoing[j].source)
  {
    if |outgoing| > 0 {
      var init := outgoing[..|outgoing| - 1];
      RowAt(a, init);
      forall j | 0 <= j < |outgoing| - 1
        ensures Row(a, outgoing)[j] == Link(a.target, outgoing[j].source)
      {
        assert init[j] == outgoing[j];
      }
    }
  }

  /** The pairs the nested `forEach` visits, incoming lanes outer (see `PairsCover`). */
  function Pairs(incoming: seq<Lane>, outgoing: seq<Lane>): seq<Link> {
    if |incoming| == 0 then []
    else Pairs(incoming[..|incoming| - 1], outgoing) + Row(incoming[|incoming| - 1], outgoing)
  }

  /** Each pair links where an incoming lane ends to where an outgoing lane starts. */
  lemma {:induction false} PairsSound(incoming: seq<Lane>, outgoing: seq<Lane>)
    ensures forall p :: p in Pairs(incoming, outgoing) ==>
      exists i, j :: 0 <= i < |incoming| && 0 <= j < |outgoing| && p == Link(incoming[i].target, outgoing[j].source)
  {
    if |incoming| > 0 {
      var init, a := incoming[..|incoming| - 1], incoming[|incoming| - 1];
      PairsSound(init, outgoing);
      RowAt(a, outgoing);
      forall p | p in Pairs(incoming, outgoing)
        ensures exists i, j :: 0 <= i < |incoming| && 0 <= j < |outgoing| && p == Link(incoming[i].target, outgoing[j].source)
      {
        if p in Pairs(init, outgoing) {
          var i, j :| 0 <= i < |init| && 0 <= j < |outgoing| && p == Link(init[i].target, outgoing[j].source);
          assert init[i] == incoming[i];
        } else {
          var j :| 0 <= j < |outgoing| && Row(a, outgoing)[j] == p;
          assert p == Link(incoming[|incoming| - 1].target, outgoing[j].source);
        }
      }
    }
  }

  /** Every incoming lane is paired with every outgoing lane. */
  lemma {:induction false} PairsComplete(incoming: seq<Lane>, outgoing: seq<Lane>)
    ensures forall i, j :: 0 <= i < |incoming| && 0 <= j < |outgoing| ==>
      Link(incoming[i].target, outgoing[j].source) in Pairs(incoming, outgoing)
  {
    if |incoming| > 0 {
      var init, a := incoming[..|incoming| - 1], incoming[|incoming| - 1];
      PairsComplete(init, outgoing);
      RowAt(a, outgoing);
      forall i, j | 0 <= i < |incoming| && 0 <= j < |outgoing|
        ensures Link(incoming[i].target, outgoing[j].source) in Pairs(incoming, outgoing)
      {
        if i < |init| {
          assert init[i] == incoming[i];
          assert Link(init[i].target, outgoing[j].source) in Pairs(init, outgoing);
        } else {
          assert Row(a, outgoing)[j] == Link(incoming[i].target, outgoing[j].source);
        }
      }
    }
  }

  /**
   * The links the loop gives new lanes, in order. A pair is skipped when it is
   * in `seen` (the checked list before the loop) or, when the loop appends to
   * the checked list itself (`grows`), when an earlier pair already added it.
   */
  function Connect(pairs: seq<Link>, seen: set<Link>, grows: bool): seq<Link> {
    if |pairs| == 0 then []
    else
      var done := Connect(pairs[..|pairs| - 1], seen, grows);
      var p := pairs[|pairs| - 1];
      if p in seen || (grows && p in done) then done else done + [p]
  }

  /**
   * Every pair outside `seen` gets a lane and no other does; when the loop
   * appends to the list it checks, no pair gets two.
   */
  lemma {:induction false} ConnectSound(pairs: seq<Link>, seen: set<Link>, grows: bool)
    ensures |Connect(pairs, seen, grows)| <= |pairs|
    ensures forall p :: p in Connect(pairs, seen, grows) ==> p in pairs && p !in seen
    ensures forall p :: p in pairs && p !in seen ==> p in Connect(pairs, seen, grows)
    ensures grows ==> Distinct(Connect(pairs, seen, grows))
  {
    if |pairs| > 0 {
      var init, p := pairs[..|pairs| - 1], pairs[|pairs| - 1];
      ConnectSound(init, seen, grows);
      assert forall q :: q in pairs ==> q in init || q == p;
      assert forall q :: q in init ==> q in pairs;
    }
  }

  lemma LinksOfAppend(a: seq<Lane>, b: seq<Lane>)
    ensures LinksOf(a + b) == LinksOf(a) + LinksOf(b)
  {
  }

  lemma LinkSetOfLinks(lanes: seq<Lane>, x: LaneNode, y: LaneNode)
    ensures Link(x, y) in LinkSet(lanes) <==> Link(x, y) in LinksOf(lanes)
  {
    if Link(x, y) in LinkSet(lanes) {
      var l :| l in lanes && Link(l.source, l.target) == Link(x, y);
      var k :| 0 <= k < |lanes| && lanes[k] == l;
      assert LinksOf(lanes)[k] == Link(x, y);
    }
  }

  /**
   * The nested loop of `generateConnectionLane` on `node`, over the lanes
   * `incoming` and `outgoing` it has read, testing `checkNode`'s list: a new,
   * empty lane is appended for each link `Connect` gives, measured by
   * `connectionLength`. Nothing else changes.
   */
  method ConnectLanes(node: RoadNode, checkNode: RoadNode, incoming: seq<Lane>, outgoing: seq<Lane>,
                      connectionLength: (LaneNode, LaneNode) -> real)
    modifies node`connectionLanes
    ensures |node.connectionLanes| >= |old(node.connectionLanes)|
    ensures node.connectionLanes[..|old(node.connectionLanes)|] == old(node.connectionLanes)
    ensures LinksOf(node.connectionLanes[|old(node.connectionLanes)|..])
      == Connect(Pairs(incoming, outgoing), old(LinkSet(checkNode.connectionLanes)), node == checkNode)
    ensures Created(node.connectionLanes[|old(node.connectionLanes)|..], connectionLength)
  {
    ghost var base := node.connectionLanes;
    ghost var seen := LinkSet(checkNode.connectionLanes);
    ghost var added: seq<Lane> := [];
    assert base + added == base;
    var i := 0;
    while i < |incoming|
      invariant 0 <= i <= |incoming|
      invariant node.connectionLanes == base + added
      invariant node != checkNode ==> checkNode.connectionLanes == old(checkNode.connectionLanes)
      invariant LinksOf(added) == Connect(Pairs(incoming[..i], outgoing), seen, node == checkNode)
      invariant Created(added, connectionLength)
    {
      assert incoming[..i + 1][..i] == incoming[..i];
      ghost var prior := added;
      added := ConnectRow(node, checkNode, incoming[i], outgoing, connectionLength, base, seen,
                          Pairs(incoming[..i], outgoing), added);
      assert added == prior + added[|prior|..];
      i := i + 1;
    }
    assert incoming[..i] == incoming;
    assert node.connectionLanes[|base|..] == added;
  }

  /**
   * `generateConnectionLane(node)`: `node`'s incoming and outgoing lanes are
   * read, then `ConnectLanes` appends the connection lanes whose link is
   * missing from `checkNode`'s list. The node's roads, and so its lanes, stay.
   */
  method GenerateConnectionLane(node: RoadNode, checkNode: RoadNode, connectionLength: (LaneNode, LaneNode) -> real)
    requires node.RoadsWellFormed()
    modifies node`connectionLanes
    ensures node.RoadsWellFormed()
    ensures node.IncomingLanes() == old(node.IncomingLanes()) && node.OutgoingLanes() == old(node.OutgoingLanes())
    ensures |node.connectionLanes| >= |old(node.connectionLanes)|
    ensures node.connectionLanes[..|old(node.connectionLanes)|] == old(node.connectionLanes)
    ensures LinksOf(node.connectionLanes[|old(node.connectionLanes)|..])
      == Connect(Pairs(node.IncomingLanes(), node.OutgoingLanes()), old(LinkSet(checkNode.connectionLanes)), node == checkNode)
    ensures Created(node.connectionLanes[|old(node.connectionLanes)|..], connectionLength)
  {
    var incoming := node.IncomingLanes();
    var outgoing := node.OutgoingLanes();
    ConnectLanes(node, checkNode, incoming, outgoing, connectionLength);
  }

  /**
   * The end of `addRoad`: the source node's list is emptied and regenerated,
   * then the target node's, the check of both looking at the source node's
   * list. When the two nodes are one, the second pass redoes the first.
   */
  method Rebuild(sourceNode: RoadNode, targetNode: RoadNode, connectionLength: (LaneNode, LaneNode) -> real)
    requires sourceNode.RoadsWellFormed() && targetNode.RoadsWellFormed()
    modifies sourceNode`connectionLanes, targetNode`connectionLanes
    ensures sourceNode.RoadsWellFormed() && targetNode.RoadsWellFormed()
    ensures sourceNode.IncomingLanes() == old(sourceNode.IncomingLanes()) && sourceNode.OutgoingLanes() == old(sourceNode.OutgoingLanes())
    ensures targetNode.IncomingLanes() == old(targetNode.IncomingLanes()) && targetNode.OutgoingLanes() == old(targetNode.OutgoingLanes())
    ensures LinksOf(sourceNode.connectionLanes)
      == Connect(Pairs(sourceNode.IncomingLanes(), sourceNode.OutgoingLanes()), {}, true)
    ensures LinksOf(targetNode.connectionLanes)
      == Connect(Pairs(targetNode.IncomingLanes(), targetNode.OutgoingLanes()),
                 if sourceNode == targetNode then {} else LinkSet(sourceNode.connectionLanes),
                 sourceNode == targetNode)
    ensures Created(sourceNode.connectionLanes, connectionLength) && Created(targetNode.connectionLanes, connectionLength)
  {
    sourceNode.connectionLanes := [];
    assert LinkSet(sourceNode.connectionLanes) == {};
    GenerateConnectionLane(sourceNode, sourceNode, connectionLength);
    assert sourceNode.connectionLanes[0..] == sourceNode.connectionLanes;
    targetNode.connectionLanes := [];
    GenerateConnectionLane(targetNode, sourceNode, connectionLength);
    assert targetNode.connectionLanes[0..] == targetNode.connectionLanes;
  }

  /** A lane as the loop creates it: empty, and as long as `connectionLength` measures. */
  predicate Empty(l: Lane, connectionLength: (LaneNode, LaneNode) -> real)
    reads l`vehicles
  {
    l.vehicles == [] && l.length == connectionLength(l.source, l.target)
  }

  /** Every lane of `lanes` is a new object, created since the call began, and empty. */
  twostate predicate Created(new lanes: seq<Lane>, connectionLength: (LaneNode, LaneNode) -> real)
    reads (set l | l in lanes)`vehicles
  {
    forall l :: l in lanes ==> fresh(l) && Empty(l, connectionLength)
  }

  /**
   * The inner loop for one incoming lane `a`: `before` are the lanes added
   * for the pairs `done` handled so far, `after` those added once `a`'s row
   * is handled too.
   */
  method ConnectRow(node: RoadNode, checkNode: RoadNode, a: Lane, outgoing: seq<Lane>,
                    connectionLength: (LaneNode, LaneNode) -> real,
                    ghost base: seq<Lane>, ghost seen: set<Link>, ghost done: seq<Link>, ghost before: seq<Lane>)
    returns (ghost after: seq<Lane>)
    requires node.connectionLanes == base + before
    requires if node == checkNode then LinkSet(base) == seen else LinkSet(checkNode.connectionLanes) == seen
    requires LinksOf(before) == Connect(done, seen, node == checkNode)
    modifies node`connectionLanes
    ensures node.connectionLanes == base + after
    ensures node != checkNode ==> checkNode.connectionLanes == old(checkNode.connectionLanes)
    ensures LinksOf(after) == Connect(done + Row(a, outgoing), seen, node == checkNode)
    ensures |after| >= |before| && after[..|before|] == before
    ensures Created(after[|before|..], connectionLength)
  {
    ghost var created: seq<Lane> := [];
    after := before;
    assert done + Row(a, outgoing[..0]) == done;
    assert after == before + created;
    var j := 0;
    while j < |outgoing|
      invariant 0 <= j <= |outgoing|
      invariant node.connectionLanes == base + after
      invariant node != checkNode ==> checkNode.connectionLanes == old(checkNode.connectionLanes)
      invariant LinksOf(after) == Connect(done + Row(a, outgoing[..j]), seen, node == checkNode)
      invariant after == before + created
      invariant forall l :: l in created ==> fresh(l)
      invariant forall k :: 0 <= k < |created| ==> Empty(created[k], connectionLength)
    {
      var x, y := a.target, outgoing[j].source;
      assert done + Row(a, outgoing[..j + 1]) == done + Row(a, outgoing[..j]) + [Link(x, y)] by {
        assert outgoing[..j + 1][..j] == outgoing[..j];
      }
      ghost var pushed := ConnectNext(node, checkNode, x, y, connectionLength, base, seen, done + Row(a, outgoing[..j]), after);
      assert before + created + pushed == before + (created + pushed);
      after, created := after + pushed, created + pushed;
      j := j + 1;
    }
    assert outgoing[..j] == outgoing;
    assert after[|before|..] == created;
  }

  /**
   * One step of the inner loop with its bookkeeping: the lanes added so far,
   * `before`, for the pairs `done`, grow by the lane `ConnectPair` adds for
   * `Link(x, y)`, if any.
   */
  method ConnectNext(node: RoadNode, checkNode: RoadNode, x: LaneNode, y: LaneNode,
                     connectionLength: (LaneNode, LaneNode) -> real,
                     ghost base: seq<Lane>, ghost seen: set<Link>, ghost done: seq<Link>, ghost before: seq<Lane>)
    returns (ghost pushed: seq<Lane>)
    requires node.connectionLanes == base + before
    requires if node == checkNode then LinkSet(base) == seen else LinkSet(checkNode.connectionLanes) == seen
    requires LinksOf(before) == Connect(done, seen, node == checkNode)
    modifies node`connectionLanes
    ensures node.connectionLanes == base + (before + pushed)
    ensures node != checkNode ==> checkNode.connectionLanes == old(checkNode.connectionLanes)
    ensures LinksOf(before + pushed) == Connect(done + [Link(x, y)], seen, node == checkNode)
    ensures Created(pushed, connectionLength)
  {
    assert (done + [Link(x, y)])[..|done|] == done;
    LinkedIff(checkNode.connectionLanes, x, y);
    LinkSetOfLinks(before, x, y);
    if node == checkNode {
      LinkSetAppend(base, before);
    }
    pushed := ConnectPair(node, checkNode, x, y, connectionLength);
    LinksOfAppend(before, pushed);
    assert base + before + pushed == base + (before + pushed);
  }

  /**
   * One step of the inner loop: unless `checkNode` already lists a lane from
   * `x` to `y`, a new lane from `x` to `y` is appended to `node`'s list.
   */
  method ConnectPair(node: RoadNode, checkNode: RoadNode, x: LaneNode, y: LaneNode,
                     connectionLength: (LaneNode, LaneNode) -> real)
    returns (ghost pushed: seq<Lane>)
    modifies node`connectionLanes
    ensures node.connectionLanes == old(node.connectionLanes) + pushed
    ensures pushed == [] <==> old(Linked(checkNode.connectionLanes, x, y))
    ensures |pushed| <= 1
    ensures forall l :: l in pushed ==> l.source == x && l.target == y
    ensures Created(pushed, connectionLength)
  {
    pushed := [];
    if !Linked(checkNode.connectionLanes, x, y) {
      var lane := new Lane(x, y, connectionLength(x, y));
      node.connectionLanes := node.connectionLanes + [lane];
      pushed := [lane];
    }
  }
}
