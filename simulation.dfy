/**
 * The lane-graph simulation engine (`Simulation`): vehicles queue on lanes, are
 * ticked lane by lane, move to the next lane of their path when they pass the
 * end of the current one, and are spawned along a lane path found by a Dijkstra-style search.
 */
module Engine {
  import opened Basics
  import opened Vehicles
  import opened TrafficSignals
  import opened LaneGraph
  import opened PriorityQueues
  import opened Connections
  import opened LaneTraffic

  /** Consecutive lanes meet: each lane ends where the next one starts. */
  ghost predicate Chained(path: seq<Lane>) {
    forall i :: 0 <= i < |path| - 1 ==> path[i].target == path[i + 1].source
  }

  /**
   * `path` leads from lane node `start` to lane node `end`: its lanes are
   * chained, the first leaves `start` and the last reaches `end`; an empty path
   * leads from a lane node to itself.
   */
  ghost predicate Routes(path: seq<Lane>, start: LaneNode?, end: LaneNode?) {
    && Chained(path)
    && (|path| == 0 ==> start == end)
    && (|path| > 0 ==> path[0].source == start && path[|path| - 1].target == end)
  }

  /** The lanes of a path and the vehicles queued on them. */
  ghost function PathFootprint(path: seq<Lane>): set<object>
    reads set l | l in path
  {
    (set l | l in path :: l as object) + (set l, v | l in path && v in l.vehicles :: v as object)
  }

  /** The total length of a sequence of lanes. */
  function LengthSum(lanes: seq<Lane>): real {
    if |lanes| == 0 then 0.0 else lanes[0].length + LengthSum(lanes[1..])
  }

  lemma {:induction false} LengthSumAppend(a: seq<Lane>, b: seq<Lane>)
    ensures LengthSum(a + b) == LengthSum(a) + LengthSum(b)
  {
    if |a| > 0 {
      assert (a + b)[1..] == a[1..] + b;
      LengthSumAppend(a[1..], b);
    } else {
      assert a + b == b;
    }
  }

  /** The first lane at or after `k` that holds a vehicle, or `|path|` when there is none. */
  ghost function FirstOccupied(path: seq<Lane>, k: nat): (j: nat)
    reads set l | l in path
    requires k <= |path|
    decreases |path| - k
    ensures k <= j <= |path|
    ensures forall m :: k <= m < j ==> |path[m].vehicles| == 0
    ensures j < |path| ==> |path[j].vehicles| > 0
  {
    if k == |path| || |path[k].vehicles| > 0 then k else FirstOccupied(path, k + 1)
  }

  /**
   * The value `findFirstVehicle` computes: the rearmost vehicle of the first
   * non-empty lane at or after `currentLaneIndex`, at the summed length of the
   * lanes skipped plus its position; nothing when every remaining lane is empty.
   */
  function FirstVehicle(path: seq<Lane>, currentLaneIndex: nat): (r: Option<FirstFound>)
    reads PathFootprint(path)
    decreases |path| - currentLaneIndex
    ensures currentLaneIndex >= |path| ==> r.None?
    ensures currentLaneIndex <= |path| ==>
      var j := FirstOccupied(path, currentLaneIndex);
      && (r.None? <==> j == |path|)
      && (r.Some? ==>
            && r.value.lane == path[j]
            && r.value.vehicle == Last(path[j].vehicles)
            && r.value.distanceToVehicle == LengthSum(path[currentLaneIndex..j]) + r.value.vehicle.x)
  {
    if currentLaneIndex >= |path| then None
    else
      var lane := path[currentLaneIndex];
      assert lane in path;
      if |lane.vehicles| > 0 then
        var vehicle := Last(lane.vehicles);
        assert vehicle in lane.vehicles;
        assert path[currentLaneIndex..currentLaneIndex] == [];
        Some(FirstFound(lane, vehicle, vehicle.x))
      else
        match FirstVehicle(path, currentLaneIndex + 1)
        case None => None
        case Some(f) =>
          ghost var j := FirstOccupied(path, currentLaneIndex + 1);
          assert path[currentLaneIndex..j] == [lane] + path[currentLaneIndex + 1..j];
          Some(FirstFound(f.lane, f.vehicle, lane.length + f.distanceToVehicle))
  }

  /**
   * `findDistanceToLeadVehicle`: a vehicle behind another on its lane follows
   * that one; the front vehicle of a lane follows the first vehicle further
   * along its path, if any. The gap is bumper to bumper (see `GapIsBumperToBumper`).
   */
  function FindDistanceToLeadVehicle(path: seq<Lane>, currentLaneIndex: nat, vehicleIndex: nat): (r: Option<LeadFound>)
    requires currentLaneIndex < |path| && vehicleIndex < |path[currentLaneIndex].vehicles|
    reads (set l | l in path), PathFootprint(path)
    ensures vehicleIndex > 0 ==> r.Some? && r.value.leadVehicle == path[currentLaneIndex].vehicles[vehicleIndex - 1]
    ensures vehicleIndex == 0 ==> (r.None? <==> FirstVehicle(path, currentLaneIndex + 1).None?)
    ensures vehicleIndex == 0 && r.Some? ==> r.value.leadVehicle == FirstVehicle(path, currentLaneIndex + 1).value.vehicle
  {
    var lane := path[currentLaneIndex];
    assert lane in path;
    var vehicle := lane.vehicles[vehicleIndex];
    assert vehicle in lane.vehicles;
    if vehicleIndex > 0 then
      var leadVehicle := lane.vehicles[vehicleIndex - 1];
      assert leadVehicle in lane.vehicles;
      Some(LeadFound(leadVehicle, leadVehicle.x - leadVehicle.length / 2.0 - vehicle.x - vehicle.length / 2.0))
    else
      match FirstVehicle(path, currentLaneIndex + 1)
      case None => None
      case Some(leadVehicle) =>
        var distanceToEndOfRoute := lane.length - vehicle.x;
        Some(LeadFound(leadVehicle.vehicle,
          distanceToEndOfRoute + leadVehicle.distanceToVehicle - leadVehicle.vehicle.length / 2.0 - vehicle.length / 2.0))
  }

  /** How far along `path` point `x` of lane `laneIndex` lies. */
  ghost function PathPosition(path: seq<Lane>, laneIndex: nat, x: real): real
    requires laneIndex <= |path|
  {
    LengthSum(path[..laneIndex]) + x
  }

  /**
   * The gap to the lead vehicle is the distance along the path from this
   * vehicle's front bumper to the lead's rear bumper, whether the lead is on the
   * same lane or on a later one.
   */
  lemma GapIsBumperToBumper(path: seq<Lane>, currentLaneIndex: nat, vehicleIndex: nat)
    requires currentLaneIndex < |path| && vehicleIndex < |path[currentLaneIndex].vehicles|
    ensures var r := FindDistanceToLeadVehicle(path, currentLaneIndex, vehicleIndex);
      var v := path[currentLaneIndex].vehicles[vehicleIndex];
      r.Some? ==>
        var j := if vehicleIndex > 0 then currentLaneIndex else FirstOccupied(path, currentLaneIndex + 1);
        && currentLaneIndex <= j < |path|
        && r.value.leadVehicle in path[j].vehicles
        && r.value.distance ==
             (PathPosition(path, j, r.value.leadVehicle.x) - r.value.leadVehicle.length / 2.0)
             - (PathPosition(path, currentLaneIndex, v.x) + v.length / 2.0)
  {
    var r := FindDistanceToLeadVehicle(path, currentLaneIndex, vehicleIndex);
    if r.Some? && vehicleIndex == 0 {
      var k := currentLaneIndex;
      var j := FirstOccupied(path, k + 1);
      assert path[..j] == path[..k] + [path[k]] + path[k + 1..j];
      LengthSumAppend(path[..k] + [path[k]], path[k + 1..j]);
      LengthSumAppend(path[..k], [path[k]]);
      assert LengthSum([path[k]]) == path[k].length by {
        assert [path[k]][1..] == [];
      }
    }
  }

  /** `v` is queued on `lane` and `lane` is the lane of its path it is on. */
  ghost predicate OnLane(v: Vehicle<Lane>, lane: Lane)
    reads v`path, v`currentLaneIndex
  {
    0 <= v.currentLaneIndex < |v.path| && v.path[v.currentLaneIndex] == lane
  }

  /** Whether `node` lies closer than `thresholdDistance` to `coordinates`; `distance` is `getDistance`. */
  predicate Near(node: RoadNode, coordinates: Point, thresholdDistance: real, distance: (Point, Point) -> real) {
    distance(coordinates, Point(node.x, node.y)) < thresholdDistance
  }

  /** Node `i` is near and no earlier node is. */
  predicate FirstNear(nodes: seq<RoadNode>, i: int, coordinates: Point, thresholdDistance: real,
                      distance: (Point, Point) -> real) {
    && 0 <= i < |nodes| && Near(nodes[i], coordinates, thresholdDistance, distance)
    && forall j :: 0 <= j < i ==> !Near(nodes[j], coordinates, thresholdDistance, distance)
  }

  /** `findNodeAt`: the first node, in creation order, closer than the threshold; `null` when none is. */
  function FindNodeAt(nodes: seq<RoadNode>, coordinates: Point, thresholdDistance: real,
                      distance: (Point, Point) -> real): (r: RoadNode?)
    ensures r == null <==> forall i :: 0 <= i < |nodes| ==> !Near(nodes[i], coordinates, thresholdDistance, distance)
    ensures r != null ==> exists i :: FirstNear(nodes, i, coordinates, thresholdDistance, distance) && nodes[i] == r
  {
    if |nodes| == 0 then null
    else if Near(nodes[0], coordinates, thresholdDistance, distance) then
      assert FirstNear(nodes, 0, coordinates, thresholdDistance, distance);
      nodes[0]
    else
      var r := FindNodeAt(nodes[1..], coordinates, thresholdDistance, distance);
      assert r != null ==> exists i :: FirstNear(nodes, i, coordinates, thresholdDistance, distance) && nodes[i] == r by {
        if r != null {
          var i :| FirstNear(nodes[1..], i, coordinates, thresholdDistance, distance) && nodes[1..][i] == r;
          assert forall j :: 1 <= j < i + 1 ==> nodes[j] == nodes[1..][j - 1];
          assert FirstNear(nodes, i + 1, coordinates, thresholdDistance, distance);
        }
      }
      r
  }

  /** `lanes.filter((lane) => lane.source === node)`. */
  function StartingAt(lanes: seq<Lane>, node: LaneNode?): (r: seq<Lane>)
    ensures forall l :: l in r ==> l in lanes && l.source == node
    ensures forall l :: l in lanes && l.source == node ==> l in r
  {
    if |lanes| == 0 then []
    else (if lanes[0].source == node then [lanes[0]] else []) + StartingAt(lanes[1..], node)
  }

  /** The lanes of `roads` leaving `node`, road after road. */
  function RoadLanesFrom(roads: seq<Road>, node: LaneNode?): (r: seq<Lane>)
    ensures forall l :: l in r ==> l.source == node && exists road :: road in roads && l in road.lanes
    ensures forall road, l :: road in roads && l in road.lanes && l.source == node ==> l in r
  {
    if |roads| == 0 then []
    else
      assert roads[0] in roads;
      StartingAt(roads[0].lanes, node) + RoadLanesFrom(roads[1..], node)
  }

  /** The connection lanes of `nodes` leaving `node`, road node after road node. */
  function ConnectionLanesFrom(nodes: seq<RoadNode>, node: LaneNode?): (r: seq<Lane>)
    reads (set n | n in nodes)`connectionLanes
    ensures forall l :: l in r ==> l.source == node && exists n :: n in nodes && l in n.connectionLanes
    ensures forall n, l :: n in nodes && l in n.connectionLanes && l.source == node ==> l in r
  {
    if |nodes| == 0 then []
    else
      assert nodes[0] in nodes;
      StartingAt(nodes[0].connectionLanes, node) + ConnectionLanesFrom(nodes[1..], node)
  }

  /** The lanes of one more road come after the lanes of the roads before it. */
  lemma {:induction false} RoadLanesSnoc(roads: seq<Road>, i: nat)
    requires i < |roads|
    ensures RoadLanes(roads[..i + 1]) == RoadLanes(roads[..i]) + roads[i].lanes
    decreases i
  {
    if i > 0 {
      assert roads[..i + 1][1..] == roads[1..][..i];
      assert roads[..i][1..] == roads[1..][..i - 1];
      RoadLanesSnoc(roads[1..], i - 1);
    }
  }

  /** The connection lanes of one more node come after those of the nodes before it. */
  lemma {:induction false} ConnectionLanesSnoc(nodes: seq<RoadNode>, i: nat)
    requires i < |nodes|
    ensures ConnectionLanes(nodes[..i + 1]) == ConnectionLanes(nodes[..i]) + nodes[i].connectionLanes
    decreases i
  {
    if i > 0 {
      assert nodes[..i + 1][1..] == nodes[1..][..i];
      assert nodes[..i][1..] == nodes[1..][..i - 1];
      ConnectionLanesSnoc(nodes[1..], i - 1);
    }
  }

  /** `flatMap((road) => road.lanes)`: the lanes of every road, road after road. */
  function RoadLanes(roads: seq<Road>): (r: seq<Lane>)
    ensures forall l :: l in r ==> exists road :: road in roads && l in road.lanes
    ensures forall road, l :: road in roads && l in road.lanes ==> l in r
  {
    if |roads| == 0 then [] else
      assert roads[0] in roads;
      roads[0].lanes + RoadLanes(roads[1..])
  }

  /** `flatMap((roadNode) => roadNode.connectionLanes)`: the connection lanes of every node, node after node. */
  function ConnectionLanes(nodes: seq<RoadNode>): (r: seq<Lane>)
    reads (set n | n in nodes)`connectionLanes
    ensures forall l :: l in r ==> exists n :: n in nodes && l in n.connectionLanes
    ensures forall n, l :: n in nodes && l in n.connectionLanes ==> l in r
  {
    if |nodes| == 0 then [] else
      assert nodes[0] in nodes;
      nodes[0].connectionLanes + ConnectionLanes(nodes[1..])
  }

  /** The connection lanes of each of `nodes`, one group per node. */
  function ConnectionGroups(nodes: seq<RoadNode>): (r: seq<seq<Lane>>)
    reads (set n | n in nodes)`connectionLanes
    ensures |r| == |nodes| && forall k :: 0 <= k < |nodes| ==> r[k] == nodes[k].connectionLanes
  {
    if |nodes| == 0 then [] else
      assert nodes[0] in nodes;
      [nodes[0].connectionLanes] + ConnectionGroups(nodes[1..])
  }

  /** The lanes of `groups`, group after group. */
  function Flatten(groups: seq<seq<Lane>>): seq<Lane> {
    if |groups| == 0 then [] else groups[0] + Flatten(groups[1..])
  }

  /** Flattening one more group appends its lanes. */
  lemma {:induction false} FlattenSnoc(groups: seq<seq<Lane>>, i: nat)
    requires i < |groups|
    ensures Flatten(groups[..i + 1]) == Flatten(groups[..i]) + groups[i]
    decreases i
  {
    if i > 0 {
      assert groups[..i + 1][1..] == groups[1..][..i];
      assert groups[..i][1..] == groups[1..][..i - 1];
      FlattenSnoc(groups[1..], i - 1);
    }
  }

  /** The connection lanes of `nodes` are their groups, flattened. */
  lemma {:induction false} ConnectionLanesFlatten(nodes: seq<RoadNode>)
    ensures ConnectionLanes(nodes) == Flatten(ConnectionGroups(nodes))
  {
    if |nodes| > 0 {
      ConnectionLanesFlatten(nodes[1..]);
      assert ConnectionGroups(nodes)[1..] == ConnectionGroups(nodes[1..]);
    }
  }

  lemma {:induction false} StartingAtAppend(a: seq<Lane>, b: seq<Lane>, node: LaneNode?)
    ensures StartingAt(a + b, node) == StartingAt(a, node) + StartingAt(b, node)
  {
    if |a| > 0 {
      assert (a + b)[1..] == a[1..] + b;
      StartingAtAppend(a[1..], b, node);
    } else {
      assert a + b == b;
    }
  }

  /** Filtering each road's lanes and concatenating is filtering the concatenation. */
  lemma {:induction false} RoadLanesFromIsFilter(roads: seq<Road>, node: LaneNode?)
    ensures RoadLanesFrom(roads, node) == StartingAt(RoadLanes(roads), node)
  {
    if |roads| > 0 {
      RoadLanesFromIsFilter(roads[1..], node);
      StartingAtAppend(roads[0].lanes, RoadLanes(roads[1..]), node);
    }
  }

  /** The same for the connection lanes of road nodes. */
  lemma {:induction false} ConnectionLanesFromIsFilter(nodes: seq<RoadNode>, node: LaneNode?)
    ensures ConnectionLanesFrom(nodes, node) == StartingAt(ConnectionLanes(nodes), node)
  {
    if |nodes| > 0 {
      ConnectionLanesFromIsFilter(nodes[1..], node);
      StartingAtAppend(nodes[0].connectionLanes, ConnectionLanes(nodes[1..]), node);
    }
  }

  /** The last group of `roadGroups` that lists `roadIndex`: the one whose signal setting is not overwritten. */
  function LastGroupOf(roadGroups: seq<seq<int>>, roadIndex: int): (g: Option<nat>)
    ensures g.None? <==> forall k :: 0 <= k < |roadGroups| ==> roadIndex !in roadGroups[k]
    ensures g.Some? ==>
      && g.value < |roadGroups| && roadIndex in roadGroups[g.value]
      && forall k :: g.value < k < |roadGroups| ==> roadIndex !in roadGroups[k]
  {
    if |roadGroups| == 0 then None
    else if roadIndex in roadGroups[|roadGroups| - 1] then Some(|roadGroups| - 1)
    else
      assert forall k :: 0 <= k < |roadGroups| - 1 ==> roadGroups[..|roadGroups| - 1][k] == roadGroups[k];
      LastGroupOf(roadGroups[..|roadGroups| - 1], roadIndex)
  }

  /**
   * The signal setting of a road after wiring: the given signal and group when
   * `g` names one, otherwise the setting it had before.
   */
  predicate WiredAs(road: Road, signal: TrafficSignal, g: Option<nat>,
                    formerSignal: TrafficSignal?, formerGroup: Option<int>)
    reads road`trafficSignal, road`trafficSignalGroupIndex
  {
    match g
    case Some(group) => road.trafficSignal == signal && road.trafficSignalGroupIndex == Some(group)
    case None => road.trafficSignal == formerSignal && road.trafficSignalGroupIndex == formerGroup
  }

  /**
   * `randomElement(node.getOutgoingLaneNode())`; a node without outgoing lanes
   * yields `undefined`, here `null`.
   */
  function PickLaneNode(node: RoadNode, pick: nat): (r: LaneNode?)
    reads node`outgoingRoads, node`incomingRoads, node.outgoingRoads, node.incomingRoads
    requires node.RoadsWellFormed()
    ensures r == null <==> |node.OutgoingLaneNodes()| == 0
    ensures r != null ==> r in node.OutgoingLaneNodes()
  {
    match RandomElement(node.OutgoingLaneNodes(), pick)
    case None => null
    case Some(n) => n
  }

  /**
   * `sourceNode ?? randomElement(this.nodes)`: the given node, or else one drawn
   * among `nodes`; `undefined` (here `null`) when there are none.
   */
  function Endpoint(given: RoadNode?, nodes: seq<RoadNode>, pick: nat): (r: RoadNode?)
    ensures given != null ==> r == given
    ensures given == null ==> (r == null <==> |nodes| == 0) && (r != null ==> r in nodes)
  {
    if given != null then given
    else
      match RandomElement(nodes, pick)
      case None => null
      case Some(n) => n
  }

  /**
   * The spawn test of `addVehicle`: a new vehicle of length `length` fits at the
   * start of the path when no vehicle is ahead on it, or when half its length is
   * less than the distance to the first vehicle's rear bumper.
   */
  predicate Clear(first: Option<FirstFound>, length: real) {
    first.None? || length / 2.0 < first.value.distanceToVehicle - first.value.vehicle.length / 2.0
  }

  /** `path` leads from a lane node drawn at `source` to one drawn at `target`. */
  ghost predicate RoutesBetween(path: seq<Lane>, source: RoadNode, target: RoadNode, startPick: nat, endPick: nat)
    reads source`outgoingRoads, source`incomingRoads, source.outgoingRoads, source.incomingRoads
    reads target`outgoingRoads, target`incomingRoads, target.outgoingRoads, target.incomingRoads
  {
    && source.RoadsWellFormed() && target.RoadsWellFormed()
    && Routes(path, PickLaneNode(source, startPick), PickLaneNode(target, endPick))
  }

  /**
   * The maps of `findPath`: tentative distances, the visited set, the
   * predecessor of each reached node, the lanes reaching each node at its
   * tentative distance, and the priority queue.
   */
  datatype Search = Search(
    distances: map<LaneNode?, real>,
    visited: set<LaneNode?>,
    previousNodes: map<LaneNode?, LaneNode?>,
    incomingLane: map<LaneNode?, seq<Lane>>,
    priorityQueue: seq<Entry<LaneNode?>>)

  /**
   * What holds of the search between iterations: the queue part, the visiting
   * order and the incoming lanes. `order` numbers the visited nodes in the
   * order they were taken from the queue (all below `count`); `universe` holds
   * the start and every lane target, `network` every lane.
   */
  ghost predicate SearchInv(s: Search, order: map<LaneNode?, nat>, count: nat,
                            universe: set<LaneNode?>, network: set<Lane>)
  {
    QueueInv(s, universe) && OrderInv(s, order, count) && LanesInv(s, network)
  }

  /**
   * The queue holds, once each, exactly the unvisited nodes with a distance,
   * and every node queued or visited is in `universe`.
   */
  ghost predicate QueueInv(s: Search, universe: set<LaneNode?>) {
    && UniqueKeys(s.priorityQueue)
    && s.distances.Keys == s.visited + Keys(s.priorityQueue)
    && Keys(s.priorityQueue) <= universe && s.visited <= universe
    && Keys(s.priorityQueue) !! s.visited
  }

  /**
   * `order` numbers the visited nodes, all below `count`; a predecessor was
   * visited before the node it precedes, so following predecessors terminates.
   */
  ghost predicate OrderInv(s: Search, order: map<LaneNode?, nat>, count: nat) {
    && order.Keys == s.visited
    && (forall n :: n in order ==> order[n] < count)
    && (forall n :: n in s.previousNodes ==>
          s.previousNodes[n] in s.visited && (n in s.visited ==> order[s.previousNodes[n]] < order[n]))
  }

  /** Every incoming lane recorded for a node is a lane of `network` that ends at it. */
  ghost predicate LanesInv(s: Search, network: set<Lane>) {
    forall n :: n in s.incomingLane ==> forall l :: l in s.incomingLane[n] ==> l in network && l.target == n
  }

  /**
   * Every node with a distance, other than the start, has a predecessor, and
   * its first incoming lane leaves that predecessor: the links the
   * reconstruction follows are never missing.
   */
  ghost predicate Linked(s: Search, start: LaneNode?) {
    forall n {:trigger Reached(s, n)} :: n in s.distances && Reached(s, n) && n != start ==>
      && n in s.previousNodes && n in s.incomingLane && |s.incomingLane[n]| > 0
      && s.incomingLane[n][0].source == s.previousNodes[n]
  }

  /** `n` has a tentative distance. */
  ghost predicate Reached(s: Search, n: LaneNode?) {
    n in s.distances
  }

  /** Every lane of `network` leaving a visited node leads to a node with a distance. */
  ghost predicate Closed(s: Search, network: set<Lane>) {
    forall l :: l in network && l.source in s.visited ==> l.target in s.distances
  }

  /** `path` leads from `start` to `end` over lanes of `lanes`. */
  ghost predicate LeadsOver(lanes: seq<Lane>, older path: seq<Lane>, start: LaneNode?, end: LaneNode?) {
    Routes(path, start, end) && forall i :: 0 <= i < |path| ==> path[i] in lanes
  }

  /** Some path over `lanes` leads from `start` to `end`. */
  ghost predicate Reachable(lanes: seq<Lane>, start: LaneNode?, end: LaneNode?) {
    exists path :: LeadsOver(lanes, path, start, end)
  }

  /**
   * A set of lane nodes that holds `start` and, with the source of each lane of
   * `lanes`, its target, holds the end of every path from `start` over `lanes`.
   */
  lemma {:induction false} ClosedHoldsRoutes(lanes: seq<Lane>, reached: set<LaneNode?>, path: seq<Lane>,
                                             start: LaneNode?, end: LaneNode?)
    requires start in reached && forall l :: l in lanes && l.source in reached ==> l.target in reached
    requires LeadsOver(lanes, path, start, end)
    ensures end in reached
    decreases |path|
  {
    if |path| > 0 {
      var rest := path[1..];
      assert path[0] in lanes;
      assert forall i :: 0 <= i < |rest| ==> rest[i] == path[i + 1];
      assert |rest| > 0 ==> rest[0] == path[1] && rest[|rest| - 1] == path[|path| - 1];
      assert forall l :: l in rest ==> l in path;
      ClosedHoldsRoutes(lanes, reached, rest, path[0].target, end);
    }
  }

  /** Taking a queued node out of the queue and marking it visited, next in order, keeps the invariant. */
  lemma {:induction false} PopKeepsSearchInv(s: Search, currentNode: LaneNode?, order: map<LaneNode?, nat>, count: nat,
                          universe: set<LaneNode?>, network: set<Lane>)
    requires SearchInv(s, order, count, universe, network) && currentNode in Keys(s.priorityQueue)
    ensures SearchInv(s.(priorityQueue := Delete(s.priorityQueue, currentNode), visited := s.visited + {currentNode}),
                      order[currentNode := count], count + 1, universe, network)
  {
    var q := Delete(s.priorityQueue, currentNode);
    var t := s.(priorityQueue := q, visited := s.visited + {currentNode});
    var o := order[currentNode := count];
    assert Keys(q) == Keys(s.priorityQueue) - {currentNode};
    assert o.Keys == t.visited;
    forall n | n in o
      ensures o[n] < count + 1
    {
    }
    forall n | n in t.previousNodes
      ensures t.previousNodes[n] in t.visited && (n in t.visited ==> o[t.previousNodes[n]] < o[n])
    {
      assert t.previousNodes[n] in s.visited;
    }
  }

  /**
   * One selection of `findPath`: the entry `Reduce` picks leaves the queue and
   * its node is marked visited, next in visiting order.
   */
  method TakeNearest(s: Search, ghost order: map<LaneNode?, nat>, ghost count: nat,
                     ghost universe: set<LaneNode?>, ghost network: set<Lane>)
    returns (r: Search, currentNode: LaneNode?, ghost order': map<LaneNode?, nat>, ghost count': nat)
    requires SearchInv(s, order, count, universe, network) && |s.priorityQueue| > 0
    ensures SearchInv(r, order', count', universe, network)
    ensures currentNode == Reduce(s.priorityQueue).key && currentNode in Keys(s.priorityQueue)
    ensures r.visited == s.visited + {currentNode} && Keys(r.priorityQueue) == Keys(s.priorityQueue) - {currentNode}
    ensures r.distances == s.distances && r.previousNodes == s.previousNodes && r.incomingLane == s.incomingLane
    ensures |universe - r.visited| < |universe - s.visited|
  {
    currentNode := Reduce(s.priorityQueue).key;
    assert currentNode in Keys(s.priorityQueue);
    PopKeepsSearchInv(s, currentNode, order, count, universe, network);
    VisitShrinks(universe, s.visited, currentNode);
    r := s.(priorityQueue := Delete(s.priorityQueue, currentNode), visited := s.visited + {currentNode});
    order' := order[currentNode := count];
    count' := count + 1;
  }

  /** Visiting one more node of `universe` leaves fewer unvisited. */
  lemma VisitShrinks<T>(universe: set<T>, visited: set<T>, c: T)
    requires c in universe && c !in visited
    ensures |universe - (visited + {c})| < |universe - visited|
  {
    var rest := universe - (visited + {c});
    assert universe - visited == rest + {c};
    assert c !in rest;
  }

  /** Lane `i` leaves `node` and no earlier lane does. */
  predicate FirstLeaving(lanes: seq<Lane>, i: int, node: LaneNode?) {
    0 <= i < |lanes| && lanes[i].source == node && forall j :: 0 <= j < i ==> lanes[j].source != node
  }

  /** `lanes.find((e) => e.source === node)`: the first lane leaving `node`. */
  function FindBySource(lanes: seq<Lane>, node: LaneNode?): (r: Option<Lane>)
    ensures r.None? <==> forall l :: l in lanes ==> l.source != node
    ensures r.Some? ==> exists i :: FirstLeaving(lanes, i, node) && lanes[i] == r.value
  {
    if |lanes| == 0 then None
    else if lanes[0].source == node then
      assert FirstLeaving(lanes, 0, node);
      Some(lanes[0])
    else
      var r := FindBySource(lanes[1..], node);
      assert r.Some? ==> exists i :: FirstLeaving(lanes, i, node) && lanes[i] == r.value by {
        if r.Some? {
          var i :| FirstLeaving(lanes[1..], i, node) && lanes[1..][i] == r.value;
          assert forall j :: 1 <= j < i + 1 ==> lanes[j] == lanes[1..][j - 1];
          assert FirstLeaving(lanes, i + 1, node);
        }
      }
      r
  }

  /**
   * The relaxation loop of `findPath` over the lanes leaving `currentNode`: a
   * lane to an unvisited node sets that node's distance, predecessor, incoming
   * lanes and queue entry when it is new or strictly shorter, and joins its
   * incoming lanes on a tie. Afterwards every unvisited target is no farther
   * than through `currentNode`, no distance has grown, and a node whose
   * predecessor changed now comes from `currentNode` by a shorter distance.
   */
  method Relax(s: Search, start: LaneNode?, currentNode: LaneNode?, outgoingLanes: seq<Lane>,
               ghost order: map<LaneNode?, nat>, ghost count: nat, ghost universe: set<LaneNode?>,
               ghost network: set<Lane>)
    returns (r: Search)
    requires SearchInv(s, order, count, universe, network) && Linked(s, start)
    requires currentNode in s.visited && currentNode in s.distances
    requires forall l :: l in outgoingLanes ==> l in network && l.source == currentNode
    requires forall l :: l in network ==> l.target in universe
    ensures SearchInv(r, order, count, universe, network) && Linked(r, start) && r.visited == s.visited
    ensures r.distances.Keys == s.distances.Keys + (set l | l in outgoingLanes && l.target !in s.visited :: l.target)
    ensures forall n :: n in s.distances ==> r.distances[n] <= s.distances[n]
    ensures forall l :: l in outgoingLanes && l.target !in s.visited ==>
      r.distances[l.target] <= s.distances[currentNode] + l.length
    ensures forall n :: n in r.previousNodes && (n !in s.previousNodes || r.previousNodes[n] != s.previousNodes[n]) ==>
      && r.previousNodes[n] == currentNode
      && (n !in s.distances || r.distances[n] < s.distances[n])
  {
    r := s;
    var i := 0;
    assert outgoingLanes[..0] == [];
    while i < |outgoingLanes|
      invariant 0 <= i <= |outgoingLanes|
      invariant SearchInv(r, order, count, universe, network) && Linked(r, start)
      invariant Relaxing(s, r, currentNode, outgoingLanes[..i])
    {
      var lane := outgoingLanes[i];
      PrefixGrows(outgoingLanes, i);
      RelaxLaneKeeps(r, start, currentNode, lane, order, count, universe, network);
      RelaxStep(s, r, currentNode, outgoingLanes[..i], lane);
      r := RelaxLane(r, currentNode, lane);
      i := i + 1;
    }
    assert outgoingLanes[..i] == outgoingLanes;
  }

  /**
   * What holds after relaxing the lanes `done` from `currentNode`, starting
   * from `s`: the visited set is the same, the targets of `done` have
   * distances no farther than through `currentNode`, no distance grew, and a
   * changed predecessor is `currentNode` with a shorter distance.
   */
  ghost predicate Relaxing(s: Search, r: Search, currentNode: LaneNode?, done: seq<Lane>) {
    && r.visited == s.visited
    && currentNode in s.distances && currentNode in r.distances
    && r.distances[currentNode] == s.distances[currentNode]
    && r.distances.Keys == s.distances.Keys + UnvisitedTargets(done, s.visited)
    && (forall n :: n in s.distances ==> r.distances[n] <= s.distances[n])
    && (forall l :: l in done && l.target !in s.visited ==> r.distances[l.target] <= s.distances[currentNode] + l.length)
    && (forall n :: n in r.previousNodes && (n !in s.previousNodes || r.previousNodes[n] != s.previousNodes[n]) ==>
          && r.previousNodes[n] == currentNode
          && (n !in s.distances || r.distances[n] < s.distances[n]))
  }

  /** Relaxing one more lane from `currentNode` keeps `Relaxing`. */
  lemma {:induction false} RelaxStep(s: Search, r: Search, currentNode: LaneNode?, done: seq<Lane>, lane: Lane)
    requires Relaxing(s, r, currentNode, done)
    requires currentNode in s.visited && lane.source == currentNode
    ensures Relaxing(s, RelaxLane(r, currentNode, lane), currentNode, done + [lane])
  {
    RelaxStepDistances(s, r, currentNode, done, lane);
    RelaxStepPredecessors(s, r, currentNode, lane);
  }

  /** The distance part of `RelaxStep`. */
  lemma {:induction false} RelaxStepDistances(s: Search, r: Search, currentNode: LaneNode?, done: seq<Lane>, lane: Lane)
    requires Relaxing(s, r, currentNode, done)
    requires currentNode in s.visited && lane.source == currentNode
    ensures var t := RelaxLane(r, currentNode, lane);
      && t.visited == s.visited && currentNode in t.distances
      && t.distances[currentNode] == s.distances[currentNode]
      && t.distances.Keys == s.distances.Keys + UnvisitedTargets(done + [lane], s.visited)
      && (forall n :: n in s.distances ==> t.distances[n] <= s.distances[n])
      && (forall l :: l in done + [lane] && l.target !in s.visited ==>
            t.distances[l.target] <= s.distances[currentNode] + l.length)
  {
    var t := RelaxLane(r, currentNode, lane);
    var n := lane.target;
    assert UnvisitedTargets(done + [lane], s.visited)
        == UnvisitedTargets(done, s.visited) + (if n in s.visited then {} else {n});
    RelaxLaneShortens(r, currentNode, lane);
    RelaxStepBound(s, r, currentNode, done, lane);
  }

  /** Relaxing a lane changes no distance but its target's, and that one only downwards. */
  lemma {:induction false} RelaxLaneShortens(r: Search, currentNode: LaneNode?, lane: Lane)
    requires currentNode in r.distances
    ensures var t := RelaxLane(r, currentNode, lane);
      && (forall m :: m in r.distances ==> m in t.distances && t.distances[m] <= r.distances[m])
      && (forall m :: m != lane.target && m in r.distances ==> t.distances[m] == r.distances[m])
  {
    var t := RelaxLane(r, currentNode, lane);
    assert t.distances - {lane.target} == r.distances - {lane.target};
  }

  /** The bound through `currentNode` holds for the lanes relaxed so far and the one relaxed now. */
  lemma {:induction false} RelaxStepBound(s: Search, r: Search, currentNode: LaneNode?, done: seq<Lane>, lane: Lane)
    requires currentNode in s.distances && currentNode in r.distances && r.visited == s.visited
    requires r.distances[currentNode] == s.distances[currentNode]
    requires forall l :: l in done && l.target !in s.visited ==> l.target in r.distances
    requires forall l :: l in done && l.target !in s.visited ==> r.distances[l.target] <= s.distances[currentNode] + l.length
    ensures var t := RelaxLane(r, currentNode, lane);
      forall l :: l in done + [lane] && l.target !in s.visited ==>
        l.target in t.distances && t.distances[l.target] <= s.distances[currentNode] + l.length
  {
    var t := RelaxLane(r, currentNode, lane);
    RelaxLaneShortens(r, currentNode, lane);
    forall l | l in done + [lane] && l.target !in s.visited
      ensures l.target in t.distances && t.distances[l.target] <= s.distances[currentNode] + l.length
    {
      if l != lane {
        assert l in done;
      }
    }
  }

  /** The predecessor part of `RelaxStep`. */
  lemma {:induction false} RelaxStepPredecessors(s: Search, r: Search, currentNode: LaneNode?, lane: Lane)
    requires currentNode in r.distances && lane.source == currentNode
    requires forall n :: n in s.distances ==> n in r.distances && r.distances[n] <= s.distances[n]
    requires forall n :: n in r.previousNodes && (n !in s.previousNodes || r.previousNodes[n] != s.previousNodes[n]) ==>
      && r.previousNodes[n] == currentNode
      && (n !in s.distances || r.distances[n] < s.distances[n])
    ensures var t := RelaxLane(r, currentNode, lane);
      forall n :: n in t.previousNodes && (n !in s.previousNodes || t.previousNodes[n] != s.previousNodes[n]) ==>
        && t.previousNodes[n] == currentNode
        && (n !in s.distances || t.distances[n] < s.distances[n])
  {
    var t := RelaxLane(r, currentNode, lane);
    var n := lane.target;
    assert forall m :: m != n && m in r.distances ==> t.distances[m] == r.distances[m] by {
      assert t.distances - {n} == r.distances - {n};
    }
    assert forall m :: m != n && m in r.previousNodes ==> m in t.previousNodes && t.previousNodes[m] == r.previousNodes[m] by {
      assert t.previousNodes - {n} == r.previousNodes - {n};
    }
    assert forall m :: m in t.previousNodes && m != n ==> m in r.previousNodes by {
      assert t.previousNodes - {n} == r.previousNodes - {n};
    }
  }

  /** The targets of `lanes` outside `visited`, collected from the front. */
  function UnvisitedTargets(lanes: seq<Lane>, visited: set<LaneNode?>): (r: set<LaneNode?>)
    ensures r == set l | l in lanes && l.target !in visited :: l.target
  {
    if |lanes| == 0 then {}
    else
      var last := lanes[|lanes| - 1];
      assert lanes == lanes[..|lanes| - 1] + [last];
      UnvisitedTargets(lanes[..|lanes| - 1], visited) + (if last.target in visited then {} else {last.target})
  }

  /**
   * One lane of the relaxation loop. A visited target is skipped. An unvisited
   * target reached for the first time or by a strictly shorter distance `d`
   * takes `d`, `currentNode` as its predecessor, `lane` as its only incoming
   * lane and a queue entry at `d`; one reached at its present distance gains
   * `lane` as a further incoming lane; no other node changes.
   */
  function RelaxLane(s: Search, currentNode: LaneNode?, lane: Lane): (r: Search)
    requires currentNode in s.distances
    ensures r.visited == s.visited
    ensures lane.target in s.visited ==> r == s
    ensures r.distances.Keys == s.distances.Keys + (if lane.target in s.visited then {} else {lane.target})
    ensures r.distances - {lane.target} == s.distances - {lane.target}
    ensures r.previousNodes - {lane.target} == s.previousNodes - {lane.target}
    ensures r.incomingLane - {lane.target} == s.incomingLane - {lane.target}
    ensures var n: LaneNode?, d := lane.target, s.distances[currentNode] + lane.length;
      n !in s.visited ==>
        && n in r.distances
        && r.distances[n] == (if n in s.distances && s.distances[n] <= d then s.distances[n] else d)
        && ((n !in s.distances || d < s.distances[n]) ==>
              && n in r.previousNodes && r.previousNodes[n] == currentNode
              && n in r.incomingLane && r.incomingLane[n] == [lane] && Entry(n, d) in r.priorityQueue)
        && (n in s.distances && d == s.distances[n] ==>
              && r.previousNodes == s.previousNodes && r.priorityQueue == s.priorityQueue
              && (n in s.incomingLane ==> n in r.incomingLane && r.incomingLane[n] == s.incomingLane[n] + [lane]))
        && (n in s.distances && d > s.distances[n] ==> r == s)
  {
    var neighborNode := lane.target;
    if neighborNode in s.visited then s
    else
      var distance := s.distances[currentNode] + lane.length;
      if neighborNode !in s.distances || distance < s.distances[neighborNode] then
        Improve(s, currentNode, lane, distance)
      else if distance == s.distances[neighborNode] && neighborNode in s.incomingLane then
        Join(s, lane)
      else s
  }

  /** Relaxing a lane from a visited node keeps the invariant and the links, and gives its unvisited target a distance. */
  lemma {:induction false} RelaxLaneKeeps(s: Search, start: LaneNode?, currentNode: LaneNode?, lane: Lane,
                       order: map<LaneNode?, nat>, count: nat, universe: set<LaneNode?>, network: set<Lane>)
    requires SearchInv(s, order, count, universe, network) && Linked(s, start)
    requires currentNode in s.visited && currentNode in s.distances
    requires lane in network && lane.source == currentNode && lane.target in universe
    ensures var r := RelaxLane(s, currentNode, lane);
      SearchInv(r, order, count, universe, network) && Linked(r, start)
  {
    var n := lane.target;
    if n !in s.visited {
      var d := s.distances[currentNode] + lane.length;
      if n !in s.distances || d < s.distances[n] {
        ImproveKeepsQueue(s, currentNode, lane, d, universe);
        ImproveKeepsOrder(s, currentNode, lane, d, order, count);
        ImproveKeepsLanes(s, currentNode, lane, d, network);
        ImproveKeepsLinks(s, start, currentNode, lane, d);
      } else if d == s.distances[n] && n in s.incomingLane {
        JoinKeeps(s, start, lane, order, count, universe, network);
      }
    }
  }

  /**
   * The update of a strictly shorter or first distance `d` to the target of
   * `lane`: `currentNode` becomes its predecessor, `lane` its only incoming
   * lane, and its queue entry is set to `d`.
   */
  function Improve(s: Search, currentNode: LaneNode?, lane: Lane, d: real): Search {
    var n := lane.target;
    s.(distances := s.distances[n := d], previousNodes := s.previousNodes[n := currentNode],
       incomingLane := s.incomingLane[n := [lane]], priorityQueue := Set(s.priorityQueue, n, d))
  }

  /** The update of an equal distance: `lane` joins the incoming lanes of its target. */
  function Join(s: Search, lane: Lane): Search
    requires lane.target in s.incomingLane
  {
    s.(incomingLane := s.incomingLane[lane.target := s.incomingLane[lane.target] + [lane]])
  }

  /** Improving an unvisited node of `universe` keeps the queue part. */
  lemma {:induction false} ImproveKeepsQueue(s: Search, currentNode: LaneNode?, lane: Lane, d: real,
                                             universe: set<LaneNode?>)
    requires QueueInv(s, universe) && lane.target in universe && lane.target !in s.visited
    ensures QueueInv(Improve(s, currentNode, lane, d), universe)
  {
    var r := Improve(s, currentNode, lane, d);
    assert Keys(r.priorityQueue) == Keys(s.priorityQueue) + {lane.target};
  }

  /** Improving an unvisited node from a visited one keeps the visiting order. */
  lemma {:induction false} ImproveKeepsOrder(s: Search, currentNode: LaneNode?, lane: Lane, d: real,
                                             order: map<LaneNode?, nat>, count: nat)
    requires OrderInv(s, order, count) && currentNode in s.visited && lane.target !in s.visited
    ensures OrderInv(Improve(s, currentNode, lane, d), order, count)
  {
  }

  /** Improving the target of a lane of `network` keeps the incoming lanes in `network`. */
  lemma {:induction false} ImproveKeepsLanes(s: Search, currentNode: LaneNode?, lane: Lane, d: real, network: set<Lane>)
    requires LanesInv(s, network) && lane in network
    ensures LanesInv(Improve(s, currentNode, lane, d), network)
  {
  }

  /** Improving the target of a lane leaving `currentNode` keeps the links. */
  lemma {:induction false} ImproveKeepsLinks(s: Search, start: LaneNode?, currentNode: LaneNode?, lane: Lane, d: real)
    requires Linked(s, start) && lane.source == currentNode
    ensures Linked(Improve(s, currentNode, lane, d), start)
  {
    var r := Improve(s, currentNode, lane, d);
    forall m | Reached(r, m) && m != start
      ensures m in r.previousNodes && m in r.incomingLane && |r.incomingLane[m]| > 0
      ensures r.incomingLane[m][0].source == r.previousNodes[m]
    {
      if m != lane.target {
        assert Reached(s, m) && r.previousNodes[m] == s.previousNodes[m];
      }
    }
  }

  /** Joining a lane of `network` to the incoming lanes of its target keeps the invariant and the links. */
  lemma {:induction false} JoinKeeps(s: Search, start: LaneNode?, lane: Lane,
                                     order: map<LaneNode?, nat>, count: nat, universe: set<LaneNode?>, network: set<Lane>)
    requires SearchInv(s, order, count, universe, network) && Linked(s, start)
    requires lane in network && lane.target in s.incomingLane
    ensures SearchInv(Join(s, lane), order, count, universe, network) && Linked(Join(s, lane), start)
  {
    var r := Join(s, lane);
    var n := lane.target;
    assert QueueInv(r, universe) && OrderInv(r, order, count);
    if Reached(s, n) && n != start {
      assert r.incomingLane[n][0] == s.incomingLane[n][0];
    }
    assert forall m :: Reached(r, m) ==> Reached(s, m);
  }

  /**
   * The path reconstruction of `findPath`: from `end`, follow predecessors back
   * to `start`, putting in front the first incoming lane that leaves the
   * predecessor. A missing predecessor or lane gives `null`, which the links of
   * the search (`Linked`) rule out.
   */
  method Reconstruct(s: Search, start: LaneNode?, end: LaneNode?, ghost order: map<LaneNode?, nat>,
                     ghost count: nat, ghost universe: set<LaneNode?>, ghost network: set<Lane>)
    returns (path: Option<seq<Lane>>)
    requires SearchInv(s, order, count, universe, network) && end in s.visited
    ensures path.Some? ==> Routes(path.value, start, end) && forall l :: l in path.value ==> l in network
    ensures start == end ==> path == Some([])
    ensures Linked(s, start) ==> path.Some?
  {
    var p: seq<Lane> := [];
    var node := end;
    while node != start
      invariant node in s.visited
      invariant Chained(p) && forall l :: l in p ==> l in network
      invariant |p| == 0 ==> node == end
      invariant start == end ==> |p| == 0
      invariant |p| > 0 ==> p[0].source == node && Last(p).target == end
      decreases order[node]
    {
      assert Reached(s, node);
      if node !in s.previousNodes {
        return None;
      }
      var previousNode := s.previousNodes[node];
      if node !in s.incomingLane {
        return None;
      }
      var edge := FindBySource(s.incomingLane[node], previousNode);
      if edge.None? {
        return None;
      }
      assert edge.value in s.incomingLane[node];
      p := [edge.value] + p;
      node := previousNode;
    }
    return Some(p);
  }

  /**
   * The search of `findPath`: Dijkstra's algorithm over lane nodes, with
   * `lanes` (the network, which the search does not change) as edges; the
   * lanes leaving a node are `StartingAt(lanes, node)`, which is `lanesFrom`
   * (`Simulation.LanesFromIsFilter`). A path is found exactly when some chain
   * of those lanes leads from `startLaneNode` to `endLaneNode`, and is then
   * such a chain, empty when they coincide: the nodes visited before the queue
   * runs dry are closed under the lanes, so they hold every reachable node.
   */
  method SearchLanes(lanes: seq<Lane>, startLaneNode: LaneNode?, endLaneNode: LaneNode?) returns (path: Option<seq<Lane>>)
    ensures startLaneNode == endLaneNode ==> path == Some([])
    ensures path.Some? ==> LeadsOver(lanes, path.value, startLaneNode, endLaneNode)
    ensures path.Some? <==> Reachable(lanes, startLaneNode, endLaneNode)
  {
    ghost var network := set l | l in lanes;
    ghost var universe := (set l | l in lanes :: l.target as LaneNode?) + {startLaneNode};
    var s := Search(map[startLaneNode := 0.0], {}, map[], map[], [Entry(startLaneNode, 0.0)]);
    ghost var order: map<LaneNode?, nat> := map[];
    ghost var count: nat := 0;
    assert Keys(s.priorityQueue) == {startLaneNode};
    assert forall l :: l in network ==> l.target in universe;
    path := Explore(lanes, s, startLaneNode, endLaneNode, order, count, universe, network);
  }

  /** The loop of the search, from a queue that holds the start. */
  method Explore(lanes: seq<Lane>, s: Search, startLaneNode: LaneNode?, endLaneNode: LaneNode?,
                 ghost order: map<LaneNode?, nat>, ghost count: nat, ghost universe: set<LaneNode?>,
                 ghost network: set<Lane>)
    returns (path: Option<seq<Lane>>)
    requires network == set l | l in lanes
    requires forall l :: l in network ==> l.target in universe
    requires SearchInv(s, order, count, universe, network) && Linked(s, startLaneNode) && Closed(s, network)
    requires startLaneNode in s.distances && s.visited == {} && Keys(s.priorityQueue) == {startLaneNode}
    ensures startLaneNode == endLaneNode ==> path == Some([])
    ensures path.Some? ==> LeadsOver(lanes, path.value, startLaneNode, endLaneNode)
    ensures path.Some? <==> Reachable(lanes, startLaneNode, endLaneNode)
  {
    var s := s;
    ghost var order, count := order, count;
    while |s.priorityQueue| > 0
      invariant SearchInv(s, order, count, universe, network) && Linked(s, startLaneNode) && Closed(s, network)
      invariant startLaneNode in s.distances && endLaneNode !in s.visited
      invariant startLaneNode == endLaneNode ==> Keys(s.priorityQueue) == {startLaneNode}
      decreases |universe - s.visited|
    {
      var currentNode;
      s, currentNode, order, count := Visit(lanes, s, startLaneNode, endLaneNode, order, count, universe, network);
      if currentNode == endLaneNode {
        path := Reconstruct(s, startLaneNode, endLaneNode, order, count, universe, network);
        RouteLeadsOver(lanes, network, path.value, startLaneNode, endLaneNode);
        return;
      }
    }
    ClosedCatches(lanes, network, s, startLaneNode, endLaneNode, universe);
    path := None;
  }

  /**
   * One round of the search: visits the nearest queued node and, unless it
   * is the end, relaxes the lanes leaving it. The visited nodes stay closed
   * under the lanes of the network until the end is visited.
   */
  method Visit(lanes: seq<Lane>, s: Search, start: LaneNode?, end: LaneNode?, ghost order: map<LaneNode?, nat>,
               ghost count: nat, ghost universe: set<LaneNode?>, ghost network: set<Lane>)
    returns (r: Search, currentNode: LaneNode?, ghost order': map<LaneNode?, nat>, ghost count': nat)
    requires network == set l | l in lanes
    requires forall l :: l in network ==> l.target in universe
    requires SearchInv(s, order, count, universe, network) && Linked(s, start) && Closed(s, network)
    requires start in s.distances && end !in s.visited && |s.priorityQueue| > 0
    ensures SearchInv(r, order', count', universe, network) && Linked(r, start) && start in r.distances
    ensures currentNode in Keys(s.priorityQueue) && r.visited == s.visited + {currentNode}
    ensures |universe - r.visited| < |universe - s.visited|
    ensures currentNode != end ==> Closed(r, network)
  {
    r, currentNode, order', count' := TakeNearest(s, order, count, universe, network);
    LinkedSame(s, r, start);
    if currentNode != end {
      var outgoingLanes := StartingAt(lanes, currentNode);
      ghost var taken := r;
      r := Relax(r, start, currentNode, outgoingLanes, order', count', universe, network);
      ClosedKeeps(lanes, network, s, taken, r, currentNode, universe);
    }
  }

  /** A route over lanes of the network leads over the lane list. */
  lemma RouteLeadsOver(lanes: seq<Lane>, network: set<Lane>, path: seq<Lane>, start: LaneNode?, end: LaneNode?)
    requires network == set l | l in lanes
    requires Routes(path, start, end) && forall l :: l in path ==> l in network
    ensures LeadsOver(lanes, path, start, end)
  {
    forall i | 0 <= i < |path|
      ensures path[i] in lanes
    {
      assert path[i] in network;
    }
  }

  /** Two searches with the same maps have the same links. */
  lemma {:induction false} LinkedSame(a: Search, b: Search, start: LaneNode?)
    requires Linked(a, start)
    requires a.distances == b.distances && a.previousNodes == b.previousNodes && a.incomingLane == b.incomingLane
    ensures Linked(b, start)
  {
    forall n | n in b.distances && Reached(b, n) && n != start
      ensures n in b.previousNodes && n in b.incomingLane && |b.incomingLane[n]| > 0
      ensures b.incomingLane[n][0].source == b.previousNodes[n]
    {
      assert Reached(a, n);
    }
  }

  /**
   * A round of the search keeps the visited nodes closed: the lanes leaving
   * the node just visited were all relaxed, so their targets have distances.
   */
  lemma {:induction false} ClosedKeeps(lanes: seq<Lane>, network: set<Lane>, before: Search, taken: Search, after: Search,
                                       currentNode: LaneNode?, universe: set<LaneNode?>)
    requires network == set l | l in lanes
    requires Closed(before, network) && QueueInv(taken, universe)
    requires taken.visited == before.visited + {currentNode} && taken.distances == before.distances
    requires after.visited == taken.visited
    requires var outgoingLanes := StartingAt(lanes, currentNode);
      after.distances.Keys == taken.distances.Keys + (set l | l in outgoingLanes && l.target !in taken.visited :: l.target)
    ensures Closed(after, network)
  {
    var outgoingLanes := StartingAt(lanes, currentNode);
    forall l | l in network && l.source in after.visited
      ensures l.target in after.distances
    {
      if l.source == currentNode {
        assert l in outgoingLanes;
        assert l.target in taken.visited ==> l.target in taken.distances;
      } else {
        assert l.target in before.distances;
      }
    }
  }

  /**
   * When the queue is empty, the visited nodes are closed under the lanes, so
   * every path from the start ends at a visited node.
   */
  lemma {:induction false} ClosedCatches(lanes: seq<Lane>, network: set<Lane>, s: Search, start: LaneNode?, end: LaneNode?,
                                         universe: set<LaneNode?>)
    requires network == set l | l in lanes
    requires Closed(s, network) && QueueInv(s, universe) && |s.priorityQueue| == 0
    requires start in s.distances
    ensures forall p :: LeadsOver(lanes, p, start, end) ==> end in s.visited
  {
    assert Keys(s.priorityQueue) == {};
    forall p | LeadsOver(lanes, p, start, end)
      ensures end in s.visited
    {
      ClosedHoldsRoutes(lanes, s.visited, p, start, end);
    }
  }

  class Simulation {
    var roads: seq<Road>
    var nodes: seq<RoadNode>
    var laneNodes: seq<LaneNode>
    var trafficSignals: seq<TrafficSignal>
    /** The vehicles reported to `onVehicleAdded`, in order. */
    var added: seq<Vehicle<Lane>>
    /** The vehicles reported to `onVehicleRemoved`, in order. */
    var removed: seq<Vehicle<Lane>>
    /** `Math.sqrt(maxAcceleration * maxDeceleration)`, given to every vehicle created. */
    const accelerationRoot: real

    /** Every lane created so far, whether or not a road or node still lists it. */
    ghost var Lanes: set<Lane>
    /** Every vehicle ever added. */
    ghost var Fleet: set<Vehicle<Lane>>

    /**
     * The engine's invariant. Lanes hold distinct vehicles, each at the lane of
     * its path it is on. Every vehicle ever added is either queued on its
     * current lane (once, and on no other lane) or has been reported removed,
     * after passing the end of its path (never both).
     */
    ghost predicate Valid()
      reads this
      reads (set n | n in nodes)`connectionLanes, (set n | n in nodes)`outgoingRoads, (set n | n in nodes)`incomingRoads
      reads Lanes`vehicles, Fleet`path, Fleet`currentLaneIndex
    {
      Structure() && Queues() && Places()
    }

    /** Roads and nodes only refer to lanes and roads the engine knows. */
    ghost predicate Structure()
      reads this`roads, this`nodes, this`trafficSignals, this`Lanes
      reads (set n | n in nodes)`connectionLanes, (set n | n in nodes)`outgoingRoads, (set n | n in nodes)`incomingRoads
    {
      && accelerationRoot > 0.0 && accelerationRoot * accelerationRoot == MAX_ACCELERATION * MAX_DECELERATION
      && Skeleton()
      && (forall n :: n in nodes ==> forall l :: l in n.connectionLanes ==> l in Lanes)
    }

    /** The roads, with their lanes, and the nodes' roads, apart from connection lanes. */
    ghost predicate Skeleton()
      reads this`roads, this`nodes, this`trafficSignals, this`Lanes
      reads (set n | n in nodes)`outgoingRoads, (set n | n in nodes)`incomingRoads
    {
      && Distinct(roads) && Distinct(trafficSignals)
      && (forall r :: r in roads ==> |r.lanes| == |r.roadType.lanes| && forall l :: l in r.lanes ==> l in Lanes)
      && (forall n :: n in nodes ==> forall r :: r in n.outgoingRoads ==> r in roads)
      && (forall n :: n in nodes ==> forall r :: r in n.incomingRoads ==> r in roads)
    }

    /** Every queue holds distinct vehicles, each on the lane its path says it is on. */
    ghost predicate Queues()
      reads this`Lanes, this`Fleet, Lanes`vehicles, Fleet`path, Fleet`currentLaneIndex
    {
      && (forall l :: l in Lanes ==> Distinct(l.vehicles))
      && (forall l, v :: l in Lanes && v in l.vehicles ==> v in Fleet && OnLane(v, l))
    }

    /**
     * Conservation: every vehicle added is queued on its current lane or has
     * been reported removed after the end of its path, and each report is made once.
     */
    ghost predicate Places()
      reads this`Lanes, this`Fleet, this`added, this`removed, Lanes`vehicles, Fleet`path, Fleet`currentLaneIndex
    {
      && Distinct(added) && Distinct(removed)
      && (forall v :: v in Fleet ==> v in added) && (forall v :: v in added ==> v in Fleet)
      && (forall v :: v in Fleet ==> v.Valid() && forall l :: l in v.path ==> l in Lanes)
      && (forall v :: v in Fleet ==>
            (0 <= v.currentLaneIndex < |v.path| && v in v.path[v.currentLaneIndex].vehicles)
            || (v.currentLaneIndex >= |v.path| && v in removed))
      && (forall v :: v in removed ==> v in Fleet && v.currentLaneIndex >= |v.path|)
    }

    /** An empty simulation. */
    constructor (accelerationRoot: real)
      requires accelerationRoot > 0.0 && accelerationRoot * accelerationRoot == MAX_ACCELERATION * MAX_DECELERATION
      ensures Valid() && this.accelerationRoot == accelerationRoot
      ensures roads == [] && nodes == [] && laneNodes == [] && trafficSignals == []
      ensures added == [] && removed == [] && Lanes == {} && Fleet == {}
    {
      this.accelerationRoot := accelerationRoot;
      roads, nodes, laneNodes, trafficSignals := [], [], [], [];
      added, removed := [], [];
      Lanes, Fleet := {}, {};
    }

    /**
     * The transfer at the end of each step of `tickLaneVehicles`: a front vehicle
     * past the end of its lane leaves it, restarts at 0 on the next lane of its
     * path (joining the back of that queue), or is reported removed when its path
     * is done. Nothing else changes.
     */
    method AdvanceFront(lane: Lane)
      requires Valid() && lane in Lanes
      modifies Lanes`vehicles, Fleet`x, Fleet`currentLaneIndex, this`removed
      ensures Valid() && old(removed) <= removed
      ensures !old(|lane.vehicles| > 0 && lane.vehicles[0].x > lane.length) ==>
        unchanged(this`removed, Lanes`vehicles, Fleet`x, Fleet`currentLaneIndex)
      ensures old(|lane.vehicles| > 0 && lane.vehicles[0].x > lane.length) ==>
        && old(lane.vehicles[0]).x == 0.0
        && (forall u :: u in Fleet && u != old(lane.vehicles[0]) ==> u.x == old(u.x))
        && Transferred(Transfer(lane, old(lane.vehicles[0])))
      ensures Snapshot() == Advanced(old(Snapshot()), lane)
    {
      QueueOfLane(lane);
      CarsOfLane(lane);
      if |lane.vehicles| > 0 && lane.vehicles[0].x > lane.length {
        assert lane.vehicles[0] in lane.vehicles;
        MoveFront(lane);
      } else if |lane.vehicles| > 0 {
        assert lane.vehicles[0] in lane.vehicles;
      }
    }

    /** The transfer itself: shift, reset, index advance, then push or report. */
    method MoveFront(lane: Lane)
      requires Queues() && Places() && lane in Lanes && |lane.vehicles| > 0 && lane.vehicles[0].x > lane.length
      modifies Lanes`vehicles, Fleet`x, Fleet`currentLaneIndex, this`removed
      ensures Queues() && Places() && old(removed) <= removed
      ensures old(lane.vehicles[0]).x == 0.0
      ensures forall u :: u in Fleet && u != old(lane.vehicles[0]) ==> u.x == old(u.x)
      ensures Transferred(Transfer(lane, old(lane.vehicles[0])))
      ensures Snapshot() == Advanced(old(Snapshot()), lane)
    {
      var leadVehicle := lane.vehicles[0];
      assert leadVehicle in Fleet;
      lane.vehicles := lane.vehicles[1..];
      leadVehicle.x := 0.0;
      leadVehicle.currentLaneIndex := leadVehicle.currentLaneIndex + 1;
      if leadVehicle.currentLaneIndex < |leadVehicle.path| {
        var nextLane := leadVehicle.path[leadVehicle.currentLaneIndex];
        assert nextLane in leadVehicle.path;
        nextLane.vehicles := nextLane.vehicles + [leadVehicle];
      } else {
        removed := removed + [leadVehicle];
      }
      ghost var t := Transfer(lane, leadVehicle);
      assert Transferred(t);
      TransferSound(t);
    }

    /**
     * The callback `tickLaneVehicles` runs for the vehicle at `vehicleIndex`:
     * its tick behind the lead found along its path, then the transfer of the
     * lane's front vehicle; on the snapshot, `LaneTraffic.StepAt`.
     */
    method StepVehicle(lane: Lane, vehicleIndex: nat)
      requires Valid() && lane in Lanes && vehicleIndex < |lane.vehicles|
      modifies Lanes`vehicles, Fleet`x, Fleet`speed, Fleet`acceleration, Fleet`currentLaneIndex, this`removed
      ensures Valid() && old(removed) <= removed
      ensures Snapshot() == StepAt(old(Snapshot()), lane, vehicleIndex)
    {
      QueueOfLane(lane);
      CarsOfLane(lane);
      TickVehicle(lane, vehicleIndex);
      AdvanceFront(lane);
    }

    /**
     * The first half of the callback: the vehicle at `vehicleIndex` ticks
     * behind the lead `findDistanceToLeadVehicle` finds along its path; on the
     * snapshot, `LaneTraffic.TickedAt`. Only that vehicle's motion changes.
     */
    method TickVehicle(lane: Lane, vehicleIndex: nat)
      requires Valid() && lane in Lanes && vehicleIndex < |lane.vehicles|
      modifies Fleet`x, Fleet`speed, Fleet`acceleration
      ensures Valid() && unchanged(this, Lanes)
      ensures Snapshot() == TickedAt(old(Snapshot()), lane, vehicleIndex)
    {
      var vehicle := lane.vehicles[vehicleIndex];
      assert vehicle in lane.vehicles;
      assert vehicle in Fleet && OnLane(vehicle, lane);
      QueueOfLane(lane);
      CarsOfLane(lane);
      var leadVehicle := FindDistanceToLeadVehicle(vehicle.path, vehicle.currentLaneIndex, vehicleIndex);
      LeadAheadMatches(vehicle.path, vehicle.currentLaneIndex, vehicleIndex);
      var lead: Vehicle?<Lane> := if leadVehicle.None? then null else leadVehicle.value.leadVehicle;
      var distance := if leadVehicle.None? then None else Some(leadVehicle.value.distance);
      label before:
      vehicle.Tick(lead, distance);
      TickedSnapshot@before(vehicle, leadVehicle, lead, distance);
      MotionKeepsValid();
    }

    /**
     * `tickLaneVehicles`: a `forEach` over the lane's queue, which the transfer
     * shifts while it runs. The loop visits the indices below the initial length
     * and skips those past the current end, so after a shift the vehicle that
     * moved into the visited slot is not ticked in this step.
     */
    method TickLaneVehicles(lane: Lane)
      requires Settled().Some? && lane in Lanes
      modifies Lanes`vehicles, Fleet`x, Fleet`speed, Fleet`acceleration, Fleet`currentLaneIndex, this`removed
      ensures old(removed) <= removed
      ensures Settled() == Some(LanePass(old(Snapshot()), lane))
    {
      ghost var start, reported := Snapshot(), removed;
      QueueOfLane(lane);
      var n := |lane.vehicles|;
      for vehicleIndex: nat := 0 to n
        invariant reported <= removed
        invariant Settled() == Some(LaneSteps(start, lane, vehicleIndex))
      {
        ForEachStep(lane, vehicleIndex, start);
      }
    }

    /**
     * One iteration of the `forEach` in `tickLaneVehicles`: the callback runs
     * only while `vehicleIndex` is still inside the (possibly shifted) queue.
     */
    method ForEachStep(lane: Lane, vehicleIndex: nat, ghost start: Traffic)
      requires lane in Lanes && Settled() == Some(LaneSteps(start, lane, vehicleIndex))
      modifies Lanes`vehicles, Fleet`x, Fleet`speed, Fleet`acceleration, Fleet`currentLaneIndex, this`removed
      ensures old(removed) <= removed
      ensures Settled() == Some(LaneSteps(start, lane, vehicleIndex + 1))
    {
      QueueOfLane(lane);
      LaneStepsNext(start, lane, vehicleIndex);
      if vehicleIndex < |lane.vehicles| {
        StepVehicle(lane, vehicleIndex);
      }
    }

    /** Ticks the vehicles of each of `lanes` in turn. */
    method TickLanes(lanes: seq<Lane>)
      requires Settled().Some? && forall l :: l in lanes ==> l in Lanes
      modifies Lanes`vehicles, Fleet`x, Fleet`speed, Fleet`acceleration, Fleet`currentLaneIndex, this`removed
      ensures old(removed) <= removed
      ensures Settled() == Some(LanesPass(old(Snapshot()), lanes))
    {
      ghost var start, reported := Snapshot(), removed;
      for j := 0 to |lanes|
        invariant reported <= removed
        invariant Settled() == Some(LanesPass(start, lanes[..j]))
      {
        assert lanes[..j + 1][..j] == lanes[..j];
        TickLaneVehicles(lanes[j]);
      }
      assert lanes[..|lanes|] == lanes;
    }

    /**
     * `tick`: every lane of every road, then every connection lane of every node,
     * then one update of every traffic signal.
     */
    method Tick()
      requires Valid()
      modifies Lanes`vehicles, Fleet`x, Fleet`speed, Fleet`acceleration, Fleet`currentLaneIndex, this`removed
      modifies (set s | s in trafficSignals)`activeGroupIndex, (set s | s in trafficSignals)`currentCycleLength
      ensures Valid() && old(removed) <= removed
      ensures Snapshot() == LanesPass(old(Snapshot()), old(NetworkLanes()))
      ensures forall s :: s in trafficSignals ==> s.State() == old(s.State()).Updated(s.groupsCount)
    {
      TickNetwork();
      UpdateSignals();
    }

    /** The vehicle part of `tick`: the lanes of every road, then the connection lanes of every node. */
    method TickNetwork()
      requires Settled().Some?
      modifies Lanes`vehicles, Fleet`x, Fleet`speed, Fleet`acceleration, Fleet`currentLaneIndex, this`removed
      ensures old(removed) <= removed
      ensures Settled() == Some(LanesPass(old(Snapshot()), old(NetworkLanes())))
    {
      ghost var connections := ConnectionLanes(nodes);
      TickRoads();
      TickNodes();
      LanesPassAppend(old(Snapshot()), RoadLanes(roads), connections);
    }

    /** The first part of `tick`: the lanes of every road, road by road. */
    method TickRoads()
      requires Settled().Some?
      modifies Lanes`vehicles, Fleet`x, Fleet`speed, Fleet`acceleration, Fleet`currentLaneIndex, this`removed
      ensures old(removed) <= removed
      ensures Settled() == Some(LanesPass(old(Snapshot()), RoadLanes(roads)))
    {
      ghost var start, reported := Snapshot(), removed;
      var allRoads := roads;
      for i := 0 to |allRoads|
        invariant reported <= removed
        invariant Settled() == Some(LanesPass(start, RoadLanes(allRoads[..i])))
      {
        var lanes := allRoads[i].lanes;
        assert allRoads[i] in roads && forall l :: l in lanes ==> l in Lanes;
        RoadLanesSnoc(allRoads, i);
        LanesPassAppend(start, RoadLanes(allRoads[..i]), lanes);
        TickLanes(lanes);
      }
      assert allRoads[..|allRoads|] == allRoads;
    }

    /** The second part of `tick`: the connection lanes of every node, node by node. */
    method TickNodes()
      requires Settled().Some?
      modifies Lanes`vehicles, Fleet`x, Fleet`speed, Fleet`acceleration, Fleet`currentLaneIndex, this`removed
      ensures old(removed) <= removed
      ensures Settled() == Some(LanesPass(old(Snapshot()), old(ConnectionLanes(nodes))))
    {
      var groups := ConnectionGroups(nodes);
      ConnectionLanesFlatten(nodes);
      assert forall k, l :: 0 <= k < |groups| && l in groups[k] ==> l in Lanes by {
        forall k, l | 0 <= k < |groups| && l in groups[k] ensures l in Lanes {
          assert nodes[k] in nodes;
        }
      }
      TickGroups(groups);
    }

    /** Ticks the lanes of each of `groups` in turn, group by group. */
    method TickGroups(groups: seq<seq<Lane>>)
      requires Settled().Some? && forall k, l :: 0 <= k < |groups| && l in groups[k] ==> l in Lanes
      modifies Lanes`vehicles, Fleet`x, Fleet`speed, Fleet`acceleration, Fleet`currentLaneIndex, this`removed
      ensures old(removed) <= removed
      ensures Settled() == Some(LanesPass(old(Snapshot()), Flatten(groups)))
    {
      ghost var start, reported := Snapshot(), removed;
      for i := 0 to |groups|
        invariant reported <= removed
        invariant Settled() == Some(LanesPass(start, Flatten(groups[..i])))
      {
        FlattenSnoc(groups, i);
        LanesPassAppend(start, Flatten(groups[..i]), groups[i]);
        TickLanes(groups[i]);
      }
      assert groups[..|groups|] == groups;
    }

    /** The last part of `tick`: one `update` of every traffic signal. */
    method UpdateSignals()
      requires Distinct(trafficSignals)
      modifies (set s | s in trafficSignals)`activeGroupIndex, (set s | s in trafficSignals)`currentCycleLength
      ensures forall s :: s in trafficSignals ==> s.State() == old(s.State()).Updated(s.groupsCount)
      ensures Settled() == old(Settled())
    {
      var i := 0;
      while i < |trafficSignals|
        invariant 0 <= i <= |trafficSignals|
        invariant forall k :: 0 <= k < i ==>
          trafficSignals[k].State() == old(trafficSignals[k].State()).Updated(trafficSignals[k].groupsCount)
        invariant forall k :: i <= k < |trafficSignals| ==> trafficSignals[k].State() == old(trafficSignals[k].State())
      {
        assert trafficSignals[i] in trafficSignals;
        trafficSignals[i].Update();
        i := i + 1;
      }
    }

    /**
     * `findFirstVehicle`: walks the path from `currentLaneIndex`, adding up the
     * lengths of the empty lanes it passes, and stops at the first lane holding
     * a vehicle.
     */
    method FindFirstVehicle(path: seq<Lane>, currentLaneIndex: nat) returns (r: Option<FirstFound>)
      ensures r == FirstVehicle(path, currentLaneIndex)
    {
      var distanceToVehicle := 0.0;
      var k := currentLaneIndex;
      while k < |path|
        invariant currentLaneIndex <= k || k >= |path|
        invariant FirstVehicle(path, currentLaneIndex) == Shifted(FirstVehicle(path, k), distanceToVehicle)
        decreases |path| - k
      {
        var lane := path[k];
        assert lane in path;
        if |lane.vehicles| > 0 {
          var firstVehicle := lane.vehicles[|lane.vehicles| - 1];
          return Some(FirstFound(lane, firstVehicle, distanceToVehicle + firstVehicle.x));
        }
        distanceToVehicle := distanceToVehicle + lane.length;
        k := k + 1;
      }
      return None;
    }

    /** The lanes of every road, then the connection lanes of every road node. */
    function NetworkLanes(): (lanes: seq<Lane>)
      reads this`roads, this`nodes, (set n | n in nodes)`connectionLanes
    {
      RoadLanes(roads) + ConnectionLanes(nodes)
    }

    /** `lanesFrom`: every lane leaving `node`, road lanes first, then connection lanes. */
    function LanesFrom(node: LaneNode?): (lanes: seq<Lane>)
      reads this`roads, this`nodes, (set n | n in nodes)`connectionLanes
      ensures forall l :: l in lanes ==>
        && l.source == node
        && ((exists road :: road in roads && l in road.lanes) || (exists n :: n in nodes && l in n.connectionLanes))
      ensures forall road, l :: road in roads && l in road.lanes && l.source == node ==> l in lanes
      ensures forall n, l :: n in nodes && l in n.connectionLanes && l.source == node ==> l in lanes
    {
      RoadLanesFrom(roads, node) + ConnectionLanesFrom(nodes, node)
    }

    /** The lanes leaving `node` are those of the network lanes, in the same order. */
    lemma LanesFromIsFilter(node: LaneNode?)
      ensures LanesFrom(node) == StartingAt(NetworkLanes(), node)
    {
      RoadLanesFromIsFilter(roads, node);
      ConnectionLanesFromIsFilter(nodes, node);
      StartingAtAppend(RoadLanes(roads), ConnectionLanes(nodes), node);
    }

    /**
     * `findOrCreateNodeAt`: the first node near `coordinates`, or a new node
     * there, added to the node list.
     */
    method FindOrCreateNodeAt(coordinates: Point, thresholdDistance: real, distance: (Point, Point) -> real)
      returns (node: RoadNode)
      requires Valid()
      modifies this`nodes
      ensures Valid() && node in nodes
      ensures var found := FindNodeAt(old(nodes), coordinates, thresholdDistance, distance);
        if found != null then node == found && nodes == old(nodes)
        else && fresh(node) && nodes == old(nodes) + [node]
             && node.x == coordinates.x && node.y == coordinates.y && node.size == 0.0
             && node.outgoingRoads == [] && node.incomingRoads == [] && node.connectionLanes == []
    {
      var found := FindNodeAt(nodes, coordinates, thresholdDistance, distance);
      if found != null {
        assert found in nodes;
        return found;
      }
      node := new RoadNode(coordinates.x, coordinates.y);
      nodes := nodes + [node];
    }

    /**
     * `findPath`: the search of `SearchLanes` (a path is found iff one exists;
     * that it is shortest is not proved) between a lane node of `source` and
     * one of `target`, both drawn among the nodes' outgoing lane nodes, over
     * the lanes of the network (see `SearchLanes`).
     */
    method FindPath(source: RoadNode, target: RoadNode, startPick: nat, endPick: nat) returns (path: Option<seq<Lane>>)
      requires source.RoadsWellFormed() && target.RoadsWellFormed()
      ensures var start, end := old(PickLaneNode(source, startPick)), old(PickLaneNode(target, endPick));
        && (start == end ==> path == Some([]))
        && (path.Some? ==> Routes(path.value, start, end))
      ensures path.Some? ==> forall l :: l in path.value ==> l in old(NetworkLanes())
      ensures path.Some? <==> old(ReachableBetween(source, target, startPick, endPick))
    {
      var startLaneNode := PickLaneNode(source, startPick);
      var endLaneNode := PickLaneNode(target, endPick);
      path := SearchLanes(NetworkLanes(), startLaneNode, endLaneNode);
    }

    /** Some chain of network lanes leads from the lane node drawn at `source` to the one drawn at `target`. */
    ghost predicate ReachableBetween(source: RoadNode, target: RoadNode, startPick: nat, endPick: nat)
      reads this`roads, this`nodes, (set n | n in nodes)`connectionLanes
      reads source`outgoingRoads, source`incomingRoads, source.outgoingRoads, source.incomingRoads
      reads target`outgoingRoads, target`incomingRoads, target.outgoingRoads, target.incomingRoads
    {
      && source.RoadsWellFormed() && target.RoadsWellFormed()
      && Reachable(NetworkLanes(), PickLaneNode(source, startPick), PickLaneNode(target, endPick))
    }

    /** Every road node's roads are roads of the engine, each with its lanes. */
    lemma NodesWellFormed()
      requires Structure()
      ensures forall n :: n in nodes ==> n.RoadsWellFormed()
    {
      forall n | n in nodes
        ensures n.RoadsWellFormed()
      {
        assert forall r :: r in n.outgoingRoads ==> r in roads;
        assert forall r :: r in n.incomingRoads ==> r in roads;
      }
    }

    /** The lanes of the network are lanes the engine knows. */
    lemma {:induction false} NetworkLanesKnown()
      requires Structure()
      ensures forall l :: l in NetworkLanes() ==> l in Lanes
    {
      forall l | l in NetworkLanes()
        ensures l in Lanes
      {
        if l in RoadLanes(roads) {
          var road :| road in roads && l in road.lanes;
        } else {
          var n :| n in nodes && l in n.connectionLanes;
        }
      }
    }

    /**
     * `addVehicle`: the endpoints are `sourceNode` (or a node drawn with
     * `sourcePick`) and a node drawn with `targetPick`; when they differ and
     * `findPath` gives a non-empty path whose start is clear, a new vehicle
     * (built from the two draws) takes that path, joins the back of its first
     * lane and is reported added. Otherwise nothing changes and the result is
     * `null`. `route` is the path `findPath` gave, when it was asked.
     */
    method AddVehicle(sourceNode: RoadNode?, sourcePick: nat, targetPick: nat, startPick: nat, endPick: nat,
                      lengthDraw: real, speedDraw: real)
      returns (v: Vehicle?<Lane>, ghost route: Option<seq<Lane>>)
      requires Valid()
      requires sourceNode != null ==> sourceNode.RoadsWellFormed() && |nodes| > 0
      requires 0.0 <= lengthDraw < 1.0 && 0.0 <= speedDraw < 1.0
      modifies Lanes`vehicles, this`added, this`Fleet
      ensures route.Some? ==> forall l :: l in route.value ==> l in Lanes
      ensures v != null <==> route.Some? && |route.value| > 0 && WasClear(route.value, lengthDraw)
      ensures v != null ==> route.Some? && Spawned(v, route.value, lengthDraw, speedDraw)
      ensures v == null ==> added == old(added) && Fleet == old(Fleet) && unchanged(Lanes`vehicles)
      ensures var source, target := Endpoint(sourceNode, nodes, sourcePick), Endpoint(null, nodes, targetPick);
        && (source == target ==> route.None?)
        && (route.Some? ==> source != null && target != null && WasRoutedBetween(route.value, source, target, startPick, endPick))
        && (route.Some? <==> source != target && source != null && target != null
                             && old(ReachableBetween(source, target, startPick, endPick)))
      ensures Valid()
    {
      var path := FindRoute(sourceNode, sourcePick, targetPick, startPick, endPick);
      route := path;
      v := null;
      if path.Some? {
        v := SpawnOnPath(path.value, lengthDraw, speedDraw);
      }
    }

    /**
     * The first half of `addVehicle`: the endpoints, and `findPath` between them
     * when they differ. Nothing changes.
     */
    method FindRoute(sourceNode: RoadNode?, sourcePick: nat, targetPick: nat, startPick: nat, endPick: nat)
      returns (route: Option<seq<Lane>>)
      requires Valid()
      requires sourceNode != null ==> sourceNode.RoadsWellFormed() && |nodes| > 0
      ensures route.Some? ==> forall i :: 0 <= i < |route.value| ==> route.value[i] in old(Lanes)
      ensures route.Some? ==> Unmoved(route.value)
      ensures Valid() && unchanged(Lanes`vehicles)
      ensures var source, target := Endpoint(sourceNode, nodes, sourcePick), Endpoint(null, nodes, targetPick);
        && (source == target ==> route.None?)
        && (route.Some? ==> source != null && target != null && WasRoutedBetween(route.value, source, target, startPick, endPick))
        && (route.Some? <==> source != target && source != null && target != null
                             && old(ReachableBetween(source, target, startPick, endPick)))
    {
      var source := Endpoint(sourceNode, nodes, sourcePick);
      var target := Endpoint(null, nodes, targetPick);
      route := None;
      if source != target {
        NodesWellFormed();
        NetworkLanesKnown();
        route := FindPath(source, target, startPick, endPick);
        if route.Some? {
          var p := route.value;
          assert forall i :: 0 <= i < |p| ==> p[i] in old(Lanes);
          assert old(allocated(p));
          FirstVehicleUnmoved(PathAt(p, 0));
        }
      }
      ValidKept();
    }

    /** `path` existed before and the first vehicle ahead on it is where it was. */
    twostate predicate Unmoved(new path: seq<Lane>)
      reads PathFootprint(path)
    {
      old(allocated(path)) && FirstVehicle(path, 0) == old(FirstVehicle(path, 0))
    }

    /** Before the spawn, `path` led from a lane node drawn at `source` to one drawn at `target`. */
    twostate predicate WasRoutedBetween(new path: seq<Lane>, source: RoadNode, target: RoadNode, startPick: nat, endPick: nat) {
      old(allocated(path)) && old(RoutesBetween(path, source, target, startPick, endPick))
    }

    /** Before the spawn, the start of `path` was clear for a vehicle drawn with `lengthDraw`. */
    twostate predicate WasClear(new path: seq<Lane>, lengthDraw: real)
      requires 0.0 <= lengthDraw < 1.0
    {
      old(allocated(path)) && old(Clear(FirstVehicle(path, 0), InitialLength(lengthDraw)))
    }

    /** What a successful `addVehicle` leaves: the new vehicle at the back of the first lane of `path`, reported added. */
    twostate predicate Spawned(new v: Vehicle<Lane>, new path: seq<Lane>, lengthDraw: real, speedDraw: real)
      requires 0.0 <= lengthDraw < 1.0 && 0.0 <= speedDraw < 1.0
      reads this, Lanes, v
    {
      && fresh(v) && |path| > 0 && v.path == path && v.currentLaneIndex == 0 && v.State() == Motion(0.0, 0.0, 0.0)
      && v.length == InitialLength(lengthDraw) && v.maxSpeed == InitialMaxSpeed(speedDraw) as real
      && added == old(added) + [v] && Fleet == old(Fleet) + {v} && Lanes == old(Lanes)
      && path[0] in old(Lanes) && path[0].vehicles == old(path[0].vehicles) + [v]
      && forall l :: l in Lanes && l != path[0] ==> l.vehicles == old(l.vehicles)
    }

    /**
     * The spawn of `addVehicle` once a path is found: a vehicle is created and,
     * when the path is non-empty and its start is clear, put on it.
     */
    method SpawnOnPath(path: seq<Lane>, lengthDraw: real, speedDraw: real) returns (v: Vehicle?<Lane>)
      requires Valid() && forall l :: l in path ==> l in Lanes
      requires 0.0 <= lengthDraw < 1.0 && 0.0 <= speedDraw < 1.0
      modifies Lanes`vehicles, this`added, this`Fleet
      ensures Valid()
      ensures v != null <==> |path| > 0 && WasClear(path, lengthDraw)
      ensures v != null ==> Spawned(v, path, lengthDraw, speedDraw)
      ensures v == null ==> added == old(added) && Fleet == old(Fleet) && unchanged(Lanes`vehicles)
    {
      if |path| == 0 {
        return null;
      }
      var vehicle := new Vehicle(lengthDraw, speedDraw, accelerationRoot);
      var firstVehicle := FindFirstVehicle(path, 0);
      assert old(allocated(path)) by {
        assert forall i :: 0 <= i < |path| ==> path[i] in old(Lanes);
      }
      FirstVehicleUnmoved(PathAt(path, 0));
      ValidKept();
      if firstVehicle.None?
         || vehicle.length / 2.0 < firstVehicle.value.distanceToVehicle - firstVehicle.value.vehicle.length / 2.0 {
        Spawn(vehicle, path, path[0]);
        return vehicle;
      }
      return null;
    }

    /**
     * `v.path = path`, `startingLane.vehicles.push(v)` and `onVehicleAdded(v)`
     * for a new vehicle at the start of `path`.
     */
    method Spawn(v: Vehicle<Lane>, path: seq<Lane>, startingLane: Lane)
      requires Valid() && |path| > 0 && path[0] == startingLane && forall l :: l in path ==> l in Lanes
      requires v !in Fleet && v.Valid() && v.currentLaneIndex == 0
      modifies v`path, startingLane`vehicles, this`added, this`Fleet
      ensures Valid() && v.path == path
      ensures startingLane.vehicles == old(startingLane.vehicles) + [v] && added == old(added) + [v] && Fleet == old(Fleet) + {v}
    {
      assert startingLane in path;
      assert v !in startingLane.vehicles;
      DistinctSnoc(startingLane.vehicles, v);
      DistinctSnoc(added, v);
      v.path := path;
      startingLane.vehicles := startingLane.vehicles + [v];
      added := added + [v];
      Fleet := Fleet + {v};
      SpawnKeepsInvariant(v);
    }

    /**
     * The state change of a spawn: `v`, new to the engine and at the start of
     * its path, joins the back of its first lane and the vehicles added. No
     * other queue, path or lane index changes.
     */
    twostate predicate Joined(v: Vehicle<Lane>)
      reads this, Lanes, Fleet, v
    {
      && Lanes == old(Lanes) && Fleet == old(Fleet) + {v} && added == old(added) + [v] && removed == old(removed)
      && v !in old(Fleet) && v.Valid() && v.currentLaneIndex == 0 && |v.path| > 0
      && (forall l :: l in v.path ==> l in Lanes)
      && (forall u :: u in old(Fleet) ==> u.path == old(u.path) && u.currentLaneIndex == old(u.currentLaneIndex))
      && (forall l :: l in Lanes ==> l.vehicles == old(l.vehicles) + (if l == v.path[0] then [v] else []))
    }

    /** A spawn keeps every queue distinct, every queued vehicle on its lane and every added vehicle placed. */
    twostate lemma {:induction false} SpawnKeepsInvariant(v: Vehicle<Lane>)
      requires old(Queues()) && old(Places()) && Joined(v)
      ensures Queues() && Places()
    {
      assert v !in old(added);
      DistinctSnoc(old(added), v);
      forall l | l in Lanes
        ensures Distinct(l.vehicles)
      {
        if l == v.path[0] {
          assert v !in old(l.vehicles);
          DistinctSnoc(old(l.vehicles), v);
        }
      }
      assert v.path[0] in v.path;
    }

    /**
     * `addTrafficSignals`: one new signal with a group per entry of
     * `roadGroups`; each road listed in a group gets the signal and that group.
     * A road listed in several groups keeps the last one; unlisted roads keep
     * what they had.
     */
    method AddTrafficSignals(roadGroups: seq<seq<int>>)
      requires Valid()
      requires forall g, i :: 0 <= g < |roadGroups| && i in roadGroups[g] ==> 0 <= i < |roads|
      modifies this`trafficSignals, (set r | r in roads)`trafficSignal, (set r | r in roads)`trafficSignalGroupIndex
      ensures Valid()
      ensures |trafficSignals| == |old(trafficSignals)| + 1 && trafficSignals[..|old(trafficSignals)|] == old(trafficSignals)
      ensures var signal := Last(trafficSignals);
        && fresh(signal) && signal.groupsCount == |roadGroups| && signal.State() == Fresh
        && forall i :: 0 <= i < |roads| ==>
             WiredAs(roads[i], signal, LastGroupOf(roadGroups, i),
                     old(roads[i].trafficSignal), old(roads[i].trafficSignalGroupIndex))
    {
      var signal := new TrafficSignal(|roadGroups|);
      WireGroups(signal, roadGroups);
      PushSignal(signal);
    }

    /** `this.trafficSignals.push(signal)` for a signal not yet listed. */
    method PushSignal(signal: TrafficSignal)
      requires Valid() && signal !in trafficSignals
      modifies this`trafficSignals
      ensures Valid() && trafficSignals == old(trafficSignals) + [signal]
    {
      trafficSignals := trafficSignals + [signal];
      assert forall s :: s in trafficSignals ==> s == signal || s in old(trafficSignals);
    }

    /** The outer `forEach` of `addTrafficSignals`: the groups wired one after another, so the last listing wins. */
    method WireGroups(signal: TrafficSignal, roadGroups: seq<seq<int>>)
      requires Distinct(roads)
      requires forall g, i :: 0 <= g < |roadGroups| && i in roadGroups[g] ==> 0 <= i < |roads|
      modifies (set r | r in roads)`trafficSignal, (set r | r in roads)`trafficSignalGroupIndex
      ensures forall i :: 0 <= i < |roads| ==>
        WiredAs(roads[i], signal, LastGroupOf(roadGroups, i), old(roads[i].trafficSignal), old(roads[i].trafficSignalGroupIndex))
    {
      var groupIndex := 0;
      while groupIndex < |roadGroups|
        invariant 0 <= groupIndex <= |roadGroups|
        invariant forall i :: 0 <= i < |roads| ==>
          WiredAs(roads[i], signal, LastGroupOf(roadGroups[..groupIndex], i),
                  old(roads[i].trafficSignal), old(roads[i].trafficSignalGroupIndex))
      {
        ghost var before := roadGroups[..groupIndex];
        WireGroup(signal, roadGroups[groupIndex], groupIndex);
        assert roadGroups[..groupIndex + 1][..groupIndex] == before;
        groupIndex := groupIndex + 1;
      }
      assert roadGroups[..groupIndex] == roadGroups;
    }

    /** The inner `forEach` of `addTrafficSignals`: every road listed in one group gets the signal and the group. */
    method WireGroup(signal: TrafficSignal, roadGroup: seq<int>, groupIndex: nat)
      requires Distinct(roads) && forall i :: i in roadGroup ==> 0 <= i < |roads|
      modifies (set r | r in roads)`trafficSignal, (set r | r in roads)`trafficSignalGroupIndex
      ensures forall i :: 0 <= i < |roads| ==>
        WiredAs(roads[i], signal, if i in roadGroup then Some(groupIndex) else None,
                old(roads[i].trafficSignal), old(roads[i].trafficSignalGroupIndex))
    {
      var k := 0;
      while k < |roadGroup|
        invariant 0 <= k <= |roadGroup|
        invariant forall i :: 0 <= i < |roads| ==>
          WiredAs(roads[i], signal, if i in roadGroup[..k] then Some(groupIndex) else None,
                  old(roads[i].trafficSignal), old(roads[i].trafficSignalGroupIndex))
      {
        var roadIndex := roadGroup[k];
        assert roadIndex in roadGroup;
        var road := roads[roadIndex];
        road.SetTrafficSignal(signal, groupIndex);
        assert roadGroup[..k + 1] == roadGroup[..k] + [roadIndex];
        k := k + 1;
      }
      assert roadGroup[..k] == roadGroup;
    }

    /**
     * `addRoad` for a straight road (no control point): the road nodes nearest
     * `source` and `target` (within 10) are found or created, a road of
     * `roadType` joins them and is listed, both nodes learn of it, each lane
     * definition gives two new lane nodes and a lane, and the connection lanes
     * of the source node, then of the target node, are rebuilt from scratch.
     * Curve lengths and the road's width are given: `roadLength`, `width`,
     * `laneLength` and `connectionLength` stand for the curves' measures.
     */
    method AddRoad(source: Point, target: Point, roadType: RoadType, width: real, roadLength: real,
                   distance: (Point, Point) -> real, laneLength: (LaneNode, LaneNode) -> real,
                   connectionLength: (LaneNode, LaneNode) -> real)
      returns (road: Road)
      requires Valid()
      modifies this`nodes, this`roads, this`laneNodes, this`Lanes
      modifies (set n | n in nodes)`outgoingRoads, (set n | n in nodes)`incomingRoads
      modifies (set n | n in nodes)`size, (set n | n in nodes)`connectionLanes
      ensures Valid() && fresh(road)
      ensures roads == old(roads) + [road]
      ensures road.roadType == roadType && road.width == width && road.length == roadLength
      ensures Located(old(nodes), source, road.source, distance)
      ensures Located(Locating(old(nodes), road.source), target, road.target, distance)
      ensures nodes == Locating(Locating(old(nodes), road.source), road.target)
      ensures old(laneNodes) <= laneNodes && LanesBuilt(road, laneNodes[|old(laneNodes)|..], laneLength)
      ensures Built(road, laneNodes[|old(laneNodes)|..])
      ensures forall l :: l in road.lanes ==> l.vehicles == []
      ensures road in road.source.outgoingRoads && road in road.target.incomingRoads
      ensures road.source.RoadsWellFormed() && road.target.RoadsWellFormed()
      ensures forall l :: l in road.source.connectionLanes || l in road.target.connectionLanes ==> fresh(l)
      ensures LinksOf(road.source.connectionLanes)
        == Connect(Pairs(road.source.IncomingLanes(), road.source.OutgoingLanes()), {}, true)
      ensures LinksOf(road.target.connectionLanes)
        == Connect(Pairs(road.target.IncomingLanes(), road.target.OutgoingLanes()),
                   if road.source == road.target then {} else LinkSet(road.source.connectionLanes),
                   road.source == road.target)
      ensures forall n :: n in old(nodes) && n != road.source && n != road.target ==>
        n.connectionLanes == old(n.connectionLanes) && n.outgoingRoads == old(n.outgoingRoads)
        && n.incomingRoads == old(n.incomingRoads) && n.size == old(n.size)
    {
      var sourceNode, targetNode := LocateEnds(source, target, distance);
      road := JoinNodes(sourceNode, targetNode, roadType, width, roadLength, laneLength, connectionLength);
    }

    /** The two `findOrCreateNodeAt` calls of `addRoad`, source first. */
    method LocateEnds(source: Point, target: Point, distance: (Point, Point) -> real)
      returns (sourceNode: RoadNode, targetNode: RoadNode)
      requires Valid()
      modifies this`nodes
      ensures Valid() && sourceNode in nodes && targetNode in nodes
      ensures Located(old(nodes), source, sourceNode, distance)
      ensures Located(Locating(old(nodes), sourceNode), target, targetNode, distance)
      ensures nodes == Locating(Locating(old(nodes), sourceNode), targetNode)
      ensures forall n :: n in old(nodes) ==>
        (n in nodes && n.connectionLanes == old(n.connectionLanes) && n.outgoingRoads == old(n.outgoingRoads)
         && n.incomingRoads == old(n.incomingRoads) && n.size == old(n.size))
      ensures roads == old(roads) && laneNodes == old(laneNodes)
      ensures forall n :: n in nodes && n !in old(nodes) ==>
        (fresh(n) && n.outgoingRoads == [] && n.incomingRoads == [] && n.connectionLanes == [] && n.size == 0.0)
    {
      sourceNode := FindOrCreateNodeAt(source, 10.0, distance);
      targetNode := FindOrCreateNodeAt(target, 10.0, distance);
    }

    /**
     * The rest of `addRoad` once both nodes are listed: the road and its lanes
     * (`CreateRoad`), then the connection lanes of both nodes (`RebuildConnections`).
     */
    method JoinNodes(sourceNode: RoadNode, targetNode: RoadNode, roadType: RoadType, width: real, roadLength: real,
                     laneLength: (LaneNode, LaneNode) -> real, connectionLength: (LaneNode, LaneNode) -> real)
      returns (road: Road)
      requires Valid() && sourceNode in nodes && targetNode in nodes
      modifies this`roads, this`laneNodes, this`Lanes
      modifies sourceNode`outgoingRoads, sourceNode`incomingRoads, sourceNode`size, sourceNode`connectionLanes
      modifies targetNode`outgoingRoads, targetNode`incomingRoads, targetNode`size, targetNode`connectionLanes
      ensures Valid() && fresh(road) && roads == old(roads) + [road]
      ensures road.source == sourceNode && road.target == targetNode
      ensures road.roadType == roadType && road.width == width && road.length == roadLength
      ensures old(laneNodes) <= laneNodes && LanesBuilt(road, laneNodes[|old(laneNodes)|..], laneLength)
      ensures Built(road, laneNodes[|old(laneNodes)|..])
      ensures forall l :: l in road.lanes ==> l.vehicles == []
      ensures road in sourceNode.outgoingRoads && road in targetNode.incomingRoads
      ensures sourceNode.RoadsWellFormed() && targetNode.RoadsWellFormed()
      ensures forall l :: l in sourceNode.connectionLanes || l in targetNode.connectionLanes ==> fresh(l)
      ensures LinksOf(sourceNode.connectionLanes)
        == Connect(Pairs(sourceNode.IncomingLanes(), sourceNode.OutgoingLanes()), {}, true)
      ensures LinksOf(targetNode.connectionLanes)
        == Connect(Pairs(targetNode.IncomingLanes(), targetNode.OutgoingLanes()),
                   if sourceNode == targetNode then {} else LinkSet(sourceNode.connectionLanes),
                   sourceNode == targetNode)
      ensures nodes == old(nodes)
      ensures forall n :: n in nodes && n != sourceNode && n != targetNode ==>
        n.connectionLanes == old(n.connectionLanes) && n.outgoingRoads == old(n.outgoingRoads)
        && n.incomingRoads == old(n.incomingRoads) && n.size == old(n.size)
    {
      road := CreateRoad(sourceNode, targetNode, roadType, width, roadLength, laneLength);
      RebuildConnections(sourceNode, targetNode, connectionLength);
    }

    /**
     * The road of `addRoad` between two listed nodes: built with its lanes,
     * listed, and added to both nodes (`RoadNode.AddRoad`).
     */
    method CreateRoad(sourceNode: RoadNode, targetNode: RoadNode, roadType: RoadType, width: real, roadLength: real,
                      laneLength: (LaneNode, LaneNode) -> real)
      returns (road: Road)
      requires Valid() && sourceNode in nodes && targetNode in nodes
      modifies this`roads, this`laneNodes, this`Lanes
      modifies sourceNode`outgoingRoads, sourceNode`incomingRoads, sourceNode`size
      modifies targetNode`outgoingRoads, targetNode`incomingRoads, targetNode`size
      ensures Valid() && fresh(road) && roads == old(roads) + [road]
      ensures road.source == sourceNode && road.target == targetNode
      ensures road.roadType == roadType && road.width == width && road.length == roadLength
      ensures old(laneNodes) <= laneNodes && LanesBuilt(road, laneNodes[|old(laneNodes)|..], laneLength)
      ensures Built(road, laneNodes[|old(laneNodes)|..])
      ensures forall l :: l in road.lanes ==> l.vehicles == []
      ensures sourceNode.outgoingRoads == old(sourceNode.outgoingRoads) + [road]
      ensures targetNode.incomingRoads == old(targetNode.incomingRoads) + [road]
      ensures sourceNode.incomingRoads == old(sourceNode.incomingRoads) + if sourceNode == targetNode then [road] else []
      ensures targetNode.outgoingRoads == old(targetNode.outgoingRoads) + if sourceNode == targetNode then [road] else []
      ensures sourceNode.size == Max(old(sourceNode.size), width) && targetNode.size == Max(old(targetNode.size), width)
    {
      var lanes, built := BuildLanes(sourceNode, targetNode, roadType, laneLength);
      road := new Road(sourceNode, targetNode, roadType, width, roadLength, lanes);
      PushRoad(road, built);
      assert laneNodes[|old(laneNodes)|..] == built;
      assert Built(road, built) && LanesBuilt(road, built, laneLength);
      AttachRoad(sourceNode, road);
      AttachRoad(targetNode, road);
    }

    /** `node.addRoad(road)` for a listed node and a listed road. */
    method AttachRoad(node: RoadNode, road: Road)
      requires Valid() && node in nodes && road in roads
      modifies node`outgoingRoads, node`incomingRoads, node`size
      ensures Valid()
      ensures node.outgoingRoads == if road.source == node && road !in old(node.outgoingRoads)
        then old(node.outgoingRoads) + [road] else old(node.outgoingRoads)
      ensures node.incomingRoads == if road.target == node && road !in old(node.incomingRoads)
        then old(node.incomingRoads) + [road] else old(node.incomingRoads)
      ensures node.size == Max(old(node.size), road.width)
    {
      node.AddRoad(road);
    }

    /** `this.roads.push(road)` and the pushes to `laneNodes`, for a road with all its lanes, all empty. */
    method PushRoad(road: Road, built: seq<LaneNode>)
      requires Valid() && road !in roads && |road.lanes| == |road.roadType.lanes|
      requires forall l :: l in road.lanes ==> l.vehicles == []
      modifies this`roads, this`laneNodes, this`Lanes
      ensures Valid() && roads == old(roads) + [road] && laneNodes == old(laneNodes) + built
      ensures Lanes == old(Lanes) + set l | l in road.lanes
    {
      roads := roads + [road];
      laneNodes := laneNodes + built;
      Lanes := Lanes + set l | l in road.lanes;
      assert forall r :: r in roads ==> r == road || r in old(roads);
    }

    /**
     * The end of `addRoad` (see `Rebuild`): the connection lanes of both
     * nodes are rebuilt, and the new lanes are lanes of the engine from then on.
     */
    method RebuildConnections(sourceNode: RoadNode, targetNode: RoadNode, connectionLength: (LaneNode, LaneNode) -> real)
      requires Valid() && sourceNode in nodes && targetNode in nodes
      modifies sourceNode`connectionLanes, targetNode`connectionLanes, this`Lanes
      ensures Valid() && sourceNode.RoadsWellFormed() && targetNode.RoadsWellFormed()
      ensures forall l :: l in sourceNode.connectionLanes || l in targetNode.connectionLanes ==> fresh(l)
      ensures LinksOf(sourceNode.connectionLanes)
        == Connect(Pairs(sourceNode.IncomingLanes(), sourceNode.OutgoingLanes()), {}, true)
      ensures LinksOf(targetNode.connectionLanes)
        == Connect(Pairs(targetNode.IncomingLanes(), targetNode.OutgoingLanes()),
                   if sourceNode == targetNode then {} else LinkSet(sourceNode.connectionLanes),
                   sourceNode == targetNode)
    {
      NodesWellFormed();
      Rebuild(sourceNode, targetNode, connectionLength);
      Admit(sourceNode, targetNode);
    }

    /**
     * The new connection lanes of `sourceNode` and `targetNode`, all empty,
     * become lanes of the engine; every other node's connection lanes already are.
     */
    ghost method Admit(sourceNode: RoadNode, targetNode: RoadNode)
      requires Skeleton() && Queues() && Places()
      requires accelerationRoot > 0.0 && accelerationRoot * accelerationRoot == MAX_ACCELERATION * MAX_DECELERATION
      requires forall n :: n in nodes && n != sourceNode && n != targetNode ==> forall l :: l in n.connectionLanes ==> l in Lanes
      requires forall l :: l in sourceNode.connectionLanes ==> l.vehicles == []
      requires forall l :: l in targetNode.connectionLanes ==> l.vehicles == []
      modifies this`Lanes
      ensures Valid() && Lanes == old(Lanes) + (set l | l in sourceNode.connectionLanes) + (set l | l in targetNode.connectionLanes)
    {
      Lanes := Lanes + (set l | l in sourceNode.connectionLanes) + (set l | l in targetNode.connectionLanes);
    }

    /**
     * The state change of one transfer of `t.vehicle`, the front vehicle of
     * `t.lane`: it leaves the front of that lane, its lane index advances by
     * one, and it joins the back of the next lane of its path or, when its path
     * is done, is reported removed. No other vehicle's place and no path changes.
     */
    twostate predicate Transferred(t: Transfer)
      reads this, Lanes, Fleet, t.vehicle
    {
      var lane, v := t.lane, t.vehicle;
      && Lanes == old(Lanes) && Fleet == old(Fleet) && added == old(added)
      && lane in Lanes && |old(lane.vehicles)| > 0 && v == old(lane.vehicles[0])
      && (forall u :: u in Fleet ==> u.path == old(u.path))
      && (forall u :: u in Fleet && u != v ==> u.currentLaneIndex == old(u.currentLaneIndex))
      && v.currentLaneIndex == old(v.currentLaneIndex) + 1
      && (forall l :: l in Lanes ==>
            l.vehicles == (if l == lane then old(lane.vehicles)[1..] else old(l.vehicles))
                          + (if 0 <= v.currentLaneIndex < |v.path| && l == v.path[v.currentLaneIndex] then [v] else []))
      && removed == old(removed) + (if v.currentLaneIndex < |v.path| then [] else [v])
    }

    /**
     * When no lane of a path and no rearmost vehicle on it changed, the first
     * vehicle ahead is found at the same place.
     */
    twostate lemma {:induction false} FirstVehicleUnmoved(a: PathAt)
      requires forall i :: 0 <= i < |a.path| ==> unchanged(a.path[i])
      requires forall i :: 0 <= i < |a.path| && |a.path[i].vehicles| > 0 ==> unchanged(Last(a.path[i].vehicles))
      ensures FirstVehicle(a.path, a.from) == old(FirstVehicle(a.path, a.from))
      decreases |a.path| - a.from
    {
      if a.from < |a.path| && |a.path[a.from].vehicles| == 0 {
        FirstVehicleUnmoved(PathAt(a.path, a.from + 1));
      }
    }

    /** The invariant holds again when nothing it reads has changed. */
    twostate lemma ValidKept()
      requires old(Valid()) && unchanged(this)
      requires forall r :: r in old(roads) ==> unchanged(r)
      requires forall n :: n in old(nodes) ==> unchanged(n)
      requires forall l :: l in old(Lanes) ==> unchanged(l)
      requires forall v :: v in old(Fleet) ==> unchanged(v)
      ensures Valid()
    {
    }

    /** The invariant does not read motions: a change of motion alone keeps it. */
    twostate lemma MotionKeepsValid()
      requires old(Valid()) && unchanged(this)
      requires forall n :: n in old(nodes) ==> unchanged(n)
      requires forall l :: l in old(Lanes) ==> unchanged(l)
      requires forall v :: v in old(Fleet) ==> unchanged(v`path, v`currentLaneIndex)
      ensures Valid()
    {
    }

    /** A transfer keeps every queue distinct and every queued vehicle on its lane. */
    twostate lemma {:induction false} TransferKeepsQueues(t: Transfer)
      requires old(Queues()) && Transferred(t)
      ensures Queues()
    {
      var lane, v := t.lane, t.vehicle;
      var q := old(lane.vehicles);
      assert v in q;
      assert v !in q[1..];
      forall l | l in Lanes
        ensures Distinct(l.vehicles)
        ensures forall u :: u in l.vehicles ==> u in Fleet && OnLane(u, l)
      {
        var base := if l == lane then q[1..] else old(l.vehicles);
        assert Distinct(base);
        assert forall u :: u in base ==> u in old(l.vehicles);
        assert old(OnLane(v, lane));
        assert v !in base;
        if 0 <= v.currentLaneIndex < |v.path| && l == v.path[v.currentLaneIndex] {
          DistinctSnoc(base, v);
        }
      }
    }

    /**
     * What a tick reads and writes, as a value: the queue of every lane the
     * engine knows, the motion, lane index, path and driver parameters of
     * every vehicle ever added, and the vehicles reported removed.
     */
    ghost function Snapshot(): Traffic
      reads this, Lanes, Fleet
    {
      Traffic(map l | l in Lanes :: l.vehicles,
              map v | v in Fleet :: Car(v.State(), v.currentLaneIndex, v.path, v.Profile()),
              removed)
    }

    /** Each vehicle on a known lane is in the snapshot as it is. */
    lemma CarsOfLane(lane: Lane)
      requires Queues() && lane in Lanes
      ensures forall v :: v in lane.vehicles ==>
        v in Snapshot().cars && Snapshot().cars[v] == Car(v.State(), v.currentLaneIndex, v.path, v.Profile())
    {
    }

    /** The snapshot of a simulation that keeps its invariant; nothing for one that does not. */
    ghost function Settled(): (r: Option<Traffic>)
      reads this
      reads (set n | n in nodes)`connectionLanes, (set n | n in nodes)`outgoingRoads, (set n | n in nodes)`incomingRoads
      reads Lanes, Fleet
      ensures r.Some? <==> Valid()
    {
      if Valid() then Some(Snapshot()) else None
    }

    /** The snapshot holds the queue of each known lane. */
    lemma QueueOfLane(lane: Lane)
      requires Queues() && lane in Lanes
      ensures Snapshot().Queue(lane) == lane.vehicles
    {
    }

    /** `findFirstVehicle` on the heap and on its snapshot agree. */
    lemma {:induction false} FirstAheadMatches(path: seq<Lane>, k: nat)
      requires Queues() && forall l :: l in path ==> l in Lanes
      ensures FirstVehicle(path, k) == FirstAhead(Snapshot(), path, k)
      decreases |path| - k
    {
      if k < |path| {
        var lane, t := path[k], Snapshot();
        assert lane in path;
        QueueOfLane(lane);
        CarsOfLane(lane);
        if |lane.vehicles| == 0 {
          FirstAheadMatches(path, k + 1);
          assert FirstVehicle(path, k) == Shifted(FirstVehicle(path, k + 1), lane.length);
          FirstAheadSkips(t, path, k);
        } else {
          var v := Last(lane.vehicles);
          assert v in lane.vehicles;
          assert FirstVehicle(path, k) == Some(FirstFound(lane, v, v.x));
          FirstAheadStops(t, path, k);
        }
      }
    }

    /** `findDistanceToLeadVehicle` on the heap and on its snapshot agree. */
    lemma LeadAheadMatches(path: seq<Lane>, k: nat, vehicleIndex: nat)
      requires Queues() && forall l :: l in path ==> l in Lanes
      requires k < |path| && vehicleIndex < |path[k].vehicles|
      ensures FindDistanceToLeadVehicle(path, k, vehicleIndex) == LeadAhead(Snapshot(), path, k, vehicleIndex)
      ensures var r := FindDistanceToLeadVehicle(path, k, vehicleIndex); r.Some? ==> r.value.leadVehicle in Fleet
    {
      var lane := path[k];
      assert lane in path;
      QueueOfLane(lane);
      CarsOfLane(lane);
      assert lane.vehicles[vehicleIndex] in lane.vehicles;
      if vehicleIndex > 0 {
        assert lane.vehicles[vehicleIndex - 1] in lane.vehicles;
      } else {
        FirstAheadMatches(path, k + 1);
        var j := FirstOccupied(path, k + 1);
        if j < |path| {
          assert path[j] in path;
          assert Last(path[j].vehicles) in path[j].vehicles;
        }
      }
    }

    /**
     * A tick of `v` behind `lead`, which changes only `v`'s motion as
     * `Vehicle.Tick` promises, is `LaneTraffic.Ticked` on the snapshot.
     */
    twostate lemma TickedSnapshot(v: Vehicle<Lane>, new lead: Option<LeadFound>, new leadVehicle: Vehicle?<Lane>, new distance: Option<real>)
      requires old(Places()) && v in old(Fleet) && unchanged(this)
      requires forall l :: l in old(Lanes) ==> unchanged(l)
      requires forall u :: u in old(Fleet) && u != v ==> unchanged(u)
      requires unchanged(v`path, v`currentLaneIndex, v`driverReactionTime, v`shouldStop)
      requires lead.Some? && lead.value.leadVehicle != v ==> lead.value.leadVehicle in old(Fleet)
      requires leadVehicle == (if lead.None? then null else lead.value.leadVehicle)
      requires distance == (if lead.None? then None else Some(lead.value.distance))
      requires v.State() == Respond(Kinematics(old(v.State())),
          if leadVehicle == null then None
          else if leadVehicle == v then Some(Kinematics(old(v.State())).speed)
          else Some(leadVehicle.speed),
          distance, v.Profile())
      ensures Snapshot() == Ticked(old(Snapshot()), v, lead)
    {
      var t, r := old(Snapshot()), Snapshot();
      var w := Ticked(t, v, lead);
      assert v.Valid();
      assert r.queues == w.queues;
      forall u | u in Fleet
        ensures r.cars[u] == w.cars[u]
      {
      }
      assert r.cars == w.cars;
    }

    /** A transfer keeps the invariant's queue and place parts and is `Advanced` on the snapshot. */
    twostate lemma TransferSound(t: Transfer)
      requires old(Queues()) && old(Places()) && Transferred(t)
      requires old(t.vehicle.x > t.lane.length) && t.vehicle.x == 0.0
      requires forall u :: u in Fleet && u != t.vehicle ==> u.x == old(u.x)
      requires forall u :: u in Fleet ==>
        u.speed == old(u.speed) && u.acceleration == old(u.acceleration) && u.Profile() == old(u.Profile())
      ensures Queues() && Places()
      ensures Snapshot() == Advanced(old(Snapshot()), t.lane)
    {
      TransferKeepsQueues(t);
      TransferKeepsPlaces(t);
      TransferSnapshot(t);
    }

    /**
     * A transfer of the front vehicle of `t.lane`, which resets its position
     * and changes no other motion, is `LaneTraffic.Advanced` on the snapshot.
     */
    twostate lemma TransferSnapshot(t: Transfer)
      requires old(Queues()) && old(Places()) && Transferred(t)
      requires old(t.vehicle.x > t.lane.length) && t.vehicle.x == 0.0
      requires forall u :: u in Fleet && u != t.vehicle ==> u.x == old(u.x)
      requires forall u :: u in Fleet ==>
        u.speed == old(u.speed) && u.acceleration == old(u.acceleration) && u.Profile() == old(u.Profile())
      ensures Snapshot() == Advanced(old(Snapshot()), t.lane)
    {
      var lane, v := t.lane, t.vehicle;
      var s, r := old(Snapshot()), Snapshot();
      assert s.Queue(lane) == old(lane.vehicles);
      assert v in old(lane.vehicles);
      var c := s.cars[v];
      assert c.index == old(v.currentLaneIndex) >= 0 && c.path == v.path;
      if NextLane(c).Some? {
        assert NextLane(c).value in v.path;
      }
      TransferQueues(t);
      assert r.cars[v] == c.(motion := c.motion.(x := 0.0), index := c.index + 1);
      AdvancedPointwise(s, lane, r);
    }

    /** The queues of the snapshot after a transfer, lane by lane. */
    twostate lemma TransferQueues(t: Transfer)
      requires old(Queues()) && old(Places()) && Transferred(t)
      ensures var v, s, r := t.vehicle, old(Snapshot()), Snapshot();
        && t.lane in s.queues && |s.queues[t.lane]| > 0 && v in s.cars
        && forall l: Lane :: l in s.queues ==>
          r.queues[l] == (if l == t.lane then s.queues[l][1..] else s.queues[l])
                         + (if NextLane(s.cars[v]) == Some(l) then [v] else [])
    {
      var v, s, r := t.vehicle, old(Snapshot()), Snapshot();
      assert v in old(t.lane.vehicles);
      assert v in s.cars;
    }

    /** A transfer keeps every vehicle ever added either queued on its lane or reported removed. */
    twostate lemma {:induction false} TransferKeepsPlaces(t: Transfer)
      requires old(Queues()) && old(Places()) && Transferred(t)
      ensures Places()
    {
      var lane, v := t.lane, t.vehicle;
      var q := old(lane.vehicles);
      assert v in q;
      assert v !in old(removed);
      if v.currentLaneIndex >= |v.path| {
        DistinctSnoc(old(removed), v);
      }
      forall u | u in Fleet
        ensures (0 <= u.currentLaneIndex < |u.path| && u in u.path[u.currentLaneIndex].vehicles)
                || (u.currentLaneIndex >= |u.path| && u in removed)
      {
        if u != v && 0 <= u.currentLaneIndex < |u.path| {
          var l := u.path[u.currentLaneIndex];
          assert l in u.path;
          if l == lane {
            assert u in q[1..];
          }
        } else if u == v && v.currentLaneIndex < |v.path| {
          assert v.path[v.currentLaneIndex] in v.path;
        }
      }
    }
  }

  /**
   * `node` is what `findOrCreateNodeAt(coordinates, 10)` gives on `nodes`: the
   * node `findNodeAt` finds, or else a node at `coordinates` not yet listed.
   */
  ghost predicate Located(nodes: seq<RoadNode>, coordinates: Point, node: RoadNode, distance: (Point, Point) -> real) {
    var found := FindNodeAt(nodes, coordinates, 10.0, distance);
    if found != null then node == found else node !in nodes && node.x == coordinates.x && node.y == coordinates.y
  }

  /** The node list once `node` is found or created. */
  function Locating(nodes: seq<RoadNode>, node: RoadNode): seq<RoadNode> {
    if node in nodes then nodes else nodes + [node]
  }

  /**
   * The lanes of `road`, one per lane definition of its type, as `addRoad`
   * builds them; `built` are the lane nodes listed for them, two per lane.
   */
  ghost predicate LanesBuilt(road: Road, built: seq<LaneNode>, laneLength: (LaneNode, LaneNode) -> real) {
    && |road.lanes| == |road.roadType.lanes| && |built| == 2 * |road.lanes|
    && forall i :: 0 <= i < |road.lanes| ==>
         LaneBuilt(road.lanes[i], road.roadType.lanes[i], road.source, road.target, built[2 * i], built[2 * i + 1], laneLength)
  }

  /** The lanes of `road` and the lane nodes `built` for them are new objects, none listed twice. */
  twostate predicate Built(new road: Road, new built: seq<LaneNode>) {
    && Distinct(road.lanes) && (forall l :: l in road.lanes ==> fresh(l))
    && Distinct(built) && (forall n :: n in built ==> fresh(n))
  }

  /**
   * A lane as `addRoad` builds it for `definition` between the road nodes
   * `from` and `to`: it joins `atSource`, a lane node at `from`, and
   * `atTarget`, one at `to`, starting at `atTarget` when the definition is
   * reversed, and it is as long as `laneLength` measures.
   */
  ghost predicate LaneBuilt(lane: Lane, definition: LaneDefinition, from: RoadNode, to: RoadNode,
                            atSource: LaneNode, atTarget: LaneNode, laneLength: (LaneNode, LaneNode) -> real)
  {
    && atSource.x == from.x && atSource.y == from.y && atTarget.x == to.x && atTarget.y == to.y
    && (if definition.isReversed then lane.source == atTarget && lane.target == atSource
        else lane.source == atSource && lane.target == atTarget)
    && lane.length == laneLength(lane.source, lane.target)
  }

  /**
   * The lane loop of `addRoad`: per lane definition, a new lane node at
   * `from` and one at `to` (returned in that order, to be listed) and a new
   * lane between them, from the one at `to` when the definition is reversed.
   */
  method BuildLanes(from: RoadNode, to: RoadNode, roadType: RoadType, laneLength: (LaneNode, LaneNode) -> real)
    returns (lanes: seq<Lane>, built: seq<LaneNode>)
    ensures |lanes| == |roadType.lanes| && |built| == 2 * |roadType.lanes|
    ensures forall i :: 0 <= i < |lanes| ==>
      LaneBuilt(lanes[i], roadType.lanes[i], from, to, built[2 * i], built[2 * i + 1], laneLength)
    ensures forall l :: l in lanes ==> l.vehicles == []
    ensures Distinct(lanes) && forall l :: l in lanes ==> fresh(l)
    ensures Distinct(built) && forall n :: n in built ==> fresh(n)
  {
    lanes, built := [], [];
    var i := 0;
    while i < |roadType.lanes|
      invariant 0 <= i <= |roadType.lanes| && |lanes| == i && |built| == 2 * i
      invariant forall k :: 0 <= k < i ==>
        LaneBuilt(lanes[k], roadType.lanes[k], from, to, built[2 * k], built[2 * k + 1], laneLength)
      invariant forall l :: l in lanes ==> l.vehicles == []
      invariant Distinct(lanes) && forall l :: l in lanes ==> fresh(l)
      invariant Distinct(built) && forall n :: n in built ==> fresh(n)
    {
      var definition := roadType.lanes[i];
      var atSource := new LaneNode(from.x, from.y);
      var atTarget := new LaneNode(to.x, to.y);
      built := built + [atSource, atTarget];
      var laneSource := if definition.isReversed then atTarget else atSource;
      var laneTarget := if definition.isReversed then atSource else atTarget;
      var lane := new Lane(laneSource, laneTarget, laneLength(laneSource, laneTarget));
      lanes := lanes + [lane];
      i := i + 1;
    }
  }

  /** A path and a position on it, the arguments of `findFirstVehicle`. */
  datatype PathAt = PathAt(path: seq<Lane>, from: nat)

  /** One front-of-lane transfer: the lane left and the vehicle that leaves it. */
  datatype Transfer = Transfer(lane: Lane, vehicle: Vehicle<Lane>)

}
