/**
 * The lane graph of the simulation engine: lane nodes, lanes carrying vehicle
 * queues, roads made of lanes, and the road nodes joining roads. Curve geometry
 * is abstract: a lane's and a road's length and a road's width are given values.
 */
module LaneGraph {
  import opened Basics
  import opened Vehicles
  import opened TrafficSignals

  /** One lane of a road type: its lateral offset and whether it runs target to source. */
  datatype LaneDefinition = LaneDefinition(offset: real, isReversed: bool)

  /** `RoadType`: the lanes a road is made of. */
  datatype RoadType = RoadType(lanes: seq<LaneDefinition>)

  const ONE_WAY: RoadType := RoadType([LaneDefinition(0.0, false)])
  const BASIC: RoadType := RoadType([LaneDefinition(4.0, false), LaneDefinition(-4.0, true)])
  const LANES_2_ONE_WAY: RoadType := RoadType([LaneDefinition(4.0, false), LaneDefinition(-4.0, false)])
  const LANES_4: RoadType := RoadType([
    LaneDefinition(4.0, false), LaneDefinition(12.0, false),
    LaneDefinition(-4.0, true), LaneDefinition(-12.0, true)])
  const LANES_6: RoadType := RoadType([
    LaneDefinition(4.0, false), LaneDefinition(12.0, false), LaneDefinition(20.0, false),
    LaneDefinition(-4.0, true), LaneDefinition(-12.0, true), LaneDefinition(-20.0, true)])
  const LANES_8: RoadType := RoadType([
    LaneDefinition(4.0, false), LaneDefinition(12.0, false), LaneDefinition(20.0, false), LaneDefinition(28.0, false),
    LaneDefinition(-4.0, true), LaneDefinition(-12.0, true), LaneDefinition(-20.0, true), LaneDefinition(-28.0, true)])

  /** A point where lanes meet (`LaneNode`). Lane nodes are compared by identity. */
  class LaneNode {
    const x: real
    const y: real

    constructor (x: real, y: real)
      ensures this.x == x && this.y == y
    {
      this.x, this.y := x, y;
    }
  }

  /**
   * A lane (`Lane`): a curve between two lane nodes and the queue of vehicles on
   * it, the vehicle furthest along first. `length` is the curve's length.
   */
  class Lane {
    const source: LaneNode
    const target: LaneNode
    const length: real
    var vehicles: seq<Vehicle<Lane>>

    constructor (source: LaneNode, target: LaneNode, length: real)
      ensures this.source == source && this.target == target && this.length == length
      ensures vehicles == []
    {
      this.source, this.target, this.length := source, target, length;
      vehicles := [];
    }
  }

  /**
   * A road: two road nodes, a type, the lanes built for that type, and the signal
   * it obeys. `width` stands for `getWidth()` and `length` for `getLength()`.
   */
  class Road {
    const source: RoadNode
    const target: RoadNode
    const roadType: RoadType
    const width: real
    const length: real
    const lanes: seq<Lane>
    var vehicles: seq<Vehicle<Lane>>
    var trafficSignal: TrafficSignal?
    var trafficSignalGroupIndex: Option<int>

    constructor (source: RoadNode, target: RoadNode, roadType: RoadType, width: real, length: real, lanes: seq<Lane>)
      ensures this.source == source && this.target == target && this.roadType == roadType
      ensures this.width == width && this.length == length && this.lanes == lanes
      ensures vehicles == [] && trafficSignal == null && trafficSignalGroupIndex == None
    {
      this.source, this.target, this.roadType := source, target, roadType;
      this.width, this.length, this.lanes := width, length, lanes;
      vehicles := [];
      trafficSignal, trafficSignalGroupIndex := null, None;
    }

    /** Every lane has its definition (lanes are created one per definition). */
    predicate WellFormed()
    {
      |lanes| <= |roadType.lanes|
    }

    /** Lane `i` exists and its definition has the given direction. */
    ghost predicate DefinesAt(i: int, reversed: bool)
    {
      0 <= i < |lanes| && i < |roadType.lanes| && roadType.lanes[i].isReversed == reversed
    }

    /** `l` is one of this road's lanes whose definition has the given direction. */
    ghost predicate Carries(l: Lane, reversed: bool)
    {
      exists i :: DefinesAt(i, reversed) && lanes[i] == l
    }

    /** `setTrafficSignal`: attaches the signal and the group this road belongs to. */
    method SetTrafficSignal(signal: TrafficSignal, groupIndex: int)
      modifies this`trafficSignal, this`trafficSignalGroupIndex
      ensures trafficSignal == signal && trafficSignalGroupIndex == Some(groupIndex)
      ensures RedLight() == signal.IsGroupStopped(groupIndex)
    {
      trafficSignal := signal;
      trafficSignalGroupIndex := Some(groupIndex);
    }

    /**
     * `redLight`: false without a signal, otherwise whether the signal stops this
     * road's group. A missing group index (never the case after
     * `setTrafficSignal`) equals no group number, so that group is stopped.
     */
    predicate RedLight()
      reads this`trafficSignal, this`trafficSignalGroupIndex, trafficSignal
    {
      if trafficSignal == null then false
      else match trafficSignalGroupIndex
        case Some(g) => trafficSignal.IsGroupStopped(g)
        case None => true
    }
  }

  /**
   * The lanes among `lanes` whose definition (same position in `defs`) has the
   * given direction, in order (`lanes.filter((_, i) => defs[i].isReversed ...)`).
   */
  function Directional(lanes: seq<Lane>, defs: seq<LaneDefinition>, reversed: bool): (r: seq<Lane>)
    requires |lanes| <= |defs|
    ensures |r| <= |lanes|
  {
    if |lanes| == 0 then []
    else (if defs[0].isReversed == reversed then [lanes[0]] else []) + Directional(lanes[1..], defs[1..], reversed)
  }

  /** `Directional` keeps exactly the lanes whose definition has the direction asked. */
  lemma {:induction false} DirectionalMembers(lanes: seq<Lane>, defs: seq<LaneDefinition>, reversed: bool)
    requires |lanes| <= |defs|
    ensures forall l :: l in Directional(lanes, defs, reversed) ==>
      exists i :: 0 <= i < |lanes| && defs[i].isReversed == reversed && lanes[i] == l
    ensures forall i :: 0 <= i < |lanes| && defs[i].isReversed == reversed ==> lanes[i] in Directional(lanes, defs, reversed)
  {
    if |lanes| > 0 {
      var rest := Directional(lanes[1..], defs[1..], reversed);
      DirectionalMembers(lanes[1..], defs[1..], reversed);
      forall l | l in rest
        ensures exists i :: 1 <= i < |lanes| && defs[i].isReversed == reversed && lanes[i] == l
      {
        var i :| 0 <= i < |lanes| - 1 && defs[1..][i].isReversed == reversed && lanes[1..][i] == l;
        assert lanes[i + 1] == l;
      }
      forall i | 1 <= i < |lanes| && defs[i].isReversed == reversed
        ensures lanes[i] in rest
      {
        assert lanes[1..][i - 1] == lanes[i];
      }
    }
  }

  /** The lanes of the given direction of every road in `roads`, road after road. */
  function LanesOf(roads: seq<Road>, reversed: bool): seq<Lane>
    requires forall road :: road in roads ==> road.WellFormed()
  {
    if |roads| == 0 then []
    else
      assert roads[0] in roads && roads[0].WellFormed();
      Directional(roads[0].lanes, roads[0].roadType.lanes, reversed) + LanesOf(roads[1..], reversed)
  }

  /** `LanesOf` gives exactly the lanes of the roads whose definition has the direction asked. */
  lemma {:induction false} LanesOfMembers(roads: seq<Road>, reversed: bool)
    requires forall road :: road in roads ==> road.WellFormed()
    ensures forall l :: l in LanesOf(roads, reversed) ==> exists road :: road in roads && road.Carries(l, reversed)
    ensures forall road, i :: road in roads && road.DefinesAt(i, reversed) ==> road.lanes[i] in LanesOf(roads, reversed)
  {
    if |roads| > 0 {
      assert roads[0] in roads;
      DirectionalMembers(roads[0].lanes, roads[0].roadType.lanes, reversed);
      LanesOfMembers(roads[1..], reversed);
      assert forall road :: road in roads ==> road == roads[0] || road in roads[1..];
    }
  }

  /** The lanes' target (`map((lane) => lane.target)`). */
  function Targets(lanes: seq<Lane>): (nodes: seq<LaneNode>)
    ensures |nodes| == |lanes| && forall i :: 0 <= i < |lanes| ==> nodes[i] == lanes[i].target
  {
    if |lanes| == 0 then [] else [lanes[0].target] + Targets(lanes[1..])
  }

  /** The lanes' source (`map((lane) => lane.source)`). */
  function Sources(lanes: seq<Lane>): (nodes: seq<LaneNode>)
    ensures |nodes| == |lanes| && forall i :: 0 <= i < |lanes| ==> nodes[i] == lanes[i].source
  {
    if |lanes| == 0 then [] else [lanes[0].source] + Sources(lanes[1..])
  }

  /**
   * A road node (`RoadNode`): its position, the roads leaving and entering it
   * (JavaScript `Set`s, kept as duplicate-free sequences in insertion order), its
   * size (the widest road attached) and the connection lanes across it.
   */
  class RoadNode {
    const x: real
    const y: real
    var size: real
    var outgoingRoads: seq<Road>
    var incomingRoads: seq<Road>
    var connectionLanes: seq<Lane>

    constructor (x: real, y: real)
      ensures this.x == x && this.y == y && size == 0.0
      ensures outgoingRoads == [] && incomingRoads == [] && connectionLanes == []
    {
      this.x, this.y := x, y;
      size := 0.0;
      outgoingRoads, incomingRoads, connectionLanes := [], [], [];
    }

    /** The road sets hold no duplicates. */
    predicate SetsValid()
      reads this`outgoingRoads, this`incomingRoads
    {
      Distinct(outgoingRoads) && Distinct(incomingRoads)
    }

    /** Every attached road has its lane definitions. */
    predicate RoadsWellFormed()
      reads this`outgoingRoads, this`incomingRoads
    {
      (forall r :: r in outgoingRoads ==> r.WellFormed()) && (forall r :: r in incomingRoads ==> r.WellFormed())
    }

    /**
     * `addRoad`: the road joins the outgoing set iff it starts here and the
     * incoming set iff it ends here (a set ignores a second insertion), and
     * the size grows to the road's width if that is larger.
     */
    method AddRoad(road: Road)
      modifies this`outgoingRoads, this`incomingRoads, this`size
      ensures outgoingRoads == if road.source == this && road !in old(outgoingRoads)
        then old(outgoingRoads) + [road] else old(outgoingRoads)
      ensures incomingRoads == if road.target == this && road !in old(incomingRoads)
        then old(incomingRoads) + [road] else old(incomingRoads)
      ensures road in outgoingRoads <==> road in old(outgoingRoads) || road.source == this
      ensures road in incomingRoads <==> road in old(incomingRoads) || road.target == this
      ensures size == Max(old(size), road.width) && size >= old(size)
      ensures old(SetsValid()) ==> SetsValid()
    {
      if road.source == this && road !in outgoingRoads {
        outgoingRoads := outgoingRoads + [road];
      }
      if road.target == this && road !in incomingRoads {
        incomingRoads := incomingRoads + [road];
      }
      size := Max(size, road.width);
    }

    /** `getIncomingLanes`: reversed lanes of leaving roads, then forward lanes of entering roads. */
    function IncomingLanes(): seq<Lane>
      reads this`outgoingRoads, this`incomingRoads
      requires RoadsWellFormed()
    {
      LanesOf(outgoingRoads, true) + LanesOf(incomingRoads, false)
    }

    /** The incoming lanes are the reversed lanes of leaving roads and the forward lanes of entering roads. */
    lemma IncomingLanesMembers()
      requires RoadsWellFormed()
      ensures forall l :: l in IncomingLanes() ==>
        (exists r :: r in outgoingRoads && r.Carries(l, true)) || (exists r :: r in incomingRoads && r.Carries(l, false))
      ensures forall r, i :: r in outgoingRoads && r.DefinesAt(i, true) ==> r.lanes[i] in IncomingLanes()
      ensures forall r, i :: r in incomingRoads && r.DefinesAt(i, false) ==> r.lanes[i] in IncomingLanes()
    {
      LanesOfMembers(outgoingRoads, true);
      LanesOfMembers(incomingRoads, false);
    }

    /** `getOutgoingLanes`: forward lanes of leaving roads, then reversed lanes of entering roads. */
    function OutgoingLanes(): seq<Lane>
      reads this`outgoingRoads, this`incomingRoads
      requires RoadsWellFormed()
    {
      LanesOf(outgoingRoads, false) + LanesOf(incomingRoads, true)
    }

    /** The outgoing lanes are the forward lanes of leaving roads and the reversed lanes of entering roads. */
    lemma OutgoingLanesMembers()
      requires RoadsWellFormed()
      ensures forall l :: l in OutgoingLanes() ==>
        (exists r :: r in outgoingRoads && r.Carries(l, false)) || (exists r :: r in incomingRoads && r.Carries(l, true))
      ensures forall r, i :: r in outgoingRoads && r.DefinesAt(i, false) ==> r.lanes[i] in OutgoingLanes()
      ensures forall r, i :: r in incomingRoads && r.DefinesAt(i, true) ==> r.lanes[i] in OutgoingLanes()
    {
      LanesOfMembers(outgoingRoads, false);
      LanesOfMembers(incomingRoads, true);
    }

    /** `getIncomingLaneNode`: where the incoming lanes end, in the same order. */
    function IncomingLaneNodes(): (nodes: seq<LaneNode>)
      reads this`outgoingRoads, this`incomingRoads
      requires RoadsWellFormed()
      ensures |nodes| == |IncomingLanes()|
      ensures forall i :: 0 <= i < |nodes| ==> nodes[i] == IncomingLanes()[i].target
    {
      Targets(LanesOf(outgoingRoads, true)) + Targets(LanesOf(incomingRoads, false))
    }

    /** `getOutgoingLaneNode`: where the outgoing lanes start, in the same order. */
    function OutgoingLaneNodes(): (nodes: seq<LaneNode>)
      reads this`outgoingRoads, this`incomingRoads
      requires RoadsWellFormed()
      ensures |nodes| == |OutgoingLanes()|
      ensures forall i :: 0 <= i < |nodes| ==> nodes[i] == OutgoingLanes()[i].source
    {
      Sources(LanesOf(outgoingRoads, false)) + Sources(LanesOf(incomingRoads, true))
    }
  }
}
