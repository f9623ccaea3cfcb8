# Traffic simulation core, modelled in Dafny

This project models the core of a small browser traffic simulator. It has two
simulation engines:

- The lane-graph engine (`src/simulation/`). Road nodes are joined by roads.
  Every road is made of directed lanes. Connection lanes join each incoming
  lane of a road node to each of its outgoing lanes. Vehicles queue on lanes,
  follow the vehicle ahead with an Intelligent-Driver-Model-style acceleration
  law, and move on to the next lane of their path when they pass the end of
  the current one. New vehicles are spawned on a lane path found by a Dijkstra-style search.
  Traffic signals cycle right of way among groups of roads.
- The older engine (`src/Simulation.ts`). It builds one road per edge of an
  index-based graph and routes vehicles with an index-based Dijkstra search
  (`src/pathfinding.ts`).

Two scenes have their logic modelled as well. The graph editor adds, selects,
moves, joins and deletes nodes. The debug scene splits and offsets Bézier
curves.

Modules, one per part of the source:

- `Basics`: `Option`, plane points, `randomElement` with the random draw as a parameter.
- `Graphs`: the serialisable graph of `types.ts`, with walks and reachability.
- `TrafficSignals`: the cyclic signal.
  - The state is a value, `SignalState`, whose properties over any number of updates are lemmas.
  - The object is the class `TrafficSignal`, updated in place.
- `Vehicles`: the kinematic step, the acceleration law, and the `Vehicle` class updated by `Tick`.
- `Roads`: the position guard shared by all roads, and the straight road `LinearRoad`.
- `LaneGraph`: lane nodes, lanes, roads with their signal, and road nodes.
  - Includes the incoming and outgoing lane queries.
- `Connections`: the connection lanes `addRoad` regenerates across a road node.
- `PriorityQueues`: the insertion-ordered `Map` used as the priority queue of the lane search.
- `Engine`: the lane-graph `Simulation` class.
  - Ticking.
  - Spawning.
  - The lane search.
  - Adding roads.
  - Wiring signals.
- `Pathfinding`: the index-based `dijkstra`.
- `Legacy`: the older engine's vehicles, roads and `Simulation` class.
- `GraphBuilder`: the editor's hit test, node deletion with renumbering, and the click handler.
- `DebugCurves`: de Casteljau splitting, the right-hand edge of a thick quadratic curve, and the offset of a polyline.

Numbers are reals, not IEEE doubles.
- `Math.sqrt` is replaced by a length supplied with its square.
- `Math.random()` is replaced by a draw in `[0, 1)`.
- Curve lengths and widths, which Phaser computes, are supplied as parameters.

The source's quirks are modelled as written:

- `dijkstra` stops its reconstruction at node 0, because `previous[node]` is falsy there.
- The editor never moves node 0, because `selectedNodeIndex` is tested for truth.
- The signal hands over after `CYCLE_LENGTH + 1` updates.
- A vehicle with a gap of exactly 0 counts as having no lead.
- `generateConnectionLane` checks the source node's list for both nodes.
- `tickLaneVehicles` iterates over a queue that it shifts while iterating.
- `findPath` picks the last of the entries of least distance.

Both engines' ticks are specified on values. `LaneTraffic.Traffic` holds every
lane's queue, every vehicle's state and the vehicles reported removed, and
`Legacy.World` does the same for the older engine's roads. Each engine's
`Snapshot()` reads that value off the heap. The tick methods are proved to
leave `Snapshot()` exactly as the value functions say (`LanesPass`,
`TickWorld`), and the lemmas beside those functions state what the passes
keep. `Settled()` is the snapshot when the engine's invariant holds and
nothing otherwise, so one equation states both the new state and the
invariant.

## Model

| member | source | states |
|---|---|---|
| `Basics.RandomElement` | src/utils.ts:1-3 | a result exists iff the list is non-empty; it is an element of the list, and the element at the draw when the draw is an index |
| `Graphs.WalkExtends` | src/types.ts:10-19 | a walk from `u` to `v` followed by an edge from `v` to `w` is a walk from `u` to `w` |
| `TrafficSignals.SignalState.MovingGroup` | src/TrafficSignal.ts:12-23 | a group is not stopped iff it is the one group returned: the active group outside the cooldown, and no group during it |
| `TrafficSignals.SignalState.Updated` | src/TrafficSignal.ts:25-31 | one update keeps the countdown in `[0, CYCLE_LENGTH]` and the active index below the number of groups |
| `TrafficSignals.NextGroup` | src/TrafficSignal.ts:29 | with no groups the next index is NaN; otherwise the next index of a group is a group below the count |
| `TrafficSignals.UpdatesKeepValid` | src/TrafficSignal.ts:25-31 | any number of updates keeps the countdown and the active index in range |
| `TrafficSignals.UpdatesWithinCycle` | src/TrafficSignal.ts:25-31 | within a cycle the active group stays and the countdown drops by exactly one per update |
| `TrafficSignals.CycleHandsOver` | src/TrafficSignal.ts:25-31 | from a fresh countdown the active group stays for `CYCLE_LENGTH` updates; the next update hands over to the next group (mod the group count) and restarts the countdown |
| `TrafficSignals.CooldownWindow` | src/TrafficSignal.ts:12-23 | after a restart the active group is stopped for exactly the first `CYCLE_COOLDOWN` states of its cycle |
| `TrafficSignals.TwoCycles` | src/TrafficSignal.ts:25-31 | two full cycles advance the active group by two (mod the group count) and restart the countdown |
| `TrafficSignals.TwoGroupsAlternate` | src/TrafficSignal.ts:25-31 | with two groups, right of way passes from group 0 to group 1 after one cycle and back to group 0 after two |
| `TrafficSignals.UpdatesAdd` | src/TrafficSignal.ts:25-31 | `m` updates followed by `n` updates equal `m + n` updates |
| `TrafficSignals.TrafficSignal.constructor` | src/TrafficSignal.ts:4-10 | a new signal has group 0 active, a full countdown, stop distance 20 and slow distance 55 |
| `TrafficSignals.TrafficSignal.Update` | src/TrafficSignal.ts:25-31 | the new state is the old state updated once, and the range invariant is kept |
| `Vehicles.Kinematics` | src/simulation/Vehicle.ts:27-34 | the speed never ends negative; without clamping, speed and position advance by the integration formula; with clamping, speed is 0 and the position follows the source's clamp formula |
| `Vehicles.Alpha` | src/simulation/Vehicle.ts:52-62 | the interaction term times the gap is at least the desired distance 4, so the term is positive |
| `Vehicles.Respond` | src/simulation/Vehicle.ts:36-72 | a negative gap to a lead stops the vehicle dead; otherwise the speed is kept; `shouldStop` gives full braking (-4.61); no lead or a zero gap gives the free-road law; a positive gap gives the law with `Alpha` |
| `Vehicles.FreeFlowAccelerates` | src/simulation/Vehicle.ts:64-66 | with no lead and a speed below the limit, the acceleration is positive |
| `Vehicles.LargerGapAcceleratesMore` | src/simulation/Vehicle.ts:53-66 | a larger gap gives a strictly smaller interaction term and a strictly larger acceleration |
| `Vehicles.InitialLength` | src/simulation/Vehicle.ts:10 | a vehicle's length lies in `[10, 20)` |
| `Vehicles.InitialMaxSpeed` | src/simulation/Vehicle.ts:11 | a vehicle's maximum speed is an integer in `[8, 27]` |
| `Vehicles.Vehicle.constructor` | src/simulation/Vehicle.ts:1-16 | a new vehicle is at rest at 0 on an empty path, with drawn length and speed limit, reaction time 1, and `engineMaxSpeed == maxSpeed` |
| `Vehicles.Vehicle.Tick` | src/simulation/Vehicle.ts:18-73 | the new motion is `Respond` applied to `Kinematics` of the old motion, given the lead's updated speed and the gap |
| `Roads.CheckPosition` | src/simulation/Road.ts:31-35 | a position is accepted iff it lies in `[0, length]`, both ends included |
| `Roads.LinearRoad.GetPoint` | src/simulation/LinearRoad.ts:33-39 | a point is returned iff the position is in `[0, length]`, otherwise the invalid-location error |
| `Roads.LinearRoad.GetAngle` | src/simulation/LinearRoad.ts:41-44 | the angle is returned iff the position is in `[0, length]`, otherwise the invalid-location error |
| `Roads.NewLinearRoad` | src/simulation/LinearRoad.ts:10-27 | the road keeps its ends and length; position 0 gives the source and position `length` gives the target |
| `Roads.AngleIsConstant` | src/simulation/LinearRoad.ts:41-44 | every valid position gives the same angle |
| `Roads.GetPointIsAffine` | src/simulation/LinearRoad.ts:33-39 | the point at the mean of two positions is the midpoint of their points |
| `Roads.PositionIsDistanceFromSource` | src/simulation/LinearRoad.ts:10-39 | the point at position `p` lies at Euclidean distance `p` from the source |
| `PriorityQueues.Reduce` | src/simulation/Simulation.ts:600-602 | the chosen entry has least distance, and no later entry has the same distance: the last minimal entry |
| `PriorityQueues.ReduceIndex` | src/simulation/Simulation.ts:600-602 | the position of that entry: minimal, and strictly below every later entry |
| `PriorityQueues.Set` | src/simulation/Simulation.ts:645 | the keys become the old keys plus the new one, and keys stay unique |
| `PriorityQueues.SetInPlace` | src/simulation/Simulation.ts:645 | setting a present key changes its value in place and nothing else |
| `PriorityQueues.SetAppends` | src/simulation/Simulation.ts:645 | setting a new key appends it last |
| `PriorityQueues.Delete` | src/simulation/Simulation.ts:603 | the key is removed; exactly the other entries remain; keys stay unique |
| `LaneGraph.LaneNode.constructor` | src/types.ts:25 | a lane node is at the given position |
| `LaneGraph.Lane.constructor` | src/simulation/Simulation.ts:70-72 | a lane joins the given lane nodes, has the given length, and starts with no vehicles |
| `LaneGraph.Road.constructor` | src/simulation/Road.ts:1-11 | a road has its ends, type, width, length and lanes, no vehicles and no signal |
| `LaneGraph.Road.SetTrafficSignal` | src/simulation/Road.ts:19-29 | the road holds the signal and group, and its red light is then exactly whether the signal stops that group |
| `LaneGraph.DirectionalMembers` | src/simulation/Simulation.ts:101-103 | the filter keeps exactly the lanes whose definition has the requested direction |
| `LaneGraph.LanesOfMembers` | src/simulation/Simulation.ts:99-112 | the lanes gathered over a set of roads are exactly their lanes of the requested direction |
| `LaneGraph.RoadNode.constructor` | src/simulation/Simulation.ts:74-80 | a new road node is at its position, with size 0, no roads and no connection lanes |
| `LaneGraph.RoadNode.AddRoad` | src/simulation/Simulation.ts:86-94 | the road is outgoing iff it was or it starts here, incoming iff it was or it ends here, and is added at most once; size becomes the max of the old size and the road width |
| `LaneGraph.RoadNode.IncomingLanesMembers` | src/simulation/Simulation.ts:96-115 | incoming lanes are exactly the reversed lanes of leaving roads and the forward lanes of entering roads |
| `LaneGraph.RoadNode.OutgoingLanesMembers` | src/simulation/Simulation.ts:117-136 | outgoing lanes are exactly the forward lanes of leaving roads and the reversed lanes of entering roads |
| `LaneGraph.RoadNode.IncomingLaneNodes` | src/simulation/Simulation.ts:138-158 | the i-th incoming lane node is where the i-th incoming lane ends |
| `LaneGraph.RoadNode.OutgoingLaneNodes` | src/simulation/Simulation.ts:160-180 | the i-th outgoing lane node is where the i-th outgoing lane starts |
| `Connections.LinkedIff` | src/simulation/Simulation.ts:497-501 | the `some` test holds iff the pair is among the links of the list |
| `Connections.PairsSound` | src/simulation/Simulation.ts:491-494 | every visited pair joins the end of an incoming lane to the start of an outgoing lane |
| `Connections.PairsComplete` | src/simulation/Simulation.ts:491-494 | every incoming lane is paired with every outgoing lane |
| `Connections.ConnectSound` | src/simulation/Simulation.ts:491-529 | every pair not already listed gets a lane, no listed pair does, and no pair gets two when the checked list grows |
| `Connections.ConnectLanes` | src/simulation/Simulation.ts:491-529 | the old lanes stay in front; the appended lanes are exactly the links `Connect` gives, all new and empty |
| `Connections.GenerateConnectionLane` | src/simulation/Simulation.ts:487-530 | the node's lanes are unchanged; its connection list is extended by exactly the missing links, all new and empty |
| `Connections.Rebuild` | src/simulation/Simulation.ts:532-536 | after both passes each node's connection lanes are exactly the links that `Connect` gives from scratch, checked against the source node's list; every one of them is a new, empty lane |
| `Connections.ConnectRow` | src/simulation/Simulation.ts:492-528 | one inner loop extends the added lanes by exactly the links of that incoming lane's row |
| `Connections.ConnectPair` | src/simulation/Simulation.ts:496-527 | one new, empty lane from `x` to `y` is appended iff the checked list has none |
| `Engine.FirstVehicle` | src/simulation/Simulation.ts:310-339 | nothing past the path's end; otherwise the rearmost vehicle of the first occupied lane, at the skipped lengths plus its position, or nothing when all are empty |
| `Engine.FindDistanceToLeadVehicle` | src/simulation/Simulation.ts:341-388 | a vehicle behind another follows it; a front vehicle follows the first vehicle further along its path, and has no lead iff there is none |
| `Engine.GapIsBumperToBumper` | src/simulation/Simulation.ts:353-388 | the gap is the path distance from this vehicle's front bumper to the lead's rear bumper, on the same lane or a later one |
| `Engine.FindNodeAt` | src/simulation/Simulation.ts:539-549 | null iff no node is near; otherwise the first near node in creation order |
| `Engine.StartingAt` | src/simulation/Simulation.ts:570 | exactly the lanes leaving the node |
| `Engine.RoadLanesFrom` | src/simulation/Simulation.ts:568-572 | exactly the road lanes leaving the node |
| `Engine.ConnectionLanesFrom` | src/simulation/Simulation.ts:573-577 | exactly the connection lanes leaving the node |
| `Engine.RoadLanesFromIsFilter` | src/simulation/Simulation.ts:568-572 | filtering road by road equals filtering all road lanes in order |
| `Engine.ConnectionLanesFromIsFilter` | src/simulation/Simulation.ts:573-577 | filtering node by node equals filtering all connection lanes in order |
| `Engine.LastGroupOf` | src/simulation/Simulation.ts:393-398 | none iff no group lists the road; otherwise the last group listing it |
| `Engine.PickLaneNode` | src/simulation/Simulation.ts:583-584 | null iff the node has no outgoing lane node; otherwise one of them |
| `Engine.Endpoint` | src/simulation/Simulation.ts:278-279 | the given node, or else a node drawn from the list, null only when the list is empty |
| `Engine.PopKeepsSearchInv` | src/simulation/Simulation.ts:603-604 | removing a queued node and marking it visited next in order keeps the search invariant |
| `Engine.TakeNearest` | src/simulation/Simulation.ts:600-604 | the node taken is the one `Reduce` selects; it leaves the queue and is visited; the invariant holds and fewer nodes are unvisited |
| `Engine.FindBySource` | src/simulation/Simulation.ts:617-619 | none iff no lane leaves the node; otherwise the first lane leaving it |
| `Engine.Relax` | src/simulation/Simulation.ts:631-649 | keeps the search invariant and the visited set; the known nodes grow by exactly the unvisited targets of the lanes; no distance rises; every unvisited target ends no farther than the current distance plus the lane length; a changed predecessor is the current node and comes with a strictly shorter distance |
| `Engine.RelaxLane` | src/simulation/Simulation.ts:632-648 | a visited target leaves the search as it is; otherwise the new distance is the lesser of the old and the one through the lane; strictly shorter sets the predecessor, `incomingLane = [lane]` and queues the entry; a tie appends the lane to `incomingLane`; longer changes nothing; no other node changes |
| `Engine.Reconstruct` | src/simulation/Simulation.ts:607-628 | a returned path is a chain of network lanes from start to end, empty when they coincide; when every reached node links back to the start, a path is returned |
| `Engine.SearchLanes` | src/simulation/Simulation.ts:586-652 | a path is returned iff some chain of the given lanes leads from start to end; it leads from start to end over those lanes; start equal to end gives the empty path |
| `Engine.Simulation.constructor` | src/simulation/Simulation.ts:183-191 | an empty engine: no roads, nodes, lane nodes, signals or vehicles, and the invariant holds |
| `Engine.Simulation.AdvanceFront` | src/simulation/Simulation.ts:251-272 | the traffic afterwards is `Advanced` of the traffic before: a front vehicle past the lane end restarts at 0 on the next lane of its path or is reported removed; otherwise nothing changes; the invariant is kept |
| `Engine.Simulation.MoveFront` | src/simulation/Simulation.ts:256-270 | the transfer, as `Advanced` says: front vehicle reset to 0, lane index advanced, joins the next lane or is removed; no other vehicle moves; queues stay distinct |
| `Engine.Simulation.StepVehicle` | src/simulation/Simulation.ts:207-272 | one callback is `StepAt` on the traffic: the tick of the vehicle at the index, then the transfer; the invariant is kept |
| `Engine.Simulation.TickLaneVehicles` | src/simulation/Simulation.ts:206-274 | the traffic afterwards is `LanePass` of the traffic before: one step per index below the starting queue length, on the queue as it stands; removals only grow |
| `Engine.Simulation.TickVehicle` | src/simulation/Simulation.ts:207-221 | the tick of one vehicle is `TickedAt` on the traffic: it responds to the lead found along its path; the invariant is kept |
| `Engine.Simulation.ForEachStep` | src/simulation/Simulation.ts:207 | one more iteration of the `forEach` advances the traffic from `LaneSteps` at `i` to `LaneSteps` at `i + 1` |
| `Engine.Simulation.TickLanes` | src/simulation/Simulation.ts:194-199 | ticking a list of lanes is `LanesPass` over them in order |
| `Engine.Simulation.TickRoads` | src/simulation/Simulation.ts:194-196 | the road half of `tick` is `LanesPass` over every road's lanes, in road order |
| `Engine.Simulation.TickNodes` | src/simulation/Simulation.ts:197-199 | the node half of `tick` is `LanesPass` over every node's connection lanes, in node order |
| `Engine.Simulation.TickGroups` | src/simulation/Simulation.ts:197-199 | ticking lists of lanes group by group is `LanesPass` over the groups flattened |
| `Engine.Simulation.TickNetwork` | src/simulation/Simulation.ts:194-199 | both halves together are `LanesPass` over all network lanes |
| `Engine.Simulation.TickedSnapshot` | src/simulation/Simulation.ts:207-221 | a vehicle changed exactly as `Vehicle.tick` says, with the lead found on the traffic, leaves the traffic `Ticked` |
| `Engine.Simulation.TransferSound` | src/simulation/Simulation.ts:251-272 | a heap transfer keeps the queues distinct and vehicles placed, and leaves the traffic `Advanced` |
| `LaneTraffic.FirstAhead` | src/simulation/Simulation.ts:310-339 | nothing iff every lane of the path from `k` on is empty; otherwise the rearmost vehicle of a lane further along |
| `LaneTraffic.LeadAhead` | src/simulation/Simulation.ts:341-388 | a vehicle behind another on its lane follows it; a front vehicle follows the first vehicle further along its path, and has no lead iff there is none |
| `LaneTraffic.Ticked` | src/simulation/Simulation.ts:214-221 | only the ticked vehicle changes; it keeps its lane index, path and driver, moves by the kinematic step, and its speed stays non-negative |
| `LaneTraffic.Advanced` | src/simulation/Simulation.ts:251-272 | a front vehicle past the lane end leaves its queue, restarts at 0 with its lane index advanced, joins the back of the next lane of its path or is reported removed; otherwise nothing changes |
| `LaneTraffic.LaneStepsNext` | src/simulation/Simulation.ts:207 | each further step of the pass is the callback at the next index |
| `LaneTraffic.LanesPassAppend` | src/simulation/Simulation.ts:194-199 | passing over two lists of lanes is passing over the first, then the second |
| `LaneTraffic.AdvancedShifts` | src/simulation/Simulation.ts:255-270 | a transfer leaves the lane's queue as it was, or drops its front vehicle, which rejoins at the back only when its path returns to the same lane |
| `LaneTraffic.ShiftSkipsNext` | src/simulation/Simulation.ts:207-261 | after a shift at index `i`, the vehicle that stood at `i + 1` stands at `i`, which the `forEach` has passed, so it is not ticked in this pass |
| `LaneTraffic.StepFrame` | src/simulation/Simulation.ts:207-272 | one step leaves the speed, acceleration and lane index of a vehicle not queued on the lane unchanged |
| `LaneTraffic.LaneStepsKeepQueue` | src/simulation/Simulation.ts:206-274 | a lane's pass only keeps or removes vehicles of its own queue, and keeps the set of vehicles |
| `LaneTraffic.AdvancedQueue` | src/simulation/Simulation.ts:207-272 | one step puts on the lane only vehicles already queued there, and keeps the set of vehicles |
| `LaneTraffic.LaneStepsFrame` | src/simulation/Simulation.ts:206-274 | a lane's pass leaves the speed, acceleration and lane index of a vehicle not queued on it unchanged |
| `Engine.Simulation.Tick` | src/simulation/Simulation.ts:193-204 | the traffic afterwards is `LanesPass` over every road lane in road order, then every connection lane in node order, of the traffic before; every signal is updated exactly once; the invariant is kept |
| `Engine.Simulation.UpdateSignals` | src/simulation/Simulation.ts:201-203 | every signal's new state is its old state updated once; the traffic is untouched |
| `Engine.Simulation.FindFirstVehicle` | src/simulation/Simulation.ts:310-339 | the loop computes `FirstVehicle` |
| `Engine.Simulation.LanesFrom` | src/simulation/Simulation.ts:565-579 | exactly the road lanes and connection lanes leaving the node |
| `Engine.Simulation.LanesFromIsFilter` | src/simulation/Simulation.ts:565-579 | `lanesFrom` is the filter of all network lanes, in the same order |
| `Engine.Simulation.FindOrCreateNodeAt` | src/simulation/Simulation.ts:551-563 | the node found by `FindNodeAt`, or a new node at the coordinates appended to the node list |
| `Engine.Simulation.FindPath` | src/simulation/Simulation.ts:581-652 | a path is returned iff the drawn start lane node reaches the drawn end over network lanes; it routes between them; equal ends give the empty path |
| `Engine.Simulation.AddVehicle` | src/simulation/Simulation.ts:277-307 | a route exists iff the endpoints differ and are connected; a vehicle is returned iff the route is non-empty and its start was clear; it is new, at rest, joins the back of the first lane and is reported added; otherwise nothing changes |
| `Engine.Simulation.FindRoute` | src/simulation/Simulation.ts:278-282 | a route is returned iff the endpoints are non-null, differ, and the lane nodes drawn at them are connected over network lanes; it routes between them over engine lanes; no vehicle moves |
| `Engine.Simulation.SpawnOnPath` | src/simulation/Simulation.ts:283-302 | spawns iff the path is non-empty and clear at its start; otherwise nothing changes |
| `Engine.Simulation.Spawn` | src/simulation/Simulation.ts:298-300 | the vehicle takes the path, joins the back of the first lane, and is reported added |
| `Engine.Simulation.SpawnKeepsInvariant` | src/simulation/Simulation.ts:298-300 | a spawn keeps queues distinct and every added vehicle placed |
| `Engine.Simulation.AddTrafficSignals` | src/simulation/Simulation.ts:390-399 | one new, fresh signal with one group per entry; each listed road is wired to the last group listing it; other roads keep their setting |
| `Engine.Simulation.PushSignal` | src/simulation/Simulation.ts:392 | the signal is appended to the list |
| `Engine.Simulation.WireGroups` | src/simulation/Simulation.ts:393-398 | after all groups are wired, each road is wired as `LastGroupOf` says |
| `Engine.Simulation.WireGroup` | src/simulation/Simulation.ts:394-397 | every road of the group gets the signal and group; other roads keep theirs |
| `Engine.Simulation.AddRoad` | src/simulation/Simulation.ts:401-537 | both end nodes are found or created; one new road of the type joins them; its lanes and lane nodes are new, distinct and built per definition; both nodes' connections are rebuilt as new lanes; other nodes are unchanged |
| `Engine.Simulation.LocateEnds` | src/simulation/Simulation.ts:412-413 | the source node is found or created, then the target node |
| `Engine.Simulation.JoinNodes` | src/simulation/Simulation.ts:416-536 | the road and its lanes are created between the two listed nodes, then their connections are rebuilt |
| `Engine.Simulation.CreateRoad` | src/simulation/Simulation.ts:416-479 | the new road is listed and added to both nodes' road lists; node sizes grow to the width; its lanes and lane nodes are new objects, distinct, built per definition, and empty |
| `Engine.Simulation.AttachRoad` | src/simulation/Simulation.ts:439-440 | the same as `RoadNode.AddRoad`, and the invariant is kept |
| `Engine.Simulation.PushRoad` | src/simulation/Simulation.ts:436-447 | the road and lane nodes are appended, and its lanes become engine lanes |
| `Engine.Simulation.RebuildConnections` | src/simulation/Simulation.ts:532-536 | both nodes' connection lanes are regenerated as `Connect` says; the invariant is kept |
| `Engine.Simulation.NetworkLanesKnown` | src/simulation/Simulation.ts:565-579 | every lane of the network is a lane the engine knows |
| `Engine.Simulation.TransferKeepsQueues` | src/simulation/Simulation.ts:256-270 | a transfer keeps every queue distinct and each vehicle on its lane |
| `Engine.Simulation.TransferKeepsPlaces` | src/simulation/Simulation.ts:256-270 | a transfer keeps each added vehicle queued on its current lane or reported removed |
| `Engine.BuildLanes` | src/simulation/Simulation.ts:443-479 | one new empty lane per definition between two new lane nodes, reversed definitions starting at the target; all lanes and lane nodes are distinct new objects |
| `Pathfinding.Plus` | src/pathfinding.ts:64-65 | the sum is finite iff the distance is; a non-negative length never lowers it |
| `Pathfinding.NearestIndex` | src/pathfinding.ts:33-39 | the chosen node is at least as near as every queued node and strictly nearer than every earlier one: the first minimal node |
| `Pathfinding.Splice` | src/pathfinding.ts:57 | exactly the chosen node is removed and the queue stays distinct |
| `Pathfinding.FindEdge` | src/pathfinding.ts:47-49 | the first edge from `u` to `v`, or -1 iff there is none |
| `Pathfinding.Relax` | src/pathfinding.ts:60-72 | each node keeps its record or gets a strictly lower distance through the current node; afterwards no edge leaving the current node improves anything |
| `Pathfinding.TakeKeeps` | src/pathfinding.ts:33-57 | taking the first nearest node keeps the search invariant |
| `Pathfinding.RelaxKeeps` | src/pathfinding.ts:60-72 | relaxing from the node taken last keeps the invariant and leaves taken nodes' distances unchanged |
| `Pathfinding.ReachedWhenTaken` | src/pathfinding.ts:31-54 | a reachable nearest node other than the start has a predecessor |
| `Pathfinding.Reconstruct` | src/pathfinding.ts:41-54 | the result is a chain ending at the end; no edge leaves node 0; non-empty implies reachable; a walk from the start when node 0 is not in the way |
| `Pathfinding.Dijkstra` | src/pathfinding.ts:15-77 | null iff the end is not a node; an unreachable end or start equal to end gives `[]`; a non-empty result is a chain to the end that is reachable; a reachable end gets a non-empty result unless an edge from 0 leads to it |
| `Pathfinding.Settle` | src/pathfinding.ts:56-72 | one round removes the nearest node from the queue and keeps the invariant |
| `Legacy.Respond` | src/Simulation.ts:58-90 | a negative gap stops the vehicle dead; no lead gives the free-road law with this vehicle's acceleration limit; a positive gap gives the law with `Alpha` |
| `Legacy.StepKeepsSpeed` | src/Simulation.ts:46-91 | after a full tick the speed is never negative |
| `Legacy.FreeFlowAccelerates` | src/Simulation.ts:88-90 | with no lead and a speed below the limit, the acceleration is positive |
| `Legacy.CloseLeadBrakes` | src/Simulation.ts:61-90 | behind a lead nearer than the desired distance, the vehicle brakes |
| `Legacy.InitialMaxSpeed` | src/Simulation.ts:40 | the maximum speed is an integer in `[6, 45]` |
| `Legacy.InitialMaxAcceleration` | src/Simulation.ts:41 | the acceleration limit is in `[1.44, 2.94)` |
| `Legacy.RandomIndex` | src/Simulation.ts:149-151 | a drawn node index is below the node count, or 0 with no nodes |
| `Legacy.TickQueueAt` | src/Simulation.ts:118-121 | each vehicle responds to the one ahead as it has just become; the front has no lead; speeds stay non-negative |
| `Legacy.RespondsIsTickQueue` | src/Simulation.ts:118-121 | the queue pass is the only full sequence of responses |
| `Legacy.TickEach` | src/Simulation.ts:118-121 | the loop leaves the queue's motions as `TickQueue` of the old ones |
| `Legacy.Vehicle.constructor` | src/Simulation.ts:31-44 | a new vehicle is at rest on an empty path, with drawn length, speed limit and acceleration limit |
| `Legacy.Vehicle.Tick` | src/Simulation.ts:46-91 | the new motion is `Respond` applied to `Kinematics` of the old motion, behind the lead's updated motion |
| `Legacy.Road.constructor` | src/Simulation.ts:12-28 | an empty road between two points, with the given length |
| `Legacy.Simulation.constructor` | src/Simulation.ts:102-107 | one empty road per edge, in edge order, from the edge's source node to its target node |
| `Legacy.Simulation.TickVehicles` | src/Simulation.ts:118-121 | the road's vehicles tick as `TickQueue` says and no other vehicle moves; the world afterwards is `TickRoad` of the world before |
| `Legacy.Simulation.AdvanceFront` | src/Simulation.ts:123-143 | the world afterwards is `AdvanceRoad` of the world before: a front vehicle past the end restarts at 0 on the next road of its path or is reported removed; otherwise nothing changes |
| `Legacy.Simulation.MoveFront` | src/Simulation.ts:128-141 | the transfer, as `AdvanceRoad` says; the invariant is kept and no other vehicle moves |
| `Legacy.Simulation.TransferKeepsQueues` | src/Simulation.ts:128-141 | a transfer keeps every queue distinct and each vehicle on its road |
| `Legacy.Simulation.TransferKeepsPlaces` | src/Simulation.ts:128-141 | a transfer keeps each added vehicle queued on its road or reported removed |
| `Legacy.Simulation.Tick` | src/Simulation.ts:114-145 | the world afterwards is `TickWorld` of the world before: each road's turn in road order; the invariant is kept; removals only grow; no vehicle is added |
| `Legacy.Simulation.Turn` | src/Simulation.ts:116-144 | one road's turn is `RoadTurn`: its queue pass, then its front transfer |
| `Legacy.Simulation.TickedRoadSnapshot` | src/Simulation.ts:118-121 | motions changed as `TickQueue` says on one road, and nowhere else, leave the world `TickRoad` |
| `Legacy.Simulation.TransferSnapshot` | src/Simulation.ts:123-143 | a heap transfer of the front vehicle leaves the world `AdvanceRoad` |
| `Legacy.TickRoad` | src/Simulation.ts:118-121 | queues, lengths, reports and the set of vehicles are kept; each vehicle of the road takes the motion `TickQueue` gives at its place; every other vehicle is unchanged |
| `Legacy.TickRoadPointwise` | src/Simulation.ts:118-121 | a world agreeing with that description vehicle by vehicle is `TickRoad` |
| `Legacy.AdvanceRoad` | src/Simulation.ts:123-143 | without a front vehicle past the end nothing changes; otherwise it is reset to 0 with its road index advanced, leaves the front, joins the back of the next road of its path, and is reported removed iff its path is done |
| `Legacy.AdvanceRoadPointwise` | src/Simulation.ts:123-143 | a world agreeing with that description road by road is `AdvanceRoad` |
| `Legacy.TickRoadsNext` | src/Simulation.ts:115-144 | the turns of one more road are that road's turn after the others |
| `Legacy.RoadTurnKeeps` | src/Simulation.ts:116-144 | one road's turn keeps the roads, the vehicles and their paths and traits, and only adds reports |
| `Legacy.TickRoadsKeeps` | src/Simulation.ts:115-144 | any number of road turns keeps the roads, the vehicles and their paths and traits; reports only grow |
| `Legacy.Simulation.Update` | src/Simulation.ts:109-112 | exactly one tick: the world afterwards is `TickWorld` of the world before |
| `Legacy.Simulation.AddVehicle` | src/Simulation.ts:148-165 | on success, one new vehicle with the drawn length, speed limit and acceleration limit joins the first road of a non-empty connected path that never leaves node 0, and is reported added once; otherwise nothing changes |
| `Legacy.Simulation.AdmitKeepsValid` | src/Simulation.ts:155-160 | queueing a new vehicle on its first road keeps the invariant |
| `GraphBuilder.FindNodeIndexBelow` | src/scenes/GraphBuilderScene.ts:8-14 | the first node hit, or -1 iff no node is hit |
| `GraphBuilder.Detach` | src/scenes/GraphBuilderScene.ts:34-38 | exactly the edges that do not touch the node survive |
| `GraphBuilder.DetachAppend` | src/scenes/GraphBuilderScene.ts:34-38 | the filter keeps the edges' order |
| `GraphBuilder.Renumber` | src/scenes/GraphBuilderScene.ts:41-50 | ends above the deleted index move down by one, others stay; the curve control is dropped |
| `GraphBuilder.Splice` | src/scenes/GraphBuilderScene.ts:39 | every other node keeps its place, shifted down past the deleted one |
| `GraphBuilder.DeleteNodeValid` | src/scenes/GraphBuilderScene.ts:31-53 | deleting a node of a valid graph leaves a valid graph |
| `GraphBuilder.DeleteNodeKeeps` | src/scenes/GraphBuilderScene.ts:31-53 | an edge that does not touch the node survives, renumbered, joining the same two points |
| `GraphBuilder.DeleteNodeOrigin` | src/scenes/GraphBuilderScene.ts:31-53 | every remaining edge is the renumbering of an edge that did not touch the node |
| `GraphBuilder.Scene.constructor` | src/scenes/GraphBuilderScene.ts:21-22 | the scene starts on the given graph with nothing selected |
| `GraphBuilder.Scene.DeleteSelected` | src/scenes/GraphBuilderScene.ts:31-53 | with a selection the graph becomes `DeleteNode` of it; without one nothing changes; the selection is cleared and the graph stays valid |
| `GraphBuilder.Scene.PointerDown` | src/scenes/GraphBuilderScene.ts:55-100 | Shift with a selection adds an edge to the node hit; a selection other than 0 moves; an empty spot adds a node; a node hit is selected; the graph stays valid |
| `DebugCurves.CasteljauCoordinate` | src/scenes/DebugScene.ts:16-27 | two rounds of interpolation give the curve's Bernstein form |
| `DebugCurves.SplitQuadraticBezierCurve` | src/scenes/DebugScene.ts:10-32 | two three-point pieces; the first starts at `p0`, the second ends at `p2`, and they meet at the curve's point at `t` |
| `DebugCurves.SplitAtEnds` | src/scenes/DebugScene.ts:10-32 | splitting at 0 or 1 gives a point and the whole curve |
| `DebugCurves.SplitTracesCurve` | src/scenes/DebugScene.ts:10-32 | the first piece at `s` is the curve at `t*s`; the second is the curve at `t+(1-t)*s` |
| `DebugCurves.NormalIsUnit` | src/scenes/DebugScene.ts:81-86 | the normal is perpendicular to the tangent, has unit length and lies on its right |
| `DebugCurves.QuadraticBezierRightEdge` | src/scenes/DebugScene.ts:34-69 | a result exists iff both tangents have non-zero length; it has three points |
| `DebugCurves.RightEdgeOfLine` | src/scenes/DebugScene.ts:34-69 | with zero width the edge is the curve itself |
| `DebugCurves.RightEdgeOffsets` | src/scenes/DebugScene.ts:55-66 | each end lies half the width to the right of its curve end, perpendicular to the tangent; the middle moves by both offsets |
| `DebugCurves.OffsetCurve` | src/scenes/DebugScene.ts:71-113 | fewer than two points give an empty curve; otherwise one point more than the polyline |
| `DebugCurves.OffsetCurveRepeatsLast` | src/scenes/DebugScene.ts:106-109 | the offset curve ends with a repeated point |
| `DebugCurves.OffsetCurveAtZero` | src/scenes/DebugScene.ts:71-113 | offsetting by 0 gives the polyline with its last point repeated |
| `DebugCurves.OffsetCurveDistance` | src/scenes/DebugScene.ts:78-104 | every offset point lies `distance` from its source point, perpendicular to its segment and on the right |
| `DebugCurves.GetOffsetCurve` | src/scenes/DebugScene.ts:71-113 | the loop computes `OffsetCurve` |

## Left out

- Rendering, Phaser scenes, input handling, `main.ts` and `src/scenes/TrafficScene.ts` / `src/TrafficScene.ts` are not part of this model; they draw and dispatch only.
- Curve geometry (`src/simulation/Curve.ts`, `src/simulation/CurvedRoad.ts`, `hermiteToBezier`, `getParallel*`, `shorten*`) is not part of this model.
  - Lane, road and connection lengths and road widths are supplied by the caller.
  - `updateLaneNodePositions` is left out. After `addRoad` builds a road, it runs over every road at both end nodes. It moves each lane's end points, and so its lane nodes, to the road's ends shifted by the lane offset and pulled in by half of each node's size. That reshapes each lane's curve, and so changes the length `getLength` returns.
  - The curved (`controlCoordinates`) variant of `addRoad` is left out; its graph structure is the same as the straight variant's.
- Randomness, `Math.sqrt`, `getDistance` and `Phaser.Math.Distance.Between` are parameters.
  - `Math.random()` is a draw in `[0, 1)`, and `randomElement` takes an index.
  - Square roots are values whose squares are given.
  - `getDistance` and `Distance.Between` are caller-supplied measures.
- Console logging and the `onVehicleAdded`/`onVehicleRemoved` callbacks: the callbacks are recorded as the `added`/`removed` sequences.
- IEEE floating point is modelled as exact reals: no rounding, overflow or NaN propagation, except where stated below.
- `Legacy.Respond`: a gap of exactly 0 is treated as a crash (speed and acceleration 0), where the source divides by 0 and sets the acceleration to -Infinity.
- `Legacy.Vehicle.Tick`: inherits the gap-0 deviation of `Legacy.Respond`.
- `DebugCurves.GetOffsetCurve`: requires every segment to have non-zero length, where the source would produce NaN points.
- `DebugCurves.OffsetCurve`: the same restriction as `GetOffsetCurve`.
- `DebugCurves.QuadraticBezierRightEdge`: its `None` stands for the NaN points the source computes when a tangent has zero length.
- `Roads.NewLinearRoad`: requires a positive length, since a road whose ends coincide has a NaN direction in the source.
- `TrafficSignals.NextGroup`: a signal with zero groups gets `NotANumber` as its active group, modelling `% 0`; its later behaviour is not refined.
- `Pathfinding.Dijkstra`: distance optimality of the returned path is not proved, only its shape and reachability facts.
- `Engine.SearchLanes`: distance optimality of the returned path is not proved either.
- `Engine.Simulation.FindPath`: inherits the gap of `SearchLanes`; the path is not proved shortest.
- `Engine.Simulation.FindRoute`: inherits the same gap; the route is not proved shortest.
- `Engine.Simulation.AddVehicle`: inherits the same gap; the vehicle's path is not proved shortest.
- `Engine.BuildLanes`: each lane's length is fixed when the lane is built (`Lane.length` is a constant). A later `addRoad` at either end node does not change it, where the source's `updateLaneNodePositions` reshapes the lane and so its length. This length is what the transfer test and the search distances read.
- `Engine.Simulation.AddRoad`: does not update the lengths of the lanes already at its two end nodes, for the reason given under `Engine.BuildLanes`; the lane nodes keep the coordinates they were built with.
- Legacy `Road` angle fields (`angleSin`, `angleCos`, `angle`) are not modelled; nothing in the engine reads them.
- The legacy engine does not let a road's front vehicle look ahead to the next road; the model follows that.
- `Engine.Simulation.AddRoad`: lanes are built before the `Road` object is listed, where the source lists the road first; nothing observes the order.
- The commented-out red-light handling in `tickLaneVehicles` and the stale `test/basic.test.ts` are left out.
- `src/constants.ts` (fixture graphs) is left out.
- `Engine.Simulation.TickNodes`: reads every node's connection lane list before the first lane ticks; `tick` reads each list when its turn comes, and nothing in between changes the lists.
- `Legacy.AdvanceRoad`: a next road index outside the road list is neither pushed nor reported, where the source would fail on `undefined`; the engine's invariant rules such paths out.
- `Legacy.TickRoad`: a road whose queue repeats a vehicle or holds an unknown one is left as it is; the engine's invariant rules such queues out.
- `LaneTraffic.Ticked`: a vehicle with invalid driver parameters is left as it is; every vehicle the engine creates has valid ones.
