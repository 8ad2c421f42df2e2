# A* search on a navigation grid

This project models the `AStarSearch` class of a Unity game in Dafny, and proves properties of that model. The class works on a navigation grid `AStarGrid`. The grid has a list of nodes with planar coordinates and a level, and a dictionary `nodeNeighbors` that maps each node to its outgoing edges. Each edge carries a traversal cost.

The class does four things:

- **Snapping** (`findNearestNodes`): it resolves a start point and a goal point to the grid nodes nearest them by squared distance. A node is chosen only when its squared distance to the point is below 9999, that is, when it lies within about 100 units. When no node is that near, a fresh placeholder node at (0, 0) on level 1 is used instead.
- **Search**: it runs A* from the snapped start. The search keeps two dictionaries:
  - `cameFrom`, the predecessor of each reached node;
  - `costSoFar`, the cheapest cost found so far to each reached node.

  The frontier is ordered by cost plus a heuristic estimate towards the goal. The search stops when the goal is dequeued or the frontier runs empty, and then sets `isDone`.
- **Reconstruction** (`constructOptimalPath`): it follows `cameFrom` back from the goal to the start.
- **Result** (`getAStarOptimalPath`): it reports the coordinates of the intermediate nodes of that chain.

The model is organised as follows:

- `graph.dfy`: the grid, its nodes and edges, node handles, and what a well-formed grid is.
- `walks.dfy`: walks through the grid and their costs.
- `finite.dfy`: the finiteness facts behind termination.
- `frontier.dfy`: the frontier as a priority queue.
- `nearest.dfy`: snapping (`FindNearestNodes`).
- `labels.dfy`: the invariants of the two maps and of the frontier, plus the optimality, completeness and predecessor-chain lemmas.
- `astar.dfy`: the expansion loop (`ExpandNode`, `Search`) and the class `AStarSearch` with its fields, its constructor and its three methods.

Nodes are referred to by handles. A handle is either a grid node, identified by its position in the grid's node list, or one of the two placeholder nodes (`StartSentinel`, `GoalSentinel`). `AStarNode` is not part of this model, so whether it overrides equality cannot be read off the code at hand. The model assumes reference equality, which is what C# gives a class that does not override `Equals` and `!=`. Under that assumption the two placeholders are two distinct objects, so each has its own handle.

Termination of the search loop depends on ghost bookkeeping:

- each recorded node keeps a simple walk whose cost is exactly its record;
- the measure is the number of simple walks from the start that reach an unrecorded node or cost less than its record;
- every improving relaxation lowers that number.

Termination of the path reconstruction also uses ghost state. Each record keeps the time of its last update, and following `cameFrom` strictly descends in the order (cost, time).

## Model

| member | source | states |
|---|---|---|
| Nearest.FindNearestNodes | Assets/Systems/_Tools/aStarPathfinding/Classes/AStarSearch.cs:116-139 | Each of the two points is snapped on its own. The result is the sentinel exactly when no node has a squared distance below 9999. Otherwise it is the first node of least squared distance: every earlier node is strictly farther and no later node is nearer. |
| Nearest.SnapStep | Assets/Systems/_Tools/aStarPathfinding/Classes/AStarSearch.cs:124-136 | Looking at one more node keeps the first-minimum result for the longer prefix. A node replaces the current choice only when it is strictly nearer. |
| Nearest.SnappedUnique | Assets/Systems/_Tools/aStarPathfinding/Classes/AStarSearch.cs:116-139 | Snapping is determined by the grid and the point: two results for the same input are equal. |
| Nearest.EmptyGridSnapsToSentinels | Assets/Systems/_Tools/aStarPathfinding/Classes/AStarSearch.cs:118-138 | On a grid without nodes both points resolve to their placeholders, and the two placeholders are distinct. |
| Frontier.MinIndex | Assets/Systems/_Tools/aStarPathfinding/Classes/AStarSearch.cs:95 | A non-empty frontier has an entry of least priority. |
| Frontier.RemoveAt | Assets/Systems/_Tools/aStarPathfinding/Classes/AStarSearch.cs:95 | Dequeueing removes exactly one entry and keeps the order of the others: the multiset of the rest plus that entry is the original. |
| Frontier.RemoveAtKeeps | Assets/Systems/_Tools/aStarPathfinding/Classes/AStarSearch.cs:95 | Every other entry is still queued after the dequeue. |
| Labels.SeedEstablishes | Assets/Systems/_Tools/aStarPathfinding/Classes/AStarSearch.cs:91-92 | Recording the start as its own predecessor at cost 0 establishes the invariant of the two maps. The invariant says: same keys; every record is reached by a simple walk of exactly that cost; each predecessor is the node just before on that walk; following predecessors descends to the start. |
| Labels.SeedFrontier | Assets/Systems/_Tools/aStarPathfinding/Classes/AStarSearch.cs:88-89 | Queueing the start at priority 0 establishes the frontier invariant. Every open node is queued at its key: 0 for the start, cost plus heuristic for every other node. No recorded node is closed yet. |
| Labels.PopKeeps | Assets/Systems/_Tools/aStarPathfinding/Classes/AStarSearch.cs:95 | After a dequeue, every open node other than the one dequeued is still queued at its key. |
| Labels.RelaxedPath | Assets/Systems/_Tools/aStarPathfinding/Classes/AStarSearch.cs:100-102 | An edge that improves its target yields a simple walk to that target costing exactly the new record. The target is neither the start nor the node being expanded. |
| Labels.RelaxLabels | Assets/Systems/_Tools/aStarPathfinding/Classes/AStarSearch.cs:99-106 | An improving relaxation preserves the whole map invariant with the new cost, predecessor and walk. |
| Labels.RelaxOtherPaths | Assets/Systems/_Tools/aStarPathfinding/Classes/AStarSearch.cs:102 | Lowering one record leaves every other recorded walk valid. |
| Labels.RelaxOtherPreds | Assets/Systems/_Tools/aStarPathfinding/Classes/AStarSearch.cs:102 | Lowering one record keeps every other node's predecessor fact and the descending order. |
| Labels.RelaxAllPaths | Assets/Systems/_Tools/aStarPathfinding/Classes/AStarSearch.cs:102 | After an improving relaxation, every record, old and new, has its walk. |
| Labels.RelaxAllPreds | Assets/Systems/_Tools/aStarPathfinding/Classes/AStarSearch.cs:105 | After an improving relaxation, every recorded node other than the start has a predecessor that is the node just before it on its walk. |
| Labels.RelaxOrdered | Assets/Systems/_Tools/aStarPathfinding/Classes/AStarSearch.cs:105 | The new predecessor ranks strictly below the improved node, so predecessor chains still descend. |
| Labels.RelaxBounds | Assets/Systems/_Tools/aStarPathfinding/Classes/AStarSearch.cs:102 | After the relaxation every record is a valid node handle with a non-negative cost and a time stamp below the advanced clock. |
| Labels.RelaxShrinks | Assets/Systems/_Tools/aStarPathfinding/Classes/AStarSearch.cs:101-102 | Every improving relaxation strictly lowers the number of unsettled simple walks. This bounds the number of relaxations, and with it the loop. |
| Labels.RelaxFrontier | Assets/Systems/_Tools/aStarPathfinding/Classes/AStarSearch.cs:103-104 | Queueing the improved node at its new cost plus heuristic keeps the frontier invariant, with that node open. |
| Labels.RelaxClosed | Assets/Systems/_Tools/aStarPathfinding/Classes/AStarSearch.cs:99-106 | An improving relaxation reopens its target and leaves every other closed node fully relaxed. |
| Labels.HeuristicAlongWalk | Assets/Systems/_Tools/aStarPathfinding/Classes/AStarSearch.cs:103 | Under a consistent heuristic, the estimate at any point of a walk is at most the rest of the walk's cost plus the estimate at its end. |
| Labels.WalkMeetsOpen | Assets/Systems/_Tools/aStarPathfinding/Classes/AStarSearch.cs:94-107 | Any walk to the goal passes an open node recorded no dearer than the walk's prefix up to it. |
| Labels.GoalBelowWalk | Assets/Systems/_Tools/aStarPathfinding/Classes/AStarSearch.cs:95-97 | When the goal is dequeued as a least entry under a consistent, non-negative heuristic, no walk to the goal is cheaper than its record. |
| Labels.GoalOptimal | Assets/Systems/_Tools/aStarPathfinding/Classes/AStarSearch.cs:95-97 | A* optimality: under those conditions the goal's record is a lower bound on the cost of every walk from the start to it. |
| Labels.ClosedReach | Assets/Systems/_Tools/aStarPathfinding/Classes/AStarSearch.cs:94 | With no open node left, every walk from the start ends at a recorded node. |
| Labels.ExhaustedUnreachable | Assets/Systems/_Tools/aStarPathfinding/Classes/AStarSearch.cs:94 | An exhausted frontier means the goal is neither recorded nor reachable. |
| Labels.ChainDescends | Assets/Systems/_Tools/aStarPathfinding/Classes/AStarSearch.cs:144-145 | Each step back along `cameFrom` from a node other than the start strictly lowers its rank. So reconstruction terminates. |
| Labels.ChainStep | Assets/Systems/_Tools/aStarPathfinding/Classes/AStarSearch.cs:144-146 | Appending the predecessor keeps the partial path a prefix of the whole chain. |
| Labels.ChainShape | Assets/Systems/_Tools/aStarPathfinding/Classes/AStarSearch.cs:140-149 | The chain starts at the node asked for, ends at the start, and visits recorded nodes only. |
| Labels.ChainLinks | Assets/Systems/_Tools/aStarPathfinding/Classes/AStarSearch.cs:144-146 | Each element after the first is the predecessor of the element before it, and no element before the last is the start. |
| Labels.ChainShort | Assets/Systems/_Tools/aStarPathfinding/Classes/AStarSearch.cs:48-55 | The chain has at most two elements exactly when the node is the start or its predecessor is the start. |
| Labels.LastEdge | Assets/Systems/_Tools/aStarPathfinding/Classes/AStarSearch.cs:105 | The last edge of a node's recorded walk leaves its predecessor and reaches the node. The node's record is at least the predecessor's plus that edge's cost. |
| Labels.VisitsSnoc | Assets/Systems/_Tools/aStarPathfinding/Classes/AStarSearch.cs:146 | Extending a walk by an edge into n matches adding n to the front of its node sequence, which is read backwards. |
| Labels.ChainWalkSound | Assets/Systems/_Tools/aStarPathfinding/Classes/AStarSearch.cs:140-149 | The chain, read backwards, is the node sequence of a walk from the start to the node. That walk costs no more than the node's record. |
| Labels.LocsFromEndSnoc | Assets/Systems/_Tools/aStarPathfinding/Classes/AStarSearch.cs:52-55 | Appending the coordinates of the next node, counted back from the second-to-last, keeps the list of waypoints in step with the path. |
| Labels.WaypointsOfWalk | Assets/Systems/_Tools/aStarPathfinding/Classes/AStarSearch.cs:52-55 | Positions counted back from the end of the node sequence are the walk's edge targets counted forward. |
| Labels.ChainWaypoints | Assets/Systems/_Tools/aStarPathfinding/Classes/AStarSearch.cs:48-55 | The reported waypoints are, in order, all but the last of the nodes the chain's walk reaches. The walk goes from the start to the goal and costs at most the goal's record. |
| AStar.RelaxEdges | Assets/Systems/_Tools/aStarPathfinding/Classes/AStarSearch.cs:99-106 | Relaxing a node's edges never loses a key of either map and never raises a cost. |
| AStar.RelaxEdgesSource | Assets/Systems/_Tools/aStarPathfinding/Classes/AStarSearch.cs:101-105 | Every record that relaxing a node's edges adds or changes is the target of one of those edges, and has that node as its predecessor. |
| AStar.RelaxEdgesStrict | Assets/Systems/_Tools/aStarPathfinding/Classes/AStarSearch.cs:101-104 | The frontier only grows at its end, keeping every entry already queued. When no cost changed, nothing changed. |
| AStar.RelaxEdgesSnoc | Assets/Systems/_Tools/aStarPathfinding/Classes/AStarSearch.cs:101-105 | One more improving edge updates exactly three things: the target's cost and predecessor, and the target queued at cost plus heuristic. |
| AStar.RelaxEdgesSkip | Assets/Systems/_Tools/aStarPathfinding/Classes/AStarSearch.cs:101 | One more edge that does not improve its target changes nothing. |
| AStar.ExpandStart | Assets/Systems/_Tools/aStarPathfinding/Classes/AStarSearch.cs:99 | Before any edge is relaxed, the expansion invariant holds with nothing changed. |
| AStar.ExpandStep | Assets/Systems/_Tools/aStarPathfinding/Classes/AStarSearch.cs:100-106 | Relaxing an improving edge keeps the expansion invariant for one more edge. |
| AStar.StepQueue | Assets/Systems/_Tools/aStarPathfinding/Classes/AStarSearch.cs:103-105 | The frontier, closed-set and records parts of the expansion invariant after one improving edge. |
| AStar.ExpandSkip | Assets/Systems/_Tools/aStarPathfinding/Classes/AStarSearch.cs:101 | Passing over a non-improving edge keeps the expansion invariant for one more edge. |
| AStar.ExpandDone | Assets/Systems/_Tools/aStarPathfinding/Classes/AStarSearch.cs:99-107 | Once all of a node's edges are relaxed, the node is closed: no edge out of it leads to a dearer record. |
| AStar.ExpandNode | Assets/Systems/_Tools/aStarPathfinding/Classes/AStarSearch.cs:99-107 | The maps and frontier after expanding a node are what relaxing its edges in order computes. Both invariants are kept and the node is closed. Either the unexplored-walk measure fell or nothing changed. |
| AStar.GoalDequeued | Assets/Systems/_Tools/aStarPathfinding/Classes/AStarSearch.cs:95-97 | A dequeued goal is recorded and reachable. Under a consistent, non-negative heuristic its record is a lower bound on every walk to it. |
| AStar.SentinelAborts | Assets/Systems/_Tools/aStarPathfinding/Classes/AStarSearch.cs:99 | When the start is the placeholder, the only node ever dequeued has no adjacency entry. |
| AStar.PrepareExpand | Assets/Systems/_Tools/aStarPathfinding/Classes/AStarSearch.cs:95 | Dequeueing a node other than the goal leaves it recorded and the invariants ready for its expansion. |
| AStar.Exhausted | Assets/Systems/_Tools/aStarPathfinding/Classes/AStarSearch.cs:94 | When the loop ends on an empty frontier, the goal is unrecorded and unreachable. |
| AStar.Search | Assets/Systems/_Tools/aStarPathfinding/Classes/AStarSearch.cs:88-108 | Seeded from the start, the loop keeps the map invariant. An abort implies that some recorded node other than the goal has no adjacency entry. The search always aborts when the start is the placeholder. When it completes, the goal is recorded exactly when it is reachable, and under a consistent, non-negative heuristic its record is the least cost of any walk to it. |
| AStar.SnapAndSearch | Assets/Systems/_Tools/aStarPathfinding/Classes/AStarSearch.cs:83-108 | Both points are snapped as above and the search outcome holds for the snapped pair. With the start snapped to the placeholder, the search aborts and the goal is not in `cameFrom`. On an empty grid both points snap to their placeholders. |
| AStar.OptimalWaypoints | Assets/Systems/_Tools/aStarPathfinding/Classes/AStarSearch.cs:45-58 | After a completed search that recorded the goal, under a consistent non-negative heuristic, the reported waypoints are the intermediate nodes of a walk from the start to the goal whose cost equals the goal's record and is no more than the cost of any walk between them: the path is optimal. |
| AStar.AStarSearch.constructor | Assets/Systems/_Tools/aStarPathfinding/Classes/AStarSearch.cs:34-41 | Stores the grid and the two points. Both maps start empty and the completion flag starts false. |
| AStar.AStarSearch.InitiateSearch | Assets/Systems/_Tools/aStarPathfinding/Classes/AStarSearch.cs:82-111 | Stores the snapped endpoints and the two maps of a full search. The maps' invariant holds afterwards. The completion flag equals the search's `ok` result. When the flag is set, the goal is recorded exactly when it is reachable, at its least cost under a consistent, non-negative heuristic. When the flag stays false, some recorded node other than the goal has no adjacency entry. It always stays false when the start snapped to the placeholder. |
| AStar.AStarSearch.ConstructOptimalPath | Assets/Systems/_Tools/aStarPathfinding/Classes/AStarSearch.cs:140-149 | The returned list starts at the goal and ends at the start. Each element after the first is `cameFrom` of the one before, and no element before the last is the start. |
| AStar.AStarSearch.GetAStarOptimalPath | Assets/Systems/_Tools/aStarPathfinding/Classes/AStarSearch.cs:45-58 | The result is empty when the goal is not in `cameFrom`. Otherwise it holds the coordinates of the chain's elements from second-to-last down to second. So it is empty exactly when the goal is the start or its predecessor is the start. It lists the intermediate nodes of a walk from the start to the goal that costs no more than the goal's record. |

## Left out

- Threading (`initiateSearch`, `WaitFor`, `tUpdate`, lines 62-79): the search runs on a worker task and callers poll `isDone`. The model has no concurrency: `InitiateSearch` is the synchronous `_initiateSearch`.
- The priority queue library: `SimplePriorityQueue` is modelled by what the search needs. Enqueue appends an entry, a node may be queued several times, and dequeue removes some entry of least priority. Which of several least entries wins a tie is left open, so paths that depend on tie-breaking are not pinned down.
- Floating point: costs, distances and priorities are exact reals. There is no `float` rounding and no overflow.
- `Heuristic` (lines 25-32): it uses `Mathf.Sqrt`, so it is a parameter of the model rather than a fixed function. Optimality is proved under two hypotheses, consistency along edges and non-negativity. The Euclidean distance satisfies both when edge costs are at least the Euclidean length of the edge, but the model does not prove that. The constructor takes the heuristic as an extra argument for this reason.
- `AStarGrid`, `AStarNode` and `AStarNeighbor` are not part of this model. They are represented by the node list, the adjacency map and the edge records in `graph.dfy`. The model assumes nodes are compared by reference, as described above, and represents them as handles.
- Missing adjacency entry: `aGrid.nodeNeighbors[current]` throws when the dequeued node has no entry. Treating a missing entry as an empty neighbour list would differ from the code at `AStarSearch.cs:99`; the model follows the code. The throw is modelled as an aborted search (`ok` false) that leaves `isDone` false. Under the reference-equality assumption, a start that snapped to the placeholder, and in particular any empty grid, therefore never sets `isDone`. Under value equality the outcome would differ: the two placeholders (lines 121-122) would be equal, the dequeued start would equal the goal, the loop would stop at lines 96-97, `isDone` would be set at line 110, and the path would come back empty.
- Grid shape: every adjacency key and edge target is a grid node, and no edge costs less than zero (`WellFormed`). The search requires this. Termination and optimality rely on the non-negative costs. The placeholder goal never appears in the adjacency map.
- AStar.AStarSearch.InitiateSearch: requires both maps to be empty and `isDone` false, as the constructor leaves them. The source does not clear the maps, so a second search on the same object is not modelled.
- AStar.AStarSearch.InitiateSearch: does not restate the fact from `SnapAndSearch` that a placeholder start leaves the goal absent from `cameFrom`. It does state that the flag then stays false.
- AStar.Search: an abort is characterised only by its cause: some recorded node other than the goal lacks an adjacency entry. The contract does not say that this node was the one dequeued. So on a grid where such a node is recorded but never dequeued before the goal, the contract alone does not say whether the search completes, although the body does complete. The same gap holds for `SearchOutcome` and for the completion flag of `AStar.AStarSearch.InitiateSearch`.
- AStar.SnapAndSearch: `!ok` is characterised only by some recorded node other than the goal lacking an adjacency entry, not by that node having been dequeued. For instance, on the grid whose only entry is `0: [(1, 1.0), (2, 5.0)]` with a zero heuristic, searching from 0 to 1 completes in the code, but the contract alone does not decide whether `ok` holds.
- AStar.AStarSearch.InitiateSearch: `!isDone` is characterised only by some recorded node other than the goal lacking an adjacency entry, not by that node having been dequeued. On the same example grid the code sets `isDone`, but the contract alone does not decide it.
- AStar.AStarSearch.ConstructOptimalPath: requires `theStart` to be the stored start and `theGoal` to be recorded, which is how its only caller uses it. With another `theStart` the loop stops at the first chain node equal to it; if none is, it spins forever at the start, since `cameFrom[start] == start`.
- AStar.AStarSearch.GetAStarOptimalPath: requires the state a search leaves behind (the maps' invariant). It is not modelled for a call made before the search ran.
- AStar.Search: requires the goal not to be the start placeholder. Snapping guarantees this, because the goal's placeholder is a different object.
- Ghost bookkeeping: the simple walk per record, the update time stamps and the set of open nodes are proof-only state. They have no counterpart in the source.
- The frontier is local to the search loop, and the loop works on local copies of the maps. The fields are all written once, when the loop ends, by the helper `AStar.AStarSearch.Store`. Because nothing else observes the object during `_initiateSearch` in this single-threaded model, the intermediate field writes are not observable.
