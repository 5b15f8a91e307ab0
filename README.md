# A* grid pathfinder, modelled in Dafny

This project models the search-and-compress core of a Unity A* pathfinder. The pathfinder runs a
search over a grid of cells (`Node`s). The costs are:

- the step cost is the octile distance `GetDistance` (14 per diagonal step, 10 per straight
  step) plus the movement penalty of the cell entered;
- the heuristic is `GetDistance` to the target.

The open set yields the node that ranks first under `Node.CompareTo`: lowest fCost, ties broken
by lowest hCost. When the target is closed, `RetracePath` follows the `parent` links back to the
start. `SimplifyPath` keeps only the cells at which the grid step direction changes, and the
result is reversed into start-to-target order.

Files:

- `node.dfy` (module `Nodes`): `Node` is a class.
  - The identity fields (`walkable`, `worldPosition`, `gridX`, `gridY`, `movementPenalty`) are
    `const`, since only the constructor writes them.
  - The search fields (`gCost`, `hCost`, `parent`, `heapIndex`) are mutable.
  - `FCost` is a function of the two costs and is never stored.
- `openset.dfy` (module `OpenSet`): the open set is a finite set of nodes.
  - `RemoveFirst` takes out a node that ranks first under `CompareTo`.
  - `Contains` is set membership.
  - Re-ranking an updated node needs no step, because each removal reads the current costs.
- `pathfinding.dfy` (module `Pathfinding`): the search, retrace and simplification.
  - The grid is an input value: its set of cells, the cell containing a world point, and the
    neighbour list of a cell.
  - The search loop is `Search`. The neighbour loop is `ExpandNode`, and one neighbour's update
    is `Relax`.
  - `FindPath` wires these together and returns the `PathResult` that the source hands to its
    callback.

What is proved about the search, for every valid grid:

- Soundness and completeness: the target is found exactly when both end cells are walkable and a
  walk of walkable neighbouring cells leads from the start to the target.
  - Soundness: the closed set is a tree of parent links, ranked by closing order.
  - Completeness: when the open set runs empty, the closed set is closed under walkable
    neighbours.
- When the target is found, the parent links from the target reach the start. Every link is an
  up-to-date relaxation: the parent is a neighbour, the hCost is the heuristic, and the gCost is
  the parent's gCost plus the step cost.
- The waypoints are the reversed simplification of that chain.

## Model

| member | source | states |
|---|---|---|
| Nodes.Node.FCost | Node.cs:17-20 | no contract of its own: the total cost is gCost + hCost recomputed on every read, never a stored field; CompareTo and RemoveFirst state the priority through it |
| Nodes.Node.HeapIndex | Node.cs:23-25 | no contract of its own: the getter reads the slot field; SetHeapIndex states that it returns the value last set |
| Nodes.Node.constructor | Node.cs:36-43 | the five identity fields take the arguments; the search fields keep their defaults (0, 0, null, 0) |
| Nodes.Node.SetHeapIndex | Node.cs:23-27 | `HeapIndex` then returns the value just set, and the costs and parent are untouched |
| Nodes.Node.CompareTo | Node.cs:52-60 | 1 exactly when this node has the lower fCost, or an equal fCost and the lower hCost; -1 exactly in the mirrored case; 0 exactly when both costs tie |
| Nodes.IntCompare | Node.cs:54 | three-way integer comparison: -1, 0 or 1 exactly as the first operand is smaller, equal or larger |
| Nodes.CompareToAntisymmetric | Node.cs:52-60 | swapping the operands negates the result |
| Nodes.CompareToTransitive | Node.cs:52-60 | "ranks at least as high" is transitive |
| Nodes.CompareToTotal | Node.cs:52-60 | any two nodes are comparable and every node ties with itself, so the order is a total preorder |
| OpenSet.FirstExists | Pathfinding.cs:36 | every non-empty open set has a node ranking at least as high as all of its members |
| OpenSet.RemoveFirst | Pathfinding.cs:36 | removes one member, which has the least fCost, and among those the least hCost |
| Pathfinding.GetDistance | Pathfinding.cs:127-137 | the distance is never negative |
| Pathfinding.GetDistanceIsOctile | Pathfinding.cs:127-137 | equals 14·min(dx,dy) + 10·(max(dx,dy) − min(dx,dy)) over the absolute coordinate deltas |
| Pathfinding.GetDistanceSymmetric | Pathfinding.cs:127-137 | the distance from a to b equals the distance from b to a |
| Pathfinding.GetDistanceZero | Pathfinding.cs:127-137 | zero if and only if the two cells have equal gridX and gridY |
| Pathfinding.GetDistanceAdjacent | Pathfinding.cs:129-136 | 10 for orthogonally adjacent cells, 14 for diagonally adjacent cells |
| Pathfinding.GetDistanceAsNorms | Pathfinding.cs:127-137 | equals 6·Chebyshev + 4·Manhattan distance |
| Pathfinding.GetDistanceTriangle | Pathfinding.cs:127-137 | the triangle inequality, so the heuristic never overestimates the cost through an intermediate cell |
| Pathfinding.NormsTriangle | Pathfinding.cs:129-130 | the Manhattan and Chebyshev norms of the coordinate deltas satisfy the triangle inequality |
| Pathfinding.HeadCostIsChainCost | Pathfinding.cs:57-60 | along a chain of relaxation links, the first cell's gCost is the last cell's gCost plus the summed step costs and penalties |
| Pathfinding.Reversed | Pathfinding.cs:102 | the order `Array.Reverse` leaves: same length, and with ReversedAt element k is element n−1−k |
| Pathfinding.ReversedTwice | Pathfinding.cs:102 | reversing twice gives back the original sequence |
| Pathfinding.ReversedAt | Pathfinding.cs:102 | element k of the reversal is element n−1−k of the original |
| Pathfinding.ReverseInPlace | Pathfinding.cs:102 | the array afterwards holds the reversal of its old contents |
| Pathfinding.Direction | Pathfinding.cs:115 | the grid step from path[i] to path[i−1]; it is (0,0) exactly when the two cells share coordinates |
| Pathfinding.DirectionZero | Pathfinding.cs:115 | a step is (0,0) exactly when its two cells are at distance zero |
| Pathfinding.Simplified | Pathfinding.cs:107-124 | at most max(0, n−1) waypoints are kept, so a path of at most one cell yields none |
| Pathfinding.SimplifiedSelectsTurns | Pathfinding.cs:113-121 | the waypoints are the positions of exactly the cells path[i], 1 ≤ i < n, whose step differs from the previous one (initially (0,0)), in increasing index order |
| Pathfinding.SimplifiedStartsAtSecond | Pathfinding.cs:110-118 | when the first two cells differ, path[1] is the first waypoint |
| Pathfinding.SimplifyPath | Pathfinding.cs:107-124 | returns a fresh array holding exactly the simplification of the whole list |
| Pathfinding.RetracePath | Pathfinding.cs:88-104 | given a parent chain from the end node that reaches the start, returns the reversed simplification of the chain without the start cell |
| Pathfinding.Relax | Pathfinding.cs:50-71 | unwalkable or closed neighbours are skipped untouched; otherwise, when the new cost is strictly lower or the neighbour is not open, its gCost, hCost (the heuristic to the target) and parent (the current node) are overwritten and it is in the open set afterwards; else it is untouched; every open node but the start stays reached from a closed node |
| Pathfinding.CloseNode | Pathfinding.cs:36-37 | moving the removed node into the closed set keeps the closed set a ranked parent tree and the open set its frontier |
| Pathfinding.BuildChain | Pathfinding.cs:94-98 | from any closed node, the parent links reach the start through closed nodes, each link being a relaxation |
| Pathfinding.ChainIsWalk | Pathfinding.cs:47-61 | a chain of relaxation links between walkable grid cells, read backwards, is a walk of neighbouring walkable cells |
| Pathfinding.WalkStaysClosed | Pathfinding.cs:34-72 | a walk that starts in a set closed under walkable neighbours ends in it |
| Pathfinding.ExpandNode | Pathfinding.cs:47-72 | the new open set is the old one plus exactly the walkable, unclosed neighbours of the node just closed; such a neighbour that was not open, or whose route through the closed node is strictly cheaper, then has that route's gCost, the heuristic hCost and the closed node as parent, and any other keeps its record; every other grid cell (closed cells, unwalkable cells, non-neighbours) keeps its gCost, hCost and parent; the closed tree and the open frontier are kept, and every walkable neighbour of a closed node is open or closed |
| Pathfinding.ExtendWalk | Pathfinding.cs:47-61 | a walk extended by a walkable neighbour of its last cell is a walk |
| Pathfinding.TreeNodeReachable | Pathfinding.cs:34-72 | every open or closed cell is reachable from the start along the parent links |
| Pathfinding.Search | Pathfinding.cs:29-73 | the target is popped if and only if it is reachable from the start through walkable neighbours; it then has a parent chain to the start whose every link is a relaxation between walkable grid cells, and its gCost is the start's gCost plus the chain's step costs and penalties; the start cell's record is never written; every cell whose record changed is walkable and reachable from the start |
| Pathfinding.FindPath | Pathfinding.cs:17-85 | the request's callback is passed through; success holds exactly when there is at least one waypoint; unwalkable ends leave every cell untouched and fail; on a reachable target the waypoints are the reversed simplified parent chain, and success holds exactly when the chain has at least three cells; start equal to target fails; a reachable target that is neither the start nor a neighbour of it succeeds; the target's gCost is the start's gCost plus the route's cost; the start cell's record is untouched and every changed cell is reachable from the start |
| Pathfinding.RetracedWaypointsAreInterior | Pathfinding.cs:94-118 | every waypoint of a retraced route is the position of an interior cell: neither the start nor the target |
| Pathfinding.ShortRoutes | Pathfinding.cs:94-98 | a one-cell chain means start equals target; a two-cell chain is a single step from the start to a neighbour |
| Pathfinding.WaypointsExistPastOneStep | Pathfinding.cs:79-80 | a retraced route has at least one waypoint exactly when it has at least three cells |

## Left out

- `Heap<Node>` is not part of this model. The open set is a set, and `RemoveFirst` returns a
  first-ranking node. Heap-index bookkeeping, `UpdateItem` sift-up and the heap's choice among
  equally ranked nodes are not modelled; any node of first rank may be returned.
  The model's search never writes `heapIndex`, whereas `Heap.Add` and `UpdateItem` assign it;
  so Relax's clause that the neighbour's `heapIndex` is kept is a fact about the model, not about
  the program.
- `Grid` (`NodeFromWorldPoint`, `GetNeighbours`, `MaxSize`), `PathRequest` and `PathResult` are not
  part of this model. The grid is an input value with a total cell lookup and a neighbour list per
  cell. Its validity (lookups and neighbours are grid cells, and neighbours have other
  coordinates) is a precondition; `NeighboursInGrid` only unfolds it for one cell.
- `Awake` and the Unity component lookup are left out: the grid is a parameter of `FindPath`.
- The completion callback is not invoked. `FindPath` returns the `PathResult` that the source
  passes to the callback exactly once.
- `Path.cs` and `Unit.cs` (turn boundaries in floating point, coroutines, steering) are not part of
  this model.
- World positions are opaque `WorldPoint` values and are never computed on.
  - `SimplifyPath` compares integer grid steps as pairs.
  - The source compares them as Unity `Vector2` values, whose `!=` is approximate. For integer
    differences of grid coordinates of magnitude at most 2^24, which includes the −1..1 steps
    between adjacent cells, this agrees with exact comparison. The model compares exactly, and
    the grid's validity bounds neither coordinates nor neighbour distances, so larger steps
    are not modelled as the float comparison would see them.
- Pathfinding.FindPath: does not claim that the path is a shortest one. The start cell's gCost is
  not reset between searches, and optimality is not part of the source's promise.
- Pathfinding.GetDistance: costs are unbounded integers, so 32-bit `int` overflow of cost sums is
  not modelled.
- Nodes.Node.CompareTo: follows the code, which negates the comparison, so lower cost gives +1. The
  comment at Node.cs:49-51 says -1 for a lower cost.
- Pathfinding.GetDistance: the comment at Pathfinding.cs:126 calls it a Manhattan distance. The
  code computes the octile distance, and the model follows the code.
- Search and `FindPath` are one method in the source. The model splits out the search loop
  (`Search`), the neighbour loop (`ExpandNode`) and one neighbour's update (`Relax`) as methods
  with their own contracts. The source's `break` on reaching the target is a flag in the loop
  guard.
