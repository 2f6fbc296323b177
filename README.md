# Voronoi roadmap planner — search-graph core

This project models the planning core of a drone motion planner
(`planning_utils_search_graph.py`).

It covers these steps:

- Rasterise obstacle prisms into a 2.5-D occupancy grid. Each obstacle that reaches the flight altitude is inflated by a safety margin and clamped to the grid.
- Collect one reference point per such obstacle.
- Keep only the Voronoi ridges that cross no occupied or out-of-grid cell.
- Build an undirected weighted roadmap graph from the kept edges.
- Snap the start and goal to their nearest roadmap nodes.
- Run the file's A* variant between those nodes, then truncate the wrapped path to integer cells.

The modules follow the source's structure:

| module | file | models |
|---|---|---|
| `Wrappers` | `wrappers.dfy` | `Option`, `Result` |
| `Geometry` | `geometry.dfy` | points, cells, Python `int()`, `np.clip`, `np.ceil`, `np.min`/`np.max` |
| `Occupancy` | `occupancy.dfy` | first half of `create_grid_and_edges` (grid and reference points) |
| `LineOfSight` | `line_of_sight.dfy` | second half of `create_grid_and_edges` (edge filter) |
| `Roadmap` | `roadmap.dfy` | the `nx.Graph` built in `find_path`, and `closest_point` |
| `Search` | `search.dfy` | `a_star` |
| `Planner` | `planner.dfy` | `find_path` |

The source code shapes how each part is modelled:

- The grid is an `array2<int>` filled in place, as the numpy grid is.
- Loops stay loops, and each is proved against a specification function:
  - `Occupancy.Occupied` and `Occupancy.RefPoints` for the grid and the points;
  - `LineOfSight.Kept` for the filter;
  - `Roadmap.BuiltFrom` for the graph.
- The graph is a value: a sequence of nodes in insertion order, an adjacency map with each node's neighbours in insertion order, and a weight map.
- Python exceptions become `Err` results.

Python behaviours the model follows exactly:

- `int()` truncates toward zero.
- `np.clip(x, 0, size - 1)` returns `size - 1` when a grid axis is empty.
- `visited = set(start)` builds the set of the start's two coordinates, so no node is visited at first. The start can therefore be discovered again later through a neighbour.
- A node's cost is fixed when it is first discovered and is never relaxed.
- `a_star(start, start)` raises `KeyError` on `branch[goal]`.
- A start node outside the graph raises `KeyError` on `graph[start]`.
- `closest_point` returns `None` when no node is nearer than 100000. `a_star` then fails either way:
  - a `None` start raises `TypeError` in `set(None)`;
  - a `None` goal raises `TypeError` in `h(next_node, None)`, because a start taken from the roadmap always has a neighbour.

  `Planner.FindPath` reports both cases as `Err(NoNearbyNode)`.

For one obstacle centred at (10, 10) with half-extents 2 and top 40, flown at altitude 5 with safety margin 2, the grid spans 8 to 12 on both axes. The code clamps the inflated footprint to that grid, so all 4 x 4 cells are occupied (`Occupancy.SingleObstacleScenario`).

## Model

| member | source | states |
|---|---|---|
| Geometry.Trunc | planning_utils_search_graph.py:28-31 | Python `int()`: for non-negative x the result is the floor, for negative x the ceiling; it is negative exactly when x <= -1 |
| Geometry.Clip | planning_utils_search_graph.py:28-31 | `np.clip`: with lo <= hi the result lies in [lo, hi]; it is x inside the interval, lo below it and hi above it; with lo > hi it is hi |
| Geometry.Ceil | planning_utils_search_graph.py:14 | the least integer not below x |
| Geometry.MinOf | planning_utils_search_graph.py:13 | `np.min`: an element of the sequence, below or equal to every element |
| Geometry.MaxOf | planning_utils_search_graph.py:14 | `np.max`: an element of the sequence, above or equal to every element |
| Geometry.TruncPoint | planning_utils_search_graph.py:100 | `(int(n), int(e))`: each coordinate is truncated toward zero, so the cell lies within 1 of the point, below it for non-negative coordinates and above it for negative ones |
| Occupancy.GridBounds | planning_utils_search_graph.py:13-17 | each bound is the tightest integer bound of the obstacles' extents: every southern/western edge is at or above the minimum and some edge is less than one above it; likewise for the maxima |
| Occupancy.ClampIndex | planning_utils_search_graph.py:28-31 | on a non-empty axis the index is within [0, size-1]; it is 0 below the grid, size-1 above it, and the truncation of x inside |
| Occupancy.NonQualifyingIgnored | planning_utils_search_graph.py:26 | an obstacle whose top plus the safety margin does not exceed the drone altitude leaves every cell's occupancy and the reference points unchanged |
| Occupancy.Footprint | planning_utils_search_graph.py:27-32 | the four clamped indices of the inflated rectangle all lie inside a non-empty grid |
| Occupancy.OccupiedIffSomeObstacle | planning_utils_search_graph.py:24-33 | a cell is occupied after the loop exactly when some qualifying obstacle's clamped footprint covers it |
| Occupancy.RefPointsMember | planning_utils_search_graph.py:26-34 | a point is collected exactly when it is the grid-relative centre of some obstacle that passes the altitude test |
| Occupancy.RefPointsConcat | planning_utils_search_graph.py:24-34 | points are collected in obstacle order: the points of a ++ c are a's followed by c's |
| Occupancy.RefPointsCount | planning_utils_search_graph.py:26-34 | exactly one point per qualifying obstacle |
| Occupancy.RefPoint | planning_utils_search_graph.py:34 | the point plus the grid origin is the obstacle centre |
| Occupancy.OccupiedStep | planning_utils_search_graph.py:24-33 | one more obstacle adds exactly the cells it marks |
| Occupancy.RefPointsStep | planning_utils_search_graph.py:26-34 | one more obstacle appends its point exactly when it qualifies |
| Occupancy.FillRect | planning_utils_search_graph.py:33 | slice assignment: the rectangle becomes 1 and every other cell keeps its value |
| Occupancy.MarkObstacle | planning_utils_search_graph.py:25-33 | one loop pass keeps the grid equal to the occupancy of the obstacles processed so far |
| Occupancy.CreateGrid | planning_utils_search_graph.py:13-34 | the grid has the bounds' dimensions, holds 1 exactly on occupied cells and 0 elsewhere; the points are the qualifying obstacles' centres in order; the returned origin is the bounds' minima |
| Occupancy.SingleObstacleScenario | planning_utils_search_graph.py:13-34 | one obstacle at (10, 10), half-extents 2, flown at 5 with margin 2: bounds 8..12, all 4 x 4 cells occupied, one point (2, 2) |
| LineOfSight.KeptMember | planning_utils_search_graph.py:42-55 | an edge is kept exactly when it is a ridge all of whose rasterised cells are inside the grid and not 1 |
| LineOfSight.RidgeCellsTruncated | planning_utils_search_graph.py:42 | the rasterised cells of a ridge depend only on the `int()`-truncated endpoints |
| LineOfSight.CellFreeIffUncovered | planning_utils_search_graph.py:46-51 | on the grid built by `create_grid_and_edges`, a cell passes the scan exactly when it is inside the grid and no qualifying obstacle's clamped footprint covers it |
| LineOfSight.KeptConcat | planning_utils_search_graph.py:39-55 | kept edges follow ridge order |
| LineOfSight.KeptLength | planning_utils_search_graph.py:39-55 | the filter never adds edges |
| LineOfSight.FilterEdges | planning_utils_search_graph.py:38-55 | the early-exit cell scan keeps exactly the edges of `Kept` |
| Roadmap.EmptyGraph | planning_utils_search_graph.py:80 | `nx.Graph()` is a well-formed graph with no nodes |
| Roadmap.Register | planning_utils_search_graph.py:85 | registering a node keeps the old order as a prefix, adds one entry exactly when the node is new, and keeps the order duplicate-free |
| Roadmap.FirstAppearance | planning_utils_search_graph.py:81-85 | the nodes of a sequence of edges in order of first appearance: exactly the endpoints, each once |
| Roadmap.AddNode | planning_utils_search_graph.py:85 | the node order gains a exactly when a is new (at the end), and stays duplicate-free; adjacency and weights are unchanged |
| Roadmap.AddNeighbour | planning_utils_search_graph.py:85 | adjacency gains exactly the pair (a, b); nodes and weights are unchanged |
| Roadmap.Connect | planning_utils_search_graph.py:85 | the node order is that of registering a then b, and adjacency gains exactly (a, b) and (b, a) |
| Roadmap.AddEdge | planning_utils_search_graph.py:85 | `add_edge` registers a then b in the node order, keeps the graph undirected and weighted, and (re)writes the weight in both orientations |
| Roadmap.LinksSnoc | planning_utils_search_graph.py:81-85 | one more edge adds its two orientations and its two endpoints |
| Roadmap.FirstAppearanceSnoc | planning_utils_search_graph.py:81-85 | one more edge registers its first and then its second endpoint in the node order |
| Roadmap.BuildNodesStep | planning_utils_search_graph.py:81-85 | adding the next edge keeps the node order the first-appearance order of the longer prefix |
| Roadmap.BuildAdjacencyStep | planning_utils_search_graph.py:81-85 | adding the next edge keeps adjacency exactly the links of the longer prefix |
| Roadmap.BuildWeightStep | planning_utils_search_graph.py:81-85 | adding the next edge keeps every weight on a link of the longer prefix and equal to its distance |
| Roadmap.BuildStep | planning_utils_search_graph.py:81-85 | adding the next edge keeps the graph that of the longer prefix of edges |
| Roadmap.BuildGraph | planning_utils_search_graph.py:80-85 | the nodes are the endpoints in order of first appearance, each once; adjacency is exactly the edge pairs in either orientation; every weight is the distance between the pair it labels |
| Roadmap.ClosestPoint | planning_utils_search_graph.py:64-73 | None exactly when no node is nearer than 100000; otherwise a node of least distance, below the sentinel, and the first such node in node order |
| Roadmap.WalkCons | planning_utils_search_graph.py:144-148 | prepending an adjacent node extends a walk and adds that edge's weight to its cost |
| Search.MinIndex | planning_utils_search_graph.py:118 | `queue.get()`: an entry of least priority, with no earlier entry of equal priority |
| Search.Reverse | planning_utils_search_graph.py:153 | `path[::-1]`: same length, element i is element n-1-i |
| Search.ReverseSnoc | planning_utils_search_graph.py:153 | reversing s + [x] puts x first |
| Search.Expand | planning_utils_search_graph.py:130-139 | every neighbour becomes visited; exactly the new ones get a branch entry (current's cost plus the edge weight, predecessor current) and one queue entry each, appended after the old queue; old entries are untouched |
| Search.InQueueAfterPop | planning_utils_search_graph.py:118 | popping one entry keeps every other queued node queued |
| Search.InQueueExtended | planning_utils_search_graph.py:139 | appending entries keeps queued nodes queued |
| Search.UnvisitedShrinks | planning_utils_search_graph.py:117-139 | discovering a node shrinks the set of unvisited nodes; this supports the termination measure of the search loop |
| Search.SubsetCard | planning_utils_search_graph.py:117-139 | a subset is no larger than its superset; this bounds the termination measure of the search loop |
| Search.WalkStaysInside | planning_utils_search_graph.py:117-139 | a node set closed under adjacency contains the end of every walk that starts inside it |
| Search.ChainOrderStep | planning_utils_search_graph.py:145-147 | following an earlier-discovered predecessor keeps the chain distinct and time-ordered |
| Search.ChainWalkStep | planning_utils_search_graph.py:145-147 | following a predecessor keeps the reversed chain a walk whose cost plus the last node's cost is the goal's cost |
| Search.ChainStep | planning_utils_search_graph.py:145-147 | one step of the predecessor loop extends a sound chain |
| Search.ChainCloseWalk | planning_utils_search_graph.py:148-153 | closing the chain with the start yields a walk from start to goal whose weight sum is the goal's branch cost |
| Search.ChainCloseDistinct | planning_utils_search_graph.py:148-153 | closing a duplicate-free chain avoiding the start keeps it duplicate-free |
| Search.ChainClose | planning_utils_search_graph.py:148-153 | the closed chain is a duplicate-free walk from start to goal of the goal's cost |
| Search.Reconstruct | planning_utils_search_graph.py:141-153 | the reconstructed path runs from start to goal along graph edges, has no repeated node, and its cost `branch[goal][0]` equals its weight sum |
| Search.Stamp | planning_utils_search_graph.py:136-138 | discovery times keep old entries and give every newly visited node the current round |
| Search.DiscoveredStep | planning_utils_search_graph.py:120-139 | expanding a node keeps every branch entry sound: the predecessor is adjacent and discovered earlier (or is the start, whose current cost is 0) and the cost adds the joining weight to the predecessor's cost |
| Search.FrontierStep | planning_utils_search_graph.py:117-139 | after a pass every discovered node (and the start) is expanded or still queued, and expanded nodes have all neighbours visited |
| Search.EnqueuedStep | planning_utils_search_graph.py:136-139 | each node other than the start is enqueued at most once, and each pass discovers a node or shrinks the queue |
| Search.QueuedWithinLog | planning_utils_search_graph.py:118-139 | popping one entry and appending the new entries keeps the log of enqueued nodes an extension of the old one, with the appended queue entries carrying exactly the new log entries, and keeps the queued nodes within that log as a multiset |
| Search.ExhaustedUnreachable | planning_utils_search_graph.py:117-152 | when the queue runs dry no walk from the start reaches the goal |
| Search.Visit | planning_utils_search_graph.py:117-139 | one pass of the loop after the pop keeps the branch sound, the frontier covered and each node enqueued once; the queue is the old one without the popped entry followed by one entry for each newly logged node; the queued nodes stay within the log as a multiset; the pass discovers a node or shrinks the queue |
| Search.Explore | planning_utils_search_graph.py:107-139 | raises exactly for a start outside the graph that is not the goal; start = goal stops at once with an empty branch; found implies the goal is the start or discovered; not found implies the goal is unreachable; the branch is sound; each node other than the start is enqueued at most once, and a loop invariant keeps the queued nodes within that log as a multiset |
| Search.AStar | planning_utils_search_graph.py:107-153 | KeyError exactly for start = goal or a start outside the graph; a non-empty path is a duplicate-free walk from start to goal whose cost is its weight sum; an empty path has cost 0 and the goal is unreachable |
| Search.PathOfThreeShape | planning_utils_search_graph.py:80-85 | adding edges a-b and b-c gives a valid graph with exactly those adjacencies |
| Search.ThreeNodeScenario | planning_utils_search_graph.py:107-153 | in a graph a-b-c the only duplicate-free walk from a to c is [a, b, c], with cost the sum of the two weights |
| Search.ThreeNodeRun | planning_utils_search_graph.py:107-153 | `a_star` from a to c on any graph shaped a-b-c, with any heuristic, returns the route [a, b, c] with the sum of the two edge weights as its cost |
| Planner.TruncatePath | planning_utils_search_graph.py:98-100 | each point becomes its `int()` cell, in order; each cell is within 1 of its point |
| Planner.Snap | planning_utils_search_graph.py:80-89 | the roadmap is the graph of the edges, nodes in order of first appearance; each query point snaps to None exactly when every node is at least the sentinel away, and otherwise to the first nearest node |
| Planner.SearchAndWrap | planning_utils_search_graph.py:92-100 | for two roadmap nodes it fails exactly when they coincide; a non-empty plan frames the walk found with the two query points before truncation, and an empty plan means the nodes are not connected |
| Planner.FindPath | planning_utils_search_graph.py:76-104 | the roadmap is the graph of the edges (nodes in order of first appearance, adjacency the edge pairs, weights the distances); a query point snaps to None exactly when every node is at least the sentinel away, and otherwise to the first nearest node; the plan fails exactly when a query point has no node or both snap to one node; a non-empty plan is truncated start, truncated duplicate-free walk between the snapped nodes, truncated goal, with the walk's weight sum as cost; an empty plan means the snapped nodes are not connected |

## Left out

- The Voronoi diagram (line 36) is not modelled. Its ridge endpoints arrive as the `ridges` parameter of `LineOfSight.FilterEdges`, so the `-1` vertex index Voronoi uses for ridges to infinity (which the code reads as the last vertex) is not captured.
- `bresenham` is not modelled. It is the `line` parameter, applied to the `int()`-truncated endpoints.
- `LA.norm` and `heuristic` are not modelled. Both are the `dist` parameter, and the heuristic is the `h` parameter of `Search.AStar`; the model proves nothing about square roots or rounding.
- Floating point is not modelled: coordinates and costs are mathematical reals, with no rounding.
- `PriorityQueue` tie-breaking is modelled differently. On equal priorities Python compares the node tuples, while `Search.MinIndex` takes the earliest entry, so the order does not match the source.
- The internals of networkx are not modelled. The graph is a value holding nodes, neighbour lists and weights.
- Roadmap.BuildGraph: its contract states that each weight is the distance in one orientation or the other. It does not state which of two duplicate edges wins; that is stated only per step, by `Roadmap.AddEdge`.
- Search.Expand: the contract does not fix the order of the new queue entries among themselves (the code appends them in neighbour order). Because `Search.MinIndex` breaks ties by position, the model's choice among equal priorities is therefore not pinned either.
- Search.AStar: the contract does not claim the path is shortest. The source never relaxes a cost, so the route need not be least-cost; the contract states only that the route is a walk and that its cost is its weight sum.
- Occupancy.CreateGrid requires at least one obstacle, because `np.min` on an empty array raises. It also requires non-negative grid sizes, because `np.zeros` refuses negative dimensions.
- `print` calls are not modelled (they only log).
- `motion_planning_search_graph.py` is not part of this model: the drone connection, the state machine, the map file reading and the waypoint sending.
- `Planner.FindPath` takes the kept edges directly; `create_grid_and_edges` is modelled as `Occupancy.CreateGrid` followed by `LineOfSight.FilterEdges`.
