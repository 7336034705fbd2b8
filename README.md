# RUMaps: a model of the Rutgers campus street network

RUMaps loads the campus map as a network. Intersections are the vertices and are identified by their coordinates. Blocks are the street segments between intersections. Each intersection owns an adjacency list of block records. Every block is filed twice: once at its starting intersection and once, with its endpoints swapped, at its ending intersection. After loading, each record gets three attributes:

- a length (the length of its polyline);
- a random traffic factor, clamped into [0.5, 1.5];
- a traffic (factor times length).

The program then answers four queries over the network:

- the intersections reachable from a source (recursive depth-first search);
- the path with the fewest intersections (breadth-first search);
- the path with the least traffic (a Dijkstra-style search);
- the length, traffic and average traffic factor of a given path.

The model is written in Dafny, file by file:

- `collections.dfy`: `Option`, the first-match lookup `IndexOf`, and sequence helpers.
- `network.dfy`:
  - the `Graph` value (vertices, adjacency lists of `Block` records);
  - walks and reachability;
  - the `Network` class whose methods the construction mutates.
- `construction.dfy`: the construction loop as a method on `Network`, specified by the pure `Build`.
- `attributes.dfy`: the length, factor and traffic of a record, and the in-place pass that assigns them.
- `reachability.dfy`, `fewest_hops.dfy`, `least_traffic.dfy`: the three searches, as methods with loops proved against the graph's `Reachable` and `IsWalk` and against `PathCost`.
- `path_metrics.dfy`: the path figures, and their relation to the least-traffic cost.
- `rumaps.dfy`: the constructor's sequence of construction and attribute assignment.

The network's vertex indices are ints. An intersection's index is the position of its coordinate's first occurrence, as the lookup by coordinate finds it.

## Model

| member | source | states |
|---|---|---|
| Collections.IndexOf | src/rumaps/RUMaps.java:119-120 | The lookup by coordinate answers an index in range holding that coordinate, with no earlier occurrence. It answers -1 exactly when the coordinate is not registered. |
| Collections.IndexOfAppend | src/rumaps/RUMaps.java:121-141 | Registering new intersections never changes the index of one already registered. A new one gets its position after the old ones. |
| Network.Network.constructor | src/rumaps/RUMaps.java:38 | A fresh network has no intersections and no adjacency lists. |
| Network.Network.AddIntersection | src/rumaps/RUMaps.java:124 | Registering an intersection appends it at the next index, with an empty list; nothing else changes. |
| Network.Network.AddEdge | src/rumaps/RUMaps.java:149-150 | Adding an edge puts the record at the head of that one intersection's list; nothing else changes. |
| Network.Network.SetRecord | src/rumaps/RUMaps.java:44-46 | The setters change one record of one list in place; nothing else changes. |
| Network.ReachableSymmetric | src/rumaps/RUMaps.java:142-150 | In a two-way network (every record has its swapped twin at the far end), reachability is symmetric. |
| Construction.InitializeIntersections | src/rumaps/RUMaps.java:114-153 | After the loop over the blocks, the network is exactly `Build` of the old network and the blocks, processed in order. |
| Construction.AddBlock | src/rumaps/RUMaps.java:115-151 | One iteration registers the missing endpoints and files the forward record at the start and the swapped copy at the end. |
| Construction.RegisterEndpoints | src/rumaps/RUMaps.java:119-141 | Only endpoints not already registered are appended (a self-loop's point twice). The indices answered are the endpoints' lookups in the updated network. |
| Construction.InsertKeepsLookups | src/rumaps/RUMaps.java:119-141 | Processing a block keeps the index of every intersection registered before it. |
| Construction.InsertValid | src/rumaps/RUMaps.java:115-151 | Processing a block keeps the network well formed: one list per intersection, and each record's first endpoint is the owner of its list. |
| Construction.InsertUndirected | src/rumaps/RUMaps.java:142-150 | Processing a block keeps the network two-way: every record has its swapped twin in the list of its far endpoint. |
| Construction.BuildValid | src/rumaps/RUMaps.java:114-153 | Building from a well-formed, two-way network keeps it well formed and two-way. |
| Construction.BuildRegisters | src/rumaps/RUMaps.java:119-141 | After building, both endpoints of every block are registered intersections. |
| Construction.BuildDistinct | src/rumaps/RUMaps.java:119-141 | No coordinate is registered twice, provided every self-loop block comes after its coordinate is registered. A self-loop at a new coordinate registers it twice (`Construction.InsertDistinct`). |
| Construction.InsertDistinct | src/rumaps/RUMaps.java:119-141 | Processing a block keeps coordinates distinct, except for a self-loop at a new coordinate, which appends that coordinate twice. |
| Construction.BuildFromEmpty | src/rumaps/RUMaps.java:38-41 | The network built from scratch is well formed and two-way, and holds every block's endpoints. |
| Attributes.PolylineLength | src/rumaps/RUMaps.java:161-168 | A block's length is non-negative whenever point distances are. |
| Attributes.PolylineFront | src/rumaps/RUMaps.java:161-168 | The length is also the first segment plus the length of the rest. |
| Attributes.PolylineReversed | src/rumaps/RUMaps.java:161-168 | With a symmetric distance (as Euclidean distance is), a polyline read backwards has the same length. |
| Attributes.BlockLength | src/rumaps/RUMaps.java:161-168 | The loop over consecutive point pairs computes the polyline length, 0 for fewer than two points. |
| Attributes.ClampFactor | src/rumaps/RUMaps.java:400-405 | The factor lies in [0.5, 1.5]. It equals the sample inside that range, 0.5 below it and 1.5 above it. |
| Attributes.BlockTraffic | src/rumaps/RUMaps.java:413-417 | A record's traffic is non-negative for a non-negative factor and length. With a factor in [0.5, 1.5] it lies between 0.5 and 1.5 times the length. |
| Attributes.AssignAttributes | src/rumaps/RUMaps.java:42-50 | Every record of every list gets its length, clamped factor and traffic, in that order. Vertices, list lengths and all other fields are unchanged. |
| Attributes.AssignedWeighted | src/rumaps/RUMaps.java:42-50 | After the pass, every record is consistent: length is polyline length, factor is in [0.5, 1.5], traffic is factor times length. The traffic is non-negative when distances are. |
| Attributes.AssignedKeepsShape | src/rumaps/RUMaps.java:42-50 | The pass keeps the network well formed and two-way, since it changes no endpoint. |
| Attributes.TwinsShareLength | src/rumaps/RUMaps.java:42-50 | The two copies of a block carry the same length after the pass. |
| Reachability.Visit | src/rumaps/RUMaps.java:185-195 | The depth-first preorder, defined recursively: an already listed vertex adds nothing. Otherwise the vertex is appended, then the targets of its records are visited from the head of its list. The result extends the order, stays duplicate-free and in range, and holds the vertex. |
| Reachability.VisitFrom | src/rumaps/RUMaps.java:189-194 | Visiting the targets of a vertex's records from position `k` on, in list order, extends the order and keeps it duplicate-free and in range. |
| Reachability.DfsHelper | src/rumaps/RUMaps.java:185-195 | The visit of an unvisited vertex appends exactly the preorder `Visit`: the vertex itself, then the vertices its records lead to, recursively, in list order. The appended vertices are distinct and reachable from it. The visited flags match the list. Every record of an appended vertex leads to a listed vertex. |
| Reachability.ReachableIntersections | src/rumaps/RUMaps.java:177-184 | The result is the preorder `Visit` from the source. It starts with the source and lists no vertex twice. It lists a vertex if and only if that vertex is reachable from the source. |
| FewestHops.ExpandNeighbours | src/rumaps/RUMaps.java:240-250 | Expanding a dequeued vertex marks and enqueues, in list order, the unmarked vertices its records lead to: the new part of the queue is exactly `Unmarked`, the in-list-order targets that were unmarked, each once. Each gets the dequeued vertex as its tree parent and a level one higher. |
| FewestHops.Unmarked | src/rumaps/RUMaps.java:241-250 | The in-order list of targets the expansion enqueues has no duplicates, and each target was unmarked before the expansion. |
| FewestHops.UnmarkedNext | src/rumaps/RUMaps.java:244 | The next record adds its target to that list exactly when the target is not marked yet, which is the test the loop makes. |
| FewestHops.ExpandRecord | src/rumaps/RUMaps.java:242-249 | One record: its target is enqueued, marked and hung under the dequeued vertex if it was unmarked. The queue's new part stays the in-order list `Unmarked`. |
| FewestHops.Enqueue | src/rumaps/RUMaps.java:244-248 | One unmarked neighbour is marked, given its tree parent and appended to the queue. |
| FewestHops.BfsHelper | src/rumaps/RUMaps.java:231-252 | The marks and parents form a tree of walks from the start. If the end is marked, its tree depth is its fewest-hops distance. If it is unmarked, it is unreachable. |
| FewestHops.HeadIsShortest | src/rumaps/RUMaps.java:234-239 | The vertex at the head of the queue is at its fewest-hops distance from the start (why the early stop is sound). |
| FewestHops.SettledIsShortest | src/rumaps/RUMaps.java:234-251 | With the queue empty, every marked vertex is at its tree depth from the start and every unmarked vertex is unreachable. |
| FewestHops.TreeParent | src/rumaps/RUMaps.java:219-223 | Only the start has no tree parent; every other marked vertex's parent is joined to it and one level closer. |
| FewestHops.PathTo | src/rumaps/RUMaps.java:219-228 | Following the parents from the end and reversing gives a walk from the start to the end, one vertex longer than the end's depth. |
| FewestHops.MinimizeIntersections | src/rumaps/RUMaps.java:208-230 | No path is returned if and only if the end is unreachable. Otherwise the result is a walk from start to end with no more intersections than any other such walk. From an intersection to itself it is that one intersection. |
| LeastTraffic.PathCostPrefix | src/rumaps/RUMaps.java:303-304 | With non-negative traffic, a prefix of a walk costs no more than the walk. |
| LeastTraffic.PathCostCons | src/rumaps/RUMaps.java:303-304 | One step in front of a walk adds that step's traffic to its cost. |
| LeastTraffic.ExtractMin | src/rumaps/RUMaps.java:284-292 | The scan finds the first fringe vertex of least distance. |
| LeastTraffic.ExtractIsOptimal | src/rumaps/RUMaps.java:284-296 | With non-negative traffic, the fringe vertex of least distance has a distance no walk from the start undercuts. |
| LeastTraffic.Relax | src/rumaps/RUMaps.java:298-313 | Relaxing a settled vertex's records lowers each neighbour's distance to the settled distance plus the record's traffic when smaller. It records the predecessor and adds newly reached vertices to the fringe. |
| LeastTraffic.RelaxRecord | src/rumaps/RUMaps.java:300-312 | One record: an unsettled neighbour's distance is lowered or kept, as above. |
| LeastTraffic.SettledIsComponent | src/rumaps/RUMaps.java:283-314 | When the fringe is empty, the settled set is exactly the vertices reachable from the start. |
| LeastTraffic.Search | src/rumaps/RUMaps.java:267-314 | The search settles exactly the reachable vertices, and a vertex has a distance exactly when it is settled. Each settled distance is optimal under non-negative traffic. |
| LeastTraffic.Unwind | src/rumaps/RUMaps.java:315-322 | Following predecessors from a settled end and reversing gives a walk from the start costing no more than the end's distance. An end without predecessor gives the path holding the end alone. |
| LeastTraffic.UnwindEnd | src/rumaps/RUMaps.java:315-322 | The finished back-walk, reversed, is the path that `Unwind` promises. |
| LeastTraffic.FastestPath | src/rumaps/RUMaps.java:266-323 | If the end is reachable, the result is a walk from start to end. With non-negative traffic, no walk between them costs less. If it is unreachable, the result holds the end alone. From an intersection to itself it is that one intersection. |
| PathMetrics.FirstLink | src/rumaps/RUMaps.java:347-356 | The scan finds the first record leading from the current intersection to the next one, or -1 exactly when no record does. |
| PathMetrics.FindLink | src/rumaps/RUMaps.java:347-356 | The loop over the list finds no record exactly when there is none. Otherwise it finds the first record that leads to the next intersection. |
| PathMetrics.PathInformation | src/rumaps/RUMaps.java:336-364 | The figures are the total length and total traffic of the records the steps are charged to. The average is traffic over length, and absent when the length is 0. A path of at most one intersection gives zeros. |
| PathMetrics.TrafficBounds | src/rumaps/RUMaps.java:357-358 | On a weighted network, a path's length is non-negative and its traffic lies between 0.5 and 1.5 times its length. |
| PathMetrics.AverageInRange | src/rumaps/RUMaps.java:361 | The average traffic factor of a path of non-zero length lies in [0.5, 1.5]. |
| PathMetrics.LinkedStep | src/rumaps/RUMaps.java:347-356 | The record a step is charged to starts at the current intersection and ends at the next one. |
| PathMetrics.WalkIsConnected | src/rumaps/RUMaps.java:340-356 | Every step of a walk the searches return has a record to charge it to. |
| PathMetrics.ConnectedIsWalk | src/rumaps/RUMaps.java:340-356 | A path whose every step has a record is a walk of the network. |
| PathMetrics.TrafficCoversCost | src/rumaps/RUMaps.java:303-304 | The traffic reported for a walk is at least the cost the least-traffic search minimises. |
| PathMetrics.StepCovers | src/rumaps/RUMaps.java:303-304 | One step's charged record carries at least the least traffic among the records for that step. |
| RUMaps.Load | src/rumaps/RUMaps.java:33-51 | The constructor builds the network from the blocks and weighs every record. The result is well formed, two-way and weighted, and holds every block's endpoints. Traffic is non-negative when distances are. |

## Left out

- Reading the input file (`StdIn`), `initializeBlocks` and the map panel are not modelled. The parsed blocks are the input of `RUMaps.Load`.
- The Euclidean distance (`Math.sqrt`) is the parameter `dist`. Its non-negativity, and for `Attributes.PolylineReversed` its symmetry (Euclidean distance has both), are assumed where a property needs them.
- The Gaussian sample (`StdRandom.gaussian(1, 0.2)`) is the parameter `draw(u, k)`: the value drawn for record `k` of intersection `u`.
- Floating-point numbers are exact reals. Rounding, and the order-dependence of sums it causes, is not modelled.
- `Double.MAX_VALUE` as "no distance yet" is `None`. Java's `NaN` or infinite average for a zero-length path is `None` too.
- The source of the program's `Network`, `Block`, `Intersection`, `Coordinate` and `Queue` classes is not part of this model. The model's `Network` class and its `Block` and `Coordinate` records are built from how RUMaps.java uses them. The breadth-first search takes `Queue` to be first-in first-out, with `enqueue` at the back and `dequeue` at the front; it is a `seq` here. From their use: `findIntersection` is a first-match lookup by coordinate, and intersections are equal when their coordinates are. Linked records are immutable values in sequences, so two references to one record cannot be told apart from two equal records.
- The adjacency array's fixed capacity (`numIntersections`) is not modelled. The lists grow as intersections are registered, and unused slots never hold records.
- PathMetrics.PathInformation: requires every step to have a record. The program dereferences a null block and throws when a step has none.
- LeastTraffic.FastestPath: with no path, the program returns the list holding only the end, not the empty list its comment describes. Optimality is stated under non-negative traffic, which every loaded network has (see `RUMaps.Load`).
- LeastTraffic.PathCost: charges each step the least `traffic` field among the records joining its two intersections, since the search relaxes through every such record and keeps the lowest distance. `PathMetrics.PathTraffic` charges the first record, as `pathInformation` does. `PathMetrics.TrafficCoversCost` relates the two.
- FewestHops.MinimizeIntersections: with no path, the program returns `null` (here `None`), not the empty list its comment describes.
- Dijkstra's search does not stop once the end is settled, despite its comment; the model follows the code and settles every reachable intersection.
- Reachability.ReachableIntersections: requires the source to be registered. For an unregistered source, `findIntersection` answers -1 and the program throws at `visited[-1]` (RUMaps.java:186); the `requires` stands for that exception.
- FewestHops.MinimizeIntersections: requires start and end to be registered. Otherwise the program throws at `marked[-1]` (RUMaps.java:235 for the start, :215 for the end); the `requires` stands for that exception.
- LeastTraffic.FastestPath: requires start and end to be registered. Otherwise the program throws at `distances.set(-1, …)` (RUMaps.java:280) or `predecessors.get(-1)` (:319); the `requires` stands for that exception.
- Construction.InitializeIntersections: requires every block to have at least one point. The program throws at `blockCoords.get(0)` (RUMaps.java:117) on an empty polyline; the `requires` stands for that exception.
- RUMaps.Load: requires every block to have at least one point, for the same exception at RUMaps.java:117.
