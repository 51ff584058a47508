# Graph classes: a verified Dafny model

This project models six small Python graph classes and proves what their code
promises:

- `WeightedGraph` (dijkstra_algo.py): an N x N integer weight matrix with
  Dijkstra's shortest path. Modules `WeightMatrix` and `DijkstraAlgo`.
- `Graph` with breadth-first search (breadth_first_search.py). Module `BreadthFirstSearch`.
- `Graph` with an explicit-stack depth-first search (depth_first_search.py). Module `DepthFirstSearch`.
- `Graph` with adjacency lists in four weighted/directed modes
  (weighted_directed_graph.py). Module `WeightedDirectedGraph`.
- `Graph` as a symmetric 0/1 adjacency matrix (adjacency_matrix.py). Module `AdjacencyMatrix`.
- `Graph` as undirected adjacency lists that allow repeated entries
  (adjacency_list.py). Module `AdjacencyList`.

Shared modules hold what several classes have in common:

- `Common`: the `Option` datatype (`None` for Python's `None`), duplicate-free lists and a pigeonhole bound.
- `Matrices`: square list-of-lists matrices, the zero matrix and a single cell write.
- `UndirectedLists`: the append-at-both-ends lists built by adjacency_list.py,
  breadth_first_search.py and depth_first_search.py, and reachability along them.

Each Python class is a Dafny `class`. Fields the Python code updates in place
become fields (`seq` for lists) that the methods reassign under a `modifies`
clause. Loops stay loops with their invariants. Each method is specified by
pure functions on the old state, and the properties the code promises are
proved about those functions as lemmas. A Python exception is a `raised`
result (or `None` in a function) together with the state the exception
leaves behind.

Every `shortest_path` result is proved correct.

- An out-of-range node raises ValueError, modelled as `raised` with an empty path.
- A reachable target gets a walk from `source` along entries greater than zero. No such walk is lighter.
- An unreachable target gets `[target]`.
- `shortest_path(x, x)` is `[x]`.

The proof uses the loop invariant of Dijkstra's algorithm:

- visited nodes hold their least distance;
- every edge from a visited node to an unvisited one has been relaxed;
- `previous` forms a tree of finite distances rooted at the source.

A potential argument shows that in the two graphs of the module's `__main__`
block the only lightest walks are `[0, 2, 4, 3, 5]` and `[1, 3, 0, 5]`, both of
weight 20. So `DemoMain`, which builds both graphs and calls `shortest_path`,
is proved to return exactly those lists.

The docstring at dijkstra_algo.py:62 says that an unreachable target gives an
empty list. The code at dijkstra_algo.py:102-107 returns `[target]`, because
`previous[target]` is still -1. The model follows the code:
`ShortestPath` ensures `[target]` when the target is not reachable.
`DemoUnreachable` shows such a case on the directed demo graph. `DemoMain` adds a call `shortest_path(5, 0)` there, which the `__main__` block does not make, and is proved to return `[0]`.

Every `depth_first_search` result is proved to hold exactly the nodes reachable
from the root, each once, root first. The order is stated as well. Each
node after the root is the most recently pushed node not yet visited, since
the stack is last in, first out and visited nodes popped on the way are
discarded. At the end nothing pushed is left unvisited. `LatestFirstUnique`
shows that these two conditions leave only one possible result. For example,
on a star with centre 0 (`StarMain`), the search from 0 must return
`[0, 3, 2, 1]`.

## Model

| member | source | states |
|---|---|---|
| `Common.NodeSet` | dijkstra_algo.py:80 | `set(range(n))` holds exactly the integers in `[0, n)` |
| `Common.NodeSetSize` | dijkstra_algo.py:80 | `set(range(n))` has `n` elements |
| `Common.DistinctBounded` | breadth_first_search.py:40-70 | a duplicate-free list of node numbers below `n` has at most `n` entries |
| `Common.SubsetBounded` | dijkstra_algo.py:80-88 | a set of node numbers below `n` has at most `n` elements, which bounds the number of passes of the main loop |
| `Common.DistinctElements` | breadth_first_search.py:40-70 | a duplicate-free list has as many distinct elements as entries |
| `Matrices.Zeros` | dijkstra_algo.py:34 | `[[0] * n for _ in range(n)]` is square and all zero |
| `Matrices.Put` | dijkstra_algo.py:48 | `m[i][j] = v` changes cell `(i, j)` to `v` and no other cell, and keeps the matrix square |
| `WeightMatrix.Assign` | dijkstra_algo.py:47-51 | the writes of `add_edge` keep the matrix N x N |
| `WeightMatrix.AssignAt` | dijkstra_algo.py:47-51 | `add_edge` writes `weight` into `[n1][n2]`, and into `[n2][n1]` when undirected, and leaves every other cell unchanged |
| `WeightMatrix.AssignSymmetric` | dijkstra_algo.py:50-51 | on an undirected graph `add_edge` keeps the matrix symmetric |
| `WeightMatrix.Built` | dijkstra_algo.py:33-38 | construction yields an N x N matrix |
| `WeightMatrix.BuiltAt` | dijkstra_algo.py:33-38 | after construction each cell holds the weight of the last listed edge that writes it, or 0: last write wins |
| `WeightMatrix.LastWriteAppend` | dijkstra_algo.py:37-38 | a later edge overrides the cells it writes and leaves the others to the earlier edges |
| `WeightMatrix.LastWriteMirror` | dijkstra_algo.py:50-51 | without direction, the last write to a cell is also the last write to its mirror |
| `WeightMatrix.BuiltSymmetric` | dijkstra_algo.py:33-51 | an undirected graph is constructed symmetric |
| `WeightMatrix.Weight` | dijkstra_algo.py:93-95 | the weight of a walk along entries greater than zero is at least its number of steps |
| `WeightMatrix.ExtendPath` | dijkstra_algo.py:93-95 | extending a walk along a positive entry gives a walk whose weight grows by that entry |
| `WeightMatrix.PrefixPath` | dijkstra_algo.py:93-95 | every prefix of a walk is a walk and weighs no more |
| `WeightMatrix.StaysInside` | dijkstra_algo.py:93 | a walk that starts in a set which no positive entry leaves ends in that set |
| `WeightMatrix.TightPath` | dijkstra_algo.py:93-97 | a walk that weighs exactly the rise of a feasible potential along it follows only entries on which the potential rises by the entry itself |
| `WeightMatrix.PotentialBound` | dijkstra_algo.py:93-97 | a potential that rises by at most the weight along every positive entry bounds every walk's weight from below |
| `DijkstraAlgo.Reversed` | dijkstra_algo.py:107 | `path[::-1]` has the same length and holds the entries in reverse order |
| `DijkstraAlgo.ReversedSnoc` | dijkstra_algo.py:104-107 | reversing a list with one more appended entry puts that entry first |
| `DijkstraAlgo.Trace` | dijkstra_algo.py:101-105 | following `previous` back from `v` ends in `v` and is never empty |
| `DijkstraAlgo.TraceStep` | dijkstra_algo.py:103-105 | one step back along `previous` lands on a node of strictly smaller distance, so the reconstruction loop ends; at -1 the walk is just the node |
| `DijkstraAlgo.TraceWalk` | dijkstra_algo.py:93-105 | from a node with a finite distance, following `previous` gives a walk from the source of exactly that weight; from a node at infinity it gives the node alone |
| `DijkstraAlgo.NearestUnique` | dijkstra_algo.py:109-118 | the choice of `__find_min_index` is determined by the distances and the visited set |
| `DijkstraAlgo.Begin` | dijkstra_algo.py:71-78 | the initial distances, predecessors and empty visited set satisfy the main loop's invariant |
| `DijkstraAlgo.FirstUnvisited` | dijkstra_algo.py:80-88 | a walk ending outside the visited set has a first node outside it |
| `DijkstraAlgo.CrossingBound` | dijkstra_algo.py:80-99 | a walk from the source that leaves the visited set leaves it at a node whose distance is at most the walk's weight |
| `DijkstraAlgo.Settle` | dijkstra_algo.py:82-88 | the node `__find_min_index` picks already holds its least distance when it is marked visited |
| `DijkstraAlgo.AdvanceTree` | dijkstra_algo.py:91-99 | relaxation keeps `previous` a tree of finite distances rooted at the source whose inner nodes are visited |
| `DijkstraAlgo.AdvanceShortest` | dijkstra_algo.py:88-99 | relaxation never changes the distance of a visited node, so visited nodes keep their least distance |
| `DijkstraAlgo.AdvanceFrontier` | dijkstra_algo.py:88-99 | after relaxing from the new node, every visited node is no farther than any unvisited one and all their edges are relaxed |
| `DijkstraAlgo.Advance` | dijkstra_algo.py:80-99 | one pass of the main loop keeps its whole invariant |
| `DijkstraAlgo.Enclosed` | dijkstra_algo.py:84-85 | when every unvisited node is at infinity, every walk from the source ends at a visited node |
| `DijkstraAlgo.Outcome` | dijkstra_algo.py:80-107 | when the main loop stops, the reconstructed path is a lightest walk from the source if the target is reachable, and `[target]` if it is not or if it is the source |
| `DijkstraAlgo.DemoBuilt` | dijkstra_algo.py:128 | the directed demo graph is built into the expected 6 x 6 weight matrix |
| `DijkstraAlgo.DemoLastWrite` | dijkstra_algo.py:128 | each cell of the directed demo matrix is the last write of its edges |
| `DijkstraAlgo.DemoPath` | dijkstra_algo.py:128-130 | `[0, 2, 4, 3, 5]` is a walk of weight 20 in the directed demo graph |
| `DijkstraAlgo.DemoFeasible` | dijkstra_algo.py:128-130 | the potential `[0, 4, 2, 9, 5, 20]` is feasible for the directed demo graph |
| `DijkstraAlgo.DemoShortest` | dijkstra_algo.py:128-130 | in the directed demo graph no walk from 0 to 5 weighs less than 20, and `[0, 2, 4, 3, 5]` weighs 20 |
| `DijkstraAlgo.DemoUnreachable` | dijkstra_algo.py:101-107 | node 0 cannot be reached from node 5 in the directed demo graph, which is the case where `shortest_path` returns `[target]` |
| `DijkstraAlgo.UndirectedDemoLastWrite` | dijkstra_algo.py:132 | each cell of the undirected demo matrix is the last write of its edges in either direction |
| `DijkstraAlgo.UndirectedDemoBuilt` | dijkstra_algo.py:132 | the undirected demo graph is built into the expected symmetric 6 x 6 matrix |
| `DijkstraAlgo.UndirectedDemoPath` | dijkstra_algo.py:132-134 | `[1, 3, 0, 5]` is a walk of weight 20 in the undirected demo graph |
| `DijkstraAlgo.UndirectedDemoFeasible` | dijkstra_algo.py:132-134 | the potential `[11, 0, 7, 9, 20, 20]` is feasible for the undirected demo graph |
| `DijkstraAlgo.UndirectedDemoShortest` | dijkstra_algo.py:132-134 | in the undirected demo graph no walk from 1 to 5 weighs less than 20, and `[1, 3, 0, 5]` weighs 20 |
| `DijkstraAlgo.DemoTight` | dijkstra_algo.py:128-130 | in the directed demo graph, the entries on which the distances from 0 rise by exactly the entry enter 5 only from 3, 3 only from 4, 4 only from 2, 2 only from 0, and never enter 0 |
| `DijkstraAlgo.DemoLightestUnique` | dijkstra_algo.py:128-130 | `[0, 2, 4, 3, 5]` is the only walk from 0 to 5 of weight 20 in the directed demo graph |
| `DijkstraAlgo.UndirectedDemoTight` | dijkstra_algo.py:132-134 | in the undirected demo graph, the entries on which the distances from 1 rise by exactly the entry enter 5 only from 0, 0 only from 3, 3 only from 1, and never enter 1 |
| `DijkstraAlgo.UndirectedDemoLightestUnique` | dijkstra_algo.py:132-134 | `[1, 3, 0, 5]` is the only walk from 1 to 5 of weight 20 in the undirected demo graph |
| `DijkstraAlgo.DemoMain` | dijkstra_algo.py:127-134 | constructing both `__main__` graphs and calling `shortest_path` on them: `g1.shortest_path(0, 5)` returns `[0, 2, 4, 3, 5]` and `g2.shortest_path(1, 5)` returns `[1, 3, 0, 5]`, each of weight 20; an added call `g1.shortest_path(5, 0)`, not in the block, returns `[0]` |
| `DijkstraAlgo.WeightedGraph.constructor` | dijkstra_algo.py:23-38 | a zero matrix with every edge added in list order: each cell holds its last write, and an undirected graph is symmetric |
| `DijkstraAlgo.WeightedGraph.AddEdge` | dijkstra_algo.py:40-51 | ValueError with nothing changed when an endpoint is outside `[0, N)`; otherwise the edge's cell, and its mirror when undirected, get the weight, no other cell changes, and symmetry is kept |
| `DijkstraAlgo.WeightedGraph.FindMinIndex` | dijkstra_algo.py:109-118 | -1 exactly when every unvisited node is at infinity; otherwise the lowest-numbered unvisited node of least finite distance |
| `DijkstraAlgo.WeightedGraph.Relax` | dijkstra_algo.py:91-99 | distances only go down, only for unvisited nodes across entries greater than zero; afterwards each such entry is relaxed, and every change goes through the current node and is recorded in `previous` |
| `DijkstraAlgo.WeightedGraph.ShortestPath` | dijkstra_algo.py:53-107 | ValueError exactly for an out-of-range node; otherwise the path ends at the target, is `[x]` for `shortest_path(x, x)`, is a lightest walk from the source when the target is reachable, and is `[target]` when it is not |
| `DijkstraAlgo.WeightedGraph.PathBack` | dijkstra_algo.py:101-107 | appending along `previous` until -1 and reversing gives the walk from the root of the tree to the target |
| `UndirectedLists.Link` | adjacency_list.py:16-19 | `add_edge` keeps the number of lists |
| `UndirectedLists.Linked` | adjacency_list.py:5-14 | construction gives `number_of_nodes` lists |
| `UndirectedLists.LinkAt` | adjacency_list.py:16-19 | `add_edge` appends `n2` to `data[n1]` and `n1` to `data[n2]` and leaves every other list unchanged |
| `UndirectedLists.LinkExtends` | adjacency_list.py:16-19 | `add_edge` never reorders or removes existing entries |
| `UndirectedLists.LinkWellFormed` | adjacency_list.py:16-19 | `add_edge` of an in-range edge keeps every entry a node number |
| `UndirectedLists.LinkCount` | adjacency_list.py:16-19 | `add_edge` raises the count of `n2` in `data[n1]` and of `n1` in `data[n2]` by one each, which is two for a self-loop |
| `UndirectedLists.LinkSymmetric` | adjacency_list.py:16-19 | `add_edge` keeps the lists symmetric: `b` occurs in `data[a]` as often as `a` in `data[b]` |
| `UndirectedLists.LinkedValid` | breadth_first_search.py:18-23 | constructed lists hold only node numbers and are symmetric |
| `UndirectedLists.ReachableStep` | breadth_first_search.py:60-64 | a list entry of a node reachable in `k` steps is reachable in `k + 1` |
| `UndirectedLists.NeighboursAppend` | adjacency_list.py:16-19 | a later edge adds its entries after those of every earlier edge |
| `UndirectedLists.LinkedAt` | adjacency_list.py:5-19 | each constructed list holds, in edge order, the other endpoint of every edge at that node, twice for a self-loop |
| `UndirectedLists.LinkedAppend` | adjacency_list.py:13-19 | constructing with one more edge is `add_edge` of that edge on the lists built before it |
| `UndirectedLists.DemoNeighbours` | adjacency_list.py:31 | the neighbours of each node of the five-node `__main__` graph, in edge order |
| `UndirectedLists.DemoLinked` | adjacency_list.py:31-32 | the five-node `__main__` graph is built into the lists `[[1, 4], [0, 4, 3, 2], [1, 3], [1, 2, 4], [0, 1, 3]]` |
| `AdjacencyList.FirstIndex` | adjacency_list.py:23 | the position `list.remove` deletes: an occurrence of `x` with none before it |
| `AdjacencyList.RemoveFirst` | adjacency_list.py:23-24 | `list.remove(x)` raises exactly when `x` is absent |
| `AdjacencyList.RemoveFirstCounts` | adjacency_list.py:23-24 | when `x` is present, `list.remove(x)` takes exactly one `x` out of the multiset and keeps every other entry |
| `AdjacencyList.Unlink` | adjacency_list.py:21-24 | `remove_edge` keeps the number of lists |
| `AdjacencyList.RemoveAfter` | adjacency_list.py:23 | `list.remove(x)` deletes the first occurrence of `x` |
| `AdjacencyList.RemoveLast` | adjacency_list.py:23 | removing the only, last occurrence gives back the list before it was appended |
| `AdjacencyList.UnlinkRaises` | adjacency_list.py:21-24 | on symmetric lists `remove_edge` raises ValueError exactly when the edge is absent, and then nothing has changed |
| `AdjacencyList.UnlinkCounts` | adjacency_list.py:21-24 | a successful `remove_edge` removes exactly one entry in each direction |
| `AdjacencyList.RemovedCount` | adjacency_list.py:23-24 | after both removals each count drops by one per removed entry |
| `AdjacencyList.LessOneEachWaySymmetric` | adjacency_list.py:21-24 | taking one entry away in each direction keeps the lists symmetric |
| `AdjacencyList.UnlinkSymmetric` | adjacency_list.py:21-24 | `remove_edge` keeps the lists symmetric whether or not it raises |
| `AdjacencyList.RemoveFirstNodes` | adjacency_list.py:23 | `list.remove` keeps every entry a node number |
| `AdjacencyList.UnlinkWellFormed` | adjacency_list.py:21-24 | `remove_edge` keeps every entry a node number |
| `AdjacencyList.UnlinkFrame` | adjacency_list.py:21-24 | `remove_edge` leaves every list other than `data[n1]` and `data[n2]` unchanged |
| `AdjacencyList.LinkThenUnlinkSucceeds` | adjacency_list.py:16-24 | removing an edge just added never raises |
| `AdjacencyList.LinkThenUnlink` | adjacency_list.py:16-24 | adding and then removing an edge restores every list as a multiset |
| `AdjacencyList.LinkThenUnlinkExact` | adjacency_list.py:16-24 | when the neighbour was absent, adding and then removing an edge restores the exact lists |
| `AdjacencyList.LinkThenUnlinkLoop` | adjacency_list.py:16-24 | the same for a self-loop |
| `AdjacencyList.LinkThenUnlinkPair` | adjacency_list.py:16-24 | the same for two distinct nodes |
| `AdjacencyList.LinkRestored` | adjacency_list.py:16-19 | putting back the two lists `add_edge` extended gives the lists before it |
| `AdjacencyList.UnlinkSteps` | adjacency_list.py:21-24 | `remove_edge` is the two removals in order when both succeed |
| `AdjacencyList.LinkThenUnlinkSymmetric` | adjacency_list.py:16-24 | on symmetric lists without the edge, adding and then removing it restores the exact lists |
| `AdjacencyList.LinkThenUnlinkReorders` | adjacency_list.py:16-24 | when the neighbour is already present, add-then-remove changes the order: `[2, 1]` becomes `[1, 2]` |
| `AdjacencyList.LinkSample` | adjacency_list.py:16-19 | adding edge `(0, 2)` to `[[2, 1], [0], [0]]` gives `[[2, 1, 2], [0], [0, 0]]` |
| `AdjacencyList.UnlinkSample` | adjacency_list.py:21-24 | removing edge `(0, 2)` from `[[2, 1, 2], [0], [0, 0]]` gives `[[1, 2], [0], [0]]` |
| `AdjacencyList.RemoveSampleFirst` | adjacency_list.py:23 | `[2, 1, 2].remove(2)` is `[1, 2]` |
| `AdjacencyList.RemoveSampleSecond` | adjacency_list.py:24 | `[0, 0].remove(0)` is `[0]` |
| `AdjacencyList.Graph.constructor` | adjacency_list.py:5-14 | empty lists with every edge added in order; the lists are symmetric |
| `AdjacencyList.Graph.AddEdge` | adjacency_list.py:16-19 | appends `n2` to `data[n1]` and `n1` to `data[n2]`, changes no other list and keeps symmetry |
| `AdjacencyList.Graph.RemoveEdge` | adjacency_list.py:21-24 | deletes the first `n2` from `data[n1]` and then the first `n1` from `data[n2]`; on symmetric lists it raises exactly when the edge is absent, changing nothing, and keeps symmetry |
| `AdjacencyList.DemoAddedLists` | adjacency_list.py:31-36 | after `add_edge((0, 3))`, `add_edge((2, 0))` and `add_edge((4, 2))` the lists are `[[1, 4, 3, 2], [0, 4, 3, 2], [1, 3, 0, 4], [1, 2, 4, 0], [0, 1, 3, 2]]` |
| `AdjacencyList.DemoSession` | adjacency_list.py:31-38 | the final `remove_edge((0, 3))` raises nothing and deletes the 3 added to node 0 and the 0 added to node 3, leaving the other lists as they were |
| `AdjacencyMatrix.Connect` | adjacency_matrix.py:16-19 | `add_edge` keeps the matrix N x N |
| `AdjacencyMatrix.Disconnect` | adjacency_matrix.py:21-24 | `remove_edge` keeps the matrix N x N |
| `AdjacencyMatrix.Built` | adjacency_matrix.py:11-14 | construction yields an N x N matrix |
| `AdjacencyMatrix.ConnectAt` | adjacency_matrix.py:16-19 | `add_edge` sets `[n1][n2]` and `[n2][n1]` to 1 and nothing else |
| `AdjacencyMatrix.DisconnectAt` | adjacency_matrix.py:21-24 | `remove_edge` sets `[n1][n2]` and `[n2][n1]` to 0 and nothing else |
| `AdjacencyMatrix.ConnectKeepsInvariant` | adjacency_matrix.py:16-19 | `add_edge` keeps the matrix symmetric with entries in {0, 1} |
| `AdjacencyMatrix.DisconnectKeepsInvariant` | adjacency_matrix.py:21-24 | `remove_edge` keeps the matrix symmetric with entries in {0, 1} |
| `AdjacencyMatrix.ConnectIdempotent` | adjacency_matrix.py:16-19 | adding an edge twice is adding it once |
| `AdjacencyMatrix.DisconnectIdempotent` | adjacency_matrix.py:21-24 | removing an edge twice is removing it once |
| `AdjacencyMatrix.DisconnectAfterConnect` | adjacency_matrix.py:16-24 | remove after add is remove alone: both cells 0 whatever they held |
| `AdjacencyMatrix.DisconnectAbsent` | adjacency_matrix.py:21-24 | removing an absent edge changes nothing |
| `AdjacencyMatrix.ConnectThenDisconnect` | adjacency_matrix.py:16-24 | adding an absent edge and removing it again restores the matrix |
| `AdjacencyMatrix.BuiltMeansListed` | adjacency_matrix.py:11-14 | the constructed matrix is symmetric and binary, and a cell is 1 exactly when some listed edge joins its row and column |
| `AdjacencyMatrix.Graph.constructor` | adjacency_matrix.py:5-14 | a zero matrix with every edge added in order, symmetric and binary |
| `AdjacencyMatrix.Graph.AddEdge` | adjacency_matrix.py:16-19 | the edge's two cells become 1, no other cell changes, and the invariant is kept |
| `AdjacencyMatrix.Graph.RemoveEdge` | adjacency_matrix.py:21-24 | the edge's two cells become 0, no other cell changes, and the invariant is kept |
| `AdjacencyMatrix.AdjacentAppend` | adjacency_matrix.py:13-19 | a later edge joins its two cells in addition to every cell joined before |
| `AdjacencyMatrix.BuiltAdjacent` | adjacency_matrix.py:5-19 | each constructed cell is 1 exactly when some listed edge joins its row and column, and 0 otherwise |
| `AdjacencyMatrix.DemoSessionAt` | adjacency_matrix.py:34-36 | after the `__main__` session a cell is 0 if it mirrors `(1, 0)`, else 1 if it mirrors `(0, 3)` or a listed edge, else 0 |
| `AdjacencyMatrix.DemoSession` | adjacency_matrix.py:34-37 | the `__main__` session leaves the matrix `[[0, 0, 0, 1, 1], [0, 0, 1, 1, 1], [0, 1, 0, 1, 0], [1, 1, 1, 0, 1], [1, 1, 0, 1, 0]]` |
| `WeightedDirectedGraph.Toward` | weighted_directed_graph.py:22-38 | the stored entry points at the given node and is a `(node, weight)` pair exactly for a three-value edge |
| `WeightedDirectedGraph.Retarget` | weighted_directed_graph.py:22-38 | an entry pointed at another node keeps its shape |
| `WeightedDirectedGraph.Add` | weighted_directed_graph.py:21-38 | `add_edge` keeps the number of lists |
| `WeightedDirectedGraph.Built` | weighted_directed_graph.py:13-19 | construction gives `number_of_nodes` lists |
| `WeightedDirectedGraph.Empty` | weighted_directed_graph.py:16 | `number_of_nodes` empty lists |
| `WeightedDirectedGraph.AddAt` | weighted_directed_graph.py:21-38 | each of the four modes appends the edge's entry at `n1`, and its mirror at `n2` only when undirected, and leaves every other list unchanged |
| `WeightedDirectedGraph.AddEdgeResult` | weighted_directed_graph.py:21-38 | `add_edge` as a function: `None` (the ValueError of unpacking) exactly when the edge's arity does not fit the mode, otherwise the same number of lists; node numbers are required in range only for an edge that unpacks |
| `WeightedDirectedGraph.AddEdgeRaises` | weighted_directed_graph.py:21-38 | `add_edge` raises ValueError exactly when the edge's arity does not fit the mode; otherwise every list only grows at its end |
| `WeightedDirectedGraph.AddWellFormed` | weighted_directed_graph.py:21-38 | `add_edge` keeps every entry a node number of the mode's shape |
| `WeightedDirectedGraph.AddCount` | weighted_directed_graph.py:26-38 | undirected `add_edge` raises the count of each of the edge's entries by one at each end |
| `WeightedDirectedGraph.RetargetToward` | weighted_directed_graph.py:26-38 | an entry matches the edge's entry toward a node only if it points at that node |
| `WeightedDirectedGraph.AddSymmetric` | weighted_directed_graph.py:26-38 | undirected `add_edge` keeps the lists symmetric, weights included |
| `WeightedDirectedGraph.BuiltValid` | weighted_directed_graph.py:13-19 | constructed lists are well formed, and symmetric when undirected |
| `WeightedDirectedGraph.BuiltIsIncident` | weighted_directed_graph.py:13-38 | each constructed list holds exactly the node's incident entries in edge order |
| `WeightedDirectedGraph.TotalUpdate` | weighted_directed_graph.py:21-38 | replacing one list changes the entry total by the difference in length |
| `WeightedDirectedGraph.TotalEmpty` | weighted_directed_graph.py:16 | the initial lists hold no entries |
| `WeightedDirectedGraph.AddTotal` | weighted_directed_graph.py:21-38 | one edge adds one entry when directed and two when undirected |
| `WeightedDirectedGraph.BuiltTotal` | weighted_directed_graph.py:13-38 | a constructed graph stores each edge once when directed and twice when undirected |
| `WeightedDirectedGraph.Graph.constructor` | weighted_directed_graph.py:5-19 | empty lists with every edge added in order, the flags fixed, well formed, and symmetric when undirected |
| `WeightedDirectedGraph.Graph.AddEdge` | weighted_directed_graph.py:21-38 | the outcome is `AddEdgeResult` on the old lists: ValueError with nothing changed for a wrong-arity edge, whose node numbers are then never used; otherwise the mode's appends, and symmetry is kept |
| `WeightedDirectedGraph.IncidentAppend` | weighted_directed_graph.py:18-38 | a later edge adds its entries after those of every earlier edge |
| `WeightedDirectedGraph.BuiltPrefix` | weighted_directed_graph.py:18-19 | constructing with one more edge of the list is `add_edge` of that edge on the lists built before it |
| `WeightedDirectedGraph.DemoUndirected` | weighted_directed_graph.py:45-46 | g1 of `__main__` is built into `[[1, 4], [0, 4, 3, 2], [1, 3], [1, 2, 4], [0, 1, 3]]` |
| `WeightedDirectedGraph.DemoDirected` | weighted_directed_graph.py:47-48 | g2 of `__main__`, directed, is built into `[[1], [2], [4, 3], [0], [2]]` |
| `WeightedDirectedGraph.DemoWeighted` | weighted_directed_graph.py:49-50 | g3 of `__main__`, weighted, gets each `(node, weight)` entry at both ends of its edge, in edge order |
| `WeightedDirectedGraph.DemoWeightedDirected` | weighted_directed_graph.py:51-52 | g4 of `__main__`, weighted and directed, gets each `(node, weight)` entry only at its source, and node 5 an empty list |
| `BreadthFirstSearch.Start` | breadth_first_search.py:38-51 | the root alone in the queue, at distance 0 and without parent, satisfies the search invariant |
| `BreadthFirstSearch.EnqueueMarked` | breadth_first_search.py:62-70 | queueing an undiscovered node keeps the queue duplicate-free, within `N` entries, and in step with `discovered` and `distance` |
| `BreadthFirstSearch.EnqueueTree` | breadth_first_search.py:64-70 | the queued node's parent is queued before it, lists it as a neighbour, and is one hop nearer |
| `BreadthFirstSearch.EnqueueOrder` | breadth_first_search.py:60-70 | queueing keeps distances nondecreasing along the queue and each one the length of a walk |
| `BreadthFirstSearch.EnqueueMonotone` | breadth_first_search.py:51-70 | queueing at one more than the current node's distance keeps distances nondecreasing |
| `BreadthFirstSearch.EnqueueWitnessed` | breadth_first_search.py:60-70 | every queued node's distance is the length of some walk from the root |
| `BreadthFirstSearch.Enqueue` | breadth_first_search.py:62-70 | queueing an undiscovered neighbour keeps every fact of the search |
| `BreadthFirstSearch.Skip` | breadth_first_search.py:62 | a neighbour already discovered is already queued, at most one hop farther |
| `BreadthFirstSearch.FinishNode` | breadth_first_search.py:54-60 | once all of a node's neighbours are handled, every node before the index has its neighbours queued |
| `BreadthFirstSearch.ShortestHops` | breadth_first_search.py:54-70 | a node reachable in `h` steps is queued with a distance of at most `h` |
| `BreadthFirstSearch.Graph.constructor` | breadth_first_search.py:13-23 | every edge appended at both ends, in list order; the lists are symmetric |
| `BreadthFirstSearch.Graph.BreadthFirstSearch` | breadth_first_search.py:25-73 | queue duplicate-free and within N entries, root first at distance 0 without parent, each later node hanging below an earlier neighbour one hop nearer, distances nondecreasing along the queue and each the fewest steps from the root, unqueued nodes keeping `None`, and the queue holding exactly the reachable nodes |
| `BreadthFirstSearch.Graph.Explore` | breadth_first_search.py:56-70 | one pass of the inner `for` loop queues every undiscovered neighbour of the current node and keeps every fact of the search |
| `BreadthFirstSearch.Settle` | breadth_first_search.py:54-70 | a node the search reaches within `h` hops is queued with a distance of at most `h`, and that distance is the length of a walk |
| `BreadthFirstSearch.DemoDistances` | breadth_first_search.py:77-78 | on the `__main__` graph from node 3 the search contract forces the distances `[2, 1, 1, 0, 1]` |
| `BreadthFirstSearch.DemoParent` | breadth_first_search.py:64-66 | on the `__main__` graph, nodes 1, 2 and 4 get parent 3, and node 0 gets parent 1 or 4 |
| `BreadthFirstSearch.DemoSearch` | breadth_first_search.py:76-78 | the search contract applied to `breadth_first_search(3)` on the `__main__` graph fixes every distance, the root without parent, and the parents of the first layer |
| `BreadthFirstSearch.DemoMain` | breadth_first_search.py:76-78 | constructing the `__main__` graph and calling `breadth_first_search(3)` gives distances `[2, 1, 1, 0, 1]`, no parent for 3 and parent 3 for nodes 1, 2 and 4 |
| `DepthFirstSearch.Unseen` | depth_first_search.py:62-65 | one visit pushes no more entries than the node's list has |
| `DepthFirstSearch.UnseenSnoc` | depth_first_search.py:62-65 | scanning one more neighbour pushes it exactly when it is undiscovered |
| `DepthFirstSearch.UnseenMembers` | depth_first_search.py:62-65 | exactly the undiscovered neighbours are pushed |
| `DepthFirstSearch.LastUnseen` | depth_first_search.py:62-65 | the last pushed node is an undiscovered neighbour |
| `DepthFirstSearch.PopVisited` | depth_first_search.py:51-54 | popping an already discovered node keeps the stack facts |
| `DepthFirstSearch.VisitTree` | depth_first_search.py:54-59 | a newly visited node hangs below the earlier visited node that pushed it |
| `DepthFirstSearch.NextIsLastUnseenKept` | depth_first_search.py:51-65 | appending a node keeps the order condition at earlier positions |
| `DepthFirstSearch.NextIsLastUnseenAppended` | depth_first_search.py:51-65 | the node visited next is the last undiscovered neighbour pushed by the one before it |
| `DepthFirstSearch.VisitDeepest` | depth_first_search.py:51-65 | visiting the top of the stack keeps the last-pushed-first order |
| `DepthFirstSearch.VisitRecorded` | depth_first_search.py:54-59 | recording a visit keeps `discovered` in step with `result` and `result` duplicate-free |
| `DepthFirstSearch.VisitOrigins` | depth_first_search.py:62-65 | after a visit each stack entry is the root or a neighbour of a visited node |
| `DepthFirstSearch.VisitTop` | depth_first_search.py:62-65 | after a visit that pushed something, its last push is on top of the stack |
| `DepthFirstSearch.VisitClosed` | depth_first_search.py:62-65 | after a visit every neighbour of a visited node is visited or on the stack |
| `DepthFirstSearch.VisitPending` | depth_first_search.py:62-65 | a visit keeps the stack facts |
| `DepthFirstSearch.VisitCount` | depth_first_search.py:48-65 | pops plus stack entries never exceed one plus the visited nodes' degrees |
| `DepthFirstSearch.Visit` | depth_first_search.py:54-65 | one visit keeps every fact of the search and the pop bound |
| `DepthFirstSearch.Pop` | depth_first_search.py:51-54 | popping a discovered node keeps the stack facts and the pop bound |
| `DepthFirstSearch.TreeReachable` | depth_first_search.py:48-65 | every visited node is reachable in some number of steps |
| `DepthFirstSearch.ClosedReachable` | depth_first_search.py:48-65 | once the stack is empty, a node reachable in `h` steps was visited |
| `DepthFirstSearch.VisitedReachable` | depth_first_search.py:48-65 | every visited node is reachable from the root |
| `DepthFirstSearch.ReachableVisited` | depth_first_search.py:48-65 | every node reachable from the root is visited once the stack is empty |
| `DepthFirstSearch.Complete` | depth_first_search.py:48-68 | at the end `result` starts with the root, each later node is a neighbour of an earlier one, and it holds exactly the reachable nodes |
| `DepthFirstSearch.Graph.constructor` | depth_first_search.py:13-23 | every edge appended at both ends, in list order; the lists are symmetric |
| `DepthFirstSearch.Graph.PushUnseen` | depth_first_search.py:62-65 | the `for` loop pushes the undiscovered neighbours in list order |
| `DepthFirstSearch.Graph.DepthFirstSearch` | depth_first_search.py:25-68 | `result` duplicate-free, root first, each later node a neighbour of an earlier one, exactly the reachable nodes; each node after the root the most recently pushed node not yet visited (so the last undiscovered neighbour of the node before it, when it has one), and nothing pushed left unvisited at the end, which fixes the result; at most one plus the visited degrees loop passes |
| `DepthFirstSearch.Pushes` | depth_first_search.py:42-65 | every node pushed while `result` was visited, in push order, starts with the root |
| `DepthFirstSearch.UnseenAppend` | depth_first_search.py:62-65 | dropping the discovered entries of two lists one after the other drops them from their concatenation |
| `DepthFirstSearch.UnseenTwice` | depth_first_search.py:54-65 | dropping the entries discovered so far and then those discovered later drops exactly the later ones |
| `DepthFirstSearch.UnseenKeepsAll` | depth_first_search.py:62-65 | a list with no discovered entry is pushed whole |
| `DepthFirstSearch.UnseenDropsAll` | depth_first_search.py:62-65 | a list whose entries are all discovered pushes nothing |
| `DepthFirstSearch.PopMirrors` | depth_first_search.py:51-54 | popping a discovered node leaves the undiscovered entries of the stack as they were |
| `DepthFirstSearch.LatestKept` | depth_first_search.py:51-59 | appending the most recently pushed undiscovered node keeps the order conditions |
| `DepthFirstSearch.PushesSnoc` | depth_first_search.py:54-65 | a visit adds the node's undiscovered neighbours to the pushes |
| `DepthFirstSearch.MirrorStep` | depth_first_search.py:51-65 | a stack and the pushes that agree on their undiscovered entries still agree after the top is visited and the same entries are pushed on both |
| `DepthFirstSearch.VisitMirrors` | depth_first_search.py:51-65 | after a visit the stack's undiscovered entries are still exactly the undiscovered pushes, in order |
| `DepthFirstSearch.VisitLatest` | depth_first_search.py:51-65 | a visit takes the most recently pushed undiscovered node and keeps the stack in step with the pushes |
| `DepthFirstSearch.PendingBeforeEnd` | depth_first_search.py:48-65 | a search that goes on past its first `k` nodes had a pushed node pending after them |
| `DepthFirstSearch.LatestFirstUnique` | depth_first_search.py:25-68 | two results that start at the root, take the most recently pushed undiscovered node each time and stop when nothing pushed is pending are equal, so the contract fixes the result |
| `DepthFirstSearch.StarLinked` | depth_first_search.py:13-23 | `Graph(4, [(0, 1), (0, 2), (0, 3)])` builds the lists `[[1, 2, 3], [0], [0], [0]]` |
| `DepthFirstSearch.StarFirst` | depth_first_search.py:54-65 | on that star, the visit of 0 pushes 1, 2 and 3 |
| `DepthFirstSearch.StarPushes` | depth_first_search.py:54-65 | on that star, visiting a leaf pushes nothing new |
| `DepthFirstSearch.StarAllPushes` | depth_first_search.py:54-65 | on that star, the pushes after each visit of `[0, 3, 2, 1]` are `[0, 1, 2, 3]` |
| `DepthFirstSearch.StarPending` | depth_first_search.py:51-54 | the pushes `[0, 1, 2, 3]` have the stated undiscovered entries, in order |
| `DepthFirstSearch.StarNext0` | depth_first_search.py:51-59 | on that star, 3 follows 0 |
| `DepthFirstSearch.StarNext1` | depth_first_search.py:51-59 | on that star, 2 follows 3, which had nothing new to push |
| `DepthFirstSearch.StarNext2` | depth_first_search.py:51-59 | on that star, 1 follows 2 |
| `DepthFirstSearch.StarExhausted` | depth_first_search.py:48 | on that star, nothing pushed is pending after `[0, 3, 2, 1]` |
| `DepthFirstSearch.StarOrder` | depth_first_search.py:48-65 | `[0, 3, 2, 1]` meets every order condition of the search on that star |
| `DepthFirstSearch.StarSearch` | depth_first_search.py:25-68 | the search contract on that star from 0 leaves only `[0, 3, 2, 1]`, not `[0, 3, 1, 2]` |
| `DepthFirstSearch.StarMain` | depth_first_search.py:25-68 | constructing that star and calling `depth_first_search(0)` returns `[0, 3, 2, 1]` |
| `DepthFirstSearch.NextVisited` | depth_first_search.py:51-65 | once the search has visited `seen`, and the last visited node still has undiscovered neighbours, the next node visited is the last of them |
| `DepthFirstSearch.DemoReachable` | depth_first_search.py:71 | every node of the `__main__` graph is reachable from node 3 |
| `DepthFirstSearch.DemoAllFound` | depth_first_search.py:71-72 | the search from node 3 visits nodes 0, 1, 2 and 4 |
| `DepthFirstSearch.DemoPrefix` | depth_first_search.py:71-72 | the search from node 3 visits 3, 4, 1 and 2 first, in that order |
| `DepthFirstSearch.DemoOrder` | depth_first_search.py:71-72 | the search from node 3 visits exactly `[3, 4, 1, 2, 0]` |
| `DepthFirstSearch.DemoSearch` | depth_first_search.py:70-72 | the search contract applied to `depth_first_search(3)` on the `__main__` graph fixes the result `[3, 4, 1, 2, 0]` |
| `DepthFirstSearch.DemoMain` | depth_first_search.py:70-72 | constructing the `__main__` graph and calling `depth_first_search(3)` returns `[3, 4, 1, 2, 0]` |

Members without a row are definitions that the rows' contracts are stated in
(the predicates, and functions such as `Neighbours`, `Incident`, `LastWrite`,
`Pushes` and the demo edge lists) or proof helpers whose contracts are steps
of the lemmas above:

- `Common.Five`, `Common.Six` and `Common.PrefixExtend` (sequence equalities);
- `Matrices.CellsEqual`;
- `AdjacencyList.SampleUpdates`, `DemoAddedAt`, `DemoAddedRows`, `RemoveThird`, `DemoRemoveSecond` and `DemoUpdates`;
- `AdjacencyMatrix.DemoSessionRow0` to `DemoSessionRow4`;
- `BreadthFirstSearch.DemoLayers`, `DemoNeighbour` and `DemoFar`;
- `DepthFirstSearch.DemoUnseen`, `Beyond`, `NextAfter`, `DemoRows`, `DemoStep` and `StarUnseen`;
- `UndirectedLists.DemoNeighbours0` to `DemoNeighbours4`;
- the per-node `WeightedDirectedGraph.Demo…Node` lemmas.

## Left out

- The `__str__` methods: formatting for display only.
- The `if __name__ == '__main__'` blocks print, which is not modelled. Their graphs and calls appear as the `Demo…` lemmas (and `UndirectedDemo…` in dijkstra_algo.dfy), which state the lists, matrices, distances or visiting orders the blocks print.
- BreadthFirstSearch.Graph.BreadthFirstSearch: the contract does not state the order of the queue (the root, then each dequeued node's undiscovered neighbours in list order), nor that a node's parent is the first queued node whose list holds it; it states only that the parent is an earlier queued neighbour one hop nearer.
- BreadthFirstSearch.DemoSearch and BreadthFirstSearch.DemoMain: because the search's contract leaves the order open, they prove only that node 0's parent is 1 or 4. The code, scanning node 1's list before node 4's, gives 1.
- Python's negative indices and IndexError in the classes that do not check ranges (adjacency_matrix.py, adjacency_list.py, weighted_directed_graph.py, breadth_first_search.py, depth_first_search.py): node numbers are preconditions there.
- DijkstraAlgo.WeightedGraph.constructor: requires every edge in range. The ValueError that `add_edge` would raise inside `__init__` aborts the construction, and the model does not cover it.
- WeightedDirectedGraph.Graph.constructor: requires every edge to fit the mode's arity. The unpacking ValueError inside `__init__` aborts the construction, and the model does not cover it.
- Node counts are `nat`: a negative `number_of_nodes` is not modelled.
- `float('inf')` is the `Infinity` value of the `Distance` datatype. All weights and finite distances are whole numbers, as the type annotations say.
- DijkstraAlgo.WeightedGraph.ShortestPath: when several lightest walks exist, the contract does not say which one the tie-breaking picks. In both `__main__` graphs the lightest walk is unique, so `DemoMain` does not depend on it.
- `shortest_path` runs its main loop at most N times: this is the loop's termination measure (`n - |visited|` with `|visited| <= n`), not a postcondition.
- DepthFirstSearch.Graph.DepthFirstSearch: `pops`, the number of loop passes, is a ghost result that exists only to state the bound.
- Matrices are `seq` values reassigned whole, not Python lists shared by reference. No aliasing between rows is modelled.
