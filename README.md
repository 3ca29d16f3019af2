# Logistics hub network: a verified model of the graph engine

The modelled system is a logistics optimisation engine. Its hubs (nodes) are joined by
directed routes (edges) that carry a cost, a capacity and a transient flow. The network is a
directed multigraph: every hub keeps an ordered list of its outgoing routes, and several
routes may join the same two hubs. Six engines run over a network:

- the cheapest route between two hubs (Dijkstra);
- the maximum flow from a source hub to a sink hub and its bottleneck edges (Edmonds-Karp);
- a minimum spanning forest (Kruskal over a union-find structure);
- maintenance shifts: a greedy coloring of conflicting routes (Welsh-Powell);
- a trail that uses every route once (Fleury-style Eulerian walk);
- a cycle through every hub once (backtracking Hamiltonian search with a step budget).

The project has one module per source file:

- `Basics`: `Option`, `ExtInt` (a finite integer or +infinity) and small lemmas about
  sequences and sets.
- `NodeModel` and `EdgeModel`: value types for hubs and routes.
- `GraphModel`: the class `LogisticsGraph`, with its dictionaries as fields. Its value
  `View()` is a `Graph` datatype, and every query is a function on it.
- `Results`: the result records.
- `UnionFindModel`: a class over two arrays.
- `Sorting`: the stable sort that LINQ's `OrderBy` performs.
- One module per engine.

An engine takes the `LogisticsGraph` object and has no `modifies` clause, so the caller's
network is left unchanged by construction. The state each engine updates step by step is a
method with loop invariants, proved against specification functions. Those functions carry
their own lemmas.

## Model

| member | source | states |
|---|---|---|
| NodeModel.NewNode | Models/Node.cs:8-12 | the node keeps its id; a null or empty name becomes `Hub_<id>`; a non-empty name is kept verbatim; the name is never empty |
| NodeModel.NewNodeKeepsName | Models/Node.cs:11 | a non-empty name gives exactly the node (id, name) |
| NodeModel.DefaultNamesDiffer | Models/Node.cs:11 | distinct ids get distinct default names |
| NodeModel.IntToStringRoundTrip | Models/Node.cs:11 | the decimal rendering of the id in the default name parses back to the id |
| NodeModel.NatToStringRoundTrip | Models/Node.cs:11 | the decimal rendering of a natural number parses back to it and has no sign |
| NodeModel.EqualsIsById | Models/Node.cs:16-21 | `Equals` holds exactly for a node with the same id, whatever the name; it is symmetric, false for null, and equal nodes hash equally |
| EdgeModel.NewEdge | Models/Edge.cs:11-18 | a new edge has flow 0, the given endpoints, cost and capacity |
| EdgeModel.DefaultIsUncapacitated | Models/Edge.cs:11 | omitting the capacity gives +infinity, so the residual capacity is +infinity |
| EdgeModel.ResidualCapacity | Models/Edge.cs:20 | residual plus flow is the capacity; the residual is infinite exactly when the capacity is |
| EdgeModel.NewEdgeResidual | Models/Edge.cs:20 | a new edge's residual capacity is its full capacity |
| EdgeModel.CloneEdge | Models/Edge.cs:29-32 | the copy has the same cost, capacity, flow and endpoint nodes |
| GraphModel.EmptyGraph | Models/LogisticsGraph.cs:8-12 | a new network is well formed with no hubs and no routes |
| GraphModel.LogisticsGraph.constructor | Models/LogisticsGraph.cs:8-12 | the new object is well formed and its value is the empty network |
| GraphModel.LogisticsGraph.AddNode | Models/LogisticsGraph.cs:14-21 | the new state is the old one with the node added if its id is absent |
| GraphModel.AddNodeEffect | Models/LogisticsGraph.cs:14-21 | a present id changes nothing; an absent id is appended to the key order, stored, and given an empty list; other hubs and lists are unchanged |
| GraphModel.AddNodeKeepsEdges | Models/LogisticsGraph.cs:14-21 | adding a node keeps the route listing and the route count |
| GraphModel.AddNodeValid | Models/LogisticsGraph.cs:14-21 | adding a node keeps the network well formed |
| GraphModel.LogisticsGraph.AddEdge | Models/LogisticsGraph.cs:23-29 | the new state registers both endpoints and appends the route |
| GraphModel.AddEdgeEffect | Models/LogisticsGraph.cs:23-29 | both endpoints are present afterwards; the route is appended at the end of its source's list; every other list and every stored hub is unchanged |
| GraphModel.AddEdgeCount | Models/LogisticsGraph.cs:23-29 | the route count rises by one and the route multiset gains exactly this route |
| GraphModel.AppendEffect | Models/LogisticsGraph.cs:28 | appending to a present source's list keeps the network well formed and adds exactly that route |
| GraphModel.ListedEdge | Models/LogisticsGraph.cs:23-29 | every listed route sits in its source's list and its target is a hub |
| GraphModel.IdsFacts | Models/LogisticsGraph.cs:14-21 | the key order has no duplicates and holds exactly the stored hubs, which are exactly the keys of the lists |
| GraphModel.AbsentIdQueries | Models/LogisticsGraph.cs:31-39 | for an absent id, `GetNode` is null, the outgoing and incoming lists are empty and both degrees are 0 |
| GraphModel.AllNodesFacts | Models/LogisticsGraph.cs:51-54 | `GetAllNodes` lists the stored hubs in key order, one per id, and its length is the node count |
| GraphModel.InAllEdges | Models/LogisticsGraph.cs:56-59 | a route is in `GetAllEdges` exactly when it is in its source's list; its endpoints are hubs |
| GraphModel.EdgeCountIsAllEdges | Models/LogisticsGraph.cs:56-63 | the sum of the list lengths is the length of the route listing |
| GraphModel.LogisticsGraph.GetIncomingEdges | Models/LogisticsGraph.cs:41-49 | the result is the routes ending at the hub, in listing order |
| GraphModel.WithTargetMembers | Models/LogisticsGraph.cs:46 | a route is collected as incoming exactly when it is listed and ends at the hub |
| GraphModel.WithSourceMembers | Models/LogisticsGraph.cs:36-39 | a route is selected by source exactly when it is listed and leaves the hub |
| GraphModel.OutDegreeCountsSources | Models/LogisticsGraph.cs:70-73 | the outgoing list is the listed routes leaving the hub, and the out-degree is their number |
| GraphModel.LogisticsGraph.Clone | Models/LogisticsGraph.cs:80-97 | the copy is a fresh, well-formed object whose value is the cloned network |
| GraphModel.LogisticsGraph.CopyNodesInto | Models/LogisticsGraph.cs:84-87 | the empty copy receives every hub in key order, rebuilt through the node constructor, with empty lists |
| GraphModel.LogisticsGraph.CopyEdgesInto | Models/LogisticsGraph.cs:89-94 | every route is re-added in listing order between the copied hubs |
| GraphModel.CloneFacts | Models/LogisticsGraph.cs:80-97 | the clone is well formed with the same key order and hubs, the same names, the same per-source sequence of route keys, the same route count, and flow 0 on every route |
| GraphModel.ClonedAllEdgeKeys | Models/LogisticsGraph.cs:89-94 | the clone lists the same (source, target, cost, capacity) keys in the same order |
| GraphModel.CloneNodeIsNewNode | Models/LogisticsGraph.cs:86 | a copied hub is the node constructor applied to the hub's id and name |
| GraphModel.ClonedEdgeIsNewEdge | Models/LogisticsGraph.cs:91-93 | a copied route is the edge constructor applied to the copied endpoints, cost and capacity |
| UnionFindModel.UnionFind.constructor | Utils/UnionFind.cs:8-18 | every index is its own parent and root, with rank 0 |
| UnionFindModel.RootOf | Utils/UnionFind.cs:20-27 | the root is a fixed point of the parent array, and a non-root has a strictly lower rank than its root |
| UnionFindModel.UnionFind.Find | Utils/UnionFind.cs:20-27 | the result is the root; afterwards `parent[x]` is the root; the partition and the ranks are unchanged |
| UnionFindModel.CompressKeepsRoots | Utils/UnionFind.cs:24 | pointing a node at its root keeps the rank invariant and every node's root |
| UnionFindModel.UnionFind.Union | Utils/UnionFind.cs:29-52 | the result is true exactly when the roots differed; afterwards x and y share a root; false changes neither the partition nor the ranks; true merges exactly the two classes; the lower-rank root goes under the higher one with ranks unchanged, and on a tie y's root goes under x's root whose rank rises by one |
| UnionFindModel.UnionFind.Link | Utils/UnionFind.cs:37-49 | the three rank cases of the link and the merge of exactly the two classes |
| UnionFindModel.LinkJoins | Utils/UnionFind.cs:37-49 | linking one root under another merges exactly their two classes |
| UnionFindModel.LinkedRoot | Utils/UnionFind.cs:37-49 | after a link every node of the linked root's class has the new root, and no other node's root changes |
| UnionFindModel.UnionFind.Connected | Utils/UnionFind.cs:54-57 | the result is true exactly when the roots are equal; the partition is unchanged |
| Sorting.SortByIsSortedPermutation | Algorithms/KruskalAlgorithm.cs:13 | the sort orders by key and is a permutation of its input |
| Sorting.SortByIsStable | Algorithms/KruskalAlgorithm.cs:13 | the items of each key keep their input order (a stable sort) |
| Sorting.SortByTiesAscending | Algorithms/WelshPowellAlgorithm.cs:33-37 | sorting an increasing index list leaves equal keys in ascending index order |
| Sorting.InsertByPermutes | Algorithms/KruskalAlgorithm.cs:13 | one insertion step adds exactly the inserted item |
| Sorting.InsertBySorts | Algorithms/KruskalAlgorithm.cs:13 | one insertion step keeps the list ordered by key |
| Sorting.InsertByWithKey | Algorithms/KruskalAlgorithm.cs:13 | an inserted item goes after every earlier item with the same key |
| DijkstraModel.FindShortestPath | Algorithms/DijkstraAlgorithm.cs:8-82 | an absent endpoint gives the default result; on success the path is a contiguous source-to-target chain of graph edges, the total cost is its cost, and it costs no more than any source-to-target path; on failure no such path exists; a present source equal to the target gives cost 0 and an empty path |
| DijkstraModel.InitialLabels | Algorithms/DijkstraAlgorithm.cs:17-25 | every hub starts at distance +infinity with no predecessor |
| DijkstraModel.Start | Algorithms/DijkstraAlgorithm.cs:17-29 | the source is queued with key 0 and the search invariant holds with no hub settled |
| DijkstraModel.Explore | Algorithms/DijkstraAlgorithm.cs:31-55 | the loop ends with the search invariant, either with the target settled or with the queue empty |
| DijkstraModel.Step | Algorithms/DijkstraAlgorithm.cs:33-54 | one round keeps the search invariant; it settles a hub or shrinks the queue |
| DijkstraModel.Dequeue | Algorithms/DijkstraAlgorithm.cs:33 | the entry removed has a least key among the queue's entries (ties arbitrary) |
| DijkstraModel.RelaxEdges | Algorithms/DijkstraAlgorithm.cs:43-54 | relaxing every outgoing edge of the settled hub keeps the search invariant with that hub settled |
| DijkstraModel.RelaxEdge | Algorithms/DijkstraAlgorithm.cs:45-53 | relaxing one edge keeps the invariant and extends the relaxed prefix of the list by one |
| DijkstraModel.Outcome | Algorithms/DijkstraAlgorithm.cs:57-60 | a finite target distance is at most the cost of every path; an infinite one means no path exists |
| DijkstraModel.Optimal | Algorithms/DijkstraAlgorithm.cs:31-55 | a settled target's distance is at most the cost of any source-to-target path |
| DijkstraModel.NoWalk | Algorithms/DijkstraAlgorithm.cs:57-60 | when the queue runs empty with the target unreached, no source-to-target path exists |
| DijkstraModel.Exhausted | Algorithms/DijkstraAlgorithm.cs:31-55 | when the queue runs empty, every hub on a path from the source has a distance at most that path's cost |
| DijkstraModel.AllReachedVisited | Algorithms/DijkstraAlgorithm.cs:31-55 | when the queue runs empty, every hub on a path from the source is settled |
| DijkstraModel.WalkBound | Algorithms/DijkstraAlgorithm.cs:46-51 | along relaxed edges the distance of each hub is at most the cost of the walk prefix |
| DijkstraModel.ReconstructPath | Algorithms/DijkstraAlgorithm.cs:65-79 | following predecessors from the target and reversing gives a source-to-target path whose cost is the target's distance, empty when source and target coincide |
| DijkstraModel.Reversed | Algorithms/DijkstraAlgorithm.cs:78 | `Reverse` puts the entry at i at position length-1-i |
| DijkstraModel.ReversedCost | Algorithms/DijkstraAlgorithm.cs:78 | reversing a path keeps its cost |
| DijkstraModel.PathCons | Algorithms/DijkstraAlgorithm.cs:74-75 | a graph edge into the start of a path extends it to a path from the edge's source |
| DijkstraModel.PathCostPrefix | Algorithms/DijkstraAlgorithm.cs:46 | with non-negative costs a prefix of a path costs no more than the path |
| EdmondsKarpModel.CalculateMaxFlow | Algorithms/EdmondsKarpAlgorithm.cs:8-74 | an absent endpoint gives flow 0 and no bottleneck edges; otherwise the final residual map has exactly the edge pairs and their reverses as keys, keeps each pair's capacity sum, leaves the sink unreachable, the flow is the source's capacity minus its remaining residual and is non-negative, bounded by the source's capacity when capacities are non-negative, flow is conserved at every hub but the source and the sink, the bottleneck edges are exactly the cut edges, and without parallel edges and with non-negative capacities the flow equals the bottleneck edges' summed capacity (max-flow/min-cut) |
| EdmondsKarpModel.InitialResidual | Algorithms/EdmondsKarpAlgorithm.cs:18-27 | each edge pair holds the capacity of its last enumerated edge and each missing reverse pair holds 0 |
| EdmondsKarpModel.LastCapacityIsLast | Algorithms/EdmondsKarpAlgorithm.cs:22 | a pair's residual entry is the capacity of the last edge with those ends (overwritten, not summed) |
| EdmondsKarpModel.InitialRes | Algorithms/EdmondsKarpAlgorithm.cs:18-27 | the initial residual of every pair is its capacity |
| EdmondsKarpModel.InitialShape | Algorithms/EdmondsKarpAlgorithm.cs:18-27 | the initial map is keyed by hub pairs and holds each pair's reverse |
| EdmondsKarpModel.InitialNonNegative | Algorithms/EdmondsKarpAlgorithm.cs:18-27 | non-negative capacities give a non-negative initial residual |
| EdmondsKarpModel.ClonedResidual | Algorithms/EdmondsKarpAlgorithm.cs:17-27 | building the residual from the clone gives the map of the original's capacities |
| EdmondsKarpModel.Saturate | Algorithms/EdmondsKarpAlgorithm.cs:31-58 | the loop terminates with the sink unreachable, pair sums kept, flow conserved at every other hub, and the flow equal to the residual removed from the source's pairs |
| EdmondsKarpModel.Round | Algorithms/EdmondsKarpAlgorithm.cs:33-57 | no augmenting path means the sink is unreachable and nothing changes; otherwise a positive amount is pushed, the source's remaining residual drops by it, the residual sums out of the other hubs but the sink stay as they were, pair sums are kept and non-negativity is kept |
| EdmondsKarpModel.Bfs | Algorithms/EdmondsKarpAlgorithm.cs:76-114 | a parent map is returned only as a tree of positive-residual steps rooted at the source that reaches the sink; no map means the sink is unreachable |
| EdmondsKarpModel.Discover | Algorithms/EdmondsKarpAlgorithm.cs:98-110 | every hub with positive residual from the dequeued hub is discovered, the parent tree is extended, and new hubs join the queue |
| EdmondsKarpModel.ChainIsPath | Algorithms/EdmondsKarpAlgorithm.cs:41-46 | the parent chain from a discovered hub back to the source is a positive-residual path without repeats |
| EdmondsKarpModel.PathFlow | Algorithms/EdmondsKarpAlgorithm.cs:38-46 | the path flow is finite, positive, at most every residual on the path and equal to one of them |
| EdmondsKarpModel.MinWith | Algorithms/EdmondsKarpAlgorithm.cs:44 | `Math.Min` against +infinity or a finite value picks the smaller |
| EdmondsKarpModel.Augment | Algorithms/EdmondsKarpAlgorithm.cs:48-55 | each path pair's residual drops by the flow and its reverse rises by it; nothing else changes |
| EdmondsKarpModel.PushKeepsPairSums | Algorithms/EdmondsKarpAlgorithm.cs:48-55 | a push keeps `res(u,v) + res(v,u)` for every pair |
| EdmondsKarpModel.PushKeepsNonNegative | Algorithms/EdmondsKarpAlgorithm.cs:48-55 | pushing at most the path's least residual keeps every residual non-negative |
| EdmondsKarpModel.RoundFacts | Algorithms/EdmondsKarpAlgorithm.cs:48-57 | a push of f lowers the source's remaining residual by f |
| EdmondsKarpModel.SumsChangeOne | Algorithms/EdmondsKarpAlgorithm.cs:52 | changing one of the source's pairs changes the source's residual sum by the same amount |
| EdmondsKarpModel.PushConserves | Algorithms/EdmondsKarpAlgorithm.cs:48-55 | a push along a path without repeats leaves the residual sum out of every hub other than the path's two ends unchanged (flow conservation) |
| EdmondsKarpModel.InnerPush | Algorithms/EdmondsKarpAlgorithm.cs:52-53 | out of an inner hub of the path, the pair to the next hub loses the flow, the pair to the previous hub gains it, and no other pair changes |
| EdmondsKarpModel.OffChainPush | Algorithms/EdmondsKarpAlgorithm.cs:48-55 | a push changes no pair out of a hub off the path |
| EdmondsKarpModel.SumsChangeTwo | Algorithms/EdmondsKarpAlgorithm.cs:52-53 | one pair down by f and another up by f keep a hub's residual sum |
| EdmondsKarpModel.GetReachableNodes | Algorithms/EdmondsKarpAlgorithm.cs:116-146 | the result holds exactly the hubs reachable from the source through positive residuals |
| EdmondsKarpModel.Reach | Algorithms/EdmondsKarpAlgorithm.cs:131-142 | every hub with positive residual from the dequeued hub becomes reachable and queued |
| EdmondsKarpModel.ClosedHoldsReachable | Algorithms/EdmondsKarpAlgorithm.cs:116-146 | a set closed under positive-residual steps that holds the source holds every reachable hub |
| EdmondsKarpModel.CollectCut | Algorithms/EdmondsKarpAlgorithm.cs:64-71 | the collected edges are the cut edges in listing order |
| EdmondsKarpModel.CutOfMembers | Algorithms/EdmondsKarpAlgorithm.cs:64-71 | an edge is a bottleneck exactly when it is an original edge from a reachable hub to an unreachable one |
| EdmondsKarpModel.MaxFlowIsCut | Algorithms/EdmondsKarpAlgorithm.cs:57-71 | without parallel edges, the final flow equals the summed capacities of the bottleneck edges |
| EdmondsKarpModel.FlowIsCutCapacity | Algorithms/EdmondsKarpAlgorithm.cs:31-62 | when flow is conserved, pair sums are the capacities', no residual is negative and no positive residual leaves a set holding the source but not the sink, the flow out of the source equals the capacities from that set to the other hubs |
| EdmondsKarpModel.CutCapacityIsBlock | Algorithms/EdmondsKarpAlgorithm.cs:64-71 | without parallel edges, the bottleneck edges' summed capacity is the capacity from the reachable hubs to the others |
| EdmondsKarpModel.ReachableClosed | Algorithms/EdmondsKarpAlgorithm.cs:116-146 | no positive residual leaves the set of hubs reachable from the source |
| EdmondsKarpModel.CapMapLast | Algorithms/EdmondsKarpAlgorithm.cs:20-22 | without parallel edges, each edge's capacity lands in an entry no earlier edge set, and no other entry changes |
| EdmondsKarpModel.CapMapRes | Algorithms/EdmondsKarpAlgorithm.cs:20-22 | the map built edge by edge holds each pair's last capacity |
| EdmondsKarpModel.BlockAgrees | Algorithms/EdmondsKarpAlgorithm.cs:52-53 | the residuals among a set of hubs, summed, depend only on the pair sums, which the pushes keep |
| EdmondsKarpModel.BlockChangeOne | Algorithms/EdmondsKarpAlgorithm.cs:20-22 | raising one pair by f raises a block sum over distinct hubs by f exactly when the pair lies in the block |
| KruskalModel.FindMinimumSpanningTree | Algorithms/KruskalAlgorithm.cs:9-40 | the result is a subsequence of the edges sorted by cost, so its costs do not decrease; the total is the sum of its costs; each edge joined two separate components (a forest); it has at most n-1 edges; the endpoints of every graph edge are connected through it |
| KruskalModel.AcceptEdges | Algorithms/KruskalAlgorithm.cs:24-37 | the loop keeps a subsequence that forms a forest with the summed cost, and it stops with n-1 edges or with every considered edge's ends connected |
| KruskalModel.Consider | Algorithms/KruskalAlgorithm.cs:26-36 | one edge is accepted exactly when its ends lie in different sets; the union-find partition stays the components of the accepted edges |
| KruskalModel.BuildIndex | Algorithms/KruskalAlgorithm.cs:16-20 | the map sends each id to its position in the list |
| KruskalModel.IndexMap | Algorithms/KruskalAlgorithm.cs:16-20 | the keys are the listed ids and each maps to a position holding that id |
| KruskalModel.DenseIndexFacts | Algorithms/KruskalAlgorithm.cs:15-20 | hub ids map into 0..n-1 in ascending id order |
| KruskalModel.SortedIdsFacts | Algorithms/KruskalAlgorithm.cs:15 | the sorted id list holds each hub once, ascending |
| KruskalModel.SortedEdgesFacts | Algorithms/KruskalAlgorithm.cs:13 | the sorted edges are ordered by cost, are a permutation of all edges, and have indexed ends |
| KruskalModel.NodeIdsAreIds | Algorithms/KruskalAlgorithm.cs:15 | the ids of `GetAllNodes` are the key order |
| KruskalModel.MergeClasses | Algorithms/KruskalAlgorithm.cs:29 | merging two different classes removes exactly one class |
| KruskalModel.ForestComponents | Algorithms/KruskalAlgorithm.cs:29-31 | a forest of k edges over n hubs leaves n-k components |
| KruskalModel.ForestSize | Algorithms/KruskalAlgorithm.cs:34-35 | a forest over n hubs has at most n-1 edges |
| KruskalModel.FullForestSpans | Algorithms/KruskalAlgorithm.cs:34-35 | a forest with n-1 edges connects every two hubs, so the early exit loses nothing |
| KruskalModel.SpansGraph | Algorithms/KruskalAlgorithm.cs:24-37 | at the end, the endpoints of every graph edge are connected through the result |
| KruskalModel.EdgesConnect | Algorithms/KruskalAlgorithm.cs:31 | an accepted edge connects its endpoints |
| KruskalModel.AcceptStep | Algorithms/KruskalAlgorithm.cs:29-32 | accepting an edge across two classes keeps the loop invariants |
| KruskalModel.RejectStep | Algorithms/KruskalAlgorithm.cs:29 | skipping an edge within one class keeps the loop invariants |
| KruskalModel.SubsequenceSorted | Algorithms/KruskalAlgorithm.cs:24-37 | a subsequence of a cost-sorted list is cost-sorted |
| KruskalModel.SubsequenceMembers | Algorithms/KruskalAlgorithm.cs:24-37 | every accepted edge is one of the sorted edges |
| WelshPowellModel.ScheduleMaintenanceShifts | Algorithms/WelshPowellAlgorithm.cs:8-77 | no edges gives no shifts; otherwise the shifts group the edges by the greedy coloring in degree order; there are at most max degree + 1 shifts |
| WelshPowellModel.BuildConflictGraph | Algorithms/WelshPowellAlgorithm.cs:18-31 | the conflict graph has a vertex per edge index and the in-range pairs, recorded both ways |
| WelshPowellModel.NeighboursExact | Algorithms/WelshPowellAlgorithm.cs:24-31 | j is a neighbour of i exactly when a recorded in-range pair joins them in either order |
| WelshPowellModel.NeighboursSymmetric | Algorithms/WelshPowellAlgorithm.cs:28-29 | the conflict relation is symmetric |
| WelshPowellModel.DegreeOrderFacts | Algorithms/WelshPowellAlgorithm.cs:33-37 | the order lists every index once, by non-increasing degree, with ties in index order |
| WelshPowellModel.CollectUsedColors | Algorithms/WelshPowellAlgorithm.cs:45-52 | the used colors are exactly those of the already-colored neighbours |
| WelshPowellModel.FirstFreeColor | Algorithms/WelshPowellAlgorithm.cs:54-58 | the color is the least non-negative integer not used |
| WelshPowellModel.LeastFree | Algorithms/WelshPowellAlgorithm.cs:54-58 | the least free color is unused, every smaller one is used, and it is at most the number of used colors |
| WelshPowellModel.AssignColors | Algorithms/WelshPowellAlgorithm.cs:41-61 | the loop computes the greedy coloring in the given order |
| WelshPowellModel.GreedyBound | Algorithms/WelshPowellAlgorithm.cs:45-60 | each greedy color is non-negative and at most the vertex's degree |
| WelshPowellModel.GreedyProper | Algorithms/WelshPowellAlgorithm.cs:41-61 | two neighbours never receive the same greedy color |
| WelshPowellModel.ColoringBound | Algorithms/WelshPowellAlgorithm.cs:41-61 | every edge index is colored, with a color between 0 and its conflict degree |
| WelshPowellModel.ColoringProper | Algorithms/WelshPowellAlgorithm.cs:41-61 | the two distinct in-range edges of a recorded conflict get different colors |
| WelshPowellModel.GroupIntoShifts | Algorithms/WelshPowellAlgorithm.cs:63-74 | each shift holds exactly the edges of its color, in coloring order; the shift colors are listed once each, in the order of their first edge |
| WelshPowellModel.AddToShift | Algorithms/WelshPowellAlgorithm.cs:65-73 | adding one edge to its color's shift, creating the shift when new, keeps the grouping exact |
| WelshPowellModel.ColoredWithOnce | Algorithms/WelshPowellAlgorithm.cs:63-74 | every edge appears exactly once, in the shift of its own color |
| WelshPowellModel.ShiftCount | Algorithms/WelshPowellAlgorithm.cs:63-74 | the number of shifts is at most the maximum conflict degree plus one |
| WelshPowellModel.PairsFrom | Algorithms/WelshPowellAlgorithm.cs:86-95 | the inner loop adds exactly the pairs (i, j), j > i, whose edges share an endpoint, keeping the list in lexicographic order |
| WelshPowellModel.GenerateConflictsFromSharedNodes | Algorithms/WelshPowellAlgorithm.cs:79-99 | the result is exactly the pairs i < j whose edges share an endpoint, in lexicographic order |
| WelshPowellModel.SharedNeighbours | Algorithms/WelshPowellAlgorithm.cs:79-99 | with the generated pairs, two different edges conflict exactly when they share an endpoint |
| EulerianModel.FindEulerianPath | Algorithms/EulerianAlgorithm.cs:8-55 | more than two unbalanced hubs or a network that is not weakly connected gives no walk; a reported walk is a trail from the start hub that uses every edge exactly once |
| EulerianModel.ScanDegrees | Algorithms/EulerianAlgorithm.cs:15-29 | the scan counts the hubs whose in- and out-degree differ and keeps the last hub with one outgoing edge more |
| EulerianModel.LastSurplusIsLast | Algorithms/EulerianAlgorithm.cs:24-27 | the chosen start is -1 when no hub has an outgoing surplus, else the last such hub in key order |
| EulerianModel.TrailDegrees | Algorithms/EulerianAlgorithm.cs:31-34 | a network with a trail has at most two unbalanced hubs, so the degree check rejects no network that has one |
| EulerianModel.WalkBalance | Algorithms/EulerianAlgorithm.cs:95-99 | in a walk every hub but the ends is entered as often as it is left |
| EulerianModel.Fleury | Algorithms/EulerianAlgorithm.cs:57-104 | the walk starts at the start hub and is contiguous; it uses each edge at most as often as the network lists it; at full length it uses every edge once; when shorter, every edge from its final hub is used |
| EulerianModel.FleuryStep | Algorithms/EulerianAlgorithm.cs:95-100 | recording the chosen edge and removing it from the working copy keeps the walk contiguous and the used and remaining edges equal to the network's |
| EulerianModel.ChooseEdge | Algorithms/EulerianAlgorithm.cs:72-93 | a sole outgoing edge is chosen; else the first that is not a bridge, or the first edge when all are bridges |
| EulerianModel.IsBridge | Algorithms/EulerianAlgorithm.cs:106-116 | true exactly when removing the edge lowers the number of hubs reachable from its source |
| EulerianModel.BridgeCutsOff | Algorithms/EulerianAlgorithm.cs:106-116 | an edge is a bridge exactly when some hub reachable from its source is cut off without it |
| EulerianModel.WithoutReachesLess | Algorithms/EulerianAlgorithm.cs:110-114 | removing an edge never adds a reachable hub |
| EulerianModel.ClonedWithoutReached | Algorithms/EulerianAlgorithm.cs:110-114 | removing the edge from a clone reaches the same hubs as removing it from the working copy |
| EulerianModel.Explore | Algorithms/EulerianAlgorithm.cs:118-150 | the undirected search visits exactly the hubs reachable from the start |
| EulerianModel.Expand | Algorithms/EulerianAlgorithm.cs:130-146 | every hub joined to the dequeued hub in either direction is visited and queued once |
| EulerianModel.Visit | Algorithms/EulerianAlgorithm.cs:130-146 | every listed neighbour not yet visited is visited and queued |
| EulerianModel.CountReachableNodes | Algorithms/EulerianAlgorithm.cs:118-150 | the count is the number of hubs reachable from the start |
| EulerianModel.IsWeaklyConnected | Algorithms/EulerianAlgorithm.cs:165-201 | true exactly when the network has no hubs or the first hub reaches every hub undirected |
| EulerianModel.ConnectedAllPairs | Algorithms/EulerianAlgorithm.cs:165-201 | in a weakly connected network any hub reaches any other |
| EulerianModel.ReachReverse | Algorithms/EulerianAlgorithm.cs:165-201 | undirected reachability is symmetric |
| EulerianModel.RemoveEdge | Algorithms/EulerianAlgorithm.cs:152-163 | the first entry of the source's list with the same ends is removed; all other lists are unchanged |
| EulerianModel.WithoutIsDrop | Algorithms/EulerianAlgorithm.cs:152-163 | the removal drops the first matching entry, or changes nothing when none matches |
| EulerianModel.DropAtEdges | Algorithms/EulerianAlgorithm.cs:100 | dropping a listed edge removes exactly that edge and lowers the edge count by one, so the walk terminates |
| EulerianModel.FirstWith | Algorithms/EulerianAlgorithm.cs:156-157 | the position is the first entry with the ends, or the length when none matches |
| EulerianModel.RemoveAt | Algorithms/EulerianAlgorithm.cs:160 | removing an entry removes exactly that entry |
| EulerianModel.RemoveChosen | Algorithms/EulerianAlgorithm.cs:100 | the corrected walk removes the chosen entry itself from the working copy |
| EulerianModel.FleuryAsWritten | Algorithms/EulerianAlgorithm.cs:57-104 | the walk as written is contiguous from the start, at most the edge count long, and records only the first listed edge for each pair of ends |
| EulerianModel.ParallelEdgesLost | Algorithms/EulerianAlgorithm.cs:95-97 | on two hubs joined by two parallel edges each way, a sequence of first-listed edges never uses every edge |
| EulerianModel.ParallelHubsHaveCircuit | Algorithms/EulerianAlgorithm.cs:95-97 | that network has an Euler circuit |
| HamiltonianModel.FindHamiltonianCycle | Algorithms/HamiltonianAlgorithm.cs:9-39 | an empty network or a zero budget gives no cycle; a reported cycle has NodeCount+1 entries, starts and ends at the first hub, visits every hub once and follows outgoing edges including the closing one; a single hub has a cycle exactly when it has a self-loop |
| HamiltonianModel.Search | Algorithms/HamiltonianAlgorithm.cs:17-28 | a found path starts at the first hub, has one entry per hub without repeats, follows outgoing edges and can close back to the start |
| HamiltonianModel.ClosedSearch | Algorithms/HamiltonianAlgorithm.cs:30-36 | appending the first hub to a found path gives a Hamiltonian cycle |
| HamiltonianModel.CycleVisitsEveryHub | Algorithms/HamiltonianAlgorithm.cs:55 | every hub of the network appears in a Hamiltonian cycle |
| HamiltonianModel.Backtracker.constructor | Algorithms/HamiltonianAlgorithm.cs:17-19 | the search starts with the first hub as its path and visited set |
| HamiltonianModel.Backtracker.Backtrack | Algorithms/HamiltonianAlgorithm.cs:41-85 | an exhausted budget gives false; a full path succeeds exactly when an edge leads back to the start; success extends the entry path to a full chain that closes; failure restores the path and the visited set |
| HamiltonianModel.Backtracker.TryNeighbors | Algorithms/HamiltonianAlgorithm.cs:65-84 | trying the unvisited targets in list order keeps the path and visited set on failure and extends them to a closing chain on success |
| HamiltonianModel.Backtracker.Extend | Algorithms/HamiltonianAlgorithm.cs:71-72 | the target is added to the visited set and appended to the path, which stays a chain without repeats |
| HamiltonianModel.Backtracker.Retract | Algorithms/HamiltonianAlgorithm.cs:79-80 | the undo restores exactly the path and visited set of before the extension |
| HamiltonianModel.EdgeBack | Algorithms/HamiltonianAlgorithm.cs:57-62 | true exactly when an outgoing edge of the hub leads to the start |

## Left out

- Floating point: costs, capacities, flows and distances are `double` in the source. Here they are integers, and +infinity is the `Infinity` case of `ExtInt`. NaN does not arise.
- Console, files and clock: the interactive menu (`Program.cs`), the DIMACS loader (`Utils/DimacsParser.cs`), the renderer (`Utils/OutputFormatter.cs`) and the query log (`Utils/QueryLogger.cs`) are not part of this model. All of them are I/O.
- `ToString` of `Node` (Models/Node.cs:14) and of `Edge` (Models/Edge.cs:22-27): text formatting only.
- Library internals are assumed to behave as documented. The .NET `PriorityQueue` is a multiset with least-key extraction and an arbitrary tie. LINQ `OrderBy` and `OrderByDescending` are the stable sort `Sorting.SortBy`. A `Dictionary` enumerates in insertion order, since nothing is ever removed from one.
- Object identity: nodes and edges are values. Two routes with equal fields are one value here, while the source tells them apart by reference. The record of the walk (`path.Add` at Algorithms/EulerianAlgorithm.cs:95-97) is modelled on the fields it compares.
- DijkstraModel.FindShortestPath: requires non-negative costs. Nothing in the source checks them, and with a negative cost the result is not a cheapest path.
- EdmondsKarpModel.CalculateMaxFlow: requires `sourceId != sinkId` for a hub of the network. With equal ids naming a hub the search returns an empty parent map at once, the path flow stays +infinity, and the outer loop never ends. Equal ids naming no hub are allowed and give the empty result of lines 12-15.
- EdmondsKarpModel.CalculateMaxFlow: requires every capacity to be finite, which excludes every uncapacitated edge, including the default of `new Edge` (Models/Edge.cs:11). The source only breaks when an augmenting path has nothing but infinite residuals: the path flow stays +infinity and line 52 computes infinity minus infinity. With one finite residual on the path, infinity minus that flow stays infinity and the source runs normally. Residuals here are integers, so this model does not cover networks with uncapacitated edges at all.
- EdmondsKarpModel.CalculateMaxFlow: the max-flow/min-cut equality is stated only for networks without parallel edges and with non-negative capacities. Line 22 keeps only the last parallel edge's capacity, so the other parallel edges can count in the cut but not in the flow. A negative capacity can leave a negative residual across the cut.
- KruskalModel.FindMinimumSpanningTree: minimality of the total cost is not proved. The contract states that the result is a cost-ordered spanning forest chosen from the sorted edges.
- EulerianModel.FindEulerianPath: requires a non-empty network, because the source's `First()` (Algorithms/EulerianAlgorithm.cs:38) throws on one without hubs.
- EulerianModel.FindEulerianPath: completeness of Fleury's rule is not proved. The contract states that a reported walk is an Euler trail, and `TrailDegrees` shows that the degree check rejects no network with a trail. It does not state that every network with a trail is accepted.
- EulerianModel.Fleury: the corrected walk records the chosen edge itself (see Findings). The rest of the loop, the bridge test and the final length check follow the source.
- HamiltonianModel.FindHamiltonianCycle: the `Stopwatch` deadline (Algorithms/HamiltonianAlgorithm.cs:50-53) is a call budget; every call of the recursive search spends one unit. "Not found" is therefore not a proof that no cycle exists, as in the source.
- WelshPowellModel.ScheduleMaintenanceShifts: requires conflict indices that are not negative. A negative index passes the source's bound test and then throws `KeyNotFoundException` at Algorithms/WelshPowellAlgorithm.cs:28.
- `Algorithms/Results/*.cs` are plain records with defaults. They are the datatypes of the `Results` module, with constants for the default values (`NoPath` has cost +infinity, no path and no success). They have no behaviour of their own.

## Findings

| source | as written | input that shows it | evidently intended | confidence | as-written member | corrected member |
|---|---|---|---|---|---|---|
| Algorithms/EulerianAlgorithm.cs:95-97 | the walk records the first edge of the original network's outgoing list with the chosen edge's source and target ids, so parallel edges collapse onto the first of them | hubs 1 and 2 with two edges 1→2 (costs 1 and 2) and two edges 2→1 (costs 1 and 2): the network has an Euler circuit, but the recorded sequence can never contain the second edge 1→2 | the reported path lists every edge of the network exactly once | not executed | EulerianModel.ParallelEdgesLost | EulerianModel.Fleury |
