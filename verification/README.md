# Verified models of the storage, graph and streaming cores

This project models, in Dafny, the parts of the repository whose correctness rests on an argument rather than on
reading one function, and proves the properties those parts are there for. Nothing here was executed; the Dafny
verifier checks every statement for all inputs. `dafny verify dfyconfig.toml` checks the whole project.

Arrays that the C code fills in place are arrays here, its structures with mutable fields are classes, and its loops are
loops with invariants. What each loop computes is stated against a function or predicate on values, and the theorem
about that value is a lemma. Hash functions, checksums and edge weights are parameters about which nothing is assumed;
random skip-list levels, clocks and record timestamps are arguments.

| files | what they hold |
|---|---|
| `PropertyGraph.dfy` | the mutable graph store, the tie between edge array and adjacency lists, walks and reachability |
| `Kosaraju.dfy` | strongly connected components by two depth-first passes |
| `Dijkstra.dfy` | single-source shortest path with early exit and path reconstruction |
| `Sums.dfy`, `Sets.dfy`, `FlowTheory.dfy`, `MaxFlow.dfy` | finite sums and set sizes; flows, cuts, level labels; the Edmonds-Karp loops |
| `SpanningForests.dfy`, `Kruskal.dfy` | forests, the greedy theorem; union-find, sorting, edge selection |
| `PathCounts.dfy`, `Betweenness.dfy`, `Brandes.dfy`, `LayeredGraph.dfy`, `ChainGraph.dfy` | counting walks; betweenness and its recurrence; the accumulation loops; a graph with 2^31 shortest paths; chains |
| `Options.dfy`, `Bytes.dfy`, `BlockFormat.dfy`, `SSTable.dfy`, `RangeQuery.dfy` | optional results; byte order and words; the block format; writing and point lookup; range scans |
| `SkipLevels.dfy`, `SkipList.dfy` | the levels of a skip list and the walk through them; the linked list and its runs |
| `BlockCache.dfy` | the meaning of LRU over runs; hash chains and the doubly linked list |
| `SlottedPage.dfy` | the page allocator with compaction |
| `Merkle.dfy` | flat-array Merkle trees, proofs, comparison |
| `HashRing.dfy` | the consistent-hashing ring |
| `TopicPartition.dfy`, `LogCleaner.dfy` | segmented log appends; compaction and tombstone removal |
| `Wal.dfy` | the write-ahead log and its replay after a cut |
| `CompositeKey.dfy` | the escaped, separator-joined key encoding |

## Where the code falls short of its documentation

Each of these has the exact condition under which the code does meet the property, and an input on which it does not.

- Max flow: of several edges with the same endpoints only the last one's capacity is used, and an undirected edge counts
  from its first node to its second only. The answer is the maximum flow of all capacities together exactly when some
  minimum cut of the matrix is crossed by no edge with capacity that does not count (`MaxFlow.TotalFlowExactly`,
  `MaxFlow.MaxFlowEdmondsKarp`); it is for every source and sink exactly when every edge with capacity between different
  nodes is directed and the last one created between them (`MaxFlow.RightForAllPairs`). Two edges of capacity 1 between
  two nodes give 1 instead of 2 (`MaxFlow.ParallelEdgesLost`), an undirected edge the wrong way round gives 0 instead of
  1 (`MaxFlow.UndirectedOneWay`).
- Dijkstra: the path buffers hold 256 entries. On graphs of at most 256 nodes they always suffice
  (`Dijkstra.TraverseDijkstra`); for every larger number of nodes that the store can hold there is a graph, a chain, on
  which they run over (`Dijkstra.ChainOverruns`).
- Range scan: values at probed restart points are copied to a 256-byte scratch buffer although values may be 1024 bytes
  long. A table can be scanned safely for every range exactly when no restart point holds a longer value
  (`RangeQuery.SstableRangeScan`); from any that does, the scan of its key alone overruns (`RangeQuery.ScanLongRestart`).
- Skip list: after any run of accepted inserts at any random levels, search agrees with the value inserted last for every
  key exactly when no key of the run is empty or all are (`SkipLists.AgreesExactly`, `SkipLists.InsertAll`). Otherwise the
  front node decides which key is lost: the empty one if another key stands in front, else the least other key
  (`SkipLists.LostKey`). What search does find is never outdated (`SkipLists.SkipList.Search`). The least wrong run is the
  empty key and then any other (`SkipLists.EmptyKeyLost`); an insert of the empty key can hide all other keys
  (`SkipLists.EmptyKeyHides`).
- Betweenness: a path counter exceeds its 32-bit integer exactly when two nodes have more than 2^31 - 1 shortest paths
  between them (`Brandes.CentralityBetweenness`); 65 nodes are enough (`LayeredGraphs.CountersOverflow`).
- Slotted page: a growing update fails, with the tuple already deleted, exactly when the new tuple finds no room
  (`SlottedPages.SlottedPage.UpdateTuple`, `SlottedPages.GrowingUpdateLosesTuple`); and compaction packs the page
  exactly when some slot is dead (`SlottedPages.SlottedPage.Compact`, `SlottedPages.ShrunkSpaceLost`).
- Merkle trees: over different leaf counts two different trees can have the same root without any hash collision, and
  the comparison then reports no difference (`MerkleTheory.RootHidesCount`, `MerkleTrees.DiffExact`). A proof for a leaf
  that was added after the last build is read from the old nodes (`MerkleTrees.MerkleTree.GenerateProof`); the second
  leaf's then verifies exactly when combining both leaves gives the first one's hash (`MerkleTrees.StaleProof`), any
  leaf's exactly when what the array holds leads from it to the old root (`MerkleTrees.ProveLeaf`).
- Composite keys: byte order can differ from tuple order; the exact pairs are given (`CompositeKey.KeyOrder`,
  `CompositeKey.OrderCanFail`).
- Tombstone removal without compaction keeps a key's value exactly when it does not bare an older one
  (`LogCompaction.ExpiryKeepsValueExactly`, `LogCompaction.ExpiryAloneResurrects`).
- Write-ahead log: a log replays as it was appended exactly when no key is above 255 and no value above 1023 bytes
  (`WalFile.WholeLogExactly`); the first longer one ends every replay (`WalFile.LongKeyEndsReplay`). A payload above 2048
  bytes overruns the writer's buffer (`WalFile.WalWriter.Append`).
- Hash ring: names are cut to 63 bytes but compared whole. Node names stay distinct exactly when a cut name is new
  (`HashRings.HashRing.AddNode`); adding one long name twice makes two nodes (`HashRings.LongNameTwice`).

## Model

| member | source | states |
|---|---|---|
| PropertyGraphs.AdjOfMembers | mini-graph-db/src/property_graph.c:140-155 | a node's adjacency list holds exactly the id and far end of each edge from the node, and of each undirected edge to it |
| PropertyGraphs.ArcIffEdge | mini-graph-db/src/property_graph.c:124-159 | there is an arc between two node indices if and only if some edge of the edge array leads from the one id to the other, or back and is undirected |
| PropertyGraphs.IndexOrZeroIs | mini-graph-db/src/graph_algo.c:453-456 | the index scan gives one less than the id, and 0 for an id that no node has |
| PropertyGraphs.EntryIsArc | mini-graph-db/src/property_graph.c:140-145 | every adjacency entry stands for an arc and names the edge behind it |
| PropertyGraphs.IndexNode | mini-graph-db/src/property_graph.c:47-63 | inserting a node into the hash chains keeps every id findable at its own index |
| PropertyGraphs.NodeKeepsValid | mini-graph-db/src/property_graph.c:65-83 | a new node keeps ids consecutive and all lists tied to the edge array |
| PropertyGraphs.EdgeKeepsValid | mini-graph-db/src/property_graph.c:124-159 | a new edge changes the adjacency lists of its endpoints only and keeps them tied to the edge array |
| PropertyGraphs.PropertyGraph.HashLookup | mini-graph-db/src/property_graph.c:57-63 | the chain walk finds a node's index, and -1 for ids that were never created |
| PropertyGraphs.PropertyGraph.CreateNode | mini-graph-db/src/property_graph.c:65-83 | full new state: next id and an empty list, or nothing when the array is full |
| PropertyGraphs.PropertyGraph.CreateEdge | mini-graph-db/src/property_graph.c:124-159 | full new state, with the entries that each adjacency list gets in front; failure exactly when the array is full or an endpoint does not exist |
| Kosaraju.OpenKeeps | mini-graph-db/src/graph_algo.c:801-812 | opening a node keeps the finish-order invariant of the first pass |
| Kosaraju.FinishKeeps | mini-graph-db/src/graph_algo.c:812 | closing a node keeps it: whatever a finished node reaches is in a component of an open node or of one finished no earlier |
| Kosaraju.Dfs1 | mini-graph-db/src/graph_algo.c:801-813 | the recursive first pass terminates, extends the finish stack and keeps the invariant |
| Kosaraju.FinishPass | mini-graph-db/src/graph_algo.c:842-845 | after the outer loop the stack lists every node once in finish order |
| Kosaraju.Dfs2 | mini-graph-db/src/graph_algo.c:815-829 | the reversed pass collects only nodes that reach its root and leaves none of their unvisited predecessors behind |
| Kosaraju.RootComponent | mini-graph-db/src/graph_algo.c:849-855 | what the second pass collects from a root is exactly the root's strongly connected component |
| Kosaraju.SccKosaraju | mini-graph-db/src/graph_algo.c:831-859 | two nodes get the same id if and only if each reaches the other; ids are exactly 0 to count-1; every edge leads to an equal or larger id |
| Dijkstra.ExtractMin | mini-graph-db/src/graph_traversal.c:22-32 | a node of least finite distance among the unvisited, or none when all of those are infinite |
| Dijkstra.RelaxAll | mini-graph-db/src/graph_traversal.c:288-307 | every arc out of the settled node is relaxed and all recorded distances still belong to real paths |
| Dijkstra.PathBound | mini-graph-db/src/graph_traversal.c:279-308 | no path to an unsettled node is shorter than the least recorded distance outside |
| Dijkstra.SettleKeeps | mini-graph-db/src/graph_traversal.c:280-284 | settling the nearest node keeps the invariant of the rounds |
| Dijkstra.Search | mini-graph-db/src/graph_traversal.c:270-308 | despite the early exit the target's distance is at most the length of every path to it |
| Dijkstra.Optimal | mini-graph-db/src/graph_traversal.c:279-286 | the invariant at either exit gives optimality for the target |
| Dijkstra.ReconstructPath | mini-graph-db/src/graph_traversal.c:34-67 | the came-from links yield the recorded path reversed into order; the buffers overrun exactly for 256 hops or more |
| Dijkstra.TraverseIndexed | mini-graph-db/src/graph_traversal.c:261-313 | over indices: not found means no path, otherwise the path is real, shortest and acyclic; no overrun on at most 256 nodes, otherwise exactly when the found path has 256 hops or more |
| Dijkstra.StepIsEdge | mini-graph-db/src/graph_traversal.c:288-298 | each step of the indexed graph is an edge of the property graph with that edge's weight |
| Dijkstra.EdgeIsStep | mini-graph-db/src/graph_traversal.c:288-307 | every edge is a step, both ways if undirected, with its id and its weight, 1 without a weight function |
| Dijkstra.PathIsRoute | mini-graph-db/src/graph_traversal.c:288-307 | a path of steps is a route over the edge array with the same weight |
| Dijkstra.RouteIsPath | mini-graph-db/src/graph_traversal.c:288-307 | every route over the edge array is a path of steps of its weight |
| Dijkstra.ReachIffPath | mini-graph-db/src/graph_traversal.c:288-307 | a path of steps exists if and only if the one node can be reached from the other along arcs |
| Dijkstra.TraverseDijkstra | mini-graph-db/src/graph_traversal.c:261-313 | for non-negative weights: not found exactly when an id does not exist or the target cannot be reached along arcs; otherwise nodes, edge ids and weight are those of a route over the edge array that no route undercuts; no overrun on at most 256 nodes |
| Dijkstra.BuildChain | mini-graph-db/src/property_graph.c:65-159 | node by node and edge by edge a valid graph in which each node leads to the next and nowhere else |
| Dijkstra.ChainDepth | mini-graph-db/src/graph_traversal.c:34-67 | on the chain every path from the first node has as many hops as its end's index |
| Dijkstra.ChainOverruns | mini-graph-db/src/graph_traversal.c:34-67 | on the chain of any number of nodes above 256 the buffers overrun |
| FlowTheory.CutIdentity | mini-graph-db/src/graph_algo.c:727-768 | for any skew net flow the value equals the net flow over any cut |
| FlowTheory.FlowBelowCut | mini-graph-db/src/graph_algo.c:727-768 | weak duality: no feasible flow exceeds any cut's capacity |
| FlowTheory.FlowOfFeasible | mini-graph-db/src/graph_algo.c:758-764 | a residual matrix that the loop maintains encodes a feasible flow of the accumulated value |
| FlowTheory.AugmentKeepsResidual | mini-graph-db/src/graph_algo.c:758-764 | an augmentation keeps capacity limits, skew symmetry and conservation and raises the value by the pushed amount |
| FlowTheory.SaturatedCut | mini-graph-db/src/graph_algo.c:749 | when the search fails, the capacity of the cut of reached nodes equals the flow value |
| FlowTheory.StrongDuality | mini-graph-db/src/graph_algo.c:749-768 | then the value is the maximum over all flows and the minimum over all cuts |
| FlowTheory.RaisedExactly | mini-graph-db/src/graph_algo.c:709-719 | raising capacities leaves the maximum flow as it is if and only if some minimum cut has none of the raised pairs |
| FlowTheory.MinCutExists | mini-graph-db/src/graph_algo.c:727-768 | between any two nodes some cut has the least capacity |
| FlowTheory.DistancesGrow | mini-graph-db/src/graph_algo.c:730-765 | over an augmentation along a shortest path no node comes closer to the source in the residual graph |
| FlowTheory.TightShrinks | mini-graph-db/src/graph_algo.c:751-763 | each augmentation uses up a tight arc, so at unchanged levels strictly fewer remain |
| FlowTheory.TightBound | mini-graph-db/src/graph_algo.c:709-719 | at any time at most one tight arc for each arc with capacity |
| FlowTheory.AugmentStep | mini-graph-db/src/graph_algo.c:730-765 | one turn of the loop: the residual invariant is kept and either the sink's level rises or the tight arcs become fewer |
| FlowTheory.BudgetTotal | mini-graph-db/src/graph_algo.c:730-765 | hence at most nodes times arcs augmentations, for real capacities too |
| MaxFlow.Bfs | mini-graph-db/src/graph_algo.c:731-748 | finds a shortest augmenting path with its levels, or a cut that no residual arc leaves |
| MaxFlow.Bottleneck | mini-graph-db/src/graph_algo.c:751-756 | the least residual capacity on the path, attained on one of its arcs |
| MaxFlow.Augment | mini-graph-db/src/graph_algo.c:758-763 | the residual array becomes the augmented matrix, for an arc and its reverse alike |
| MaxFlow.RunToMaximum | mini-graph-db/src/graph_algo.c:727-765 | the loop ends within nodes times arcs rounds with the value of a maximum flow and minimum cut, distances never having shrunk |
| MaxFlow.InitResidual | mini-graph-db/src/graph_algo.c:692-719 | the initial residual array is the capacity matrix, the last of several parallel edges winning |
| MaxFlow.MatrixHoldsPairTotal | mini-graph-db/src/graph_algo.c:709-719 | a matrix entry is the capacity of all edges that can be walked that way, undirected ones included, if and only if every such edge with capacity is the last one created from the one node to the other; it is never more |
| MaxFlow.TotalFlowExactly | mini-graph-db/src/graph_algo.c:709-719 | the matrix's maximum flow is that of the graph's whole capacities if and only if some minimum cut is crossed by no edge with capacity that does not count |
| MaxFlow.RightForAllPairs | mini-graph-db/src/graph_algo.c:709-719 | that holds for every source and sink if and only if every edge with capacity between different nodes is directed and the last one created between them |
| MaxFlow.MaxFlowEdmondsKarp | mini-graph-db/src/graph_algo.c:683-776 | no answer exactly for empty or oversized graphs; 0 for equal source and sink; else max-flow equals min-cut over the matrix, and over the graph's whole capacities if and only if some minimum cut is crossed by no edge that does not count; within nodes times edges augmentations |
| MaxFlow.OneEdgeFlow | mini-graph-db/src/graph_algo.c:683-776 | on a stored graph of two nodes and one directed edge the answer is what the capacity function says of that edge, for every such function |
| MaxFlow.ParallelEdgesLost | mini-graph-db/src/graph_algo.c:683-776 | on a stored graph of two nodes and two unit edges the answer is 1, where the edges together carry 2 |
| MaxFlow.UndirectedOneWay | mini-graph-db/src/graph_algo.c:683-776 | on a stored graph of two nodes and one undirected unit edge the answer against its direction is 0, where the edge carries 1 |
| SpanningForests.LabelsSound | mini-graph-db/src/graph_algo.c:448-469 | equal labels after merging some edges mean connected by those edges |
| SpanningForests.LabelsComplete | mini-graph-db/src/graph_algo.c:448-469 | and connected means equal labels |
| SpanningForests.ChosenSpans | mini-graph-db/src/graph_algo.c:455-469 | the greedily chosen edges connect whatever all edges connect |
| SpanningForests.ChosenNeedsAll | mini-graph-db/src/graph_algo.c:462-468 | and no chosen edge is connected by the others, so they form a forest |
| SpanningForests.GreedyAhead | mini-graph-db/src/graph_algo.c:455-469 | among the first k edges of the order no forest contains more edges than the greedy choice |
| SpanningForests.GreedyCheaper | mini-graph-db/src/graph_algo.c:439-469 | so no spanning forest weighs less |
| SpanningForests.SameSize | mini-graph-db/src/graph_algo.c:455 | all spanning forests have the same number of edges |
| SpanningForests.KruskalOptimal | mini-graph-db/src/graph_algo.c:439-469 | taking edges in ascending order gives a spanning forest of least weight among all spanning forests |
| SpanningForests.ForestInside | mini-graph-db/src/graph_algo.c:439-469 | without negative weights every spanning set holds a spanning forest that is no heavier |
| SpanningForests.NegativesChosen | mini-graph-db/src/graph_algo.c:439-469 | all edges of negative weight are chosen if and only if they form a forest |
| SpanningForests.LightestSpanning | mini-graph-db/src/graph_algo.c:439-469 | the choice is lightest among all sets that connect as much, with cycles or without, if and only if the edges of negative weight form a forest |
| Kruskal.HalvingKeeps | mini-graph-db/src/graph_algo.c:403 | one path-halving step changes no node's root and keeps ranks rising |
| Kruskal.Find | mini-graph-db/src/graph_algo.c:401-407 | find with path halving terminates, returns the root and leaves the partition unchanged |
| Kruskal.Union | mini-graph-db/src/graph_algo.c:409-421 | merges the two classes and no others, keeping the rank order |
| Kruskal.SortByWeight | mini-graph-db/src/graph_algo.c:439-446 | the exchange sort orders the edge list by weight and keeps each edge once |
| Kruskal.Select | mini-graph-db/src/graph_algo.c:448-469 | the selection loop writes a prefix of the greedy choice, all of it when there is room |
| Kruskal.ConnectedIsBridged | mini-graph-db/src/graph_algo.c:451-461 | connected by links of node indices means connected by walks over the ends of the edges in the edge array |
| Kruskal.SpansIffConnects | mini-graph-db/src/graph_algo.c:451-461 | a set of edges spans if and only if it connects the two ends of every edge in the edge array |
| Kruskal.MinimumEntries | mini-graph-db/src/graph_algo.c:448-472 | entries of a minimum spanning forest connect the ends of every edge, and no cycle-free set of edges that does is lighter |
| Kruskal.LightestExactly | mini-graph-db/src/graph_algo.c:423-472 | no set of edges that connects as much, with cycles or without, is lighter if and only if the edges of negative weight close no cycle |
| Kruskal.MstKruskal | mini-graph-db/src/graph_algo.c:423-472 | the entries are different edges of the edge array with their weights and close no cycle; with room for n-1 they connect the ends of every edge, no cycle-free set of edges that does is lighter, and no set at all exactly when the edges of negative weight close no cycle; with less room, a prefix in ascending order |
| PathCounts.FiberProduct | mini-graph-db/src/graph_metrics.c:70-88 | walks through a node at a given step number the product of the walks to it and from it |
| PathCounts.CountThrough | mini-graph-db/src/graph_metrics.c:70-88 | the number of walks of a length is the sum of these products over all nodes |
| Betweenness.LevelsAreDistances | mini-graph-db/src/graph_metrics.c:66-83 | the levels of the forward search are the distances |
| Betweenness.SigmaStep | mini-graph-db/src/graph_metrics.c:84-87 | a node's shortest-path count is the sum of its predecessors' counts |
| Betweenness.ContinueStep | mini-graph-db/src/graph_metrics.c:94-99 | shortest continuations to a target are counted over the successors one level up |
| Betweenness.DependencyRecurrence | mini-graph-db/src/graph_metrics.c:94-99 | a node's dependency is the sum of sigma ratios times one plus the dependency over its successors one level up |
| Betweenness.FractionIsTerm | mini-graph-db/src/graph_metrics.c:97 | the fraction of shortest paths through a node factors into counts before and after it |
| Betweenness.DepIsDependency | mini-graph-db/src/graph_metrics.c:91-102 | for one source the recurrence's value is the sum over targets of the fractions of shortest paths |
| Betweenness.ShortestAre | mini-graph-db/src/graph_metrics.c:66-88 | the counted paths are the walks that no other walk between the same nodes is shorter than |
| Betweenness.BetweennessExactly | mini-graph-db/src/graph_metrics.c:30-104 | betweenness is the sum, over all ordered pairs of other nodes, of the share of those walks that visit the node |
| Brandes.Forward | mini-graph-db/src/graph_metrics.c:55-89 | the search yields distances, shortest-path counts, predecessor lists and an order by distance; a counter exceeds 2^31 - 1 if and only if that many shortest paths lead to some node |
| Brandes.HandDown | mini-graph-db/src/graph_metrics.c:95-99 | one popped node hands its share to each of its predecessors and to no other node |
| Brandes.Backward | mini-graph-db/src/graph_metrics.c:91-102 | emptying the stack adds every node's dependency for the source to its total |
| Brandes.CentralityBetweenness | mini-graph-db/src/graph_metrics.c:30-104 | without parallel edges between different nodes every total is the sum over ordered pairs of the fraction of shortest paths through the node; a path counter exceeds the code's integers if and only if some pair has more than 2^31 - 1 shortest paths |
| LayeredGraphs.LayerPaths | mini-graph-db/src/graph_metrics.c:66-88 | in a graph of layers of two nodes 2^(k-1) shortest paths lead to each node of layer k |
| LayeredGraphs.StoredIsLayered | mini-graph-db/src/property_graph.c:124-159 | edges from every node of a layer to both of the next, each created once, make such a graph, without parallel edges |
| LayeredGraphs.CountersOverflow | mini-graph-db/src/graph_metrics.c:36-88 | on a stored graph of 65 nodes a counter reaches 2^31 |
| ChainGraphs.LineBetweenness | mini-graph-db/src/graph_metrics.c:91-102 | on a line of nodes a node gets the number of nodes before it times the number behind it |
| ChainGraphs.ChainCentrality | mini-graph-db/src/graph_metrics.c:30-104 | on the stored chain of any n nodes the loops give the node of index v exactly v * (n - 1 - v) |
| Bytes.KeyCompareIsOrder | mini-file-storage/src/range_query.c:27-35 | the comparison's sign decides lexicographic byte order and equality |
| Bytes.LessExactly | mini-file-storage/src/range_query.c:27-35 | one key is before another if and only if at the first place where they part it has ended or has the lesser byte |
| Bytes.LessTrans | mini-file-storage/src/range_query.c:27-35 | byte order is transitive |
| Bytes.LessTotal | mini-file-storage/src/range_query.c:27-35 | and total |
| Bytes.Word32RoundTrip | mini-file-storage/src/sstable.c:103-118 | a 32-bit word written byte by byte is read back |
| Bytes.Bytes32RoundTrip | mini-file-storage/src/wal_file.c:115-117 | four bytes read as a word are written back |
| Bytes.Word32Digits | mini-file-storage/src/wal_file.c:69-82 | a word stands in memory as its base-256 digits, the least significant first |
| Bytes.CommonPrefix | mini-file-storage/src/sstable.c:99-100 | the longest common prefix of two keys |
| Bytes.PutBytes | mini-file-storage/src/sstable.c:119-124 | copying to a buffer position extends what the buffer held before it |
| BlockFormat.LookupFinds | mini-file-storage/src/sstable.c:391-421 | in an ascending list every entry is what lookup of its key returns |
| BlockFormat.LookupMisses | mini-file-storage/src/sstable.c:391-421 | lookup of a key that no entry has gives nothing |
| BlockFormat.EntryFields | mini-file-storage/src/sstable.c:102-124 | at an entry's offset a reader finds its three lengths, unshared key bytes and value |
| BlockFormat.KeyRebuilt | mini-file-storage/src/sstable.c:366-369 | the previous key's shared prefix and the stored bytes give the entry's key back |
| BlockFormat.DecodeStep | mini-file-storage/src/sstable.c:361-380 | decoding at an entry with the previous key at hand yields key, value and the next offset, within the block |
| BlockFormat.OffsetMonotone | mini-file-storage/src/sstable.c:119-124 | entry offsets increase by at least the header size |
| BlockFormat.RestartIsWhole | mini-file-storage/src/sstable.c:91-95 | every restart point stores its whole key at the recorded offset |
| SSTable.BloomAdd | mini-file-storage/src/sstable.c:46-57 | the bits that are set afterwards are those that were and the three of the key, so it is maybe contained and no key stops being so |
| SSTable.PutEntry | mini-file-storage/src/sstable.c:102-124 | the buffer grows by exactly the entry's encoding |
| SSTable.SharedLength | mini-file-storage/src/sstable.c:99-100 | the byte-wise loop finds the longest common prefix |
| SSTable.SerializeDataBlock | mini-file-storage/src/sstable.c:82-128 | buffer and restart array hold the block format of the entries |
| SSTable.TakeBlock | mini-file-storage/src/sstable.c:157-165 | takes at least one entry and no more than fit a block of 4096 bytes once encoded; stops only at the end or where the next entry would bring the estimate of key, value and 16 bytes each to 3072 |
| SSTable.SstableWrite | mini-file-storage/src/sstable.c:133-203 | consecutive non-empty blocks hold all entries, each fits its buffer, the index names each block's last key, and the filter has the smallest whole number of bytes for 10 bits a key, 64 bits at least, with exactly the bits of the keys set |
| SSTable.LastRestartAtMost | mini-file-storage/src/sstable.c:336-351 | the search in a block narrows any occurrence of the key to one restart interval |
| SSTable.BlockSearch | mini-file-storage/src/sstable.c:328-386 | the search in a block agrees with list lookup, for present and absent keys |
| SSTable.SstableGet | mini-file-storage/src/sstable.c:391-421 | point lookup in a written table agrees with list lookup for every key |
| RangeQuery.BoundsMonotone | mini-file-storage/src/range_query.c:40-63 | along ascending keys each bound of a range is crossed once |
| RangeQuery.EndTest | mini-file-storage/src/range_query.c:182-183 | the test with swapped arguments decides whether a block begins beyond the range |
| RangeQuery.InRangeExactly | mini-file-storage/src/range_query.c:40-63 | a key is in the range if and only if it is between the bounds or equals a bound that is inclusive |
| RangeQuery.MatchingExactly | mini-file-storage/src/range_query.c:148-249 | the matches are the entries in range, all of them, each once, in the order of the table |
| RangeQuery.FindStartBlock | mini-file-storage/src/range_query.c:69-86 | all entries before the found block are below the start key, and the block's last key is not |
| RangeQuery.Decoder.DecodeKv | mini-file-storage/src/range_query.c:93-142 | with its persistent previous key the decoder yields an entry at a restart point or right after the one before, and is ready for the next |
| RangeQuery.FindRestart | mini-file-storage/src/range_query.c:188-212 | all entries before the chosen restart point are below the start key; tells when the scratch buffer overruns |
| RangeQuery.ScanEntries | mini-file-storage/src/range_query.c:214-246 | from there the results become the first matches up to the end of the block |
| RangeQuery.ScanBlock | mini-file-storage/src/range_query.c:163-247 | one block extends the first matches to its end, or to the end of the table when it begins beyond the range |
| RangeQuery.SstableRangeScan | mini-file-storage/src/range_query.c:148-249 | the scan returns exactly the first max_results entries in range in order, unless a long restart value overruns the scratch buffer, which a long value at the start key always does |
| RangeQuery.LongRestartIsReached | mini-file-storage/src/range_query.c:167-177 | each restart point with a value above 256 bytes holds the start key of the range of its key alone, which is not empty |
| RangeQuery.ScanLongRestart | mini-file-storage/src/range_query.c:148-249 | the scan of that range overruns the scratch buffer, for each such restart point of any table |
| SortedEntries.InsertedLookup | mini-file-storage/src/skiplist.c:44-94 | after an insert the key has the new value and all others what they had |
| SortedEntries.InsertedAscending | mini-file-storage/src/skiplist.c:44-94 | inserts keep strictly ascending order |
| SortedEntries.RunKeepsLast | mini-file-storage/src/skiplist.c:44-119 | over any run of inserts the list is strictly ascending and holds the last value inserted for each key |
| SkipLevels.NestedIsSublist | mini-file-storage/src/skiplist.c:87-90 | a level whose nodes stand in the level below in the same order is a sublist of it |
| SkipLevels.LeavesSamePlace | mini-file-storage/src/skiplist.c:52-62 | the walk leaves two levels at the same place, whatever the order of the keys |
| SkipLevels.GrownStacked | mini-file-storage/src/skiplist.c:87-90 | linking a node in where the walk left each level keeps the levels nested, whatever the order of the keys |
| SkipLevels.WalksOrdered | mini-file-storage/src/skiplist.c:52-62 | a walk for a larger key gets no less far on every level |
| SkipLevels.WalkPast | mini-file-storage/src/skiplist.c:52-62 | a walk for a larger key passes a newly linked node and otherwise ends where it did |
| SkipLevels.WalkBefore | mini-file-storage/src/skiplist.c:52-62 | a walk for a smaller or the same key ends where it did before the new node was linked |
| SkipLevels.WalkBlocked | mini-file-storage/src/skiplist.c:52-62 | after an insert of the empty key a walk is kept at the header or ends behind the node where it did |
| SkipLevels.FoundNew | mini-file-storage/src/skiplist.c:44-119 | right after its insert a key is found, on every list |
| SkipLevels.FoundOther | mini-file-storage/src/skiplist.c:44-119 | the insert of another key changes what is found for a key at most to nothing |
| SkipLevels.WalkCuts | mini-file-storage/src/skiplist.c:52-62 | in key order and without an empty key in the way the walk leaves every level where the key belongs |
| SkipLists.OverwriteRecords | mini-file-storage/src/skiplist.c:64-70 | overwriting the node that was found keeps the invariant of the run |
| SkipLists.GrownRecords | mini-file-storage/src/skiplist.c:72-93 | linking in a new node keeps it: all keys of the run on level 0, no outdated answers, order as long as no other key follows the empty one |
| SkipLists.AgreesExactly | mini-file-storage/src/skiplist.c:44-119 | after a run of inserts search agrees with the value inserted last for every key if and only if no key of the run is empty or all are |
| SkipLists.LostKey | mini-file-storage/src/skiplist.c:99-119 | otherwise an inserted key is not found: the empty one if another key stands in front, else the least other key |
| SkipLists.SkipList.constructor | mini-file-storage/src/skiplist.c:27-39 | a new list is valid and empty |
| SkipLists.SkipList.EntriesAscend | mini-file-storage/src/skiplist.c:124-143 | as long as no other key follows the empty one, the entries of level 0 ascend strictly and are those of the sorted list |
| SkipLists.SkipList.LevelsNest | mini-file-storage/src/skiplist.c:87-90 | after any run each level is a sublist of the one below |
| SkipLists.SkipList.Advance | mini-file-storage/src/skiplist.c:53-60 | the walk on one level stops before the first node that has the empty key or is not smaller |
| SkipLists.SkipList.Search | mini-file-storage/src/skiplist.c:99-119 | what the walk finds, which is never an outdated value; if no key of the run is empty or all are, a key is found if and only if it was inserted |
| SkipLists.SkipList.Locate | mini-file-storage/src/skiplist.c:48-62 | the update array holds the nodes where the walk leaves the levels |
| SkipLists.SkipList.LinkAt | mini-file-storage/src/skiplist.c:87-90 | splicing a node into a level leaves the level linked through exactly its nodes and the new one |
| SkipLists.SkipList.Insert | mini-file-storage/src/skiplist.c:44-94 | on every list and for every random level: rejected exactly above the size limits, otherwise the found node is overwritten or a new one linked in where the walk left each level; the key is found afterwards, no other key's answer becomes anything but none, and in order the entries are those of the sorted insert |
| SkipLists.InsertAll | mini-file-storage/src/skiplist.c:44-119 | the list after any inserts at any random levels has the accepted ones as its run, and search is right for every key if and only if none of those keys is empty or all are |
| SkipLists.EmptyKeyHides | mini-file-storage/src/skiplist.c:53-90 | inserting the empty key at any random level into any list hides the least other key from search, and all other keys at the list's level if it is new, while all are still stored |
| SkipLists.EmptyKeyLost | mini-file-storage/src/skiplist.c:44-119 | after the empty key and any other, at any levels, the second is found and the first is not |
| SkipLists.SkipIterator.Advance | mini-file-storage/src/skiplist.c:136-143 | yields the next entry that is not under the empty key, then null |
| SkipLists.Drain | mini-file-storage/src/skiplist.c:124-143 | an iterator yields every entry of level 0 once in its order, but for those under the empty key; strictly ascending in order |
| Recency.RunIsLru | mini-file-storage/src/block_cache.c:162-273 | over any run of put, get and invalidate: distinct keys, at most the capacity, in the order of last use, each with its last put block |
| Recency.EvictsLeastRecent | mini-file-storage/src/block_cache.c:184-187 | a put of a new key into a full cache drops exactly one item, that of the oldest last use |
| Recency.StepAhead | mini-file-storage/src/block_cache.c:162-273 | an operation on another key removes a cached key if and only if as many keys as the capacity would then stand in front of it |
| Recency.CachedExactly | mini-file-storage/src/block_cache.c:162-273 | after any run a key is cached if and only if it was put or found, was not invalidated since, and the others put or found since and still valid were at no time as many as the capacity |
| Recency.Retained | mini-file-storage/src/block_cache.c:162-273 | a key put or found stays cached until it is invalidated or as many other keys as the capacity were asked for since |
| BlockCaches.BlockCache.constructor | mini-file-storage/src/block_cache.c:54-79 | a new cache is valid and empty; capacity 0 means 128 |
| BlockCaches.BlockCache.LruDetach | mini-file-storage/src/block_cache.c:84-97 | the list without the entry, both directions and both ends linked |
| BlockCaches.BlockCache.LruAttachHead | mini-file-storage/src/block_cache.c:102-111 | the list with the entry in front, linked likewise |
| BlockCaches.BlockCache.Find | mini-file-storage/src/block_cache.c:143-157 | the chain walk finds the entry of a cached key and null for any other |
| BlockCaches.BlockCache.Unchain | mini-file-storage/src/block_cache.c:120-130 | its bucket's chain without the entry, all other chains unchanged |
| BlockCaches.BlockCache.EvictTail | mini-file-storage/src/block_cache.c:116-138 | the recency list loses its last item, list and chains still holding the same entries |
| BlockCaches.BlockCache.Put | mini-file-storage/src/block_cache.c:162-215 | refines put on the recency list; rejected exactly for keys above 256 bytes |
| BlockCaches.BlockCache.Get | mini-file-storage/src/block_cache.c:221-242 | refines get: a hit returns the block and makes it most recent, a miss changes nothing |
| BlockCaches.BlockCache.Invalidate | mini-file-storage/src/block_cache.c:247-273 | removes the key and tells whether it was there |
| Slots.TotalFits | mini-db-kernel/src/slotted_page.c:170-179 | non-overlapping live tuples together fit behind the free space, so compaction's buffer and copy are in range |
| Slots.MovedOk | mini-db-kernel/src/slotted_page.c:204-211 | packed tuples are disjoint and inside the page |
| Slots.MovedTuples | mini-db-kernel/src/slotted_page.c:182-211 | after packing every slot has the bytes it had |
| SlottedPages.SlottedPage.constructor | mini-db-kernel/src/slotted_page.c:30-39 | a new page is valid, empty and has all space but the header free |
| SlottedPages.SlottedPage.GetTuple | mini-db-kernel/src/slotted_page.c:127-138 | the live tuple of a slot, nothing for dead or unknown slots |
| SlottedPages.SlottedPage.DeleteTuple | mini-db-kernel/src/slotted_page.c:80-88 | the slot loses its tuple, all others keep theirs; the counts stay right |
| SlottedPages.SlottedPage.Measure | mini-db-kernel/src/slotted_page.c:169-178 | counts the live tuples and their bytes |
| SlottedPages.SlottedPage.Collect | mini-db-kernel/src/slotted_page.c:181-202 | the buffer holds the live tuples back to back and the maps tell where each went |
| SlottedPages.SlottedPage.Relocate | mini-db-kernel/src/slotted_page.c:208-211 | exactly the live slots get their packed offsets |
| SlottedPages.SlottedPage.Compact | mini-db-kernel/src/slotted_page.c:166-220 | every slot keeps its bytes, free space never shrinks, and the live bytes become contiguous exactly when some slot is dead |
| SlottedPages.SlottedPage.InsertTuple | mini-db-kernel/src/slotted_page.c:45-73 | succeeds exactly when one of 256 slots is free and the tuple is no longer than the gap, or some slot is dead and header, slots, all tuples and the new one take at most 4096 bytes; all other tuples keep their bytes even when it compacts and then fails |
| SlottedPages.FitsExactly | mini-db-kernel/src/slotted_page.c:45-73 | a tuple fits directly or after compaction if and only if it is no longer than the gap, or a slot is dead and all tuples together leave room |
| SlottedPages.SlottedPage.UpdateTuple | mini-db-kernel/src/slotted_page.c:99-121 | in place when not longer, with only that slot's length changed, else a new slot; when that finds no room the old tuple is gone; no other slot changes |
| SlottedPages.GrowingUpdateLosesTuple | mini-db-kernel/src/slotted_page.c:99-121 | on a new page with a one-byte tuple the growing update fails and leaves nothing exactly above 4024 bytes |
| SlottedPages.ShrunkSpaceLost | mini-db-kernel/src/slotted_page.c:166-220 | when the only tuple of a full page shrinks, its space is refused to the next tuple although compaction runs |
| MerkleTheory.PathVerifies | mini-nosql-store/src/nosql_verify.c:280-364 | for any leaf count every leaf's path folds to the root, promoted nodes included |
| MerkleTheory.RootSplits | mini-nosql-store/src/nosql_verify.c:232-269 | level by level with promotion gives the same root as splitting the leaves at the largest power of two below their number, as section 2.1 of RFC 6962 does |
| MerkleTheory.SplitPointIsPower | mini-nosql-store/src/nosql_verify.c:232-269 | the split point is a power of two |
| MerkleTheory.FoldBinds | mini-nosql-store/src/nosql_verify.c:346-364 | two proofs of the same shape with the same result start from the same hash with the same siblings, or at some step of theirs combine different pairs to the same hash |
| MerkleTheory.ProofBinds | mini-nosql-store/src/nosql_verify.c:346-364 | a verifying proof with a leaf's directions is for that leaf's hash and has its siblings, or collides with that leaf's own path at some step |
| MerkleTheory.RootBinds | mini-nosql-store/src/nosql_verify.c:383-387 | equal roots over equally many leaves mean equal leaves, or at some level of the two trees different pairs in the same place have the same parent |
| MerkleTheory.RootHidesCount | mini-nosql-store/src/nosql_verify.c:386-387 | trees with different leaf counts can share a root without any collision |
| MerkleTheory.SizesMonotone | mini-nosql-store/src/nosql_verify.c:237-266 | node count and height grow with the leaf count |
| MerkleTheory.FullSizes | mini-nosql-store/src/nosql_verify.c:237-266 | 256 leaves need 511 nodes and 9 levels, so no array overflows |
| MerkleTheory.PathFits | mini-nosql-store/src/nosql_verify.c:303-341 | a path is shorter than the tree is high, so it fits 16 steps |
| MerkleTrees.LastIsRoot | mini-nosql-store/src/nosql_verify.c:274-278 | the last node of the array carries the root hash |
| MerkleTrees.TreeIsConsistent | mini-nosql-store/src/nosql_verify.c:237-266 | every node's child links point below it and its hash combines or repeats its children's |
| MerkleTrees.MerkleTree.AddLeaf | mini-nosql-store/src/nosql_verify.c:188-199 | appends a leaf hash, or -1 at 256 leaves |
| MerkleTrees.MerkleTree.BuildLevel | mini-nosql-store/src/nosql_verify.c:238-261 | one level's parents, an odd last node promoted, everything below unchanged |
| MerkleTrees.MerkleTree.BuildLevels | mini-nosql-store/src/nosql_verify.c:232-269 | the array holds the whole tree, within its 512 slots |
| MerkleTrees.MerkleTree.Build | mini-nosql-store/src/nosql_verify.c:212-272 | builds the tree of the current leaves; fails exactly without leaves |
| MerkleTrees.MerkleTree.RootHash | mini-nosql-store/src/nosql_verify.c:274-278 | the root of the last build |
| MerkleTrees.MerkleTree.GenerateProof | mini-nosql-store/src/nosql_verify.c:293-344 | the path that the array holds for the leaf, never longer than 16, which is the leaf's path to the root when the tree was built after the last leaf; the error cases exactly |
| MerkleTrees.ArrayPathIsPath | mini-nosql-store/src/nosql_verify.c:303-341 | out of the array of a built tree those steps are the leaf's path |
| MerkleTrees.ProveLeaf | mini-nosql-store/src/nosql_verify.c:293-364 | for any leaf counts at the build and now, a leaf's proof verifies if and only if what the array holds in the places of its siblings leads from it to the old root; always when the tree is current |
| MerkleTrees.StaleProof | mini-nosql-store/src/nosql_verify.c:293-364 | a proof for a second leaf added after the build verifies if and only if both leaves combine to the first one's hash |
| MerkleTrees.VerifyProof | mini-nosql-store/src/nosql_verify.c:346-364 | accepts exactly when the proof folds to the root |
| MerkleTrees.ProveAndVerify | mini-nosql-store/src/nosql_verify.c:293-364 | a generated proof verifies its leaf, and another hash if and only if it collides with the leaf at some step of that proof |
| MerkleTrees.TreeDiff | mini-nosql-store/src/nosql_verify.c:377-412 | lists the first differing positions, surplus leaves included, or nothing when the roots agree |
| MerkleTrees.DifferencesExactly | mini-nosql-store/src/nosql_verify.c:391-411 | the differing positions are, ascending, exactly those where the hashes differ or only one tree has a leaf |
| MerkleTrees.DiffExact | mini-nosql-store/src/nosql_verify.c:386-411 | that list is exact if and only if the roots differ or the leaves are equal |
| MerkleTrees.EqualCountsExact | mini-nosql-store/src/nosql_verify.c:386-411 | for equal leaf counts it is exact unless the two trees collide at some place |
| MerkleTrees.CompareReplicas | mini-nosql-store/src/nosql_verify.c:377-412 | comparing two current trees gives the exact list if and only if the roots differ or the leaves are the same; over equally many leaves it is wrong only if the trees collide |
| ConsistentHashing.ClockwiseWithout | mini-nosql-store/src/nosql_hash.c:64-79 | dropping a node's points commutes with walking the ring |
| ConsistentHashing.ClockwiseExactly | mini-nosql-store/src/nosql_hash.c:161-175 | the walk starts at the first point not below the hash and goes once around |
| ConsistentHashing.OwnerExactly | mini-nosql-store/src/nosql_hash.c:156-175 | a hash belongs to the node of the nearest point at or above it or, above all points, of the lowest one |
| ConsistentHashing.ReplicasExactly | mini-nosql-store/src/nosql_hash.c:184-210 | the replicas are all nodes of the ring, each once, in the order in which the walk first meets them, the owner first |
| ConsistentHashing.OthersKeepOwner | mini-nosql-store/src/nosql_hash.c:156-175 | dropping a node changes the owner of no key that the node did not own |
| ConsistentHashing.ReplicasWithout | mini-nosql-store/src/nosql_hash.c:184-210 | the replicas with a node, that node dropped, are a prefix of the replicas without it |
| ConsistentHashing.RingUnique | mini-nosql-store/src/nosql_hash.c:77-78 | with distinct hashes the sorted ring is determined by its points |
| ConsistentHashing.MinimalMovement | mini-nosql-store/src/nosql_hash.c:92-132 | between rings with and without a node only that node's keys change owner and replica lists only move up |
| RingArrays.SortFacts | mini-nosql-store/src/nosql_hash.c:77-78 | sorting keeps the virtual nodes and orders them, strictly if their hashes differ |
| RingArrays.RingFacts | mini-nosql-store/src/nosql_hash.c:64-79 | the rebuilt ring holds exactly the virtual nodes of the active nodes in ascending order |
| HashRings.HashRing.Rebuild | mini-nosql-store/src/nosql_hash.c:64-79 | the ring array becomes the sorted ring of the node table, within its slots |
| HashRings.HashRing.AddNode | mini-nosql-store/src/nosql_hash.c:92-110 | the name's first 63 bytes are stored, -1 and 0 exactly when full or present; names stay distinct if and only if a cut name is new; with distinct names and hashes keys move only to the new node and old replicas keep their order |
| HashRings.LongNameTwice | mini-nosql-store/src/nosql_hash.c:92-110 | a name of 64 bytes or more can be added twice and then stands in the table twice |
| HashRings.HashRing.RemoveNode | mini-nosql-store/src/nosql_hash.c:112-132 | although the last node is renumbered, by name only the removed node's keys move |
| HashRings.HashRing.SetNodeActive | mini-nosql-store/src/nosql_hash.c:134-144 | deactivating moves only that node's keys, activating moves keys only to it |
| HashRings.HashRing.FindSlot | mini-nosql-store/src/nosql_hash.c:161-173 | the binary search splits the ring array: exactly the points before the slot are below the hash |
| HashRings.HashRing.Locate | mini-nosql-store/src/nosql_hash.c:156-175 | the owner of a key, wrapping around; -1 exactly on an empty ring |
| HashRings.HashRing.GetReplicas | mini-nosql-store/src/nosql_hash.c:184-210 | the first distinct nodes of the clockwise walk, at most the number asked for; with distinct node names, by name the replicas of the key |
| TopicPartition.FlatOffsets | mini-message-stream/src/topic_partition.c:43-140 | offsets are positions: they increase by one across records and segments, 1024 records at most |
| TopicPartition.Partition.constructor | mini-message-stream/src/topic_partition.c:23-32 | a new partition has one empty active segment at offset 0 |
| TopicPartition.Partition.RollSegment | mini-message-stream/src/topic_partition.c:123-140 | rolling keeps the log and starts the next segment at its end; at eight segments nothing happens |
| TopicPartition.Partition.Append | mini-message-stream/src/topic_partition.c:43-92 | appends at the next offset, with key and value cut to 255 and 4095 bytes, rolling when needed; -1 exactly when eight segments are in use and the last has 128 records; the room taken follows |
| LogCompaction.ExpiryKeepsValue | mini-message-stream/src/log_cleaner.c:358-392 | after compaction removing expired tombstones changes no key's value |
| LogCompaction.ExpiryKeepsValueExactly | mini-message-stream/src/log_cleaner.c:358-392 | on any log it keeps a key's value if and only if no older value is left with nothing but expired tombstones of closed segments behind it |
| LogCompaction.ValueExactly | mini-message-stream/src/log_cleaner.c:212-248 | a key's value stands in a record after which the key does not come again, and is not empty |
| LogCompaction.CleaningKeepsValues | mini-message-stream/src/log_cleaner.c:404-438 | a cycle keeps every key's latest non-tombstone value |
| LogCompaction.CleaningShape | mini-message-stream/src/log_cleaner.c:257-311 | a cycle leaves at most one record per key before the active segment and changes no offset, no active record and no record without a key |
| LogCompaction.WhatIsKept | mini-message-stream/src/log_cleaner.c:276-296 | a closed record with a key stays whole exactly if the key does not come again and it is no tombstone older than the retention; else its key and value are cleared |
| LogCompaction.CleaningIdempotent | mini-message-stream/src/log_cleaner.c:404-438 | a second cycle at the same time changes nothing |
| LogCompaction.ExpiryAloneResurrects | mini-message-stream/src/log_cleaner.c:358-392 | without compaction before it tombstone removal can bring an overwritten value back |
| LogCleaners.MapInserts | mini-message-stream/src/log_cleaner.c:239-248 | a new key's entry keeps the map one entry per key, each for the key's latest record |
| LogCleaners.MapUpdates | mini-message-stream/src/log_cleaner.c:224-236 | so does updating the entry of a known key |
| LogCleaners.NoteRecord | mini-message-stream/src/log_cleaner.c:212-248 | entering a record keeps the map right for one more record |
| LogCleaners.BuildMap | mini-message-stream/src/log_cleaner.c:200-255 | the map has exactly one entry per key of the partition, for its latest record, and never lacks room |
| LogCleaners.MapDecides | mini-message-stream/src/log_cleaner.c:280-288 | an entry with a record's key and offset exists if and only if the record is its key's latest |
| LogCleaners.ApplyMap | mini-message-stream/src/log_cleaner.c:257-311 | the closed segments become the compacted log, the active one is untouched |
| LogCleaners.RemoveExpiredTombstones | mini-message-stream/src/log_cleaner.c:358-392 | exactly the expired tombstones of closed segments lose their keys, and a key's value is kept if and only if that bares no older one |
| LogCleaners.RunCompactionCycle | mini-message-stream/src/log_cleaner.c:404-438 | the partition's log becomes the cleaned log; every key keeps its value and the active segment is unchanged |
| LogCleaners.RunKeepsValues | mini-message-stream/src/log_cleaner.c:404-438 | over any run of appends, rolls and cycles, with keys and values cut to size and appends refused when all segments are full, the log holds for every key the value appended last |
| LogCleaners.AppendsTaken | mini-message-stream/src/topic_partition.c:43-92 | without early rolls exactly the first 1024 appends of a run are taken, however often the log is cleaned |
| LogCleaners.RunPartition | mini-message-stream/src/log_cleaner.c:404-438 | a partition put through any such run has exactly that log and that room left |
| WalFile.ParseWhole | mini-file-storage/src/wal_file.c:114-141 | a record that is all there is parsed back, unless its lengths are rejected |
| WalFile.TornEnds | mini-file-storage/src/wal_file.c:114-121 | nothing is parsed where the log ends or its next record is torn |
| WalFile.CutReplays | mini-file-storage/src/wal_file.c:114-146 | from any record boundary a cut log replays the surviving records |
| WalFile.CrashCut | mini-file-storage/src/wal_file.c:101-149 | a log cut at any byte replays exactly the surviving records in order and stops |
| WalFile.DamageEndsReplay | mini-file-storage/src/wal_file.c:114-130 | a log followed by a payload under a word that is not its checksum, and by anything, replays exactly the records of the log |
| WalFile.StandingIsParsed | mini-file-storage/src/wal_file.c:114-146 | a payload of up to 2048 bytes that stands under its checksum and length is replayed with kind, key and value, unless it announces more than 255 and 1023 bytes, or more than it has |
| WalFile.NothingStanding | mini-file-storage/src/wal_file.c:114-130 | where no such payload stands the replay ends |
| WalFile.ReplayedStands | mini-file-storage/src/wal_file.c:114-141 | on any file every replayed record comes from a payload that stands there under a word that is its checksum |
| WalFile.SurvivorsArePrefix | mini-file-storage/src/wal_file.c:114-146 | those are the longest prefix of readable records lying wholly inside the cut |
| WalFile.WholeLogExactly | mini-file-storage/src/wal_file.c:101-149 | the uncut log replays as it was appended if and only if no key is above 255 and no value above 1023 bytes |
| WalFile.LongKeyEndsReplay | mini-file-storage/src/wal_file.c:59-149 | a written log whose first key has 256 bytes replays nothing |
| WalFile.FillPayload | mini-file-storage/src/wal_file.c:64-76 | the payload buffer holds type, lengths, key and value |
| WalFile.WalWriter.Append | mini-file-storage/src/wal_file.c:59-87 | the file grows by checksum, length and payload, byte by byte, and stays the log of all appended records; the payload buffer is overrun exactly above 2048 bytes |
| WalFile.Recover | mini-file-storage/src/wal_file.c:101-149 | on any file below 4 GiB the loop with 32-bit offsets replays what the format says |
| CompositeKey.RunIsEven | mini-file-storage/src/encoding.c:228-238 | encoded characters and separators start with an even run of 0xFF |
| CompositeKey.EncodingInjective | mini-file-storage/src/encoding.c:219-267 | an odd run after a zero byte is an escaped zero, an even one a separator: equal encodings come from equal tokens |
| CompositeKey.KeyIsEncoding | mini-file-storage/src/encoding.c:252-267 | the joined key is the encoding of the tuple's characters and separators |
| CompositeKey.KeyInjective | mini-file-storage/src/encoding.c:219-267 | different tuples have different keys |
| CompositeKey.EscapePlain | mini-file-storage/src/encoding.c:228-238 | a string without 0x00 and 0xFF is its own escape, and alone its own key |
| CompositeKey.EscapeConcat | mini-file-storage/src/encoding.c:228-238 | the escape of two strings together is that of the one and then that of the other |
| CompositeKey.EscapeSpecial | mini-file-storage/src/encoding.c:228-238 | each 0x00 and each 0xFF is written with a 0xFF behind it |
| CompositeKey.KeyLength | mini-file-storage/src/encoding.c:219-267 | a key is as long as its strings, their 0x00 and 0xFF bytes once more, and the separators |
| CompositeKey.KeyOrder | mini-file-storage/src/encoding.c:219-267 | byte order is tuple order if and only if the pair is not inverted: at the first difference, a component that ends against one that goes on with a zero byte, the next component may not start with more 0xFF bytes than follow that zero |
| CompositeKey.KeyOrderAgrees | mini-file-storage/src/encoding.c:219-267 | when no component after the first begins with 0xFF keys compare as tuples do, both ways |
| CompositeKey.OrderCanFail | mini-file-storage/src/encoding.c:219-267 | a concrete pair whose keys compare the other way |
| CompositeKey.EscapeString | mini-file-storage/src/encoding.c:224-238 | the loop writes the escaped string within twice its length |
| CompositeKey.CompositeKeyBuilder.AddString | mini-file-storage/src/encoding.c:219-246 | appends the escaped part; rejected exactly at four parts |
| CompositeKey.CompositeKeyBuilder.Build | mini-file-storage/src/encoding.c:252-267 | writes the joined parts and empties the builder |
| CompositeKey.BuildKey | mini-file-storage/src/encoding.c:219-267 | up to four strings come out as their key, of the length just stated; a single string without 0x00 and 0xFF comes out as itself |

## Left out

- Brandes.CentralityBetweenness: requires at most one edge per ordered pair of different nodes, because with parallel
  edges the code's predecessor arrays of n slots can run over; totals after a counter exceeded its 32-bit integer are not
  modelled beyond the fact that it does; the final cut to `max_results` and the descending sort are not modelled.
- Brandes.Forward: requires the same, for the same reason.
- Weights, capacities and centralities are `real` numbers; floating-point rounding is not modelled. An infinite
  distance is a separate constructor.
- Dijkstra.TraverseDijkstra: requires non-negative weights, for which the algorithm is meant; what the code returns after
  overrunning its 256-entry buffers is not modelled beyond the fact that it does.
- MaxFlow.MaxFlowEdmondsKarp: requires non-negative capacities.
- SkipLists.SkipIterator.Advance: an iterator that has returned null may not be advanced again; the code would
  dereference null.
- MerkleTrees.MerkleTree.AddLeaf: leaf data hashing is not modelled, leaves arrive as hashes.
- HashRings.HashRing.Rebuild: the library sort is replaced by a verified insertion sort; keys per node and quorum calls
  are left out.
- RangeQuery.SstableRangeScan: after an overrun of the 256-byte scratch buffer nothing is said about the results; the
  multi-table scan, the range iterator and the filter are left out.
- SSTable.SstableWrite: requires strictly ascending keys within the size limits, as callers provide. File offsets, footer
  and re-reading are left out; blocks, index and filter are values in memory. The filter's bits are booleans rather
  than packed bytes.
- WalFile.WalWriter.Append: after an overrun of the code's 2048-byte buffer nothing is written here; a null value with a
  non-zero length is left out.
- WalFile.Recover: a payload too short for the lengths it announces makes the code read bytes it never wrote; the model
  stops there with an outcome of its own. Appending to a log that was cut in the middle of a record is left out.
- LogCleaners.RunCompactionCycle: covers the compaction policy; deletion by time or size, statistics and the returned
  counts are left out. A segment's record slots are a sequence that is replaced, not an array written in place.
- CompositeKey.CompositeKeyBuilder.AddString: raw byte and integer components are left out; they are not escaped, so
  unique decoding is not claimed for them.
- SlottedPages.SlottedPage.Compact: allocation of its buffers succeeds, for zero bytes too; page id, log sequence number
  and dirty flag are left out.
- BlockCaches.BlockCache.Get: hit, miss, access and eviction counters are left out; freed entries stay allocated here.
- Property strings, labels, edge types and record headers.
- Allocation failure, console output, clocks and random numbers.
- The B-tree, LSM tree, lock manager, buffer pool, merge iterator, snapshots, document, column and key-value stores, wire
  protocols, brokers and message codecs.
