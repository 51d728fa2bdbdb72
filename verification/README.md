# OSRM in Dafny

A Dafny model of the routing engine OSRM: how its preprocessing contracts a road network into a hierarchy of
shortcuts, how queries search that hierarchy and unpack what they find, and the self-contained algorithms around
it. The centre is one statement, `Preprocessing.PrepareAndRoute`: for every list of roads, every priority
heuristic, every tie-breaking hash, every order in which parallel phases happen to run and every point at which a
witness search may stop, preprocessing followed by a query answers with the cost of a shortest drive over the given
roads and with a path of original edges of exactly that cost, or finds nothing because there is no such drive.
`Preprocessing.PrepareAndTabulate` says the same of a whole distance table.

`dafny verify dfyconfig.toml` checks the whole project.

## How the project is laid out

Contraction hierarchy, bottom up:

- `BinaryHeap.dfy`, `DynamicGraph.dfy`: the addressable heap and the slot-recycling graph, as classes over the same
  arrays as the program's, each with a representation invariant and an abstract value.
- `RoutingGraph.dfy`, `Contraction.dfy`, `Hierarchy.dfy`: graphs and walks; what one round of contraction is and why
  it keeps distances; what a run of rounds keeps. These state and prove everything on values.
- `Counting.dfy`, `WitnessSearch.dfy`, `ContractRound.dfy`, `Independence.dfy`, `ContractorInput.dfy`: the round as
  the program runs it, on the heap and the graph, from reading roads to inserting shortcuts.
- `Renumbering.dfy`, `Flush.dfy`, `Contractor.dfy`: the renumbering in the middle of a run, and the run.
- `Search.dfy`, `Routing.dfy`, `Unpacking.dfy`, `ManyToMany.dfy`: the two query algorithms and the unpacking of
  shortcuts.
- `Preprocessing.dfy`: the end-to-end statements.

Companions: `Tarjan.dfy`; `GeometryCompressor.dfy`, `GeometryCompression.dfy`, `StreetMeaning.dfy`,
`GeometryRun.dfy` and `LostPenalty.dfy`; `StaticKDTree.dfy`; `StaticRTree.dfy`, `HilbertRTree.dfy` and `RTreeQuery.dfy`;
`HilbertValue.dfy`, `HilbertCurve.dfy` (the curve as a recursion over quadrants) and `HilbertQuadrants.dfy` (the bit
operations compute it); `PolylineCompressor.dfy`; `RangeTable.dfy`; `DouglasPeucker.dfy`.

Loops of the program are loops here, objects whose fields change are classes, and each method is proved against a
specification on values. A long method of the program is cut into several; proof-only arguments are ghost.

Parallel phases only read the frozen graph or touch disjoint lists (`ContractRounds.DeleteTasksDisjoint`), so each
is a loop over its items in an arbitrary order. `std::sort` and `std::nth_element` give any arrangement that meets
their specification. The index storage of the heap returns arbitrary values for nodes it was never told about.

## Where the code does not do what is hoped for

Each of these is stated as a contract with the exact condition.

- `Independence.ProgressWithHash`: with a given tie-breaking hash, a round is certain to choose a node exactly if one
  of the nodes with the lowest priority wins every tie, also against priorities that lie above it by less than the
  epsilon of the float comparison. Otherwise there is a graph on which nobody is ever chosen and the program repeats
  the round forever; `Contractors.Contractor.Run` stops there and says so. For all hashes together the condition is
  that no priority comes that close (`Independence.ProgressExactly`), and if priorities never do, a run completes
  unless two weights at a remaining node cannot be added.
- `GeometryRuns.LostExactly`: the penalty of a traffic light is in the weight of the merged edge but not in its
  geometry exactly if the edge into the light was compressed before (`GeometryCompression.ExactAfter`). Over a whole
  run that happens exactly if a light is removed and so was, before it, the node which that edge comes from in the
  input. So the geometry is exact whenever those nodes have larger numbers than their lights. On the street of
  `LostPenalty.LightIsLost` it is not, whatever the penalty.
- `GeometryStores.GeometryCompressor.constructor`: the counter of bucket indices is shared by all compressors of the
  process, so the indices handed out lie within the own buckets exactly for the first one.
- `Polylines.RoundTrip`: an encoded polyline decodes to the necessary points exactly if every difference of
  coordinates lies in the range that survives the doubling in a 32-bit integer. Points on the map always do
  (`Polylines.MapSurvives`); `Polylines.FarNorthIsLost` is a point that does not.
- `RangeTables.RangeTable.GetRange`: a range is right exactly if no stored length from the start of its block up to
  it exceeds 255; `RangeTables.LongLengthIsCut` is one that does. The last length of a block is not stored, so it may
  be larger, which the comment in the source rules out unnecessarily.

## Model

| member | source | states |
|---|---|---|
| `BinaryHeaps.BinaryHeap.constructor` | DataStructures/BinaryHeap.h:106-114 | a new heap refines the empty map-backed queue, whatever its index storage holds |
| `BinaryHeaps.BinaryHeap.Clear` | DataStructures/BinaryHeap.h:108-114 | forgets every label although stale indices may remain in the index storage |
| `BinaryHeaps.BinaryHeap.Size` | DataStructures/BinaryHeap.h:116-116 | zero exactly if nothing waits in the queue |
| `BinaryHeaps.BinaryHeap.Empty` | DataStructures/BinaryHeap.h:118-118 | true exactly if nothing waits in the queue |
| `BinaryHeaps.BinaryHeap.WasInserted` | DataStructures/BinaryHeap.h:158-166 | right for every node, even where the index storage returns a stale slot of another node |
| `BinaryHeaps.BinaryHeap.WasRemoved` | DataStructures/BinaryHeap.h:151-156 | a node with a label was removed exactly if it is no longer in the queue |
| `BinaryHeaps.BinaryHeap.GetKey` | DataStructures/BinaryHeap.h:145-149 | the weight last given to the node, also after its removal |
| `BinaryHeaps.BinaryHeap.GetData` | DataStructures/BinaryHeap.h:133-143 | the data last given to the node, also after its removal |
| `BinaryHeaps.BinaryHeap.SetData` | DataStructures/BinaryHeap.h:133-137 | changes the data of one node and neither weights nor queue |
| `BinaryHeaps.BinaryHeap.Insert` | DataStructures/BinaryHeap.h:120-131 | the node joins the queue with its weight and data; heap order and both cross indices hold again |
| `BinaryHeaps.BinaryHeap.DeleteMin` | DataStructures/BinaryHeap.h:174-187 | returns a queued node of least weight, takes exactly it from the queue, and keeps all labels |
| `BinaryHeaps.BinaryHeap.DeleteAll` | DataStructures/BinaryHeap.h:189-198 | empties the queue and keeps all labels |
| `BinaryHeaps.BinaryHeap.DecreaseKey` | DataStructures/BinaryHeap.h:200-211 | lowers the weight of a node still in the queue; only such nodes may be passed, and every search proves that it does so |
| `BinaryHeaps.BinaryHeap.Upheap` | DataStructures/BinaryHeap.h:261-277 | restores heap order and both cross indices when only one element is too light for its place, without changing any record |
| `BinaryHeaps.BinaryHeap.Downheap` | DataStructures/BinaryHeap.h:234-259 | restores heap order and both cross indices when only one element is too heavy for its place |
| `BinaryHeaps.RootIsMinimal` | DataStructures/BinaryHeap.h:279-287 | in a heap where each element is no lighter than its parent, none is lighter than the root |
| `DynamicGraphs.DynamicGraph.constructor` | DataStructures/DynamicGraph.h:83-116 | from a list sorted by source, each node gets exactly its edges in list order, in disjoint ranges |
| `DynamicGraphs.DynamicGraph.FindEdge` | DataStructures/DynamicGraph.h:251-261 | the first edge of the range to the target; the end of the range exactly if there is none |
| `DynamicGraphs.DynamicGraph.MakeRoom` | DataStructures/DynamicGraph.h:173-204 | a slot marked dummy right of the range is taken first, then one left of it, else the range moves to the end; the node owns its edges as before, a slot nobody owns follows them, and all other nodes keep their lists |
| `DynamicGraphs.DynamicGraph.ExtendLeft` | DataStructures/DynamicGraph.h:177-181 | extending into the dummy slot on the left keeps all ranges disjoint and the multiset of edges |
| `DynamicGraphs.DynamicGraph.Relocate` | DataStructures/DynamicGraph.h:184-202 | moving the range to the end keeps the list, marks the old slots and the spare ones dummy, and reserves a tenth more and two |
| `DynamicGraphs.DynamicGraph.InsertEdge` | DataStructures/DynamicGraph.h:171-211 | adds exactly one edge to the multiset of one node, on every one of the three paths |
| `DynamicGraphs.DynamicGraph.SetEdgeData` | DataStructures/DynamicGraph.h:143-143 | replaces the data of one edge and nothing else |
| `DynamicGraphs.DynamicGraph.SetTarget` | DataStructures/DynamicGraph.h:141-141 | replaces the target of one edge and nothing else |
| `DynamicGraphs.DynamicGraph.DeleteEdge` | DataStructures/DynamicGraph.h:214-225 | drops one edge by moving the last one over it; the slot just past the range may be named too, then the last edge goes |
| `DynamicGraphs.DynamicGraph.DeleteEdgesTo` | DataStructures/DynamicGraph.h:228-248 | removes all edges to the target, counts them exactly, marks the freed slots dummy, keeps every other edge with its multiplicity |
| `Contraction.NewWalkIsOldWalk` | Contractor/Contractor.h:483-505 | every walk after a round was possible before it at no more cost |
| `Contraction.OldWalkIsNewWalk` | Contractor/Contractor.h:450-505 | every walk between remaining nodes survives a round at no more cost, although its witnesses may run through nodes contracted in the same round |
| `Contraction.RoundPreservesDistances` | Contractor/Contractor.h:450-505 | a whole round leaves every shortest distance between remaining nodes unchanged |
| `Contraction.RoundKeepsFrontier` | Contractor/Contractor.h:483-505 | after a round the records between remaining nodes are again mirrored at both ends with equal least weight, positive and without loops |
| `Hierarchies.RunStarts` | Contractor/Contractor.h:288-340 | the original graph is a hierarchy in which nothing is contracted yet |
| `Hierarchies.RoundKeepsHierarchy` | Contractor/Contractor.h:429-549 | every round keeps it: distances of the original graph, arcs that are real connections, records leading upward, and shortcuts whose halves lie below both ends |
| `Hierarchies.RoundKeepsUnpackable` | Contractor/Contractor.h:776-789 | each shortcut still names a middle node contracted before both its ends, which records both halves |
| `Hierarchies.HierarchySearchable` | RoutingAlgorithms/BasicRoutingInterface.h:61-146 | any two connected nodes of a hierarchy have upward walks that meet at no more than their distance, at every point of a run |
| `WitnessSearches.RelaxDetours` | Contractor/Contractor.h:646-672 | follows all forward records but those into the middle node: afterwards none of them can improve a label, and settled labels are untouched |
| `WitnessSearches.DetourLabelled` | Contractor/Contractor.h:621-673 | along every detour the labels stay within its cost, up to the least label not yet expanded |
| `WitnessSearches.StopIsDecisive` | Contractor/Contractor.h:631-644 | where the search runs dry, passes the distance limit or has found all targets, the targets' labels are least |
| `WitnessSearches.Dijkstra` | Contractor/Contractor.h:610-674 | wherever it stops, each finite label is the cost of a walk around the middle node; it settles at most one node more than the cap, and unless that stops it the labels of the targets are the least such costs up to the distance limit |
| `WitnessSearches.SeedTargets` | Contractor/Contractor.h:725-745 | source at zero, each distinct target once at infinity and counted once, and a limit no pair of arcs exceeds |
| `WitnessSearches.AddShortcuts` | Contractor/Contractor.h:755-791 | every pair of arcs gets a shortcut or has a witness; with least labels none gets a shortcut that has one |
| `WitnessSearches.ContractNode` | Contractor/Contractor.h:702-830 | its shortcuts are backed by two arcs of the node, inserted at both ends, all different, and cover every pair of arcs without witness; none has a witness if the node cap cannot stop a search |
| `WitnessSearches.MergeDuplicates` | Contractor/Contractor.h:793-828 | merging neither adds nor loses an arc, and no two entries left agree in ends and weight |
| `WitnessSearches.OneMoreNode` | Contractor/Contractor.h:450-461 | shortcuts of nodes contracted against the same frozen graph can be collected in any order |
| `ContractRounds.DeleteIncomingEdges` | Contractor/Contractor.h:832-854 | cuts the contracted node out of the lists of its neighbours and changes nothing else |
| `ContractRounds.DeleteTasksDisjoint` | Contractor/Contractor.h:471-481 | two contracted nodes of a round never have a neighbour in common, so parallel deletions touch different lists |
| `ContractRounds.DeletePhase` | Contractor/Contractor.h:471-481 | in any order, all records into contracted nodes are gone and all others are kept |
| `ContractRounds.InsertShortcut` | Contractor/Contractor.h:483-505 | if the first record to the target is a longer shortcut with the same directions it is overwritten in place; in every other case exactly one record is added; nothing else changes |
| `ContractRounds.InsertPhase` | Contractor/Contractor.h:483-505 | after all insertions every record due is present or replaced by one that is no worse; new shortcuts do not make a list hold a record twice |
| `ContractRounds.ContractNodes` | Contractor/Contractor.h:450-470 | in any order, the witness searches on the frozen graph yield sound and complete shortcuts for all contracted nodes, and none that has a witness if there are at most 2000 nodes |
| `ContractRounds.ContractRound` | Contractor/Contractor.h:450-505 | the three phases on the dynamic graph together are one round in the sense of the distance theorem; they leave no record twice if the shortcuts are new, and in a graph of at most 2000 nodes no shortcut has a witness |
| `Independence.OneYields` | Contractor/Contractor.h:887-964 | of two different nodes one always yields to the other |
| `Independence.Waits` | Contractor/Contractor.h:903-916 | the comparison with absolute value, epsilon and bias says exactly that the other priority is lower, or within 2^-23 while the other hash, or at equal hashes the other number, is greater |
| `Independence.IsNodeIndependent` | Contractor/Contractor.h:887-949 | true exactly if no node within two hops makes the node yield |
| `Independence.TieHoldsBack` | Contractor/Contractor.h:951-964 | of two near nodes with equal priorities the one with the smaller hash, or at equal hashes the smaller number, is not chosen |
| `Independence.ChosenAreIndependent` | Contractor/Contractor.h:429-448 | with mirrored records no two nodes chosen in a round are within two hops |
| `Independence.WinnerIsChosen` | Contractor/Contractor.h:887-964 | a lowest node that wins its ties is chosen on every graph |
| `Independence.GreatestIsChosen` | Contractor/Contractor.h:951-964 | a lowest node is chosen if its hash and number are the greatest among all within epsilon |
| `Independence.SomeoneIsChosen` | Contractor/Contractor.h:887-964 | if the lowest priority stands out by the epsilon, a node is chosen on every graph |
| `Independence.NobodyMayBeChosen` | Contractor/Contractor.h:887-949 | for a given hash: if every lowest node loses a tie, there is a graph on which no node is chosen |
| `Independence.ProgressWithHash` | Contractor/Contractor.h:429-448 | with a given hash a round is certain to make progress exactly if a lowest node wins its ties |
| `Independence.ProgressExactly` | Contractor/Contractor.h:429-448 | with every hash it is certain exactly if the lowest priority stands out by the epsilon |
| `ContractorInput.Double` | Contractor/Contractor.h:163-189 | each road becomes one record at each end with its weight or at least one, driven from the target the other way round |
| `ContractorInput.ScanRun` | Contractor/Contractor.h:216-232 | the least weight of a run of parallel records, per direction |
| `ContractorInput.Merge` | Contractor/Contractor.h:194-253 | per pair of nodes exactly the least weight of each direction survives, once, loops are dropped, and the list stays sorted |
| `ContractorInput.MergedArc` | Contractor/Contractor.h:233-252 | an arc after merging is the cheapest of the given roads in that direction |
| `ContractorInput.BuildGraph` | Contractor/Contractor.h:158-257 | the graph of the roads: mirrored, positive, loop-free, without shortcuts, holding exactly the cheapest arcs and no record twice |
| `ContractorInput.MergingKeepsDistances` | Contractor/Contractor.h:194-253 | a route over the given roads whose weights add up to a cost exists exactly if a walk of at most that cost in the graph does |
| `Renumbering.RoundLifts` | Contractor/Contractor.h:339-427 | a round on the renumbered graph is the same round in original numbers |
| `Flushing.NumberRemaining` | Contractor/Contractor.h:358-370 | the new numbers are the positions among the remaining nodes |
| `Flushing.Relabel` | Contractor/Contractor.h:384-400 | records of a remaining node move to new numbers and name their middle node in original numbers |
| `Flushing.Flush` | Contractor/Contractor.h:341-427 | remaining nodes keep their records up to numbering, contracted nodes' records are exported unchanged, each exactly once |
| `Flushing.GetEdges` | Contractor/Contractor.h:554-607 | every edge exactly once, ends and middle node in original numbers, whether made before or after the flush |
| `Contractors.FrontierDescends` | Contractor/Contractor.h:384-400 | remaining nodes never point at contracted ones, also in the new numbers, so renumbering is total |
| `Contractors.RoundKeepsState` | Contractor/Contractor.h:429-549 | a round on the contractor's current graph extends the hierarchy in original numbers |
| `Contractors.ShortcutsAreNew` | Contractor/Contractor.h:483-505 | the shortcuts of a round name nodes that were still there, so none of them is in the graph already |
| `Contractors.FlushKeepsState` | Contractor/Contractor.h:341-427 | the flush changes the numbers and nothing else |
| `Contractors.FlushOnce` | Contractor/Contractor.h:341-427 | the flush neither repeats a record in the new lists nor in the external one |
| `Contractors.Partition` | Contractor/Contractor.h:444-448 | splits the remaining nodes into exactly the chosen ones and the others |
| `Contractors.Contractor.constructor` | Contractor/Contractor.h:158-257 | the state before the first round, over the graph of the given roads |
| `Contractors.Contractor.FlushNodes` | Contractor/Contractor.h:341-427 | keeps the hierarchy built so far |
| `Contractors.Contractor.FlushIfDue` | Contractor/Contractor.h:339-343 | flushes once, exactly if more than 65 in a hundred nodes are contracted |
| `Contractors.Contractor.ContractOnce` | Contractor/Contractor.h:429-505 | takes exactly the chosen nodes off the list and extends the hierarchy, or nothing can be done |
| `Contractors.Contractor.Run` | Contractor/Contractor.h:288-549 | whatever the priorities are, the result is a hierarchy of the original graph; it is complete unless a round could not choose anybody or two weights could not be added, and if different priorities of a round always differ by the epsilon, only such weights can stop it; the flush happens exactly if a round starts with more than 65 in a hundred nodes contracted, and two nodes are left alone |
| `Contractors.StuckOnlyIf` | Contractor/Contractor.h:429-448 | with priorities that stand out, only an arc in and an arc out of a remaining node whose weights do not fit the weight type when added keep a round from making progress |
| `Contractors.StuckInState` | Contractor/Contractor.h:429-448 | the same in every state of a run, where different priorities of a round are at least the epsilon apart |
| `Searches.StallAtNode` | RoutingAlgorithms/ManyToManyRouting.h:239-262 | true exactly if a labelled neighbour reaches the node more cheaply than its label |
| `Searches.StallBeats` | RoutingAlgorithms/BasicRoutingInterface.h:97-117 | a stalled label is not the distance of its node |
| `Searches.RelaxOutgoingEdges` | RoutingAlgorithms/ManyToManyRouting.h:206-236 | afterwards no record of the node can improve a label; parents and order of labels are kept |
| `Searches.Expand` | RoutingAlgorithms/BasicRoutingInterface.h:97-146 | the popped node is accounted for, stalled or not, and a stalled one changes no label |
| `Searches.Followed` | RoutingAlgorithms/BasicRoutingInterface.h:61-146 | a walk that no real connection beats is searched to its end in spite of stalling and cutting off |
| `Routing.RoutingStep` | RoutingAlgorithms/BasicRoutingInterface.h:61-146 | keeps the search invariant; the bound only falls, to the cost of a real meeting; no settled meeting is cheaper than the bound; a queue with nothing below the bound is thrown away without relaxing |
| `Routing.NothingShorter` | RoutingAlgorithms/BasicRoutingInterface.h:90-95 | when both queues are empty no connection in the original graph is cheaper than the bound |
| `Routing.Route` | RoutingAlgorithms/ShortestPathRouting.h:151-163 | the bound is the original distance between the sources and the targets, or the largest weight exactly if there is none below it |
| `Routing.RetrievePackedPathFromSingleHeap` | RoutingAlgorithms/BasicRoutingInterface.h:400-410 | the parent pointers end, and the loop reads exactly their chain |
| `Routing.RetrievePackedPathFromHeap` | RoutingAlgorithms/BasicRoutingInterface.h:389-398 | the chains of both heaps form a path from a source to a target of exactly the cost of the meeting |
| `Unpacking.EitherEnd` | RoutingAlgorithms/BasicRoutingInterface.h:344-369 | where both ends record an arc they agree on the least weight, so looking at the first end only is safe |
| `Unpacking.LightestRecord` | RoutingAlgorithms/BasicRoutingInterface.h:344-355 | the lightest record towards the target in that direction; none exactly if there is none |
| `Unpacking.FindRecord` | RoutingAlgorithms/BasicRoutingInterface.h:344-370 | every arc has a record at one of its ends that is no heavier |
| `Unpacking.RecordSplits` | RoutingAlgorithms/BasicRoutingInterface.h:372-384 | a shortcut splits into two lighter recorded arcs over a node below both ends; any other record is an original arc |
| `Unpacking.UnpackPath` | RoutingAlgorithms/BasicRoutingInterface.h:148-229 | ends, and yields a path of original edges from start to end that is no heavier |
| `Unpacking.UnpackEdge` | RoutingAlgorithms/BasicRoutingInterface.h:333-387 | the same for one arc, and exactly its weight if the arc is a shortest connection |
| `Unpacking.ShortestPath` | RoutingAlgorithms/ShortestPathRouting.h:151-163 | a whole query between sets of nodes: the least distance and an original path of exactly that cost from a source to a target, or no path below the largest weight |
| `ManyToMany.BackwardRoutingStep` | RoutingAlgorithms/ManyToManyRouting.h:188-204 | the shared store holds exactly the settled labels of every target so far |
| `ManyToMany.SearchTarget` | RoutingAlgorithms/ManyToManyRouting.h:83-110 | afterwards the store holds the labels of one more finished backward search |
| `ManyToMany.ScanBuckets` | RoutingAlgorithms/ManyToManyRouting.h:164-179 | entries of one row fall to the least sum with a stored label, others stay |
| `ManyToMany.ForwardRoutingStep` | RoutingAlgorithms/ManyToManyRouting.h:150-186 | each entry of the row is at most every meeting settled so far and is attained by one |
| `ManyToMany.SearchSource` | RoutingAlgorithms/ManyToManyRouting.h:114-145 | one forward search makes its row exact and leaves the others |
| `ManyToMany.FillRow` | RoutingAlgorithms/ManyToManyRouting.h:112-145 | one more row is exact, the rows before stay so and the rows after stay empty |
| `ManyToMany.DistanceTable` | RoutingAlgorithms/ManyToManyRouting.h:67-148 | every entry is the least original distance between the node sets of the two locations, or the largest weight exactly if there is none below it |
| `Preprocessing.EdgesAreHierarchy` | Contractor/Contractor.h:554-607 | the emitted edge list holds exactly the records of the hierarchy |
| `Preprocessing.EdgesOnce` | Contractor/Contractor.h:554-607 | the edge list of a whole run holds no record twice, whether it was made before or after the flush |
| `Preprocessing.Prepare` | Contractor/Contractor.h:158-607 | roads become a query graph whose distances are those of the roads, complete or not, with every record of the hierarchy exactly once |
| `Preprocessing.PathIsDriven` | RoutingAlgorithms/BasicRoutingInterface.h:163-336 | an original path is driven along given roads, one for each step, whose weights add up to its cost |
| `Preprocessing.PrepareAndRoute` | RoutingAlgorithms/ShortestPathRouting.h:151-163 | preprocessing and a query between sets of nodes together find the least sum of road weights over all routes, and a path driven over roads of exactly that sum, or there is no route below the largest weight |
| `Preprocessing.PrepareAndTabulate` | RoutingAlgorithms/ManyToManyRouting.h:67-148 | preprocessing and a table query together: every entry is the least sum of road weights over all routes between the two locations, or the largest weight if there is no route below it |
| `TarjanComponents.Visit` | Algorithms/StronglyConnectedComponents.h:261-292 | visiting the node of the topmost frame keeps the invariant of path, stack, low-links and pending frames |
| `TarjanComponents.Skip` | Algorithms/StronglyConnectedComponents.h:256-259 | dropping a stale frame without touching a low-link keeps it |
| `TarjanComponents.FinishInner` | Algorithms/StronglyConnectedComponents.h:293-299 | a node that reaches an older one hands its low-link to its parent and stays on the stack |
| `TarjanComponents.FinishRoot` | Algorithms/StronglyConnectedComponents.h:300-323 | a node whose low-link is its index closes exactly its component |
| `TarjanComponents.ScanEdges` | Algorithms/StronglyConnectedComponents.h:274-291 | unvisited targets get frames in order, and the low-link becomes the least index on the stack that an edge leads to |
| `TarjanComponents.PopComponent` | Algorithms/StronglyConnectedComponents.h:303-322 | takes the stack down to the node into a component of exactly that size |
| `TarjanComponents.Explore` | Algorithms/StronglyConnectedComponents.h:249-325 | ends, and finishes everything reachable from its start |
| `TarjanComponents.Run` | Algorithms/StronglyConnectedComponents.h:231-326 | two nodes get the same component exactly if each reaches the other, and every recorded size is the number of its nodes |
| `GeometryStores.GeometryCompressor.constructor` | Contractor/GeometryCompressor.cpp:38-45 | the indices handed out are those of the own buckets exactly if the shared counter was zero |
| `GeometryStores.GeometryCompressor.IncreaseFreeList` | Contractor/GeometryCompressor.cpp:47-55 | new buckets with their own indices; no index is free twice or free and used |
| `GeometryStores.GeometryCompressor.HasEntryForID` | Contractor/GeometryCompressor.cpp:57-61 | true exactly if the edge has geometry |
| `GeometryStores.GeometryCompressor.GetBucketReference` | Contractor/GeometryCompressor.cpp:222-227 | the bucket found over the index map is the geometry of the edge |
| `GeometryStores.GeometryCompressor.OpenBucket` | Contractor/GeometryCompressor.cpp:136-162 | the edge has a bucket that is not empty; other edges' geometry is kept and no bucket is lost |
| `GeometryStores.GeometryCompressor.MoveBucket` | Contractor/GeometryCompressor.cpp:167-188 | the second edge's geometry follows the first one's, and its emptied bucket is free again |
| `GeometryStores.GeometryCompressor.CompressEdge` | Contractor/GeometryCompressor.cpp:114-194 | the geometry of the first edge continues with that of the second; all others are kept; used and free buckets stay a partition |
| `GeometryCompression.MirrorsJoin` | Contractor/EdgeBasedGraphFactory.cpp:397-413 | joining two mirrored streets gives mirrored streets |
| `GeometryCompression.RewiredStreets` | Contractor/EdgeBasedGraphFactory.cpp:371-388 | the graph stays simple, and every edge keeps its opposite |
| `GeometryCompression.JoinedDescribed` | Contractor/EdgeBasedGraphFactory.cpp:113-199 | forward and reverse buckets stay mirror images of one node chain and weigh no more than their edges |
| `GeometryCompression.LostPenalties` | Contractor/EdgeBasedGraphFactory.cpp:368-413 | what the geometry of a merged edge falls short of its weight: what was missing before, and the penalty where the edge that should carry it was compressed before |
| `GeometryCompression.ExactAfter` | Contractor/EdgeBasedGraphFactory.cpp:368-413 | after a removal the geometry is exact exactly if it was before and there is no penalty or the edge into the light carried no geometry |
| `GeometryCompression.EdgesAround` | Contractor/EdgeBasedGraphFactory.cpp:317-340 | finds the four edges around a node of degree two, the drivable one forward |
| `GeometryCompression.FindChain` | Contractor/EdgeBasedGraphFactory.cpp:299-353 | decides exactly whether the node may be removed |
| `GeometryCompression.RemovalExactly` | DataStructures/NodeBasedGraph.h:40-45 | at a node of degree two that is not blocked, edges are merged exactly if name, mode, directions and grid flag agree on both sides |
| `GeometryCompression.NotRemovable` | Contractor/EdgeBasedGraphFactory.cpp:317-349 | there is only one way to remove a node, so one obstacle rules it out |
| `GeometryCompression.AfterRemoval` | Contractor/EdgeBasedGraphFactory.cpp:317-414 | whichever way a removal is found, its result is the same |
| `GeometryCompression.AfterSound` | Contractor/EdgeBasedGraphFactory.cpp:299-418 | each turn keeps the graph well formed, simple and symmetric and the geometry mirrored, and exact exactly if no penalty is lost |
| `GeometryCompression.Rewire` | Contractor/EdgeBasedGraphFactory.cpp:371-388 | slot by slot: two edges lead on with added weights and keep their flags, the two of the node are gone, all other slots and nodes are kept |
| `GeometryCompression.DeleteBoth` | Contractor/EdgeBasedGraphFactory.cpp:386-388 | both edges go although the first deletion may have moved the second, and no other slot changes |
| `GeometryCompression.CompressNode` | Contractor/EdgeBasedGraphFactory.cpp:299-418 | the new graph and geometry are determined by the old ones: the node is removed exactly if it may be, and nothing else changes; exact geometry stays exact exactly if no penalty is lost |
| `StreetMeanings.StandsJoined` | Contractor/EdgeBasedGraphFactory.cpp:368-413 | two chains of alike edges that meet in a node make one, whose weight is theirs and that of the light there |
| `StreetMeanings.MeansAfter` | Contractor/EdgeBasedGraphFactory.cpp:368-413 | after a removal every edge still stands for a chain of original edges |
| `GeometryRuns.RunRemains` | Contractor/EdgeBasedGraphFactory.cpp:295-418 | in every state of the run, an edge that is left has its original flags, and it carries geometry exactly if its original target is gone |
| `GeometryRuns.LosesAfter` | Contractor/EdgeBasedGraphFactory.cpp:317-322 | a light loses its penalty exactly if it is removed and the node its way in came from at the start is gone |
| `GeometryRuns.LostExactly` | Contractor/EdgeBasedGraphFactory.cpp:285-419 | the geometry of a run is exact exactly if no light is removed after the node its way in came from |
| `GeometryRuns.RunMeans` | Contractor/EdgeBasedGraphFactory.cpp:285-419 | in every state of the run an edge passes only original edges of its own name, mode and directions, and weighs what they and the lights between them weigh |
| `GeometryRuns.CompressGeometry` | Contractor/EdgeBasedGraphFactory.cpp:285-419 | ends in the one state that the input determines; every edge left passes only original edges of its own name and kind and weighs what they and the lights between them do; the geometry is exact exactly if no emptied light comes after an emptied node that its way in came from, so always if those nodes have larger numbers |
| `LostPenalty.LightIsLost` | Contractor/EdgeBasedGraphFactory.cpp:285-419 | on a street of four nodes, with any penalty, the run ends with geometry that falls short of the weights |
| `LostPenalty.CompressStreet` | Contractor/EdgeBasedGraphFactory.cpp:285-419 | so does the program on the graph of that street |
| `KDTrees.BoxBelow` | DataStructures/StaticKDTree.h:78-91 | the point of the box that is nearest in each dimension is no farther than any point inside it |
| `KDTrees.EuclidianMetric` | DataStructures/StaticKDTree.h:67-76 | the loop adds up the squared differences |
| `KDTrees.BoxMetric` | DataStructures/StaticKDTree.h:78-91 | the distance to the box: no point of it is nearer, and one is that near |
| `KDTrees.NthElement` | DataStructures/StaticKDTree.h:140-142 | any arrangement of the range with the middle element in place, smaller ones before and larger ones after |
| `KDTrees.Organise` | DataStructures/StaticKDTree.h:130-145 | a permutation of the points in which every range that is searched is split at its middle |
| `KDTrees.StaticKDTree.constructor` | DataStructures/StaticKDTree.h:113-146 | the same points, arranged for the search, inside the box |
| `KDTrees.PrunedRange` | DataStructures/StaticKDTree.h:162-163 | a skipped range holds nothing nearer |
| `KDTrees.SearchMiddle` | DataStructures/StaticKDTree.h:180-208 | whatever could still be nearer is in one of the two halves, in either order |
| `KDTrees.StaticKDTree.NearestNeighbor` | DataStructures/StaticKDTree.h:150-211 | agrees with a linear scan in any dimension: a found point has the least distance, and none found means all are at or beyond the bound |
| `KDTrees.NearestInPlane` | DataStructures/StaticKDTree.h:150-211 | in the plane: the found point has the least sum of the two squared differences |
| `RTrees.InitializeMBRectangle` | DataStructures/StaticRTree.h:80-104 | the least rectangle around the end points of the segments |
| `RTrees.PackLeaves` | DataStructures/StaticRTree.h:391-424 | the leaves cut the order into consecutive full pieces, one node each |
| `RTrees.FillParent` | DataStructures/StaticRTree.h:436-456 | the parent links to consecutive stored nodes, and its rectangle is the least over theirs |
| `RTrees.ParentLeast` | DataStructures/StaticRTree.h:449-451 | a rectangle least over the children's is least around all segments below |
| `RTrees.LeastOfAll` | DataStructures/StaticRTree.h:80-104 | around segments with 32-bit coordinates no rectangle at all is smaller |
| `RTrees.PackLevel` | DataStructures/StaticRTree.h:430-461 | one level becomes a smaller one, and each stored node has exactly one link to it |
| `RTrees.ReverseAndRenumber` | DataStructures/StaticRTree.h:466-483 | nodes in reverse order with their links renumbered and leaf numbers kept |
| `RTrees.ReversedIsRTree` | DataStructures/StaticRTree.h:466-483 | after reversing, node 0 is the root, links lead to later nodes, and every other node has exactly one parent |
| `RTrees.BuildRTree` | DataStructures/StaticRTree.h:389-483 | for every non-empty order the nodes form such a tree and each rectangle is the least around the segments below it; if the order lists every segment once, each is in exactly one place of exactly one leaf |
| `RTrees.LeafOfSegment` | DataStructures/StaticRTree.h:391-424 | a segment listed once is stored at one place of one leaf only |
| `HilbertRTrees.SortByCode` | DataStructures/StaticRTree.h:388-388 | every segment once, in the order of the codes |
| `HilbertRTrees.BuildHilbertRTree` | DataStructures/StaticRTree.h:338-483 | the whole construction: a tree over all segments, each in exactly one leaf, with the leaves along the curve through the projected midpoints, which are rounded toward zero |
| `RTreeQueries.BelowInside` | DataStructures/StaticRTree.h:80-116 | each rectangle contains the end points of all segments below it |
| `RTreeQueries.Advance` | DataStructures/StaticRTree.h:675-761 | one step opens a node, drops a candidate that is too far, or reaches the next nearest segment; none is lost |
| `RTreeQueries.Note` | DataStructures/StaticRTree.h:765-827 | a segment of a large or of a tiny component is kept if it is near enough and its kind is not full; the bound stays infinite until enough large results are found |
| `RTreeQueries.IncrementalFind` | DataStructures/StaticRTree.h:647-858 | segments are looked at in nondecreasing distance with none nearer left out, until enough large ones are found or the cap is reached; among the results of either kind are the nearest ones, as many as requested or all there are; something is found exactly if something is near enough, unless the cap stops the search |
| `RTreeQueries.NothingNearerLeftOut` | DataStructures/StaticRTree.h:765-831 | no segment left out is nearer than a result of the same kind, large or tiny, and one that was seen had to yield to the requested number |
| `RTreeQueries.ResultsAreNearest` | DataStructures/StaticRTree.h:765-831 | collecting segments in the order of their distance yields what a linear scan for the nearest ones of each kind does |
| `RTreeQueries.SomethingFound` | DataStructures/StaticRTree.h:856-857 | a search that the cap does not stop finds something exactly if there is something near enough, of whichever kind |
| `HilbertCodes.StepTwice` | DataStructures/HilbertValue.cpp:66-80 | each transpose step undoes itself |
| `HilbertCodes.RedoUndo` | DataStructures/HilbertValue.cpp:63-81 | the first loop can be undone |
| `HilbertCodes.UndoRedo` | DataStructures/HilbertValue.cpp:63-81 | and reaches every pair of words |
| `HilbertCodes.UnGrayGray` | DataStructures/HilbertValue.cpp:81-99 | the Gray steps can be undone |
| `HilbertCodes.GrayUnGray` | DataStructures/HilbertValue.cpp:82-99 | and reach every pair of words |
| `HilbertCodes.AlternateInterleaved` | DataStructures/HilbertValue.cpp:42-56 | interleaving loses no bit of either word |
| `HilbertCodes.DecodeCode` | DataStructures/HilbertValue.cpp:38-39 | different locations have different codes |
| `HilbertCodes.CodeDecode` | DataStructures/HilbertValue.cpp:38-39 | every code belongs to a location, so the code is a bijection |
| `HilbertCodes.TransposeCoordinate` | DataStructures/HilbertValue.cpp:58-100 | the loops on 32-bit words compute the invertible transposition |
| `HilbertCodes.Parities` | DataStructures/HilbertValue.cpp:87-95 | inverting all bits below each set bit yields, at each place, the parity of the bits above |
| `HilbertCodes.BitInterleaving` | DataStructures/HilbertValue.cpp:42-56 | shifting bits into the result interleaves the two words, the first one leading |
| `HilbertCodes.HilbertCode` | DataStructures/HilbertValue.cpp:38-39 | the whole computation is the bijection |
| `HilbertQuadrants.UndoWithin` | DataStructures/HilbertValue.cpp:62-80 | the inversions and exchanges for the top bits turn the rest of the location, and nothing else |
| `HilbertQuadrants.GrayWithin` | DataStructures/HilbertValue.cpp:82-99 | the Gray steps number the quadrants and pass on whether the rest is run through backwards |
| `HilbertQuadrants.CodeIsPlace` | DataStructures/HilbertValue.cpp:32-100 | the code is the place of the location on the Hilbert curve as a recursion over quadrants |
| `HilbertCurves.Ends` | DataStructures/HilbertValue.cpp:32-100 | the curve starts in one corner of the square and ends in the next |
| `HilbertCurves.NextIsNeighbour` | DataStructures/HilbertValue.cpp:32-100 | successive places on the curve are one step apart in exactly one coordinate, at every level |
| `HilbertQuadrants.SuccessiveCodes` | DataStructures/HilbertValue.cpp:32-100 | two codes that follow each other decode to locations one step apart in exactly one coordinate |
| `HilbertQuadrants.CoordinateCode` | DataStructures/HilbertValue.cpp:32-40 | with 90 and 180 million added for latitude and longitude in unsigned words, the code is the place of the moved coordinate on the curve |
| `HilbertQuadrants.NextCoordinate` | DataStructures/HilbertValue.cpp:32-40 | on the map, coordinates whose computed codes follow each other are one unit apart in latitude or in longitude |
| `Polylines.UnZigZagZigZag` | Algorithms/PolylineCompressor.cpp:37-44 | the signed encoding can be undone exactly for numbers that survive doubling in 32 bits |
| `Polylines.BackslashOnlyLast` | Algorithms/PolylineCompressor.cpp:53-69 | only the last character of a number can be the doubled one |
| `Polylines.UnescapeEscape` | Algorithms/PolylineCompressor.cpp:57-69 | doubled backslashes can be undone |
| `Polylines.ReadPlain` | Algorithms/PolylineCompressor.cpp:51-70 | base-32 groups are read back, whatever follows |
| `Polylines.SumsDeltas` | Algorithms/PolylineCompressor.cpp:79-90 | running sums undo the differences |
| `Polylines.EncodeNumber` | Algorithms/PolylineCompressor.cpp:51-70 | appends exactly the escaped groups of the number |
| `Polylines.EncodePrintable` | Algorithms/PolylineCompressor.cpp:51-70 | the output has codes from 63 to 126 only, and code 92 only in pairs |
| `Polylines.EncodeVectorSignedNumber` | Algorithms/PolylineCompressor.cpp:33-49 | encodes every number in order |
| `Polylines.PrintEncodedString` | Algorithms/PolylineCompressor.cpp:72-95 | the output is the encoding of the necessary points only |
| `Polylines.RoundTrip` | Algorithms/PolylineCompressor.cpp:33-95 | decoding returns exactly the necessary points in order exactly if every difference fits |
| `Polylines.MapSurvives` | Algorithms/PolylineCompressor.cpp:33-49 | points on the map always survive the round trip |
| `Polylines.FarNorthIsLost` | Algorithms/PolylineCompressor.cpp:37-44 | a latitude just outside that range does not survive the round trip |
| `RangeTables.BytesAddUp` | DataStructures/RangeTable.h:182-194 | bytes read from a block add up to the true sum exactly if no length was cut |
| `RangeTables.RangeTable.constructor` | DataStructures/RangeTable.h:58-134 | offsets and blocks represent the lengths across block boundaries, with a last block for the sentinel even if it holds nothing else |
| `RangeTables.RangeTable.PrefixSumAtIndex` | DataStructures/RangeTable.h:182-194 | the sum of the block up to and including the index |
| `RangeTables.RangeTable.GetRange` | DataStructures/RangeTable.h:136-170 | the range plain prefix sums give, exactly if the stored lengths of its block up to it fit a byte |
| `RangeTables.LongLengthIsCut` | DataStructures/RangeTable.h:86-90 | a single length of 256 is looked up wrongly, whatever the block size |
| `DouglasPeuckers.FarthestIsFarthest` | Algorithms/DouglasPeucker.cpp:154-172 | the sweep finds the farthest point of the range, or all are within the threshold |
| `DouglasPeuckers.RefineJustified` | Algorithms/DouglasPeucker.cpp:171-184 | each point kept exceeded the threshold and was farthest between two other kept points |
| `DouglasPeuckers.SplitStaysPending` | Algorithms/DouglasPeucker.cpp:143-185 | splitting the topmost range leaves the final set of points the same and takes less work to finish |
| `DouglasPeuckers.FindFarthest` | Algorithms/DouglasPeucker.cpp:154-169 | computes the farthest point, and exceeds the threshold exactly if there is one |
| `DouglasPeuckers.DouglasPeucker.Sweep` | Algorithms/DouglasPeucker.cpp:122-140 | lists exactly the gaps between necessary points, in order |
| `DouglasPeuckers.DouglasPeucker.Run` | Algorithms/DouglasPeucker.cpp:109-186 | keeps exactly the preselected points, both ends and what the recursion keeps between them; every dropped point is within the threshold of its zoom level, from 512440 down to 4, of the kept points around it |

## Left out

- Independence.IsNodeIndependent: priorities are real numbers; float rounding of the program's priorities is not modelled.
- Contractors.Contractor.Run: stops where the sum of an arc in and an arc out of a chosen node would leave the weight type, where the program overflows, and where a round chooses nobody, where the program does not end; the 65% threshold is over real numbers.
- WitnessSearches.ContractNode: requires those sums to fit the weight type, where the program overflows.
- RangeTables.RangeTable.GetRange: the debug assertion that the begin lies strictly below the total fails for empty ranges at the end and is not modelled; sums are unbounded integers.
- RTrees.BuildRTree: the order of the segments is a parameter; HilbertRTrees.BuildHilbertRTree supplies the one the program sorts them into.
- HilbertRTrees.BuildHilbertRTree: the Mercator projection of latitudes is any function on integers.
- RTreeQueries.IncrementalFind: distances are any real numbers with the stated lower bound; the phantom nodes built from the segments found are not modelled.
- HilbertQuadrants.CoordinateCode: coordinates are integers already; the float product that scales the offsets is taken as exact.
- Routing.Route: the node ids of the sources are distinct, and those of the targets; the program would insert a repeated id a second time.
- Unpacking.ShortestPath: the same, and offsets within the first and the last edge are zero.
- ManyToMany.DistanceTable: the node ids of one location are distinct; the program would insert a repeated id a second time.
- DouglasPeuckers.DouglasPeucker.Run: the distance is any function; the one the program uses is the distance to the nearer of two points instead of the line between them, so it may keep more points than needed for the threshold.
- KDTrees.StaticKDTree.NearestNeighbor: squared distances are exact integers instead of doubles, and the initial bound is a parameter.
- Unpacking.UnpackPath: street names, travel modes, turn instructions and geometry of the unpacked edges are not modelled.
- Priority heuristics (EvaluateNodePriority, UpdateNodeNeighbours, depths): priorities are arbitrary in every round.
- Phantom-node offsets, which are zero here, and the stitching of legs over via points.
- Alternative routes.
- Which edge id survives when parallel edges are merged, the counts of original edges, and the return value of InsertEdge: distances do not depend on them.
- Bit fields and 32-bit overflow outside the places named above; the hash storage and the deallocating vector are a map and a sequence.
- GeometryCompression.CompressNode: the fix-up of turn restrictions around a removed node is not modelled.
- GeometryRuns.CompressGeometry: turn restrictions appear as the set of their via nodes only, which the fix-ups do not change.
- The rest of the edge-based graph factory.
- LocateClosestEndPointForCoordinate and FindPhantomNodeForCoordinate: they prune with a float metric.
- Floating-point geometry: projections, bearings and the distance functions themselves.
- Extraction from OSM data, profiles, serialization and file formats, shared memory, the server, JSON output and plugins.
