# Verified model of EffectiveNext's algorithmic core

EffectiveNext is a Go toolkit that scans a Next.js project, builds a dependency graph of its files,
caches parse results and schedules build tasks. This project models, in Dafny, the parts of it that
hold real algorithms, and proves what they compute, for every input and every interleaving:

* **The dependency graph and its clients.** A node table, an edge index and a reverse index, kept
  transposed; Kahn's sort with a sorted ready queue; the depth-first cycle search; reverse
  reachability; the diff of two graphs; saving to and loading from two tables; the CSS tracker and
  the incremental engine on top.
* **The scanner's worker pool.** A state machine over all interleavings of the main goroutine and any
  number of workers around a queue of 64 directories with non-blocking sends and receives.
* **The parse cache.** A path map and a heap that share their entries, each entry knowing its heap
  slot, on Go's `container/heap`, with `Get` in three stages that other calls can come between.
* **The two task schedulers.** In-degree countdown over a task table with placeholders, a plain queue
  or a max-heap of ready tasks, and the goroutine and error-channel protocol as a state machine.

`dafny verify dfyconfig.toml` checks everything.

## How it is organised

Each data structure that the source updates in place is a class whose methods run the source's loops
(`Graph`, `CycleSearch`, `Store`, `Css`, `Engine`, `IndexedHeap`, `ParseCache`, `TaskTable`,
`Scheduler`, `PriorityScheduler`, `Scanner`). What the loops keep true is stated as predicates on
values in modules of their own (`CycleInvariants`, `CycleTally`, `CountdownInvariants`, `HeapShape`,
`HeapEntries`, `CacheInvariants`, `DepCount`, `ReadyHeap`). What the operations mean is stated without
reference to how they work: walks and reachability (`Digraph`), the least-first order (`LeastOrder`,
`TopologicalOrders`), least trails (`CycleTrails`), which entry a sift leaves in which slot (`HeapPaths`),
launch orders and the least closed set of tasks (`TaskGraph`) and which of several ready tasks goes
first (`LaunchQueue`, `LaunchHeap`, `LaunchTrace`), the cache as a map of counts (`CacheModel`), change lists
(`Changes`), tables (`StoreTables`), directory trees (`ScanTree`). The cycle search as a function of the
order of the nodes is `CycleSweep`; `CycleSpelling` and `CycleReading` prove that it reports what can be
read off the least trails, and `CycleUnique` that nothing else can. The protocols are
`LaunchProtocol`; `CacheActions` and `CacheStages` (what a stage does), which `CacheInterleaving` carries
out on the cache, with `CacheRuns` and `CacheLists` (what every `Get` returns), `CachePanics` and
`CacheTies` (which of several untouched paths is evicted); and `ScanPool` with `ScanPoolSteps` (the
invariant), `ScanPoolTheorems` (what is listed), `ScanOrder` (in which order), `ScanPoolProgress` (termination),
`ScanFrontier`, `ScanOverflow`, `ScanSchedules`, `ScanTakes`, `ScanDrops`, `ScanCrowding`, `ScanLoss` (when
directories are dropped) and `ScanLostFiles`. The theorems across operations are in
`GraphTheorems`, `CycleTheorems`, `CssGraph` and at the end of the modules named before.

Wherever Go iterates over a map, the model picks the keys in an arbitrary order, so the results hold
for every order the runtime may choose.

## What the code does differently from what it says

* `TopologicalSort` compares two lengths at its end, so it is reliable only if every edge joins two
  declared nodes. `pkg/cli/build.go:126` adds raw import strings as targets. On other graphs it may
  return an order of the wrong vertices without an error, or report a cycle where there is none.
  `SortIsRightIff` gives the exact condition on every graph, `SourcesDeclaredSortIsRightIff` the one
  for graphs whose edge sources are all nodes, and `UndeclaredTargetHidesCycle` a concrete failure.
* `DetectCycles` says that it finds all cycles. It reports one simple cycle for each edge that leads
  back to the stack: for an edge from u to v, the part from v on of the least simple trail to u from the
  first node that reaches u (`SearchReadsLeastTrails`). If every edge leaves a declared node, it finds
  them all, whatever the order in which it tries the nodes, exactly if no edge lies on two simple cycles
  (`FindsAllIff`). With edges from b to a and c, from a to b and from c to a, and b tried first, it
  misses one of the two cycles (`MissesACycle`).
* The parse cache is called least-recently-used but orders by access count. A path that is not cached
  yet enters with count zero, so storing it in a full cache evicts an entry that was never accessed
  if there is one, and otherwise drops the new entry at once (`NewFileIsDropped`), and a less recently
  used path can stay (`LessRecentlyUsedStays`). Of several such entries the one at the root of the heap
  goes (`RootIsEvicted`), not the oldest. `FullCacheIsFrozen`: once a full cache has no entry
  that was never accessed, `Get` and `Put` never change which paths are cached.
* The parse cache is called thread-safe, but a `Get` whose stages a `Clear` comes between can panic:
  it calls `heap.Fix` on the new heap with its entry's slot in the old one. That leaves the cache as it
  was exactly if the slot is at most 0 or one of the new heap's, and otherwise indexes past the slice
  with the lock held (`Touch`). `ClearBetweenStages` is such an input. A run in which every `Clear`
  finds at most one path cached never panics (`SmallClearsNeverPanic`), and one that has two paths
  cached can go on so that it does (`CanPanic`); so it can happen exactly with a maximum size of two or
  more (`MayPanicIff`).
* The schedulers order launches, not completions: dependents are released right after the goroutine
  of their dependency was started. In every plan a launched task can finish while a task it depends
  on is running (`DependencyMayStillRun`); dependencies are sure to come first exactly if no task that
  could run depends on others, all of which could run and depend on nothing (`DependenciesFirstIff`).
  Tasks on a cycle, with an undeclared dependency or without a function are left out without an error
  (`AllLaunchedIff`).
* The scan blocks forever iff more than 64 directories in the root are not ignored, because the queue
  is filled before any worker exists (`ScanReturnsIff`). It drops directories silently when the queue
  is full: with a given number of workers some interleaving does so exactly if these can take
  directories in an order after which more than 64 are waiting (`GivenWorkersMayDropIff`); for some
  number of workers exactly if a set that can have been taken has a frontier of more than 64
  (`MayDropIff`); with one worker exactly if a breadth-first such set has, and then every interleaving
  does (`OneWorkerMayDropIff`). So with any number of workers one can be dropped as soon as a level
  below the root directories has more than 64 (`WideLevelDrops`). What a scan lists is exact in every
  case (`ListedIff`); the tree decides which files some scan can miss (`MayMissFileIff`), and
  `ScanLosesFile` is a tree where one does.
* A file directly in the root is tested by its bare name, a nested one by its whole path taken as
  directories. `RootFileRuleDiffersIff` says when that matters: for a pattern `name/`.
* `Snapshot` merges into the older snapshot instead of replacing it, so later comparisons keep
  reporting files deleted long ago (`AfterSnapshotOnlyDeletions`). A file listed twice, changed and
  then as before, makes the change list wrong, and only that does (`ChangesReproduceIff`).

## Model

| member | source | states |
|---|---|---|
| Graph.Graph.constructor | pkg/graph/graph.go:66-72 | a new graph is empty and its two edge indexes agree |
| Graph.Graph.AddNode | pkg/graph/graph.go:75-80 | the node is filed under its id, replacing an older one; edges are untouched |
| Graph.Graph.AddEdge | pkg/graph/graph.go:91-103 | the edge is appended last to its buckets in both indexes, they stay exact transposes as multisets, and just this edge occurs once more |
| Graph.Graph.Clear | pkg/graph/graph.go:374-381 | everything is gone and the indexes agree |
| Graph.Graph.InDegrees | pkg/graph/graph.go:168-176 | every node and every edge target gets its number of incoming edges, multi-edges counted, in whatever order the maps are visited |
| Graph.Graph.InitialQueue | pkg/graph/graph.go:178-184 | the vertices of in-degree zero, sorted, each once |
| Order.LeIff | pkg/graph/graph.go:184-196 | the order in which ids are sorted: one is a prefix of the other, or has the smaller character where they first differ |
| Graph.Graph.Release | pkg/graph/graph.go:192-198 | the in-degrees stay those of the vertices not emitted, and the queue stays the sorted list of the ready ones |
| Graph.Graph.TopologicalSort | pkg/graph/graph.go:164-206 | on every graph, closed or not, the result is the least-first order if it has as many entries as there are nodes, an error otherwise |
| Graph.Graph.DetectCycles | pkg/graph/graph.go:209-248 | for some order of the nodes, the report is what can be read off the least trails, in order; so only simple cycles, each closed by its last edge; every closed walk reachable from a node has an arc that closes a reported one; parallel edges close one cycle each or none |
| CycleSearch.Search.Dfs | pkg/graph/graph.go:218-239 | the recursive search computes the function `Visit`, and terminates on the unvisited ids |
| CycleSearch.Search.FollowAll | pkg/graph/graph.go:224-234 | the loop over a vertex's edges computes the function `Follow`, whose reports `CycleReading.SearchReadsLeastTrails` characterises |
| CycleSweep.VisitKeeps | pkg/graph/graph.go:218-239 | `stack` is what is in progress with `path` giving positions; the search returns with the stack as it was and the vertex done; each closing edge has one cycle, and one through the first vertex is closed by an edge into it |
| CycleSweep.ReportGood | pkg/graph/graph.go:228-232 | the stack from the target on, closed by the target, is a simple cycle that the edge closes |
| CycleSearch.SearchFrom | pkg/graph/graph.go:241-247 | trying the nodes in the given order reports exactly what can be read off the least trails, a complete report |
| CycleSweep.SearchReports | pkg/graph/graph.go:213-247 | tried in any order, the nodes give a complete report with one cycle for each closing arc, and every reported cycle through the first node ends in it |
| CycleReading.SearchReadsLeastTrails | pkg/graph/graph.go:213-247 | the report has, for each vertex u that some node reaches and earlier nodes do not, and each edge from u to a vertex v on the least simple trail from that node to u, the part of the trail from v on, closed by v, and nothing else; trails are compared by the places of their edges in the buckets, and the report is in the order of the nodes and these places |
| CycleReading.TriedIsReached | pkg/graph/graph.go:241-246 | after some nodes were tried, exactly what they reach has been visited |
| CycleUnique.ReadingIsSearch | pkg/graph/graph.go:213-247 | a list of cycles can be read off the least trails iff it is the one the search reports |
| CycleUnique.FirstEdgeFirst | pkg/graph/graph.go:224-234 | edges a to b, a to c, b to c, c to a, tried from a: the report is a, b, c, a alone |
| CycleTheorems.FindsAllIff | pkg/graph/graph.go:208-248 | if every edge leaves a declared node: all simple cycles are reported whatever the order of the nodes iff no arc lies on two of them |
| CycleTheorems.OverlapMissesOne | pkg/graph/graph.go:208-248 | of two cycles that share an arc, the search that starts from its target reports at most one |
| CycleTheorems.MissesACycle | pkg/graph/graph.go:208-248 | edges b to a, b to c, a to b, c to a, tried from b: one of the two cycles is missed |
| CycleTheorems.SameCycleIff | pkg/graph/graph.go:228-232 | two simple cycles have the same arcs iff one is the other started elsewhere |
| CycleInvariants.StackSliceIsCycle | pkg/graph/graph.go:228-232 | the slice of a stack of consecutive edges, closed by an edge back into it, is a simple cycle |
| CycleInvariants.SearchDone | pkg/graph/graph.go:241-247 | when nothing is in progress and all nodes are visited, the report breaks every closed walk |
| CycleTally.TallyReport | pkg/graph/graph.go:227-233 | one report is made for each edge back to the stack, counted per pair of ids |
| TopologicalOrders.EmittedExactly | pkg/graph/graph.go:186-199 | the sort emits exactly the vertices all of whose ancestors are candidates and on no cycle, on every graph |
| TopologicalOrders.AllEmittedIff | pkg/graph/graph.go:186-203 | everything is emitted iff no candidate is on a cycle and no edge enters from outside, and only then is the result a topological order |
| TopologicalOrders.LeastFirstIsLeast | pkg/graph/graph.go:178-199 | no topological order of the candidates is lexicographically smaller |
| TopologicalOrders.EmittedInLeastOrder | pkg/graph/graph.go:178-199 | whatever part of the graph is emitted, no topological order of it is lexicographically smaller |
| GraphTheorems.CycleTestsAgree | pkg/graph/graph.go:164-248 | on a closed graph the sort fails iff the search reports a cycle iff some node reaches itself along an edge |
| GraphTheorems.CyclesFoundIff | pkg/graph/graph.go:209-248 | on any graph a cycle is reported iff one can be reached from a node |
| GraphTheorems.SortDetectsCycles | pkg/graph/graph.go:201-203 | on a closed graph the sort fails iff there is a cycle |
| GraphTheorems.SortIsLeastOrder | pkg/graph/graph.go:164-206 | on a closed acyclic graph, multi-edges included, the sort returns the lexicographically least topological order of the nodes |
| GraphTheorems.SortDependsOnArcsOnly | pkg/graph/graph.go:164-206 | edge order, types, flags and multiplicity do not change the result |
| GraphTheorems.EmittedAllButBlocked | pkg/graph/graph.go:186-199 | what the sort leaves out is what lies downstream of a cycle or of a source that is neither node nor target |
| GraphTheorems.SortOfAnyGraph | pkg/graph/graph.go:164-206 | on every graph, closed or not: an error iff there are more or fewer such vertices than nodes, otherwise their least topological order |
| GraphTheorems.SortIsRightIff | pkg/graph/graph.go:162-206 | on every graph: the answer is as documented iff the blocked vertices are exactly the undeclared targets, or there is a cycle and their numbers differ |
| GraphTheorems.SourcesDeclaredSortIsRightIff | pkg/graph/graph.go:162-206 | the same for graphs whose sources are nodes: all targets are nodes, or there is a cycle and the two numbers differ |
| GraphTheorems.AcyclicUndeclaredFails | pkg/graph/graph.go:172-176 | an acyclic graph with an undeclared target is always reported as cyclic |
| GraphTheorems.UndeclaredTargetHidesCycle | pkg/graph/graph.go:201-203 | nodes a and b with edges b to b and a to x: the sort returns a, x without an error |
| Graph.Graph.AffectedNodes | pkg/graph/graph.go:251-278 | sorted and without repeats, exactly the ids that reach the given one along forward edges, on cyclic graphs too |
| Graph.Expand | pkg/graph/graph.go:261-269 | taking one vertex from the queue keeps the search sound and complete and shrinks what is left |
| Digraph.SpreadDone | pkg/graph/graph.go:260-270 | an empty queue means that exactly the ancestors have been found |
| Graph.Graph.Diff | pkg/graph/graph.go:281-330 | the nodes each side lacks, once each, and the edges without a counterpart of the same ends and type, as often as they occur, those of one source together and in their order |
| Graph.HasCounterpart | pkg/graph/graph.go:303-308 | the search stops at the first match and finds one iff there is one |
| GraphTheorems.DiffIsPatch | pkg/graph/graph.go:281-330 | removing what was removed and adding what was added gives the other graph's node ids and edge keys, and removes nothing absent and adds nothing present |
| GraphTheorems.DiffSwaps | pkg/graph/graph.go:281-330 | swapping the graphs swaps added and removed, as multisets |
| Store.Store.Save | pkg/graph/store.go:59-104 | one node row per node with its fields in the columns of their names, one edge row per key with the flag of the first edge with that key |
| Store.Store.Load | pkg/graph/store.go:107-155 | every row becomes a node or an edge with the same columns, whatever the row order, with a transposed reverse index |
| Store.Store.Clear | pkg/graph/store.go:172-178 | both tables are empty |
| Store.InsertBucket | pkg/graph/store.go:95-101 | of edges with equal keys the first is stored, the others are ignored |
| Store.ReadEdges | pkg/graph/store.go:138-149 | the two indexes are rebuilt row by row as exact transposes |
| StoreTables.NodesRoundTrip | pkg/graph/store.go:83-127 | nodes come back equal, the hash through the cast to a signed integer and back |
| StoreTables.EdgesRoundTrip | pkg/graph/store.go:95-149 | edges come back once per source, target and type, with the first flag |
| StoreTables.SavedColumns | pkg/graph/store.go:83-101 | each column of a node row is the node's field of that name, the hash with the same bits; each edge row is the first edge with its source, target and type |
| GraphTheorems.PersistenceKeepsMeaning | pkg/graph/store.go:59-155 | after saving and loading the nodes are equal, reachability and the sort result are those of the graph that was saved, and the same lists of cycles break all its reachable cycles |
| GraphTheorems.SecondSaveSame | pkg/graph/store.go:59-155 | saving a loaded graph writes the same edge table |
| Css.Tracker.constructor | pkg/css/css.go:43-47 | a new tracker tracks nothing |
| Css.Tracker.TrackFile | pkg/css/css.go:50-71 | the path's imports replace what was tracked for it |
| Css.Tracker.GetDependents | pkg/css/css.go:83-94 | exactly the tracked files that import the path, each once |
| Css.Tracker.AffectedFiles | pkg/css/css.go:97-119 | exactly the paths from which the given one is reached along imports, each once |
| Css.TrackerAgreesWithGraph | pkg/css/css.go:83-119 | on a graph with the tracker's imports as arcs, the search without an index and the one with the reverse index list the same files |
| CssGraph.LoadImports | pkg/graph/graph.go:91-103 | adding an edge for each import of each tracked file gives a graph with just those arcs |
| CssGraph.AffectedBothWays | pkg/css/css.go:97-119 | run side by side on a tracker and the graph loaded from it, the two searches list the same files |
| Engine.Engine.constructor | pkg/engine/engine.go:40-46 | a new engine has an empty snapshot and an empty graph |
| Engine.Engine.Snapshot | pkg/engine/engine.go:49-55 | the files are merged into the snapshot, the last entry of a path winning |
| Engine.Engine.ComputeChanges | pkg/engine/engine.go:58-95 | each differing entry has its change, in file order: created if its path is not in the snapshot, else modified with the old and the new hash; then one deletion with the old hash for each snapshot path not listed |
| Changes.KindsOfChange | pkg/engine/engine.go:65-92 | a change is in the list iff it creates a listed path that the snapshot lacks, or gives a listed path the snapshot has its old hash and a different new one, or deletes a snapshot path not listed with its old hash |
| Engine.Engine.AffectedFiles | pkg/engine/engine.go:98-114 | exactly the ids that reach a changed path, each once |
| Engine.Engine.Clear | pkg/engine/engine.go:133-138 | the snapshot and the graph are empty |
| Changes.ChangesReproduceIff | pkg/engine/engine.go:58-95 | applying the changes to the snapshot gives the current files iff no path is listed with a differing hash and last with the old one |
| Changes.DistinctPathsReproduced | pkg/engine/engine.go:58-95 | with distinct paths the changes always give the current files |
| Changes.OneChangePerPath | pkg/engine/engine.go:58-95 | with distinct paths there is at most one change per path |
| Changes.AfterSnapshotOnlyDeletions | pkg/engine/engine.go:49-95 | comparing the files just merged yields exactly the deletions of older paths that are not among them, iff no path is listed with two hashes |
| Changes.RevertedEntryIsLost | pkg/engine/engine.go:65-82 | a path listed as changed and then as before: the changes do not give the current files |
| IndexedHeap.Heap.Swap | pkg/parser/cache.go:202-206 | two entries change places and both record their new slots |
| IndexedHeap.Heap.Up | pkg/parser/cache.go:198-206 | `up` restores the heap from one violation; the heavier entries above move down one, the sifted one takes the last of their slots and the rest stay; it indexes past the slice iff the slot is positive and not below the length |
| IndexedHeap.Heap.Fix | pkg/parser/cache.go:59 | after the entry in one slot changed the heap is restored: along the path of lighter children, the left one on a tie, or of parents, entries move one slot and all others stay; at slot -1 and on an unchanged heap nothing moves; past the slice it panics |
| IndexedHeap.Heap.Push | pkg/parser/cache.go:208-212 | the entry is added under a new reference and rises from the last slot past heavier ones only, the others keep value and key, the root stays unless it is heavier |
| IndexedHeap.Heap.Pop | pkg/parser/cache.go:214-222 | the root leaves with slot -1; the last entry takes its place and is sifted along the lighter children, the left one on a tie, so which of the others ends in which slot is given |
| IndexedHeap.Heap.Remove | pkg/parser/cache.go:119 | the entry of the given slot leaves with slot -1, the last one takes its place and is sifted down or up; which of the others ends in which slot is given |
| IndexedHeap.Heap.Init | pkg/scheduler/steal.go:79 | any slice with correct slots becomes a heap of the same entries, and a heap stays as it is |
| HeapPaths.SiftedDownOnce | pkg/parser/cache.go:198-206 | the slots after sifting down are determined: entries on the path of lighter children, the left one on a tie, move up one, the sifted entry takes the last slot, the rest stay |
| HeapPaths.SiftedUpOnce | pkg/parser/cache.go:198-206 | so are those after sifting up |
| HeapEntries.RootLightest | pkg/parser/cache.go:88-89 | no entry in the heap has a smaller weight than the root |
| ParseCache.ParseCache.constructor | pkg/parser/cache.go:29-40 | an empty cache with a size of at least one, 10000 by default |
| ParseCache.ParseCache.Lookup | pkg/parser/cache.go:44-46 | an entry is found iff the path is cached |
| ParseCache.ParseCache.Touch | pkg/parser/cache.go:55-60 | the second stage of `Get`, whenever the entry was looked up: an access to the path it is still cached under, if any; an entry from before a `Clear` leaves the cache as it was iff its slot is at most 0 or one of the heap's, and panics otherwise |
| ParseCache.ParseCache.Read | pkg/parser/cache.go:62 | the last stage of `Get`, after unlocking: the result that the entry has then |
| ParseCache.ParseCache.Get | pkg/parser/cache.go:43-63 | the cached result, or none, with the entry's count one higher and one hit or miss counted |
| ParseCache.ParseCache.Put | pkg/parser/cache.go:66-98 | the exact effect on what is cached, and which entry ends in which heap slot: a cached path's entry is sifted, a new one is pushed and, if that is too many, the root is popped and its path goes; entries that clients hold are neither lost nor rewritten unless they are the one updated |
| ParseCache.ParseCache.EvictOver | pkg/parser/cache.go:87-97 | the loop evicts one least accessed entry among the old ones and the new one, and keeps all others |
| ParseCache.ParseCache.FindPath | pkg/parser/cache.go:91-96 | the search through the map finds the evicted entry's only path |
| ParseCache.ParseCache.Remove | pkg/parser/cache.go:109-121 | the path is gone, its entry is taken out of its heap slot and the others are sifted accordingly, and the answer says whether it was cached |
| ParseCache.ParseCache.InvalidateOne | pkg/parser/cache.go:174-186 | one path is decided: kept iff its hash is the current one, else dropped from map and heap and counted |
| ParseCache.ParseCache.Invalidate | pkg/parser/cache.go:169-188 | exactly the entries whose hash is the current one stay, the others leave the heap one after the other, and the number removed is returned |
| ParseCache.ParseCache.Clear | pkg/parser/cache.go:124-130 | nothing is cached, and the old entries stay with whoever holds them, with their old slots |
| CacheModel.SizeBounded | pkg/parser/cache.go:88 | over every run of operations the size never exceeds the maximum |
| CacheModel.CachedIsLatestPut | pkg/parser/cache.go:43-188 | over every run, what is cached for a path is what its latest `Put` stored, with no removal, clearing or failed hash check since |
| CacheModel.CountIsUses | pkg/parser/cache.go:43-98 | over every run, a cached path's count is the number of `Get`s and `Put`s of it since the `Put` that entered it |
| CacheModel.PutIsKeptIff | pkg/parser/cache.go:66-98 | a stored path is cached afterwards iff it was before, or there was room, or an entry was never accessed |
| CacheModel.NewFileIsDropped | pkg/parser/cache.go:66-98 | size one: `p` is stored and read, then storing `q` leaves only `p` cached |
| CacheModel.LessRecentlyUsedStays | pkg/parser/cache.go:20-98 | size two: `p` is stored and read, `q` is stored, then storing a third path evicts `q`, though `p` was used less recently |
| CacheTies.RootIsEvicted | pkg/parser/cache.go:66-98 | when a new path is put into a full cache, the one at the root of the heap leaves once the new entry has been pushed |
| CacheTies.LeftOfTheTiedGoes | pkg/parser/cache.go:55-98 | size three: a, b, c are stored, a is read, d is stored: b is evicted and c stays, though both were never accessed |
| CacheModel.FullCacheIsFrozen | pkg/parser/cache.go:66-98 | in a full cache without such an entry, `Get` and `Put` never change which paths are cached |
| CacheInterleaving.Begin | pkg/parser/cache.go:44-53 | the first stage of `Get`: the client remembers the entry iff the path is cached; otherwise its `Get` has returned nothing and a miss is counted |
| CacheInterleaving.Touch | pkg/parser/cache.go:55-60 | the second stage, however late: a hit is counted and the entry accessed, and it panics iff the entry is from before a `Clear` and its slot is past the heap |
| CacheInterleaving.Read | pkg/parser/cache.go:62 | the last stage: the client's `Get` of its path has returned the result that its entry has then |
| CacheInterleaving.Change | pkg/parser/cache.go:66-188 | every other operation is one stage: exactly the effect of that `Put`, `Remove`, `Invalidate` or `Clear` on map, heap, slots and view, and none on what clients hold |
| CacheInterleaving.Act | pkg/parser/cache.go:43-188 | any action is tried: it panics exactly under that condition, and otherwise does what its stage says |
| CacheInterleaving.Interleave | pkg/parser/cache.go:43-188 | any list of stages of any number of clients, `Clear` included, is carried out one by one from the empty cache, up to the first touch that panics, and the cache and all answers are as after the last of them |
| CacheStages.StageKeepsOk | pkg/parser/cache.go:43-188 | every stage keeps map, heap and slots consistent, and entries that clients hold belong to the path they looked up |
| CacheRuns.InterleavingIsModelRun | pkg/parser/cache.go:43-188 | every run of stages is a run of the cache model with the operations of its actions, so its theorems hold of every interleaving |
| CacheRuns.AnswersExplained | pkg/parser/cache.go:43-98 | in every run, each `Get` that returned nothing began when its path was not cached; each other returned a result that its path had at a moment between its first and last stage, and that a `Put` of that path in the run had stored, with nothing in between to end or replace it |
| CacheRuns.HitsAndMisses | pkg/parser/cache.go:49-58 | over every run, misses count the `Get`s that have returned nothing, and hits the others that have returned and those that have touched their entry |
| CachePanics.SmallClearsNeverPanic | pkg/parser/cache.go:55-130 | after a run in which every `Clear` found at most one path cached, no action panics |
| CachePanics.WithoutClearAllIsDone | pkg/parser/cache.go:43-188 | without a `Clear` among them all actions of a list are carried out |
| CachePanics.CanPanic | pkg/parser/cache.go:55-130 | a run that has two paths cached can go on with a lookup and a `Clear` so that the touch panics |
| CachePanics.MayPanicIff | pkg/parser/cache.go:29-130 | some run comes to a panic iff the maximum size is at least two |
| CachePanics.ClearBetweenStages | pkg/parser/cache.go:43-130 | two paths are stored and looked up, the cache is cleared, both lookups go on: six of these seven actions are carried out and the last panics |
| TaskTable.TaskTable.AddTask | pkg/scheduler/scheduler.go:33-43 | the task is declared, nothing else is lost, and only placeholders for its unknown dependencies are new |
| TaskTable.TaskTable.Clear | pkg/scheduler/scheduler.go:124-129 | both maps are empty |
| TaskTable.EdgeList | pkg/scheduler/scheduler.go:62-67 | every dependency of every task is listed as often as the task names it, by task, in any order of tasks |
| TaskTable.InitiallyReady | pkg/scheduler/scheduler.go:73-78 | exactly the tasks with a function and no dependencies, each once, in the order of the map |
| TaskTable.Release | pkg/scheduler/scheduler.go:95-102 | the counts stay those of the dependencies not launched, duplicates included, and exactly the tasks that became ready are freed, each once, in the order of the edge list |
| Scheduler.Run | pkg/scheduler/scheduler.go:46-103 | each launched task is launched once, after all its dependencies, and none that could be launched is left out; first in, first out: a task that is ready before another becomes so is launched before it, and those that become ready at once in one fixed order of the tasks |
| PriorityScheduler.Run | pkg/scheduler/steal.go:43-110 | the same set of tasks, each launch taking one of the highest priority among all that are ready; of several such tasks, the one at the root of a heap from which each launch pops and to which what it made ready is pushed |
| PriorityScheduler.InitialQueue | pkg/scheduler/steal.go:70-79 | the heap starts with exactly the ready tasks, under their priorities, pushed in the order of the map |
| PriorityScheduler.PopHighest | pkg/scheduler/steal.go:84-85 | the task taken is at the root, has the highest priority in the queue and is the only one to leave it; the others are sifted as by `Pop` |
| ReadyHeap.RootIsHighest | pkg/scheduler/steal.go:150-152 | the root of the heap has the highest priority of the waiting tasks |
| TaskGraph.LaunchesLeastClosedSet | pkg/scheduler/scheduler.go:73-103 | what is launched is the least set of declared tasks closed under having a function and all dependencies in the set |
| TaskGraph.SameTasksLaunched | pkg/scheduler/steal.go:71-110 | both schedulers, and any order of the maps, launch the same tasks |
| TaskGraph.AllLaunchedIff | pkg/scheduler/scheduler.go:75-101 | all tasks run iff the dependencies are acyclic, every task is declared and every task has a function |
| LaunchProtocol.NoSendBlocks | pkg/scheduler/scheduler.go:71-93 | in every interleaving the error channel stays within its capacity and no goroutine blocks on it |
| LaunchProtocol.ReturnedOutcome | pkg/scheduler/scheduler.go:105-113 | `Run` returns only after every launched task has finished, with an error iff one failed, and the failed tasks are those marked |
| LaunchProtocol.NeverStuck | pkg/scheduler/scheduler.go:80-113 | until `Run` has returned some step is possible |
| LaunchProtocol.RunsAreShort | pkg/scheduler/scheduler.go:80-113 | every interleaving is finite, with at most three steps per launched task and two more |
| LaunchProtocol.DependencyMayStillRun | pkg/scheduler/scheduler.go:87-102 | in every plan, a launched task can be through with its function while a task it depends on is still running |
| LaunchProtocol.DependenciesFirstIff | pkg/scheduler/scheduler.go:45-103 | tasks are through only after their dependencies, in every interleaving, iff no declared task with a function has dependencies all of which are declared, have a function and depend on nothing |
| ScanTree.IgnoredByWholePath | pkg/scanner/scanner.go:73-75 | below the root, pruning while walking is the same as testing the whole relative path |
| ScanTree.RootFileRuleDiffersIff | pkg/scanner/scanner.go:117-121 | a root file is treated unlike a nested one iff a pattern with a slash names it and none equals it |
| ScanTree.MatchesExactly | pkg/scanner/scanner.go:264-274 | a name is ignored iff it is a pattern, or for a directory a pattern without its trailing slash |
| ScanTree.MatchesPathExactly | pkg/scanner/scanner.go:276-288 | a path is ignored iff one of its parts is a pattern, with or without a trailing slash |
| ScanTree.FilesInExactly | pkg/scanner/scanner.go:69-98 | a walk lists exactly the files of its directory with no ignored part in their path, each once |
| ScanTree.SubDirsExactly | pkg/scanner/scanner.go:69-101 | and returns exactly the subdirectories of that kind, each once |
| ScanTree.RootFilesExactly | pkg/scanner/scanner.go:117-142 | the root's own files not ignored by name, each once |
| ScanTree.RootDirsExactly | pkg/scanner/scanner.go:144-151 | the root's directories not ignored, each once |
| ScanTree.ListedInOrder | pkg/scanner/scanner.go:69-151 | all four lists keep the order in which the directory lists its entries |
| Scanner.NewIgnoreMatcher | pkg/scanner/scanner.go:253-262 | the built-in patterns first, then exactly the new ones, none twice |
| Scanner.MatchesEitherList | pkg/scanner/scanner.go:253-274 | a name is ignored iff the built-in or the configured patterns match it; order and repeats do not matter |
| Scanner.Scanner.constructor | pkg/scanner/scanner.go:48-60 | the workers asked for, or as many as processors if none are, and both lists of patterns |
| Scanner.Scanner.MatchesName | pkg/scanner/scanner.go:264-274 | true iff some pattern equals the name, or for a directory equals it up to a trailing slash |
| Scanner.Scanner.MatchesParts | pkg/scanner/scanner.go:276-288 | true iff some part of the path matches as a directory |
| Scanner.Scanner.WalkDir | pkg/scanner/scanner.go:62-103 | the kept files are appended in order and counted, the kept subdirectories returned; an unreadable directory yields nothing |
| Scanner.Scanner.ScanRoot | pkg/scanner/scanner.go:109-151 | an error iff the root cannot be read, otherwise the file list and directories that the pool starts with |
| ScanPoolSteps.StepKeepsInv | pkg/scanner/scanner.go:153-182 | every step keeps queue, workers, files and counter consistent, and a non-empty queue has someone alive to take from it |
| ScanPoolSteps.ReachableInv | pkg/scanner/scanner.go:153-182 | so they are in every state of every interleaving of any number of workers |
| ScanPoolTheorems.ListedFilesAreExpected | pkg/scanner/scanner.go:106-182 | at every moment no file is listed twice, every listed file passes the ignore rule, and the counter is not ahead of the list |
| ScanOrder.FilesComeInOrder | pkg/scanner/scanner.go:69-182 | in every interleaving the root's own files come first, and files of one directory in the order in which it lists them |
| ScanPoolTheorems.TakenOnce | pkg/scanner/scanner.go:163-168 | no directory is walked twice in any run |
| ScanPoolTheorems.DiscoveredIff | pkg/scanner/scanner.go:168-175 | in the end exactly the live directories with no dropped one above them were discovered |
| ScanPoolTheorems.ListedIff | pkg/scanner/scanner.go:106-190 | when the scan returns, each expected file with no dropped directory above it is listed once, nothing else is, and the counter equals their number |
| ScanPoolTheorems.NothingDropped | pkg/scanner/scanner.go:153-175 | if at most 64 live directories are pairwise unrelated, no interleaving drops a send or blocks the main goroutine |
| ScanPoolTheorems.NarrowScanIsComplete | pkg/scanner/scanner.go:106-190 | on such a tree every interleaving lists exactly the expected files, each once |
| ScanPoolTheorems.SmallScanIsComplete | pkg/scanner/scanner.go:106-190 | in particular with at most 64 live directories |
| ScanPoolProgress.StepMakesProgress | pkg/scanner/scanner.go:153-182 | every step uses up some of the unexplored tree and the live workers |
| ScanPoolProgress.RunsAreShort | pkg/scanner/scanner.go:153-182 | so no interleaving is longer than a bound given by the tree and the number of workers |
| ScanPoolProgress.ScanReturnsIff | pkg/scanner/scanner.go:153-182 | the scan can return iff at most 64 root directories are not ignored, and then no interleaving gets stuck |
| ScanFrontier.RunInOrder | pkg/scanner/scanner.go:153-175 | without an overflow every run takes directories in order and drops nothing |
| ScanFrontier.TakenIsTakeable | pkg/scanner/scanner.go:153-175 | what has been taken is closed under parents, earlier siblings and, with a nested directory, the root directories; with one worker, under all that comes before breadth first |
| ScanFrontier.DropOverflows | pkg/scanner/scanner.go:170-175 | when a send is dropped, the frontier of what has been taken is larger than the queue |
| ScanSchedules.OverflowingOrderDrops | pkg/scanner/scanner.go:157-182 | if the workers can take directories in an order whose frontier is more than 64, some interleaving drops a directory |
| ScanTakes.DropMeansOrder | pkg/scanner/scanner.go:157-182 | up to its first drop, every run has taken directories in such an order: each after its parent and what precedes it, with a worker free whenever the others have to wait |
| ScanDrops.DropCrowdsOut | pkg/scanner/scanner.go:170-175 | whatever was dropped before: when a directory is dropped, a takeable set has a frontier of more than 64 without the directory's later siblings |
| ScanCrowding.CrowdedOutDrops | pkg/scanner/scanner.go:157-182 | if enough workers hold such a set, some interleaving drops just that directory |
| ScanOverflow.BreadthFirstOverflowDrops | pkg/scanner/scanner.go:157-182 | a breadth-first overflow makes some interleaving drop a directory whatever the number of workers |
| ScanLoss.GivenWorkersMayDropIff | pkg/scanner/scanner.go:153-182 | with a given number of workers some interleaving drops a directory iff they can take directories in some order whose frontier is more than 64 |
| ScanLoss.MayDropIff | pkg/scanner/scanner.go:153-182 | for some number of workers some interleaving drops a directory iff a takeable set has a frontier of more than 64 |
| ScanLoss.MayDropItIff | pkg/scanner/scanner.go:153-182 | for some number of workers some interleaving drops the given directory iff it is crowded out by a takeable set |
| ScanLoss.ManyWorkersMayDropIff | pkg/scanner/scanner.go:153-182 | the same for every number of workers that is at least the number of live directories |
| ScanLoss.OneWorkerMayDropIff | pkg/scanner/scanner.go:153-182 | with one worker some interleaving drops a directory iff a breadth-first set overflows, iff every interleaving does |
| ScanLoss.WideLevelDrops | pkg/scanner/scanner.go:170-175 | if some level below the root directories has more than 64 live directories, some interleaving returns having dropped one |
| ScanLoss.WideDirectoryDrops | pkg/scanner/scanner.go:170-175 | so too if a live directory keeps more than 64 subdirectories |
| ScanLostFiles.MayMissFileIff | pkg/scanner/scanner.go:106-190 | for some number of workers some scan misses the given expected file iff a directory above it is crowded out by a takeable set |
| ScanLostFiles.ManyWorkersMayMissFileIff | pkg/scanner/scanner.go:106-190 | the same for every number of workers that is at least the number of live directories |
| ScanLostFiles.MayLoseFilesIff | pkg/scanner/scanner.go:106-190 | whatever the number of workers, every scan that returns lists all expected files iff none is below a directory that can be crowded out |
| ScanLostFiles.GivenWorkersMayMissIff | pkg/scanner/scanner.go:106-190 | if each live directory has an expected file below, some scan with the given number of workers misses a file iff they can take directories in some order whose frontier is more than 64 |
| ScanLostFiles.MissedBelowDropped | pkg/scanner/scanner.go:106-190 | with a given number of workers a scan can miss an expected file iff one can drop a directory above it |
| ScanLostFiles.ScanLosesFile | pkg/scanner/scanner.go:153-190 | one directory with 65 subdirectories that hold a file each: some scan misses a file, whatever the number of workers |

## Left out

- Heap entries are references into an explicit store rather than objects: two heap entries and a map entry share an entry by holding the same reference, so sharing and the slot back-pointers are modelled, garbage collection is not.
- IndexedHeap.Heap.Less: priorities and access counts are unbounded integers and the priority queue's order is the cache's with keys negated; overflow of the counters is not modelled.
- ParseCache.ParseCache.Touch: the time stamps, which nothing reads, and the hit ratio are left out. After a panic the lock stays taken, so a run ends there.
- CacheInterleaving.Begin: a lookup that finds nothing and the counting of the miss, which takes the lock again, are one stage; a client has one `Get` at a time.
- ScanLostFiles.MayMissFileIff: is for some number of workers, or as many as there are live directories; with a given smaller number, `GivenWorkersMayDropIff` says when some directory is dropped, and `GivenWorkersMayMissIff` when some file is missed if no directory is empty, but not which.
- CycleTheorems.FindsAllIff: is about graphs whose edges all leave declared nodes; otherwise no search starts from some vertices, and which cycles are found depends on how these are entered. `SearchReports` and `CyclesFoundIff` hold for every graph.
- Scanner.Scanner.WalkDir: hashes, sizes, times and the other metadata of a file are left out, as are entries that vanish while they are read; symbolic links are files; the tree does not change during the scan.
- Scanner.Scanner.constructor: the processor count is a parameter.
- Css.Tracker.TrackFile: reading the file and extracting its imports are left out; the imports are given.
- Graph.Graph.AddNode: the `Metadata` map and the insertion order list, which no operation reads, are left out.
- Store.Store.Save: database errors, the transaction and the time stamp are left out; a save replaces both tables at once.
- Store.Store.Load: query and scan errors are left out.
- Store.Store.Clear: database errors are left out.
- TaskTable.TaskTable.AddTask: the task is copied in, while the source keeps the caller's pointer, so later changes by the caller are not modelled.
- LaunchProtocol.ReturnedOutcome: whether a task's function fails is fixed in advance; functions that never return are left out.
- The locks: a body that runs under one lock is one step.
- The worker count of the priority scheduler, which nothing reads.
- Result grouping and filtering in the scanner, statistics, exports and the remaining getters: they would only add easy members.
- The command line, configuration, database wrappers, compressed caches, watcher, plugins, assets, routes and the regular-expression parsers.
