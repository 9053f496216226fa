# Betweenness centrality over CSR graphs, in Dafny

This project models the core of a small C++ betweenness-centrality program.
The program stores an undirected graph in compressed sparse row (CSR) form:
an offset array `adjacencyListPointers` of `nodeCount + 1` entries and a
target array `adjacencyList`, with node `v`'s neighbours in
`[ptr[v], ptr[v+1])`. Two engines run Brandes' algorithm over it:

- `calculateBc`, the serial engine, over every source;
- `betweennessCentrality(graph, nodeFrom, nodeTo)`, the OpenMP engine, over a
  range of sources, each worker summing into a private `localBcs` that is
  merged into the shared result in a critical section.

For each source both engines run the same two phases:

- a forward breadth-first search that fills `distance`, `sigma` (the number
  of shortest paths) and the `predecessor` lists, using a FIFO queue and a
  stack;
- a backward sweep that pops the stack and accumulates `dependency` into the
  centrality vector.

Two smaller pieces are modelled as well: the `Graph` class (reading, the
accessors, and `convertToCOO`), and the generator's edge-list-to-CSR builder.

Layout, one module per file:

- `vectors.dfy` (`Vectors`): filled vectors, element-wise `Add`, ordered sums
  of per-source vectors, and the per-worker sums of a schedule.
- `graph.dfy` (`CsrGraph`): the value view `Csr` with its well-formedness
  predicate, and the `Graph` class with its arrays.
- `bfs_model.dfy` (`BfsModel`): the forward phase as functions on a `Search`
  state (`Seed`, `Dequeue`, `Discover`, `Link`, `Visit`, `Relax`, `Explore`,
  `ForwardSearch`).
- `bfs_facts.dfy` (`BfsFacts`): the invariant of the forward phase and what
  it guarantees when the queue is empty.
- `dependency.dfy` (`Dependency`): the backward phase as functions (`Credit`,
  `Drain`), one source's `Contribution`, and `SourceSum`, the sum of the
  contributions of a range of sources, with their properties.
- `source_pass.dfy` (`SourcePass`): the per-source body over arrays, proved
  to compute exactly the functions above.
- `serial.dfy` (`Serial`) and `parallel_cpu.dfy` (`ParallelCpu`): the two
  engines, proved to return `SourceSum` over their source range.
- `tc_generator.dfy` (`TcGenerator`): the CSR builder and its properties.

The two engines are connected through their postconditions. `calculateBc`
returns `SourceSum(g, 0, nodeCount)`. `betweennessCentrality` returns
`SourceSum(g, nodeFrom, nodeTo + 1)` for every number of workers and every
schedule. So over the range `0..nodeCount-1` both return the same vector.
In exact arithmetic, `dependency` and the centralities are `real`.

The OpenMP region is modelled sequentially. A `schedule` sequence names the
worker that the loop schedule hands each source, and every worker's merge
happens once, after its sources. `Vectors.MergedSum` proves that this merge
equals the plain sum of the contributions, whatever the schedule.

## Model

| member | source | states |
|---|---|---|
| CsrGraph.Graph.constructor | Graph.h:15-24 | allocates `nodeCount + 1` offsets and `2 * edgeCount + 1` target slots, fills all offsets and the first `2 * edgeCount` targets from the input lines, leaves the edge lists unset |
| CsrGraph.Graph.GetNodeCount | Graph.h:11 | returns the stored node count and reads nothing else |
| CsrGraph.Graph.GetEdgeCount | Graph.h:13 | returns the stored edge count and reads nothing else |
| CsrGraph.Graph.GetAdjacencyList | Graph.h:38 | returns the whole target array, whatever node is asked for |
| CsrGraph.Graph.GetAdjacencyListPointers | Graph.h:40 | returns the whole offset array, whatever node is asked for |
| CsrGraph.Graph.ConvertToCOO | Graph.h:26-36 | given non-negative, non-decreasing offsets that end within the target slots: `edgeList2` is the target array itself (an alias), `edgeList1` is fresh with `2 * edgeCount + 1` entries, `edgeList1[j] == i` for every `j` in node `i`'s range, offsets and targets unchanged |
| CsrGraph.MarkRow | Graph.h:31-34 | the inner loop: the entries of one node's range get that node, every other entry is unchanged |
| BfsModel.Seed | serial.cpp:28-35 | the reset and seeded state has one distance, one path count and one predecessor list per node, no distance below -1, and only nodes in its lists |
| BfsModel.Dequeue | serial.cpp:38-40 | moving the queue front onto the stack keeps the order in which nodes were reached (stack then queue), shortens the queue by one, and changes nothing else |
| BfsModel.Discover | serial.cpp:46-49 | a neighbour of a reached node is reached afterwards; an already reached neighbour leaves the state unchanged; path counts, predecessor lists and the stack never change |
| BfsModel.Link | serial.cpp:51-54 | distances, queue and stack are unchanged; `w`'s predecessor list is either unchanged or gains `v` at its end, and `w`'s path count grows by `sigma[v]` exactly when it does |
| BfsModel.Visit | serial.cpp:44-54 | one iteration of the edge loop keeps the state's shape (lengths, distances at least -1, lists of nodes) and leaves the stack alone |
| BfsModel.VisitCounts | serial.cpp:46-49 | a node is enqueued only when its distance is first set: the unreached count falls by exactly as much as the queue grows |
| BfsModel.Relax | serial.cpp:42-55 | the edge loop of one node keeps the state's shape and the stack, and never enqueues more nodes than it newly reaches |
| BfsModel.Explore | serial.cpp:37-56 | the queue loop terminates with an empty queue and a well-shaped state |
| BfsModel.ForwardSearch | serial.cpp:32-56 | the forward phase from the seeded state terminates with an empty queue and a well-shaped state |
| BfsFacts.SeedInv | serial.cpp:28-35 | the reset and seeded state (only the source reached, at distance 0 with one path) satisfies the search invariant |
| BfsFacts.DequeueInv | serial.cpp:38-40 | moving the queue front to the stack keeps the invariant |
| BfsFacts.DiscoverInv | serial.cpp:46-49 | setting the distance of an unreached neighbour to one more than `v`'s and enqueuing it keeps the layering and ordering invariant |
| BfsFacts.LinkInv | serial.cpp:51-54 | adding `sigma[v]` to `sigma[w]` and recording `v` as `w`'s predecessor keeps every node's path count equal to the sum over its predecessors |
| BfsFacts.VisitInv | serial.cpp:44-54 | one iteration of the edge loop keeps the invariant |
| BfsFacts.RelaxInv | serial.cpp:42-55 | the whole edge loop of the node just stacked keeps the invariant |
| BfsFacts.ExploreInv | serial.cpp:37-56 | the queue loop keeps the invariant to the end |
| BfsFacts.ForwardSearchEdges | serial.cpp:42-55 | after the forward phase, for every stacked node `v`: every target `w` of `v`'s edge range is reached with `distance[w] <= distance[v] + 1`; and every node `w` with `distance[w] == distance[v] + 1` lists `v` as its predecessor exactly as many times as `w` occurs in `v`'s edge range, so never without an edge |
| BfsFacts.PredecessorEdge | serial.cpp:51-54 | a node the forward phase lists as a predecessor of `w` has `w` among its neighbours |
| BfsFacts.ReachedOverEdge | serial.cpp:46-54 | every reached node other than the source is the target of an edge from a node one layer closer to the source; with the edge bound of `ForwardSearchEdges`, each layer is entered only over edges from the layer before |
| BfsFacts.ForwardSearchFacts | serial.cpp:37-56 | after the forward phase: every reached node is on the stack exactly once, the source first, in non-decreasing distance; unreached nodes keep distance -1, sigma 0 and no predecessors; each predecessor is stacked, one layer closer; every reached node has `sigma >= 1`, equal to the sum of its predecessors' sigma (plus one for the source) |
| Dependency.Share | serial.cpp:63-64 | the share `sigma[v] / sigma[w] * (1 + dependency[w])`, defined only for `sigma[w] != 0`, is non-negative for non-negative inputs and positive when `sigma[v]` and `sigma[w]` are positive and `dependency[w] >= 0` |
| Dependency.Credit | serial.cpp:62-65 | the predecessor loop of a popped node keeps one dependency per node; what it adds is stated by `CreditAdds` and `CreditKeeps` |
| Dependency.CreditAdds | serial.cpp:62-65 | when `w` is not its own predecessor, every node's dependency grows by exactly one share per occurrence in `w`'s predecessor list, and by nothing when `sigma[w] == 0` |
| Dependency.CreditKeeps | serial.cpp:62-65 | the predecessor loop changes the dependency of the listed predecessors only |
| Dependency.CreditNonNegative | serial.cpp:62-65 | the predecessor loop keeps every dependency non-negative |
| Dependency.Drain | serial.cpp:58-68 | the stack loop keeps one dependency and one centrality per node; its effect is stated by the `Drain` lemmas below |
| Dependency.DrainRecurrence | serial.cpp:58-68 | for a repeat-free stack popped after its predecessors, every node ends with its starting dependency plus the shares owed to it by the stacked nodes, computed from the final dependencies: Brandes' recurrence |
| Dependency.DrainKeeps | serial.cpp:58-68 | the stack loop never changes the centrality of unpopped nodes or of the source, nor the dependency of a node that is no popped node's predecessor |
| Dependency.PopTop | serial.cpp:58-60 | popping a repeat-free stack in pop order leaves such a stack, and the popped node is neither in it nor a predecessor of anything in it |
| Dependency.DrainHalves | serial.cpp:58-68 | when predecessors are popped after their successors, each popped node other than the source gains exactly half its final dependency |
| Dependency.DrainShift | serial.cpp:67 | starting the sweep from `bc + extra` gives its result plus `extra`, whatever the sign of `extra`: the sweep only adds into `bc` |
| Dependency.DrainNonNegative | serial.cpp:58-68 | non-negative dependencies and centralities stay non-negative through the sweep |
| Dependency.Backward | serial.cpp:28-68 | one source's forward phase followed by the stack loop, from zero dependencies and centralities, gives one dependency and one centrality per node |
| Dependency.Contribution | serial.cpp:28-68 | what one source's pass adds to the centrality vector has one entry per node |
| Dependency.BackwardRecurrence | serial.cpp:28-68 | every stacked node has `sigma >= 1`, and every node's dependency on the source equals the sum, over each listing of it as the predecessor of a stacked node `w`, of `sigma[v] / sigma[w] * (1 + dependency[w])` |
| Dependency.DependencyPositive | serial.cpp:58-67 | a node recorded as the predecessor of some node has a positive dependency on the source |
| Dependency.ContributionPositive | serial.cpp:58-67 | such a node, if it is not the source, gains a positive amount of centrality from the source's pass |
| Dependency.StackPopOrder | serial.cpp:38-60 | the stack the forward phase leaves has no repeats and holds every predecessor below its successors |
| Dependency.ContributionHalves | serial.cpp:67 | the source gains nothing from its own pass, and every other node gains half its dependency on the source |
| Dependency.ContributionUnreached | serial.cpp:58-67 | nodes the source does not reach gain nothing from its pass |
| Dependency.ContributionNonNegative | serial.cpp:62-67 | every dependency and every gain of one pass is at least zero |
| Dependency.EdgelessContribution | serial.cpp:42-67 | on a graph whose offsets are all equal, a pass adds nothing to any node |
| Dependency.SourceSum | serial.cpp:25-73 | the sum of the contributions of a range of sources has one entry per node; it is defined for an empty range or one inside the nodes |
| Dependency.SourceSumNonNegative | serial.cpp:25-73 | centrality summed over any range of sources is never negative |
| Dependency.SourceSumSplit | parallel-cpu.cpp:36 | the result for a range of sources is the sum of the results for its two halves |
| Dependency.SourceSumUnreached | serial.cpp:58-67 | a node reached by no source of the range has centrality zero |
| Dependency.EdgelessSourceSum | serial.cpp:42-67 | on a graph without edges every centrality is zero, for every range |
| SourcePass.ResetWork | serial.cpp:28-30 | `distance` becomes all -1, `sigma` and `dependency` all 0 |
| SourcePass.ClearPredecessors | serial.cpp:70-72 | every predecessor list becomes empty |
| SourcePass.VisitEdge | serial.cpp:44-54 | one edge-loop iteration on the arrays computes exactly `Visit` on their contents |
| SourcePass.RelaxEdges | serial.cpp:42-55 | the edge loop of `v` on the arrays computes exactly `Relax` |
| SourcePass.Forward | serial.cpp:32-56 | seeding and the queue loop, from the reset state, leave the arrays and the stack equal to `ForwardSearch` |
| SourcePass.CreditPredecessors | serial.cpp:62-65 | the predecessor loop on the arrays computes exactly `Credit` |
| SourcePass.Backward | serial.cpp:58-68 | the stack loop on the arrays computes exactly `Drain` |
| SourcePass.ProcessSource | serial.cpp:28-68 | one source's pass from the reset state adds exactly `Contribution(g, s)` to the centrality vector |
| Serial.CalculateBc | serial.cpp:15-78 | returns a fresh vector holding, for every node, the sum over all sources of their contributions |
| ParallelCpu.RangeSize | parallel-cpu.cpp:36 | the number of sources in `nodeFrom..nodeTo`, zero when `nodeTo < nodeFrom` |
| ParallelCpu.CopyPrefix | parallel-cpu.cpp:17-21 | a worker's private copy holds exactly the first `len` entries of the shared array |
| ParallelCpu.RunSource | parallel-cpu.cpp:38-81 | clear, reset and one source's pass add exactly that source's contribution to the private vector |
| ParallelCpu.ScheduleStep | parallel-cpu.cpp:35-82 | one iteration of the worksharing loop adds the source's contribution exactly when the schedule hands it to this worker |
| ParallelCpu.RunSchedule | parallel-cpu.cpp:35-82 | from a zero vector, a worker's loop leaves the ordered sum of the contributions of exactly its scheduled sources |
| ParallelCpu.Worker | parallel-cpu.cpp:16-82 | a worker with private copies of the graph and private working arrays returns the sum of its scheduled sources' contributions |
| ParallelCpu.MergeInto | parallel-cpu.cpp:84-89 | the critical section adds the private vector into the shared one, element by element |
| ParallelCpu.Zeros | parallel-cpu.cpp:9-13 | the shared result starts as `nodeCount` zeros |
| ParallelCpu.WorkerRound | parallel-cpu.cpp:16-89 | one worker's run and merge extend the merged result by that worker's sum |
| ParallelCpu.RunWorkers | parallel-cpu.cpp:15-90 | after every worker has merged, the result is the merge of all workers' sums |
| ParallelCpu.BetweennessCentrality | parallel-cpu.cpp:5-93 | returns a fresh vector equal to the sum of the contributions of sources `nodeFrom..nodeTo` (zero when the range is empty), for any number of workers and any schedule |
| Vectors.WorkerSum | parallel-cpu.cpp:35-82 | what one worker sums of a range, taking only the sources the schedule hands it, has one entry per node |
| Vectors.Merged | parallel-cpu.cpp:84-89 | the merge of the first `t` workers' sums into the shared vector has one entry per node |
| Vectors.MergedSum | parallel-cpu.cpp:35-89 | however a schedule spreads the sources over the workers, merging the workers' sums gives the plain sum: no source is counted twice or dropped |
| Vectors.SumSplit | parallel-cpu.cpp:36 | an ordered sum over a range is the sum over its two halves |
| TcGenerator.Lists | tc_generator.cpp:21-34 | the edge loop leaves `n + 1` lists, the last of them empty |
| TcGenerator.Offsets | tc_generator.cpp:37-42 | the offset line has one entry more than there are lists, starts at 0, and each entry is the previous one plus the length of the list between them |
| TcGenerator.Concat | tc_generator.cpp:45-47 | the first `i` lists laid end to end have as many entries as the `i`-th running sum |
| TcGenerator.ListsInRange | tc_generator.cpp:21-34 | every entry of a node's list is another node, and the extra list `v[n]` stays empty |
| TcGenerator.ListsSymmetric | tc_generator.cpp:32-33 | `y` occurs in `x`'s list exactly as often as `x` occurs in `y`'s, duplicate edges included |
| TcGenerator.ListsTotal | tc_generator.cpp:25-34 | the lists of the `n` nodes hold `2 * m` entries together |
| TcGenerator.FillLists | tc_generator.cpp:21-34 | the edge loop builds exactly the endpoint lists `Lists(n, edges)` |
| TcGenerator.RunningSums | tc_generator.cpp:37-43 | the offset line is 0 followed by the running sums of the list lengths |
| TcGenerator.Flatten | tc_generator.cpp:45-48 | the target line is the first `n` lists laid end to end |
| TcGenerator.PrefixMonotone | tc_generator.cpp:38-42 | the running sums never decrease |
| TcGenerator.ConcatSlice | tc_generator.cpp:45-47 | node `i`'s list occupies exactly `[offset[i], offset[i + 1])` of the target line |
| TcGenerator.BuildCsrWellFormed | tc_generator.cpp:36-48 | the offsets start at 0, never decrease and end at `2 * m`, the targets number `2 * m` and are nodes, and node `i`'s targets are exactly its list |
| TcGenerator.BuildCsr | tc_generator.cpp:19-48 | the header's edge count is `m`, the output is a well-formed CSR graph with `2 * m` targets, and each node's slice of the targets is its endpoint list |
| TcGenerator.ReadWellFormed | Graph.h:18-23 | reading a well-formed offset line and `2 * m` targets gives a well-formed `Graph`, the unread last target slot included |
| TcGenerator.Load | tc_generator.cpp:19-48 | the generator's output, read back into a `Graph`, is well formed with `n` nodes and `m` edges, and each node's adjacency slice is its endpoint list |

## Left out

- Stream input and output (`cin`, `cout`, `freopen`, `printf`) in `readGraph` and in every `main`. `readGraph` is the `Graph` constructor taking the counts and the two integer lines as sequences.
- Nothing in the program checks its input graph. CSR well-formedness is a precondition: non-negative, non-decreasing offsets inside the targets, every read target a node, and offsets ending within the `2 * edgeCount` targets read.
- OpenMP: the parallel region, `schedule(dynamic, 4)` and `critical` are modelled sequentially. A `schedule` parameter assigns each source to one of `workers` workers; any assignment is allowed, so the dynamic schedule is covered. Interleavings of the critical sections are not modelled; with exact addition their order does not change the sum.
- ParallelCpu.Worker: each worker's `st` and `q` live for the whole parallel region in the source, but here for one source. Both are empty when a source's pass ends, so nothing carries over. `predecessor[i].reserve(20)` is a capacity hint and is left out.
- ParallelCpu.BetweennessCentrality: requires a range that is empty or lies inside `0..nodeCount-1`. The code indexes `distance[s]` with no bounds check, so a range outside the nodes reads out of bounds. A zero result would be the safe answer for such a range; the model follows the code.
- Floating point: `dependency`, `bc`, `bcs` and `localBcs` are exact reals. Rounding and summation-order effects are not modelled, so the engines agree exactly rather than within a tolerance.
- Serial.CalculateBc: `sigma` is an unbounded integer. The source's 32-bit `int` can overflow on graphs with very many shortest paths.
- The threshold in the parallel engine's `main` (`(int)((float)nodeCount * percent / 100)`) depends on float rounding and `strtol`. `nodeFrom` and `nodeTo` are parameters.
- Timing, `printTime` and the `maxBetweenness` diagnostic of both `main` functions.
- `rand()` in the generator: the edges are an input sequence. The facts the drawing loop guarantees (endpoints distinct and in range) are a precondition.
- Memory management: `new` and `delete`, including the comma-operator `delete[]` in `calculateBc` that frees only `predecessor`.
