/** The range engine, `betweennessCentrality(graph, nodeFrom, nodeTo)`. Its
    parallel region is modelled sequentially: the workers run one after the
    other, `schedule[s - nodeFrom]` names the worker that the loop schedule
    hands source `s`, and each worker's merge into the shared vector happens
    when it finishes. */
module ParallelCpu {
  import opened Vectors
  import opened CsrGraph
  import opened Dependency
  import opened SourcePass

  /** The number of sources in the range `nodeFrom..nodeTo`, zero when it is
      empty. */
  function RangeSize(nodeFrom: int, nodeTo: int): (k: nat)
    ensures nodeTo < nodeFrom ==> k == 0
    ensures nodeFrom <= nodeTo ==> nodeFrom + k == nodeTo + 1
  {
    if nodeTo < nodeFrom then 0 else nodeTo - nodeFrom + 1
  }

  /** The sources a range engine may be asked for: none, or nodes only. */
  predicate SourceRange(graph: Graph, nodeFrom: int, nodeTo: int)
    reads graph
  {
    nodeTo < nodeFrom || (0 <= nodeFrom && nodeTo < graph.nodeCount)
  }

  /** A private vector holding the first `len` entries of `a`. */
  method CopyPrefix(a: array<int>, len: nat) returns (b: array<int>)
    requires len <= a.Length
    ensures fresh(b)
    ensures b[..] == a[..len]
  {
    b := new int[len];
    for i := 0 to len
      invariant b[..i] == a[..i]
    {
      b[i] := a[i];
    }
  }

  /** One iteration of the worksharing loop, for a source handed to this
      worker: clear the predecessor lists, reset the working arrays, and run
      the source's pass into the worker's private vector. */
  method RunSource(ghost g: Csr, n: nat, offsets: array<int>, targets: array<int>, s: nat,
                   distance: array<int>, sigma: array<int>, predecessor: array<seq<int>>,
                   dependency: array<real>, localBcs: array<real>)
    requires g == Csr(n, offsets[..], targets[..]) && g.WellFormed() && s < n
    requires distance.Length == n && sigma.Length == n && predecessor.Length == n
    requires dependency.Length == n && localBcs.Length == n
    requires distance != sigma && dependency != localBcs
    requires offsets != distance && offsets != sigma && targets != distance && targets != sigma
    modifies distance, sigma, predecessor, dependency, localBcs
    ensures localBcs[..] == Add(old(localBcs[..]), Contribution(g, s))
  {
    ClearPredecessors(predecessor);
    ResetWork(distance, sigma, dependency);
    ProcessSource(n, offsets, targets, s, distance, sigma, predecessor, dependency, localBcs);
  }

  /** One iteration of the worksharing loop of worker `t`: source
      `nodeFrom + k` is processed when the schedule hands it to `t`. */
  method ScheduleStep(ghost g: Csr, n: nat, offsets: array<int>, targets: array<int>, nodeFrom: int,
                      schedule: seq<nat>, t: nat, k: nat,
                      distance: array<int>, sigma: array<int>, predecessor: array<seq<int>>,
                      dependency: array<real>, localBcs: array<real>)
    requires g == Csr(n, offsets[..], targets[..]) && g.WellFormed()
    requires k < |schedule| && 0 <= nodeFrom && nodeFrom + |schedule| <= n
    requires distance.Length == n && sigma.Length == n && predecessor.Length == n
    requires dependency.Length == n && localBcs.Length == n
    requires distance != sigma && dependency != localBcs
    requires offsets != distance && offsets != sigma && targets != distance && targets != sigma
    requires localBcs[..] == WorkerSum(n, Contributions(g), nodeFrom, schedule, t, nodeFrom, nodeFrom + k)
    modifies distance, sigma, predecessor, dependency, localBcs
    ensures localBcs[..] == WorkerSum(n, Contributions(g), nodeFrom, schedule, t, nodeFrom, nodeFrom + k + 1)
  {
    ghost var part := Contributions(g);
    ghost var before := localBcs[..];
    if schedule[k] == t {
      RunSource(g, n, offsets, targets, nodeFrom + k, distance, sigma, predecessor, dependency, localBcs);
      assert part(nodeFrom + k) == Contribution(g, nodeFrom + k);
      assert localBcs[..] == Add(before, part(nodeFrom + k));
    }
  }

  /** The worksharing loop of one worker: every source of the range that the
      schedule hands worker `t` is processed into `localBcs`, in order. */
  method RunSchedule(ghost g: Csr, n: nat, offsets: array<int>, targets: array<int>, nodeFrom: int,
                     schedule: seq<nat>, t: nat,
                     distance: array<int>, sigma: array<int>, predecessor: array<seq<int>>,
                     dependency: array<real>, localBcs: array<real>)
    requires g == Csr(n, offsets[..], targets[..]) && g.WellFormed()
    requires |schedule| == 0 || (0 <= nodeFrom && nodeFrom + |schedule| <= n)
    requires distance.Length == n && sigma.Length == n && predecessor.Length == n
    requires dependency.Length == n && localBcs.Length == n
    requires distance != sigma && dependency != localBcs
    requires offsets != distance && offsets != sigma && targets != distance && targets != sigma
    requires localBcs[..] == Fill(n, 0.0)
    modifies distance, sigma, predecessor, dependency, localBcs
    ensures localBcs[..] == WorkerSum(n, Contributions(g), nodeFrom, schedule, t, nodeFrom, nodeFrom + |schedule|)
  {
    var k := 0;
    while k < |schedule|
      invariant 0 <= k <= |schedule|
      invariant g == Csr(n, offsets[..], targets[..])
      invariant localBcs[..] == WorkerSum(n, Contributions(g), nodeFrom, schedule, t, nodeFrom, nodeFrom + k)
    {
      ScheduleStep(g, n, offsets, targets, nodeFrom, schedule, t, k,
                   distance, sigma, predecessor, dependency, localBcs);
      k := k + 1;
    }
  }

  /** One worker of the parallel region: private copies of the graph arrays,
      private working arrays and a private centrality vector, into which it
      processes the sources the schedule hands it. */
  method Worker(graph: Graph, nodeFrom: int, nodeTo: int, schedule: seq<nat>, t: nat)
    returns (localBcs: array<real>)
    requires graph.WellFormed() && SourceRange(graph, nodeFrom, nodeTo)
    requires |schedule| == RangeSize(nodeFrom, nodeTo)
    ensures fresh(localBcs)
    ensures localBcs[..] == WorkerSum(graph.nodeCount, Contributions(graph.View()), nodeFrom, schedule, t,
                                      nodeFrom, nodeFrom + |schedule|)
  {
    var nodeCount := graph.GetNodeCount();
    var edgeCount := graph.GetEdgeCount();
    var adjacencyListPointers := CopyPrefix(graph.adjacencyListPointers, nodeCount + 1);
    var adjacencyList := CopyPrefix(graph.adjacencyList, 2 * edgeCount + 1);
    assert graph.adjacencyListPointers[..nodeCount + 1] == graph.adjacencyListPointers[..];
    assert graph.adjacencyList[..2 * edgeCount + 1] == graph.adjacencyList[..];
    ghost var g := graph.View();
    assert Csr(nodeCount, adjacencyListPointers[..], adjacencyList[..]) == g;
    var dependency := new real[nodeCount];
    var sigma := new int[nodeCount];
    var distance := new int[nodeCount];
    var predecessor := new seq<int>[nodeCount];
    localBcs := new real[nodeCount](_ => 0.0);
    assert localBcs[..] == Fill(nodeCount, 0.0);
    RunSchedule(g, nodeCount, adjacencyListPointers, adjacencyList, nodeFrom, schedule, t,
                distance, sigma, predecessor, dependency, localBcs);
  }

  /** The sum over a source range, with the range given by its first source
      and its size. */
  lemma RangeSum(g: Csr, nodeFrom: int, nodeTo: int)
    requires g.WellFormed() && (nodeTo < nodeFrom || (0 <= nodeFrom && nodeTo < g.nodeCount))
    ensures Parts(g.nodeCount, Contributions(g), nodeFrom, nodeFrom + RangeSize(nodeFrom, nodeTo))
    ensures SourceSum(g, nodeFrom, nodeTo + 1)
         == Sum(g.nodeCount, Contributions(g), nodeFrom, nodeFrom + RangeSize(nodeFrom, nodeTo))
  {
  }

  /** The critical section: adds a worker's private vector into the shared
      one, entry by entry. */
  method MergeInto(bcs: array<real>, localBcs: array<real>)
    requires bcs.Length == localBcs.Length && bcs != localBcs
    modifies bcs
    ensures bcs[..] == Add(old(bcs[..]), localBcs[..])
  {
    for i := 0 to bcs.Length
      invariant forall k :: 0 <= k < i ==> bcs[k] == old(bcs[k]) + localBcs[k]
      invariant forall k :: i <= k < bcs.Length ==> bcs[k] == old(bcs[k])
    {
      bcs[i] := bcs[i] + localBcs[i];
    }
  }

  /** A fresh vector of `n` zeros. */
  method Zeros(n: nat) returns (a: array<real>)
    ensures fresh(a)
    ensures a[..] == Fill(n, 0.0)
  {
    a := new real[n];
    for i := 0 to n
      invariant forall k :: 0 <= k < i ==> a[k] == 0.0
    {
      a[i] := 0.0;
    }
  }

  /** Worker `t` of the parallel region: it processes its share of the range
      and then adds its private vector into `bcs` in the critical section. */
  method WorkerRound(graph: Graph, nodeFrom: int, nodeTo: int, schedule: seq<nat>, t: nat, bcs: array<real>)
    requires graph.WellFormed() && SourceRange(graph, nodeFrom, nodeTo)
    requires |schedule| == RangeSize(nodeFrom, nodeTo)
    requires bcs.Length == graph.nodeCount
    requires bcs[..] == Merged(graph.nodeCount, Contributions(graph.View()), nodeFrom, schedule,
                               nodeFrom, nodeFrom + |schedule|, t)
    modifies bcs
    ensures bcs[..] == Merged(graph.nodeCount, Contributions(graph.View()), nodeFrom, schedule,
                              nodeFrom, nodeFrom + |schedule|, t + 1)
  {
    var localBcs := Worker(graph, nodeFrom, nodeTo, schedule, t);
    MergeInto(bcs, localBcs);
  }

  /** The parallel region: workers `0` to `workers - 1` each process their
      share of the range and add their private vector into `bcs`. */
  method RunWorkers(graph: Graph, nodeFrom: int, nodeTo: int, workers: nat, schedule: seq<nat>, bcs: array<real>)
    requires graph.WellFormed() && SourceRange(graph, nodeFrom, nodeTo)
    requires |schedule| == RangeSize(nodeFrom, nodeTo)
    requires bcs.Length == graph.nodeCount && bcs[..] == Fill(graph.nodeCount, 0.0)
    modifies bcs
    ensures bcs[..] == Merged(graph.nodeCount, Contributions(graph.View()), nodeFrom, schedule,
                              nodeFrom, nodeFrom + |schedule|, workers)
  {
    for t := 0 to workers
      invariant bcs[..] == Merged(graph.nodeCount, Contributions(graph.View()), nodeFrom, schedule,
                                  nodeFrom, nodeFrom + |schedule|, t)
    {
      WorkerRound(graph, nodeFrom, nodeTo, schedule, t, bcs);
    }
  }

  /** Betweenness centrality from the sources `nodeFrom..nodeTo` only: zero
      the result, let every worker process its share of the range, and add
      each worker's vector into the result once. The result is the sum of
      the contributions of the sources in the range, whatever the number of
      workers and however the schedule spreads the sources among them. */
  method BetweennessCentrality(graph: Graph, nodeFrom: int, nodeTo: int, workers: nat, schedule: seq<nat>)
    returns (bcs: array<real>)
    requires graph.WellFormed() && SourceRange(graph, nodeFrom, nodeTo)
    requires workers >= 1
    requires |schedule| == RangeSize(nodeFrom, nodeTo)
    requires forall k :: 0 <= k < |schedule| ==> schedule[k] < workers
    ensures fresh(bcs)
    ensures bcs[..] == SourceSum(graph.View(), nodeFrom, nodeTo + 1)
  {
    bcs := Zeros(graph.GetNodeCount());
    RunWorkers(graph, nodeFrom, nodeTo, workers, schedule, bcs);
    RangeSum(graph.View(), nodeFrom, nodeTo);
    MergedSum(graph.nodeCount, Contributions(graph.View()), nodeFrom, schedule, nodeFrom + |schedule|, workers);
  }
}
