/** The per-source body both engines run, on the engine's own working
    arrays: reset, forward breadth-first phase, backward accumulation into a
    centrality vector. Each phase is proved to compute the function that
    specifies it in BfsModel and Dependency. */
module SourcePass {
  import opened Vectors
  import opened CsrGraph
  import opened BfsModel
  import opened BfsFacts
  import opened Dependency

  /** The working state as the functional model sees it. */
  function Snapshot(distance: array<int>, sigma: array<int>, predecessor: array<seq<int>>,
                    queue: seq<int>, stack: seq<int>): Search
    reads distance, sigma, predecessor
  {
    Search(distance[..], sigma[..], predecessor[..], queue, stack)
  }

  /** The reset of the three per-node arrays (`memset` in the serial engine,
      `fill` in the parallel one). */
  method ResetWork(distance: array<int>, sigma: array<int>, dependency: array<real>)
    requires distance != sigma
    modifies distance, sigma, dependency
    ensures distance[..] == Fill(distance.Length, -1)
    ensures sigma[..] == Fill(sigma.Length, 0)
    ensures dependency[..] == Fill(dependency.Length, 0.0)
  {
    forall i | 0 <= i < distance.Length {
      distance[i] := -1;
    }
    forall i | 0 <= i < sigma.Length {
      sigma[i] := 0;
    }
    forall i | 0 <= i < dependency.Length {
      dependency[i] := 0.0;
    }
  }

  /** The loop that clears every predecessor list. */
  method ClearPredecessors(predecessor: array<seq<int>>)
    modifies predecessor
    ensures predecessor[..] == Fill(predecessor.Length, [])
  {
    for i := 0 to predecessor.Length
      invariant forall k :: 0 <= k < i ==> predecessor[k] == []
    {
      predecessor[i] := [];
    }
  }

  /** The body of the edge loop for the neighbour `w` of `v`: discovers
      `w` if it is unreached, then counts `v`'s paths into it if it is one
      layer past `v`. */
  method VisitEdge(ghost g: Csr, v: nat, w: nat,
                   distance: array<int>, sigma: array<int>, predecessor: array<seq<int>>,
                   queue: seq<int>, ghost stack: seq<int>)
    returns (queue': seq<int>)
    requires v < g.nodeCount && w < g.nodeCount && distance != sigma
    requires Tracked(g, Snapshot(distance, sigma, predecessor, queue, stack))
    modifies distance, sigma, predecessor
    ensures Snapshot(distance, sigma, predecessor, queue', stack)
         == Visit(g, v, w, old(Snapshot(distance, sigma, predecessor, queue, stack)))
  {
    queue' := queue;
    if distance[w] < 0 {
      queue' := queue' + [w];
      distance[w] := distance[v] + 1;
    }
    if distance[w] == distance[v] + 1 {
      sigma[w] := sigma[w] + sigma[v];
      predecessor[w] := predecessor[w] + [v];
    }
  }

  /** The edge loop of the dequeued node `v`, over its entries
      `[offsets[v], offsets[v + 1])` of the target array. */
  method RelaxEdges(ghost g: Csr, offsets: array<int>, targets: array<int>, v: nat,
                    distance: array<int>, sigma: array<int>, predecessor: array<seq<int>>,
                    queue: seq<int>, ghost stack: seq<int>)
    returns (queue': seq<int>)
    requires g.WellFormed() && g.offsets == offsets[..] && g.targets == targets[..] && v < g.nodeCount
    requires distance != sigma
    requires offsets != distance && offsets != sigma && targets != distance && targets != sigma
    requires Tracked(g, Snapshot(distance, sigma, predecessor, queue, stack))
    modifies distance, sigma, predecessor
    ensures Snapshot(distance, sigma, predecessor, queue', stack)
         == Relax(g, v, offsets[v], old(Snapshot(distance, sigma, predecessor, queue, stack)))
  {
    ghost var start := Snapshot(distance, sigma, predecessor, queue, stack);
    queue' := queue;
    var i := offsets[v];
    while i < offsets[v + 1]
      invariant offsets[v] <= i
      invariant Tracked(g, Snapshot(distance, sigma, predecessor, queue', stack))
      invariant Relax(g, v, i, Snapshot(distance, sigma, predecessor, queue', stack)) == Relax(g, v, offsets[v], start)
      decreases offsets[v + 1] - i
    {
      ghost var cur := Snapshot(distance, sigma, predecessor, queue', stack);
      queue' := VisitEdge(g, v, targets[i], distance, sigma, predecessor, queue', stack);
      assert Relax(g, v, i, cur) == Relax(g, v, i + 1, Visit(g, v, targets[i], cur));
      i := i + 1;
    }
  }

  /** The forward phase: seeds the source, then runs the queue loop, each
      dequeued node going on the stack and having its edges relaxed. Returns
      the stack, bottom first, and leaves exactly the state `ForwardSearch`
      describes. */
  method Forward(n: nat, offsets: array<int>, targets: array<int>, s: nat,
                 distance: array<int>, sigma: array<int>, predecessor: array<seq<int>>)
    returns (stack: seq<int>)
    requires Csr(n, offsets[..], targets[..]).WellFormed() && s < n
    requires distance.Length == n && sigma.Length == n && predecessor.Length == n
    requires distance != sigma
    requires offsets != distance && offsets != sigma && targets != distance && targets != sigma
    requires distance[..] == Fill(n, -1) && sigma[..] == Fill(n, 0) && predecessor[..] == Fill(n, [])
    modifies distance, sigma, predecessor
    ensures Snapshot(distance, sigma, predecessor, [], stack) == ForwardSearch(Csr(n, offsets[..], targets[..]), s)
  {
    ghost var g := Csr(n, offsets[..], targets[..]);
    distance[s] := 0;
    sigma[s] := 1;
    var queue := [s];
    stack := [];
    assert Snapshot(distance, sigma, predecessor, queue, stack) == Seed(g, s);
    while queue != []
      invariant Tracked(g, Snapshot(distance, sigma, predecessor, queue, stack))
      invariant Explore(g, Snapshot(distance, sigma, predecessor, queue, stack)) == ForwardSearch(g, s)
      decreases 2 * Unreached(distance[..]) + |queue|
    {
      ghost var before := Snapshot(distance, sigma, predecessor, queue, stack);
      var v := queue[0];
      queue := queue[1..];
      stack := stack + [v];
      assert Snapshot(distance, sigma, predecessor, queue, stack) == Dequeue(before);
      queue := RelaxEdges(g, offsets, targets, v, distance, sigma, predecessor, queue, stack);
    }
  }

  /** The predecessor loop of the popped node `w`: each `v` in `ps` gets its
      share of `w`'s dependency when `w` has paths at all. */
  method CreditPredecessors(w: nat, ps: seq<int>, sigma: array<int>, dependency: array<real>)
    requires w < dependency.Length && sigma.Length == dependency.Length && InRange(ps, dependency.Length)
    modifies dependency
    ensures dependency[..] == Credit(w, ps, sigma[..], old(dependency[..]))
  {
    for k := 0 to |ps|
      invariant Credit(w, ps[k..], sigma[..], dependency[..]) == Credit(w, ps, sigma[..], old(dependency[..]))
    {
      ghost var dep := dependency[..];
      var v := ps[k];
      if sigma[w] != 0 {
        dependency[v] := dependency[v] + Share(sigma[v], sigma[w], dependency[w]);
      }
      assert ps[k..][1..] == ps[k + 1..];
      assert Credit(w, ps[k..], sigma[..], dep) == Credit(w, ps[k + 1..], sigma[..], dependency[..]);
    }
    assert ps[|ps|..] == [];
  }

  /** The backward phase: pops the stack; each popped node credits its
      predecessors and then, unless it is the source, adds half its
      dependency to `bc`. Computes exactly `Drain`. */
  method Backward(s: nat, stack: seq<int>, sigma: array<int>, predecessor: array<seq<int>>,
                  dependency: array<real>, bc: array<real>)
    requires Shaped(stack, sigma[..], predecessor[..], Sweep(dependency[..], bc[..]))
    requires dependency != bc
    modifies dependency, bc
    ensures Sweep(dependency[..], bc[..])
         == Drain(s, stack, sigma[..], predecessor[..], Sweep(old(dependency[..]), old(bc[..])))
  {
    var rest := stack;
    while rest != []
      invariant Shaped(rest, sigma[..], predecessor[..], Sweep(dependency[..], bc[..]))
      invariant Drain(s, rest, sigma[..], predecessor[..], Sweep(dependency[..], bc[..]))
             == Drain(s, stack, sigma[..], predecessor[..], Sweep(old(dependency[..]), old(bc[..])))
      decreases |rest|
    {
      ghost var sw := Sweep(dependency[..], bc[..]);
      var w := rest[|rest| - 1];
      rest := rest[..|rest| - 1];
      CreditPredecessors(w, predecessor[w], sigma, dependency);
      if w != s {
        bc[w] := bc[w] + dependency[w] / 2.0;
      }
    }
  }

  /** One source's whole pass over reset working arrays: adds the source's
      contribution to `bc` and changes no other entry of it. */
  method ProcessSource(n: nat, offsets: array<int>, targets: array<int>, s: nat,
                       distance: array<int>, sigma: array<int>, predecessor: array<seq<int>>,
                       dependency: array<real>, bc: array<real>)
    requires Csr(n, offsets[..], targets[..]).WellFormed() && s < n
    requires distance.Length == n && sigma.Length == n && predecessor.Length == n
    requires dependency.Length == n && bc.Length == n
    requires distance != sigma && dependency != bc
    requires offsets != distance && offsets != sigma && targets != distance && targets != sigma
    requires distance[..] == Fill(n, -1) && sigma[..] == Fill(n, 0) && predecessor[..] == Fill(n, [])
    requires dependency[..] == Fill(n, 0.0)
    modifies distance, sigma, predecessor, dependency, bc
    ensures bc[..] == Add(old(bc[..]), Contribution(Csr(n, offsets[..], targets[..]), s))
  {
    ghost var g := Csr(n, offsets[..], targets[..]);
    ghost var acc := bc[..];
    var stack := Forward(n, offsets, targets, s, distance, sigma, predecessor);
    ghost var f := ForwardSearch(g, s);
    ghost var zero := Sweep(Fill(n, 0.0), Fill(n, 0.0));
    assert Shaped(f.stack, f.sigma, f.predecessor, zero);
    Backward(s, stack, sigma, predecessor, dependency, bc);
    DrainShift(s, f.stack, f.sigma, f.predecessor, zero, acc);
    AddZero(acc);
    AddComm(acc, Contribution(g, s));
  }
}
