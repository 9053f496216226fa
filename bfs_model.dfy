/** The forward phase of Brandes' algorithm as functions: the breadth-first
    search from one source that fills `distance`, `sigma` (shortest-path
    counts) and the `predecessor` lists, dequeuing from a FIFO queue and pushing
    every dequeued node on a stack. The imperative phase in SourcePass is proved
    to compute exactly `ForwardSearch`. */
module BfsModel {
  import opened Vectors
  import opened CsrGraph

  /** The per-source working state of one worker. `queue` is front-first and
      `stack` bottom-first; -1 in `distance` means "not reached". */
  datatype Search = Search(
    distance: seq<int>,
    sigma: seq<int>,
    predecessor: seq<seq<int>>,
    queue: seq<int>,
    stack: seq<int>)

  /** Every element is a node of a graph with `n` nodes. */
  predicate InRange(xs: seq<int>, n: int)
  {
    forall k :: 0 <= k < |xs| ==> 0 <= xs[k] < n
  }

  /** The shape the working state keeps throughout: one entry per node, no
      distance below -1, and only nodes in the lists. */
  predicate Tracked(g: Csr, st: Search)
  {
    && |st.distance| == g.nodeCount
    && |st.sigma| == g.nodeCount
    && |st.predecessor| == g.nodeCount
    && (forall x :: 0 <= x < g.nodeCount ==> st.distance[x] >= -1)
    && (forall x :: 0 <= x < g.nodeCount ==> InRange(st.predecessor[x], g.nodeCount))
    && InRange(st.queue, g.nodeCount)
    && InRange(st.stack, g.nodeCount)
  }

  /** The number of nodes not reached yet. */
  function Unreached(distance: seq<int>): (k: nat)
    ensures k <= |distance|
  {
    if distance == [] then 0
    else (if distance[0] < 0 then 1 else 0) + Unreached(distance[1..])
  }

  lemma {:induction false} UnreachedDrops(distance: seq<int>, w: nat, x: int)
    requires w < |distance| && distance[w] < 0 && x >= 0
    ensures Unreached(distance[w := x]) == Unreached(distance) - 1
  {
    if w == 0 {
      assert distance[w := x][1..] == distance[1..];
    } else {
      assert distance[w := x][1..] == distance[1..][w - 1 := x];
      UnreachedDrops(distance[1..], w - 1, x);
    }
  }

  /** The source alone is reached, with one path to itself, and waits in the
      queue: the state after the reset and `distance[s] = 0; sigma[s] = 1;
      q.push(s)`. */
  function Seed(g: Csr, s: nat): (st: Search)
    requires s < g.nodeCount
    ensures Tracked(g, st)
  {
    Search(
      Fill(g.nodeCount, -1)[s := 0],
      Fill(g.nodeCount, 0)[s := 1],
      Fill(g.nodeCount, []),
      [s],
      [])
  }

  /** Takes the front of the queue and pushes it on the stack: the order in
      which nodes were reached, stack then queue, is unchanged, and so is
      everything else. */
  function Dequeue(st: Search): (r: Search)
    requires st.queue != []
    ensures r.stack + r.queue == st.stack + st.queue && |r.queue| == |st.queue| - 1
    ensures r.distance == st.distance && r.sigma == st.sigma && r.predecessor == st.predecessor
  {
    st.(queue := st.queue[1..], stack := st.stack + [st.queue[0]])
  }

  /** First test of the edge loop: an unreached neighbour `w` of `v` gets the
      next distance and is enqueued. */
  function Discover(v: nat, w: nat, st: Search): (r: Search)
    requires v < |st.distance| && w < |st.distance|
    ensures |r.distance| == |st.distance|
    ensures st.distance[v] >= 0 ==> r.distance[w] >= 0
    ensures st.distance[w] >= 0 ==> r == st
    ensures r.sigma == st.sigma && r.predecessor == st.predecessor && r.stack == st.stack
  {
    if st.distance[w] < 0
    then st.(queue := st.queue + [w], distance := st.distance[w := st.distance[v] + 1])
    else st
  }

  /** Second test of the edge loop: a neighbour `w` one layer past `v` counts
      `v`'s paths and records `v` as a predecessor. */
  function Link(v: nat, w: nat, st: Search): (r: Search)
    requires v < |st.distance| && w < |st.distance|
    requires |st.sigma| == |st.distance| && |st.predecessor| == |st.distance|
    ensures r.distance == st.distance && r.queue == st.queue && r.stack == st.stack
    ensures |r.sigma| == |st.sigma| && |r.predecessor| == |st.predecessor|
    ensures r.predecessor[w] == st.predecessor[w] || r.predecessor[w] == st.predecessor[w] + [v]
    ensures r.sigma[w] == if r.predecessor[w] == st.predecessor[w] then st.sigma[w] else st.sigma[w] + st.sigma[v]
  {
    if st.distance[w] == st.distance[v] + 1
    then st.(sigma := st.sigma[w := st.sigma[w] + st.sigma[v]],
             predecessor := st.predecessor[w := st.predecessor[w] + [v]])
    else st
  }

  /** One iteration of the edge loop of node `v`, for its neighbour `w`. */
  function Visit(g: Csr, v: nat, w: nat, st: Search): (r: Search)
    requires Tracked(g, st) && v < g.nodeCount && w < g.nodeCount
    ensures Tracked(g, r) && r.stack == st.stack
  {
    Link(v, w, Discover(v, w, st))
  }

  lemma VisitCounts(g: Csr, v: nat, w: nat, st: Search)
    requires Tracked(g, st) && v < g.nodeCount && w < g.nodeCount
    ensures Unreached(Visit(g, v, w, st).distance) <= Unreached(st.distance)
    ensures Unreached(Visit(g, v, w, st).distance) + |Visit(g, v, w, st).queue|
         == Unreached(st.distance) + |st.queue|
  {
    if st.distance[w] < 0 {
      UnreachedDrops(st.distance, w, st.distance[v] + 1);
    }
  }

  /** The edge loop of node `v` from entry `i` of the target array on. Each
      node it enqueues was unreached before, so the unreached count falls by
      exactly as much as the queue grows. */
  function Relax(g: Csr, v: nat, i: int, st: Search): (r: Search)
    requires g.WellFormed() && Tracked(g, st) && v < g.nodeCount && g.offsets[v] <= i
    ensures Tracked(g, r) && r.stack == st.stack
    ensures Unreached(r.distance) <= Unreached(st.distance)
    ensures Unreached(r.distance) + |r.queue| == Unreached(st.distance) + |st.queue|
    decreases g.offsets[v + 1] - i
  {
    if i >= g.offsets[v + 1] then st
    else
      var w := g.targets[i];
      VisitCounts(g, v, w, st);
      Relax(g, v, i + 1, Visit(g, v, w, st))
  }

  /** The queue loop: runs until the queue is empty. It terminates because
      every round either reaches a new node or shortens the queue. */
  function Explore(g: Csr, st: Search): (r: Search)
    requires g.WellFormed() && Tracked(g, st)
    ensures Tracked(g, r) && r.queue == []
    decreases 2 * Unreached(st.distance) + |st.queue|
  {
    if st.queue == [] then st
    else
      var v := st.queue[0];
      Explore(g, Relax(g, v, g.offsets[v], Dequeue(st)))
  }

  /** The whole forward phase for source `s`. */
  function ForwardSearch(g: Csr, s: nat): (r: Search)
    requires g.WellFormed() && s < g.nodeCount
    ensures Tracked(g, r) && r.queue == []
  {
    Explore(g, Seed(g, s))
  }
}
