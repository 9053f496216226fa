/** What the forward phase establishes: breadth-first layering, path counts
    and visit-once, stated as an invariant of the working state that every
    step of `Explore` preserves. */
module BfsFacts {
  import opened Vectors
  import opened CsrGraph
  import opened BfsModel

  /** The sum of `sigma` over a predecessor list, one term per occurrence. */
  function SigmaSum(sigma: seq<int>, ps: seq<int>): int
    requires InRange(ps, |sigma|)
    decreases |ps|
  {
    if ps == [] then 0 else SigmaSum(sigma, ps[..|ps| - 1]) + sigma[ps[|ps| - 1]]
  }

  lemma {:induction false} SigmaSumFrame(sigma: seq<int>, ps: seq<int>, w: nat, c: int)
    requires InRange(ps, |sigma|) && w < |sigma| && w !in ps
    ensures SigmaSum(sigma[w := c], ps) == SigmaSum(sigma, ps)
  {
    if ps != [] {
      assert w !in ps[..|ps| - 1] by {
        forall k | 0 <= k < |ps| - 1 ensures ps[k] != w {
        }
      }
      SigmaSumFrame(sigma, ps[..|ps| - 1], w, c);
    }
  }

  lemma SigmaSumAppend(sigma: seq<int>, ps: seq<int>, v: nat)
    requires InRange(ps, |sigma|) && v < |sigma|
    ensures SigmaSum(sigma, ps + [v]) == SigmaSum(sigma, ps) + sigma[v]
  {
    assert (ps + [v])[..|ps|] == ps;
  }

  /** Nodes reached so far, in the order they were reached: the dequeued
      ones, then the waiting ones. */
  function Visited(st: Search): seq<int>
  {
    st.stack + st.queue
  }

  ghost predicate Distinct(xs: seq<int>)
  {
    forall i, j :: 0 <= i < j < |xs| ==> xs[i] != xs[j]
  }

  /** Breadth-first order: each node is reached at most once, distances never
      decrease along the visit order, the queue spans at most two layers, and
      nothing waiting is more than one layer past the node dequeued last. */
  ghost predicate Ordered(g: Csr, st: Search)
    requires Tracked(g, st)
  {
    && Distinct(Visited(st))
    && (forall i, j :: 0 <= i <= j < |Visited(st)| ==>
          st.distance[Visited(st)[i]] <= st.distance[Visited(st)[j]])
    && (forall i :: 0 <= i < |st.queue| ==>
          st.distance[st.queue[i]] <= st.distance[st.queue[0]] + 1)
    && (st.stack != [] ==> forall i :: 0 <= i < |st.queue| ==>
          st.distance[st.queue[i]] <= st.distance[st.stack[|st.stack| - 1]] + 1)
  }

  /** What the forward phase keeps true of node `x`: it has a distance exactly
      when it has been enqueued; its predecessors are dequeued nodes one layer
      closer to the source; unreached, it has no paths and no predecessors; its
      path count is the sum of its predecessors' (plus the trivial path of the
      source); and, reached, it has at least one path unless it is `e`, the
      node whose first path is being recorded (-1 for none). */
  ghost predicate NodeFacts(g: Csr, s: nat, st: Search, e: int, x: nat)
    requires Tracked(g, st) && x < g.nodeCount
  {
    && (st.distance[x] >= 0 <==> x in Visited(st))
    && (forall p :: p in st.predecessor[x] ==> p in st.stack && st.distance[p] + 1 == st.distance[x])
    && (st.distance[x] < 0 ==> st.sigma[x] == 0 && st.predecessor[x] == [])
    && st.sigma[x] >= 0
    && st.sigma[x] == (if x == s then 1 else 0) + SigmaSum(st.sigma, st.predecessor[x])
    && (x != e && st.distance[x] >= 0 ==> st.sigma[x] >= 1)
  }

  ghost predicate Invariant(g: Csr, s: nat, st: Search, e: int)
  {
    && s < g.nodeCount
    && Tracked(g, st)
    && st.distance[s] == 0
    && |Visited(st)| > 0
    && Visited(st)[0] == s
    && Ordered(g, st)
    && forall x :: 0 <= x < g.nodeCount ==> NodeFacts(g, s, st, e, x)
  }

  /** The invariant of the forward phase between two edge visits. */
  ghost predicate BfsInv(g: Csr, s: nat, st: Search)
  {
    Invariant(g, s, st, -1)
  }

  lemma SeedInv(g: Csr, s: nat)
    requires s < g.nodeCount
    ensures BfsInv(g, s, Seed(g, s))
  {
    var st := Seed(g, s);
    assert Visited(st) == [s];
    forall x | 0 <= x < g.nodeCount
      ensures NodeFacts(g, s, st, -1, x)
    {
      assert st.predecessor[x] == [];
    }
  }

  /** Under the layering, nodes on the stack are no farther than the node
      dequeued last, and waiting nodes no closer. */
  lemma StackBelow(g: Csr, st: Search)
    requires Tracked(g, st) && Ordered(g, st) && st.stack != []
    ensures forall k :: 0 <= k < |st.stack| ==>
      st.distance[st.stack[k]] <= st.distance[st.stack[|st.stack| - 1]]
    ensures forall k :: 0 <= k < |st.queue| ==>
      st.distance[st.stack[|st.stack| - 1]] <= st.distance[st.queue[k]]
  {
    var last := |st.stack| - 1;
    forall k | 0 <= k < |st.stack|
      ensures st.distance[st.stack[k]] <= st.distance[st.stack[last]]
    {
      assert Visited(st)[k] == st.stack[k] && Visited(st)[last] == st.stack[last];
    }
    forall k | 0 <= k < |st.queue|
      ensures st.distance[st.stack[last]] <= st.distance[st.queue[k]]
    {
      assert Visited(st)[|st.stack| + k] == st.queue[k] && Visited(st)[last] == st.stack[last];
    }
  }

  /** A node one layer past the node dequeued last is not on the stack. */
  lemma NextLayerNotStacked(g: Csr, st: Search, w: nat)
    requires Tracked(g, st) && Ordered(g, st) && st.stack != [] && w < g.nodeCount
    requires st.distance[w] == st.distance[st.stack[|st.stack| - 1]] + 1
    ensures w !in st.stack
  {
    StackBelow(g, st);
  }

  lemma DequeueOrdered(g: Csr, st: Search)
    requires Tracked(g, st) && Ordered(g, st) && st.queue != []
    ensures Tracked(g, Dequeue(st)) && Ordered(g, Dequeue(st))
  {
    var st' := Dequeue(st);
    var q, d := st.queue, st.distance;
    assert Visited(st') == Visited(st);
    forall i | 0 <= i < |st'.queue|
      ensures d[st'.queue[i]] <= d[st'.queue[0]] + 1
      ensures d[st'.queue[i]] <= d[q[0]] + 1
    {
      assert st'.queue[i] == q[i + 1] && st'.queue[0] == q[1];
      assert Visited(st)[|st.stack|] == q[0] && Visited(st)[|st.stack| + 1] == q[1];
    }
  }

  lemma DequeueInv(g: Csr, s: nat, st: Search)
    requires BfsInv(g, s, st) && st.queue != []
    ensures BfsInv(g, s, Dequeue(st))
  {
    var st' := Dequeue(st);
    DequeueOrdered(g, st);
    assert Visited(st') == Visited(st);
    forall x | 0 <= x < g.nodeCount
      ensures NodeFacts(g, s, st', -1, x)
    {
      assert NodeFacts(g, s, st, -1, x);
    }
  }

  lemma DiscoverOrdered(g: Csr, v: nat, w: nat, st: Search)
    requires Tracked(g, st) && Ordered(g, st)
    requires st.stack != [] && v == st.stack[|st.stack| - 1] && w < g.nodeCount
    requires w !in Visited(st) && st.distance[w] < 0 && st.distance[v] >= 0
    ensures Tracked(g, Discover(v, w, st)) && Ordered(g, Discover(v, w, st))
  {
    var st' := Discover(v, w, st);
    var d, d' := st.distance, st'.distance;
    var V, V' := Visited(st), Visited(st');
    assert V' == V + [w];
    StackBelow(g, st);
    // The new node is one layer past `v`, which bounds everything so far.
    forall i | 0 <= i < |V|
      ensures d'[V[i]] == d[V[i]] <= d[v] + 1
    {
      if i < |st.stack| {
        assert V[i] == st.stack[i];
      } else {
        assert V[i] == st.queue[i - |st.stack|];
      }
    }
    forall i, j | 0 <= i <= j < |V'|
      ensures d'[V'[i]] <= d'[V'[j]]
    {
      if j < |V| {
        assert V'[i] == V[i] && V'[j] == V[j];
      } else if i < |V| {
        assert V'[i] == V[i] && V'[j] == w;
      }
    }
    forall i | 0 <= i < |st'.queue|
      ensures d'[st'.queue[i]] <= d'[st'.queue[0]] + 1
      ensures d'[st'.queue[i]] <= d'[v] + 1
    {
      if i < |st.queue| {
        assert st'.queue[i] == st.queue[i] == V[|st.stack| + i];
      }
      if st.queue != [] {
        assert st'.queue[0] == st.queue[0];
      }
    }
  }

  lemma DiscoverInv(g: Csr, s: nat, v: nat, w: nat, st: Search)
    requires BfsInv(g, s, st) && st.stack != [] && v == st.stack[|st.stack| - 1] && w < g.nodeCount
    requires st.distance[w] < 0
    ensures Invariant(g, s, Discover(v, w, st), w)
  {
    var st' := Discover(v, w, st);
    assert Visited(st)[|st.stack| - 1] == v;
    assert NodeFacts(g, s, st, -1, v);
    assert NodeFacts(g, s, st, -1, w);
    DiscoverOrdered(g, v, w, st);
    assert Visited(st') == Visited(st) + [w];
    forall x | 0 <= x < g.nodeCount
      ensures NodeFacts(g, s, st', w, x)
    {
      assert NodeFacts(g, s, st, -1, x);
    }
  }

  /** Recording `v` as a predecessor of `w` keeps the facts about each node:
      `w` is nobody's predecessor yet, so only its own sum changes. */
  lemma LinkNodeFacts(g: Csr, s: nat, v: nat, w: nat, st: Search, e: int, x: nat)
    requires Invariant(g, s, st, e) && (e == w || e == -1)
    requires st.stack != [] && v == st.stack[|st.stack| - 1] && w < g.nodeCount
    requires st.distance[w] == st.distance[v] + 1
    requires NodeFacts(g, s, st, e, v) && w !in st.stack && x < g.nodeCount
    ensures NodeFacts(g, s, Link(v, w, st), -1, x)
  {
    var st' := Link(v, w, st);
    var sg, sg' := st.sigma, st'.sigma;
    assert NodeFacts(g, s, st, e, x);
    assert w !in st.predecessor[x];
    SigmaSumFrame(sg, st.predecessor[x], w, sg'[w]);
    if x == w {
      SigmaSumAppend(sg', st.predecessor[w], v);
    }
  }

  lemma LinkInv(g: Csr, s: nat, v: nat, w: nat, st: Search, e: int)
    requires Invariant(g, s, st, e) && (e == w || e == -1)
    requires st.stack != [] && v == st.stack[|st.stack| - 1] && w < g.nodeCount
    requires st.distance[w] == st.distance[v] + 1
    ensures BfsInv(g, s, Link(v, w, st))
  {
    var st' := Link(v, w, st);
    assert st'.distance == st.distance && st'.stack == st.stack && st'.queue == st.queue;
    assert Visited(st') == Visited(st);
    assert Visited(st)[|st.stack| - 1] == v;
    assert NodeFacts(g, s, st, e, v);
    NextLayerNotStacked(g, st, w);
    forall x | 0 <= x < g.nodeCount
      ensures NodeFacts(g, s, st', -1, x)
    {
      LinkNodeFacts(g, s, v, w, st, e, x);
    }
  }

  lemma VisitInv(g: Csr, s: nat, v: nat, w: nat, st: Search)
    requires BfsInv(g, s, st) && st.stack != [] && v == st.stack[|st.stack| - 1] && w < g.nodeCount
    ensures BfsInv(g, s, Visit(g, v, w, st))
  {
    assert Visited(st)[|st.stack| - 1] == v;
    assert NodeFacts(g, s, st, -1, v);
    if st.distance[w] < 0 {
      DiscoverInv(g, s, v, w, st);
      LinkInv(g, s, v, w, Discover(v, w, st), w);
    } else if st.distance[w] == st.distance[v] + 1 {
      LinkInv(g, s, v, w, st, -1);
    } else {
      assert Visit(g, v, w, st) == st;
    }
  }

  lemma {:induction false} RelaxInv(g: Csr, s: nat, v: nat, i: int, st: Search)
    requires g.WellFormed() && BfsInv(g, s, st)
    requires st.stack != [] && v == st.stack[|st.stack| - 1] && g.offsets[v] <= i
    ensures BfsInv(g, s, Relax(g, v, i, st))
    decreases g.offsets[v + 1] - i
  {
    if i < g.offsets[v + 1] {
      var w := g.targets[i];
      var next := Visit(g, v, w, st);
      VisitInv(g, s, v, w, st);
      RelaxInv(g, s, v, i + 1, next);
      assert Relax(g, v, i, st) == Relax(g, v, i + 1, next);
    }
  }

  lemma {:induction false} ExploreInv(g: Csr, s: nat, st: Search)
    requires g.WellFormed() && BfsInv(g, s, st)
    ensures BfsInv(g, s, Explore(g, st))
    decreases 2 * Unreached(st.distance) + |st.queue|
  {
    if st.queue != [] {
      var v := st.queue[0];
      DequeueInv(g, s, st);
      RelaxInv(g, s, v, g.offsets[v], Dequeue(st));
      ExploreInv(g, s, Relax(g, v, g.offsets[v], Dequeue(st)));
    }
  }

  /** The number of entries `lo` to `hi - 1` of `targets` equal to `w`: how
      many edges of a node's range lead to `w`. */
  function EdgeCount(targets: seq<int>, lo: int, hi: int, w: int): nat
    requires 0 <= lo && hi <= |targets|
    decreases hi - lo
  {
    if hi <= lo then 0 else EdgeCount(targets, lo, hi - 1, w) + (if targets[hi - 1] == w then 1 else 0)
  }

  lemma {:induction false} EdgeCountAbsent(targets: seq<int>, lo: int, hi: int, w: int)
    requires 0 <= lo && hi <= |targets|
    requires forall k :: lo <= k < hi ==> targets[k] != w
    ensures EdgeCount(targets, lo, hi, w) == 0
    decreases hi - lo
  {
    if lo < hi {
      EdgeCountAbsent(targets, lo, hi - 1, w);
    }
  }

  /** The edges `offsets[u]` to `hi - 1` of node `u` have been visited: each
      leads to a reached node at most one layer past `u`, and `u` occurs in
      the predecessor list of every node one layer past it once per such
      edge leading there. */
  ghost predicate Scanned(g: Csr, st: Search, u: nat, hi: int)
    requires g.WellFormed() && Tracked(g, st) && u < g.nodeCount && g.offsets[u] <= hi <= g.offsets[u + 1]
  {
    && (forall k :: g.offsets[u] <= k < hi ==>
          0 <= st.distance[g.targets[k]] <= st.distance[u] + 1)
    && (forall w {:trigger st.predecessor[w]} :: 0 <= w < g.nodeCount && st.distance[w] == st.distance[u] + 1 ==>
          multiset(st.predecessor[w])[u] == EdgeCount(g.targets, g.offsets[u], hi, w))
  }

  /** Every stacked node has had all its edges visited. */
  ghost predicate Done(g: Csr, st: Search)
    requires g.WellFormed() && Tracked(g, st)
  {
    forall j :: 0 <= j < |st.stack| ==> Scanned(g, st, st.stack[j], g.offsets[st.stack[j] + 1])
  }

  /** Inside the edge loop of the node stacked last, at entry `i`: the nodes
      below it are done, and it has visited its edges up to `i`. */
  ghost predicate Scanning(g: Csr, st: Search, i: int)
    requires g.WellFormed() && Tracked(g, st)
  {
    && st.stack != []
    && g.offsets[st.stack[|st.stack| - 1]] <= i <= g.offsets[st.stack[|st.stack| - 1] + 1]
    && (forall j :: 0 <= j < |st.stack| - 1 ==> Scanned(g, st, st.stack[j], g.offsets[st.stack[j] + 1]))
    && Scanned(g, st, st.stack[|st.stack| - 1], i)
  }

  /** The few facts of the invariant that the edge scan relies on: stacked
      nodes are reached, unreached nodes have no predecessors, nothing reached
      is more than one layer past the node stacked last, and that node is
      stacked once. */
  ghost predicate ScanReady(g: Csr, st: Search)
    requires Tracked(g, st)
  {
    && (forall j :: 0 <= j < |st.stack| ==> st.distance[st.stack[j]] >= 0)
    && (forall x :: 0 <= x < g.nodeCount && st.distance[x] < 0 ==> st.predecessor[x] == [])
    && (st.stack != [] ==> forall x :: 0 <= x < g.nodeCount && st.distance[x] >= 0 ==>
          st.distance[x] <= st.distance[st.stack[|st.stack| - 1]] + 1)
    && (st.stack != [] ==> forall j :: 0 <= j < |st.stack| - 1 ==> st.stack[j] != st.stack[|st.stack| - 1])
  }

  lemma ReadyFromInv(g: Csr, s: nat, st: Search)
    requires BfsInv(g, s, st)
    ensures ScanReady(g, st)
  {
    forall j | 0 <= j < |st.stack|
      ensures st.distance[st.stack[j]] >= 0
    {
      assert Visited(st)[j] == st.stack[j];
      assert NodeFacts(g, s, st, -1, st.stack[j]);
    }
    forall x | 0 <= x < g.nodeCount && st.distance[x] < 0
      ensures st.predecessor[x] == []
    {
      assert NodeFacts(g, s, st, -1, x);
    }
    if st.stack != [] {
      var last := |st.stack| - 1;
      StackBelow(g, st);
      forall x | 0 <= x < g.nodeCount && st.distance[x] >= 0
        ensures st.distance[x] <= st.distance[st.stack[last]] + 1
      {
        assert NodeFacts(g, s, st, -1, x);
        if x in st.queue {
          var k :| 0 <= k < |st.queue| && st.queue[k] == x;
        } else {
          var k :| 0 <= k < |st.stack| && st.stack[k] == x;
        }
      }
      forall j | 0 <= j < last
        ensures st.stack[j] != st.stack[last]
      {
        assert Visited(st)[j] == st.stack[j] && Visited(st)[last] == st.stack[last];
      }
    }
  }

  /** Visiting an edge of the node stacked last leaves what another stacked
      node has scanned as it was: reached distances stay, only the last node
      is appended to a list, and a newly reached node is the target of none
      of the edges scanned so far. */
  lemma ScannedFrame(g: Csr, v: nat, w: nat, st: Search, u: nat, hi: int)
    requires g.WellFormed() && Tracked(g, st) && ScanReady(g, st)
    requires st.stack != [] && v == st.stack[|st.stack| - 1]
    requires w < g.nodeCount && u < g.nodeCount && st.distance[u] >= 0 && u != v
    requires g.offsets[u] <= hi <= g.offsets[u + 1] && Scanned(g, st, u, hi)
    ensures Scanned(g, Visit(g, v, w, st), u, hi)
  {
    var st' := Visit(g, v, w, st);
    if st.distance[w] < 0 {
      forall k | g.offsets[u] <= k < hi
        ensures g.targets[k] != w
      {
      }
      EdgeCountAbsent(g.targets, g.offsets[u], hi, w);
      assert st.predecessor[w] == [];
    }
  }

  /** Visiting edge `i` of the node stacked last extends what it has scanned
      by that edge. */
  lemma ScannedStep(g: Csr, v: nat, st: Search, i: int)
    requires g.WellFormed() && Tracked(g, st) && ScanReady(g, st)
    requires st.stack != [] && v == st.stack[|st.stack| - 1]
    requires g.offsets[v] <= i < g.offsets[v + 1] && Scanned(g, st, v, i)
    ensures Scanned(g, Visit(g, v, g.targets[i], st), v, i + 1)
  {
    var w := g.targets[i];
    assert st.distance[v] >= 0;
    if st.distance[w] < 0 {
      forall k | g.offsets[v] <= k < i
        ensures g.targets[k] != w
      {
      }
      EdgeCountAbsent(g.targets, g.offsets[v], i, w);
      assert st.predecessor[w] == [];
    }
  }

  /** The node at the front of the queue is nobody's predecessor yet, since
      predecessors are stacked. */
  lemma FrontUnlinked(g: Csr, s: nat, st: Search)
    requires BfsInv(g, s, st) && st.queue != []
    ensures forall x :: 0 <= x < g.nodeCount ==> st.queue[0] !in st.predecessor[x]
  {
    var v := st.queue[0];
    assert v !in st.stack by {
      forall k | 0 <= k < |st.stack|
        ensures st.stack[k] != v
      {
        assert Visited(st)[k] == st.stack[k] && Visited(st)[|st.stack|] == v;
      }
    }
    forall x | 0 <= x < g.nodeCount
      ensures v !in st.predecessor[x]
    {
      assert NodeFacts(g, s, st, -1, x);
    }
  }

  /** Dequeuing, once every stacked node is done, starts the edge loop of
      the dequeued node with nothing scanned. */
  lemma DequeueScanning(g: Csr, st: Search)
    requires g.WellFormed() && Tracked(g, st) && Done(g, st) && st.queue != []
    requires forall x :: 0 <= x < g.nodeCount ==> st.queue[0] !in st.predecessor[x]
    ensures Tracked(g, Dequeue(st)) && Scanning(g, Dequeue(st), g.offsets[st.queue[0]])
  {
    var v := st.queue[0];
    var st' := Dequeue(st);
    forall x | 0 <= x < g.nodeCount
      ensures multiset(st'.predecessor[x])[v] == 0
    {
      assert v !in multiset(st.predecessor[x]);
    }
    forall j | 0 <= j < |st'.stack| - 1
      ensures Scanned(g, st', st'.stack[j], g.offsets[st'.stack[j] + 1])
    {
      assert st'.stack[j] == st.stack[j];
      assert Scanned(g, st, st.stack[j], g.offsets[st.stack[j] + 1]);
    }
  }

  /** An edge loop run to its end leaves every stacked node done. */
  lemma ScanningDone(g: Csr, st: Search)
    requires g.WellFormed() && Tracked(g, st) && st.stack != []
    requires Scanning(g, st, g.offsets[st.stack[|st.stack| - 1] + 1])
    ensures Done(g, st)
  {
  }

  /** One edge visit moves the edge loop of the node stacked last one entry
      on. */
  lemma ScanningStep(g: Csr, v: nat, i: int, st: Search)
    requires g.WellFormed() && Tracked(g, st) && ScanReady(g, st) && Scanning(g, st, i)
    requires v == st.stack[|st.stack| - 1] && i < g.offsets[v + 1]
    ensures Tracked(g, Visit(g, v, g.targets[i], st))
    ensures Scanning(g, Visit(g, v, g.targets[i], st), i + 1)
  {
    var w := g.targets[i];
    var next := Visit(g, v, w, st);
    ScannedStep(g, v, st, i);
    forall j | 0 <= j < |st.stack| - 1
      ensures Scanned(g, next, st.stack[j], g.offsets[st.stack[j] + 1])
    {
      ScannedFrame(g, v, w, st, st.stack[j], g.offsets[st.stack[j] + 1]);
    }
  }

  /** One edge visit keeps what the scan relies on: only an unreached node
      gets a distance, one layer past the node stacked last. */
  lemma VisitReady(g: Csr, v: nat, w: nat, st: Search)
    requires Tracked(g, st) && ScanReady(g, st)
    requires st.stack != [] && v == st.stack[|st.stack| - 1] && w < g.nodeCount
    ensures ScanReady(g, Visit(g, v, w, st))
  {
    assert st.distance[v] >= 0;
  }

  /** Inside the edge loop of `v`, the node stacked last, at entry `i`. */
  ghost predicate ScanAt(g: Csr, st: Search, v: nat, i: int)
  {
    && g.WellFormed() && Tracked(g, st) && ScanReady(g, st) && Scanning(g, st, i)
    && v == st.stack[|st.stack| - 1]
  }

  /** One turn of the edge loop keeps the scan going, one entry further. */
  lemma ScanAtStep(g: Csr, v: nat, i: int, st: Search)
    requires ScanAt(g, st, v, i) && i < g.offsets[v + 1]
    ensures ScanAt(g, Visit(g, v, g.targets[i], st), v, i + 1)
    ensures Relax(g, v, i, st) == Relax(g, v, i + 1, Visit(g, v, g.targets[i], st))
  {
    VisitReady(g, v, g.targets[i], st);
    ScanningStep(g, v, i, st);
  }

  /** The edge loop of the node stacked last, from entry `i` on, finishes
      its scan. */
  lemma {:induction false} RelaxScanning(g: Csr, v: nat, i: int, st: Search)
    requires ScanAt(g, st, v, i)
    ensures g.offsets[v] <= i && Done(g, Relax(g, v, i, st))
    decreases g.offsets[v + 1] - i
  {
    if i < g.offsets[v + 1] {
      ScanAtStep(g, v, i, st);
      RelaxScanning(g, v, i + 1, Visit(g, v, g.targets[i], st));
    } else {
      assert Relax(g, v, i, st) == st;
      ScanningDone(g, st);
    }
  }

  /** Every node the queue loop stacks has had its whole edge list scanned. */
  lemma {:induction false} ExploreDone(g: Csr, s: nat, st: Search)
    requires g.WellFormed() && BfsInv(g, s, st) && Done(g, st)
    ensures Done(g, Explore(g, st))
    decreases 2 * Unreached(st.distance) + |st.queue|
  {
    if st.queue != [] {
      var v := st.queue[0];
      var next := Relax(g, v, g.offsets[v], Dequeue(st));
      DequeueInv(g, s, st);
      FrontUnlinked(g, s, st);
      DequeueScanning(g, st);
      ReadyFromInv(g, s, Dequeue(st));
      RelaxScanning(g, v, g.offsets[v], Dequeue(st));
      RelaxInv(g, s, v, g.offsets[v], Dequeue(st));
      ExploreDone(g, s, next);
    }
  }

  /** The forward phase follows every edge of every reached node `v`: its
      target is reached, at most one layer farther. And every node `w` one
      layer past `v` lists `v` as its predecessor exactly as often as `w`
      occurs among `v`'s edges: no more, no less. */
  lemma ForwardSearchEdges(g: Csr, s: nat)
    requires g.WellFormed() && s < g.nodeCount
    ensures var r := ForwardSearch(g, s);
      forall v :: v in r.stack ==>
        && 0 <= v < g.nodeCount
        && (forall k :: g.offsets[v] <= k < g.offsets[v + 1] ==>
              0 <= r.distance[g.targets[k]] <= r.distance[v] + 1)
        && forall w :: 0 <= w < g.nodeCount && r.distance[w] == r.distance[v] + 1 ==>
              multiset(r.predecessor[w])[v] == EdgeCount(g.targets, g.offsets[v], g.offsets[v + 1], w)
  {
    var r := ForwardSearch(g, s);
    SeedInv(g, s);
    ExploreDone(g, s, Seed(g, s));
    forall v | v in r.stack
      ensures 0 <= v < g.nodeCount && Scanned(g, r, v, g.offsets[v + 1])
    {
      var j :| 0 <= j < |r.stack| && r.stack[j] == v;
    }
  }

  /** A node counted at least once occurs in the range. */
  lemma {:induction false} EdgeCountPositive(targets: seq<int>, lo: int, hi: int, w: int)
    requires 0 <= lo <= hi <= |targets| && EdgeCount(targets, lo, hi, w) > 0
    ensures exists k :: lo <= k < hi && targets[k] == w
    decreases hi - lo
  {
    if targets[hi - 1] != w {
      EdgeCountPositive(targets, lo, hi - 1, w);
    }
  }

  /** Every predecessor entry has an edge behind it: when the forward phase
      lists `v` as a predecessor of `w`, `w` is among `v`'s neighbours. */
  lemma PredecessorEdge(g: Csr, s: nat, v: nat, w: nat)
    requires g.WellFormed() && s < g.nodeCount && w < g.nodeCount
    requires v in ForwardSearch(g, s).predecessor[w]
    ensures v < g.nodeCount
    ensures exists k :: g.offsets[v] <= k < g.offsets[v + 1] && g.targets[k] == w
  {
    var r := ForwardSearch(g, s);
    ForwardSearchFacts(g, s);
    ForwardSearchEdges(g, s);
    assert v in r.stack && r.distance[w] == r.distance[v] + 1;
    assert multiset(r.predecessor[w])[v] > 0;
    EdgeCountPositive(g.targets, g.offsets[v], g.offsets[v + 1], w);
  }

  /** Every reached node other than the source is entered over an edge from
      a node one layer closer; `ForwardSearchEdges` bounds how far any edge
      can jump. */
  lemma ReachedOverEdge(g: Csr, s: nat, x: nat)
    requires g.WellFormed() && s < g.nodeCount && x < g.nodeCount && x != s
    requires ForwardSearch(g, s).distance[x] >= 0
    ensures exists v, k :: 0 <= v < g.nodeCount && g.offsets[v] <= k < g.offsets[v + 1] && g.targets[k] == x
                        && ForwardSearch(g, s).distance[v] + 1 == ForwardSearch(g, s).distance[x]
  {
    var r := ForwardSearch(g, s);
    ForwardSearchFacts(g, s);
    assert r.predecessor[x] != [];
    var v := r.predecessor[x][0];
    PredecessorEdge(g, s, v, x);
    var k :| g.offsets[v] <= k < g.offsets[v + 1] && g.targets[k] == x;
    assert r.distance[v] + 1 == r.distance[x];
  }

  /** What the forward phase leaves behind for source `s`: the stack holds every
      reached node exactly once, the source first, in non-decreasing distance;
      unreached nodes keep distance -1, no paths and no predecessors; every
      predecessor is a reached node one layer closer; every reached node has at
      least one shortest path, and its path count is the sum of its
      predecessors' counts. */
  lemma ForwardSearchFacts(g: Csr, s: nat)
    requires g.WellFormed() && s < g.nodeCount
    ensures var r := ForwardSearch(g, s);
      && Distinct(r.stack)
      && r.stack != [] && r.stack[0] == s
      && r.distance[s] == 0
      && (forall i, j :: 0 <= i <= j < |r.stack| ==> r.distance[r.stack[i]] <= r.distance[r.stack[j]])
      && (forall x :: 0 <= x < g.nodeCount ==> (x in r.stack <==> r.distance[x] >= 0))
      && (forall x :: 0 <= x < g.nodeCount && r.distance[x] < 0 ==>
            r.distance[x] == -1 && r.sigma[x] == 0 && r.predecessor[x] == [])
      && (forall x, p :: 0 <= x < g.nodeCount && p in r.predecessor[x] ==>
            p in r.stack && r.distance[p] + 1 == r.distance[x])
      && (forall x :: 0 <= x < g.nodeCount && r.distance[x] >= 0 ==> r.sigma[x] >= 1)
      && (forall x :: 0 <= x < g.nodeCount ==> r.sigma[x] >= 0)
      && (forall x :: 0 <= x < g.nodeCount ==>
            r.sigma[x] == (if x == s then 1 else 0) + SigmaSum(r.sigma, r.predecessor[x]))
  {
    var r := ForwardSearch(g, s);
    SeedInv(g, s);
    ExploreInv(g, s, Seed(g, s));
    assert Visited(r) == r.stack;
    forall x | 0 <= x < g.nodeCount
      ensures x in r.stack <==> r.distance[x] >= 0
      ensures r.distance[x] < 0 ==> r.distance[x] == -1 && r.sigma[x] == 0 && r.predecessor[x] == []
      ensures r.distance[x] >= 0 ==> r.sigma[x] >= 1
      ensures r.sigma[x] >= 0
      ensures r.sigma[x] == (if x == s then 1 else 0) + SigmaSum(r.sigma, r.predecessor[x])
    {
      assert NodeFacts(g, s, r, -1, x);
    }
    forall x, p | 0 <= x < g.nodeCount && p in r.predecessor[x]
      ensures p in r.stack && r.distance[p] + 1 == r.distance[x]
    {
      assert NodeFacts(g, s, r, -1, x);
    }
    forall i, j | 0 <= i <= j < |r.stack|
      ensures r.distance[r.stack[i]] <= r.distance[r.stack[j]]
    {
      assert Visited(r)[i] == r.stack[i] && Visited(r)[j] == r.stack[j];
    }
  }
}
