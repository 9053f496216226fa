/** The test-case generator's edge-list-to-CSR builder: every edge is
    appended to both endpoints' lists, the offsets are the running sums of the
    list lengths, and the targets are the lists laid end to end. The edges are
    an input here; the generator draws them at random. */
module TcGenerator {
  import opened Vectors
  import opened CsrGraph

  /** An undirected edge between nodes `x` and `y`. */
  datatype Edge = Edge(x: int, y: int)

  /** What the drawing loop guarantees of every edge it accepts: two distinct
      endpoints, both nodes. */
  predicate ValidEdges(n: nat, edges: seq<Edge>)
  {
    forall k :: 0 <= k < |edges| ==>
      0 <= edges[k].x < n && 0 <= edges[k].y < n && edges[k].x != edges[k].y
  }

  /** The endpoint lists `v[0..n]` after the edges are added in order; the
      extra list `v[n]` is allocated but never filled. */
  function Lists(n: nat, edges: seq<Edge>): (v: seq<seq<int>>)
    requires ValidEdges(n, edges)
    ensures |v| == n + 1 && v[n] == []
    decreases |edges|
  {
    if edges == [] then Fill(n + 1, [])
    else
      var e := edges[|edges| - 1];
      var v := Lists(n, edges[..|edges| - 1]);
      var v' := v[e.x := v[e.x] + [e.y]];
      v'[e.y := v'[e.y] + [e.x]]
  }

  /** The running sum of the lengths of the first `i` lists. */
  function Prefix(v: seq<seq<int>>, i: nat): nat
    requires i <= |v|
  {
    if i == 0 then 0 else Prefix(v, i - 1) + |v[i - 1]|
  }

  /** The running sums of all the lists, from 0 on: the offset line. */
  function Offsets(v: seq<seq<int>>): (r: seq<int>)
    ensures |r| == |v| + 1
    ensures forall i {:trigger r[i]} :: 0 <= i <= |v| ==> r[i] == Prefix(v, i)
    ensures r[0] == 0 && forall i :: 0 <= i < |v| ==> r[i + 1] == r[i] + |v[i]|
  {
    seq(|v| + 1, i requires 0 <= i <= |v| => Prefix(v, i))
  }

  /** The first `i` lists laid end to end. */
  function Concat(v: seq<seq<int>>, i: nat): (r: seq<int>)
    requires i <= |v|
    ensures |r| == Prefix(v, i)
  {
    if i == 0 then [] else Concat(v, i - 1) + v[i - 1]
  }

  /** The edge loop: appends each edge to both endpoints' lists. */
  method FillLists(n: nat, edges: seq<Edge>) returns (v: array<seq<int>>)
    requires ValidEdges(n, edges)
    ensures fresh(v)
    ensures v[..] == Lists(n, edges)
  {
    v := new seq<int>[n + 1](_ => []);
    assert v[..] == Fill(n + 1, []);
    for i := 0 to |edges|
      invariant v[..] == Lists(n, edges[..i])
    {
      var x := edges[i].x;
      var y := edges[i].y;
      assert edges[..i + 1][..i] == edges[..i];
      v[x] := v[x] + [y];
      v[y] := v[y] + [x];
    }
    assert edges[..|edges|] == edges;
  }

  /** The offset line: 0, then the running sum `cur` after each of the first
      `n` lists. */
  method RunningSums(v: array<seq<int>>, n: nat) returns (offsets: seq<int>)
    requires n <= v.Length
    ensures offsets == Offsets(v[..n])
  {
    offsets := [0];
    var cur := 0;
    for i := 0 to n
      invariant |offsets| == i + 1
      invariant cur == Prefix(v[..n], i)
      invariant forall k {:trigger offsets[k]} :: 0 <= k <= i ==> offsets[k] == Prefix(v[..n], k)
    {
      cur := cur + |v[i]|;
      offsets := offsets + [cur];
    }
  }

  /** The target line: the first `n` lists, each in order. */
  method Flatten(v: array<seq<int>>, n: nat) returns (targets: seq<int>)
    requires n <= v.Length
    ensures targets == Concat(v[..], n)
  {
    targets := [];
    for i := 0 to n
      invariant targets == Concat(v[..], i)
    {
      for j := 0 to |v[i]|
        invariant targets == Concat(v[..], i) + v[i][..j]
      {
        targets := targets + [v[i][j]];
      }
      assert v[i][..|v[i]|] == v[i];
    }
  }

  /** The builder: fills the endpoint lists, prints the header `n m`, the
      `n + 1` running sums starting at 0 and then every list in node order.
      Returns the edge count of the header, the offsets and the targets. */
  method BuildCsr(n: nat, edges: seq<Edge>) returns (m: nat, offsets: seq<int>, targets: seq<int>)
    requires ValidEdges(n, edges)
    ensures m == |edges|
    ensures Csr(n, offsets, targets).WellFormed() && |targets| == 2 * m && offsets[n] == 2 * m
    ensures forall i :: 0 <= i < n ==> targets[offsets[i]..offsets[i + 1]] == Lists(n, edges)[i]
  {
    m := |edges|;
    var v := FillLists(n, edges);
    offsets := RunningSums(v, n);
    targets := Flatten(v, n);
    BuildCsrWellFormed(n, edges);
  }

  /** The running sums and the concatenation of the first `i` lists do not
      depend on the lists after them. */
  lemma {:induction false} PrefixOfPrefix(v: seq<seq<int>>, k: nat, i: nat)
    requires i <= k <= |v|
    ensures Prefix(v[..k], i) == Prefix(v, i)
    ensures Concat(v[..k], i) == Concat(v, i)
    decreases i
  {
    if i > 0 {
      PrefixOfPrefix(v, k, i - 1);
    }
  }

  /** Running sums never decrease. */
  lemma {:induction false} PrefixMonotone(v: seq<seq<int>>, i: nat, j: nat)
    requires i <= j <= |v|
    ensures Prefix(v, i) <= Prefix(v, j)
    decreases j
  {
    if i < j {
      PrefixMonotone(v, i, j - 1);
    }
  }

  /** Node `i`'s list occupies exactly `[Prefix(v, i), Prefix(v, i + 1))` of
      the concatenation of any longer prefix of lists. */
  lemma {:induction false} ConcatSlice(v: seq<seq<int>>, i: nat, k: nat)
    requires i < k <= |v|
    ensures Prefix(v, i) <= Prefix(v, i + 1) <= Prefix(v, k)
    ensures Concat(v, k)[Prefix(v, i)..Prefix(v, i + 1)] == v[i]
    decreases k
  {
    PrefixMonotone(v, i + 1, k);
    if k == i + 1 {
      assert Concat(v, k) == Concat(v, i) + v[i];
    } else {
      ConcatSlice(v, i, k - 1);
      PrefixMonotone(v, i + 1, k - 1);
      assert Concat(v, k) == Concat(v, k - 1) + v[k - 1];
    }
  }

  /** Every entry of the concatenation comes from one of the lists. */
  lemma {:induction false} ConcatFrom(v: seq<seq<int>>, k: nat, j: nat)
    requires k <= |v| && j < |Concat(v, k)|
    ensures exists i :: 0 <= i < k && Concat(v, k)[j] in v[i]
    decreases k
  {
    if j < |Concat(v, k - 1)| {
      ConcatFrom(v, k - 1, j);
      var i :| 0 <= i < k - 1 && Concat(v, k - 1)[j] in v[i];
      assert Concat(v, k)[j] == Concat(v, k - 1)[j];
    } else {
      assert Concat(v, k)[j] == v[k - 1][j - |Concat(v, k - 1)|];
    }
  }

  /** Node `a`'s list holds only nodes other than `a`; the extra list stays
      empty. */
  lemma {:induction false} ListsInRange(n: nat, edges: seq<Edge>)
    requires ValidEdges(n, edges)
    ensures Lists(n, edges)[n] == []
    ensures forall a, b :: 0 <= a < n && b in Lists(n, edges)[a] ==> 0 <= b < n && b != a
    decreases |edges|
  {
    if edges != [] {
      var init := edges[..|edges| - 1];
      assert ValidEdges(n, init) by {
        forall k | 0 <= k < |init|
          ensures init[k] == edges[k]
        {
        }
      }
      ListsInRange(n, init);
    }
  }

  /** The adjacency is symmetric, duplicates included: `y` occurs in `x`'s
      list exactly as often as `x` occurs in `y`'s. */
  lemma {:induction false} ListsSymmetric(n: nat, edges: seq<Edge>)
    requires ValidEdges(n, edges)
    ensures forall a, b :: 0 <= a < n && 0 <= b < n ==>
      multiset(Lists(n, edges)[a])[b] == multiset(Lists(n, edges)[b])[a]
    decreases |edges|
  {
    if edges != [] {
      var init := edges[..|edges| - 1];
      var e := edges[|edges| - 1];
      assert ValidEdges(n, init) by {
        forall k | 0 <= k < |init|
          ensures init[k] == edges[k]
        {
        }
      }
      ListsSymmetric(n, init);
      var v := Lists(n, init);
      var v' := Lists(n, edges);
      forall a, b | 0 <= a < n && 0 <= b < n
        ensures multiset(v'[a])[b] == multiset(v'[b])[a]
      {
        assert multiset(v'[a])[b] == multiset(v[a])[b]
          + (if a == e.x && b == e.y then 1 else 0) + (if a == e.y && b == e.x then 1 else 0);
        assert multiset(v'[b])[a] == multiset(v[b])[a]
          + (if b == e.x && a == e.y then 1 else 0) + (if b == e.y && a == e.x then 1 else 0);
      }
    }
  }

  /** Each edge adds one entry to each of two lists: the lists of the `n`
      nodes hold `2 * m` entries together. */
  lemma {:induction false} ListsTotal(n: nat, edges: seq<Edge>)
    requires ValidEdges(n, edges)
    ensures Prefix(Lists(n, edges), n) == 2 * |edges|
    decreases |edges|
  {
    if edges == [] {
      PrefixOfEmpty(Fill(n + 1, []), n);
    } else {
      var init := edges[..|edges| - 1];
      var e := edges[|edges| - 1];
      assert ValidEdges(n, init) by {
        forall k | 0 <= k < |init|
          ensures init[k] == edges[k]
        {
        }
      }
      ListsTotal(n, init);
      var v := Lists(n, init);
      var v' := v[e.x := v[e.x] + [e.y]];
      PrefixGrows(v, n, e.x, [e.y]);
      PrefixGrows(v', n, e.y, [e.x]);
    }
  }

  lemma {:induction false} PrefixOfEmpty(v: seq<seq<int>>, i: nat)
    requires i <= |v| && forall k :: 0 <= k < |v| ==> v[k] == []
    ensures Prefix(v, i) == 0
  {
    if i > 0 {
      PrefixOfEmpty(v, i - 1);
    }
  }

  /** Appending to a list counted by a running sum adds its length there. */
  lemma {:induction false} PrefixGrows(v: seq<seq<int>>, i: nat, a: nat, extra: seq<int>)
    requires i <= |v| && a < |v|
    ensures Prefix(v[a := v[a] + extra], i) == Prefix(v, i) + (if a < i then |extra| else 0)
  {
    if i > 0 {
      PrefixGrows(v, i - 1, a, extra);
    }
  }

  /** Longer targets keep a CSR graph well formed: entries past the last
      offset are never read. */
  lemma ExtendTargets(c: Csr, more: seq<int>)
    requires c.WellFormed()
    ensures Csr(c.nodeCount, c.offsets, c.targets + more).WellFormed()
  {
    var d := Csr(c.nodeCount, c.offsets, c.targets + more);
    forall k | d.offsets[0] <= k < d.offsets[d.nodeCount]
      ensures 0 <= d.targets[k] < d.nodeCount
    {
      assert d.targets[k] == c.targets[k];
    }
  }

  /** The output is a CSR graph with `n` nodes and `m` edges: the offsets
      start at 0, never decrease and end at `2 * m`, every target is a node,
      and node `i`'s targets are exactly its list. */
  lemma BuildCsrWellFormed(n: nat, edges: seq<Edge>)
    requires ValidEdges(n, edges)
    ensures Csr(n, Offsets(Lists(n, edges)[..n]), Concat(Lists(n, edges), n)).WellFormed()
    ensures Offsets(Lists(n, edges)[..n])[0] == 0
    ensures Offsets(Lists(n, edges)[..n])[n] == 2 * |edges| == |Concat(Lists(n, edges), n)|
    ensures forall i :: 0 <= i < n ==>
      Concat(Lists(n, edges), n)[Offsets(Lists(n, edges)[..n])[i]..Offsets(Lists(n, edges)[..n])[i + 1]]
      == Lists(n, edges)[i]
  {
    var v := Lists(n, edges);
    var offsets := Offsets(v[..n]);
    var targets := Concat(v, n);
    forall i | 0 <= i <= n
      ensures offsets[i] == Prefix(v, i)
    {
      PrefixOfPrefix(v, n, i);
    }
    ListsTotal(n, edges);
    ListsInRange(n, edges);
    forall i, j | 0 <= i <= j <= n
      ensures offsets[i] <= offsets[j]
    {
      PrefixMonotone(v, i, j);
    }
    forall k | 0 <= k < |targets|
      ensures 0 <= targets[k] < n
    {
      ConcatFrom(v, n, k);
    }
    forall i | 0 <= i < n
      ensures targets[offsets[i]..offsets[i + 1]] == v[i]
    {
      ConcatSlice(v, i, n);
    }
  }

  /** A graph read from a well-formed offset line and `2 * m` targets is
      well formed: the slot after the targets is never read. */
  lemma ReadWellFormed(graph: Graph, c: Csr)
    requires graph.Valid() && c.WellFormed()
    requires graph.nodeCount == c.nodeCount && |c.targets| == 2 * graph.edgeCount
    requires graph.adjacencyListPointers[..] == c.offsets
    requires graph.adjacencyList[..2 * graph.edgeCount] == c.targets
    requires c.offsets[c.nodeCount] <= 2 * graph.edgeCount
    ensures graph.WellFormed()
  {
    var full := graph.adjacencyList[..];
    assert full == c.targets + full[2 * graph.edgeCount..];
    ExtendTargets(c, full[2 * graph.edgeCount..]);
    assert graph.View() == Csr(c.nodeCount, c.offsets, c.targets + full[2 * graph.edgeCount..]);
  }

  /** The generator's output read back by the graph loader: a well-formed
      graph with `n` nodes and `m` edges whose adjacency is the endpoint
      lists. */
  method Load(n: nat, edges: seq<Edge>) returns (graph: Graph)
    requires ValidEdges(n, edges)
    ensures fresh(graph) && graph.WellFormed()
    ensures graph.nodeCount == n && graph.edgeCount == |edges|
    ensures forall i :: 0 <= i < n ==>
      graph.adjacencyList[graph.adjacencyListPointers[i]..graph.adjacencyListPointers[i + 1]] == Lists(n, edges)[i]
  {
    var m, offsets, targets := BuildCsr(n, edges);
    ghost var v := Lists(n, edges);
    ghost var c := Csr(n, offsets, targets);
    assert c.WellFormed() && |targets| == 2 * m && offsets[n] == 2 * m;
    assert forall i :: 0 <= i < n ==> targets[offsets[i]..offsets[i + 1]] == v[i];
    graph := new Graph(n, m, offsets, targets);
    ReadWellFormed(graph, c);
    ghost var full := graph.adjacencyList[..];
    forall i | 0 <= i < n
      ensures graph.adjacencyList[graph.adjacencyListPointers[i]..graph.adjacencyListPointers[i + 1]] == v[i]
    {
      var lo, hi := offsets[i], offsets[i + 1];
      assert graph.adjacencyListPointers[i] == lo && graph.adjacencyListPointers[i + 1] == hi;
      assert lo <= hi <= 2 * m by {
        assert c.WellFormed();
      }
      SliceOfPrefix(full, targets, lo, hi);
      assert targets[lo..hi] == v[i];
    }
  }

  lemma SliceOfPrefix(full: seq<int>, prefix: seq<int>, lo: int, hi: int)
    requires |prefix| <= |full| && full[..|prefix|] == prefix && 0 <= lo <= hi <= |prefix|
    ensures full[lo..hi] == prefix[lo..hi]
  {
    assert forall k :: lo <= k < hi ==> full[k] == full[..|prefix|][k];
  }
}
