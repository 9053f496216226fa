/** The backward phase of Brandes' algorithm as functions: nodes are popped
    from the stack left by the forward phase, each one credits its
    predecessors with a share of its dependency, and then adds half of its
    own dependency to its centrality unless it is the source. The imperative
    phase in SourcePass is proved to compute exactly `Drain`. */
module Dependency {
  import opened Vectors
  import opened CsrGraph
  import opened BfsModel
  import opened BfsFacts

  /** The two real vectors the backward phase updates. */
  datatype Sweep = Sweep(dependency: seq<real>, bc: seq<real>)

  /** What the backward phase needs of its inputs: vectors of one length `n`
      and only nodes in the stack and in the predecessor lists. */
  ghost predicate Shaped(stack: seq<int>, sigma: seq<int>, pred: seq<seq<int>>, sw: Sweep)
  {
    && |pred| == |sigma|
    && |sw.dependency| == |sigma|
    && |sw.bc| == |sigma|
    && InRange(stack, |sigma|)
    && forall x :: 0 <= x < |sigma| ==> InRange(pred[x], |sigma|)
  }

  /** The share a predecessor with `sigmaV` paths receives from a node with
      `sigmaW` paths and dependency `depW`: never negative for non-negative
      inputs, and positive when both have paths and `depW` is not negative. */
  function Share(sigmaV: int, sigmaW: int, depW: real): (r: real)
    requires sigmaW != 0
    ensures sigmaV >= 0 && sigmaW > 0 && depW >= 0.0 ==> r >= 0.0
    ensures sigmaV > 0 && sigmaW > 0 && depW >= 0.0 ==> r > 0.0
  {
    var q := sigmaV as real / sigmaW as real;
    assert sigmaV >= 0 && sigmaW > 0 ==> q >= 0.0;
    assert sigmaV > 0 && sigmaW > 0 ==> q > 0.0;
    assert q >= 0.0 && depW >= 0.0 ==> q * (1.0 + depW) >= 0.0;
    assert q > 0.0 && depW >= 0.0 ==> q * (1.0 + depW) > 0.0;
    q * (1.0 + depW)
  }

  /** The predecessor loop of popped node `w`: every `v` in `ps`, in order,
      receives its share when `w` has paths at all. The dependency of `w` is
      read afresh on every step, as the loop does. Only the listed nodes
      change. */
  function Credit(w: nat, ps: seq<int>, sigma: seq<int>, dep: seq<real>): (r: seq<real>)
    requires w < |dep| && |sigma| == |dep| && InRange(ps, |dep|)
    ensures |r| == |dep|
    decreases |ps|
  {
    if ps == [] then dep
    else
      var v := ps[0];
      var dep' := if sigma[w] != 0 then dep[v := dep[v] + Share(sigma[v], sigma[w], dep[w])] else dep;
      Credit(w, ps[1..], sigma, dep')
  }

  /** A node not in the list keeps its dependency. */
  lemma {:induction false} CreditKeeps(w: nat, ps: seq<int>, sigma: seq<int>, dep: seq<real>, x: nat)
    requires w < |dep| && |sigma| == |dep| && InRange(ps, |dep|) && x < |dep| && x !in ps
    ensures Credit(w, ps, sigma, dep)[x] == dep[x]
    decreases |ps|
  {
    if ps != [] {
      var v := ps[0];
      var dep' := if sigma[w] != 0 then dep[v := dep[v] + Share(sigma[v], sigma[w], dep[w])] else dep;
      assert x !in ps[1..] && x != v;
      CreditKeeps(w, ps[1..], sigma, dep', x);
    }
  }

  /** The stack loop, popping from the end of `stack`. */
  function Drain(s: nat, stack: seq<int>, sigma: seq<int>, pred: seq<seq<int>>, sw: Sweep): (r: Sweep)
    requires Shaped(stack, sigma, pred, sw)
    ensures |r.dependency| == |sigma| && |r.bc| == |sigma|
    decreases |stack|
  {
    if stack == [] then sw
    else
      var w := stack[|stack| - 1];
      var dep := Credit(w, pred[w], sigma, sw.dependency);
      var bc := if w != s then sw.bc[w := sw.bc[w] + dep[w] / 2.0] else sw.bc;
      Drain(s, stack[..|stack| - 1], sigma, pred, Sweep(dep, bc))
  }

  /** A node never popped keeps its centrality, the source keeps its
      centrality, and a node that is no popped node's predecessor keeps its
      dependency. */
  lemma {:induction false} DrainKeeps(s: nat, stack: seq<int>, sigma: seq<int>, pred: seq<seq<int>>, sw: Sweep, x: nat)
    requires Shaped(stack, sigma, pred, sw) && x < |sigma|
    ensures x !in stack ==> Drain(s, stack, sigma, pred, sw).bc[x] == sw.bc[x]
    ensures x == s ==> Drain(s, stack, sigma, pred, sw).bc[x] == sw.bc[x]
    ensures (forall y :: y in stack ==> x !in pred[y]) ==>
      Drain(s, stack, sigma, pred, sw).dependency[x] == sw.dependency[x]
    decreases |stack|
  {
    if stack != [] {
      var w := stack[|stack| - 1];
      var rest := stack[..|stack| - 1];
      var dep := Credit(w, pred[w], sigma, sw.dependency);
      var bc := if w != s then sw.bc[w := sw.bc[w] + dep[w] / 2.0] else sw.bc;
      assert forall y :: y in rest ==> y in stack;
      if forall y :: y in stack ==> x !in pred[y] {
        CreditKeeps(w, pred[w], sigma, sw.dependency, x);
      }
      DrainKeeps(s, rest, sigma, pred, Sweep(dep, bc), x);
    }
  }

  /** Every predecessor of a stacked node sits below it on the stack, so it
      is popped after it. */
  ghost predicate PopOrder(stack: seq<int>, pred: seq<seq<int>>)
  {
    forall i, j :: 0 <= i < |stack| && 0 <= j < |stack| && 0 <= stack[j] < |pred| && stack[i] in pred[stack[j]] ==> i < j
  }

  /** Popping the top of a stack without repeats in pop order leaves such a
      stack, in which the popped node neither occurs nor is a predecessor. */
  lemma PopTop(stack: seq<int>, pred: seq<seq<int>>)
    requires stack != [] && InRange(stack, |pred|) && Distinct(stack) && PopOrder(stack, pred)
    ensures Distinct(stack[..|stack| - 1]) && PopOrder(stack[..|stack| - 1], pred)
    ensures stack[|stack| - 1] !in stack[..|stack| - 1]
    ensures forall y :: y in stack[..|stack| - 1] ==> stack[|stack| - 1] !in pred[y]
  {
    var last := |stack| - 1;
    var rest := stack[..last];
    forall i, j | 0 <= i < |rest| && 0 <= j < |rest|
      ensures rest[i] == stack[i] && rest[j] == stack[j]
    {
    }
    forall k | 0 <= k < |rest|
      ensures rest[k] != stack[last]
    {
      assert rest[k] == stack[k];
    }
    forall y | y in rest
      ensures stack[last] !in pred[y]
    {
      var j :| 0 <= j < |rest| && rest[j] == y;
      assert stack[j] == y;
    }
  }

  /** When every predecessor is popped after its successors and no node is
      stacked twice, a node's dependency is complete when it is popped, so
      its centrality grows by exactly half its final dependency. */
  lemma {:induction false} DrainHalves(s: nat, stack: seq<int>, sigma: seq<int>, pred: seq<seq<int>>, sw: Sweep, w: nat)
    requires Shaped(stack, sigma, pred, sw) && Distinct(stack) && PopOrder(stack, pred)
    requires w in stack && w != s
    ensures w < |sigma|
    ensures Drain(s, stack, sigma, pred, sw).bc[w]
         == sw.bc[w] + Drain(s, stack, sigma, pred, sw).dependency[w] / 2.0
    decreases |stack|
  {
    var last := |stack| - 1;
    var top := stack[last];
    var rest := stack[..last];
    var dep := Credit(top, pred[top], sigma, sw.dependency);
    var bc := if top != s then sw.bc[top := sw.bc[top] + dep[top] / 2.0] else sw.bc;
    var next := Sweep(dep, bc);
    assert Drain(s, stack, sigma, pred, sw) == Drain(s, rest, sigma, pred, next);
    PopTop(stack, pred);
    if w == top {
      assert stack[last] !in pred[stack[last]];
      CreditKeeps(w, pred[w], sigma, sw.dependency, w);
      DrainKeeps(s, rest, sigma, pred, next, w);
    } else {
      assert w in rest by {
        var k :| 0 <= k < |stack| && stack[k] == w;
        assert k < last && rest[k] == w;
      }
      DrainHalves(s, rest, sigma, pred, next, w);
    }
  }

  /** Starting from `bc + extra` gives the result plus `extra`, whatever the
      sign of `extra`, and changes no dependency. */
  lemma {:induction false} DrainShift(s: nat, stack: seq<int>, sigma: seq<int>, pred: seq<seq<int>>, sw: Sweep, extra: seq<real>)
    requires Shaped(stack, sigma, pred, sw) && |extra| == |sigma|
    ensures Drain(s, stack, sigma, pred, Sweep(sw.dependency, Add(sw.bc, extra)))
         == Sweep(Drain(s, stack, sigma, pred, sw).dependency, Add(Drain(s, stack, sigma, pred, sw).bc, extra))
    decreases |stack|
  {
    if stack != [] {
      var w := stack[|stack| - 1];
      var rest := stack[..|stack| - 1];
      var dep := Credit(w, pred[w], sigma, sw.dependency);
      var bc := if w != s then sw.bc[w := sw.bc[w] + dep[w] / 2.0] else sw.bc;
      var bc' := if w != s then Add(sw.bc, extra)[w := Add(sw.bc, extra)[w] + dep[w] / 2.0] else Add(sw.bc, extra);
      assert bc' == Add(bc, extra);
      DrainShift(s, rest, sigma, pred, Sweep(dep, bc), extra);
    }
  }

  /** With no negative path count, crediting keeps dependencies non-negative. */
  lemma {:induction false} CreditNonNegative(w: nat, ps: seq<int>, sigma: seq<int>, dep: seq<real>)
    requires w < |dep| && |sigma| == |dep| && InRange(ps, |dep|)
    requires forall x :: 0 <= x < |sigma| ==> sigma[x] >= 0
    requires NonNegative(dep)
    ensures NonNegative(Credit(w, ps, sigma, dep))
    decreases |ps|
  {
    if ps != [] {
      var v := ps[0];
      var dep' := if sigma[w] != 0 then dep[v := dep[v] + Share(sigma[v], sigma[w], dep[w])] else dep;
      assert NonNegative(dep');
      assert InRange(ps[1..], |dep|);
      CreditNonNegative(w, ps[1..], sigma, dep');
      assert Credit(w, ps, sigma, dep) == Credit(w, ps[1..], sigma, dep');
    }
  }

  /** With no negative path count, the backward phase keeps every dependency
      and every centrality non-negative. */
  lemma {:induction false} DrainNonNegative(s: nat, stack: seq<int>, sigma: seq<int>, pred: seq<seq<int>>, sw: Sweep)
    requires Shaped(stack, sigma, pred, sw)
    requires forall x :: 0 <= x < |sigma| ==> sigma[x] >= 0
    requires NonNegative(sw.dependency) && NonNegative(sw.bc)
    ensures NonNegative(Drain(s, stack, sigma, pred, sw).dependency)
    ensures NonNegative(Drain(s, stack, sigma, pred, sw).bc)
    decreases |stack|
  {
    if stack != [] {
      var w := stack[|stack| - 1];
      var dep := Credit(w, pred[w], sigma, sw.dependency);
      CreditNonNegative(w, pred[w], sigma, sw.dependency);
      var bc := if w != s then sw.bc[w := sw.bc[w] + dep[w] / 2.0] else sw.bc;
      DrainNonNegative(s, stack[..|stack| - 1], sigma, pred, Sweep(dep, bc));
    }
  }

  /** The backward phase of source `s` from zero dependencies and zero
      centralities, over what the forward phase left. */
  function Backward(g: Csr, s: nat): (r: Sweep)
    requires g.WellFormed() && s < g.nodeCount
    ensures |r.dependency| == g.nodeCount && |r.bc| == g.nodeCount
  {
    var f := ForwardSearch(g, s);
    Drain(s, f.stack, f.sigma, f.predecessor, Sweep(Fill(g.nodeCount, 0.0), Fill(g.nodeCount, 0.0)))
  }

  /** What source `s` adds to the centrality of every node. */
  function Contribution(g: Csr, s: nat): (r: seq<real>)
    requires g.WellFormed() && s < g.nodeCount
    ensures |r| == g.nodeCount
  {
    Backward(g, s).bc
  }

  /** The stack left by the forward phase is popped in an order the backward
      phase can rely on. */
  lemma StackPopOrder(g: Csr, s: nat)
    requires g.WellFormed() && s < g.nodeCount
    ensures Distinct(ForwardSearch(g, s).stack)
    ensures PopOrder(ForwardSearch(g, s).stack, ForwardSearch(g, s).predecessor)
  {
    var f := ForwardSearch(g, s);
    ForwardSearchFacts(g, s);
    forall i, j | 0 <= i < |f.stack| && 0 <= j < |f.stack| && 0 <= f.stack[j] < |f.predecessor| && f.stack[i] in f.predecessor[f.stack[j]]
      ensures i < j
    {
      assert f.distance[f.stack[i]] < f.distance[f.stack[j]];
    }
  }

  /** The shares popped node `w` owes `v` for the list `ps`: one
      `sigma[v] / sigma[w] * (1 + dep[w])` per occurrence of `v` in `ps`, and
      nothing when `w` has no paths, as in `Credit`. */
  function Listed(v: nat, w: nat, ps: seq<int>, sigma: seq<int>, dep: seq<real>): real
    requires v < |sigma| && w < |sigma| && |dep| == |sigma|
    decreases |ps|
  {
    if ps == [] then 0.0
    else
      var share := if ps[0] == v && sigma[w] != 0 then Share(sigma[v], sigma[w], dep[w]) else 0.0;
      share + Listed(v, w, ps[1..], sigma, dep)
  }

  /** What the nodes of `stack` owe `v` under the dependencies `dep`: the
      shares of every stacked node whose predecessor list holds `v`. */
  function Owed(v: nat, stack: seq<int>, sigma: seq<int>, pred: seq<seq<int>>, dep: seq<real>): real
    requires v < |sigma| && |pred| == |sigma| && |dep| == |sigma| && InRange(stack, |sigma|)
    decreases |stack|
  {
    if stack == [] then 0.0
    else
      var w := stack[|stack| - 1];
      Owed(v, stack[..|stack| - 1], sigma, pred, dep) + Listed(v, w, pred[w], sigma, dep)
  }

  /** When `w` is not its own predecessor, the predecessor loop adds to
      every node exactly the shares listed for it. */
  lemma {:induction false} CreditAdds(w: nat, ps: seq<int>, sigma: seq<int>, dep: seq<real>, v: nat)
    requires w < |dep| && |sigma| == |dep| && InRange(ps, |dep|) && v < |dep| && w !in ps
    ensures Credit(w, ps, sigma, dep)[v] == dep[v] + Listed(v, w, ps, sigma, dep)
    decreases |ps|
  {
    if ps != [] {
      var p := ps[0];
      var dep' := if sigma[w] != 0 then dep[p := dep[p] + Share(sigma[p], sigma[w], dep[w])] else dep;
      assert w !in ps[1..] && p != w;
      assert dep'[w] == dep[w];
      CreditAdds(w, ps[1..], sigma, dep', v);
      assert Listed(v, w, ps[1..], sigma, dep') == Listed(v, w, ps[1..], sigma, dep) by {
        ListedFrame(v, w, ps[1..], sigma, dep, dep');
      }
    }
  }

  /** The shares depend on the dependency of `w` only. */
  lemma {:induction false} ListedFrame(v: nat, w: nat, ps: seq<int>, sigma: seq<int>, dep: seq<real>, dep': seq<real>)
    requires v < |sigma| && w < |sigma| && |dep| == |sigma| && |dep'| == |sigma| && dep[w] == dep'[w]
    ensures Listed(v, w, ps, sigma, dep) == Listed(v, w, ps, sigma, dep')
    decreases |ps|
  {
    if ps != [] {
      ListedFrame(v, w, ps[1..], sigma, dep, dep');
    }
  }

  /** Brandes' recurrence, for any stack popped in order: every node ends
      with its starting dependency plus what the stacked nodes owe it under
      the final dependencies. */
  lemma {:induction false} DrainRecurrence(s: nat, stack: seq<int>, sigma: seq<int>, pred: seq<seq<int>>, sw: Sweep, v: nat)
    requires Shaped(stack, sigma, pred, sw) && Distinct(stack) && PopOrder(stack, pred) && v < |sigma|
    ensures Drain(s, stack, sigma, pred, sw).dependency[v]
         == sw.dependency[v] + Owed(v, stack, sigma, pred, Drain(s, stack, sigma, pred, sw).dependency)
    decreases |stack|
  {
    if stack != [] {
      var last := |stack| - 1;
      var top := stack[last];
      var rest := stack[..last];
      var dep := Credit(top, pred[top], sigma, sw.dependency);
      var bc := if top != s then sw.bc[top := sw.bc[top] + dep[top] / 2.0] else sw.bc;
      var next := Sweep(dep, bc);
      var final := Drain(s, rest, sigma, pred, next).dependency;
      assert Drain(s, stack, sigma, pred, sw).dependency == final;
      PopTop(stack, pred);
      assert top !in pred[top] by {
        assert stack[last] !in pred[stack[last]];
      }
      CreditAdds(top, pred[top], sigma, sw.dependency, v);
      CreditKeeps(top, pred[top], sigma, sw.dependency, top);
      DrainKeeps(s, rest, sigma, pred, next, top);
      assert final[top] == sw.dependency[top];
      ListedFrame(v, top, pred[top], sigma, sw.dependency, final);
      DrainRecurrence(s, rest, sigma, pred, next, v);
    }
  }

  /** The dependency of every node on source `s` is what the nodes reached
      from `s` owe it: the sum, over each listing of `v` as a predecessor of
      a reached node `w`, of `sigma[v] / sigma[w] * (1 + dependency[w])`.
      Every reached node has a path, so no share is skipped. */
  lemma BackwardRecurrence(g: Csr, s: nat)
    requires g.WellFormed() && s < g.nodeCount
    ensures var f := ForwardSearch(g, s);
      && (forall w :: w in f.stack ==> 0 <= w < g.nodeCount && f.sigma[w] >= 1)
      && forall v :: 0 <= v < g.nodeCount ==>
        Backward(g, s).dependency[v] == Owed(v, f.stack, f.sigma, f.predecessor, Backward(g, s).dependency)
  {
    var f := ForwardSearch(g, s);
    var zero := Sweep(Fill(g.nodeCount, 0.0), Fill(g.nodeCount, 0.0));
    ForwardSearchFacts(g, s);
    StackPopOrder(g, s);
    forall v | 0 <= v < g.nodeCount
      ensures Backward(g, s).dependency[v] == Owed(v, f.stack, f.sigma, f.predecessor, Backward(g, s).dependency)
    {
      DrainRecurrence(s, f.stack, f.sigma, f.predecessor, zero, v);
    }
  }

  lemma {:induction false} ListedNonNegative(v: nat, w: nat, ps: seq<int>, sigma: seq<int>, dep: seq<real>)
    requires v < |sigma| && w < |sigma| && |dep| == |sigma|
    requires sigma[v] >= 0 && sigma[w] >= 0 && dep[w] >= 0.0
    ensures Listed(v, w, ps, sigma, dep) >= 0.0
    decreases |ps|
  {
    if ps != [] {
      ListedNonNegative(v, w, ps[1..], sigma, dep);
    }
  }

  /** A node listed at least once is owed a positive amount when both ends
      have paths. */
  lemma {:induction false} ListedPositive(v: nat, w: nat, ps: seq<int>, sigma: seq<int>, dep: seq<real>)
    requires v < |sigma| && w < |sigma| && |dep| == |sigma|
    requires sigma[v] > 0 && sigma[w] > 0 && dep[w] >= 0.0 && v in ps
    ensures Listed(v, w, ps, sigma, dep) > 0.0
    decreases |ps|
  {
    ListedNonNegative(v, w, ps[1..], sigma, dep);
    if ps[0] != v {
      ListedPositive(v, w, ps[1..], sigma, dep);
    }
  }

  lemma {:induction false} OwedNonNegative(v: nat, stack: seq<int>, sigma: seq<int>, pred: seq<seq<int>>, dep: seq<real>)
    requires v < |sigma| && |pred| == |sigma| && |dep| == |sigma| && InRange(stack, |sigma|)
    requires forall x :: 0 <= x < |sigma| ==> sigma[x] >= 0
    requires NonNegative(dep)
    ensures Owed(v, stack, sigma, pred, dep) >= 0.0
    decreases |stack|
  {
    if stack != [] {
      var top := stack[|stack| - 1];
      ListedNonNegative(v, top, pred[top], sigma, dep);
      OwedNonNegative(v, stack[..|stack| - 1], sigma, pred, dep);
    }
  }

  /** A node listed as a predecessor of a stacked node is owed a positive
      amount, when path counts are positive and no dependency is negative. */
  lemma {:induction false} OwedPositive(v: nat, stack: seq<int>, sigma: seq<int>, pred: seq<seq<int>>, dep: seq<real>, w: nat)
    requires v < |sigma| && |pred| == |sigma| && |dep| == |sigma| && InRange(stack, |sigma|)
    requires forall x :: 0 <= x < |sigma| ==> sigma[x] >= 0
    requires NonNegative(dep) && w in stack && sigma[w] > 0 && sigma[v] > 0 && v in pred[w]
    ensures Owed(v, stack, sigma, pred, dep) > 0.0
    decreases |stack|
  {
    var last := |stack| - 1;
    var top := stack[last];
    var rest := stack[..last];
    ListedNonNegative(v, top, pred[top], sigma, dep);
    if w == top {
      ListedPositive(v, w, pred[w], sigma, dep);
      OwedNonNegative(v, rest, sigma, pred, dep);
    } else {
      assert w in rest by {
        var k :| 0 <= k < |stack| && stack[k] == w;
        assert k < last && rest[k] == w;
      }
      OwedPositive(v, rest, sigma, pred, dep, w);
    }
  }

  /** A node that lies on a shortest path from the source, as the
      predecessor of some node, depends positively on the source. */
  lemma DependencyPositive(g: Csr, s: nat, v: nat, w: nat)
    requires g.WellFormed() && s < g.nodeCount && v < g.nodeCount && w < g.nodeCount
    requires v in ForwardSearch(g, s).predecessor[w]
    ensures Backward(g, s).dependency[v] > 0.0
  {
    var f := ForwardSearch(g, s);
    var dep := Backward(g, s).dependency;
    ForwardSearchFacts(g, s);
    assert f.distance[w] >= 0;
    assert v in f.stack && w in f.stack && f.sigma[v] >= 1 && f.sigma[w] >= 1;
    ContributionNonNegative(g, s);
    BackwardRecurrence(g, s);
    OwedPositive(v, f.stack, f.sigma, f.predecessor, dep, w);
  }

  /** The source gains nothing from its own pass, and every other node gains
      half of its dependency on the source. */
  lemma ContributionHalves(g: Csr, s: nat)
    requires g.WellFormed() && s < g.nodeCount
    ensures Contribution(g, s)[s] == 0.0
    ensures forall x :: 0 <= x < g.nodeCount && x != s ==>
      Contribution(g, s)[x] == Backward(g, s).dependency[x] / 2.0
  {
    var f := ForwardSearch(g, s);
    var zero := Sweep(Fill(g.nodeCount, 0.0), Fill(g.nodeCount, 0.0));
    ForwardSearchFacts(g, s);
    StackPopOrder(g, s);
    forall x | 0 <= x < g.nodeCount && x != s
      ensures Contribution(g, s)[x] == Backward(g, s).dependency[x] / 2.0
    {
      if x in f.stack {
        DrainHalves(s, f.stack, f.sigma, f.predecessor, zero, x);
      } else {
        // An unreached node is nobody's predecessor: predecessors are stacked.
        forall y | y in f.stack
          ensures x !in f.predecessor[y]
        {
        }
        DrainKeeps(s, f.stack, f.sigma, f.predecessor, zero, x);
      }
    }
    DrainKeeps(s, f.stack, f.sigma, f.predecessor, zero, s);
  }

  /** Nodes the source does not reach gain nothing from its pass. */
  lemma ContributionUnreached(g: Csr, s: nat)
    requires g.WellFormed() && s < g.nodeCount
    ensures forall x :: 0 <= x < g.nodeCount && ForwardSearch(g, s).distance[x] == -1 ==>
      Contribution(g, s)[x] == 0.0
  {
    var f := ForwardSearch(g, s);
    ForwardSearchFacts(g, s);
    forall x | 0 <= x < g.nodeCount && f.distance[x] == -1
      ensures Contribution(g, s)[x] == 0.0
    {
      DrainKeeps(s, f.stack, f.sigma, f.predecessor, Sweep(Fill(g.nodeCount, 0.0), Fill(g.nodeCount, 0.0)), x);
    }
  }

  /** In exact arithmetic no dependency and no centrality gain is negative. */
  lemma ContributionNonNegative(g: Csr, s: nat)
    requires g.WellFormed() && s < g.nodeCount
    ensures NonNegative(Backward(g, s).dependency)
    ensures NonNegative(Contribution(g, s))
  {
    var f := ForwardSearch(g, s);
    ForwardSearchFacts(g, s);
    DrainNonNegative(s, f.stack, f.sigma, f.predecessor, Sweep(Fill(g.nodeCount, 0.0), Fill(g.nodeCount, 0.0)));
  }

  /** A graph without edges: every node is alone, only the source is ever
      stacked, and the source is skipped, so nothing is gained. */
  lemma EdgelessContribution(g: Csr, s: nat)
    requires g.WellFormed() && s < g.nodeCount
    requires forall v :: 0 <= v < g.nodeCount ==> g.offsets[v] == g.offsets[v + 1]
    ensures Contribution(g, s) == Fill(g.nodeCount, 0.0)
  {
    var seed := Seed(g, s);
    var st := Dequeue(seed);
    assert Relax(g, s, g.offsets[s], st) == st;
    assert Explore(g, seed) == Explore(g, st) == st;
    assert st.stack == [s];
    var zero := Sweep(Fill(g.nodeCount, 0.0), Fill(g.nodeCount, 0.0));
    assert st.predecessor[s] == [];
    assert Credit(s, [], st.sigma, zero.dependency) == zero.dependency;
    assert Drain(s, [s], st.sigma, st.predecessor, zero) == Drain(s, [], st.sigma, st.predecessor, zero);
  }

  /** Source `s`'s contribution, for the sources of the graph. */
  function Contributions(g: Csr): (part: int --> seq<real>)
    requires g.WellFormed()
    ensures Parts(g.nodeCount, part, 0, g.nodeCount)
    ensures forall s :: 0 <= s < g.nodeCount ==> part(s) == Contribution(g, s)
  {
    s requires 0 <= s < g.nodeCount => Contribution(g, s)
  }

  /** The sum of the contributions of sources `lo` to `hi - 1`, in order;
      zero when the range is empty. */
  function SourceSum(g: Csr, lo: int, hi: int): (r: seq<real>)
    requires g.WellFormed() && (hi <= lo || (0 <= lo && hi <= g.nodeCount))
    ensures |r| == g.nodeCount
  {
    Sum(g.nodeCount, Contributions(g), lo, hi)
  }

  /** The centrality a range of sources gives is never negative. */
  lemma SourceSumNonNegative(g: Csr, lo: int, hi: int)
    requires g.WellFormed() && (hi <= lo || (0 <= lo && hi <= g.nodeCount))
    ensures NonNegative(SourceSum(g, lo, hi))
  {
    forall k | lo <= k < hi
      ensures NonNegative(Contributions(g)(k))
    {
      ContributionNonNegative(g, k);
    }
    SumNonNegative(g.nodeCount, Contributions(g), lo, hi);
  }

  /** Ranges of sources add up: the result for `lo..hi - 1` is the result for
      `lo..mid - 1` plus the result for `mid..hi - 1`. */
  lemma SourceSumSplit(g: Csr, lo: int, mid: int, hi: int)
    requires g.WellFormed() && 0 <= lo <= mid <= hi <= g.nodeCount
    ensures SourceSum(g, lo, hi) == Add(SourceSum(g, lo, mid), SourceSum(g, mid, hi))
  {
    SumSplit(g.nodeCount, Contributions(g), lo, mid, hi);
  }

  /** A node that no source of the range reaches has centrality zero. */
  lemma SourceSumUnreached(g: Csr, lo: int, hi: int, x: nat)
    requires g.WellFormed() && 0 <= lo && hi <= g.nodeCount && x < g.nodeCount
    requires forall s :: lo <= s < hi ==> ForwardSearch(g, s).distance[x] == -1
    ensures SourceSum(g, lo, hi)[x] == 0.0
  {
    var part := Contributions(g);
    forall s | lo <= s < hi
      ensures part(s)[x] == 0.0
    {
      ContributionUnreached(g, s);
    }
    SumZeroAt(g.nodeCount, part, lo, hi, x);
  }

  /** On a graph without edges every centrality is zero, whatever the range. */
  lemma EdgelessSourceSum(g: Csr, lo: int, hi: int)
    requires g.WellFormed() && (hi <= lo || (0 <= lo && hi <= g.nodeCount))
    requires forall v :: 0 <= v < g.nodeCount ==> g.offsets[v] == g.offsets[v + 1]
    ensures SourceSum(g, lo, hi) == Fill(g.nodeCount, 0.0)
  {
    var part := Contributions(g);
    forall i | 0 <= i < g.nodeCount
      ensures SourceSum(g, lo, hi)[i] == 0.0
    {
      forall s | lo <= s < hi
        ensures part(s)[i] == 0.0
      {
        EdgelessContribution(g, s);
      }
      SumZeroAt(g.nodeCount, part, lo, hi, i);
    }
  }

  /** Such a node other than the source gains a positive amount from the
      source's pass: centrality is not zero on a shortest path. */
  lemma ContributionPositive(g: Csr, s: nat, v: nat, w: nat)
    requires g.WellFormed() && s < g.nodeCount && v < g.nodeCount && w < g.nodeCount && v != s
    requires v in ForwardSearch(g, s).predecessor[w]
    ensures Contribution(g, s)[v] > 0.0
  {
    DependencyPositive(g, s, v, w);
    ContributionHalves(g, s);
  }
}
