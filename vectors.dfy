/** Node-indexed vectors: the filled working arrays of the engines and the
    element-wise sum that merges centrality vectors. */
module Vectors {

  /** `n` copies of `x`: what `memset`, `fill` and a value-initialising `new`
      leave behind. */
  function Fill<T>(n: nat, x: T): (r: seq<T>)
    ensures |r| == n
    ensures forall i :: 0 <= i < n ==> r[i] == x
  {
    seq(n, _ => x)
  }

  /** Element-wise sum of two vectors of the same length. */
  function Add(a: seq<real>, b: seq<real>): (r: seq<real>)
    requires |a| == |b|
    ensures |r| == |a|
    ensures forall i :: 0 <= i < |a| ==> r[i] == a[i] + b[i]
  {
    seq(|a|, i requires 0 <= i < |a| => a[i] + b[i])
  }

  lemma AddZero(a: seq<real>)
    ensures Add(a, Fill(|a|, 0.0)) == a
    ensures Add(Fill(|a|, 0.0), a) == a
  {
  }

  lemma AddAssoc(a: seq<real>, b: seq<real>, c: seq<real>)
    requires |a| == |b| == |c|
    ensures Add(Add(a, b), c) == Add(a, Add(b, c))
  {
  }

  lemma AddComm(a: seq<real>, b: seq<real>)
    requires |a| == |b|
    ensures Add(a, b) == Add(b, a)
  {
  }

  /** Every entry is at least zero. */
  predicate NonNegative(a: seq<real>)
  {
    forall i :: 0 <= i < |a| ==> a[i] >= 0.0
  }

  /** The parts `lo` to `hi - 1`, each a vector of length `n`. */
  ghost predicate Parts(n: nat, part: int --> seq<real>, lo: int, hi: int)
  {
    forall k :: lo <= k < hi ==> part.requires(k) && |part(k)| == n
  }

  /** The sum of `part(lo)` to `part(hi - 1)`, added in that order; zero for
      an empty range. */
  function Sum(n: nat, part: int --> seq<real>, lo: int, hi: int): (r: seq<real>)
    requires Parts(n, part, lo, hi)
    ensures |r| == n
    decreases hi - lo
  {
    if hi <= lo then Fill(n, 0.0)
    else Add(Sum(n, part, lo, hi - 1), part(hi - 1))
  }

  /** Summing a range is summing its two halves. */
  lemma {:induction false} SumSplit(n: nat, part: int --> seq<real>, lo: int, mid: int, hi: int)
    requires lo <= mid <= hi && Parts(n, part, lo, hi)
    ensures Sum(n, part, lo, hi) == Add(Sum(n, part, lo, mid), Sum(n, part, mid, hi))
    decreases hi - mid
  {
    if hi == mid {
      AddZero(Sum(n, part, lo, mid));
    } else {
      SumSplit(n, part, lo, mid, hi - 1);
      AddAssoc(Sum(n, part, lo, mid), Sum(n, part, mid, hi - 1), part(hi - 1));
    }
  }

  /** A sum of non-negative parts is non-negative. */
  lemma {:induction false} SumNonNegative(n: nat, part: int --> seq<real>, lo: int, hi: int)
    requires Parts(n, part, lo, hi)
    requires forall k :: lo <= k < hi ==> NonNegative(part(k))
    ensures NonNegative(Sum(n, part, lo, hi))
    decreases hi - lo
  {
    if hi > lo {
      SumNonNegative(n, part, lo, hi - 1);
    }
  }

  /** A sum whose parts are all zero at entry `i` is zero there. */
  lemma {:induction false} SumZeroAt(n: nat, part: int --> seq<real>, lo: int, hi: int, i: nat)
    requires Parts(n, part, lo, hi) && i < n
    requires forall k :: lo <= k < hi ==> part(k)[i] == 0.0
    ensures Sum(n, part, lo, hi)[i] == 0.0
    decreases hi - lo
  {
    if hi > lo {
      SumZeroAt(n, part, lo, hi - 1, i);
    }
  }

  /** A schedule assigns part `k` of the range starting at `from` to worker
      `schedule[k - from]`; this is what worker `u` sums of parts `lo` to
      `hi - 1`, skipping the parts of other workers. */
  function WorkerSum(n: nat, part: int --> seq<real>, from: int, schedule: seq<nat>, u: nat, lo: int, hi: int): (r: seq<real>)
    requires from <= lo && hi <= from + |schedule| && Parts(n, part, lo, hi)
    ensures |r| == n
    decreases hi - lo
  {
    if hi <= lo then Fill(n, 0.0)
    else if schedule[hi - 1 - from] == u then Add(WorkerSum(n, part, from, schedule, u, lo, hi - 1), part(hi - 1))
    else WorkerSum(n, part, from, schedule, u, lo, hi - 1)
  }

  /** The merge of what workers `0` to `t - 1` summed, in that order. */
  function Merged(n: nat, part: int --> seq<real>, from: int, schedule: seq<nat>, lo: int, hi: int, t: nat): (r: seq<real>)
    requires from <= lo && hi <= from + |schedule| && Parts(n, part, lo, hi)
    ensures |r| == n
  {
    if t == 0 then Fill(n, 0.0)
    else Add(Merged(n, part, from, schedule, lo, hi, t - 1), WorkerSum(n, part, from, schedule, t - 1, lo, hi))
  }

  /** Adding one more part to the range adds it to the merge of the first `t`
      workers exactly when one of them owns it. */
  lemma {:induction false} MergedStep(n: nat, part: int --> seq<real>, from: int, schedule: seq<nat>, lo: int, hi: int, t: nat)
    requires from <= lo < hi <= from + |schedule| && Parts(n, part, lo, hi)
    ensures Merged(n, part, from, schedule, lo, hi, t)
         == Add(Merged(n, part, from, schedule, lo, hi - 1, t),
                if schedule[hi - 1 - from] < t then part(hi - 1) else Fill(n, 0.0))
  {
    var c := part(hi - 1);
    var o := schedule[hi - 1 - from];
    if t == 0 {
      AddZero(Fill(n, 0.0));
    } else {
      MergedStep(n, part, from, schedule, lo, hi, t - 1);
      var before := Merged(n, part, from, schedule, lo, hi - 1, t - 1);
      var own := WorkerSum(n, part, from, schedule, t - 1, lo, hi - 1);
      var lhs := Merged(n, part, from, schedule, lo, hi, t);
      var rhs := Add(Merged(n, part, from, schedule, lo, hi - 1, t), if o < t then c else Fill(n, 0.0));
      forall i | 0 <= i < n
        ensures lhs[i] == rhs[i]
      {
        var w := WorkerSum(n, part, from, schedule, t - 1, lo, hi);
        assert w[i] == own[i] + (if o == t - 1 then c[i] else 0.0);
      }
    }
  }

  /** However a schedule spreads the parts over `workers` workers, merging
      what each worker summed gives the plain sum of the parts. */
  lemma {:induction false} MergedSum(n: nat, part: int --> seq<real>, from: int, schedule: seq<nat>, hi: int, workers: nat)
    requires from <= hi <= from + |schedule| && Parts(n, part, from, hi)
    requires forall k :: 0 <= k < |schedule| ==> schedule[k] < workers
    ensures Merged(n, part, from, schedule, from, hi, workers) == Sum(n, part, from, hi)
    decreases hi - from
  {
    if hi == from {
      MergedEmpty(n, part, from, schedule, workers);
    } else {
      MergedStep(n, part, from, schedule, from, hi, workers);
      MergedSum(n, part, from, schedule, hi - 1, workers);
    }
  }

  /** Workers with nothing to sum merge to zero. */
  lemma {:induction false} MergedEmpty(n: nat, part: int --> seq<real>, from: int, schedule: seq<nat>, t: nat)
    ensures Merged(n, part, from, schedule, from, from, t) == Fill(n, 0.0)
  {
    if t > 0 {
      MergedEmpty(n, part, from, schedule, t - 1);
      AddZero(Fill(n, 0.0));
    }
  }
}
