/** The runs of both programs: the workers of a partition run one after
    another (their slices are disjoint and the only shared write is the
    atomic contribution, so any interleaving has this effect), either each
    looping over all iterations (saxpy-v0.c) or each making a single pass
    with a given iteration index (saxpy.c). */
module Run {
  import opened Sums
  import opened Kernel
  import opened Partition
  import opened BlockPlanner
  import opened FixedPlanner

  /** Adding the slice [lo, hi) to the covered prefix [0, lo): the prefix's
      sum after j passes plus the slice's own sum after j passes is the sum
      of the extended prefix [0, hi) after j passes. */
  lemma ExtendCovered(y: seq<real>, x: seq<real>, a: real, lo: int, hi: int, k: nat, m: nat)
    requires |x| == |y| && 0 <= lo <= hi <= |y|
    ensures SumRange(After(y, x, a, 0, lo, k), 0, lo)
          + SumRange(After(Iterated(y, x, a, 0, lo, m), x, a, lo, hi, k), lo, hi)
         == SumRange(After(y, x, a, 0, hi, k), 0, hi)
  {
    var z := After(y, x, a, 0, hi, k);
    SumRangeAgree(After(y, x, a, 0, lo, k), z, 0, lo);
    SumRangeAgree(After(Iterated(y, x, a, 0, lo, m), x, a, lo, hi, k), z, lo, hi);
    SumRangeSplit(z, 0, lo, hi);
  }

  /** The same in shares of Y_avgs: the prefix's share plus what the worker
      of [lo, hi) contributes is the share of the extended prefix. */
  lemma ExtendShare(y: seq<real>, x: seq<real>, a: real, lo: int, hi: int, k: nat, m: nat, p: int)
    requires |x| == |y| && 0 <= lo <= hi <= |y| && p > 0
    ensures SumRange(After(y, x, a, 0, lo, k), 0, lo) / (p as real)
          + LoopSum(After(Iterated(y, x, a, 0, lo, m), x, a, lo, hi, k), lo, hi) / (p as real)
         == SumRange(After(y, x, a, 0, hi, k), 0, hi) / (p as real)
  {
    ExtendCovered(y, x, a, lo, hi, k, m);
    ShareAdd(SumRange(After(y, x, a, 0, lo, k), 0, lo),
             SumRange(After(Iterated(y, x, a, 0, lo, m), x, a, lo, hi, k), lo, hi), p);
  }

  /** One long-lived worker of saxpy-v0.c: for it = 0 .. m - 1 it updates its
      slice and adds the slice's sum divided by p to Y_avgs[it]. */
  method Worker(x: seq<real>, y: seq<real>, a: real, avgs: seq<real>, r: Range, p: int, m: nat)
    returns (y': seq<real>, avgs': seq<real>)
    requires |x| == |y| && (r.ini < r.end ==> 0 <= r.ini && r.end <= |y|)
    requires p > 0 && m <= |avgs|
    ensures y' == Iterated(y, x, a, r.ini, r.end, m)
    ensures |avgs'| == |avgs|
    ensures forall k :: 0 <= k < m ==>
      avgs'[k] == avgs[k] + LoopSum(After(y, x, a, r.ini, r.end, k), r.ini, r.end) / (p as real)
    ensures forall k :: m <= k < |avgs| ==> avgs'[k] == avgs[k]
  {
    y', avgs' := y, avgs;
    var it := 0;
    while it < m
      invariant 0 <= it <= m
      invariant y' == Iterated(y, x, a, r.ini, r.end, it)
      invariant |avgs'| == |avgs|
      invariant forall k :: 0 <= k < it ==>
        avgs'[k] == avgs[k] + LoopSum(After(y, x, a, r.ini, r.end, k), r.ini, r.end) / (p as real)
      invariant forall k :: it <= k < |avgs| ==> avgs'[k] == avgs[k]
    {
      StepIterated(y, x, a, r.ini, r.end, it);
      var sumY;
      y', sumY := UpdateSlice(x, y', a, r.ini, r.end);
      avgs' := Contribute(avgs', it, sumY, p);
      it := it + 1;
    }
  }

  /** Long-lived workers (saxpy-v0.c's saxpy) over any contiguous plan
      reaching c: after all workers, every index of [0, c) has had m passes
      and every other index none, and Y_avgs[k] has received, from every
      worker exactly once, its slice's sum after pass k + 1 divided by p, so
      it grew by the sum of [0, c) after pass k + 1 divided by p. Slots from
      m on are untouched. */
  method RunPlan(x: seq<real>, y: seq<real>, a: real, avgs: seq<real>, plan: seq<Range>, c: int, p: int, m: nat)
    returns (y': seq<real>, avgs': seq<real>)
    requires |x| == |y| && Contiguous(plan, c) && 0 <= c <= |y|
    requires p > 0 && m <= |avgs|
    ensures y' == Iterated(y, x, a, 0, c, m)
    ensures |avgs'| == |avgs|
    ensures forall k :: 0 <= k < m ==>
      avgs'[k] == avgs[k] + SumRange(After(y, x, a, 0, c, k), 0, c) / (p as real)
    ensures forall k :: m <= k < |avgs| ==> avgs'[k] == avgs[k]
  {
    y', avgs' := y, avgs;
    ContiguousReach(plan, c, 0);
    var t := 0;
    forall k | 0 <= k < m
      ensures avgs'[k] == avgs[k] + SumRange(After(y, x, a, 0, Reach(plan, t), k), 0, Reach(plan, t)) / (p as real)
    {
    }
    while t < |plan|
      invariant 0 <= t <= |plan|
      invariant 0 <= Reach(plan, t) <= c
      invariant y' == Iterated(y, x, a, 0, Reach(plan, t), m)
      invariant |avgs'| == |avgs|
      invariant forall k :: 0 <= k < m ==>
        avgs'[k] == avgs[k] + SumRange(After(y, x, a, 0, Reach(plan, t), k), 0, Reach(plan, t)) / (p as real)
      invariant forall k :: m <= k < |avgs| ==> avgs'[k] == avgs[k]
    {
      ContiguousBounds(plan, c, t);
      var lo, hi := plan[t].ini, plan[t].end;
      ghost var avgsBefore := avgs';
      IteratedJoin(y, x, a, 0, lo, hi, m);
      y', avgs' := Worker(x, y', a, avgs', plan[t], p, m);
      forall k | 0 <= k < m
        ensures avgs'[k] == avgs[k] + SumRange(After(y, x, a, 0, hi, k), 0, hi) / (p as real)
      {
        ExtendShare(y, x, a, lo, hi, k, m, p);
        assert avgsBefore[k] == avgs[k] + SumRange(After(y, x, a, 0, lo, k), 0, lo) / (p as real);
      }
      t := t + 1;
    }
    ContiguousReach(plan, c, |plan|);
  }

  /** One compute call over [lo, hi) after the prefix [0, lo) had its pass:
      the prefix [0, hi) has had its pass, and the prefix's share plus the
      call's contribution is the share of [0, hi). */
  lemma OnceShare(y: seq<real>, x: seq<real>, a: real, lo: int, hi: int, p: int)
    requires |x| == |y| && 0 <= lo <= hi <= |y| && p > 0
    ensures Step(Step(y, x, a, 0, lo), x, a, lo, hi) == Step(y, x, a, 0, hi)
    ensures SumRange(Step(y, x, a, 0, lo), 0, lo) / (p as real)
          + LoopSum(Step(y, x, a, 0, hi), lo, hi) / (p as real)
         == SumRange(Step(y, x, a, 0, hi), 0, hi) / (p as real)
  {
    var z := Step(y, x, a, 0, hi);
    assert Step(Step(y, x, a, 0, lo), x, a, lo, hi) == z;
    SumRangeAgree(Step(y, x, a, 0, lo), z, 0, lo);
    SumRangeSplit(z, 0, lo, hi);
    ShareAdd(SumRange(z, 0, lo), SumRange(z, lo, hi), p);
  }

  /** Every worker of a contiguous plan reaching c makes one compute call
      with the same iteration index it: every index of [0, c) gets one pass,
      and only Y_avgs[it] changes, by the sum of the updated Y over [0, c)
      divided by p. */
  method RunPlanOnce(x: seq<real>, y: seq<real>, a: real, avgs: seq<real>, plan: seq<Range>, c: int, it: int, p: int)
    returns (y': seq<real>, avgs': seq<real>)
    requires |x| == |y| && Contiguous(plan, c) && 0 <= c <= |y|
    requires 0 <= it < |avgs| && p > 0
    ensures y' == Step(y, x, a, 0, c)
    ensures |avgs'| == |avgs|
    ensures avgs'[it] == avgs[it] + SumRange(y', 0, c) / (p as real)
    ensures forall j :: 0 <= j < |avgs| && j != it ==> avgs'[j] == avgs[j]
  {
    y', avgs' := y, avgs;
    ContiguousReach(plan, c, 0);
    var t := 0;
    while t < |plan|
      invariant 0 <= t <= |plan|
      invariant 0 <= Reach(plan, t) <= c
      invariant y' == Step(y, x, a, 0, Reach(plan, t))
      invariant |avgs'| == |avgs|
      invariant avgs'[it] == avgs[it] + SumRange(y', 0, Reach(plan, t)) / (p as real)
      invariant forall j :: 0 <= j < |avgs| && j != it ==> avgs'[j] == avgs[j]
    {
      ContiguousBounds(plan, c, t);
      var lo, hi := plan[t].ini, plan[t].end;
      var acc;
      y', avgs', acc := Compute(x, y', a, avgs', lo, hi, it, p);
      OnceShare(y, x, a, lo, hi, p);
      t := t + 1;
    }
    ContiguousReach(plan, c, |plan|);
  }

  /** The threads of saxpy.c's switch, given the plan the switch builds: a
      plan reaching all of Y for 1, 2, 4 or 8 threads and no plan at all for
      any other count. Every index of Y gets one pass and Y_avgs[it] grows by
      the mean of the updated Y, or nothing happens. Only slot it of Y_avgs
      can change. */
  method RunSwitch(x: seq<real>, y: seq<real>, a: real, avgs: seq<real>, plan: seq<Range>, p: int, n: int, it: int)
    returns (y': seq<real>, avgs': seq<real>)
    requires |x| == |y| == p && p > 0
    requires 0 <= it < |avgs|
    requires Supported(n) ==> Contiguous(plan, p)
    requires !Supported(n) ==> plan == []
    ensures |y'| == p && |avgs'| == |avgs|
    ensures Supported(n) ==> forall i :: 0 <= i < p ==> y'[i] == y[i] + a * x[i]
    ensures Supported(n) ==> avgs'[it] == avgs[it] + Mean(y')
    ensures !Supported(n) ==> y' == y && avgs' == avgs
    ensures forall j :: 0 <= j < |avgs| && j != it ==> avgs'[j] == avgs[j]
  {
    if Supported(n) {
      y', avgs' := RunPlanOnce(x, y, a, avgs, plan, p, it, p);
    } else {
      y', avgs' := RunPlanOnce(x, y, a, avgs, plan, 0, it, p);
      assert y' == y;
      assert avgs' == avgs;
    }
  }

  /** saxpy.c's switch with exact bounds: for 1, 2, 4 or 8 threads every
      index of Y gets one pass and Y_avgs[it] grows by the mean of the
      updated Y; for any other count nothing happens. */
  method RunSaxpy(x: seq<real>, y: seq<real>, a: real, avgs: seq<real>, p: int, n: int, it: int)
    returns (y': seq<real>, avgs': seq<real>)
    requires |x| == |y| == p && p > 0
    requires 0 <= it < |avgs|
    ensures |y'| == p && |avgs'| == |avgs|
    ensures Supported(n) ==> forall i :: 0 <= i < p ==> y'[i] == y[i] + a * x[i]
    ensures Supported(n) ==> avgs'[it] == avgs[it] + Mean(y')
    ensures !Supported(n) ==> y' == y && avgs' == avgs
    ensures forall j :: 0 <= j < |avgs| && j != it ==> avgs'[j] == avgs[j]
  {
    FixedPlanContiguous(p, n);
    y', avgs' := RunSwitch(x, y, a, avgs, FixedPlan(p, n), p, n, it);
  }

  /** A share of Y_avgs computed from the prefix [0, c) only: when the
      indices from c on were never updated, it is the mean of Y less the
      untouched tail's sum divided by p, and it is the mean when c = p. */
  lemma PrefixShare(y: seq<real>, x: seq<real>, a: real, p: int, c: int, k: nat)
    requires |x| == |y| == p && 0 <= c <= p && p > 0
    ensures SumRange(After(y, x, a, 0, c, k), 0, c) / (p as real)
         == Mean(After(y, x, a, 0, c, k)) - SumRange(y, c, p) / (p as real)
  {
    var z := After(y, x, a, 0, c, k);
    SumRangeSplit(z, 0, c, p);
    SumRangeAgree(z, y, c, p);
    ShareAdd(SumRange(z, 0, c), SumRange(y, c, p), p);
  }

  /** saxpy-v0.c's run: n long-lived workers over the as-written block
      ranges. Only [0, n * (p / n)) is ever updated, m times; Y_avgs[k] grows
      by the mean of Y at the end of iteration k less the never-updated
      tail's sum divided by p, which is exactly the mean when n divides p. */
  method RunV0(x: seq<real>, y: seq<real>, a: real, avgs: seq<real>, p: int, n: int, m: nat)
    returns (y': seq<real>, avgs': seq<real>)
    requires |x| == |y| == p && p > 0 && n >= 1
    requires m <= |avgs|
    ensures y' == Iterated(y, x, a, 0, BlockReach(p, n), m)
    ensures |avgs'| == |avgs|
    ensures forall k :: 0 <= k < m ==>
      avgs'[k] == avgs[k] + Mean(After(y, x, a, 0, BlockReach(p, n), k)) - SumRange(y, BlockReach(p, n), p) / (p as real)
    ensures p % n == 0 ==> forall k :: 0 <= k < m ==> avgs'[k] == avgs[k] + Mean(After(y, x, a, 0, p, k))
    ensures forall k :: m <= k < |avgs| ==> avgs'[k] == avgs[k]
  {
    var c := BlockReach(p, n);
    BlockPlanContiguous(p, n);
    y', avgs' := RunPlan(x, y, a, avgs, BlockPlan(p, n), c, p, m);
    forall k | 0 <= k < m
      ensures avgs'[k] == avgs[k] + Mean(After(y, x, a, 0, c, k)) - SumRange(y, c, p) / (p as real)
    {
      PrefixShare(y, x, a, p, c, k);
    }
  }

  /** The run with the remainder-absorbing planner: after iteration k,
      Y_avgs[k] has grown by exactly the mean of Y, whatever n is. */
  method RunRemainder(x: seq<real>, y: seq<real>, a: real, avgs: seq<real>, p: int, n: int, m: nat)
    returns (y': seq<real>, avgs': seq<real>)
    requires |x| == |y| == p && p > 0 && n >= 1
    requires m <= |avgs|
    ensures y' == Iterated(y, x, a, 0, p, m)
    ensures |avgs'| == |avgs|
    ensures forall k :: 0 <= k < m ==> avgs'[k] == avgs[k] + Mean(After(y, x, a, 0, p, k))
    ensures forall k :: m <= k < |avgs| ==> avgs'[k] == avgs[k]
  {
    RemainderPlanContiguous(p, n);
    y', avgs' := RunPlan(x, y, a, avgs, RemainderPlan(p, n), p, p, m);
  }

  /** saxpy.c as written, with its bounds computed in 32-bit int: whenever no
      product in the switch overflows, the run is the one of the exact
      bounds. */
  method RunSaxpy32(x: seq<real>, y: seq<real>, a: real, avgs: seq<real>, p: int, n: int, it: int)
    returns (y': seq<real>, avgs': seq<real>)
    requires |x| == |y| == p && ProductsFit(p, n)
    requires 0 <= it < |avgs|
    ensures |y'| == p && |avgs'| == |avgs|
    ensures Supported(n) ==> forall i :: 0 <= i < p ==> y'[i] == y[i] + a * x[i]
    ensures Supported(n) ==> avgs'[it] == avgs[it] + Mean(y')
    ensures !Supported(n) ==> y' == y && avgs' == avgs
    ensures forall j :: 0 <= j < |avgs| && j != it ==> avgs'[j] == avgs[j]
  {
    FixedBounds32Agree(p, n);
    FixedPlanContiguous(p, n);
    y', avgs' := RunSwitch(x, y, a, avgs, FixedPlan32(p, n), p, n, it);
  }

  /** Four ones scaled by a = 2 onto four zeros, two threads, two
      iterations: Y is all 4 at the end, and the averages of the two
      iterations are 2 and 4. */
  method FourElementRun() returns (y': seq<real>, avgs': seq<real>)
    ensures y' == [4.0, 4.0, 4.0, 4.0]
    ensures avgs' == [2.0, 4.0]
  {
    var x, y := [1.0, 1.0, 1.0, 1.0], [0.0, 0.0, 0.0, 0.0];
    y', avgs' := RunV0(x, y, 2.0, [0.0, 0.0], 4, 2, 2);
    assert After(y, x, 2.0, 0, 4, 0) == [2.0, 2.0, 2.0, 2.0];
    assert After(y, x, 2.0, 0, 4, 1) == [4.0, 4.0, 4.0, 4.0];
    MeanConst([2.0, 2.0, 2.0, 2.0], 2.0);
    MeanConst([4.0, 4.0, 4.0, 4.0], 4.0);
  }
}
