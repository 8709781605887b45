/** The worker kernel: one SAXPY pass over a slice of Y with its partial sum,
    and the critical section that publishes the partial sum into the shared
    per-iteration averages. */
module Kernel {
  import opened Sums

  /** Y after one pass of Y[i] := Y[i] + a * X[i] over [ini, end); every
      other index keeps its value. */
  function Step(y: seq<real>, x: seq<real>, a: real, ini: int, end: int): seq<real>
    requires |x| == |y|
  {
    seq(|y|, i requires 0 <= i < |y| => if ini <= i < end then y[i] + a * x[i] else y[i])
  }

  /** Closed form of Y after k passes over [ini, end): Y0[i] + k * a * X[i]
      inside the slice, Y0[i] outside it. */
  function Iterated(y: seq<real>, x: seq<real>, a: real, ini: int, end: int, k: nat): seq<real>
    requires |x| == |y|
  {
    seq(|y|, i requires 0 <= i < |y| => if ini <= i < end then y[i] + (k as real) * (a * x[i]) else y[i])
  }

  /** Y at the end of iteration k (counting from 0) of a worker that passes
      over [ini, end) once per iteration. */
  function After(y: seq<real>, x: seq<real>, a: real, ini: int, end: int, k: nat): seq<real>
    requires |x| == |y|
  {
    Iterated(y, x, a, ini, end, k + 1)
  }

  /** The loop of a worker: updates Y on [ini, end) and accumulates the
      updated values into acc (saxpy.c, compute; saxpy-v0.c, saxpy). */
  method UpdateSlice(x: seq<real>, y: seq<real>, a: real, ini: int, end: int)
    returns (y': seq<real>, acc: real)
    requires |x| == |y| && (ini < end ==> 0 <= ini && end <= |y|)
    ensures y' == Step(y, x, a, ini, end)
    ensures acc == LoopSum(y', ini, end)
  {
    y' := y;
    acc := 0.0;
    var i := ini;
    while i < end
      invariant ini <= i <= (if ini < end then end else ini)
      invariant |y'| == |y|
      invariant forall j :: ini <= j < i ==> y'[j] == y[j] + a * x[j]
      invariant forall j :: 0 <= j < |y| && !(ini <= j < i) ==> y'[j] == y[j]
      invariant acc == LoopSum(y', ini, i)
    {
      var before := y';
      y' := y'[i := y'[i] + a * x[i]];
      SumRangeAgree(before, y', ini, i);
      acc := acc + y'[i];
      i := i + 1;
    }
    forall j | 0 <= j < |y|
      ensures y'[j] == Step(y, x, a, ini, end)[j]
    {
    }
  }

  /** The critical section: Y_avgs[it] += acc / p, nothing else changes. */
  function Contribute(avgs: seq<real>, it: int, acc: real, p: int): (r: seq<real>)
    requires 0 <= it < |avgs| && p > 0
    ensures |r| == |avgs|
    ensures r[it] == avgs[it] + acc / (p as real)
    ensures forall j :: 0 <= j < |avgs| && j != it ==> r[j] == avgs[j]
  {
    avgs[it := avgs[it] + acc / (p as real)]
  }

  /** One call of saxpy.c's compute with a given iteration index: a pass over
      the slice, then one atomic contribution of the slice's sum. */
  method Compute(x: seq<real>, y: seq<real>, a: real, avgs: seq<real>, ini: int, end: int, it: int, p: int)
    returns (y': seq<real>, avgs': seq<real>, acc: real)
    requires |x| == |y| && (ini < end ==> 0 <= ini && end <= |y|)
    requires 0 <= it < |avgs| && p > 0
    ensures y' == Step(y, x, a, ini, end)
    ensures acc == LoopSum(y', ini, end)
    ensures |avgs'| == |avgs|
    ensures avgs'[it] == avgs[it] + acc / (p as real)
    ensures forall j :: 0 <= j < |avgs| && j != it ==> avgs'[j] == avgs[j]
  {
    y', acc := UpdateSlice(x, y, a, ini, end);
    avgs' := Contribute(avgs, it, acc, p);
  }

  /** One more pass over the slice moves the closed form from k to k + 1. */
  lemma StepIterated(y: seq<real>, x: seq<real>, a: real, ini: int, end: int, k: nat)
    requires |x| == |y|
    ensures Step(Iterated(y, x, a, ini, end, k), x, a, ini, end) == Iterated(y, x, a, ini, end, k + 1)
  {
    var l := Step(Iterated(y, x, a, ini, end, k), x, a, ini, end);
    var r := Iterated(y, x, a, ini, end, k + 1);
    forall i | 0 <= i < |y|
      ensures l[i] == r[i]
    {
      if ini <= i < end {
        calc {
          l[i];
          y[i] + (k as real) * (a * x[i]) + a * x[i];
          y[i] + ((k + 1) as real) * (a * x[i]);
        }
      }
    }
  }

  /** Passes over two adjacent slices [lo, mid) and [mid, hi) amount to
      passes over [lo, hi). */
  lemma IteratedJoin(y: seq<real>, x: seq<real>, a: real, lo: int, mid: int, hi: int, k: nat)
    requires |x| == |y| && lo <= mid <= hi
    ensures Iterated(Iterated(y, x, a, lo, mid, k), x, a, mid, hi, k) == Iterated(y, x, a, lo, hi, k)
  {
  }

  /** Contributions to different slots commute and contributions to the same
      slot add up: the order in which workers enter the critical section
      does not change the averages, and none is lost. */
  lemma ContributeCommute(avgs: seq<real>, i: int, u: real, j: int, v: real, p: int)
    requires 0 <= i < |avgs| && 0 <= j < |avgs| && p > 0
    ensures Contribute(Contribute(avgs, i, u, p), j, v, p) == Contribute(Contribute(avgs, j, v, p), i, u, p)
    ensures i == j ==> Contribute(Contribute(avgs, i, u, p), i, v, p) == Contribute(avgs, i, u + v, p)
  {
    ShareAdd(u, v, p);
  }

  /** Two workers with disjoint slices commute: the resulting Y is the same in
      either order, and each worker's partial sum does not depend on whether
      the other ran first. */
  lemma WorkersCommute(y: seq<real>, x: seq<real>, a: real, ini1: int, end1: int, ini2: int, end2: int)
    requires |x| == |y|
    requires 0 <= ini1 <= end1 <= |y| && 0 <= ini2 <= end2 <= |y|
    requires end1 <= ini2 || end2 <= ini1
    ensures Step(Step(y, x, a, ini1, end1), x, a, ini2, end2) == Step(Step(y, x, a, ini2, end2), x, a, ini1, end1)
    ensures SumRange(Step(Step(y, x, a, ini1, end1), x, a, ini2, end2), ini2, end2)
         == SumRange(Step(y, x, a, ini2, end2), ini2, end2)
  {
    var both := Step(Step(y, x, a, ini1, end1), x, a, ini2, end2);
    SumRangeAgree(both, Step(y, x, a, ini2, end2), ini2, end2);
  }

  /** The same holds for long-lived workers: k1 passes over one slice and k2
      passes over a disjoint slice give the same Y in either order, and each
      worker's slice sum does not depend on the other's passes. */
  lemma LongWorkersCommute(y: seq<real>, x: seq<real>, a: real, ini1: int, end1: int, k1: nat, ini2: int, end2: int, k2: nat)
    requires |x| == |y|
    requires 0 <= ini1 <= end1 <= |y| && 0 <= ini2 <= end2 <= |y|
    requires end1 <= ini2 || end2 <= ini1
    ensures Iterated(Iterated(y, x, a, ini1, end1, k1), x, a, ini2, end2, k2)
         == Iterated(Iterated(y, x, a, ini2, end2, k2), x, a, ini1, end1, k1)
    ensures SumRange(Iterated(Iterated(y, x, a, ini1, end1, k1), x, a, ini2, end2, k2), ini2, end2)
         == SumRange(Iterated(y, x, a, ini2, end2, k2), ini2, end2)
  {
    var both := Iterated(Iterated(y, x, a, ini1, end1, k1), x, a, ini2, end2, k2);
    SumRangeAgree(both, Iterated(y, x, a, ini2, end2, k2), ini2, end2);
  }
}
