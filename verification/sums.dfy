/** Sums and means of vectors of reals, accumulated left to right as the
    workers' loops accumulate them. */
module Sums {

  /** Sum of s[lo], ..., s[hi - 1]; zero for an empty range. */
  function SumRange(s: seq<real>, lo: int, hi: int): real
    requires 0 <= lo <= hi <= |s|
    decreases hi - lo
  {
    if lo == hi then 0.0 else SumRange(s, lo, hi - 1) + s[hi - 1]
  }

  /** What a loop `for (i = lo; i < hi; i++) acc += s[i]` leaves in an
      accumulator that starts at 0: the sum over [lo, hi), or 0 when the
      range is empty or backwards and the loop body never runs. */
  function LoopSum(s: seq<real>, lo: int, hi: int): real
    requires lo < hi ==> 0 <= lo && hi <= |s|
  {
    if lo < hi then SumRange(s, lo, hi) else 0.0
  }

  /** Mean of a non-empty vector. */
  function Mean(s: seq<real>): real
    requires |s| > 0
  {
    SumRange(s, 0, |s|) / (|s| as real)
  }

  /** A sum over [lo, hi) splits at any point in between. */
  lemma {:induction false} SumRangeSplit(s: seq<real>, lo: int, mid: int, hi: int)
    requires 0 <= lo <= mid <= hi <= |s|
    ensures SumRange(s, lo, hi) == SumRange(s, lo, mid) + SumRange(s, mid, hi)
    decreases hi - mid
  {
    if mid < hi {
      SumRangeSplit(s, lo, mid, hi - 1);
    }
  }

  /** A sum depends only on the elements inside its range. */
  lemma {:induction false} SumRangeAgree(s: seq<real>, t: seq<real>, lo: int, hi: int)
    requires 0 <= lo <= hi <= |s| && hi <= |t|
    requires forall i :: lo <= i < hi ==> s[i] == t[i]
    ensures SumRange(s, lo, hi) == SumRange(t, lo, hi)
    decreases hi - lo
  {
    if lo < hi {
      SumRangeAgree(s, t, lo, hi - 1);
    }
  }

  /** Summing a constant c over hi - lo elements gives (hi - lo) * c. */
  lemma {:induction false} SumRangeConst(s: seq<real>, c: real, lo: int, hi: int)
    requires 0 <= lo <= hi <= |s|
    requires forall i :: lo <= i < hi ==> s[i] == c
    ensures SumRange(s, lo, hi) == ((hi - lo) as real) * c
    decreases hi - lo
  {
    if lo < hi {
      SumRangeConst(s, c, lo, hi - 1);
    }
  }

  /** The mean of a vector whose every element is c is c. */
  lemma MeanConst(s: seq<real>, c: real)
    requires |s| > 0
    requires forall i :: 0 <= i < |s| ==> s[i] == c
    ensures Mean(s) == c
  {
    SumRangeConst(s, c, 0, |s|);
  }

  /** Two shares of the same divisor add up to the share of the sum. */
  lemma ShareAdd(u: real, v: real, p: int)
    requires p > 0
    ensures u / (p as real) + v / (p as real) == (u + v) / (p as real)
  {
  }
}
