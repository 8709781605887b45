/** The hard-coded partitions of saxpy.c for 1, 2, 4 or 8 threads, once with
    exact integer bounds and once as written in 32-bit C int arithmetic. */
module FixedPlanner {
  import opened Partition

  /** Largest value of a 32-bit C int; the command line accepts p up to it. */
  const IntMax: int := 0x7fff_ffff

  /** The thread counts the switch has a case for. */
  predicate Supported(n: int) {
    n == 1 || n == 2 || n == 4 || n == 8
  }

  /** The boundaries of the switch's ranges, computed without overflow: range
      t is [b[t], b[t + 1]). An unsupported count has no ranges. */
  function FixedBounds(p: int, n: int): (b: seq<int>)
    ensures |b| == if Supported(n) then n + 1 else 0
    ensures Supported(n) ==> b[0] == 0 && b[n] == p
  {
    if n == 1 then [0, p]
    else if n == 2 then [0, p / 2, p]
    else if n == 4 then [0, p / 4, p / 2, 3 * p / 4, p]
    else if n == 8 then [0, p / 8, p / 4, 3 * p / 8, p / 2, 5 * p / 8, 3 * p / 4, 7 * p / 8, p]
    else []
  }

  /** The ranges between consecutive boundaries. */
  function RangesOf(b: seq<int>): (plan: seq<Range>)
    ensures |plan| == if |b| == 0 then 0 else |b| - 1
    ensures forall t :: 0 <= t < |plan| ==> plan[t] == Range(b[t], b[t + 1])
  {
    if |b| <= 1 then [] else [Range(b[0], b[1])] + RangesOf(b[1..])
  }

  /** The partition saxpy.c hands to its threads. */
  function FixedPlan(p: int, n: int): seq<Range> {
    RangesOf(FixedBounds(p, n))
  }

  /** For a supported count every boundary k is floor(k * p / n), whichever
      way the switch writes it (p / 4 for 2 * p / 8, say). */
  lemma FixedBoundsAreFloors(p: int, n: int)
    requires p >= 0 && Supported(n)
    ensures |FixedBounds(p, n)| == n + 1
    ensures forall k :: 0 <= k <= n ==> FixedBounds(p, n)[k] == k * p / n
  {
    // The solver does not reliably instantiate k * p / n for a symbolic k;
    // a literal k per case turns each bound into linear arithmetic.
    var b := FixedBounds(p, n);
    forall k | 0 <= k <= n
      ensures b[k] == k * p / n
    {
      if k == 0 {
      } else if k == 1 {
      } else if k == 2 {
      } else if k == 3 {
      } else if k == 4 {
      } else if k == 5 {
      } else if k == 6 {
      } else if k == 7 {
      } else {
        assert k == 8;
      }
    }
  }

  /** Ranges between non-decreasing boundaries from 0 to c are laid end to
      end from 0 to c. */
  lemma RangesOfContiguous(b: seq<int>, c: int)
    requires |b| >= 2 && b[0] == 0 && b[|b| - 1] == c
    requires forall t :: 0 <= t < |b| - 1 ==> b[t] <= b[t + 1]
    ensures Contiguous(RangesOf(b), c)
  {
    var plan := RangesOf(b);
    assert plan[0] == Range(b[0], b[1]);
    assert plan[|plan| - 1] == Range(b[|b| - 2], b[|b| - 1]);
    forall t | 0 <= t < |plan|
      ensures plan[t].ini <= plan[t].end
    {
      assert plan[t] == Range(b[t], b[t + 1]);
    }
    forall t | 0 <= t < |plan| - 1
      ensures plan[t].end == plan[t + 1].ini
    {
      assert plan[t] == Range(b[t], b[t + 1]);
      assert plan[t + 1] == Range(b[t + 1], b[t + 2]);
    }
  }

  /** For a supported count the boundaries never decrease. */
  lemma FixedBoundsMonotone(p: int, n: int)
    requires p > 0 && Supported(n)
    ensures forall t :: 0 <= t < n ==> FixedBounds(p, n)[t] <= FixedBounds(p, n)[t + 1]
  {
  }

  /** For a supported count the ranges are laid end to end from 0 to p; for
      any other count there are no ranges at all. */
  lemma FixedPlanContiguous(p: int, n: int)
    requires p > 0
    ensures Supported(n) ==> Contiguous(FixedPlan(p, n), p)
    ensures !Supported(n) ==> FixedPlan(p, n) == []
  {
    if Supported(n) {
      FixedBoundsMonotone(p, n);
      RangesOfContiguous(FixedBounds(p, n), p);
    }
  }

  /** For a supported count the ranges are pairwise disjoint and assign every
      index of [0, p) to exactly one thread; for any other count no index is
      assigned. */
  lemma FixedPlanCoverage(p: int, n: int)
    requires p > 0
    ensures Disjoint(FixedPlan(p, n))
    ensures forall i :: Covered(FixedPlan(p, n), i) <==> Supported(n) && 0 <= i < p
  {
    FixedPlanContiguous(p, n);
    if Supported(n) {
      ContiguousCovers(FixedPlan(p, n), p);
    }
  }

  /** Two's-complement wrap-around of an integer to 32 bits, the result that
      common compilers give for a signed int multiplication that overflows. */
  function Wrap32(v: int): (r: int)
    ensures -IntMax - 1 <= r <= IntMax
    ensures (r - v) % 0x1_0000_0000 == 0
    ensures -IntMax - 1 <= v <= IntMax ==> r == v
  {
    (v + 0x8000_0000) % 0x1_0000_0000 - 0x8000_0000
  }

  /** C integer division by a positive divisor: the quotient with its
      fractional part discarded toward zero, so the remainder v - r * d has
      the sign of v and is smaller than d in magnitude. */
  function CDiv(v: int, d: int): (r: int)
    requires d > 0
    ensures v >= 0 ==> 0 <= v - r * d < d
    ensures v < 0 ==> -d < v - r * d <= 0
  {
    if v >= 0 then v / d else -((-v) / d)
  }

  /** The boundaries as saxpy.c computes them: k * p is an int product and
      wraps before the division when it exceeds IntMax. */
  function FixedBounds32(p: int, n: int): (b: seq<int>)
    ensures |b| == if Supported(n) then n + 1 else 0
    ensures Supported(n) ==> b[0] == 0 && b[n] == p
  {
    if n == 1 then [0, p]
    else if n == 2 then [0, CDiv(p, 2), p]
    else if n == 4 then [0, CDiv(p, 4), CDiv(p, 2), CDiv(Wrap32(3 * p), 4), p]
    else if n == 8 then
      [0, CDiv(p, 8), CDiv(p, 4), CDiv(Wrap32(3 * p), 8), CDiv(p, 2),
       CDiv(Wrap32(5 * p), 8), CDiv(Wrap32(3 * p), 4), CDiv(Wrap32(7 * p), 8), p]
    else []
  }

  /** The partition saxpy.c hands to its threads, in 32-bit arithmetic. */
  function FixedPlan32(p: int, n: int): seq<Range> {
    RangesOf(FixedBounds32(p, n))
  }

  /** p is a valid int and no product the switch computes for n threads
      overflows: 3 * p with 4 threads, 7 * p (the largest) with 8 threads,
      and none at all with 1 or 2. */
  predicate ProductsFit(p: int, n: int) {
    && 0 < p <= IntMax
    && (n == 4 ==> p <= IntMax / 3)
    && (n == 8 ==> p <= IntMax / 7)
  }

  /** While the switch's products fit in an int the 32-bit boundaries are
      the exact ones. */
  lemma FixedBounds32Agree(p: int, n: int)
    requires ProductsFit(p, n)
    ensures FixedBounds32(p, n) == FixedBounds(p, n)
    ensures FixedPlan32(p, n) == FixedPlan(p, n)
  {
  }

  /** p = 306783379 passes the command-line check, but with 8 threads 7 * p
      wraps to a negative int: thread 7's range runs backwards and thread 8
      starts at index -268435455, before the start of Y. */
  lemma FixedPlan32Overflow()
    ensures 306783379 <= IntMax
    ensures FixedPlan32(306783379, 8)[6] == Range(230087534, -268435455)
    ensures FixedPlan32(306783379, 8)[7] == Range(-268435455, 306783379)
    ensures !Contiguous(FixedPlan32(306783379, 8), 306783379)
  {
    var p := 306783379;
    assert Wrap32(7 * p) == -2147483643;
    assert CDiv(Wrap32(7 * p), 8) == -268435455;
    assert Wrap32(3 * p) == 3 * p;
    var plan := FixedPlan32(p, 8);
    assert plan[6] == Range(230087534, -268435455);
    assert plan[6].ini > plan[6].end;
  }

  /** With 4 threads 3 * p already wraps for p = 715827883, which the
      command-line check accepts: the third boundary is negative. */
  lemma FixedBounds32Overflow4()
    ensures 715827883 <= IntMax
    ensures FixedBounds32(715827883, 4)[3] < 0
  {
    assert Wrap32(3 * 715827883) == 3 * 715827883 - 0x1_0000_0000;
  }
}
