/** The generic planner of saxpy-v0.c: thread t of n gets
    [(p / n) * t, (p / n) * (t + 1)), with no special treatment of the last
    thread, together with the remainder-absorbing planner it evidently
    intends. */
module BlockPlanner {
  import opened Partition

  /** The ranges saxpy-v0.c assigns, as written. */
  function BlockPlan(p: int, n: int): (plan: seq<Range>)
    requires p > 0 && n >= 1
    ensures |plan| == n
    ensures plan[0].ini == 0 && plan[n - 1].end == n * (p / n)
  {
    seq(n, t requires 0 <= t < n => Range((p / n) * t, (p / n) * (t + 1)))
  }

  /** How far the as-written ranges reach: n * (p / n), which is p less the
      remainder p % n. */
  function BlockReach(p: int, n: int): (c: int)
    requires p > 0 && n >= 1
    ensures 0 <= c <= p
    ensures c == p - p % n
  {
    n * (p / n)
  }

  /** Every range has length p / n, each starts where the previous one ends,
      and together they are laid end to end from 0 to n * (p / n). */
  lemma BlockPlanContiguous(p: int, n: int)
    requires p > 0 && n >= 1
    ensures forall t :: 0 <= t < n ==> BlockPlan(p, n)[t].end - BlockPlan(p, n)[t].ini == p / n
    ensures Contiguous(BlockPlan(p, n), BlockReach(p, n))
  {
    // Each length (p / n) * (t + 1) - (p / n) * t is p / n only after the
    // product is distributed, which the solver does not do reliably.
    var plan := BlockPlan(p, n);
    var q := p / n;
    assert q >= 0;
    forall t | 0 <= t < n
      ensures plan[t].end - plan[t].ini == q
    {
      assert q * (t + 1) == q * t + q;
    }
  }

  /** The as-written ranges are pairwise disjoint and assign exactly the
      indices [0, n * (p / n)); the last p % n indices belong to no thread. */
  lemma BlockPlanCoverage(p: int, n: int)
    requires p > 0 && n >= 1
    ensures Disjoint(BlockPlan(p, n))
    ensures forall i :: Covered(BlockPlan(p, n), i) <==> 0 <= i < n * (p / n)
    ensures forall i :: n * (p / n) <= i < p ==> !Covered(BlockPlan(p, n), i)
  {
    BlockPlanContiguous(p, n);
    ContiguousCovers(BlockPlan(p, n), BlockReach(p, n));
  }

  /** Every index of [0, p) is assigned exactly when n divides p. */
  lemma BlockPlanFullIff(p: int, n: int)
    requires p > 0 && n >= 1
    ensures (forall i :: 0 <= i < p ==> Covered(BlockPlan(p, n), i)) <==> p % n == 0
  {
    BlockPlanCoverage(p, n);
    if p % n != 0 {
      assert !Covered(BlockPlan(p, n), p - 1);
    }
  }

  /** With more threads than indices every range is empty, at 0. */
  lemma BlockPlanOversubscribed(p: int, n: int)
    requires p > 0 && n > p
    ensures forall t :: 0 <= t < n ==> BlockPlan(p, n)[t] == Range(0, 0)
    ensures forall i :: !Covered(BlockPlan(p, n), i)
  {
    assert p / n == 0;
  }

  /** Ten indices over three threads: index 9 is never processed. */
  lemma BlockPlanDropsTail()
    ensures BlockPlan(10, 3) == [Range(0, 3), Range(3, 6), Range(6, 9)]
    ensures !Covered(BlockPlan(10, 3), 9)
  {
    var plan := BlockPlan(10, 3);
    assert plan == [Range(0, 3), Range(3, 6), Range(6, 9)];
    assert !plan[0].Contains(9) && !plan[1].Contains(9) && !plan[2].Contains(9);
  }

  /** The intended planner: as above, except that the last thread's range is
      extended to p, so that it absorbs the remainder. */
  function RemainderPlan(p: int, n: int): (plan: seq<Range>)
    requires p > 0 && n >= 1
    ensures |plan| == n
  {
    seq(n, t requires 0 <= t < n => Range((p / n) * t, if t == n - 1 then p else (p / n) * (t + 1)))
  }

  /** The remainder-absorbing ranges are laid end to end from 0 to p; only
      the last range may be longer than p / n. */
  lemma RemainderPlanContiguous(p: int, n: int)
    requires p > 0 && n >= 1
    ensures Contiguous(RemainderPlan(p, n), p)
    ensures forall t :: 0 <= t < n - 1 ==> RemainderPlan(p, n)[t].end - RemainderPlan(p, n)[t].ini == p / n
  {
    var plan := RemainderPlan(p, n);
    var q := p / n;
    assert q >= 0;
    forall t | 0 <= t < n
      ensures plan[t].ini <= plan[t].end
      ensures t < n - 1 ==> plan[t].end - plan[t].ini == q
    {
      assert q * (t + 1) == q * t + q;
      if t == n - 1 {
        assert q * t + q == q * n <= p;
      }
    }
  }

  /** The remainder-absorbing ranges are pairwise disjoint and assign every
      index of [0, p), whether or not n divides p. */
  lemma RemainderPlanCoverage(p: int, n: int)
    requires p > 0 && n >= 1
    ensures Disjoint(RemainderPlan(p, n))
    ensures forall i :: Covered(RemainderPlan(p, n), i) <==> 0 <= i < p
  {
    RemainderPlanContiguous(p, n);
    ContiguousCovers(RemainderPlan(p, n), p);
  }

  /** Ten indices over three threads: the last thread absorbs index 9. */
  lemma RemainderPlanExample()
    ensures RemainderPlan(10, 3) == [Range(0, 3), Range(3, 6), Range(6, 10)]
    ensures Covered(RemainderPlan(10, 3), 9)
  {
    assert RemainderPlan(10, 3)[2].Contains(9);
  }
}
