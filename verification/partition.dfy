/** Partitions of the index space [0, p) into per-worker half-open ranges,
    and the facts every planner needs: contiguous ranges are pairwise
    disjoint and cover exactly the prefix they reach. */
module Partition {

  /** The half-open index range [ini, end) assigned to one worker. */
  datatype Range = Range(ini: int, end: int) {
    predicate Contains(i: int) {
      ini <= i < end
    }
  }

  /** The ranges are laid end to end from 0 up to c: the first starts at 0,
      each ends where the next starts, none runs backwards, and the last ends
      at c (no ranges at all reach only c = 0). */
  predicate Contiguous(plan: seq<Range>, c: int) {
    && (if |plan| == 0 then c == 0 else plan[0].ini == 0 && plan[|plan| - 1].end == c)
    && (forall t :: 0 <= t < |plan| ==> plan[t].ini <= plan[t].end)
    && (forall t :: 0 <= t < |plan| - 1 ==> plan[t].end == plan[t + 1].ini)
  }

  /** Some worker of the plan is assigned index i. */
  predicate Covered(plan: seq<Range>, i: int) {
    exists t :: 0 <= t < |plan| && plan[t].Contains(i)
  }

  /** No index is assigned to two different workers. */
  ghost predicate Disjoint(plan: seq<Range>) {
    forall s, t, i :: 0 <= s < |plan| && 0 <= t < |plan| && s != t && plan[s].Contains(i) ==> !plan[t].Contains(i)
  }

  /** The end of the region covered by the first t ranges. */
  function Reach(plan: seq<Range>, t: int): int
    requires 0 <= t <= |plan|
  {
    if t == 0 then 0 else plan[t - 1].end
  }

  /** In a contiguous plan an earlier range ends no later than a later one
      starts. */
  lemma {:induction false} ContiguousOrdered(plan: seq<Range>, c: int, s: int, t: int)
    requires Contiguous(plan, c)
    requires 0 <= s < t < |plan|
    ensures plan[s].end <= plan[t].ini
    decreases t - s
  {
    if s + 1 < t {
      ContiguousOrdered(plan, c, s, t - 1);
    }
  }

  /** Every range of a contiguous plan lies within [0, c), and range t starts
      at the reach of the ranges before it. */
  lemma ContiguousBounds(plan: seq<Range>, c: int, t: int)
    requires Contiguous(plan, c)
    requires 0 <= t < |plan|
    ensures plan[t].ini == Reach(plan, t)
    ensures 0 <= plan[t].ini <= plan[t].end <= c
  {
    if 0 < t {
      ContiguousOrdered(plan, c, 0, t);
    }
    if t < |plan| - 1 {
      ContiguousOrdered(plan, c, t, |plan| - 1);
    }
  }

  /** The reach of a whole contiguous plan is c, and reaches never decrease. */
  lemma ContiguousReach(plan: seq<Range>, c: int, t: int)
    requires Contiguous(plan, c)
    requires 0 <= t <= |plan|
    ensures 0 <= Reach(plan, t) <= c
    ensures Reach(plan, |plan|) == c
  {
    if 0 < t {
      ContiguousBounds(plan, c, t - 1);
    }
    if 0 < |plan| {
      ContiguousBounds(plan, c, |plan| - 1);
    }
  }

  /** The first t ranges of a contiguous plan cover exactly [0, Reach(t)). */
  lemma {:induction false} ContiguousPrefixCovers(plan: seq<Range>, c: int, t: int, i: int)
    requires Contiguous(plan, c)
    requires 0 <= t <= |plan|
    ensures (exists s :: 0 <= s < t && plan[s].Contains(i)) <==> 0 <= i < Reach(plan, t)
  {
    if 0 < t {
      ContiguousPrefixCovers(plan, c, t - 1, i);
      ContiguousBounds(plan, c, t - 1);
      if exists s :: 0 <= s < t && plan[s].Contains(i) {
        var s :| 0 <= s < t && plan[s].Contains(i);
        ContiguousBounds(plan, c, s);
        if s < t - 1 {
          ContiguousOrdered(plan, c, s, t - 1);
        }
      }
      if 0 <= i < Reach(plan, t) && !(0 <= i < Reach(plan, t - 1)) {
        assert plan[t - 1].Contains(i);
      }
    }
  }

  /** A contiguous plan reaching c assigns every index of [0, c) and nothing
      else, each to exactly one worker. */
  lemma ContiguousCovers(plan: seq<Range>, c: int)
    requires Contiguous(plan, c)
    ensures forall i :: Covered(plan, i) <==> 0 <= i < c
    ensures Disjoint(plan)
  {
    forall i
      ensures Covered(plan, i) <==> 0 <= i < c
    {
      ContiguousPrefixCovers(plan, c, |plan|, i);
      ContiguousReach(plan, c, |plan|);
    }
    forall s, t, i | 0 <= s < |plan| && 0 <= t < |plan| && s != t && plan[s].Contains(i)
      ensures !plan[t].Contains(i)
    {
      if s < t {
        ContiguousOrdered(plan, c, s, t);
      } else {
        ContiguousOrdered(plan, c, t, s);
      }
    }
  }
}
