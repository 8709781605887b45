# Iterative SAXPY with per-iteration averages: a Dafny model

The program repeatedly applies `Y[i] = Y[i] + a*X[i]` to a vector of length
`p`, split over `n` threads. After each pass, every thread adds the sum of
its slice divided by `p` to the shared slot `Y_avgs[it]`. A binary
semaphore protects that write. The repository has two variants:

- `saxpy/saxpy.c` hard-codes the slice bounds for 1, 2, 4 or 8 threads and
  does nothing for any other count. Each thread calls `compute` once: one
  pass and one contribution.
- `saxpyv0/saxpy-v0.c` gives thread `t` the range
  `[(p/n)*t, (p/n)*(t+1))`. Each thread runs the whole iteration loop
  itself (function `saxpy`).

The model covers the partition planners of both variants, the worker kernel,
the critical section and the runs of both programs. Slices are disjoint and
the only shared write is an atomic `+=`. So a parallel run is modelled as
the workers running one after another, with the critical section as one
step. The lemmas supply the swaps from which order independence follows:
`Kernel.WorkersCommute` (single passes) and `Kernel.LongWorkersCommute`
(any numbers of passes) swap two workers on disjoint slices and show that
each one's slice sums do not depend on the other; `Kernel.ContributeCommute`
swaps two contributions. No single lemma states that two whole worker runs
leave the same `Y_avgs` in either order, and interleavings of individual
iterations are not modelled. Vectors are `seq<real>`, and every operation
returns the new `Y` and `Y_avgs`.

Modules:

- `Sums` (sums.dfy): left-to-right sums over a range, the mean, and the
  facts about them that the proofs use.
- `Kernel` (kernel.dfy): one pass over a slice (`Step`), the closed form
  after k passes (`Iterated`, `After`), the worker loop (`UpdateSlice`),
  the critical section (`Contribute`) and `compute` (`Compute`).
- `Partition` (partition.dfy): ranges, coverage and disjointness. Any
  contiguous plan reaching `c` assigns every index of `[0, c)` exactly once.
- `BlockPlanner` (block_plan.dfy): the saxpy-v0.c formula as written, and
  the remainder-absorbing planner.
- `FixedPlanner` (fixed_plan.dfy): the saxpy.c switch. Its bounds are
  modelled twice: exactly, and in 32-bit C `int` arithmetic.
- `Run` (run.dfy): the long-lived worker of saxpy-v0.c, sequential
  composition of workers, the saxpy.c switch, and the saxpy-v0.c run.

saxpy-v0.c's ranges stop at `n*(p/n)` (lines 137-138), yet every share is
divided by the full `p` (line 200), so the tail `p % n` is evidently meant
to be covered. `RunV0` states what the code does, and `RunRemainder` the
corrected plan, whose last range absorbs the remainder.

## Model

| member | source | states |
|---|---|---|
| Kernel.UpdateSlice | saxpy/saxpy.c:58-63 | Every `Y[i]` in `[ini, end)` becomes `Y[i] + a*X[i]` and every other index keeps its value. `acc` is the left-to-right sum of the updated values of the slice. An empty or backwards range (`end <= ini`) is a pass that touches nothing and leaves `acc` at 0. |
| Kernel.Contribute | saxpy/saxpy.c:64-66 | The critical section adds exactly `acc/p` to `Y_avgs[it]`. The length and every other slot are unchanged. |
| Kernel.Compute | saxpy/saxpy.c:40-69 | One `compute` call is a pass over its slice followed by one contribution of the slice's updated sum to slot `it`, and changes nothing else. |
| Kernel.StepIterated | saxpyv0/saxpy-v0.c:191-198 | One more pass turns the closed form after k passes (`Y0[i] + k*a*X[i]` on the slice) into the closed form after k+1 passes. |
| Kernel.ContributeCommute | saxpy/saxpy.c:64-66 | Contributions to different slots commute, and two contributions to one slot equal one contribution of their sum. The order of entering the critical section does not matter, and no update is lost. |
| Kernel.WorkersCommute | saxpy/saxpy.c:59-63 | Two workers with disjoint slices give the same `Y` in either order, and each one's partial sum does not depend on the other having run. |
| Kernel.LongWorkersCommute | saxpyv0/saxpy-v0.c:191-198 | A worker making `k1` passes over one slice and a worker making `k2` passes over a disjoint slice give the same `Y` in either order. Each one's slice sum does not depend on the other's passes. |
| BlockPlanner.BlockPlan | saxpyv0/saxpy-v0.c:137-138 | There are `n` ranges. The first starts at 0 and the last ends at `n*(p/n)`, which is `p` only when `n` divides `p`. |
| BlockPlanner.BlockPlanContiguous | saxpyv0/saxpy-v0.c:135-143 | Every thread's range has length `p/n`, thread t's end is thread t+1's start, the first starts at 0 and the last ends at `n*(p/n)`. |
| BlockPlanner.BlockPlanCoverage | saxpyv0/saxpy-v0.c:137-138 | The ranges are pairwise disjoint and assign exactly the indices `[0, n*(p/n))`. Indices `[n*(p/n), p)` belong to no thread. |
| BlockPlanner.BlockPlanFullIff | saxpyv0/saxpy-v0.c:137-138 | Every index of `[0, p)` is assigned to a thread if and only if `n` divides `p`. |
| BlockPlanner.BlockPlanOversubscribed | saxpyv0/saxpy-v0.c:137-138 | With more threads than indices, every range is empty and no index is assigned. |
| BlockPlanner.BlockPlanDropsTail | saxpyv0/saxpy-v0.c:137-138 | With `p = 10` and `n = 3`, the ranges are `[0,3), [3,6), [6,9)` and index 9 is never processed. |
| BlockPlanner.RemainderPlanContiguous | saxpyv0/saxpy-v0.c:135-143 | With the last range extended to `p`, the ranges run end to end from 0 to `p`, none backwards. Every range except the last keeps length `p/n`. |
| BlockPlanner.RemainderPlanCoverage | saxpyv0/saxpy-v0.c:135-143 | With the last range extended to `p`, the ranges are pairwise disjoint and assign every index of `[0, p)` and nothing else, whether or not `n` divides `p`. |
| FixedPlanner.FixedBounds | saxpy/saxpy.c:168-425 | The boundaries of the switch's ranges: `n+1` of them for 1, 2, 4 or 8 threads, from 0 to `p`, and none for any other count. |
| FixedPlanner.FixedBoundsAreFloors | saxpy/saxpy.c:170-422 | For 1, 2, 4 or 8 threads, bound k of the switch is `floor(k*p/n)`, however the case writes it (`p/4` for `2*p/8`, say). |
| FixedPlanner.FixedPlanContiguous | saxpy/saxpy.c:168-425 | For 1, 2, 4 or 8 threads, the ranges start at 0, end at `p`, none runs backwards, and each ends where the next starts. Any other count gets no ranges. |
| FixedPlanner.FixedPlanCoverage | saxpy/saxpy.c:168-425 | The switch's ranges are pairwise disjoint. An index is assigned to a thread if and only if the count is 1, 2, 4 or 8 and the index lies in `[0, p)`. |
| FixedPlanner.Wrap32 | saxpy/saxpy.c:264 | A product such as `3 * p` in C `int`: the result is a 32-bit value, congruent to the exact product modulo 2^32, and equal to it whenever the exact product fits. |
| FixedPlanner.CDiv | saxpy/saxpy.c:264 | C's `/` on `int` by a positive divisor `d` discards the fraction toward zero: the remainder `v - r*d` lies in `[0, d)` for a non-negative dividend and in `(-d, 0]` for a negative one. |
| FixedPlanner.FixedBounds32 | saxpy/saxpy.c:168-425 | The boundaries as the switch computes them in `int`, with wrapped products and truncating division: `n+1` of them for 1, 2, 4 or 8 threads, from 0 to `p`, and none for any other count. |
| FixedPlanner.FixedBounds32Agree | saxpy/saxpy.c:168-425 | For any valid `int` `p` whose products in the switch fit in an `int` (every `p` with 1 or 2 threads, `p <= 715827882` with 4, `p <= 306783378` with 8), the bounds computed in 32-bit arithmetic are the exact ones. |
| FixedPlanner.FixedBounds32Overflow4 | saxpy/saxpy.c:264 | With 4 threads and `p = 715827883`, which `p`'s check accepts, `3 * p` wraps and the third boundary is negative. |
| FixedPlanner.FixedPlan32Overflow | saxpy/saxpy.c:374-384 | `p = 306783379` passes the check at line 99, but with 8 threads `7*p` wraps. Thread 7 gets `[230087534, -268435455)` and thread 8 starts at index -268435455, so the plan is no longer contiguous. |
| Run.Worker | saxpyv0/saxpy-v0.c:173-205 | After the loop, the slice holds `Y0[i] + m*a*X[i]` and the rest of `Y` is unchanged. For each `k < m`, `Y_avgs[k]` grew by the slice's sum at the end of iteration k divided by `p`. Slots from `m` on are untouched. |
| Run.RunPlan | saxpyv0/saxpy-v0.c:135-151 | Workers of a contiguous plan reaching `c`, run in sequence: `[0, c)` gets `m` passes and the rest none. Each `Y_avgs[k]` grows by the sum of `[0, c)` at the end of iteration k divided by `p`, which is one contribution per worker. |
| Run.RunPlanOnce | saxpy/saxpy.c:184-231 | Each worker of a contiguous plan reaching `c` calls `compute` once with the same `it`. `[0, c)` gets one pass and only `Y_avgs[it]` changes, by the updated sum of `[0, c)` divided by `p`. |
| Run.RunSwitch | saxpy/saxpy.c:167-425 | Given a plan reaching all of `Y` for 1, 2, 4 or 8 threads and no plan for other counts: every `Y[i]` becomes `Y[i] + a*X[i]` and `Y_avgs[it]` grows by the mean of the updated `Y`, or nothing changes. No slot but `it` ever changes. |
| Run.RunSaxpy | saxpy/saxpy.c:167-425 | With the exact bounds, for any `p`: for 1, 2, 4 or 8 threads, every `Y[i]` becomes `Y[i] + a*X[i]` and `Y_avgs[it]` grows by the mean of the updated `Y`. For any other count, `Y` and `Y_avgs` are unchanged. No slot but `it` ever changes. |
| Run.RunSaxpy32 | saxpy/saxpy.c:167-425 | The same run with the bounds computed in C `int`, as the program writes them, for every `p` whose products in the switch do not overflow: any valid `int` with 1 or 2 threads, up to 715827882 with 4, up to 306783378 with 8. |
| Run.RunV0 | saxpyv0/saxpy-v0.c:135-151 | Only `[0, n*(p/n))` is updated, `m` times. `Y_avgs[k]` grows by that prefix's sum at the end of iteration k divided by `p`: the mean of `Y` minus the sum of the never-updated tail divided by `p`. It is exactly the mean when `n` divides `p`. |
| Run.PrefixShare | saxpyv0/saxpy-v0.c:196-201 | The contributions of the workers over `[0, c)` add up to the mean of `Y` minus the sum of the untouched tail `[c, p)` divided by `p`. |
| Run.FourElementRun | saxpyv0/saxpy-v0.c:135-151 | Running saxpy-v0.c's threads with `X = [1,1,1,1]`, `Y = [0,0,0,0]`, `a = 2`, two threads and two iterations leaves `Y = [4,4,4,4]` and `Y_avgs = [2, 4]`. |
| Run.RunRemainder | saxpyv0/saxpy-v0.c:135-151 | With the remainder-absorbing plan, all of `Y` gets `m` passes and `Y_avgs[k]` grows by exactly the mean of `Y` at the end of iteration k, for every `n`. |

## Left out

- Command-line parsing, seeding and random initialisation of `X`, `Y` and `a`, zeroing of `Y_avgs`, timing and all printing: these are `main`'s setup and reporting. The model takes `X`, `Y`, `a`, `Y_avgs`, `p`, `n` and the iteration count as inputs.
- Thread creation and join, and the semaphore: replaced by sequential composition of workers, with the critical section as one atomic step. Interleavings are not modelled.
- Run.RunSaxpy: every thread reports to the same slot `it`, given as an input. In saxpy.c the main thread rewrites each thread's `it` field while the threads run, and each thread reads it once at an unpredictable moment (before the first write, even). So threads may report to different slots or to an uninitialised index, and the model does not decide which.
- Floating point: values are `real`, so rounding and the order of summation are not modelled.
- Kernel.UpdateSlice, Kernel.Compute, Run.Worker: they require a non-empty range `[ini, end)` to lie within `[0, |Y|)`; otherwise the source reads and writes out of bounds, which is undefined behaviour. An empty or backwards range is modelled, as the source runs it: the loop body never runs and the sum stays 0.
- Run.Worker, Run.RunPlan, Run.RunV0, Run.RunRemainder: they require the iteration count `m` (a `nat`) to be at most `|Y_avgs|`, since the source allocates exactly `max_iters` slots. A negative `max_iters` is not modelled.
- Run.RunV0: requires `n >= 1`. A non-positive thread count sizes a variable-length array in saxpy-v0.c, which is undefined behaviour.
- Run.RunSaxpy: uses the exact bounds of `FixedPlanner.FixedPlan`, so its contract holds for every `p`. `Run.RunSaxpy32` runs the bounds as written in `int` and requires that no product in the switch overflows (`3 * p` with 4 threads, `7 * p` with 8), since signed overflow is undefined behaviour in C (the second finding below).
- The uninitialised `p` in saxpy.c when `-p` is absent, and the `Y[p-3]` and `Y_avgs[max_iters-3]` reads for small sizes: undefined behaviour in `main`'s setup and reporting.

## Findings

| source | as written | input that shows it | evidently intended | confidence | as-written member | corrected member |
|---|---|---|---|---|---|---|
| saxpyv0/saxpy-v0.c:137-138 | The last thread's range ends at `(p/n)*n`. | `p = 10`, `n = 3`: ranges `[0,3), [3,6), [6,9)`. `Y[9]` is never updated and every `Y_avgs[k]` lacks its term. | The last range ends at `p`, absorbing the remainder. | medium, not executed | BlockPlanner.BlockPlanDropsTail | BlockPlanner.RemainderPlanContiguous |
| saxpy/saxpy.c:375 | `7 * p / 8` is computed in 32-bit `int` (also at 383; `5 * p` at 357 and 365; `3 * p` at 264, 272, 339, 347, 366 and 374). | `p = 306783379`, `n = 8`: `7*p` wraps to -2147483643, so bound 7 is -268435455. Thread 7's range runs backwards and thread 8 starts before `Y[0]`. With `n = 4`, `p = 715827883` already makes `3*p` wrap and bound 3 negative (`FixedPlanner.FixedBounds32Overflow4`). | Bounds `floor(k*p/8)` computed without overflow. | high, not executed (signed overflow is undefined in C; modelled as two's-complement wrap) | FixedPlanner.FixedPlan32Overflow | FixedPlanner.FixedPlanContiguous |
