# Interval scheduling: greedy earliest-finish and weighted DP

A Dafny model of the two scheduling algorithms in `code/schedule_solver.py`:

- `greedy_earliest_finish`: sorts the intervals by `(end, start)`, then scans them once. It accepts every interval that starts no earlier than the last accepted one ended.
- `weighted_interval_scheduling`: sorts the intervals the same way. It finds each interval's predecessor `p[j]` with `bisect_right` over the sorted ends, fills the tables `M` (best weight) and `take` (choice) in a forward pass, and walks back from the last interval to collect the chosen ones. It returns them with `M[n-1]`.

Modules, one per file:

- `Intervals` (`intervals.dfy`): the interval record and the `(end, start)` order. It defines what a schedule is: strictly increasing indices of pairwise compatible intervals, where touching endpoints count as compatible. It also defines what an optimal weight is.
- `Sorting` (`sorting.dfy`): Python's stable `sorted` with the `(end, start)` key, written as an insertion sort. It is proved sorted, a permutation, and stable.
- `Bisect` (`bisect.dfy`): `bisect_right` as a binary-search method, and the "rightmost entry at most `x`" function it computes.
- `Greedy` (`greedy.dfy`): the greedy scan as a method with its loop, proved equal to a recursive specification.
- `Dp` (`dp.dfy`): specification functions for the predecessor lists, the tables, the walk back and the result. It holds the lemmas about them: the recurrence, termination, weight, order, and optimality.
- `Weighted` (`weighted.dfy`): the weighted function's loops as methods over `seq` and `array`, each proved equal to its specification in `Dp`.
- `Comparison` (`comparison.dfy`): the "DP total is at least the greedy weight" relation that `main` prints. It also has the concrete inputs that show the zero-length defect below.

The reconstruction loop of the source does not always terminate. `Dp.Run` therefore has two outcomes: `Exits(value)`, or `Diverges` where the function never returns a result because the condition of its `while` stays true. `Dp.NeverExits` states that the loop variable stays non-negative after any number of iterations.

## Model

| member | source | states |
|---|---|---|
| Sorting.SortSorted | code/schedule_solver.py:105 | the `(end, start)` sort returns a list in which every pair is in `(end, start)` order |
| Sorting.SortPermutes | code/schedule_solver.py:117 | the sort returns a permutation of its input (equal multisets) |
| Sorting.SortStable | code/schedule_solver.py:117 | intervals with equal `(end, start)` keep their input order, as in Python's stable `sorted` |
| Greedy.GreedyEarliestFinish | code/schedule_solver.py:103-112 | the loop returns exactly the selection of the scan specification; empty input gives an empty list; the selection is chained (each interval ends by the start of the next, in `(end, start)` order) |
| Greedy.GreedyPairwise | code/schedule_solver.py:105-111 | on a sorted list the accepted indices are increasing (a subsequence), every earlier accepted interval ends by the start of every later one, and together they form a schedule |
| Greedy.GreedyOrdered | code/schedule_solver.py:105-111 | the greedy selection of any input is chained: pairwise non-overlapping, touching allowed, in `(end, start)` order |
| Greedy.GreedyMaxCount | code/schedule_solver.py:8 | with `start <= end` and every start at or above the sentinel, no schedule over the sorted input has more intervals than the greedy selection: the greedy maximises the count |
| Greedy.GreedyTakesFirst | code/schedule_solver.py:106-110 | for non-empty input, the first interval in sorted order is accepted exactly when its start is at or above the `-1e18` sentinel |
| Bisect.BisectRight | code/schedule_solver.py:126 | the binary search returns the point in `a[lo..hi]` with every entry before it at most `x` and every entry from it on above `x` |
| Bisect.BisectIsRightmost | code/schedule_solver.py:126 | that insertion point minus one is the rightmost index below `hi` whose entry is at most `x`, or -1 |
| Weighted.Predecessors | code/schedule_solver.py:123-127 | the loop over `bisect_right(ends, starts[j]) - 1` builds exactly the as-written predecessor list |
| Weighted.PredecessorsBelow | code/schedule_solver.py:123-127 | the same loop with the search bounded by `j` builds exactly the predecessor list the comment describes |
| Dp.PredsSound | code/schedule_solver.py:123-127 | both predecessor lists lie in `-1..n-1` and point at an interval that ends by the start of their own; the bounded one always lies below `j` |
| Dp.PredAsWrittenBelow | code/schedule_solver.py:123-127 | on a sorted list, the as-written `p[j]` is below `j` exactly when interval `j` has positive length, and it then equals the intended predecessor |
| Dp.PredBelowExact | code/schedule_solver.py:123 | with `start <= end`, every earlier interval compatible with `j` lies at or below the intended `p[j]` |
| Weighted.FillTable | code/schedule_solver.py:129-140 | the forward pass over the preallocated arrays leaves exactly the specified tables `M` and `take` |
| Dp.TableRecurrence | code/schedule_solver.py:132-140 | every cell obeys the recurrence: `take[j]` holds exactly when `incl > excl` (ties exclude), and `M[j]` is `incl` when taken and `excl` otherwise |
| Dp.RecurrenceUnique | code/schedule_solver.py:132-140 | any pair of tables that obeys the recurrence is the pair the forward pass builds |
| Dp.TableMonotone | code/schedule_solver.py:132-140 | the finished `M` is non-negative and non-decreasing |
| Dp.TableOptimal | code/schedule_solver.py:129 | with intended predecessors, on sorted input with `start <= end`, `M[j]` is the largest weight of any schedule over `arr[0..j]`, and some schedule reaches it |
| Weighted.Reconstruct | code/schedule_solver.py:142-151 | the walk back returns exactly when it only moves to lower indices, and then returns the collected intervals in ascending order (after the reverse) |
| Dp.AllBelowDescends | code/schedule_solver.py:145-148 | when every `p[j] < j`, the walk only moves down |
| Dp.DescendsExits | code/schedule_solver.py:145-148 | a walk that only moves down reaches `j < 0` after finitely many iterations |
| Dp.HangsForever | code/schedule_solver.py:145-148 | with the as-written predecessors, a walk that does not only move down keeps `j >= 0` for ever |
| Dp.ExitsIffDescends | code/schedule_solver.py:145-148 | the as-written loop never exits exactly when the walk does not only move down |
| Dp.TracebackWeight | code/schedule_solver.py:143-152 | the intervals collected from `j` weigh exactly `M[j]` |
| Dp.TracebackSchedule | code/schedule_solver.py:143-151 | the intervals collected from `j` form a schedule over `arr[0..j]`, each ending by the start of the next |
| Weighted.WeightedIntervalScheduling | code/schedule_solver.py:115-152 | the method returns exactly the as-written result: the collected intervals with `M[n-1]` (0 for no input), or Diverges where the loop never exits |
| Weighted.WeightedIntervalSchedulingBelow | code/schedule_solver.py:115-152 | with the search bounded by `j`, the method always returns, with the intended result |
| Dp.AsWrittenReturns | code/schedule_solver.py:143-148 | with `start <= end`, the source's function returns exactly when its loop does not run for ever |
| Dp.AsWrittenSound | code/schedule_solver.py:143-152 | whenever the source's function returns, the returned intervals weigh the returned total and are chained |
| Dp.IntendedOptimal | code/schedule_solver.py:9 | with the bounded search and `start <= end`, the function returns, and its total is the largest weight of any schedule over the sorted input (pairwise compatible intervals at increasing positions) |
| Dp.IntendedSound | code/schedule_solver.py:143-152 | with the bounded search, the returned intervals weigh the returned total and are chained |
| Dp.AsWrittenPositive | code/schedule_solver.py:123-152 | without zero-length intervals the source's function equals the intended one: it returns, with the optimum |
| Comparison.DpAtLeastGreedy | code/schedule_solver.py:191-200 | with the bounded search, the DP total is at least the greedy selection's total weight on the same input |
| Comparison.AsWrittenAtLeastGreedy | code/schedule_solver.py:191-200 | without zero-length intervals the source's DP returns and its total is at least the greedy weight |
| Comparison.GreedyBelowDp | code/schedule_solver.py:197-198 | on a heavy interval covering two light ones, the greedy weighs 6 and the DP returns the heavy one with 10, so greedy is not weight-optimal |
| Comparison.PointIntervalHangs | code/schedule_solver.py:126 | the single interval `(5, 5, weight 1)` gets `p[0] = 0` and `take[0] = true`, and the source's loop never exits; the bounded search returns it with total 1 |
| Comparison.ZeroLengthUndercounts | code/schedule_solver.py:126 | on `(0, 5, 1)` and `(5, 5, 1)`, greedy takes both (weight 2) but the source's DP returns only the first with total 1; the bounded search returns both with 2 |

## Left out

- `load_intervals`, `human_readable` and `main`: file and CSV reading through pandas, column guessing, datetime and string formatting, printing and writing results. These are I/O and foreign library calls. The loader's guarantee that `start <= end` (it swaps reversed endpoints) is the predicate `WellFormed`. The weight-set check and the comparison in `main` survive only as the `Comparison` lemmas.
- Times and weights are unbounded integers, not IEEE floats. The `1e-9` tolerance and the `round(..., 6)` in `main` are not modelled. The `-1e18` sentinel is the integer constant `Greedy.Sentinel`.
- The raw row dict carried in each tuple is an opaque `id` that the schedulers pass through unchanged.
- Python's `sorted` (Timsort) is modelled by a stable insertion sort. Sortedness, permutation and stability are proved, and these fix the result uniquely.
- Weighted.WeightedIntervalScheduling: requires `WellFormed` (the loader's guarantee), which the function itself does not check. Without it the model does not say what the function returns. Dp.AsWritten, the specification the method is proved equal to, has no precondition.
- Weighted.Reconstruct: a loop that never exits is reported as `Diverges` at the first jump to `p[j] >= j`. Dp.HangsForever proves that from that point on the loop condition `j >= 0` stays true.
- Every taken step of such a trapped loop appends to `selected`, so a real run grows that list without bound and ends in a memory error rather than running for ever. The model does not track memory: `Diverges` means only that no result is returned.
- `selected.reverse()` is an in-place reverse in the source. The model builds the reversed list as a new value with `Intervals.Reverse`.

## Findings

| source | as written | input that shows it | evidently intended | confidence | as-written member | corrected member |
|---|---|---|---|---|---|---|
| code/schedule_solver.py:126 | `p[j] = bisect_right(ends, starts[j]) - 1` searches all of `ends`. For a zero-length interval (`start == end`, which the loader keeps) it returns an index at or after `j`. The DP then reads `M[p[j]]` before that cell is filled. When the walk back reaches such an interval and it is taken, the reconstruction jumps to `p[j] >= j` and never returns a result. | `[(5, 5, w=1)]` never returns. `[(0, 5, w=1), (5, 5, w=1)]` returns total 1, below the greedy weight 2 and the optimum 2 | the comment on line 123: the rightmost `i < j` with `end[i] <= start[j]`, i.e. `bisect_right(ends, starts[j], 0, j) - 1` | high; not executed | Weighted.WeightedIntervalScheduling, with Comparison.PointIntervalHangs, Comparison.ZeroLengthUndercounts and Dp.HangsForever | Weighted.WeightedIntervalSchedulingBelow, with Dp.IntendedOptimal and Comparison.DpAtLeastGreedy |
