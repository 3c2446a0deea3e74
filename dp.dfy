/** What `weighted_interval_scheduling` computes, stated as functions over the
    sorted list: the predecessor index of each interval, the DP table `M` and the
    choice table `take`, the walk back that collects the chosen intervals, and
    the result. The lemmas here say when the walk ends, what it collects, and
    that the table holds the optimum. */
module Dp {
  import opened Intervals
  import opened Sorting
  import opened Bisect

  /** How the reconstruction loop ends: it returns a value, or the condition of
      its `while` stays true and no result is ever returned. */
  datatype Run<T> = Exits(value: T) | Diverges

  /** The source's result: the chosen intervals in `(end, start)` order and the
      returned total weight. */
  datatype Schedule = Schedule(selected: seq<Interval>, total: int)

  // ---------------------------------------------------------------------------
  // Predecessors

  /** `p[j]` as the source computes it, `bisect_right(ends, starts[j]) - 1`: the
      rightmost index of the WHOLE list whose end is at most `starts[j]`, or -1. */
  function PredAsWritten(arr: seq<Interval>): seq<int>
  {
    seq(|arr|, j requires 0 <= j < |arr| => Rightmost(Ends(arr), arr[j].start, |arr|))
  }

  /** `p[j]` as the comment above the loop describes it: the rightmost index
      BELOW `j` whose end is at most `starts[j]`, or -1. */
  function PredBelow(arr: seq<Interval>): seq<int>
  {
    seq(|arr|, j requires 0 <= j < |arr| => Rightmost(Ends(arr), arr[j].start, j))
  }

  predicate PredBounded(p: seq<int>)
  {
    forall j :: 0 <= j < |p| ==> -1 <= p[j] < |p|
  }

  /** Every predecessor ends no later than its interval starts. */
  predicate PredSound(arr: seq<Interval>, p: seq<int>)
  {
    |p| == |arr| && PredBounded(p) &&
    forall j :: 0 <= j < |p| && 0 <= p[j] ==> arr[p[j]].end <= arr[j].start
  }

  /** `p[j]` is the predecessor the recurrence needs: it lies below `j`, ends by
      the start of `j`, and every earlier interval compatible with `j` lies at or
      below it. */
  predicate PredExact(arr: seq<Interval>, p: seq<int>)
  {
    PredSound(arr, p) &&
    (forall j :: 0 <= j < |p| ==> p[j] < j) &&
    forall i, j {:trigger Compatible(arr[i], arr[j])} :: 0 <= i < j < |p| && Compatible(arr[i], arr[j]) ==> i <= p[j]
  }

  /** Both predecessor lists stay in range and point at intervals that end by
      the start of their own; the intended one always points below `j`. */
  lemma PredsSound(arr: seq<Interval>)
    ensures PredSound(arr, PredAsWritten(arr)) && PredSound(arr, PredBelow(arr))
    ensures forall j :: 0 <= j < |arr| ==> PredBelow(arr)[j] < j
  {
  }

  /** On a sorted list with `start <= end` the intended predecessors are exact. */
  lemma PredBelowExact(arr: seq<Interval>)
    requires SortedByFinish(arr) && WellFormed(arr)
    ensures PredExact(arr, PredBelow(arr))
  {
    var p, ends := PredBelow(arr), Ends(arr);
    forall i, j | 0 <= i < j < |p| && Compatible(arr[i], arr[j]) ensures i <= p[j] {
      CompatibleInOrder(arr, i, j);
      assert ends[i] <= arr[j].start;
    }
  }

  /** The source's `p[j]` lies below `j` exactly when interval `j` has positive
      length; a zero-length interval gets an index at or after its own. Where
      it lies below, it is the intended predecessor. */
  lemma PredAsWrittenBelow(arr: seq<Interval>, j: int)
    requires SortedByFinish(arr) && 0 <= j < |arr|
    ensures PredAsWritten(arr)[j] < j <==> arr[j].start < arr[j].end
    ensures arr[j].start < arr[j].end ==> PredAsWritten(arr)[j] == PredBelow(arr)[j]
  {
    EndsSorted(arr);
    RightmostBelow(Ends(arr), arr[j].start, j);
  }

  /** Without zero-length intervals the source's predecessors are the intended ones. */
  lemma PredAsWrittenPositive(arr: seq<Interval>)
    requires SortedByFinish(arr) && PositiveLength(arr)
    ensures PredAsWritten(arr) == PredBelow(arr)
  {
    forall j | 0 <= j < |arr| ensures PredAsWritten(arr)[j] == PredBelow(arr)[j] {
      PredAsWrittenBelow(arr, j);
    }
  }

  // ---------------------------------------------------------------------------
  // The DP table

  /** `incl` at step `j`, reading `M[p[j]]` from the cells filled so far; a cell
      at or beyond `j` still holds its initial 0, exactly as `[0.0] * n` leaves it. */
  function Incl(w: seq<int>, p: seq<int>, M: seq<int>, j: nat): int
    requires j < |w| == |p| && j <= |M|
  {
    w[j] + (if 0 <= p[j] < j then M[p[j]] else 0)
  }

  /** `excl` at step `j`: `M[j-1]`, or 0 at the first step. */
  function Excl(M: seq<int>, j: nat): int
    requires j <= |M|
  {
    if j >= 1 then M[j - 1] else 0
  }

  /** The table `M` after the forward pass over positions `0..|w|-1`. */
  function Table(w: seq<int>, p: seq<int>): (M: seq<int>)
    requires |w| == |p|
    ensures |M| == |w|
    decreases |w|
  {
    if w == [] then []
    else
      var j := |w| - 1;
      var prev := Table(w[..j], p[..j]);
      var incl, excl := Incl(w, p, prev, j), Excl(prev, j);
      prev + [if incl > excl then incl else excl]
  }

  /** The table `take`: position `j` is taken exactly when `incl > excl`, so a
      tie excludes. */
  function Takes(w: seq<int>, p: seq<int>): (take: seq<bool>)
    requires |w| == |p|
    ensures |take| == |w|
  {
    var M := Table(w, p);
    seq(|w|, j requires 0 <= j < |w| => Incl(w, p, M, j) > Excl(M, j))
  }

  /** The returned total, `M[n-1] if n > 0 else 0`. */
  function Total(M: seq<int>): int
  {
    if M == [] then 0 else M[|M| - 1]
  }

  /** The recurrence at cell `j`: `take[j]` says whether `incl > excl`, and
      `M[j]` is the larger of the two. */
  predicate CellRule(w: seq<int>, p: seq<int>, M: seq<int>, take: seq<bool>, j: nat)
    requires j < |w| == |p| == |M| == |take|
  {
    take[j] == (Incl(w, p, M, j) > Excl(M, j)) &&
    M[j] == (if take[j] then Incl(w, p, M, j) else Excl(M, j))
  }

  /** The recurrence holds at every cell. */
  predicate Recurrence(w: seq<int>, p: seq<int>, M: seq<int>, take: seq<bool>)
  {
    |w| == |p| == |M| == |take| &&
    forall j: nat :: j < |w| ==> CellRule(w, p, M, take, j)
  }

  lemma {:induction false} TablePrefix(w: seq<int>, p: seq<int>, k: nat)
    requires |w| == |p| && k <= |w|
    ensures Table(w[..k], p[..k]) == Table(w, p)[..k]
    decreases |w|
  {
    if k < |w| {
      var j := |w| - 1;
      assert w[..j][..k] == w[..k] && p[..j][..k] == p[..k];
      TablePrefix(w[..j], p[..j], k);
    } else {
      assert w[..k] == w && p[..k] == p;
    }
  }

  /** Cell `j` of the finished table is the one the pass wrote at step `j`:
      later steps only append. */
  lemma TableCell(w: seq<int>, p: seq<int>, j: nat)
    requires |w| == |p| && j < |w|
    ensures Table(w, p)[j] == Table(w[..j + 1], p[..j + 1])[j]
    ensures Incl(w, p, Table(w, p), j) == Incl(w[..j + 1], p[..j + 1], Table(w[..j], p[..j]), j)
    ensures Excl(Table(w, p), j) == Excl(Table(w[..j], p[..j]), j)
  {
    TablePrefix(w, p, j + 1);
    TablePrefix(w, p, j);
  }

  /** The finished tables satisfy the recurrence at every position. */
  lemma TableRecurrence(w: seq<int>, p: seq<int>)
    requires |w| == |p|
    ensures Recurrence(w, p, Table(w, p), Takes(w, p))
  {
    forall j: nat | j < |w| ensures CellRule(w, p, Table(w, p), Takes(w, p), j) {
      TableCell(w, p, j);
      assert w[..j + 1][..j] == w[..j] && p[..j + 1][..j] == p[..j];
    }
  }

  /** Two pairs of tables that both obey the recurrence agree up to `j`. */
  lemma {:induction false} RecurrenceAgree(w: seq<int>, p: seq<int>, M: seq<int>, take: seq<bool>,
                                           M': seq<int>, take': seq<bool>, j: int)
    requires Recurrence(w, p, M, take) && Recurrence(w, p, M', take') && j < |w|
    ensures forall k :: 0 <= k <= j ==> M[k] == M'[k] && take[k] == take'[k]
    decreases j
  {
    if j >= 0 {
      RecurrenceAgree(w, p, M, take, M', take', j - 1);
      assert CellRule(w, p, M, take, j) && CellRule(w, p, M', take', j);
      assert Incl(w, p, M, j) == Incl(w, p, M', j);
    }
  }

  /** The recurrence determines the tables: the only pair obeying it is the
      one the forward pass builds. */
  lemma RecurrenceUnique(w: seq<int>, p: seq<int>, M: seq<int>, take: seq<bool>)
    requires Recurrence(w, p, M, take)
    ensures M == Table(w, p) && take == Takes(w, p)
  {
    TableRecurrence(w, p);
    RecurrenceAgree(w, p, M, take, Table(w, p), Takes(w, p), |w| - 1);
  }

  /** A table obeying the recurrence never decreases and never drops below 0. */
  lemma {:induction false} RecurrenceMonotone(w: seq<int>, p: seq<int>, M: seq<int>, take: seq<bool>, i: nat, j: nat)
    requires Recurrence(w, p, M, take) && i <= j < |w|
    ensures 0 <= M[i] <= M[j]
    decreases j
  {
    assert CellRule(w, p, M, take, j);
    if j > 0 {
      RecurrenceMonotone(w, p, M, take, if i < j then i else j - 1, j - 1);
    }
  }

  // ---------------------------------------------------------------------------
  // The walk back

  /** The walk back from `j` only ever moves to smaller indices, so the source's
      `while j >= 0` exits. */
  predicate Descends(p: seq<int>, take: seq<bool>, j: int)
    requires |take| == |p| && PredBounded(p) && -1 <= j < |p|
    decreases j + 1
  {
    j < 0 || if take[j] then p[j] < j && Descends(p, take, p[j]) else Descends(p, take, j - 1)
  }

  /** The value of `j` after `steps` iterations of the reconstruction loop started at `j`. */
  function Walk(p: seq<int>, take: seq<bool>, j: int, steps: nat): (r: int)
    requires |take| == |p| && PredBounded(p) && -1 <= j < |p|
    ensures -1 <= r < |p|
    decreases steps
  {
    if steps == 0 || j < 0 then j
    else Walk(p, take, if take[j] then p[j] else j - 1, steps - 1)
  }

  /** The source's loop, started at `j`, never exits. */
  ghost predicate NeverExits(p: seq<int>, take: seq<bool>, j: int)
    requires |take| == |p| && PredBounded(p) && -1 <= j < |p|
  {
    forall s: nat :: Walk(p, take, j, s) >= 0
  }

  /** The indices the walk back from `j` collects, in ascending order: the list
      after `selected.reverse()`. */
  function Traceback(p: seq<int>, take: seq<bool>, j: int): (idx: seq<int>)
    requires |take| == |p| && PredBounded(p) && -1 <= j < |p|
    requires Descends(p, take, j)
    ensures forall a :: 0 <= a < |idx| ==> 0 <= idx[a] <= j
    ensures forall a, b :: 0 <= a < b < |idx| ==> idx[a] < idx[b]
    decreases j + 1
  {
    if j < 0 then []
    else if take[j] then Traceback(p, take, p[j]) + [j]
    else Traceback(p, take, j - 1)
  }

  /** A walk that only moves down reaches `j < 0`: the loop exits. */
  lemma {:induction false} DescendsExits(p: seq<int>, take: seq<bool>, j: int)
    requires |take| == |p| && PredBounded(p) && -1 <= j < |p|
    requires Descends(p, take, j)
    ensures exists s: nat :: Walk(p, take, j, s) < 0
    decreases j + 1
  {
    if j < 0 {
      assert Walk(p, take, j, 0) < 0;
    } else {
      var next := if take[j] then p[j] else j - 1;
      DescendsExits(p, take, next);
      var s: nat :| Walk(p, take, next, s) < 0;
      assert Walk(p, take, j, s + 1) < 0;
    }
  }

  /** When every predecessor lies below its interval, the walk only moves down. */
  lemma {:induction false} AllBelowDescends(p: seq<int>, take: seq<bool>, j: int)
    requires |take| == |p| && PredBounded(p) && -1 <= j < |p|
    requires forall k :: 0 <= k < |p| ==> p[k] < k
    ensures Descends(p, take, j)
    decreases j + 1
  {
    if j >= 0 {
      if take[j] {
        AllBelowDescends(p, take, p[j]);
      } else {
        AllBelowDescends(p, take, j - 1);
      }
    }
  }

  /** The intervals from `k` up to the source's `p[k] >= k` are all zero-length
      at one point, so they all have the same `p`. */
  lemma ZeroLengthBlock(arr: seq<Interval>, k: int, j: int)
    requires SortedByFinish(arr) && WellFormed(arr)
    requires 0 <= k < |arr| && k <= j <= PredAsWritten(arr)[k]
    ensures arr[j].start == arr[j].end == arr[k].start
    ensures PredAsWritten(arr)[j] == PredAsWritten(arr)[k]
  {
    var b := PredAsWritten(arr)[k];
    assert Ends(arr)[b] <= arr[k].start;
    if k < j {
      assert KeyLe(arr[k], arr[j]);
    }
    if j < b {
      assert KeyLe(arr[j], arr[b]);
    }
    if k < b {
      assert KeyLe(arr[k], arr[b]);
    }
  }

  /** A taken `k` whose `p[k] >= k` heads a block `k..p[k]` that all share that `p`:
      once the loop is inside the block it stays there for ever. */
  lemma {:induction false} Trapped(p: seq<int>, take: seq<bool>, k: int, j: int, s: nat)
    requires |take| == |p| && PredBounded(p)
    requires 0 <= k < |p| && take[k] && k <= j <= p[k]
    requires forall i :: k <= i <= p[k] ==> p[i] == p[k]
    ensures k <= Walk(p, take, j, s) <= p[k]
    decreases s
  {
    if s > 0 {
      Trapped(p, take, k, if take[j] then p[j] else j - 1, s - 1);
    }
  }

  /** If the walk from `j` does not only move down, the source's loop never
      exits: `j` stays non-negative after any number of iterations. */
  lemma {:induction false} HangsForever(arr: seq<Interval>, take: seq<bool>, j: int, s: nat)
    requires SortedByFinish(arr) && WellFormed(arr) && |take| == |arr| && -1 <= j < |arr|
    requires PredBounded(PredAsWritten(arr))
    requires !Descends(PredAsWritten(arr), take, j)
    ensures Walk(PredAsWritten(arr), take, j, s) >= 0
    decreases j + 1
  {
    var p := PredAsWritten(arr);
    if s > 0 {
      if take[j] {
        if p[j] >= j {
          forall i | j <= i <= p[j] ensures p[i] == p[j] {
            ZeroLengthBlock(arr, j, i);
          }
          Trapped(p, take, j, p[j], s - 1);
        } else {
          HangsForever(arr, take, p[j], s - 1);
        }
      } else {
        HangsForever(arr, take, j - 1, s - 1);
      }
    }
  }

  /** With the source's predecessors on a sorted list of intervals with
      `start <= end`, the loop exits exactly when the walk only moves down. */
  lemma ExitsIffDescends(arr: seq<Interval>, take: seq<bool>)
    requires SortedByFinish(arr) && WellFormed(arr) && |take| == |arr|
    ensures var p := PredAsWritten(arr);
            PredBounded(p) &&
            (NeverExits(p, take, |arr| - 1) <==> !Descends(p, take, |arr| - 1))
  {
    var p, j := PredAsWritten(arr), |arr| - 1;
    PredsSound(arr);
    if Descends(p, take, j) {
      DescendsExits(p, take, j);
    } else {
      forall s: nat ensures Walk(p, take, j, s) >= 0 {
        HangsForever(arr, take, j, s);
      }
    }
  }

  /** The collected intervals weigh exactly `M[j]` (0 from `j = -1`). */
  lemma {:induction false} TracebackWeight(arr: seq<Interval>, p: seq<int>, M: seq<int>, take: seq<bool>, j: int)
    requires Recurrence(Weights(arr), p, M, take) && PredBounded(p) && -1 <= j < |arr|
    requires Descends(p, take, j)
    ensures SumWeights(Select(arr, Traceback(p, take, j))) == if j >= 0 then M[j] else 0
    decreases j + 1
  {
    if j >= 0 {
      assert CellRule(Weights(arr), p, M, take, j);
      if take[j] {
        TracebackWeight(arr, p, M, take, p[j]);
        SelectAppendWeight(arr, Traceback(p, take, p[j]), j);
      } else {
        TracebackWeight(arr, p, M, take, j - 1);
      }
    }
  }

  /** The collected intervals form a schedule, each ending no later than the
      next one starts. */
  lemma {:induction false} TracebackSchedule(arr: seq<Interval>, p: seq<int>, take: seq<bool>, j: int)
    requires SortedByFinish(arr) && PredSound(arr, p) && |take| == |arr| && -1 <= j < |arr|
    requires Descends(p, take, j)
    ensures var idx := Traceback(p, take, j);
            IsSchedule(arr, idx, j + 1) &&
            forall a, b :: 0 <= a < b < |idx| ==> arr[idx[a]].end <= arr[idx[b]].start
    decreases j + 1
  {
    if j >= 0 {
      if take[j] {
        TracebackSchedule(arr, p, take, p[j]);
        var before := Traceback(p, take, p[j]);
        forall a | 0 <= a < |before| ensures arr[before[a]].end <= arr[j].start {
          if before[a] < p[j] {
            assert KeyLe(arr[before[a]], arr[p[j]]);
          }
        }
      } else {
        TracebackSchedule(arr, p, take, j - 1);
      }
    }
  }

  /** The intervals collected from the last position are chained. */
  lemma TracebackChained(arr: seq<Interval>, p: seq<int>, take: seq<bool>)
    requires SortedByFinish(arr) && PredSound(arr, p) && |take| == |arr|
    requires Descends(p, take, |arr| - 1)
    ensures Chained(Select(arr, Traceback(p, take, |arr| - 1)))
  {
    TracebackSchedule(arr, p, take, |arr| - 1);
    SelectChained(arr, Traceback(p, take, |arr| - 1));
  }

  // ---------------------------------------------------------------------------
  // Optimality

  /** Strictly increasing indices starting at 0 or above are at least their positions. */
  lemma {:induction false} IncreasingIndices(idx: seq<int>, a: int)
    requires 0 <= a < |idx| && 0 <= idx[0]
    requires forall x, y :: 0 <= x < y < |idx| ==> idx[x] < idx[y]
    ensures idx[a] >= a
    decreases a
  {
    if a > 0 {
      IncreasingIndices(idx, a - 1);
    }
  }

  /** A schedule over `arr[..k]` has at most `k` intervals. */
  lemma ScheduleLength(arr: seq<Interval>, s: seq<int>, k: int)
    requires 0 <= k && IsSchedule(arr, s, k)
    ensures |s| <= k
  {
    if s != [] {
      assert 0 <= s[0] && s[|s| - 1] < k;
      IncreasingIndices(s, |s| - 1);
    }
  }

  /** Dropping the last index `j` of a schedule leaves a schedule over the
      indices up to `p[j]`. */
  lemma ScheduleBeforeLast(arr: seq<Interval>, p: seq<int>, s: seq<int>, j: int)
    requires PredExact(arr, p) && 0 <= j < |arr|
    requires IsSchedule(arr, s, j + 1) && s != [] && s[|s| - 1] == j
    ensures IsSchedule(arr, s[..|s| - 1], p[j] + 1)
  {
    var s' := s[..|s| - 1];
    forall a | 0 <= a < |s'| ensures s'[a] <= p[j] {
      assert s[a] < s[|s| - 1] && Compatible(arr[s[a]], arr[j]);
    }
  }

  /** A schedule over `arr[..j+1]` that does not end at `j` is one over `arr[..j]`. */
  lemma ScheduleWithoutLast(arr: seq<Interval>, s: seq<int>, j: int)
    requires IsSchedule(arr, s, j + 1) && s != [] && s[|s| - 1] != j
    ensures IsSchedule(arr, s, j) && 0 < j
  {
    forall a | 0 <= a < |s| ensures s[a] < j {
      if a < |s| - 1 {
        assert s[a] < s[|s| - 1];
      }
    }
  }

  /** No schedule over `arr[..j+1]` weighs more than `M[j]`. */
  lemma {:induction false} ScheduleBound(arr: seq<Interval>, p: seq<int>, M: seq<int>, take: seq<bool>, j: int, s: seq<int>)
    requires PredExact(arr, p) && Recurrence(Weights(arr), p, M, take) && 0 <= j < |arr|
    requires IsSchedule(arr, s, j + 1)
    ensures SumWeights(Select(arr, s)) <= M[j]
    decreases j, 1
  {
    if s == [] {
      RecurrenceMonotone(Weights(arr), p, M, take, j, j);
    } else if s[|s| - 1] != j {
      ScheduleBoundSkip(arr, p, M, take, j, s);
    } else {
      ScheduleBoundLast(arr, p, M, take, j, s);
    }
  }

  /** A schedule that leaves `j` out weighs at most `M[j-1] <= M[j]`. */
  lemma {:induction false} ScheduleBoundSkip(arr: seq<Interval>, p: seq<int>, M: seq<int>, take: seq<bool>, j: int, s: seq<int>)
    requires PredExact(arr, p) && Recurrence(Weights(arr), p, M, take) && 0 <= j < |arr|
    requires IsSchedule(arr, s, j + 1) && s != [] && s[|s| - 1] != j
    ensures SumWeights(Select(arr, s)) <= M[j]
    decreases j, 0
  {
    ScheduleWithoutLast(arr, s, j);
    ScheduleBound(arr, p, M, take, j - 1, s);
    RecurrenceMonotone(Weights(arr), p, M, take, j - 1, j);
  }

  /** A schedule that ends at `j` weighs at most `w[j] + M[p[j]]`, which is `incl <= M[j]`. */
  lemma {:induction false} ScheduleBoundLast(arr: seq<Interval>, p: seq<int>, M: seq<int>, take: seq<bool>, j: int, s: seq<int>)
    requires PredExact(arr, p) && Recurrence(Weights(arr), p, M, take) && 0 <= j < |arr|
    requires IsSchedule(arr, s, j + 1) && s != [] && s[|s| - 1] == j
    ensures SumWeights(Select(arr, s)) <= M[j]
    decreases j, 0
  {
    var s' := s[..|s| - 1];
    assert s == s' + [j];
    SelectAppendWeight(arr, s', j);
    ScheduleBeforeLast(arr, p, s, j);
    assert CellRule(Weights(arr), p, M, take, j);
    if p[j] >= 0 {
      ScheduleBound(arr, p, M, take, p[j], s');
    } else {
      ScheduleLength(arr, s', p[j] + 1);
    }
  }

  /** No schedule over the whole list weighs more than the returned total. */
  lemma RecurrenceUpper(arr: seq<Interval>, p: seq<int>, M: seq<int>, take: seq<bool>)
    requires PredExact(arr, p) && Recurrence(Weights(arr), p, M, take)
    ensures forall s :: IsSchedule(arr, s, |arr|) ==> SumWeights(Select(arr, s)) <= Total(M)
  {
    forall s | IsSchedule(arr, s, |arr|) ensures SumWeights(Select(arr, s)) <= Total(M) {
      if |arr| > 0 {
        ScheduleBound(arr, p, M, take, |arr| - 1, s);
      } else {
        ScheduleLength(arr, s, 0);
      }
    }
  }

  /** With exact predecessors, a table obeying the recurrence ends in the optimum
      over the whole list, and the walk back from the last position reaches it. */
  lemma RecurrenceOptimal(arr: seq<Interval>, p: seq<int>, M: seq<int>, take: seq<bool>)
    requires SortedByFinish(arr) && PredExact(arr, p)
    requires Recurrence(Weights(arr), p, M, take)
    ensures Descends(p, take, |arr| - 1)
    ensures SumWeights(Select(arr, Traceback(p, take, |arr| - 1))) == Total(M)
    ensures IsOptimal(arr, |arr|, Total(M))
  {
    var j := |arr| - 1;
    AllBelowDescends(p, take, j);
    TracebackWeight(arr, p, M, take, j);
    TracebackSchedule(arr, p, take, j);
    RecurrenceUpper(arr, p, M, take);
    OptimalIntro(arr, |arr|, Traceback(p, take, j), Total(M));
  }

  /** With exact predecessors every cell is an optimum: `M[j]` is the largest
      weight of any schedule over `arr[..j+1]`, and the walk back from `j`
      collects one that reaches it. */
  lemma RecurrenceCellOptimal(arr: seq<Interval>, p: seq<int>, M: seq<int>, take: seq<bool>, j: int)
    requires SortedByFinish(arr) && PredExact(arr, p)
    requires Recurrence(Weights(arr), p, M, take) && 0 <= j < |arr|
    ensures IsOptimal(arr, j + 1, M[j])
  {
    AllBelowDescends(p, take, j);
    TracebackWeight(arr, p, M, take, j);
    TracebackSchedule(arr, p, take, j);
    forall s | IsSchedule(arr, s, j + 1) ensures SumWeights(Select(arr, s)) <= M[j] {
      ScheduleBound(arr, p, M, take, j, s);
    }
    OptimalIntro(arr, j + 1, Traceback(p, take, j), M[j]);
  }

  /** Cell `j` of the table built with the intended predecessors is the optimum
      over `arr[..j+1]`, on a sorted list with `start <= end`. */
  lemma TableOptimal(arr: seq<Interval>, j: int)
    requires SortedByFinish(arr) && WellFormed(arr) && 0 <= j < |arr|
    ensures IsOptimal(arr, j + 1, Table(Weights(arr), PredBelow(arr))[j])
  {
    var p, w := PredBelow(arr), Weights(arr);
    PredBelowExact(arr);
    TableRecurrence(w, p);
    RecurrenceCellOptimal(arr, p, Table(w, p), Takes(w, p), j);
  }

  /** The finished table never decreases and never drops below 0, whatever
      the predecessors. */
  lemma TableMonotone(w: seq<int>, p: seq<int>, i: nat, j: nat)
    requires |w| == |p| && i <= j < |w|
    ensures 0 <= Table(w, p)[i] <= Table(w, p)[j]
  {
    TableRecurrence(w, p);
    RecurrenceMonotone(w, p, Table(w, p), Takes(w, p), i, j);
  }

  // ---------------------------------------------------------------------------
  // The result

  /** What the source returns for the sorted list `arr` and predecessors `p`, or
      Diverges where its reconstruction loop never exits. */
  function ResultOf(arr: seq<Interval>, p: seq<int>): Run<Schedule>
    requires |p| == |arr| && PredBounded(p)
  {
    var w := Weights(arr);
    var take := Takes(w, p);
    if Descends(p, take, |arr| - 1) then
      Exits(Schedule(Select(arr, Traceback(p, take, |arr| - 1)), Total(Table(w, p))))
    else Diverges
  }

  /** `weighted_interval_scheduling` as written. */
  function AsWritten(intervals: seq<Interval>): Run<Schedule>
  {
    var arr := SortByFinish(intervals);
    PredsSound(arr);
    ResultOf(arr, PredAsWritten(arr))
  }

  /** `weighted_interval_scheduling` with predecessors searched below `j` only. */
  function Intended(intervals: seq<Interval>): Run<Schedule>
  {
    var arr := SortByFinish(intervals);
    PredsSound(arr);
    ResultOf(arr, PredBelow(arr))
  }

  /** When the walk back only moves down, the result is the collected
      intervals and the last cell of the table. */
  lemma ResultExits(arr: seq<Interval>, p: seq<int>)
    requires |p| == |arr| && PredBounded(p)
    requires Descends(p, Takes(Weights(arr), p), |arr| - 1)
    ensures ResultOf(arr, p) ==
            Exits(Schedule(Select(arr, Traceback(p, Takes(Weights(arr), p), |arr| - 1)), Total(Table(Weights(arr), p))))
  {
  }

  /** The result is Exits exactly when the walk back only moves down. */
  lemma ResultExitsIff(arr: seq<Interval>, p: seq<int>)
    requires |p| == |arr| && PredBounded(p)
    ensures ResultOf(arr, p).Exits? <==> Descends(p, Takes(Weights(arr), p), |arr| - 1)
  {
  }

  /** The intervals collected from the last position weigh the last cell of the table. */
  lemma TracebackTotal(arr: seq<Interval>, p: seq<int>)
    requires |p| == |arr| && PredBounded(p)
    requires Descends(p, Takes(Weights(arr), p), |arr| - 1)
    ensures SumWeights(Select(arr, Traceback(p, Takes(Weights(arr), p), |arr| - 1))) == Total(Table(Weights(arr), p))
  {
    var w := Weights(arr);
    TableRecurrence(w, p);
    TracebackWeight(arr, p, Table(w, p), Takes(w, p), |arr| - 1);
  }

  /** Whenever the loop exits, the chosen intervals weigh the returned total. */
  lemma ResultWeight(arr: seq<Interval>, p: seq<int>)
    requires |p| == |arr| && PredBounded(p)
    ensures ResultOf(arr, p).Exits? ==>
              SumWeights(ResultOf(arr, p).value.selected) == ResultOf(arr, p).value.total
  {
    ResultExitsIff(arr, p);
    if Descends(p, Takes(Weights(arr), p), |arr| - 1) {
      ResultExits(arr, p);
      TracebackTotal(arr, p);
    }
  }

  /** Whenever the loop exits, the chosen intervals follow one another without
      overlap, in `(end, start)` order. */
  lemma ResultChained(arr: seq<Interval>, p: seq<int>)
    requires SortedByFinish(arr) && PredSound(arr, p)
    ensures ResultOf(arr, p).Exits? ==> Chained(ResultOf(arr, p).value.selected)
  {
    ResultExitsIff(arr, p);
    if Descends(p, Takes(Weights(arr), p), |arr| - 1) {
      ResultExits(arr, p);
      TracebackChained(arr, p, Takes(Weights(arr), p));
    }
  }

  /** On a sorted list with `start <= end` and the source's predecessors, the
      result is Exits exactly when the loop exits. */
  lemma ResultReturns(arr: seq<Interval>)
    requires SortedByFinish(arr) && WellFormed(arr)
    ensures var p := PredAsWritten(arr);
            PredBounded(p) &&
            (ResultOf(arr, p).Exits? <==> !NeverExits(p, Takes(Weights(arr), p), |arr| - 1))
  {
    var p := PredAsWritten(arr);
    PredsSound(arr);
    ResultExitsIff(arr, p);
    ExitsIffDescends(arr, Takes(Weights(arr), p));
  }

  /** On a sorted list with `start <= end` and the intended predecessors, the
      loop exits and returns an optimal schedule. */
  lemma ResultOptimal(arr: seq<Interval>)
    requires SortedByFinish(arr) && WellFormed(arr)
    ensures PredBounded(PredBelow(arr))
    ensures ResultOf(arr, PredBelow(arr)).Exits?
    ensures IsOptimal(arr, |arr|, ResultOf(arr, PredBelow(arr)).value.total)
  {
    var p, w := PredBelow(arr), Weights(arr);
    PredsSound(arr);
    PredBelowExact(arr);
    TableRecurrence(w, p);
    RecurrenceOptimal(arr, p, Table(w, p), Takes(w, p));
    ResultExits(arr, p);
  }

  /** The source's function returns exactly when its walk back only moves down;
      otherwise its loop runs for ever. */
  lemma AsWrittenReturns(intervals: seq<Interval>)
    requires WellFormed(intervals)
    ensures var arr := SortByFinish(intervals);
            var p := PredAsWritten(arr);
            PredBounded(p) &&
            (AsWritten(intervals).Exits? <==> !NeverExits(p, Takes(Weights(arr), p), |arr| - 1))
  {
    SortSorted(intervals);
    SortKeepsShape(intervals);
    ResultReturns(SortByFinish(intervals));
  }

  /** Whatever the source's function returns is a schedule of the returned
      weight, in `(end, start)` order. */
  lemma AsWrittenSound(intervals: seq<Interval>)
    ensures AsWritten(intervals).Exits? ==>
              SumWeights(AsWritten(intervals).value.selected) == AsWritten(intervals).value.total &&
              Chained(AsWritten(intervals).value.selected)
  {
    var arr := SortByFinish(intervals);
    SortSorted(intervals);
    PredsSound(arr);
    ResultWeight(arr, PredAsWritten(arr));
    ResultChained(arr, PredAsWritten(arr));
  }

  /** With intended predecessors the loop always exits, and the returned total
      is the largest weight of any set of pairwise compatible input intervals. */
  lemma IntendedOptimal(intervals: seq<Interval>)
    requires WellFormed(intervals)
    ensures Intended(intervals).Exits?
    ensures IsOptimal(SortByFinish(intervals), |intervals|, Intended(intervals).value.total)
  {
    SortLength(intervals);
    SortSorted(intervals);
    SortKeepsShape(intervals);
    ResultOptimal(SortByFinish(intervals));
  }

  /** With intended predecessors, too, the returned intervals weigh the returned
      total and are chained. */
  lemma IntendedSound(intervals: seq<Interval>)
    ensures Intended(intervals).Exits? ==>
              SumWeights(Intended(intervals).value.selected) == Intended(intervals).value.total &&
              Chained(Intended(intervals).value.selected)
  {
    var arr := SortByFinish(intervals);
    SortSorted(intervals);
    PredsSound(arr);
    ResultWeight(arr, PredBelow(arr));
    ResultChained(arr, PredBelow(arr));
  }

  /** Without zero-length intervals the source's function is the intended one:
      it returns, and its total is the optimum. */
  lemma AsWrittenPositive(intervals: seq<Interval>)
    requires PositiveLength(intervals)
    ensures AsWritten(intervals) == Intended(intervals)
    ensures AsWritten(intervals).Exits? &&
            IsOptimal(SortByFinish(intervals), |intervals|, AsWritten(intervals).value.total)
  {
    var arr := SortByFinish(intervals);
    SortSorted(intervals);
    SortKeepsShape(intervals);
    PredAsWrittenPositive(arr);
    IntendedOptimal(intervals);
  }
}
