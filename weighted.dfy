/** `weighted_interval_scheduling`: sort by `(end, start)`, find each interval's
    predecessor with `bisect_right`, fill the DP table `M` and the choice table
    `take` in one forward pass, then walk back from the last interval to collect
    the chosen ones. Each step is proved equal to its counterpart in Dp. */
module Weighted {
  import opened Intervals
  import opened Sorting
  import opened Bisect
  import opened Dp

  /** The source's loop `p.append(bisect_right(ends, starts[j]) - 1)`. */
  method Predecessors(arr: seq<Interval>) returns (p: seq<int>)
    requires SortedByFinish(arr)
    ensures p == PredAsWritten(arr)
  {
    var ends := Ends(arr);
    EndsSorted(arr);
    p := [];
    for j := 0 to |arr|
      invariant p == PredAsWritten(arr)[..j]
    {
      var i: int := BisectRight(ends, arr[j].start, 0, |ends|);
      BisectIsRightmost(ends, arr[j].start, |ends|, i);
      p := p + [i - 1];
    }
  }

  /** The same loop with the search confined to `ends[0..j]`,
      `bisect_right(ends, starts[j], 0, j) - 1`. */
  method PredecessorsBelow(arr: seq<Interval>) returns (p: seq<int>)
    requires SortedByFinish(arr)
    ensures p == PredBelow(arr)
  {
    var ends := Ends(arr);
    EndsSorted(arr);
    p := [];
    for j := 0 to |arr|
      invariant p == PredBelow(arr)[..j]
    {
      var i: int := BisectRight(ends, arr[j].start, 0, j);
      BisectIsRightmost(ends, arr[j].start, j, i);
      p := p + [i - 1];
    }
  }

  /** The source's forward pass over the preallocated arrays `M` and `take`:
      it leaves tables that obey the recurrence, hence (Dp.RecurrenceUnique)
      exactly `Table(w, p)` and `Takes(w, p)`. */
  method FillTable(w: seq<int>, p: seq<int>) returns (M: array<int>, take: array<bool>)
    requires |w| == |p| && PredBounded(p)
    ensures M[..] == Table(w, p) && take[..] == Takes(w, p)
  {
    var n := |w|;
    M := new int[n](_ => 0);
    take := new bool[n](_ => false);
    for j := 0 to n
      invariant M.Length == n && take.Length == n
      invariant forall k :: 0 <= k < j ==> CellRule(w, p, M[..], take[..], k)
      invariant forall k :: j <= k < n ==> M[k] == 0
    {
      var incl := w[j] + (if p[j] != -1 then M[p[j]] else 0);
      var excl := if j - 1 >= 0 then M[j - 1] else 0;
      ghost var before, takenBefore := M[..], take[..];
      assert incl == Incl(w, p, before, j) && excl == Excl(before, j);
      if incl > excl {
        M[j] := incl;
        take[j] := true;
      } else {
        M[j] := excl;
        take[j] := false;
      }
      forall k | 0 <= k <= j ensures CellRule(w, p, M[..], take[..], k) {
        if k < j {
          assert CellRule(w, p, before, takenBefore, k);
        }
        assert Incl(w, p, M[..], k) == Incl(w, p, before, k);
      }
    }
    assert Recurrence(w, p, M[..], take[..]);
    RecurrenceUnique(w, p, M[..], take[..]);
  }

  /** The source's backtracking loop and the final `reverse()`. Where the source
      jumps from a taken `j` to `p[j] >= j` it never leaves the loop again
      (HangsForever); the model stops there with Diverges. */
  method Reconstruct(arr: seq<Interval>, p: seq<int>, take: array<bool>) returns (r: Run<seq<Interval>>)
    requires |p| == |arr| == take.Length && PredBounded(p)
    ensures r.Exits? <==> Descends(p, take[..], |arr| - 1)
    ensures r.Exits? ==> r.value == Select(arr, Traceback(p, take[..], |arr| - 1))
  {
    ghost var t := take[..];
    var picked: seq<Interval> := [];
    var j := |arr| - 1;
    while j >= 0
      invariant -1 <= j < |arr|
      invariant Descends(p, t, |arr| - 1) <==> Descends(p, t, j)
      invariant Descends(p, t, j) ==>
                  Select(arr, Traceback(p, t, |arr| - 1)) == Select(arr, Traceback(p, t, j)) + Reverse(picked)
      decreases j
    {
      if take[j] {
        if p[j] >= j {
          return Diverges;
        }
        if Descends(p, t, j) {
          SelectAppend(arr, Traceback(p, t, p[j]), j);
        }
        ReverseAppend(picked, arr[j]);
        picked := picked + [arr[j]];
        j := p[j];
      } else {
        j := j - 1;
      }
    }
    r := Exits(Reverse(picked));
  }

  /** The part of `weighted_interval_scheduling` after the predecessor search:
      fill the tables, walk back, and return the chosen intervals with `M[n-1]`. */
  method FillAndTrace(arr: seq<Interval>, p: seq<int>) returns (r: Run<Schedule>)
    requires |p| == |arr| && PredBounded(p)
    ensures r == ResultOf(arr, p)
  {
    var n := |arr|;
    var M, take := FillTable(Weights(arr), p);
    var run := Reconstruct(arr, p, take);
    ResultExitsIff(arr, p);
    if run.Diverges? {
      return Diverges;
    }
    var total := if n > 0 then M[n - 1] else 0;
    assert total == Total(M[..]);
    ResultExits(arr, p);
    r := Exits(Schedule(run.value, total));
  }

  /** `weighted_interval_scheduling` as written. Where its reconstruction loop
      would never exit (Dp.AsWrittenReturns) the model returns Diverges. */
  method WeightedIntervalScheduling(intervals: seq<Interval>) returns (r: Run<Schedule>)
    requires WellFormed(intervals)
    ensures r == AsWritten(intervals)
  {
    var arr := SortByFinish(intervals);
    SortSorted(intervals);
    var p := Predecessors(arr);
    PredsSound(arr);
    r := FillAndTrace(arr, p);
  }

  /** `weighted_interval_scheduling` with the predecessor search confined to
      indices below `j`, as the comment on it says. It always returns
      (Dp.IntendedOptimal), with the optimum. */
  method WeightedIntervalSchedulingBelow(intervals: seq<Interval>) returns (r: Schedule)
    ensures Intended(intervals) == Exits(r)
  {
    var arr := SortByFinish(intervals);
    SortSorted(intervals);
    var p := PredecessorsBelow(arr);
    PredsSound(arr);
    AllBelowDescends(p, Takes(Weights(arr), p), |arr| - 1);
    ResultExitsIff(arr, p);
    var run := FillAndTrace(arr, p);
    r := run.value;
  }
}
