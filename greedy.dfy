/** `greedy_earliest_finish`: scan the intervals by `(end, start)` once and accept
    each one that starts no earlier than the last accepted one ended. */
module Greedy {
  import opened Intervals
  import opened Sorting

  /** The source's initial `last_end = -1e18`: "nothing accepted yet". An interval
      starting below it is rejected even when nothing has been accepted. */
  const Sentinel: int := -1_000_000_000_000_000_000

  /** Indices, ascending, that the scan accepts from `arr[i..]` when the last
      accepted interval ended at `lastEnd`. */
  function GreedyFrom(arr: seq<Interval>, i: nat, lastEnd: int): (idx: seq<int>)
    requires i <= |arr|
    ensures forall a :: 0 <= a < |idx| ==> i <= idx[a] < |arr|
    ensures forall a, b :: 0 <= a < b < |idx| ==> idx[a] < idx[b]
    decreases |arr| - i
  {
    if i == |arr| then []
    else if arr[i].start >= lastEnd then [i] + GreedyFrom(arr, i + 1, arr[i].end)
    else GreedyFrom(arr, i + 1, lastEnd)
  }

  /** The selection of the whole scan over the sorted input. */
  function GreedySelection(intervals: seq<Interval>): seq<Interval>
  {
    var arr := SortByFinish(intervals);
    SortLength(intervals);
    Select(arr, GreedyFrom(arr, 0, Sentinel))
  }

  /** The loop of the source: `selected` grows by appending and `last_end` moves
      to the end of each accepted interval. */
  method GreedyEarliestFinish(intervals: seq<Interval>) returns (selected: seq<Interval>)
    ensures selected == GreedySelection(intervals)
    ensures intervals == [] ==> selected == []
    ensures Chained(selected)
  {
    var arr := SortByFinish(intervals);
    SortLength(intervals);
    ghost var all := Select(arr, GreedyFrom(arr, 0, Sentinel));
    selected := [];
    var lastEnd := Sentinel;
    for i := 0 to |arr|
      invariant selected + Select(arr, GreedyFrom(arr, i, lastEnd)) == all
    {
      GreedyStep(arr, i, lastEnd);
      if arr[i].start >= lastEnd {
        selected := selected + [arr[i]];
        lastEnd := arr[i].end;
      }
    }
    assert selected == all;
    GreedyOrdered(intervals);
  }

  /** One iteration of the scan: an accepted interval is prepended to what the
      rest of the scan accepts. */
  lemma GreedyStep(arr: seq<Interval>, i: nat, lastEnd: int)
    requires i < |arr|
    ensures Select(arr, GreedyFrom(arr, i, lastEnd)) ==
            if arr[i].start >= lastEnd then [arr[i]] + Select(arr, GreedyFrom(arr, i + 1, arr[i].end))
            else Select(arr, GreedyFrom(arr, i + 1, lastEnd))
  {
    if arr[i].start >= lastEnd {
      assert Select(arr, [i] + GreedyFrom(arr, i + 1, arr[i].end))
          == [arr[i]] + Select(arr, GreedyFrom(arr, i + 1, arr[i].end));
    }
  }

  /** Each accepted interval starts no earlier than the previous accepted one
      ended, and the first no earlier than `lastEnd`. */
  lemma {:induction false} GreedyChain(arr: seq<Interval>, i: nat, lastEnd: int)
    requires i <= |arr|
    ensures var idx := GreedyFrom(arr, i, lastEnd);
            (idx != [] ==> arr[idx[0]].start >= lastEnd) &&
            forall a :: 0 < a < |idx| ==> arr[idx[a - 1]].end <= arr[idx[a]].start
    decreases |arr| - i
  {
    if i < |arr| {
      if arr[i].start >= lastEnd {
        GreedyChain(arr, i + 1, arr[i].end);
      } else {
        GreedyChain(arr, i + 1, lastEnd);
      }
    }
  }

  /** On a list sorted by end, every earlier accepted interval ends no later than
      any later accepted one starts, so the selection is a schedule. */
  lemma GreedyPairwise(arr: seq<Interval>, lastEnd: int)
    requires SortedByFinish(arr)
    ensures var idx := GreedyFrom(arr, 0, lastEnd);
            (forall a, b :: 0 <= a < b < |idx| ==> arr[idx[a]].end <= arr[idx[b]].start) &&
            IsSchedule(arr, idx, |arr|)
  {
    var idx := GreedyFrom(arr, 0, lastEnd);
    GreedyChain(arr, 0, lastEnd);
    forall a, b | 0 <= a < b < |idx| ensures arr[idx[a]].end <= arr[idx[b]].start {
      if idx[a] < idx[b - 1] {
        assert KeyLe(arr[idx[a]], arr[idx[b - 1]]);
      }
    }
  }

  lemma GreedyOrdered(intervals: seq<Interval>)
    ensures Chained(GreedySelection(intervals))
  {
    var arr := SortByFinish(intervals);
    SortLength(intervals);
    SortSorted(intervals);
    GreedyPairwise(arr, Sentinel);
  }

  /** For non-empty input the first interval in `(end, start)` order is accepted
      exactly when it starts at or after the sentinel. */
  lemma GreedyTakesFirst(intervals: seq<Interval>)
    requires intervals != []
    ensures var arr := SortByFinish(intervals);
            |arr| == |intervals| &&
            var idx := GreedyFrom(arr, 0, Sentinel);
            (idx != [] && idx[0] == 0) <==> arr[0].start >= Sentinel
  {
    SortLength(intervals);
  }
  /** Every start is at or above the `-1e18` sentinel, so only overlap can
      make the scan reject an interval. */
  predicate AboveSentinel(s: seq<Interval>)
  {
    forall i :: 0 <= i < |s| ==> s[i].start >= Sentinel
  }

  /** The scan from `i` picks at least as many intervals as any schedule whose
      indices are at least `i` and whose starts are at least `lastEnd` ("greedy
      stays ahead"): the first accepted interval ends no later than the first
      one of the schedule, so what remains of the schedule still fits after it. */
  lemma {:induction false} GreedyFromMax(arr: seq<Interval>, i: nat, lastEnd: int, s: seq<int>)
    requires SortedByFinish(arr) && WellFormed(arr) && i <= |arr|
    requires IsSchedule(arr, s, |arr|)
    requires forall a :: 0 <= a < |s| ==> i <= s[a] && arr[s[a]].start >= lastEnd
    ensures |s| <= |GreedyFrom(arr, i, lastEnd)|
    decreases |arr| - i
  {
    assert |s| > 0 ==> i <= s[0] < |arr|;
    if i < |arr| {
      if arr[i].start < lastEnd {
        GreedyFromMax(arr, i + 1, lastEnd, s);
      } else if s != [] {
        var rest := s[1..];
        forall a | 0 <= a < |rest| ensures i + 1 <= rest[a] && arr[rest[a]].start >= arr[i].end {
          assert s[0] < s[a + 1] && Compatible(arr[s[0]], arr[s[a + 1]]);
          CompatibleInOrder(arr, s[0], s[a + 1]);
          if i < s[0] {
            assert KeyLe(arr[i], arr[s[0]]);
          }
        }
        assert IsSchedule(arr, rest, |arr|) by {
          forall a, b | 0 <= a < b < |rest| ensures rest[a] < rest[b] && Compatible(arr[rest[a]], arr[rest[b]]) {
            assert rest[a] == s[a + 1] && rest[b] == s[b + 1];
          }
        }
        GreedyFromMax(arr, i + 1, arr[i].end, rest);
      }
    }
  }

  /** No set of pairwise compatible intervals of the sorted input has more
      members than the greedy selection: the scan maximises the count. */
  lemma GreedyMaxCount(intervals: seq<Interval>)
    requires WellFormed(intervals) && AboveSentinel(intervals)
    ensures forall s :: IsSchedule(SortByFinish(intervals), s, |intervals|) ==>
                          |s| <= |GreedySelection(intervals)|
  {
    var arr := SortByFinish(intervals);
    SortLength(intervals);
    SortSorted(intervals);
    SortKeepsShape(intervals);
    SortAboveSentinel(intervals);
    forall s | IsSchedule(arr, s, |arr|) ensures |s| <= |GreedySelection(intervals)| {
      GreedyFromMax(arr, 0, Sentinel, s);
    }
  }

  /** Sorting keeps every start at or above the sentinel. */
  lemma SortAboveSentinel(intervals: seq<Interval>)
    requires AboveSentinel(intervals)
    ensures AboveSentinel(SortByFinish(intervals))
  {
    var r := SortByFinish(intervals);
    SortPermutes(intervals);
    forall i | 0 <= i < |r| ensures r[i] in intervals {
      assert r[i] in multiset(r);
    }
  }
}
