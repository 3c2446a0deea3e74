/** How the two schedulers relate: the comparison `main` prints (the DP total
    is at least the greedy weight), where it holds, and the inputs on which the
    DP as written falls short of it or never returns. */
module Comparison {
  import opened Intervals
  import opened Sorting
  import opened Greedy
  import opened Dp

  /** A schedule never weighs more than the optimum. */
  lemma OptimalBounds(arr: seq<Interval>, k: int, v: int, s: seq<int>)
    requires IsOptimal(arr, k, v) && IsSchedule(arr, s, k)
    ensures SumWeights(Select(arr, s)) <= v
  {
  }

  /** The greedy selection is a schedule over the sorted input. */
  lemma GreedyIsSchedule(intervals: seq<Interval>)
    ensures var arr := SortByFinish(intervals);
            var idx := GreedyFrom(arr, 0, Sentinel);
            IsSchedule(arr, idx, |arr|) && GreedySelection(intervals) == Select(arr, idx)
  {
    SortSorted(intervals);
    GreedyPairwise(SortByFinish(intervals), Sentinel);
  }

  /** With predecessors searched below `j`, the DP total is at least the total
      weight of the greedy selection on the same input. */
  lemma DpAtLeastGreedy(intervals: seq<Interval>)
    requires WellFormed(intervals)
    ensures Intended(intervals).Exits?
    ensures SumWeights(GreedySelection(intervals)) <= Intended(intervals).value.total
  {
    var arr := SortByFinish(intervals);
    SortLength(intervals);
    IntendedOptimal(intervals);
    GreedyIsSchedule(intervals);
    OptimalBounds(arr, |arr|, Intended(intervals).value.total, GreedyFrom(arr, 0, Sentinel));
  }

  /** Without zero-length intervals the source's DP returns, and its total is
      at least the greedy weight. */
  lemma AsWrittenAtLeastGreedy(intervals: seq<Interval>)
    requires PositiveLength(intervals)
    ensures AsWritten(intervals).Exits?
    ensures SumWeights(GreedySelection(intervals)) <= AsWritten(intervals).value.total
  {
    AsWrittenPositive(intervals);
    DpAtLeastGreedy(intervals);
  }

  /** The result of the DP from its tables and its walk back, once these are known. */
  lemma ResultFrom(arr: seq<Interval>, p: seq<int>, M: seq<int>, take: seq<bool>, idx: seq<int>)
    requires |p| == |arr| && PredBounded(p)
    requires Table(Weights(arr), p) == M && Takes(Weights(arr), p) == take
    requires Descends(p, take, |arr| - 1) && Traceback(p, take, |arr| - 1) == idx
    ensures InRange(idx, |arr|)
    ensures ResultOf(arr, p) == Exits(Schedule(Select(arr, idx), Total(M)))
  {
    ResultExits(arr, p);
  }

  lemma SortSingle(x: Interval)
    ensures SortByFinish([x]) == [x]
  {
    assert [x][..0] == [];
  }

  lemma SortPair(x: Interval, y: Interval)
    requires KeyLe(x, y)
    ensures SortByFinish([x, y]) == [x, y]
  {
    assert [x, y][..1] == [x];
    SortSingle(x);
  }

  lemma SumPair(x: Interval, y: Interval)
    ensures SumWeights([x, y]) == x.weight + y.weight
  {
    assert [x, y][..1] == [x] && [x][..0] == [];
    assert SumWeights([x]) == x.weight;
  }

  lemma TableSingle(v: int, q: int)
    ensures Table([v], [q]) == [if v > 0 then v else 0]
    ensures Takes([v], [q]) == [v > 0]
  {
    assert [v][..0] == [] && [q][..0] == [];
  }

  lemma TablePair(v0: int, v1: int, q0: int, q1: int)
    requires v0 > 0 && v1 > 0 && q0 == -1 && -1 <= q1 <= 1
    ensures Table([v0, v1], [q0, q1]) == [v0, if q1 == 0 then v0 + v1 else if v1 > v0 then v1 else v0]
    ensures Takes([v0, v1], [q0, q1]) == [true, if q1 == 0 then v1 > 0 else v1 > v0]
  {
    assert [v0, v1][..1] == [v0] && [q0, q1][..1] == [q0];
    TableSingle(v0, q0);
  }

  /** One interval of length 0 and weight 1: the source's `p[0]` is 0, the
      interval is taken, and the reconstruction loop never returns a result.
      The intended predecessor -1 returns the interval. */
  lemma PointIntervalHangs()
    ensures var iv := [Interval(5, 5, 1, 0)];
            var p := PredAsWritten(iv);
            var take := Takes(Weights(iv), p);
            p == [0] && take == [true] &&
            AsWritten(iv) == Diverges && NeverExits(p, take, 0) &&
            Intended(iv) == Exits(Schedule(iv, 1))
  {
    var x := Interval(5, 5, 1, 0);
    var iv := [x];
    SortSingle(x);
    assert Weights(iv) == [1];
    assert PredAsWritten(iv) == [0];
    assert PredBelow(iv) == [-1];
    TableSingle(1, 0);
    TableSingle(1, -1);
    AsWrittenReturns(iv);
    assert Descends([-1], [true], 0);
    assert Traceback([-1], [true], 0) == [0];
    ResultFrom(iv, [-1], [1], [true], [0]);
    assert Select(iv, [0]) == iv;
  }

  /** An interval of length 5 followed by one of length 0 that touches it, both
      of weight 1: the two are compatible and the greedy takes both, but the
      source's DP stops at weight 1. The `p[1] = 1` of the point interval makes
      `incl = 1 + 0` tie with `excl = M[0] = 1`. */
  lemma ZeroLengthUndercounts()
    ensures var iv := [Interval(0, 5, 1, 0), Interval(5, 5, 1, 1)];
            SortByFinish(iv) == iv &&
            GreedySelection(iv) == iv && SumWeights(iv) == 2 &&
            AsWritten(iv) == Exits(Schedule([Interval(0, 5, 1, 0)], 1)) &&
            Intended(iv) == Exits(Schedule(iv, 2))
  {
    var a, b := Interval(0, 5, 1, 0), Interval(5, 5, 1, 1);
    SortPair(a, b);
    ZeroLengthGreedy(a, b);
    SumPair(a, b);
    ZeroLengthAsWritten(a, b);
    ZeroLengthIntended(a, b);
  }

  /** The source's predecessors `[-1, 1]`: the tie at `j = 1` excludes the point interval. */
  lemma ZeroLengthAsWritten(a: Interval, b: Interval)
    requires a == Interval(0, 5, 1, 0) && b == Interval(5, 5, 1, 1)
    ensures AsWritten([a, b]) == Exits(Schedule([a], 1))
  {
    var iv := [a, b];
    SortPair(a, b);
    ZeroLengthPreds(a, b);
    TablePair(1, 1, -1, 1);
    WalkPair(-1, 1, true, false);
    ResultFrom(iv, [-1, 1], [1, 1], [true, false], [0]);
  }

  /** The intended predecessors `[-1, 0]`: both intervals are taken. */
  lemma ZeroLengthIntended(a: Interval, b: Interval)
    requires a == Interval(0, 5, 1, 0) && b == Interval(5, 5, 1, 1)
    ensures Intended([a, b]) == Exits(Schedule([a, b], 2))
  {
    var iv := [a, b];
    SortPair(a, b);
    ZeroLengthPreds(a, b);
    TablePair(1, 1, -1, 0);
    WalkPair(-1, 0, true, true);
    ResultFrom(iv, [-1, 0], [1, 2], [true, true], [0, 1]);
  }

  lemma ZeroLengthGreedy(a: Interval, b: Interval)
    requires a == Interval(0, 5, 1, 0) && b == Interval(5, 5, 1, 1)
    ensures GreedySelection([a, b]) == [a, b]
  {
    SortPair(a, b);
    var iv := [a, b];
    assert GreedyFrom(iv, 2, 5) == [];
    assert GreedyFrom(iv, 1, 5) == [1];
    assert GreedyFrom(iv, 0, Sentinel) == [0, 1];
    assert Select(iv, [0, 1]) == iv;
  }

  lemma ZeroLengthPreds(a: Interval, b: Interval)
    requires a == Interval(0, 5, 1, 0) && b == Interval(5, 5, 1, 1)
    ensures PredAsWritten([a, b]) == [-1, 1] && PredBelow([a, b]) == [-1, 0]
    ensures Weights([a, b]) == [1, 1]
    ensures Select([a, b], [0]) == [a] && Select([a, b], [0, 1]) == [a, b]
  {
    assert Ends([a, b]) == [5, 5];
  }

  /** The walk back over two positions, with the first one taken and `p[0] = -1`. */
  lemma WalkPair(q0: int, q1: int, t0: bool, t1: bool)
    requires q0 == -1 && t0 && -1 <= q1 <= 1 && (t1 ==> q1 == 0)
    ensures Descends([q0, q1], [t0, t1], 1)
    ensures Traceback([q0, q1], [t0, t1], 1) == if t1 then [0, 1] else [0]
  {
    assert Traceback([q0, q1], [t0, t1], 0) == [0];
  }

  /** The greedy is not weight-optimal: on a long heavy interval and two light
      ones inside it, the greedy keeps the light pair (weight 6) while the DP
      returns the heavy one (weight 10). */
  lemma GreedyBelowDp()
    ensures var iv := [Interval(0, 10, 10, 0), Interval(0, 4, 3, 1), Interval(5, 10, 3, 2)];
            SumWeights(GreedySelection(iv)) == 6 &&
            AsWritten(iv) == Exits(Schedule([Interval(0, 10, 10, 0)], 10))
  {
    var a, b, c := Interval(0, 10, 10, 0), Interval(0, 4, 3, 1), Interval(5, 10, 3, 2);
    var iv, arr := [a, b, c], [b, a, c];
    DemoSorted(a, b, c);
    DemoGreedy(a, b, c);
    DemoTable(a, b, c);
    assert Descends([-1, -1, 0], [true, true, false], 2);
    assert Traceback([-1, -1, 0], [true, true, false], 2) == [1];
    ResultFrom(arr, [-1, -1, 0], [3, 10, 10], [true, true, false], [1]);
    assert Select(arr, [1]) == [a];
  }

  lemma DemoSorted(a: Interval, b: Interval, c: Interval)
    requires a == Interval(0, 10, 10, 0) && b == Interval(0, 4, 3, 1) && c == Interval(5, 10, 3, 2)
    ensures SortByFinish([a, b, c]) == [b, a, c]
  {
    assert [a, b, c][..2] == [a, b] && [a, b][..1] == [a];
    SortSingle(a);
    assert SortByFinish([a, b]) == Insert(b, [a]) == [b, a];
    assert Insert(c, [b, a]) == [b, a, c];
  }

  lemma DemoGreedy(a: Interval, b: Interval, c: Interval)
    requires a == Interval(0, 10, 10, 0) && b == Interval(0, 4, 3, 1) && c == Interval(5, 10, 3, 2)
    ensures SumWeights(GreedySelection([a, b, c])) == 6
  {
    DemoSorted(a, b, c);
    var arr := [b, a, c];
    assert GreedyFrom(arr, 3, 10) == [];
    assert GreedyFrom(arr, 2, 4) == [2];
    assert GreedyFrom(arr, 1, 4) == [2];
    assert GreedyFrom(arr, 0, Sentinel) == [0, 2];
    assert Select(arr, [0, 2]) == [b, c];
    SumPair(b, c);
  }

  lemma DemoTable(a: Interval, b: Interval, c: Interval)
    requires a == Interval(0, 10, 10, 0) && b == Interval(0, 4, 3, 1) && c == Interval(5, 10, 3, 2)
    ensures var arr := [b, a, c];
            PredAsWritten(arr) == [-1, -1, 0] &&
            Table(Weights(arr), [-1, -1, 0]) == [3, 10, 10] &&
            Takes(Weights(arr), [-1, -1, 0]) == [true, true, false]
  {
    var arr := [b, a, c];
    assert Ends(arr) == [4, 10, 10];
    var w := Weights(arr);
    assert w == [3, 10, 3];
    assert w[..2] == [3, 10] && [-1, -1, 0][..2] == [-1, -1];
    TablePair(3, 10, -1, -1);
  }
}
