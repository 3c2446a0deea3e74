/** The interval record both schedulers consume, the order they impose on it,
    and what counts as a valid schedule over a sorted list of intervals. */
module Intervals {

  /** One input row: a closed time range with a weight. `id` stands for the raw
      source record that the schedulers carry along and never inspect. */
  datatype Interval = Interval(start: int, end: int, weight: int, id: nat)

  /** The sort key `(end, start)`, compared lexicographically. */
  predicate KeyLe(a: Interval, b: Interval)
  {
    a.end < b.end || (a.end == b.end && a.start <= b.start)
  }

  /** Equal sort keys: the two intervals keep their input order under a stable sort. */
  predicate SameKey(a: Interval, b: Interval)
  {
    a.end == b.end && a.start == b.start
  }

  /** Every pair is in `(end, start)` order. */
  predicate SortedByFinish(s: seq<Interval>)
  {
    forall i, j :: 0 <= i < j < |s| ==> KeyLe(s[i], s[j])
  }

  /** What the loader guarantees: it swaps reversed endpoints, so `start <= end`. */
  predicate WellFormed(s: seq<Interval>)
  {
    forall i :: 0 <= i < |s| ==> s[i].start <= s[i].end
  }

  /** No zero-length interval: `start < end` throughout. */
  predicate PositiveLength(s: seq<Interval>)
  {
    forall i :: 0 <= i < |s| ==> s[i].start < s[i].end
  }

  /** Two intervals do not overlap; touching endpoints are compatible. */
  predicate Compatible(a: Interval, b: Interval)
  {
    a.end <= b.start || b.end <= a.start
  }

  /** A returned selection: every earlier interval ends no later than any later
      one starts, and they come in `(end, start)` order. */
  predicate Chained(sel: seq<Interval>)
  {
    forall a, b :: 0 <= a < b < |sel| ==> sel[a].end <= sel[b].start && KeyLe(sel[a], sel[b])
  }

  /** The source's `ends = [iv[1] for iv in arr]`. */
  function Ends(s: seq<Interval>): seq<int>
  {
    seq(|s|, i requires 0 <= i < |s| => s[i].end)
  }

  /** The source's `weights = [iv[2] for iv in arr]`. */
  function Weights(s: seq<Interval>): seq<int>
  {
    seq(|s|, i requires 0 <= i < |s| => s[i].weight)
  }

  /** Total weight of a list of intervals, summed from the front. */
  function SumWeights(s: seq<Interval>): int
  {
    if s == [] then 0 else SumWeights(s[..|s| - 1]) + s[|s| - 1].weight
  }

  predicate InRange(idx: seq<int>, n: int)
  {
    forall a :: 0 <= a < |idx| ==> 0 <= idx[a] < n
  }

  /** The intervals at the given indices, in the order of the indices. */
  function Select(arr: seq<Interval>, idx: seq<int>): seq<Interval>
    requires InRange(idx, |arr|)
  {
    seq(|idx|, a requires 0 <= a < |idx| => arr[idx[a]])
  }

  /** A schedule over `arr[..k]`: strictly increasing indices below `k` whose
      intervals are pairwise compatible. */
  ghost predicate IsSchedule(arr: seq<Interval>, idx: seq<int>, k: int)
  {
    k <= |arr| && InRange(idx, k) &&
    forall a, b :: 0 <= a < b < |idx| ==> idx[a] < idx[b] && Compatible(arr[idx[a]], arr[idx[b]])
  }

  /** `v` is the largest total weight of any schedule over `arr[..k]`, and some
      schedule reaches it. */
  ghost predicate IsOptimal(arr: seq<Interval>, k: int, v: int)
  {
    (forall s :: IsSchedule(arr, s, k) ==> SumWeights(Select(arr, s)) <= v) &&
    (exists s :: IsSchedule(arr, s, k) && SumWeights(Select(arr, s)) == v)
  }

  /** A schedule that weighs `v` while no schedule weighs more shows `v` optimal. */
  lemma OptimalIntro(arr: seq<Interval>, k: int, idx: seq<int>, v: int)
    requires forall s :: IsSchedule(arr, s, k) ==> SumWeights(Select(arr, s)) <= v
    requires IsSchedule(arr, idx, k) && SumWeights(Select(arr, idx)) == v
    ensures IsOptimal(arr, k, v)
  {
  }

  /** Intervals picked at increasing indices of a sorted list, each ending by
      the start of the next, form a chained selection. */
  lemma SelectChained(arr: seq<Interval>, idx: seq<int>)
    requires SortedByFinish(arr) && InRange(idx, |arr|)
    requires forall a, b :: 0 <= a < b < |idx| ==> idx[a] < idx[b] && arr[idx[a]].end <= arr[idx[b]].start
    ensures Chained(Select(arr, idx))
  {
  }

  /** The source's `selected.reverse()`. */
  function Reverse(s: seq<Interval>): seq<Interval>
  {
    if s == [] then [] else [s[|s| - 1]] + Reverse(s[..|s| - 1])
  }

  lemma SelectAppend(arr: seq<Interval>, idx: seq<int>, j: int)
    requires InRange(idx, |arr|) && 0 <= j < |arr|
    ensures InRange(idx + [j], |arr|)
    ensures Select(arr, idx + [j]) == Select(arr, idx) + [arr[j]]
  {
  }

  lemma {:induction false} SumWeightsAppend(s: seq<Interval>, t: seq<Interval>)
    ensures SumWeights(s + t) == SumWeights(s) + SumWeights(t)
    decreases |t|
  {
    if t == [] {
      assert s + t == s;
    } else {
      var t' := t[..|t| - 1];
      assert (s + t)[..|s + t| - 1] == s + t';
      SumWeightsAppend(s, t');
    }
  }

  /** Appending one index adds exactly that interval's weight. */
  lemma SelectAppendWeight(arr: seq<Interval>, idx: seq<int>, j: int)
    requires InRange(idx, |arr|) && 0 <= j < |arr|
    ensures InRange(idx + [j], |arr|)
    ensures SumWeights(Select(arr, idx + [j])) == SumWeights(Select(arr, idx)) + arr[j].weight
  {
    SelectAppend(arr, idx, j);
    assert (Select(arr, idx) + [arr[j]])[..|idx|] == Select(arr, idx);
  }

  lemma ReverseAppend(s: seq<Interval>, x: Interval)
    ensures Reverse(s + [x]) == [x] + Reverse(s)
  {
    assert (s + [x])[..|s|] == s;
  }

  /** Sorting by `(end, start)` sorts the `ends` list, as `bisect_right` needs. */
  lemma EndsSorted(arr: seq<Interval>)
    requires SortedByFinish(arr)
    ensures forall i, k :: 0 <= i < k < |arr| ==> Ends(arr)[i] <= Ends(arr)[k]
  {
    forall i, k | 0 <= i < k < |arr| ensures Ends(arr)[i] <= Ends(arr)[k] {
      assert KeyLe(arr[i], arr[k]);
    }
  }

  /** With the loader's `start <= end`, two compatible intervals in `(end, start)`
      order meet in that order: the earlier one ends no later than the later starts. */
  lemma CompatibleInOrder(arr: seq<Interval>, i: int, j: int)
    requires SortedByFinish(arr) && WellFormed(arr)
    requires 0 <= i < j < |arr| && Compatible(arr[i], arr[j])
    ensures arr[i].end <= arr[j].start
  {
    assert KeyLe(arr[i], arr[j]);
  }
}
