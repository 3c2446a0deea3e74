/** The canonical order both schedulers start from:
    `sorted(intervals, key=lambda iv: (iv[1], iv[0]))`, a stable sort by end, then start. */
module Sorting {
  import opened Intervals

  /** Places `x` into the sorted `s` after every element whose key is at most its own,
      so that equal keys keep their arrival order. */
  function Insert(x: Interval, s: seq<Interval>): seq<Interval>
  {
    if s == [] || KeyLe(s[|s| - 1], x) then s + [x]
    else Insert(x, s[..|s| - 1]) + [s[|s| - 1]]
  }

  /** Stable insertion sort by `(end, start)`, taking the input from the front. */
  function SortByFinish(s: seq<Interval>): seq<Interval>
  {
    if s == [] then [] else Insert(s[|s| - 1], SortByFinish(s[..|s| - 1]))
  }

  /** The elements of `s` whose key equals that of `k`, in the order of `s`. */
  function WithKey(s: seq<Interval>, k: Interval): seq<Interval>
  {
    if s == [] then []
    else WithKey(s[..|s| - 1], k) + (if SameKey(s[|s| - 1], k) then [s[|s| - 1]] else [])
  }

  lemma {:induction false} InsertPermutes(x: Interval, s: seq<Interval>)
    ensures multiset(Insert(x, s)) == multiset(s) + multiset{x}
    decreases |s|
  {
    if s == [] || KeyLe(s[|s| - 1], x) {
    } else {
      var s' := s[..|s| - 1];
      InsertPermutes(x, s');
      assert s == s' + [s[|s| - 1]];
    }
  }

  lemma {:induction false} InsertSorted(x: Interval, s: seq<Interval>)
    requires SortedByFinish(s)
    ensures SortedByFinish(Insert(x, s))
    decreases |s|
  {
    if s == [] || KeyLe(s[|s| - 1], x) {
    } else {
      var s', last := s[..|s| - 1], s[|s| - 1];
      InsertSorted(x, s');
      InsertPermutes(x, s');
      var r := Insert(x, s');
      forall i | 0 <= i < |r| ensures KeyLe(r[i], last) {
        assert r[i] in multiset(r);
        if r[i] != x {
          assert r[i] in multiset(s');
          var k :| 0 <= k < |s'| && s'[k] == r[i];
        }
      }
    }
  }

  /** The result is ordered by `(end, start)`. */
  lemma {:induction false} SortSorted(s: seq<Interval>)
    ensures SortedByFinish(SortByFinish(s))
    decreases |s|
  {
    if s != [] {
      SortSorted(s[..|s| - 1]);
      InsertSorted(s[|s| - 1], SortByFinish(s[..|s| - 1]));
    }
  }

  /** The result is a permutation of the input: nothing lost, nothing added. */
  lemma {:induction false} SortPermutes(s: seq<Interval>)
    ensures multiset(SortByFinish(s)) == multiset(s)
    decreases |s|
  {
    if s != [] {
      var s' := s[..|s| - 1];
      SortPermutes(s');
      InsertPermutes(s[|s| - 1], SortByFinish(s'));
      assert s == s' + [s[|s| - 1]];
    }
  }

  lemma {:induction false} WithKeyAppend(s: seq<Interval>, t: seq<Interval>, k: Interval)
    ensures WithKey(s + t, k) == WithKey(s, k) + WithKey(t, k)
    decreases |t|
  {
    if t == [] {
      assert s + t == s;
    } else {
      var t' := t[..|t| - 1];
      assert (s + t)[..|s + t| - 1] == s + t';
      WithKeyAppend(s, t', k);
    }
  }

  lemma {:induction false} InsertStable(x: Interval, s: seq<Interval>, k: Interval)
    requires SortedByFinish(s)
    ensures WithKey(Insert(x, s), k) == WithKey(s, k) + (if SameKey(x, k) then [x] else [])
    decreases |s|
  {
    if s == [] || KeyLe(s[|s| - 1], x) {
      WithKeyAppend(s, [x], k);
      assert WithKey([x], k) == WithKey([], k) + (if SameKey(x, k) then [x] else []);
    } else {
      var s', last := s[..|s| - 1], s[|s| - 1];
      InsertStable(x, s', k);
      var lastPart := if SameKey(last, k) then [last] else [];
      WithKeyAppend(Insert(x, s'), [last], k);
      assert WithKey([last], k) == WithKey([], k) + lastPart;
      assert s == s' + [last];
      WithKeyAppend(s', [last], k);
    }
  }

  /** The sort is stable: the intervals sharing any one key come out in their
      input order. With SortSorted and SortPermutes this pins the result down to
      the one Python's stable `sorted` returns. */
  lemma {:induction false} SortStable(s: seq<Interval>, k: Interval)
    ensures WithKey(SortByFinish(s), k) == WithKey(s, k)
    decreases |s|
  {
    if s != [] {
      var s' := s[..|s| - 1];
      SortStable(s', k);
      SortSorted(s');
      InsertStable(s[|s| - 1], SortByFinish(s'), k);
    }
  }

  lemma SortLength(s: seq<Interval>)
    ensures |SortByFinish(s)| == |s|
  {
    SortPermutes(s);
    assert |multiset(SortByFinish(s))| == |multiset(s)|;
  }

  /** Sorting neither creates nor loses zero-length or reversed intervals. */
  lemma SortKeepsShape(s: seq<Interval>)
    ensures WellFormed(s) ==> WellFormed(SortByFinish(s))
    ensures PositiveLength(s) ==> PositiveLength(SortByFinish(s))
  {
    var r := SortByFinish(s);
    SortPermutes(s);
    forall i | 0 <= i < |r| ensures r[i] in s {
      assert r[i] in multiset(r);
    }
  }
}
