/** The predecessor search: Python's `bisect.bisect_right` and the index it is used to find. */
module Bisect {

  /** The rightmost index `i < k` with `a[i] <= x`, or -1 when there is none:
      the index a linear scan from the right would find. */
  function Rightmost(a: seq<int>, x: int, k: nat): (r: int)
    requires k <= |a|
    ensures -1 <= r < k
    ensures r >= 0 ==> a[r] <= x
    ensures forall i :: r < i < k ==> x < a[i]
    decreases k
  {
    if k == 0 then -1
    else if a[k - 1] <= x then k - 1
    else Rightmost(a, x, k - 1)
  }

  /** `bisect_right(a, x, lo, hi)`: the insertion point for `x` in the sorted
      slice `a[lo..hi]` after every entry equal to `x`. */
  method BisectRight(a: seq<int>, x: int, lo: nat, hi: nat) returns (r: nat)
    requires lo <= hi <= |a|
    requires forall i, j :: lo <= i < j < hi ==> a[i] <= a[j]
    ensures lo <= r <= hi
    ensures forall i :: lo <= i < r ==> a[i] <= x
    ensures forall i :: r <= i < hi ==> x < a[i]
  {
    var l, h := lo, hi;
    while l < h
      invariant lo <= l <= h <= hi
      invariant forall i :: lo <= i < l ==> a[i] <= x
      invariant forall i :: h <= i < hi ==> x < a[i]
      decreases h - l
    {
      var mid := (l + h) / 2;
      if x < a[mid] {
        h := mid;
      } else {
        l := mid + 1;
      }
    }
    r := l;
  }

  /** On a slice starting at 0, one less than `bisect_right` is the rightmost
      index whose value is at most `x`. */
  lemma BisectIsRightmost(a: seq<int>, x: int, hi: nat, r: nat)
    requires r <= hi <= |a|
    requires forall i :: 0 <= i < r ==> a[i] <= x
    requires forall i :: r <= i < hi ==> x < a[i]
    ensures r - 1 == Rightmost(a, x, hi)
  {
  }

  /** In a sorted array the rightmost entry at most `x` lies below `j` exactly
      when `x < a[j]`, and it is then also the rightmost one below `j`. */
  lemma RightmostBelow(a: seq<int>, x: int, j: nat)
    requires j < |a|
    requires forall i, k :: 0 <= i < k < |a| ==> a[i] <= a[k]
    ensures Rightmost(a, x, |a|) < j <==> x < a[j]
    ensures x < a[j] ==> Rightmost(a, x, |a|) == Rightmost(a, x, j)
  {
  }
}
