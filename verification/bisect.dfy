/**
 Binary searches over a sequence of integer timestamps, with the loop shape of
 the standard `bisect_left` / `bisect_right` routines the cache relies on.
 Like those routines, the searches accept any sequence; what they promise about
 the returned position holds when the sequence is sorted.
 */
module Bisect {

  /** Non-decreasing order, the precondition under which bisection is meaningful. */
  predicate Sorted(a: seq<int>) {
    forall i, j :: 0 <= i < j < |a| ==> a[i] <= a[j]
  }

  /** Number of elements of `a` that are at most `x` (a linear reference count). */
  function CountAtMost(a: seq<int>, x: int): (n: nat)
    ensures n <= |a|
  {
    if |a| == 0 then 0 else (if a[0] <= x then 1 else 0) + CountAtMost(a[1..], x)
  }

  /** Number of elements of `a` that are strictly below `x`. */
  function CountBelow(a: seq<int>, x: int): (n: nat)
    ensures n <= |a|
  {
    if |a| == 0 then 0 else (if a[0] < x then 1 else 0) + CountBelow(a[1..], x)
  }

  /** One search window [lo, hi) of `bisect_right`: halve until empty, moving
      right past every element that is at most `x`. */
  function BisectRightIn(a: seq<int>, x: int, lo: nat, hi: nat): (r: nat)
    requires lo <= hi <= |a|
    ensures lo <= r <= hi
    ensures Sorted(a) ==> forall i :: lo <= i < r ==> a[i] <= x
    ensures Sorted(a) ==> forall i :: r <= i < hi ==> x < a[i]
    decreases hi - lo
  {
    if lo < hi then
      var mid := (lo + hi) / 2;
      if x < a[mid] then BisectRightIn(a, x, lo, mid)
      else BisectRightIn(a, x, mid + 1, hi)
    else
      lo
  }

  /** One search window [lo, hi) of `bisect_left`: halve until empty, moving
      right past every element that is strictly below `x`. */
  function BisectLeftIn(a: seq<int>, x: int, lo: nat, hi: nat): (r: nat)
    requires lo <= hi <= |a|
    ensures lo <= r <= hi
    ensures Sorted(a) ==> forall i :: lo <= i < r ==> a[i] < x
    ensures Sorted(a) ==> forall i :: r <= i < hi ==> x <= a[i]
    decreases hi - lo
  {
    if lo < hi then
      var mid := (lo + hi) / 2;
      if a[mid] < x then BisectLeftIn(a, x, mid + 1, hi)
      else BisectLeftIn(a, x, lo, mid)
    else
      lo
  }

  /** The position of the first element strictly greater than `x`. */
  function BisectRight(a: seq<int>, x: int): (r: nat)
    ensures r <= |a|
    ensures Sorted(a) ==> forall i :: 0 <= i < r ==> a[i] <= x
    ensures Sorted(a) ==> forall i :: r <= i < |a| ==> x < a[i]
  {
    BisectRightIn(a, x, 0, |a|)
  }

  /** The position of the first element greater than or equal to `x`. */
  function BisectLeft(a: seq<int>, x: int): (r: nat)
    ensures r <= |a|
    ensures Sorted(a) ==> forall i :: 0 <= i < r ==> a[i] < x
    ensures Sorted(a) ==> forall i :: r <= i < |a| ==> x <= a[i]
  {
    BisectLeftIn(a, x, 0, |a|)
  }

  /** A split point of a sorted sequence is unique: everything before it is at
      most `x` and everything from it on is above `x` pins it to `CountAtMost`. */
  lemma {:induction false} SplitAtMostIsCount(a: seq<int>, x: int, p: nat)
    requires p <= |a|
    requires forall i :: 0 <= i < p ==> a[i] <= x
    requires forall i :: p <= i < |a| ==> x < a[i]
    ensures p == CountAtMost(a, x)
    decreases |a|
  {
    if |a| > 0 {
      if p == 0 {
        SplitAtMostIsCount(a[1..], x, 0);
      } else {
        SplitAtMostIsCount(a[1..], x, p - 1);
      }
    }
  }

  lemma {:induction false} SplitBelowIsCount(a: seq<int>, x: int, p: nat)
    requires p <= |a|
    requires forall i :: 0 <= i < p ==> a[i] < x
    requires forall i :: p <= i < |a| ==> x <= a[i]
    ensures p == CountBelow(a, x)
    decreases |a|
  {
    if |a| > 0 {
      if p == 0 {
        SplitBelowIsCount(a[1..], x, 0);
      } else {
        SplitBelowIsCount(a[1..], x, p - 1);
      }
    }
  }

  /** On a sorted sequence `bisect_right` counts the elements that are at most `x`. */
  lemma BisectRightCounts(a: seq<int>, x: int)
    requires Sorted(a)
    ensures BisectRight(a, x) == CountAtMost(a, x)
  {
    SplitAtMostIsCount(a, x, BisectRight(a, x));
  }

  /** On a sorted sequence `bisect_left` counts the elements that are below `x`. */
  lemma BisectLeftCounts(a: seq<int>, x: int)
    requires Sorted(a)
    ensures BisectLeft(a, x) == CountBelow(a, x)
  {
    SplitBelowIsCount(a, x, BisectLeft(a, x));
  }

  /** For `x <= y` the left position of `x` never passes the right position of `y`,
      so the slice between them is well formed. */
  lemma BisectLeftBeforeRight(a: seq<int>, x: int, y: int)
    requires Sorted(a)
    requires x <= y
    ensures BisectLeft(a, x) <= BisectRight(a, y)
  {
    var l := BisectLeft(a, x);
    if 0 < l {
      assert a[l - 1] <= y;
    }
  }

  /** The two searches on the sequence `[1, 2, 2, 2, 5, 7]`. */
  lemma BisectExample()
    ensures BisectRight([1, 2, 2, 2, 5, 7], 2) == 4
    ensures BisectLeft([1, 2, 2, 2, 5, 7], 2) == 1
  {
    var a := [1, 2, 2, 2, 5, 7];
    assert Sorted(a);
    BisectRightCounts(a, 2);
    BisectLeftCounts(a, 2);
  }
}
