/**
 What "closest element" means, independently of any search algorithm:
 distance, sortedness, the set of closest indices, and a reference
 definition of the first closest index obtained by a linear scan.
 */
module Closeness {

  /** Absolute difference of two values: the `std::abs(a - b)` the search compares. */
  function Dist(a: int, b: int): nat
  {
    if a >= b then a - b else b - a
  }

  /** Non-decreasing order, the order the search assumes of its input. */
  predicate Sorted(s: seq<int>)
  {
    forall i, j :: 0 <= i <= j < |s| ==> s[i] <= s[j]
  }

  /** Strictly increasing order: sorted and free of duplicates. */
  predicate StrictlyIncreasing(s: seq<int>)
  {
    forall i, j :: 0 <= i < j < |s| ==> s[i] < s[j]
  }

  /** `i` is an index of `s` whose element is no farther from `v` than any other element. */
  predicate IsClosest(s: seq<int>, v: int, i: int)
  {
    && 0 <= i < |s|
    && forall j :: 0 <= j < |s| ==> Dist(s[i], v) <= Dist(s[j], v)
  }

  /** `i` is a closest index and every earlier index is strictly farther from `v`. */
  predicate IsFirstClosest(s: seq<int>, v: int, i: int)
  {
    && IsClosest(s, v, i)
    && forall j :: 0 <= j < i ==> Dist(s[i], v) < Dist(s[j], v)
  }

  /**
   Reference definition: the first index of an element closest to `v`,
   found by scanning the whole sequence, or -1 for the empty sequence.
   */
  function FirstClosest(s: seq<int>, v: int): (r: int)
    ensures |s| == 0 <==> r == -1
    ensures |s| > 0 ==> IsFirstClosest(s, v, r)
  {
    if |s| == 0 then -1
    else if |s| == 1 then 0
    else
      var k := FirstClosest(s[..|s| - 1], v);
      if Dist(s[|s| - 1], v) < Dist(s[k], v) then |s| - 1 else k
  }

  /** There is only one first closest index. */
  lemma FirstClosestUnique(s: seq<int>, v: int, i: int, k: int)
    requires IsFirstClosest(s, v, i) && IsFirstClosest(s, v, k)
    ensures i == k
  {
    assert Dist(s[i], v) == Dist(s[k], v);
  }
}
