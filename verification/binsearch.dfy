/**
 The routine `binsearch_closest`: clamp the query to the range of the
 vector, narrow a bracketing pair of indices by binary search, and keep
 whichever end of the pair is strictly closer to the query.

 `Closest` is the functional model of the routine: the narrowing loop
 appears as the recursive `Narrow`. The loop itself, as written, is the
 method in module BinsearchLoop.
 */
module Binsearch {
  import opened Closeness

  /** Index returned for an empty vector. */
  const NotFound: int := -1

  /**
   Midpoint of an open bracket, computed from the difference `hi - lo`
   so that `lo + hi` is never formed. It lies strictly inside the bracket
   and splits it into halves that differ in length by at most one.
   */
  function Midpoint(lo: nat, hi: nat): (mid: nat)
    requires hi - lo > 1
    ensures lo < mid < hi
    ensures mid - lo <= hi - mid <= mid - lo + 1
  {
    lo + (hi - lo) / 2
  }

  /**
   The narrowing loop, one iteration per call: shrink the bracket
   `lo..hi` until its ends are at most one apart, moving `hi` down to a
   midpoint whose element is at least `val`, and `lo` up to one whose
   element is below `val`. Result: the final pair `(imin, imax)`.
   */
  function Narrow(vec: seq<int>, val: int, lo: nat, hi: nat): (pair: (nat, nat))
    requires lo <= hi < |vec|
    ensures lo <= pair.0 <= pair.1 <= hi
    ensures pair.1 - pair.0 <= 1
    ensures hi - lo >= 1 ==> pair.1 - pair.0 == 1
    ensures pair.0 == lo || vec[pair.0] < val
    ensures pair.1 == hi || val <= vec[pair.1]
    decreases hi - lo
  {
    if hi - lo > 1 then
      var mid := Midpoint(lo, hi);
      if vec[mid] >= val then Narrow(vec, val, lo, mid) else Narrow(vec, val, mid, hi)
    else
      (lo, hi)
  }

  /**
   Final choice between the ends of a bracket at most one apart: the
   upper end only when it is strictly closer, so a tie keeps the lower end.
   */
  function Select(vec: seq<int>, val: int, lo: nat, hi: nat): (r: nat)
    requires lo <= hi < |vec| && hi - lo <= 1
    ensures r == lo || r == hi
    ensures Dist(vec[r], val) <= Dist(vec[lo], val)
    ensures Dist(vec[r], val) <= Dist(vec[hi], val)
    ensures r == hi && hi != lo ==> Dist(vec[hi], val) < Dist(vec[lo], val)
    ensures r == lo && hi != lo ==> Dist(vec[lo], val) <= Dist(vec[hi], val)
  {
    if hi - lo == 1 && Dist(vec[hi], val) < Dist(vec[lo], val) then hi else lo
  }

  /**
   The whole routine: -1 for an empty vector, otherwise an index of the
   vector, whatever the order of its elements.
   */
  function Closest(vec: seq<int>, val: int): (r: int)
    ensures |vec| == 0 <==> r == NotFound
    ensures |vec| > 0 ==> 0 <= r < |vec|
  {
    if |vec| < 1 then NotFound
    else if val < vec[0] then 0
    else if val > vec[|vec| - 1] then |vec| - 1
    else
      var pair := Narrow(vec, val, 0, |vec| - 1);
      Select(vec, val, pair.0, pair.1)
  }

  /**
   The bracketing pair the loop ends with when the query lies within
   the range of the vector; the result is chosen from it.
   */
  lemma ClosestFromBracket(vec: seq<int>, val: int)
    requires |vec| > 0 && vec[0] <= val <= vec[|vec| - 1]
    ensures var pair := Narrow(vec, val, 0, |vec| - 1);
      && vec[pair.0] <= val <= vec[pair.1]
      && (|vec| >= 2 ==> pair.1 == pair.0 + 1)
      && Closest(vec, val) == Select(vec, val, pair.0, pair.1)
  {
  }
}
