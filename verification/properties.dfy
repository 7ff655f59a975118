/**
 What `Closest` promises its callers beyond returning an index: the clamps
 at both ends, closeness on sorted input, and how ties are broken.
 */
module ClosestProperties {
  import opened Closeness
  import opened Binsearch

  /**
   Clamping: a query at or below the first element gives index 0, and a
   query strictly above the last element gives the last index. The first
   needs sortedness when the query equals the first element, because it
   then relies on the loop never moving `imin` off 0.
   */
  lemma ClosestClamps(vec: seq<int>, val: int)
    requires Sorted(vec) && |vec| > 0
    ensures val <= vec[0] ==> Closest(vec, val) == 0
    ensures val > vec[|vec| - 1] ==> Closest(vec, val) == |vec| - 1
  {
    if val == vec[0] {
      assert val <= vec[|vec| - 1];
      ClosestFromBracket(vec, val);
      var pair := Narrow(vec, val, 0, |vec| - 1);
      assert vec[0] <= vec[pair.0];
    }
  }

  /**
   A query equal to the last element is not clamped: with duplicates at
   the end, the first of them is returned rather than the last index.
   */
  lemma EqualToLastIsNotClamped()
    ensures Closest([1, 5, 5], 5) == 1
  {
    assert Narrow([1, 5, 5], 5, 0, 2) == (0, 1);
  }

  /** On sorted input, no element is strictly closer to the query than the returned one. */
  lemma ClosestIsClosest(vec: seq<int>, val: int)
    requires Sorted(vec) && |vec| > 0
    ensures IsClosest(vec, val, Closest(vec, val))
  {
    var r := Closest(vec, val);
    var last := |vec| - 1;
    if val < vec[0] {
      forall j | 0 <= j < |vec|
        ensures Dist(vec[r], val) <= Dist(vec[j], val)
      {
        assert vec[0] <= vec[j];
      }
    } else if val > vec[last] {
      forall j | 0 <= j < |vec|
        ensures Dist(vec[r], val) <= Dist(vec[j], val)
      {
        assert vec[j] <= vec[last];
      }
    } else {
      ClosestFromBracket(vec, val);
      var pair := Narrow(vec, val, 0, last);
      forall j | 0 <= j < |vec|
        ensures Dist(vec[r], val) <= Dist(vec[j], val)
      {
        if j <= pair.0 {
          assert vec[j] <= vec[pair.0];
        } else {
          assert vec[pair.1] <= vec[j];
        }
      }
    }
  }

  /**
   Ties on sorted input: an earlier element at most as far from the query
   as the returned one holds the same value. So ties between different
   values go to the earlier element; among duplicates of the returned
   value, an earlier copy may exist.
   */
  lemma ClosestTieKeepsEarlierValue(vec: seq<int>, val: int)
    requires Sorted(vec) && |vec| > 0
    ensures var r := Closest(vec, val);
      forall j :: 0 <= j < r && Dist(vec[j], val) <= Dist(vec[r], val) ==> vec[j] == vec[r]
  {
    var r := Closest(vec, val);
    var last := |vec| - 1;
    if val < vec[0] {
    } else if val > vec[last] {
      forall j | 0 <= j < r && Dist(vec[j], val) <= Dist(vec[r], val)
        ensures vec[j] == vec[r]
      {
        assert vec[j] <= vec[last];
      }
    } else {
      ClosestFromBracket(vec, val);
      var pair := Narrow(vec, val, 0, last);
      forall j | 0 <= j < r && Dist(vec[j], val) <= Dist(vec[r], val)
        ensures vec[j] == vec[r]
      {
        assert vec[j] <= vec[pair.0];
      }
    }
  }

  /** On strictly increasing input the returned index is the first closest one. */
  lemma ClosestIsFirstWhenStrict(vec: seq<int>, val: int)
    requires StrictlyIncreasing(vec) && |vec| > 0
    ensures IsFirstClosest(vec, val, Closest(vec, val))
  {
    var r := Closest(vec, val);
    ClosestIsClosest(vec, val);
    ClosestTieKeepsEarlierValue(vec, val);
    forall j | 0 <= j < r
      ensures Dist(vec[r], val) < Dist(vec[j], val)
    {
      assert vec[j] < vec[r];
    }
  }

  /**
   Agreement with the linear-scan reference: on sorted input the returned
   element has the value of the first closest element, and on strictly
   increasing input it is that very element.
   */
  lemma ClosestAgreesWithFirstClosest(vec: seq<int>, val: int)
    requires Sorted(vec) && |vec| > 0
    ensures vec[Closest(vec, val)] == vec[FirstClosest(vec, val)]
    ensures StrictlyIncreasing(vec) ==> Closest(vec, val) == FirstClosest(vec, val)
  {
    var r := Closest(vec, val);
    var f := FirstClosest(vec, val);
    ClosestIsClosest(vec, val);
    ClosestTieKeepsEarlierValue(vec, val);
    assert Dist(vec[r], val) == Dist(vec[f], val);
    if StrictlyIncreasing(vec) {
      ClosestIsFirstWhenStrict(vec, val);
      FirstClosestUnique(vec, val, r, f);
    }
  }

  /**
   With duplicates the first closest index is not always returned: in
   [3, 3, 7] the query 4 is equally close to indices 0 and 1, and the loop
   moves `imin` past index 0.
   */
  lemma DuplicatesMayHideFirstClosest()
    ensures Closest([3, 3, 7], 4) == 1
    ensures FirstClosest([3, 3, 7], 4) == 0
  {
    assert Narrow([3, 3, 7], 4, 0, 2) == (1, 2);
  }

  /** Two-element cases: a tie keeps the lower index, otherwise the strictly closer one wins. */
  lemma TwoElementCases()
    ensures Closest([10, 20], 15) == 0
    ensures Closest([10, 21], 15) == 0
    ensures Closest([10, 19], 15) == 1
  {
    assert Narrow([10, 20], 15, 0, 1) == (0, 1);
    assert Narrow([10, 21], 15, 0, 1) == (0, 1);
    assert Narrow([10, 19], 15, 0, 1) == (0, 1);
  }
}
