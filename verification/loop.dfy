/**
 The routine as an imperative loop over `imin` and `imax`, proved to
 compute the index the functional model `Closest` describes.
 */
module BinsearchLoop {
  import opened Closeness
  import opened Binsearch
  import ClosestProperties

  /**
   Every index the loop reads is in range; `imin` and `imax` keep the
   query between their elements while the gap between them strictly
   shrinks. The result is -1 exactly for an empty vector, an index of the
   vector otherwise, and a closest index when the vector is sorted.
   */
  method BinsearchClosest(vec: seq<int>, val: int) returns (r: int)
    ensures r == Closest(vec, val)
    ensures |vec| == 0 <==> r == NotFound
    ensures |vec| > 0 ==> 0 <= r < |vec|
    ensures Sorted(vec) && |vec| > 0 ==> IsClosest(vec, val, r)
  {
    if |vec| < 1 {
      return NotFound;
    }
    if val < vec[0] {
      r := 0;
    } else if val > vec[|vec| - 1] {
      r := |vec| - 1;
    } else {
      var imin: nat := 0;
      var imax: nat := |vec| - 1;
      while imax - imin > 1
        invariant imin <= imax < |vec|
        invariant vec[imin] <= val <= vec[imax]
        invariant Narrow(vec, val, imin, imax) == Narrow(vec, val, 0, |vec| - 1)
        decreases imax - imin
      {
        var imid := Midpoint(imin, imax);
        if vec[imid] >= val {
          imax := imid;
        } else {
          imin := imid;
        }
      }
      if imax - imin == 1 && Dist(vec[imax], val) < Dist(vec[imin], val) {
        imin := imax;
      }
      r := imin;
    }
    if Sorted(vec) {
      ClosestProperties.ClosestIsClosest(vec, val);
    }
  }
}
