# binsearch_closest in Dafny

This project models `binsearch_closest`, a generic C++ routine. It takes a vector that is assumed sorted and a query value, and returns the index of the element closest to the query:

- an empty vector gives -1;
- a query below the first element clamps to index 0;
- a query above the last element clamps to the last index;
- otherwise a binary search narrows a bracketing pair `imin`/`imax`, and `imax` wins only when it is strictly closer than `imin`.

The model works over `seq<int>`, with the -1 sentinel kept as an `int` result.

- `Closeness` (`closeness.dfy`) defines what "closest" means without reference to any search:
  - `Dist` is the absolute difference;
  - `Sorted` and `StrictlyIncreasing` are the two input orders;
  - `IsClosest` and `IsFirstClosest` describe the admissible answers;
  - `FirstClosest` is a linear-scan reference for the first closest index.
- `Binsearch` (`binsearch.dfy`) is the functional model of the routine. `Midpoint` is the overflow-safe midpoint, `Narrow` is the narrowing loop written as recursion, `Select` is the final closer-of-two choice, and `Closest` is the whole routine.
- `ClosestProperties` (`properties.dfy`) proves what the routine promises on sorted input: the clamps, closeness, and how ties are broken.
- `BinsearchLoop` (`loop.dfy`) is the routine as the imperative loop it is in C++. It is proved to return the same index as `Closest`.

Sortedness is not a precondition of the routine, because the code never checks it. For any input, the result is -1 exactly when the vector is empty and a valid index otherwise, and every element access is in range. Closeness is proved only for sorted input.

Two places where the code is narrower than its doc comment or the usual description:

- **Duplicates and ties.** The doc comment says the first of several equally close elements is returned. That is true when the input is strictly increasing (`ClosestIsFirstWhenStrict`). With duplicates, the loop moves `imin` past equal values, so `[3, 3, 7]` with query 4 returns index 1 (`DuplicatesMayHideFirstClosest`). What does hold on every sorted input is weaker: the returned element has the same value as the first closest element (`ClosestAgreesWithFirstClosest`).
- **Query equal to the last element.** The upper clamp is a strict `>`. A query equal to the last element therefore goes through the search and need not return the last index: `[1, 5, 5]` with query 5 returns 1 (`EqualToLastIsNotClamped`). A description that clamps every query `>=` the last element disagrees with the code here. The model follows the code.

## Model

| member | source | states |
|---|---|---|
| Binsearch.Midpoint | binsearch_closest/binsearch_closest.hpp:50-51 | The midpoint of a bracket wider than one lies strictly inside it and halves it (the two halves differ by at most one). It is formed from `hi - lo`, never from `lo + hi`. |
| Binsearch.Narrow | binsearch_closest/binsearch_closest.hpp:47-56 | The narrowing loop terminates with `imin <= imax` inside the starting bracket and a gap of at most 1. The gap is exactly 1 when the starting bracket was wider than a single index. `imin` only ever moves to an element below the query, and `imax` only to one at or above it. |
| Binsearch.Select | binsearch_closest/binsearch_closest.hpp:58-61 | The final choice is one of the two bracket ends and is at least as close as both. The upper end is chosen only when it is strictly closer, so an equidistant pair keeps the lower index. |
| Binsearch.Closest | binsearch_closest/binsearch_closest.hpp:34-62 | The routine returns -1 exactly when the vector is empty. Otherwise it returns a valid index, for input in any order. |
| Binsearch.ClosestFromBracket | binsearch_closest/binsearch_closest.hpp:47-61 | For a query within the vector's range, the final pair brackets the query (`vec[imin] <= val <= vec[imax]`) and is adjacent when the vector has two or more elements. The result is chosen from that pair. |
| BinsearchLoop.BinsearchClosest | binsearch_closest/binsearch_closest.hpp:34-62 | The imperative loop reads only in-range indices and returns the same index as the functional model. The result is -1 exactly for an empty vector and a valid index otherwise. On sorted input the result is a closest index. |
| ClosestProperties.ClosestClamps | binsearch_closest/binsearch_closest.hpp:41-58 | On sorted input, a query at or below the first element returns 0; at equality the loop never moves `imin` off 0. A query strictly above the last element returns the last index. |
| ClosestProperties.EqualToLastIsNotClamped | binsearch_closest/binsearch_closest.hpp:44-61 | The upper clamp is strict: in `[1, 5, 5]` the query 5 returns index 1, not the last index. |
| ClosestProperties.ClosestIsClosest | binsearch_closest/binsearch_closest.hpp:20-24 | On sorted input, no element of the vector is strictly closer to the query than the returned one. |
| ClosestProperties.ClosestTieKeepsEarlierValue | binsearch_closest/binsearch_closest.hpp:58-59 | On sorted input, any earlier element that is at most as far from the query as the returned one holds the same value. A tie between different values therefore always goes to the earlier element. |
| ClosestProperties.ClosestIsFirstWhenStrict | binsearch_closest/binsearch_closest.hpp:22-24 | On strictly increasing input, the returned index is closest and every earlier index is strictly farther, as the doc comment promises. |
| ClosestProperties.ClosestAgreesWithFirstClosest | binsearch_closest/binsearch_closest.hpp:20-24 | Compared with the linear-scan reference: on sorted input, the returned element has the value of the first closest element. On strictly increasing input, it is the same index. |
| ClosestProperties.DuplicatesMayHideFirstClosest | binsearch_closest/binsearch_closest.hpp:49-59 | With duplicates, the first closest index is not always returned: `[3, 3, 7]` with query 4 gives 1, while the first closest index is 0. |
| ClosestProperties.TwoElementCases | binsearch_closest/binsearch_closest.hpp:58-59 | `[10, 20]`/15 gives 0 (tie keeps lower), `[10, 21]`/15 gives 0, and `[10, 19]`/15 gives 1. |
| Closeness.FirstClosest | binsearch_closest/binsearch_closest.hpp:20-24 | Reference for the documented result: -1 for an empty vector, otherwise the first index whose element is closest to the query. |

## Left out

- Generic element type `T`: only mathematical integers are modelled. A floating-point `T` needs a floating-point model, and for an unsigned `T` the subtraction `vec.at(imax) - val` wraps before `std::abs`.
- Machine integer widths: `size_t` index arithmetic and the `(ssize_t)` cast of the result are unbounded `nat`/`int` here. Overflow safety appears only as `Midpoint` never forming `imin + imax`. Signed overflow in `vec.at(i) - val` for extreme `int` values is not modelled.
- Exceptions from `vec.at()`: the model proves every index in range instead, so the throwing path is unreachable.
- Pass-by-value copying of the vector: it is a performance detail with no observable effect.
- Runtime checking of sortedness: the code has none. Sortedness is a hypothesis of the closeness lemmas, not a validated condition.
- Purity and repeatability of calls: the model is a pure function, so repeated calls agree by construction and no lemma states it.
