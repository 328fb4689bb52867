# Divide-and-conquer packing core, modelled in Dafny

This project models the two pieces of the packing program that place items
and handle their polygons:

- **The divide-and-conquer placement** (`DnCApproach`). The item range is split
  in half like merge sort. Each half is solved on its own. The two halves are
  then combined by an orientation search: every pair of candidate angles is
  tried, the left half turned by the first angle and the right half by the
  second. The pair whose merge reports the smallest enclosing-rectangle area
  wins. The placement records, their rotation by an angle and the
  half-up rounding of the rotated pivots are modelled too.
- **Two helpers of the polygon utility** (`boost_geo_util`).
  `constructBGPolygon` turns a counter-clockwise input outline into a
  clockwise closed ring. `reflectAcrossLine` mirrors the exterior rings of a
  multi-polygon across the line through two points.

Layout:

- `geometry.dfy`: points, rounding half up, grid snapping.
- `item_states.dfy`: items, placement records, `RotateItemStates`.
- `orientation_search.dfy`: the merge hook and `FindBestOrientation`.
  The method runs over arrays and shifts the caller's right half in place.
  It is proved equal to a fold (`Search`) over the angle pairs in loop order.
  The lemmas describe what that fold settles on.
- `divide_and_conquer.dfy`: the recursion, and the entry point over a whole
  item list.
- `boost_geometry_utility.dfy`: `ConstructBGPolygon` and `ReflectAcrossLine`
  as array methods, with the ring and reflection functions they are proved
  against.

The rasteriser, the pairwise raster merge, the trigonometric point rotation,
the candidate angle list and the `INF` sentinel are not defined in the
modelled files. They are fields of the `Approach` datatype, and every result
holds whatever those hooks do. `EPS` is a positive parameter.

## Model

| member | source | states |
|---|---|---|
| Geometry.RoundHalfUp | src/divide_and_conquer_approach.cpp:63 | `floor(v + 0.5)` is an integer within half a unit of `v`, above `v - 0.5` and at most `v + 0.5` |
| Geometry.RoundHalfUpIsUnique | src/divide_and_conquer_approach.cpp:63 | that window holds exactly one integer, so it determines the rounded value |
| Geometry.RoundHalfUpTiesGoUp | src/divide_and_conquer_approach.cpp:63 | a half is always rounded up, never to the even neighbour |
| Geometry.SnapToGrid | src/divide_and_conquer_approach.cpp:63 | the approximated pivot is a grid point within half a unit of the rotated pivot in each coordinate |
| ItemStates.TranslatedTwice | src/divide_and_conquer_approach.cpp:93-96 | shifting the pivots by `d` and then by `e` is one shift by `d + e` |
| ItemStates.RotateState | src/divide_and_conquer_approach.cpp:61-63 | the loop body on one record, as a definition: the angle is added to `rotatedBy`, and the pivot is turned about the origin by the rotation hook and then snapped to the grid |
| ItemStates.RotatedStates | src/divide_and_conquer_approach.cpp:58-65 | the whole copy-and-update loop as a definition: `RotateState` applied to every record, in order; `RotateItemStates` is proved equal to it |
| ItemStates.RotateItemStates | src/divide_and_conquer_approach.cpp:54-66 | returns a rotated copy with the same ids, each angle increased by the rotation angle, and each pivot rotated about the origin and snapped to the grid |
| OrientationSearch.MergeItemsSet | src/divide_and_conquer_approach.cpp:40-48 | definition as written: both halves are rasterised by the `rasterItems` hook, and the merge hook receives the left raster twice |
| OrientationSearch.MergeItemsSetIgnoresRightHalf | src/divide_and_conquer_approach.cpp:40-48 | the merge result does not depend on the right half, because the left raster is merged with itself |
| OrientationSearch.CandidatePairsOrder | src/divide_and_conquer_approach.cpp:81-86 | the nested loops try `n * n` pairs, and pair number `i * n + j` is `(rotations[i], rotations[j])` |
| OrientationSearch.TryPair | src/divide_and_conquer_approach.cpp:86-98 | one inner-loop iteration as a definition: the left half turned by `r1` is scored against the CURRENT right half turned by `r2`; on a strictly smaller area, `currentBest` takes it, the right half is shifted by the offset, and the best orientation becomes the unrotated left half plus the shifted right half; otherwise nothing changes |
| OrientationSearch.Search | src/divide_and_conquer_approach.cpp:78-101 | both loops as a definition: `TryPair` folded over the angle pairs in loop order, starting from INF, the caller's right half and an empty orientation; `FindBestOrientation` is proved equal to it |
| OrientationSearch.SearchShape | src/divide_and_conquer_approach.cpp:90-99 | after any prefix of pairs, the right half carries the sum of the accepted offsets; the best orientation is empty before the first improvement and is the left half plus the current right half after it |
| OrientationSearch.SearchBest | src/divide_and_conquer_approach.cpp:78-92 | `currentBest` is INF until the first improvement and is the score of the last improvement after it |
| OrientationSearch.SearchBelowScores | src/divide_and_conquer_approach.cpp:78-92 | `currentBest` never exceeds INF or any score seen so far |
| OrientationSearch.SearchMinimum | src/divide_and_conquer_approach.cpp:78-101 | the final `currentBest` is the least score of the run and is below every score before the winner; with no improvement every score was at least INF |
| OrientationSearch.RightHalfSettlesAtWinner | src/divide_and_conquer_approach.cpp:90-99 | after the last improvement, the remaining pairs change nothing |
| OrientationSearch.LastImprovementImproves | src/divide_and_conquer_approach.cpp:90 | the winning pair's score was strictly below the best before it |
| OrientationSearch.MergeBeatsInfIffSomeScoreBelowInf | src/divide_and_conquer_approach.cpp:78-101 | the search ends below INF if and only if some pair scored below INF |
| OrientationSearch.BestOrientation | src/divide_and_conquer_approach.cpp:97-98 | the result is empty, or it is the unrotated left half followed by the right half with the right half's ids and angles |
| OrientationSearch.EmptyUnlessSomeScoreBelowInf | src/divide_and_conquer_approach.cpp:79-101 | the result is empty when no score beat INF, including when there are no angles; otherwise it is the left half followed by the caller's right half as the search left it |
| OrientationSearch.MergedIds | src/divide_and_conquer_approach.cpp:97-98 | a search that ended below INF keeps every id of both halves, left ids first |
| OrientationSearch.FiniteAreasBeatInf | src/divide_and_conquer_approach.cpp:81-92 | with at least one angle and a merge that always reports an area below INF, the search ends below INF |
| OrientationSearch.ZeroOffsetsSumToOrigin | src/divide_and_conquer_approach.cpp:30-35 | with the unfinished merge, which reports area 0 and a zero offset, the accumulated offset stays at the origin |
| OrientationSearch.ZeroMergeKeepsHalves | src/divide_and_conquer_approach.cpp:30-35 | with that merge, at least one angle and a positive INF, every merge area is below INF and the result is the left half followed by the right half, unchanged |
| OrientationSearch.EarliestMinimumWins | src/divide_and_conquer_approach.cpp:90 | the comparison is strict, so the winner is the earliest pair with the least score; there is no winner exactly when no score beat INF |
| OrientationSearch.WinnerFixesResult | src/divide_and_conquer_approach.cpp:90-98 | the result is the left half followed by the right half shifted by the winning pair's offset |
| OrientationSearch.RightHalfAccumulatesOffsets | src/divide_and_conquer_approach.cpp:93-96 | the caller's right half keeps its ids and angles, and every pivot moves by the same total offset |
| OrientationSearch.ShiftPivots | src/divide_and_conquer_approach.cpp:93-96 | every pivot of the array is shifted by the offset, in place |
| OrientationSearch.FindBestOrientation | src/divide_and_conquer_approach.cpp:73-104 | leaves the left half unchanged, returns the best orientation of the fold and leaves the caller's right half as the fold's final right half |
| OrientationSearch.SearchRow | src/divide_and_conquer_approach.cpp:84-100 | one pass of the inner loop continues the fold by one row of pairs `(r1, r2)` |
| DivideAndConquer.Mid | src/divide_and_conquer_approach.cpp:119 | `(left + right) >> 1` rounds down and lies in `[left, right)` when `left < right` |
| DivideAndConquer.SplitShrinks | src/divide_and_conquer_approach.cpp:119-121 | both halves are non-empty and strictly smaller, so the recursion terminates on a non-empty range |
| DivideAndConquer.DivideAndConquer | src/divide_and_conquer_approach.cpp:113-125 | a singleton is placed at angle 0 on its own pivot; any result lists ids from the range in increasing order, each with angle 0 |
| DivideAndConquer.CombinedHalvesAreOrdered | src/divide_and_conquer_approach.cpp:120-124 | combining two ordered halves from adjacent ranges gives an ordered result within the whole range |
| DivideAndConquer.SucceedingMergeJoinsIds | src/divide_and_conquer_approach.cpp:119-124 | a merge that succeeds lists the left half's ids, then the right half's |
| DivideAndConquer.CoversRange | src/divide_and_conquer_approach.cpp:113-125 | when every merge succeeds, the ids are exactly `left..right` in order |
| DivideAndConquer.MergesSucceedWhenAllDo | src/divide_and_conquer_approach.cpp:113-125 | if every pair of halves would merge below INF, every merge of the recursion does |
| DivideAndConquer.FiniteAreasMakeMergesSucceed | src/divide_and_conquer_approach.cpp:113-125 | with at least one angle and finite merge areas, every merge of the recursion succeeds |
| DivideAndConquer.ZeroMergePlacesEveryItem | src/divide_and_conquer_approach.cpp:30-35 | with the unfinished merge, at least one angle and a positive INF, the entry point places every item exactly once, in input order |
| DivideAndConquer.EmptyRangeRecursesOnItself | src/divide_and_conquer_approach.cpp:119-120 | for the range `[left, left - 1]`, the first recursive call is on the same range |
| DivideAndConquer.Solution | src/divide_and_conquer_approach.cpp:133-137 | the entry point, with no items giving no placements: ids are valid item indices in increasing order, each with angle 0 |
| DivideAndConquer.SolutionPlacesEveryItem | src/divide_and_conquer_approach.cpp:133-137 | when every merge succeeds, every item is placed exactly once, in input order |
| BoostGeometryUtility.ReversedTwice | src/boost_geometry_utility.cpp:26 | reversing twice gives the sequence back |
| BoostGeometryUtility.Reverse | src/boost_geometry_utility.cpp:26 | `std::reverse` reverses the caller's array in place |
| BoostGeometryUtility.ClockwiseRing | src/boost_geometry_utility.cpp:24-30 | the ring is one point longer than the input and starts and ends at the input's first point |
| BoostGeometryUtility.ClockwiseRingIsClosedInputReversed | src/boost_geometry_utility.cpp:24-30 | the ring is the closed input read backwards |
| BoostGeometryUtility.ClockwiseRingRecoversInput | src/boost_geometry_utility.cpp:24-30 | dropping the repeated start point and reversing gives the input back |
| BoostGeometryUtility.PathSumReversed | src/boost_geometry_utility.cpp:26 | walking a path backwards negates its shoelace sum |
| BoostGeometryUtility.ClockwiseRingFlipsOrientation | src/boost_geometry_utility.cpp:17-30 | the ring's signed area is the negated signed area of the closed input, so counter-clockwise becomes clockwise |
| BoostGeometryUtility.ConstructBGPolygon | src/boost_geometry_utility.cpp:19-32 | returns the clockwise ring with no holes and leaves the caller's vector reversed |
| BoostGeometryUtility.ReflectAcrossSlope | src/boost_geometry_utility.cpp:101-102 | the closed-form reflection across `y = m x + b`, as written; `SlopeReflectionMirrors` proves it is the mirror image |
| BoostGeometryUtility.MirrorsAreInvolutions | src/boost_geometry_utility.cpp:88-95 | the vertical and horizontal mirrors are each their own inverse |
| BoostGeometryUtility.MirrorImageUnique | src/boost_geometry_utility.cpp:97-101 | a point has a single mirror image in a line `y = m x + b` |
| BoostGeometryUtility.SlopeReflectionMirrors | src/boost_geometry_utility.cpp:99-101 | the closed form gives the mirror image: the midpoint is on the line and the displacement is perpendicular to it |
| BoostGeometryUtility.SlopeReflectionIsInvolution | src/boost_geometry_utility.cpp:99-101 | reflecting twice across `y = m x + b` gives the point back |
| BoostGeometryUtility.SlopeReflectionFixesLine | src/boost_geometry_utility.cpp:99-101 | points of the line stay where they are |
| BoostGeometryUtility.OnLineHasSlopeForm | src/boost_geometry_utility.cpp:97-98 | a point collinear with `p` and `q` satisfies `y = m x + b` for the computed slope and intercept |
| BoostGeometryUtility.ReflectThroughPointsIsInvolution | src/boost_geometry_utility.cpp:97-101 | the slope-intercept reflection through `p` and `q` is its own inverse |
| BoostGeometryUtility.ReflectThroughPointsFixesLine | src/boost_geometry_utility.cpp:97-101 | it fixes every point collinear with `p` and `q` |
| BoostGeometryUtility.ReflectPoint | src/boost_geometry_utility.cpp:87-103 | the per-point map as written, with signed tests: if `q.x - p.x < EPS`, mirror in `x = p.x`; else if `q.y - p.y < EPS`, mirror in `y = p.y`; otherwise the slope-intercept reflection |
| BoostGeometryUtility.ReflectPointIsInvolution | src/boost_geometry_utility.cpp:86-102 | whichever branch the signed tests pick, mapping a point twice gives it back |
| BoostGeometryUtility.ReflectPointFixesRisingLine | src/boost_geometry_utility.cpp:86-102 | when both differences reach EPS, the map is the true reflection: it fixes the line through `p` and `q` |
| BoostGeometryUtility.ReflectExteriorRings | src/boost_geometry_utility.cpp:80-104 | every polygon keeps its holes and the length of its exterior ring |
| BoostGeometryUtility.ReflectExteriorRingsTwice | src/boost_geometry_utility.cpp:76-107 | reflecting a multi-polygon twice across the same line gives it back |
| BoostGeometryUtility.ReflectAcrossLine | src/boost_geometry_utility.cpp:76-107 | the caller's multi-polygon gets its exterior rings reflected in place, and the result is the copy taken before the loop |
| BoostGeometryUtility.ReturnedCopyIsNotReflected | src/boost_geometry_utility.cpp:79-106 | the copy that is returned differs from the reflection for a concrete polygon |
| BoostGeometryUtility.SignedTestMisreflectsDescendingLine | src/boost_geometry_utility.cpp:88-91 | for the descending line through (1, 0) and (0, 1), its own point (0, 1) is sent to (2, 1) |
| BoostGeometryUtility.ReflectPointAbsFixesLine | src/boost_geometry_utility.cpp:86-102 | with absolute-difference tests, lines whose x and y differences both reach EPS, rising or falling, are fixed point by point, and so are exactly vertical lines and exactly horizontal lines whose points are at least EPS apart in x |
| BoostGeometryUtility.ReflectPointAbsIsInvolution | src/boost_geometry_utility.cpp:86-102 | the corrected map is its own inverse |

## Left out

- Rasterising (`rasterItems` building a `Matrix`, `Item::rotate`, `Item::rasterize`, `Matrix::insertItem`): the matrix code is not part of this model, so rasterising is the `rasterItems` hook of `Approach`.
- `mergeItemToFindMinEnclosingRectangleArea` is unfinished in the source: it returns a value-initialised pair, that is, area 0 and the default point. It is the `mergeRasters` hook, and the general results assume nothing about it. `MergesToZero` describes the merge as it stands, and `ZeroMergeKeepsHalves` and `ZeroMergePlacesEveryItem` show what the program then computes. The default `Point` constructor is not part of this model; it is taken to be the origin.
- `Point::rotate` with `DEG2RAD` is trigonometry on doubles; it is the `rotatePivot` hook. Only the half-up rounding after it is modelled.
- The candidate angle list `rotations`, `INF` and `EPS` come from a header that is not part of this model; they are parameters, with `EPS > 0`.
- Doubles are exact reals: rounding error, NaN and infinities are not modelled.
- `getDirectedAngle_D` (`atan2` and floating-point pi), `translate`, `rotate`, `unionPolygons` and `isPolygonIntersectPolygon` are outside the modelled core: they wrap Boost.Geometry operations on doubles.
- `visualize` writes SVG files and keeps a process-wide frame counter: file I/O, not modelled.
- `solution` ends after computing the orientation; the stock placement and packing density it describes are not in the source and are not modelled.
- OrientationSearch.FindBestOrientation: requires the two halves to be different arrays. In the source they are two distinct vectors from the caller, and aliasing is not modelled.
- BoostGeometryUtility.ConstructBGPolygon: the source's `assert(n >= 3)` aborts on fewer than three points; the model makes it a precondition.
- Input points are `Point`s of reals, not the source's `std::pair` of doubles.
- OrientationSearch.FiniteAreasBeatInf: the hypothesis that every merge reports an area below INF is stated on the merge hook for all arguments, not only on the halves that occur.

## Findings

| source | as written | input that shows it | evidently intended | confidence | as-written member | corrected member |
|---|---|---|---|---|---|---|
| src/divide_and_conquer_approach.cpp:133-137 | `solution` calls `divideAndConquer(items, 0, n - 1)` without a guard | no items: the range `[0, -1]` recurses on `[0, -1]` forever | no items gives no placements | high (not executed) | DivideAndConquer.EmptyRangeRecursesOnItself | DivideAndConquer.Solution |
| src/boost_geometry_utility.cpp:88-92 | branch tests `x2 - x1 < EPS` and `y2 - y1 < EPS` are signed | p = (1, 0), q = (0, 1): the point q on the line goes to (2, 1) | absolute differences, so that only near-vertical and near-horizontal lines take the special cases | high (not executed) | BoostGeometryUtility.SignedTestMisreflectsDescendingLine | BoostGeometryUtility.ReflectPointAbsFixesLine |
| src/boost_geometry_utility.cpp:79-106 | `reflected` is copied before the loop, the loop writes into the argument, and the copy is returned | one polygon with exterior ring [(1, 0)] across the y axis: the result still holds (1, 0) | return the reflected multi-polygon | medium (not executed) | BoostGeometryUtility.ReturnedCopyIsNotReflected | BoostGeometryUtility.ReflectExteriorRingsTwice |
