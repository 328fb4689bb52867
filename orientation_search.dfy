/** Orientation Search (`DnCApproach::findBestOrientation`) and the scoring
    hooks it calls.

    The raster grid, `rasterItems` and the pairwise merge are not visible in
    the source (the merge is unfinished and returns a value-initialised
    pair: area 0 and the default point), so they enter the model as
    function-valued fields of `Approach`, together with the candidate angle
    list and the `INF` sentinel that live in an unseen header. */
module OrientationSearch {
  import opened Geometry
  import opened ItemStates

  /** Area of the smallest enclosing rectangle and the offset that moves the
      right half into place. */
  datatype MergeResult = MergeResult(area: real, offset: Point)

  /** The search's fixed parameters and collaborators; `M` is the raster
      grid type. */
  datatype Approach<!M> = Approach(
    rotations: seq<real>,
    inf: real,
    rotatePivot: (Point, real) -> Point,
    rasterItems: (seq<Item>, seq<ItemState>) -> M,
    mergeRasters: (M, M) -> MergeResult)

  /** Rasterises both halves, then merges the LEFT raster with itself: the
      right raster is built and never used. */
  function MergeItemsSet<M>(a: Approach<M>, items: seq<Item>, leftHalf: seq<ItemState>, rightHalf: seq<ItemState>): MergeResult {
    var rasterLeftHalf := a.rasterItems(items, leftHalf);
    var rasterRightHalf := a.rasterItems(items, rightHalf);
    a.mergeRasters(rasterLeftHalf, rasterLeftHalf)
  }

  lemma MergeItemsSetIgnoresRightHalf<M>(a: Approach<M>, items: seq<Item>, leftHalf: seq<ItemState>, right1: seq<ItemState>, right2: seq<ItemState>)
    ensures MergeItemsSet(a, items, leftHalf, right1) == MergeItemsSet(a, items, leftHalf, right2)
  {
  }

  // ---------------------------------------------------------------------
  // The order in which the nested loops visit the angle pairs

  function RowPairs(r1: real, rotations: seq<real>): (row: seq<(real, real)>)
    ensures |row| == |rotations|
    ensures forall j :: 0 <= j < |row| ==> row[j] == (r1, rotations[j])
  {
    seq(|rotations|, j requires 0 <= j < |rotations| => (r1, rotations[j]))
  }

  /** Outer angle from `r1s`, inner angle from `rotations`, row after row. */
  function CandidatePairs(r1s: seq<real>, rotations: seq<real>): (pairs: seq<(real, real)>)
    decreases |r1s|
  {
    if r1s == [] then []
    else CandidatePairs(r1s[..|r1s| - 1], rotations) + RowPairs(r1s[|r1s| - 1], rotations)
  }

  /** Pair number `i * n + j` is (r1s[i], rotations[j]): row-major order. */
  lemma {:induction false} CandidatePairsOrder(r1s: seq<real>, rotations: seq<real>, i: int, j: int)
    requires 0 <= i < |r1s| && 0 <= j < |rotations|
    ensures |CandidatePairs(r1s, rotations)| == |r1s| * |rotations|
    ensures 0 <= i * |rotations| + j < |r1s| * |rotations|
    ensures CandidatePairs(r1s, rotations)[i * |rotations| + j] == (r1s[i], rotations[j])
    decreases |r1s|
  {
    var n := |rotations|;
    var k := |r1s| - 1;
    var front := r1s[..k];
    CandidatePairsLength(front, rotations);
    assert |CandidatePairs(front, rotations)| == k * n;
    assert (k + 1) * n == k * n + n;
    if i < k {
      assert i * n + j < (i + 1) * n <= k * n by {
        assert (i + 1) * n == i * n + n;
        MulMonotone(i + 1, k, n);
      }
      CandidatePairsOrder(front, rotations, i, j);
      assert front[i] == r1s[i];
    } else {
      assert i * n + j == k * n + j;
    }
  }

  /** One more outer angle appends one more row. */
  lemma CandidatePairsSnoc(rotations: seq<real>, i: int)
    requires 0 <= i < |rotations|
    ensures CandidatePairs(rotations[..i + 1], rotations)
         == CandidatePairs(rotations[..i], rotations) + RowPairs(rotations[i], rotations)[..|rotations|]
  {
    assert rotations[..i + 1][..i] == rotations[..i];
    assert RowPairs(rotations[i], rotations)[..|rotations|] == RowPairs(rotations[i], rotations);
  }

  lemma {:induction false} CandidatePairsLength(r1s: seq<real>, rotations: seq<real>)
    ensures |CandidatePairs(r1s, rotations)| == |r1s| * |rotations|
    decreases |r1s|
  {
    if r1s != [] {
      var k := |r1s| - 1;
      CandidatePairsLength(r1s[..k], rotations);
      assert (k + 1) * |rotations| == k * |rotations| + |rotations|;
    }
  }

  lemma MulMonotone(a: int, b: int, n: nat)
    requires a <= b
    ensures a * n <= b * n
  {
  }

  // ---------------------------------------------------------------------
  // The loop body as a function, and the loops as a fold over the pairs

  /** `currentBest`, the caller's `rightHalf` and `bestOrientation`: the
      variables the loops update. */
  datatype SearchState = SearchState(currentBest: real, rightHalf: seq<ItemState>, bestOrientation: seq<ItemState>)

  /** The score of one pair: the left half turned by the outer angle, the
      CURRENT right half turned by the inner angle, then merged. */
  function PairScore<M>(a: Approach<M>, items: seq<Item>, leftHalf: seq<ItemState>, st: SearchState, pair: (real, real)): MergeResult {
    MergeItemsSet(a, items, RotatedStates(leftHalf, pair.0, a.rotatePivot), RotatedStates(st.rightHalf, pair.1, a.rotatePivot))
  }

  predicate Improves<M>(a: Approach<M>, items: seq<Item>, leftHalf: seq<ItemState>, st: SearchState, pair: (real, real)) {
    PairScore(a, items, leftHalf, st, pair).area < st.currentBest
  }

  /** One iteration of the inner loop. On a strict improvement the offset is
      added to the right half, and the best orientation is the UNROTATED left
      half followed by the shifted right half. */
  function TryPair<M>(a: Approach<M>, items: seq<Item>, leftHalf: seq<ItemState>, st: SearchState, pair: (real, real)): SearchState {
    var m := PairScore(a, items, leftHalf, st, pair);
    if m.area < st.currentBest then
      var moved := Translated(st.rightHalf, m.offset);
      SearchState(m.area, moved, leftHalf + moved)
    else
      st
  }

  function Search<M>(a: Approach<M>, items: seq<Item>, leftHalf: seq<ItemState>, start: SearchState, pairs: seq<(real, real)>): SearchState
    decreases |pairs|
  {
    if pairs == [] then start
    else TryPair(a, items, leftHalf, Search(a, items, leftHalf, start, pairs[..|pairs| - 1]), pairs[|pairs| - 1])
  }

  /** One more pair is one more loop iteration. */
  lemma SearchSnoc<M>(a: Approach<M>, items: seq<Item>, leftHalf: seq<ItemState>, start: SearchState, pairs: seq<(real, real)>, pair: (real, real))
    ensures Search(a, items, leftHalf, start, pairs + [pair]) == TryPair(a, items, leftHalf, Search(a, items, leftHalf, start, pairs), pair)
  {
    assert (pairs + [pair])[..|pairs|] == pairs;
  }

  /** The score computed at each step of the run, in iteration order. */
  function Scores<M>(a: Approach<M>, items: seq<Item>, leftHalf: seq<ItemState>, start: SearchState, pairs: seq<(real, real)>): (scores: seq<real>)
    ensures |scores| == |pairs|
  {
    seq(|pairs|, k requires 0 <= k < |pairs| => PairScore(a, items, leftHalf, Search(a, items, leftHalf, start, pairs[..k]), pairs[k]).area)
  }

  /** Index of the last strict improvement, -1 when there was none. */
  function LastImprovement<M>(a: Approach<M>, items: seq<Item>, leftHalf: seq<ItemState>, start: SearchState, pairs: seq<(real, real)>): (w: int)
    ensures -1 <= w < |pairs|
    decreases |pairs|
  {
    if pairs == [] then -1
    else
      var k := |pairs| - 1;
      if Improves(a, items, leftHalf, Search(a, items, leftHalf, start, pairs[..k]), pairs[k]) then k
      else LastImprovement(a, items, leftHalf, start, pairs[..k])
  }

  /** Sum of the offsets of all strict improvements so far. */
  function OffsetSum<M>(a: Approach<M>, items: seq<Item>, leftHalf: seq<ItemState>, start: SearchState, pairs: seq<(real, real)>): Point
    decreases |pairs|
  {
    if pairs == [] then Origin
    else
      var k := |pairs| - 1;
      var before := Search(a, items, leftHalf, start, pairs[..k]);
      var m := PairScore(a, items, leftHalf, before, pairs[k]);
      if m.area < before.currentBest then OffsetSum(a, items, leftHalf, start, pairs[..k]).Plus(m.offset)
      else OffsetSum(a, items, leftHalf, start, pairs[..k])
  }

  function Initial<M>(a: Approach<M>, rightHalf: seq<ItemState>): SearchState {
    SearchState(a.inf, rightHalf, [])
  }

  lemma ScoresOfPrefix<M>(a: Approach<M>, items: seq<Item>, leftHalf: seq<ItemState>, start: SearchState, pairs: seq<(real, real)>, n: int)
    requires 0 <= n <= |pairs|
    ensures Scores(a, items, leftHalf, start, pairs[..n]) == Scores(a, items, leftHalf, start, pairs)[..n]
  {
    var p := pairs[..n];
    forall k | 0 <= k < n
      ensures Scores(a, items, leftHalf, start, p)[k] == Scores(a, items, leftHalf, start, pairs)[k]
    {
      assert p[..k] == pairs[..k];
    }
  }

  /** The right half carries the accumulated offset, and the best orientation
      is empty until the first improvement and afterwards the left half
      followed by the current right half. */
  lemma {:induction false} SearchShape<M>(a: Approach<M>, items: seq<Item>, leftHalf: seq<ItemState>, rightHalf: seq<ItemState>, pairs: seq<(real, real)>)
    ensures var start := Initial(a, rightHalf);
      var fin := Search(a, items, leftHalf, start, pairs);
      && fin.rightHalf == Translated(rightHalf, OffsetSum(a, items, leftHalf, start, pairs))
      && fin.bestOrientation == (if LastImprovement(a, items, leftHalf, start, pairs) < 0 then [] else leftHalf + fin.rightHalf)
    decreases |pairs|
  {
    var start := Initial(a, rightHalf);
    if pairs == [] {
      assert Translated(rightHalf, Origin) == rightHalf;
    } else {
      var k := |pairs| - 1;
      var front := pairs[..k];
      SearchShape(a, items, leftHalf, rightHalf, front);
      var before := Search(a, items, leftHalf, start, front);
      var m := PairScore(a, items, leftHalf, before, pairs[k]);
      if m.area < before.currentBest {
        TranslatedTwice(rightHalf, OffsetSum(a, items, leftHalf, start, front), m.offset);
      }
    }
  }

  /** `currentBest` is INF until the first improvement and afterwards the
      score of the last improvement. */
  lemma {:induction false} SearchBest<M>(a: Approach<M>, items: seq<Item>, leftHalf: seq<ItemState>, rightHalf: seq<ItemState>, pairs: seq<(real, real)>)
    ensures var start := Initial(a, rightHalf);
      var w := LastImprovement(a, items, leftHalf, start, pairs);
      Search(a, items, leftHalf, start, pairs).currentBest
        == (if w < 0 then a.inf else Scores(a, items, leftHalf, start, pairs)[w])
    decreases |pairs|
  {
    if pairs != [] {
      var start := Initial(a, rightHalf);
      var k := |pairs| - 1;
      var front := pairs[..k];
      SearchBest(a, items, leftHalf, rightHalf, front);
      ScoresOfPrefix(a, items, leftHalf, start, pairs, k);
    }
  }

  /** `currentBest` never exceeds INF nor any score seen so far. */
  lemma {:induction false} SearchBelowScores<M>(a: Approach<M>, items: seq<Item>, leftHalf: seq<ItemState>, rightHalf: seq<ItemState>, pairs: seq<(real, real)>)
    ensures var start := Initial(a, rightHalf);
      var best := Search(a, items, leftHalf, start, pairs).currentBest;
      var sc := Scores(a, items, leftHalf, start, pairs);
      best <= a.inf && forall k :: 0 <= k < |pairs| ==> best <= sc[k]
    decreases |pairs|
  {
    if pairs != [] {
      var start := Initial(a, rightHalf);
      var k := |pairs| - 1;
      var front := pairs[..k];
      SearchBelowScores(a, items, leftHalf, rightHalf, front);
      ScoresOfPrefix(a, items, leftHalf, start, pairs, k);
      var before := Search(a, items, leftHalf, start, front);
      var best := TryPair(a, items, leftHalf, before, pairs[k]).currentBest;
      assert best <= before.currentBest;
      var sc := Scores(a, items, leftHalf, start, pairs);
      var earlier := Scores(a, items, leftHalf, start, front);
      forall i | 0 <= i < |pairs|
        ensures best <= sc[i]
      {
        if i < k {
          assert sc[i] == earlier[i];
        } else {
          assert sc[i] == PairScore(a, items, leftHalf, before, pairs[k]).area;
        }
      }
    }
  }

  /** The minimum the run settles on: the last improvement's score is below
      INF, below every earlier score and no greater than any score of the
      run; without an improvement every score was at least INF. */
  lemma SearchMinimum<M>(a: Approach<M>, items: seq<Item>, leftHalf: seq<ItemState>, rightHalf: seq<ItemState>, pairs: seq<(real, real)>)
    ensures var start := Initial(a, rightHalf);
      var fin := Search(a, items, leftHalf, start, pairs);
      var sc := Scores(a, items, leftHalf, start, pairs);
      var w := LastImprovement(a, items, leftHalf, start, pairs);
      && fin.currentBest == (if w < 0 then a.inf else sc[w])
      && (forall k :: 0 <= k < |pairs| ==> fin.currentBest <= sc[k])
      && (w < 0 ==> forall k :: 0 <= k < |pairs| ==> sc[k] >= a.inf)
      && (0 <= w ==> sc[w] < a.inf && forall k :: 0 <= k < w ==> sc[w] < sc[k])
  {
    var start := Initial(a, rightHalf);
    var w := LastImprovement(a, items, leftHalf, start, pairs);
    SearchBest(a, items, leftHalf, rightHalf, pairs);
    SearchBelowScores(a, items, leftHalf, rightHalf, pairs);
    if 0 <= w {
      var front := pairs[..w];
      var sc := Scores(a, items, leftHalf, start, pairs);
      SearchBelowScores(a, items, leftHalf, rightHalf, front);
      LastImprovementImproves(a, items, leftHalf, start, pairs);
      ScoresOfPrefix(a, items, leftHalf, start, pairs, w);
      assert forall k :: 0 <= k < w ==> sc[k] == Scores(a, items, leftHalf, start, front)[k];
    }
  }

  /** After its last improvement the run no longer touches the right half. */
  lemma {:induction false} RightHalfSettlesAtWinner<M>(a: Approach<M>, items: seq<Item>, leftHalf: seq<ItemState>, start: SearchState, pairs: seq<(real, real)>)
    ensures var w := LastImprovement(a, items, leftHalf, start, pairs);
      0 <= w ==> Search(a, items, leftHalf, start, pairs) == Search(a, items, leftHalf, start, pairs[..w + 1])
    decreases |pairs|
  {
    if pairs != [] {
      var k := |pairs| - 1;
      var w := LastImprovement(a, items, leftHalf, start, pairs);
      if w == k {
        assert pairs[..k + 1] == pairs;
      } else if 0 <= w {
        RightHalfSettlesAtWinner(a, items, leftHalf, start, pairs[..k]);
        assert pairs[..k][..w + 1] == pairs[..w + 1];
      }
    }
  }

  // ---------------------------------------------------------------------
  // The result of findBestOrientation

  function AllPairs<M>(a: Approach<M>): seq<(real, real)> {
    CandidatePairs(a.rotations, a.rotations)
  }

  /** The variables after both loops have run. */
  function FinalState<M>(a: Approach<M>, items: seq<Item>, leftHalf: seq<ItemState>, rightHalf: seq<ItemState>): SearchState {
    Search(a, items, leftHalf, Initial(a, rightHalf), AllPairs(a))
  }

  function RunScores<M>(a: Approach<M>, items: seq<Item>, leftHalf: seq<ItemState>, rightHalf: seq<ItemState>): seq<real> {
    Scores(a, items, leftHalf, Initial(a, rightHalf), AllPairs(a))
  }

  ghost predicate SomeScoreBelowInf<M>(a: Approach<M>, items: seq<Item>, leftHalf: seq<ItemState>, rightHalf: seq<ItemState>) {
    var sc := RunScores(a, items, leftHalf, rightHalf);
    exists k :: 0 <= k < |sc| && sc[k] < a.inf
  }

  /** The run ended with `currentBest` below INF. */
  predicate MergeBeatsInf<M>(a: Approach<M>, items: seq<Item>, leftHalf: seq<ItemState>, rightHalf: seq<ItemState>) {
    FinalState(a, items, leftHalf, rightHalf).currentBest < a.inf
  }

  lemma MergeBeatsInfIffSomeScoreBelowInf<M>(a: Approach<M>, items: seq<Item>, leftHalf: seq<ItemState>, rightHalf: seq<ItemState>)
    ensures MergeBeatsInf(a, items, leftHalf, rightHalf) <==> SomeScoreBelowInf(a, items, leftHalf, rightHalf)
  {
    var pairs := AllPairs(a);
    var start := Initial(a, rightHalf);
    var sc := Scores(a, items, leftHalf, start, pairs);
    var w := LastImprovement(a, items, leftHalf, start, pairs);
    SearchMinimum(a, items, leftHalf, rightHalf, pairs);
    if SomeScoreBelowInf(a, items, leftHalf, rightHalf) {
      var k :| 0 <= k < |sc| && sc[k] < a.inf;
      assert 0 <= w;
    }
    if 0 <= w {
      assert RunScores(a, items, leftHalf, rightHalf)[w] < a.inf;
    }
  }

  /** The orientation findBestOrientation returns: empty, or the unrotated
      left half followed by the right half with the same ids and angles. */
  function BestOrientation<M>(a: Approach<M>, items: seq<Item>, leftHalf: seq<ItemState>, rightHalf: seq<ItemState>): (best: seq<ItemState>)
    ensures best == [] || (|best| == |leftHalf| + |rightHalf| && best[..|leftHalf|] == leftHalf
                           && Ids(best[|leftHalf|..]) == Ids(rightHalf) && Angles(best[|leftHalf|..]) == Angles(rightHalf))
  {
    SearchShape(a, items, leftHalf, rightHalf, AllPairs(a));
    var fin := FinalState(a, items, leftHalf, rightHalf);
    assert fin.bestOrientation != [] ==> fin.bestOrientation[|leftHalf|..] == fin.rightHalf;
    fin.bestOrientation
  }

  /** Empty exactly when no score beat INF (or both halves were empty);
      otherwise the left half and then the caller's right half as it was left. */
  lemma EmptyUnlessSomeScoreBelowInf<M>(a: Approach<M>, items: seq<Item>, leftHalf: seq<ItemState>, rightHalf: seq<ItemState>)
    ensures SomeScoreBelowInf(a, items, leftHalf, rightHalf) ==>
      BestOrientation(a, items, leftHalf, rightHalf) == leftHalf + FinalState(a, items, leftHalf, rightHalf).rightHalf
    ensures !SomeScoreBelowInf(a, items, leftHalf, rightHalf) ==> BestOrientation(a, items, leftHalf, rightHalf) == []
    ensures |a.rotations| == 0 ==> BestOrientation(a, items, leftHalf, rightHalf) == []
  {
    var pairs := AllPairs(a);
    var start := Initial(a, rightHalf);
    var fin := Search(a, items, leftHalf, start, pairs);
    var sc := Scores(a, items, leftHalf, start, pairs);
    var w := LastImprovement(a, items, leftHalf, start, pairs);
    SearchShape(a, items, leftHalf, rightHalf, pairs);
    SearchMinimum(a, items, leftHalf, rightHalf, pairs);
    assert BestOrientation(a, items, leftHalf, rightHalf) == fin.bestOrientation;
    if SomeScoreBelowInf(a, items, leftHalf, rightHalf) {
      var k :| 0 <= k < |sc| && sc[k] < a.inf;
      assert 0 <= w;
    }
    if 0 <= w {
      assert RunScores(a, items, leftHalf, rightHalf)[w] < a.inf;
      assert SomeScoreBelowInf(a, items, leftHalf, rightHalf);
    }
    if |a.rotations| == 0 {
      assert pairs == [];
    }
  }

  /** A merge that saw a score below INF keeps every id of both halves, in
      order. */
  lemma MergedIds<M>(a: Approach<M>, items: seq<Item>, leftHalf: seq<ItemState>, rightHalf: seq<ItemState>)
    requires MergeBeatsInf(a, items, leftHalf, rightHalf)
    ensures Ids(BestOrientation(a, items, leftHalf, rightHalf)) == Ids(leftHalf) + Ids(rightHalf)
  {
    MergeBeatsInfIffSomeScoreBelowInf(a, items, leftHalf, rightHalf);
    EmptyUnlessSomeScoreBelowInf(a, items, leftHalf, rightHalf);
    SearchShape(a, items, leftHalf, rightHalf, AllPairs(a));
    IdsAppend(leftHalf, FinalState(a, items, leftHalf, rightHalf).rightHalf);
  }

  /** With at least one candidate angle and a scoring step that always
      reports an area below INF, the very first pair already beats INF. */
  lemma FiniteAreasBeatInf<M>(a: Approach<M>, items: seq<Item>, leftHalf: seq<ItemState>, rightHalf: seq<ItemState>)
    requires |a.rotations| > 0
    requires forall l, r :: MergeItemsSet(a, items, l, r).area < a.inf
    ensures MergeBeatsInf(a, items, leftHalf, rightHalf)
  {
    MergeBeatsInfIffSomeScoreBelowInf(a, items, leftHalf, rightHalf);
    CandidatePairsOrder(a.rotations, a.rotations, 0, 0);
    var pairs := AllPairs(a);
    var start := Initial(a, rightHalf);
    var sc := RunScores(a, items, leftHalf, rightHalf);
    assert sc[0] == PairScore(a, items, leftHalf, Search(a, items, leftHalf, start, pairs[..0]), pairs[0]).area;
  }

  /** A merge that always reports area 0 and a zero offset, which is what the
      value-initialised result of the unfinished raster merge amounts to. */
  ghost predicate MergesToZero<M>(a: Approach<M>) {
    a.mergeRasters == (m1: M, m2: M) => MergeResult(0.0, Origin)
  }

  /** With zero offsets, no improvement moves the right half. */
  lemma {:induction false} ZeroOffsetsSumToOrigin<M>(a: Approach<M>, items: seq<Item>, leftHalf: seq<ItemState>, start: SearchState, pairs: seq<(real, real)>)
    requires MergesToZero(a)
    ensures OffsetSum(a, items, leftHalf, start, pairs) == Origin
    decreases |pairs|
  {
    if pairs != [] {
      var k := |pairs| - 1;
      ZeroOffsetsSumToOrigin(a, items, leftHalf, start, pairs[..k]);
      var before := Search(a, items, leftHalf, start, pairs[..k]);
      var lr := RotatedStates(leftHalf, pairs[k].0, a.rotatePivot);
      var raster := a.rasterItems(items, lr);
      assert PairScore(a, items, leftHalf, before, pairs[k]) == a.mergeRasters(raster, raster);
    }
  }

  /** With that merge, at least one angle and a positive INF, the first pair
      wins and the result is the two halves exactly as they were passed in. */
  lemma ZeroMergeKeepsHalves<M>(a: Approach<M>, items: seq<Item>, leftHalf: seq<ItemState>, rightHalf: seq<ItemState>)
    requires MergesToZero(a)
    requires |a.rotations| > 0 && a.inf > 0.0
    ensures forall l, r :: MergeItemsSet(a, items, l, r).area < a.inf
    ensures BestOrientation(a, items, leftHalf, rightHalf) == leftHalf + rightHalf
  {
    forall l, r
      ensures MergeItemsSet(a, items, l, r).area < a.inf
    {
      var raster := a.rasterItems(items, l);
      assert MergeItemsSet(a, items, l, r) == a.mergeRasters(raster, raster);
    }
    FiniteAreasBeatInf(a, items, leftHalf, rightHalf);
    MergeBeatsInfIffSomeScoreBelowInf(a, items, leftHalf, rightHalf);
    EmptyUnlessSomeScoreBelowInf(a, items, leftHalf, rightHalf);
    SearchShape(a, items, leftHalf, rightHalf, AllPairs(a));
    ZeroOffsetsSumToOrigin(a, items, leftHalf, Initial(a, rightHalf), AllPairs(a));
    assert Translated(rightHalf, Origin) == rightHalf;
  }

  /** Strict `<`: the winner is the earliest pair, in iteration order, whose
      score is the least of the run; there is none exactly when no score
      beat INF. */
  lemma EarliestMinimumWins<M>(a: Approach<M>, items: seq<Item>, leftHalf: seq<ItemState>, rightHalf: seq<ItemState>)
    ensures var sc := RunScores(a, items, leftHalf, rightHalf);
      var w := LastImprovement(a, items, leftHalf, Initial(a, rightHalf), AllPairs(a));
      && (w < 0 <==> !SomeScoreBelowInf(a, items, leftHalf, rightHalf))
      && (0 <= w ==>
            && (forall k :: 0 <= k < |sc| ==> sc[w] <= sc[k])
            && (forall k :: 0 <= k < w ==> sc[w] < sc[k]))
  {
    var pairs := AllPairs(a);
    var start := Initial(a, rightHalf);
    var sc := RunScores(a, items, leftHalf, rightHalf);
    var w := LastImprovement(a, items, leftHalf, start, pairs);
    SearchMinimum(a, items, leftHalf, rightHalf, pairs);
    if SomeScoreBelowInf(a, items, leftHalf, rightHalf) {
      var k :| 0 <= k < |sc| && sc[k] < a.inf;
      assert 0 <= w;
    }
    if 0 <= w {
      assert sc[w] < a.inf;
    }
  }

  /** The result is the left half followed by the right half as the winning
      pair's offset left it. */
  lemma WinnerFixesResult<M>(a: Approach<M>, items: seq<Item>, leftHalf: seq<ItemState>, rightHalf: seq<ItemState>)
    ensures var pairs := AllPairs(a);
      var start := Initial(a, rightHalf);
      var w := LastImprovement(a, items, leftHalf, start, pairs);
      0 <= w ==>
        var before := Search(a, items, leftHalf, start, pairs[..w]);
        BestOrientation(a, items, leftHalf, rightHalf)
          == leftHalf + Translated(before.rightHalf, PairScore(a, items, leftHalf, before, pairs[w]).offset)
  {
    var pairs := AllPairs(a);
    var start := Initial(a, rightHalf);
    var w := LastImprovement(a, items, leftHalf, start, pairs);
    if 0 <= w {
      var before := Search(a, items, leftHalf, start, pairs[..w]);
      LastImprovementImproves(a, items, leftHalf, start, pairs);
      RightHalfSettlesAtWinner(a, items, leftHalf, start, pairs);
      var upTo := pairs[..w + 1];
      assert upTo[..w] == pairs[..w] && upTo[w] == pairs[w];
      assert Search(a, items, leftHalf, start, upTo) == TryPair(a, items, leftHalf, before, pairs[w]);
    }
  }

  lemma {:induction false} LastImprovementImproves<M>(a: Approach<M>, items: seq<Item>, leftHalf: seq<ItemState>, start: SearchState, pairs: seq<(real, real)>)
    ensures var w := LastImprovement(a, items, leftHalf, start, pairs);
      0 <= w ==> Improves(a, items, leftHalf, Search(a, items, leftHalf, start, pairs[..w]), pairs[w])
    decreases |pairs|
  {
    if pairs != [] {
      var k := |pairs| - 1;
      var w := LastImprovement(a, items, leftHalf, start, pairs);
      if 0 <= w < k {
        LastImprovementImproves(a, items, leftHalf, start, pairs[..k]);
        assert pairs[..k][..w] == pairs[..w];
      }
    }
  }

  /** Each improvement adds its offset to every pivot of the caller's right
      half, on top of the earlier ones; ids and angles stay as they were. */
  lemma RightHalfAccumulatesOffsets<M>(a: Approach<M>, items: seq<Item>, leftHalf: seq<ItemState>, rightHalf: seq<ItemState>)
    ensures var fin := FinalState(a, items, leftHalf, rightHalf);
      var total := OffsetSum(a, items, leftHalf, Initial(a, rightHalf), AllPairs(a));
      && |fin.rightHalf| == |rightHalf|
      && (forall i :: 0 <= i < |rightHalf| ==>
            fin.rightHalf[i] == ItemState(rightHalf[i].itemId, rightHalf[i].rotatedBy, rightHalf[i].pivot.Plus(total)))
  {
    SearchShape(a, items, leftHalf, rightHalf, AllPairs(a));
  }

  // ---------------------------------------------------------------------
  // The imperative original

  /** Shifts every pivot of `rightHalf` by `offset`, in place. */
  method ShiftPivots(rightHalf: array<ItemState>, offset: Point)
    modifies rightHalf
    ensures rightHalf[..] == Translated(old(rightHalf[..]), offset)
  {
    for i := 0 to rightHalf.Length
      invariant forall k :: 0 <= k < i ==> rightHalf[k] == old(rightHalf[k]).(pivot := old(rightHalf[k]).pivot.Plus(offset))
      invariant forall k :: i <= k < rightHalf.Length ==> rightHalf[k] == old(rightHalf[k])
    {
      rightHalf[i] := rightHalf[i].(pivot := rightHalf[i].pivot.Plus(offset));
    }
  }

  /** Tries every (r1, r2) pair, keeps the strictly best, shifts the caller's
      right half in place on every improvement and leaves the left half alone. */
  method FindBestOrientation<M>(a: Approach<M>, items: seq<Item>, leftHalf: array<ItemState>, rightHalf: array<ItemState>)
    returns (bestOrientation: seq<ItemState>)
    requires leftHalf != rightHalf
    modifies rightHalf
    ensures leftHalf[..] == old(leftHalf[..])
    ensures bestOrientation == BestOrientation(a, items, old(leftHalf[..]), old(rightHalf[..]))
    ensures rightHalf[..] == FinalState(a, items, old(leftHalf[..]), old(rightHalf[..])).rightHalf
  {
    ghost var start := Initial(a, rightHalf[..]);
    var currentBest := a.inf;
    bestOrientation := [];
    ghost var done: seq<(real, real)> := [];
    var rotations := a.rotations;
    for i := 0 to |rotations|
      invariant done == CandidatePairs(rotations[..i], rotations)
      invariant Search(a, items, leftHalf[..], start, done) == SearchState(currentBest, rightHalf[..], bestOrientation)
    {
      var r1 := rotations[i];
      var rotatedLeft := RotateItemStates(leftHalf[..], r1, a.rotatePivot);
      currentBest, bestOrientation := SearchRow(a, items, leftHalf, rightHalf, rotatedLeft, r1, currentBest, bestOrientation, start, done);
      CandidatePairsSnoc(rotations, i);
      done := done + RowPairs(r1, rotations)[..|rotations|];
    }
    assert rotations[..|rotations|] == rotations;
  }

  /** The inner loop of the search: the left half turned by `r1` against the
      right half turned by every angle in turn, continuing the run from the
      pairs `done` so far. */
  method SearchRow<M>(a: Approach<M>, items: seq<Item>, leftHalf: array<ItemState>, rightHalf: array<ItemState>,
                      rotatedLeft: seq<ItemState>, r1: real, best: real, orientation: seq<ItemState>,
                      ghost start: SearchState, ghost done: seq<(real, real)>)
    returns (currentBest: real, bestOrientation: seq<ItemState>)
    requires leftHalf != rightHalf
    requires rotatedLeft == RotatedStates(leftHalf[..], r1, a.rotatePivot)
    requires Search(a, items, leftHalf[..], start, done) == SearchState(best, rightHalf[..], orientation)
    modifies rightHalf
    ensures Search(a, items, leftHalf[..], start, done + RowPairs(r1, a.rotations)[..|a.rotations|])
         == SearchState(currentBest, rightHalf[..], bestOrientation)
  {
    ghost var left := leftHalf[..];
    currentBest, bestOrientation := best, orientation;
    ghost var tried := done;
    var rotations := a.rotations;
    for j := 0 to |rotations|
      invariant leftHalf[..] == left
      invariant tried == done + RowPairs(r1, rotations)[..j]
      invariant Search(a, items, left, start, tried) == SearchState(currentBest, rightHalf[..], bestOrientation)
    {
      var r2 := rotations[j];
      ghost var before := Search(a, items, left, start, tried);
      var rotatedRight := RotateItemStates(rightHalf[..], r2, a.rotatePivot);
      var mergeResult := MergeItemsSet(a, items, rotatedLeft, rotatedRight);
      assert mergeResult == PairScore(a, items, left, before, (r1, r2));
      var minimumEnclosingRectangleArea := mergeResult.area;
      var pivotOfRightHalf := mergeResult.offset;
      if minimumEnclosingRectangleArea < currentBest {
        currentBest := minimumEnclosingRectangleArea;
        ShiftPivots(rightHalf, pivotOfRightHalf);
        bestOrientation := leftHalf[..];
        bestOrientation := bestOrientation + rightHalf[..];
      }
      assert TryPair(a, items, left, before, (r1, r2)) == SearchState(currentBest, rightHalf[..], bestOrientation);
      SearchSnoc(a, items, left, start, tried, (r1, r2));
      tried := tried + [(r1, r2)];
      assert RowPairs(r1, rotations)[..j + 1] == RowPairs(r1, rotations)[..j] + [(r1, r2)];
    }
  }
}
