/** The Divide-and-Conquer Driver (`DnCApproach::divideAndConquer`) and the
    entry point over a whole item list. */
module DivideAndConquer {
  import opened Geometry
  import opened ItemStates
  import opened OrientationSearch

  /** `(left + right) >> 1`. An arithmetic shift right by one is division by
      two rounded down, and so is Dafny's `/` by a positive divisor, negative
      operands included. */
  function Mid(left: int, right: int): (mid: int)
    ensures left < right ==> left <= mid < right
    ensures 2 * mid <= left + right < 2 * mid + 2
  {
    (left + right) / 2
  }

  /** Both halves of a split range are non-empty and strictly shorter, so
      `right - left` decreases and the recursion terminates. */
  lemma SplitShrinks(left: int, right: int)
    requires left < right
    ensures left <= Mid(left, right) && Mid(left, right) + 1 <= right
    ensures Mid(left, right) - left < right - left && right - (Mid(left, right) + 1) < right - left
  {
  }

  /** Singletons at rotation 0 and their own pivot; otherwise both halves
      solved on their own and combined by the orientation search. Whatever
      the hooks do, the result lists ids of `[left, right]` in increasing
      order, each at most once, and every angle is still 0: the winning
      combination is built from the unrotated halves. */
  function DivideAndConquer<M>(a: Approach<M>, items: seq<Item>, left: int, right: int): (orientation: seq<ItemState>)
    requires 0 <= left <= right < |items|
    ensures left == right ==> orientation == [ItemState(left, 0.0, items[left].pivotPoint)]
    ensures forall i :: 0 <= i < |orientation| ==> left <= orientation[i].itemId <= right
    ensures forall i, j :: 0 <= i < j < |orientation| ==> orientation[i].itemId < orientation[j].itemId
    ensures forall i :: 0 <= i < |orientation| ==> orientation[i].rotatedBy == 0.0
    decreases right - left
  {
    if left == right then
      [ItemState(left, 0.0, items[left].pivotPoint)]
    else
      var mid := Mid(left, right);
      var leftHalf := DivideAndConquer(a, items, left, mid);
      var rightHalf := DivideAndConquer(a, items, mid + 1, right);
      var best := BestOrientation(a, items, leftHalf, rightHalf);
      CombinedHalvesAreOrdered(best, leftHalf, rightHalf, left, mid, right);
      best
  }

  /** Ids and angles carry over from the halves to their combination. */
  lemma CombinedHalvesAreOrdered(best: seq<ItemState>, leftHalf: seq<ItemState>, rightHalf: seq<ItemState>, left: int, mid: int, right: int)
    requires left <= mid < right
    requires best == [] || (|best| == |leftHalf| + |rightHalf| && best[..|leftHalf|] == leftHalf
                            && Ids(best[|leftHalf|..]) == Ids(rightHalf) && Angles(best[|leftHalf|..]) == Angles(rightHalf))
    requires forall i :: 0 <= i < |leftHalf| ==> left <= leftHalf[i].itemId <= mid && leftHalf[i].rotatedBy == 0.0
    requires forall i :: 0 <= i < |rightHalf| ==> mid + 1 <= rightHalf[i].itemId <= right && rightHalf[i].rotatedBy == 0.0
    requires forall i, j :: 0 <= i < j < |leftHalf| ==> leftHalf[i].itemId < leftHalf[j].itemId
    requires forall i, j :: 0 <= i < j < |rightHalf| ==> rightHalf[i].itemId < rightHalf[j].itemId
    ensures forall i :: 0 <= i < |best| ==> left <= best[i].itemId <= right && best[i].rotatedBy == 0.0
    ensures forall i, j :: 0 <= i < j < |best| ==> best[i].itemId < best[j].itemId
  {
    if best != [] {
      var n := |leftHalf|;
      forall i | n <= i < |best|
        ensures best[i].itemId == rightHalf[i - n].itemId && best[i].rotatedBy == rightHalf[i - n].rotatedBy
      {
        assert Ids(best[n..])[i - n] == Ids(rightHalf)[i - n];
        assert Angles(best[n..])[i - n] == Angles(rightHalf)[i - n];
      }
      forall i | 0 <= i < n
        ensures best[i] == leftHalf[i]
      {
        assert best[..n][i] == leftHalf[i];
      }
    }
  }

  function Range(left: int, right: int): (r: seq<int>)
    requires left <= right + 1
  {
    seq(right - left + 1, i requires 0 <= i < right - left + 1 => left + i)
  }

  lemma RangeSplits(left: int, mid: int, right: int)
    requires left <= mid < right
    ensures Range(left, right) == Range(left, mid) + Range(mid + 1, right)
  {
  }

  /** Every merge on the way down ended below INF, that is, saw at least one
      score below INF (`MergeBeatsInfIffSomeScoreBelowInf`). */
  ghost predicate MergesSucceed<M>(a: Approach<M>, items: seq<Item>, left: int, right: int)
    requires 0 <= left <= right < |items|
    decreases right - left
  {
    left == right ||
    var mid := Mid(left, right);
    && MergesSucceed(a, items, left, mid)
    && MergesSucceed(a, items, mid + 1, right)
    && MergeBeatsInf(a, items, DivideAndConquer(a, items, left, mid), DivideAndConquer(a, items, mid + 1, right))
  }

  /** When every merge succeeds the orientation covers `left..right`, in
      order, each exactly once: a merge is the left half followed by the
      right half. */
  lemma {:induction false} CoversRange<M>(a: Approach<M>, items: seq<Item>, left: int, right: int)
    requires 0 <= left <= right < |items|
    requires MergesSucceed(a, items, left, right)
    ensures Ids(DivideAndConquer(a, items, left, right)) == Range(left, right)
    decreases right - left
  {
    if left < right {
      var mid := Mid(left, right);
      CoversRange(a, items, left, mid);
      CoversRange(a, items, mid + 1, right);
      SucceedingMergeJoinsIds(a, items, left, right);
      RangeSplits(left, mid, right);
      var ids := Ids(DivideAndConquer(a, items, left, right));
      var leftIds := Ids(DivideAndConquer(a, items, left, mid));
      var rightIds := Ids(DivideAndConquer(a, items, mid + 1, right));
      assert ids == leftIds + rightIds;
      assert leftIds == Range(left, mid) && rightIds == Range(mid + 1, right);
    } else {
      assert DivideAndConquer(a, items, left, right) == [ItemState(left, 0.0, items[left].pivotPoint)];
    }
  }

  /** A succeeding merge lists the ids of the left half, then those of the
      right half. */
  lemma SucceedingMergeJoinsIds<M>(a: Approach<M>, items: seq<Item>, left: int, right: int)
    requires 0 <= left < right < |items|
    requires MergesSucceed(a, items, left, right)
    ensures var mid := Mid(left, right);
      Ids(DivideAndConquer(a, items, left, right))
        == Ids(DivideAndConquer(a, items, left, mid)) + Ids(DivideAndConquer(a, items, mid + 1, right))
  {
    var mid := Mid(left, right);
    var leftHalf := DivideAndConquer(a, items, left, mid);
    var rightHalf := DivideAndConquer(a, items, mid + 1, right);
    assert DivideAndConquer(a, items, left, right) == BestOrientation(a, items, leftHalf, rightHalf);
    MergedIds(a, items, leftHalf, rightHalf);
  }

  /** Any two halves whatsoever would merge below INF. */
  ghost predicate EveryMergeBeatsInf<M>(a: Approach<M>, items: seq<Item>) {
    forall l, r :: MergeBeatsInf(a, items, l, r)
  }

  /** Every merge on the way down succeeds when every merge of any two
      halves would. */
  lemma {:induction false} MergesSucceedWhenAllDo<M>(a: Approach<M>, items: seq<Item>, left: int, right: int)
    requires 0 <= left <= right < |items|
    requires EveryMergeBeatsInf(a, items)
    ensures MergesSucceed(a, items, left, right)
    decreases right - left
  {
    if left < right {
      var mid := Mid(left, right);
      MergesSucceedWhenAllDo(a, items, left, mid);
      MergesSucceedWhenAllDo(a, items, mid + 1, right);
    }
  }

  /** Every merge succeeds whenever there is a candidate angle and the
      scoring step always reports an area below INF. */
  lemma FiniteAreasMakeMergesSucceed<M>(a: Approach<M>, items: seq<Item>, left: int, right: int)
    requires 0 <= left <= right < |items|
    requires |a.rotations| > 0
    requires forall l, r :: MergeItemsSet(a, items, l, r).area < a.inf
    ensures MergesSucceed(a, items, left, right)
  {
    forall l, r
      ensures MergeBeatsInf(a, items, l, r)
    {
      FiniteAreasBeatInf(a, items, l, r);
    }
    MergesSucceedWhenAllDo(a, items, left, right);
  }

  /** The program with its merge as it stands (area 0, zero offset): given
      one angle and a positive INF, every item is placed exactly once, in
      input order. */
  lemma ZeroMergePlacesEveryItem<M>(a: Approach<M>, items: seq<Item>)
    requires MergesToZero(a)
    requires |a.rotations| > 0 && a.inf > 0.0
    ensures Ids(Solution(a, items)) == seq(|items|, i requires 0 <= i < |items| => i)
  {
    if |items| > 0 {
      ZeroMergeKeepsHalves(a, items, [], []);
      FiniteAreasMakeMergesSucceed(a, items, 0, |items| - 1);
      SolutionPlacesEveryItem(a, items);
    }
  }

  /** The source's `solution` calls `divideAndConquer(items, 0, n - 1)`
      unguarded. For `n == 0` that is the range `[0, -1]`, and the first
      recursive call on `[left, left - 1]` is `[left, Mid(left, left - 1)]`,
      the very same range: the recursion never ends. */
  lemma EmptyRangeRecursesOnItself(left: int)
    ensures Mid(left, left - 1) == left - 1
  {
  }

  /** The entry point with the empty item list handled: no items, no
      placements; otherwise the orientation of `[0, n - 1]`. */
  function Solution<M>(a: Approach<M>, items: seq<Item>): (orientation: seq<ItemState>)
    ensures forall i :: 0 <= i < |orientation| ==> 0 <= orientation[i].itemId < |items| && orientation[i].rotatedBy == 0.0
    ensures forall i, j :: 0 <= i < j < |orientation| ==> orientation[i].itemId < orientation[j].itemId
  {
    if |items| == 0 then [] else DivideAndConquer(a, items, 0, |items| - 1)
  }

  /** With every merge succeeding, each item is placed exactly once, in
      input order. */
  lemma SolutionPlacesEveryItem<M>(a: Approach<M>, items: seq<Item>)
    requires |items| == 0 || MergesSucceed(a, items, 0, |items| - 1)
    ensures Ids(Solution(a, items)) == seq(|items|, i requires 0 <= i < |items| => i)
  {
    if |items| > 0 {
      CoversRange(a, items, 0, |items| - 1);
    }
  }
}
