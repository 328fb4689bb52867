/** Items, their placement records and the State Transform that rotates a
    batch of placement records (`DnCApproach::rotateItemStates`). */
module ItemStates {
  import opened Geometry

  /** An input shape: its outline and the anchor used for placement. */
  datatype Item = Item(outline: seq<Point>, pivotPoint: Point)

  /** A placement record: which item, its cumulative rotation in degrees,
      and where its anchor currently sits. */
  datatype ItemState = ItemState(itemId: int, rotatedBy: real, pivot: Point)

  function Ids(s: seq<ItemState>): (ids: seq<int>)
    ensures |ids| == |s|
  {
    seq(|s|, i requires 0 <= i < |s| => s[i].itemId)
  }

  lemma IdsAppend(s: seq<ItemState>, t: seq<ItemState>)
    ensures Ids(s + t) == Ids(s) + Ids(t)
  {
    assert forall i :: 0 <= i < |s + t| ==> Ids(s + t)[i] == (Ids(s) + Ids(t))[i];
  }

  function Angles(s: seq<ItemState>): (angles: seq<real>)
    ensures |angles| == |s|
  {
    seq(|s|, i requires 0 <= i < |s| => s[i].rotatedBy)
  }

  /** Every pivot shifted by `d`, the way an accepted merge offset moves the
      right half. */
  function Translated(s: seq<ItemState>, d: Point): (t: seq<ItemState>)
    ensures Ids(t) == Ids(s) && Angles(t) == Angles(s)
  {
    seq(|s|, i requires 0 <= i < |s| => s[i].(pivot := s[i].pivot.Plus(d)))
  }

  /** Shifting by `d` and then by `e` is one shift by `d + e`: offsets add up. */
  lemma TranslatedTwice(s: seq<ItemState>, d: Point, e: Point)
    ensures Translated(Translated(s, d), e) == Translated(s, d.Plus(e))
  {
  }

  /** One record turned by `angle`: the angle accumulates, the pivot is turned
      about the origin by `rotatePivot` (the trigonometric `Point::rotate`,
      left abstract) and then snapped to the grid. */
  function RotateState(st: ItemState, angle: real, rotatePivot: (Point, real) -> Point): ItemState {
    ItemState(st.itemId, st.rotatedBy + angle, SnapToGrid(rotatePivot(st.pivot, angle)))
  }

  function RotatedStates(s: seq<ItemState>, angle: real, rotatePivot: (Point, real) -> Point): seq<ItemState> {
    seq(|s|, i requires 0 <= i < |s| => RotateState(s[i], angle, rotatePivot))
  }

  /** Works on a copy of `itemStates` (a value here, so the caller's sequence
      cannot change) and updates each record of the copy in turn. */
  method RotateItemStates(itemStates: seq<ItemState>, rotationAngle: real, rotatePivot: (Point, real) -> Point)
    returns (rotated: seq<ItemState>)
    ensures rotated == RotatedStates(itemStates, rotationAngle, rotatePivot)
    ensures Ids(rotated) == Ids(itemStates)
    ensures forall i :: 0 <= i < |rotated| ==> rotated[i].rotatedBy == itemStates[i].rotatedBy + rotationAngle
    ensures forall i :: 0 <= i < |rotated| ==>
      var turned := rotatePivot(itemStates[i].pivot, rotationAngle);
      IsGridPoint(rotated[i].pivot) && rotated[i].pivot == SnapToGrid(turned)
  {
    rotated := itemStates;
    for i := 0 to |rotated|
      invariant |rotated| == |itemStates|
      invariant forall k :: 0 <= k < i ==> rotated[k] == RotateState(itemStates[k], rotationAngle, rotatePivot)
      invariant forall k :: i <= k < |rotated| ==> rotated[k] == itemStates[k]
    {
      var itemState := rotated[i];
      itemState := itemState.(rotatedBy := itemState.rotatedBy + rotationAngle);
      itemState := itemState.(pivot := rotatePivot(itemState.pivot, rotationAngle));
      itemState := itemState.(pivot := Point(RoundHalfUp(itemState.pivot.x) as real, RoundHalfUp(itemState.pivot.y) as real));
      rotated := rotated[i := itemState];
    }
  }
}
