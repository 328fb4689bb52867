/** The two helpers of the geometry utility that are plain sequence and
    arithmetic code: building the clockwise ring of an input polygon
    (`constructBGPolygon`) and mirroring a multi-polygon across a line
    (`reflectAcrossLine`). */
module BoostGeometryUtility {
  import opened Geometry

  /** A polygon: its exterior ring and its holes. */
  datatype Polygon = Polygon(outer: seq<Point>, inners: seq<seq<Point>>)

  function Reversed<T>(s: seq<T>): (r: seq<T>)
    ensures |r| == |s|
  {
    seq(|s|, i requires 0 <= i < |s| => s[|s| - 1 - i])
  }

  lemma ReversedTwice<T>(s: seq<T>)
    ensures Reversed(Reversed(s)) == s
  {
  }

  /** `std::reverse` on the caller's vector. */
  method Reverse(a: array<Point>)
    modifies a
    ensures a[..] == Reversed(old(a[..]))
  {
    var lo, hi := 0, a.Length - 1;
    while lo < hi
      invariant 0 <= lo && hi == a.Length - 1 - lo && 2 * lo <= a.Length + 1
      invariant forall k :: 0 <= k < lo ==> a[k] == old(a[a.Length - 1 - k]) && a[a.Length - 1 - k] == old(a[k])
      invariant forall k :: lo <= k <= hi ==> a[k] == old(a[k])
    {
      a[lo], a[hi] := a[hi], a[lo];
      lo, hi := lo + 1, hi - 1;
    }
  }

  // ---------------------------------------------------------------------
  // constructBGPolygon

  /** The start point, then the input from its last point back to its
      first. */
  function ClockwiseRing(input: seq<Point>): (ring: seq<Point>)
    requires |input| >= 3
    ensures |ring| == |input| + 1
    ensures ring[0] == ring[|ring| - 1] == input[0]
  {
    [input[0]] + Reversed(input)
  }

  /** The ring is the input, closed and read backwards. */
  lemma ClockwiseRingIsClosedInputReversed(input: seq<Point>)
    requires |input| >= 3
    ensures ClockwiseRing(input) == Reversed(input + [input[0]])
  {
  }

  /** Nothing is lost: dropping the repeated start point and reading the
      ring backwards gives the input back. */
  lemma ClockwiseRingRecoversInput(input: seq<Point>)
    requires |input| >= 3
    ensures Reversed(ClockwiseRing(input)[1..]) == input
  {
    assert ClockwiseRing(input)[1..] == Reversed(input);
    ReversedTwice(input);
  }

  /** Twice the signed area swept along a path of points: the shoelace sum
      of its edges. Positive for a counter-clockwise closed ring. */
  function PathSum(pts: seq<Point>): real
    decreases |pts|
  {
    if |pts| < 2 then 0.0
    else pts[0].x * pts[1].y - pts[1].x * pts[0].y + PathSum(pts[1..])
  }

  lemma {:induction false} PathSumSnoc(pts: seq<Point>, p: Point)
    requires |pts| >= 1
    ensures PathSum(pts + [p]) == PathSum(pts) + (pts[|pts| - 1].x * p.y - p.x * pts[|pts| - 1].y)
    decreases |pts|
  {
    if |pts| > 1 {
      assert (pts + [p])[1..] == pts[1..] + [p];
      PathSumSnoc(pts[1..], p);
    }
  }

  /** Walking a path backwards negates its shoelace sum. */
  lemma {:induction false} PathSumReversed(pts: seq<Point>)
    ensures PathSum(Reversed(pts)) == -PathSum(pts)
    decreases |pts|
  {
    if |pts| >= 2 {
      var rest := pts[1..];
      assert Reversed(pts) == Reversed(rest) + [pts[0]];
      PathSumReversed(rest);
      PathSumSnoc(Reversed(rest), pts[0]);
      assert Reversed(rest)[|rest| - 1] == pts[1];
    }
  }

  /** The counter-clockwise input becomes a clockwise ring: the signed area
      of the ring is the negated signed area of the closed input. */
  lemma ClockwiseRingFlipsOrientation(input: seq<Point>)
    requires |input| >= 3
    ensures PathSum(ClockwiseRing(input)) == -PathSum(input + [input[0]])
  {
    ClockwiseRingIsClosedInputReversed(input);
    PathSumReversed(input + [input[0]]);
  }

  /** Appends the start point, reverses the caller's vector in place (it
      stays reversed after the call) and appends its points in their new
      order. Fewer than three points is a fatal assertion in the source. */
  method ConstructBGPolygon(polygonFromInput: array<Point>) returns (polygonBG: Polygon)
    requires polygonFromInput.Length >= 3
    modifies polygonFromInput
    ensures polygonFromInput[..] == Reversed(old(polygonFromInput[..]))
    ensures polygonBG == Polygon(ClockwiseRing(old(polygonFromInput[..])), [])
  {
    var n := polygonFromInput.Length;
    var outer: seq<Point> := [];
    var startPoint := polygonFromInput[0];
    outer := outer + [startPoint];
    Reverse(polygonFromInput);
    for i := 0 to n
      invariant outer == [startPoint] + polygonFromInput[..i]
    {
      outer := outer + [polygonFromInput[i]];
    }
    assert polygonFromInput[..n] == polygonFromInput[..];
    polygonBG := Polygon(outer, []);
  }

  // ---------------------------------------------------------------------
  // reflectAcrossLine

  /** Mirror about the vertical line `x = x1`. */
  function MirrorX(pt: Point, x1: real): Point {
    Point(2.0 * x1 - pt.x, pt.y)
  }

  /** Mirror about the horizontal line `y = y1`. */
  function MirrorY(pt: Point, y1: real): Point {
    Point(pt.x, 2.0 * y1 - pt.y)
  }

  /** The reflection across `y = m * x + b`, in the source's closed form. */
  function ReflectAcrossSlope(pt: Point, m: real, b: real): Point {
    Point(((1.0 - m * m) * pt.x + 2.0 * m * pt.y - 2.0 * m * b) / (m * m + 1.0),
          ((m * m - 1.0) * pt.y + 2.0 * m * pt.x + 2.0 * b) / (m * m + 1.0))
  }

  lemma MirrorsAreInvolutions(pt: Point, x1: real, y1: real)
    ensures MirrorX(MirrorX(pt, x1), x1) == pt
    ensures MirrorY(MirrorY(pt, y1), y1) == pt
  {
  }

  /** `q` is the mirror image of `p` in the line `y = m * x + b`: the
      midpoint of the two lies on the line, and the segment between them is
      perpendicular to the line's direction `(1, m)`. */
  predicate MirrorImages(p: Point, q: Point, m: real, b: real) {
    && p.y + q.y == m * (p.x + q.x) + 2.0 * b
    && (q.x - p.x) + m * (q.y - p.y) == 0.0
  }

  lemma MirrorImagesSymmetric(p: Point, q: Point, m: real, b: real)
    requires MirrorImages(p, q, m, b)
    ensures MirrorImages(q, p, m, b)
  {
  }

  /** A point has a single mirror image in a given line. */
  lemma MirrorImageUnique(p: Point, q: Point, q': Point, m: real, b: real)
    requires MirrorImages(p, q, m, b) && MirrorImages(p, q', m, b)
    ensures q == q'
  {
    var dx := q.x - q'.x;
    var dy := q.y - q'.y;
    assert dy == m * dx;
    assert dx + m * dy == 0.0;
    assert dx * (1.0 + m * m) == 0.0;
    assert dx == 0.0;
  }

  /** The closed form really is the reflection across `y = m * x + b`. */
  lemma SlopeReflectionMirrors(pt: Point, m: real, b: real)
    ensures MirrorImages(pt, ReflectAcrossSlope(pt, m, b), m, b)
  {
    var d := m * m + 1.0;
    var r := ReflectAcrossSlope(pt, m, b);
    assert r.x * d == (1.0 - m * m) * pt.x + 2.0 * m * pt.y - 2.0 * m * b;
    assert r.y * d == (m * m - 1.0) * pt.y + 2.0 * m * pt.x + 2.0 * b;
    assert (pt.y + r.y) * d == (m * (pt.x + r.x) + 2.0 * b) * d;
    assert ((r.x - pt.x) + m * (r.y - pt.y)) * d == 0.0;
  }

  /** Reflecting twice across the same line returns the point: the point is
      the mirror image of its image, and mirror images are unique. */
  lemma SlopeReflectionIsInvolution(pt: Point, r: Point, m: real, b: real)
    requires r == ReflectAcrossSlope(pt, m, b)
    ensures ReflectAcrossSlope(r, m, b) == pt
  {
    var r2 := ReflectAcrossSlope(r, m, b);
    SlopeReflectionMirrors(pt, m, b);
    SlopeReflectionMirrors(r, m, b);
    MirrorImagesSymmetric(pt, r, m, b);
    MirrorImageUnique(r, r2, pt, m, b);
    assert r2 == pt;
  }

  /** Points of the line `y = m * x + b` stay where they are. */
  lemma SlopeReflectionFixesLine(pt: Point, m: real, b: real)
    requires pt.y == m * pt.x + b
    ensures ReflectAcrossSlope(pt, m, b) == pt
  {
    var d := m * m + 1.0;
    var r := ReflectAcrossSlope(pt, m, b);
    assert (1.0 - m * m) * pt.x + 2.0 * m * pt.y - 2.0 * m * b == pt.x * d;
    assert (m * m - 1.0) * pt.y + 2.0 * m * pt.x + 2.0 * b == pt.y * d;
  }

  /** Slope `m` of the line through `p` and `q`. */
  function Slope(p: Point, q: Point): real
    requires q.x != p.x
  {
    (q.y - p.y) / (q.x - p.x)
  }

  /** Intercept `b` of the line through `p` and `q`. */
  function Intercept(p: Point, q: Point): real
    requires q.x != p.x
  {
    p.y - Slope(p, q) * p.x
  }

  /** The general case: the line through `p` and `q` written as
      `y = m * x + b`. */
  function ReflectThroughPoints(pt: Point, p: Point, q: Point): Point
    requires q.x != p.x
  {
    ReflectAcrossSlope(pt, Slope(p, q), Intercept(p, q))
  }

  lemma ReflectThroughPointsIsInvolution(pt: Point, p: Point, q: Point)
    requires q.x != p.x
    ensures ReflectThroughPoints(ReflectThroughPoints(pt, p, q), p, q) == pt
  {
    SlopeReflectionIsInvolution(pt, ReflectThroughPoints(pt, p, q), Slope(p, q), Intercept(p, q));
  }

  /** Every point of the line through `p` and `q` stays where it is. */
  lemma ReflectThroughPointsFixesLine(pt: Point, p: Point, q: Point)
    requires q.x != p.x
    requires (pt.y - p.y) * (q.x - p.x) == (pt.x - p.x) * (q.y - p.y)
    ensures ReflectThroughPoints(pt, p, q) == pt
  {
    OnLineHasSlopeForm(pt, p, q);
    SlopeReflectionFixesLine(pt, Slope(p, q), Intercept(p, q));
  }

  /** The map `reflectAcrossLine` applies to every exterior-ring point. The
      branch tests are signed: `x2 - x1 < EPS`, not `|x2 - x1| < EPS`. EPS is
      a positive constant of an unseen header; it is a parameter here. */
  function ReflectPoint(pt: Point, p: Point, q: Point, eps: real): Point
    requires eps > 0.0
  {
    var x1, x2 := p.x, q.x;
    var y1, y2 := p.y, q.y;
    if x2 - x1 < eps then MirrorX(pt, x1)
    else if y2 - y1 < eps then MirrorY(pt, y1)
    else ReflectThroughPoints(pt, p, q)
  }

  /** Whichever branch the test picks, applying the map twice restores the
      point. */
  lemma ReflectPointIsInvolution(pt: Point, p: Point, q: Point, eps: real)
    requires eps > 0.0
    ensures ReflectPoint(ReflectPoint(pt, p, q, eps), p, q, eps) == pt
  {
    if q.x - p.x >= eps && q.y - p.y >= eps {
      ReflectThroughPointsIsInvolution(pt, p, q);
    }
  }

  /** When both differences reach EPS the map is the true reflection across
      the line through `p` and `q`: every point of that line is fixed. */
  lemma ReflectPointFixesRisingLine(pt: Point, p: Point, q: Point, eps: real)
    requires eps > 0.0
    requires q.x - p.x >= eps && q.y - p.y >= eps
    requires (pt.y - p.y) * (q.x - p.x) == (pt.x - p.x) * (q.y - p.y)
    ensures ReflectPoint(pt, p, q, eps) == pt
  {
    ReflectThroughPointsFixesLine(pt, p, q);
  }

  /** Collinearity with `p` and `q` written as `y = m * x + b`. */
  lemma OnLineHasSlopeForm(pt: Point, p: Point, q: Point)
    requires q.x != p.x
    requires (pt.y - p.y) * (q.x - p.x) == (pt.x - p.x) * (q.y - p.y)
    ensures pt.y == Slope(p, q) * pt.x + Intercept(p, q)
  {
    var m := Slope(p, q);
    assert q.y - p.y == m * (q.x - p.x);
    assert (pt.y - p.y) * (q.x - p.x) == (pt.x - p.x) * m * (q.x - p.x);
    assert pt.y - p.y == (pt.x - p.x) * m;
  }

  function ReflectRing(ring: seq<Point>, p: Point, q: Point, eps: real): seq<Point>
    requires eps > 0.0
  {
    seq(|ring|, j requires 0 <= j < |ring| => ReflectPoint(ring[j], p, q, eps))
  }

  /** Every polygon with its exterior ring mapped point by point; holes are
      not touched. */
  function ReflectExteriorRings(polygons: seq<Polygon>, p: Point, q: Point, eps: real): (r: seq<Polygon>)
    requires eps > 0.0
    ensures |r| == |polygons|
    ensures forall i :: 0 <= i < |r| ==> |r[i].outer| == |polygons[i].outer| && r[i].inners == polygons[i].inners
  {
    seq(|polygons|, i requires 0 <= i < |polygons| => polygons[i].(outer := ReflectRing(polygons[i].outer, p, q, eps)))
  }

  /** Reflecting a multi-polygon twice across the same line gives it back. */
  lemma ReflectExteriorRingsTwice(polygons: seq<Polygon>, p: Point, q: Point, eps: real)
    requires eps > 0.0
    ensures ReflectExteriorRings(ReflectExteriorRings(polygons, p, q, eps), p, q, eps) == polygons
  {
    var once := ReflectExteriorRings(polygons, p, q, eps);
    var twice := ReflectExteriorRings(once, p, q, eps);
    forall i | 0 <= i < |polygons|
      ensures twice[i] == polygons[i]
    {
      forall j | 0 <= j < |polygons[i].outer|
        ensures twice[i].outer[j] == polygons[i].outer[j]
      {
        ReflectPointIsInvolution(polygons[i].outer[j], p, q, eps);
      }
    }
  }

  /** Takes a copy of the multi-polygon, overwrites the exterior-ring points
      of the CALLER'S multi-polygon with their images and returns the copy:
      the caller gets the reflection in its argument and the original as the
      result. */
  method ReflectAcrossLine(multiPolygon: array<Polygon>, p: Point, q: Point, eps: real) returns (reflected: seq<Polygon>)
    requires eps > 0.0
    modifies multiPolygon
    ensures reflected == old(multiPolygon[..])
    ensures multiPolygon[..] == ReflectExteriorRings(old(multiPolygon[..]), p, q, eps)
  {
    reflected := multiPolygon[..];
    for i := 0 to multiPolygon.Length
      invariant forall k :: 0 <= k < i ==> multiPolygon[k] == reflected[k].(outer := ReflectRing(reflected[k].outer, p, q, eps))
      invariant forall k :: i <= k < multiPolygon.Length ==> multiPolygon[k] == reflected[k]
    {
      var n := |multiPolygon[i].outer|;
      for j := 0 to n
        invariant |multiPolygon[i].outer| == n && multiPolygon[i].inners == reflected[i].inners
        invariant forall t :: 0 <= t < j ==> multiPolygon[i].outer[t] == ReflectPoint(reflected[i].outer[t], p, q, eps)
        invariant forall t :: j <= t < n ==> multiPolygon[i].outer[t] == reflected[i].outer[t]
        invariant forall k :: 0 <= k < i ==> multiPolygon[k] == reflected[k].(outer := ReflectRing(reflected[k].outer, p, q, eps))
        invariant forall k :: i < k < multiPolygon.Length ==> multiPolygon[k] == reflected[k]
      {
        var tmpPoint := multiPolygon[i].outer[j];
        multiPolygon[i] := multiPolygon[i].(outer := multiPolygon[i].outer[j := ReflectPoint(tmpPoint, p, q, eps)]);
      }
      assert multiPolygon[i].outer == ReflectRing(reflected[i].outer, p, q, eps);
    }
  }

  /** What the caller gets back is not the reflection: the unit point
      (1, 0) mirrored in the y axis is (-1, 0), yet the returned copy still
      holds (1, 0). */
  lemma ReturnedCopyIsNotReflected(eps: real)
    requires eps > 0.0
    ensures var polygons := [Polygon([Point(1.0, 0.0)], [])];
      ReflectExteriorRings(polygons, Origin, Point(0.0, 1.0), eps) != polygons
  {
    var polygons := [Polygon([Point(1.0, 0.0)], [])];
    assert ReflectExteriorRings(polygons, Origin, Point(0.0, 1.0), eps)[0].outer[0] == Point(-1.0, 0.0);
  }

  // ---------------------------------------------------------------------
  // The signed branch tests

  /** A descending line falls into the vertical branch: with p = (1, 0) and
      q = (0, 1), `q.x - p.x == -1 < EPS`, so q itself, a point of the line,
      is sent to (2, 1) instead of staying put. */
  lemma SignedTestMisreflectsDescendingLine(eps: real)
    requires eps > 0.0
    ensures ReflectPoint(Point(0.0, 1.0), Point(1.0, 0.0), Point(0.0, 1.0), eps) == Point(2.0, 1.0)
  {
  }

  /** `|a - b| < eps`. */
  predicate Near(a: real, b: real, eps: real) {
    -eps < a - b < eps
  }

  /** The map with the tests on absolute differences, the evident intent of
      the special cases (avoid dividing by a near-zero difference). */
  function ReflectPointAbs(pt: Point, p: Point, q: Point, eps: real): Point
    requires eps > 0.0
  {
    var x1, x2 := p.x, q.x;
    var y1, y2 := p.y, q.y;
    if Near(x2, x1, eps) then MirrorX(pt, x1)
    else if Near(y2, y1, eps) then MirrorY(pt, y1)
    else ReflectThroughPoints(pt, p, q)
  }

  /** With absolute tests every line through two points whose differences
      both reach EPS, rising or falling, is fixed point by point, and so is an
      exactly vertical line and an exactly horizontal one whose points are at
      least EPS apart. */
  lemma ReflectPointAbsFixesLine(pt: Point, p: Point, q: Point, eps: real)
    requires eps > 0.0
    requires (!Near(q.x, p.x, eps) && (!Near(q.y, p.y, eps) || q.y == p.y)) || (q.x == p.x && q.y != p.y)
    requires (pt.y - p.y) * (q.x - p.x) == (pt.x - p.x) * (q.y - p.y)
    ensures ReflectPointAbs(pt, p, q, eps) == pt
  {
    if !Near(q.x, p.x, eps) && !Near(q.y, p.y, eps) {
      ReflectThroughPointsFixesLine(pt, p, q);
    } else if q.x == p.x {
      ZeroFactor(pt.x - p.x, q.y - p.y);
    } else {
      ZeroFactor(pt.y - p.y, q.x - p.x);
    }
  }

  /** A product is zero only when a factor is. */
  lemma ZeroFactor(u: real, v: real)
    requires u * v == 0.0 && v != 0.0
    ensures u == 0.0
  {
  }

  /** The corrected map is an involution as well. */
  lemma ReflectPointAbsIsInvolution(pt: Point, p: Point, q: Point, eps: real)
    requires eps > 0.0
    ensures ReflectPointAbs(ReflectPointAbs(pt, p, q, eps), p, q, eps) == pt
  {
    if !Near(q.x, p.x, eps) && !Near(q.y, p.y, eps) {
      ReflectThroughPointsIsInvolution(pt, p, q);
    }
  }
}
