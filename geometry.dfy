/** Points of the plane and the grid snapping applied to rotated pivots.
    The source computes in `double`; the model computes over exact reals. */
module Geometry {

  datatype Point = Point(x: real, y: real) {
    /** Component-wise sum, the `Point + Point` used to shift a pivot by an offset. */
    function Plus(d: Point): Point {
      Point(x + d.x, y + d.y)
    }
  }

  const Origin: Point := Point(0.0, 0.0)

  /** `floor(v + 0.5)`: the nearest integer, a half always rounded up. */
  function RoundHalfUp(v: real): (r: int)
    ensures v - 0.5 < r as real <= v + 0.5
  {
    (v + 0.5).Floor
  }

  /** Only one integer lies in the window RoundHalfUp promises, so that
      window pins the result down. */
  lemma RoundHalfUpIsUnique(v: real, k: int)
    requires v - 0.5 < k as real <= v + 0.5
    ensures k == RoundHalfUp(v)
  {
  }

  /** A half goes up, never to the even neighbour. */
  lemma RoundHalfUpTiesGoUp(n: int)
    ensures RoundHalfUp(n as real + 0.5) == n + 1
    ensures RoundHalfUp(n as real - 0.5) == n
  {
  }

  predicate IsGridPoint(p: Point) {
    p.x == p.x.Floor as real && p.y == p.y.Floor as real
  }

  /** The pivot approximation: both coordinates rounded half up. */
  function SnapToGrid(p: Point): (g: Point)
    ensures IsGridPoint(g)
    ensures p.x - 0.5 < g.x <= p.x + 0.5 && p.y - 0.5 < g.y <= p.y + 0.5
  {
    Point(RoundHalfUp(p.x) as real, RoundHalfUp(p.y) as real)
  }
}
