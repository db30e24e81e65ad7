/**
 * Page-space rectangles and the three hit tests of the store:
 * closed box overlap, the marquee spanned by two points, and strict point containment.
 * Coordinates are integers; the source's are pixel floats.
 */
module Geometry {

  datatype Point = Point(x: int, y: int)

  /** `{left, top, width, height}` as `getElPageRect` and `getSelectionBoxRect` produce it. */
  datatype Rect = Rect(left: int, top: int, width: int, height: int)

  predicate WellSized(r: Rect) {
    r.width >= 0 && r.height >= 0
  }

  /** The point lies in the closed region of `r`, edges included. */
  predicate Covers(r: Rect, p: Point) {
    r.left <= p.x <= r.left + r.width && r.top <= p.y <= r.top + r.height
  }

  /** `v` lies between `a` and `b`, whichever is larger. */
  predicate Between(a: int, v: int, b: int) {
    (a <= v <= b) || (b <= v <= a)
  }

  /** `boxIntersects(a, b)`: the closed boxes overlap; touching edges count. */
  predicate BoxIntersects(a: Rect, b: Rect) {
    a.left <= b.left + b.width &&
    a.left + a.width >= b.left &&
    a.top <= b.top + b.height &&
    a.top + a.height >= b.top
  }

  function Min(a: int, b: int): int { if a <= b then a else b }

  function Abs(a: int): int { if a < 0 then -a else a }

  /** `getSelectionBoxRect(startPoint, endPoint)`: the marquee with these two opposite corners. */
  function SelectionBoxRect(startPoint: Point, endPoint: Point): (r: Rect)
    ensures WellSized(r)
    ensures Covers(r, startPoint) && Covers(r, endPoint)
    ensures forall q :: Covers(r, q) <==>
      Between(startPoint.x, q.x, endPoint.x) && Between(startPoint.y, q.y, endPoint.y)
  {
    Rect(Min(startPoint.x, endPoint.x), Min(startPoint.y, endPoint.y),
         Abs(startPoint.x - endPoint.x), Abs(startPoint.y - endPoint.y))
  }

  /** `intersects(pos, rect)`: the point is strictly inside the rectangle. */
  predicate Intersects(pos: Point, rect: Rect) {
    pos.x > rect.left && pos.x < rect.left + rect.width &&
    pos.y > rect.top && pos.y < rect.top + rect.height
  }

  /** The marquee does not depend on which corner the gesture started from. */
  lemma SelectionBoxSymmetric(p: Point, q: Point)
    ensures SelectionBoxRect(p, q) == SelectionBoxRect(q, p)
  {
  }

  /** Overlap does not depend on the order of its arguments. */
  lemma BoxIntersectsSymmetric(a: Rect, b: Rect)
    ensures BoxIntersects(a, b) == BoxIntersects(b, a)
  {
  }

  /**
   * For well-sized boxes, `BoxIntersects` is exactly "the two closed regions share a
   * point"; in particular boxes that only touch along an edge or at a corner overlap.
   */
  lemma BoxIntersectsIffCommonPoint(a: Rect, b: Rect)
    requires WellSized(a) && WellSized(b)
    ensures BoxIntersects(a, b) <==> exists p :: Covers(a, p) && Covers(b, p)
  {
    if BoxIntersects(a, b) {
      var p := Point(if a.left <= b.left then b.left else a.left, if a.top <= b.top then b.top else a.top);
      assert Covers(a, p) && Covers(b, p);
    }
  }

  /** Strict containment is closed containment minus the four edges. */
  lemma IntersectsExcludesEdges(p: Point, r: Rect)
    ensures Intersects(p, r) <==>
      Covers(r, p) && p.x != r.left && p.x != r.left + r.width && p.y != r.top && p.y != r.top + r.height
  {
  }
}
