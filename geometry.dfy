/**
 * Points and rectangles with the meaning of Go's image.Point and
 * image.Rectangle: a rectangle holds the points with
 * Min.X <= x < Max.X and Min.Y <= y < Max.Y.
 */
module Geometry {
  datatype Point = Point(x: int, y: int)

  const Origin: Point := Point(0, 0)

  /** image.Pt */
  function Pt(x: int, y: int): Point { Point(x, y) }

  datatype Rectangle = Rectangle(min: Point, max: Point) {
    function Dx(): int { max.x - min.x }
    function Dy(): int { max.y - min.y }

    /** What image.Rect always produces: Min is the top-left corner. */
    predicate Canonical() { min.x <= max.x && min.y <= max.y }

    predicate Empty() { min.x >= max.x || min.y >= max.y }

    /** Point.In(Rectangle) */
    predicate Contains(p: Point) { min.x <= p.x < max.x && min.y <= p.y < max.y }

    /** Rectangle.Overlaps: both non-empty and with a common point */
    predicate Overlaps(s: Rectangle) {
      !Empty() && !s.Empty() &&
      min.x < s.max.x && s.min.x < max.x &&
      min.y < s.max.y && s.min.y < max.y
    }
  }

  function Min(a: int, b: int): int { if a <= b then a else b }
  function Max(a: int, b: int): int { if a <= b then b else a }

  /** image.Rect: the rectangle with corners (x0, y0) and (x1, y1), swapped into canonical order */
  function Rect(x0: int, y0: int, x1: int, y1: int): (r: Rectangle)
    ensures r.Canonical()
    ensures r.Dx() == Max(x0, x1) - Min(x0, x1) && r.Dy() == Max(y0, y1) - Min(y0, y1)
    ensures x0 <= x1 && y0 <= y1 ==> r == Rectangle(Point(x0, y0), Point(x1, y1))
  {
    Rectangle(Point(Min(x0, x1), Min(y0, y1)), Point(Max(x0, x1), Max(y0, y1)))
  }

  /** Two rectangles with a common point overlap. */
  lemma CommonPointOverlaps(r: Rectangle, s: Rectangle, p: Point)
    requires r.Contains(p) && s.Contains(p)
    ensures r.Overlaps(s)
  {
  }
}
