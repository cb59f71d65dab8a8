/** The part of Go's `image` package the core relies on: points, rectangles
    and the operations `Rect`, `Canon`, `Dx`, `Dy`, `Empty`, `Intersect`,
    `Size` and `In`, as the package documents them. */
module Rectangles {

  datatype Point = Point(x: int, y: int)

  /** A rectangle holds every point p with Min.x <= p.x < Max.x and
      Min.y <= p.y < Max.y. */
  datatype Rectangle = Rectangle(min: Point, max: Point) {

    function Dx(): int { max.x - min.x }

    function Dy(): int { max.y - min.y }

    function Size(): Point { Point(Dx(), Dy()) }

    /** A rectangle is empty when it holds no point. */
    predicate Empty() { min.x >= max.x || min.y >= max.y }

    /** Min <= Max on both axes. */
    predicate Canonical() { min.x <= max.x && min.y <= max.y }

    /** Whether the point lies inside the rectangle. */
    predicate Contains(p: Point) {
      min.x <= p.x < max.x && min.y <= p.y < max.y
    }

    /** `Canon`: the same rectangle with the corners swapped where needed. */
    function Canon(): (r: Rectangle)
      ensures r.Canonical()
      ensures multiset{r.min.x, r.max.x} == multiset{min.x, max.x}
      ensures multiset{r.min.y, r.max.y} == multiset{min.y, max.y}
      ensures Canonical() ==> r == this
    {
      Rectangle(Point(if min.x <= max.x then min.x else max.x, if min.y <= max.y then min.y else max.y),
                Point(if min.x <= max.x then max.x else min.x, if min.y <= max.y then max.y else min.y))
    }

    /** `In`: every point of this rectangle is a point of s. */
    predicate In(s: Rectangle) {
      Empty() || (s.min.x <= min.x && max.x <= s.max.x && s.min.y <= min.y && max.y <= s.max.y)
    }

    /** `Intersect`: the largest rectangle inside both, or the zero
        rectangle when they do not overlap. */
    function Intersect(s: Rectangle): (r: Rectangle)
      ensures r.Canonical() && r.In(this) && r.In(s)
      ensures r.Empty() ==> r == ZR
    {
      var c := Rectangle(Point(Max(min.x, s.min.x), Max(min.y, s.min.y)),
                         Point(Min(max.x, s.max.x), Min(max.y, s.max.y)));
      if c.Empty() then ZR else c
    }
  }

  /** The points of an intersection are the points common to both. */
  lemma IntersectContains(a: Rectangle, b: Rectangle, p: Point)
    ensures a.Intersect(b).Contains(p) <==> a.Contains(p) && b.Contains(p)
  {
  }

  /** A non-empty rectangle inside s is its own intersection with s. */
  lemma IntersectInside(a: Rectangle, s: Rectangle)
    requires !a.Empty() && a.In(s)
    ensures a.Intersect(s) == a
  {
    var c := Rectangle(Point(Max(a.min.x, s.min.x), Max(a.min.y, s.min.y)),
                       Point(Min(a.max.x, s.max.x), Min(a.max.y, s.max.y)));
    assert c == a;
  }

  /** The zero rectangle `image.ZR`. */
  const ZR := Rectangle(Point(0, 0), Point(0, 0))

  function Max(a: int, b: int): int { if a < b then b else a }

  function Min(a: int, b: int): int { if a < b then a else b }

  /** `image.Rect`: the rectangle with corners (x0, y0) and (x1, y1),
      corners swapped so that it is canonical. */
  function Rect(x0: int, y0: int, x1: int, y1: int): (r: Rectangle)
    ensures r.Canonical()
    ensures x0 <= x1 && y0 <= y1 ==> r == Rectangle(Point(x0, y0), Point(x1, y1))
  {
    Rectangle(Point(x0, y0), Point(x1, y1)).Canon()
  }
}
