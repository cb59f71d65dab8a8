/** imageops/geometry.go: relative regions and points, and fitting a size
    into a box while keeping its aspect ratio. Go's float64 arithmetic is
    modelled by exact reals. */
module Geometry {
  import opened Wrappers
  import opened Rectangles
  import opened Floats

  /** `round`: the nearest integer, halves rounded up (floor(f + 0.5)). */
  function Round(f: real): int
  {
    (f + 0.5).Floor
  }

  /** `round` gives the integer within one half of f, ties going up. */
  lemma RoundNearest(f: real)
    ensures Round(f) as real - 0.5 <= f < Round(f) as real + 0.5
  {
  }

  lemma RoundMonotonic(a: real, b: real)
    requires a <= b
    ensures Round(a) <= Round(b)
  {
  }

  lemma RoundInteger(n: int)
    ensures Round(n as real) == n
  {
  }

  /** `min` on float64. */
  function MinReal(a: real, b: real): (r: real)
    ensures r <= a && r <= b
    ensures r == a || r == b
  {
    if a < b then a else b
  }

  datatype GeometryError = InvalidCoordinates

  /** A region given as fractions of an image's width and height. */
  datatype RelativeRegion = RelativeRegion(x: real, y: real, w: real, h: real) {

    /** All four fractions lie in [0, 1]. */
    predicate Valid() {
      0.0 <= x <= 1.0 && 0.0 <= y <= 1.0 && 0.0 <= w <= 1.0 && 0.0 <= h <= 1.0
    }

    /** `IsEmpty`: the region has no width or no height. */
    predicate IsEmpty() { w <= 0.0 || h <= 0.0 }

    /** The region's corners in pixels of `rect`, each coordinate rounded
        half up, before any swapping or clipping. */
    function PixelBounds(rect: Rectangle): Rectangle {
      var fw, fh := rect.Dx() as real, rect.Dy() as real;
      Rectangle(Point(Round(x * fw), Round(y * fh)), Point(Round(x * fw + w * fw), Round(y * fh + h * fh)))
    }

    /** `ToRectangle`: the pixel bounds made canonical and clipped to `rect`
        (`image.Rect` and `Canon` both swap corners; the second swap never
        changes anything). */
    function ToRectangle(rect: Rectangle): (r: Rectangle)
      ensures r.Canonical() && r.In(rect)
    {
      PixelBounds(rect).Canon().Canon().Intersect(rect)
    }
  }

  /** A valid region's pixel bounds are already canonical. */
  lemma PixelBoundsCanonical(region: RelativeRegion, rect: Rectangle)
    requires region.Valid() && rect.Canonical()
    ensures region.PixelBounds(rect).Canonical()
  {
    var fw, fh := rect.Dx() as real, rect.Dy() as real;
    var b := region.PixelBounds(rect);
    assert b.min.x <= b.max.x by { RegionCornersOrdered(region.x * fw, region.w, fw); }
    assert b.min.y <= b.max.y by { RegionCornersOrdered(region.y * fh, region.h, fh); }
  }

  /** With a non-negative fraction and extent, rounding keeps the two
      corners in order. */
  lemma RegionCornersOrdered(start: real, fraction: real, extent: real)
    ensures 0.0 <= fraction && extent >= 0.0 ==> Round(start) <= Round(start + fraction * extent)
  {
    if 0.0 <= fraction && extent >= 0.0 {
      assert fraction * extent >= 0.0;
      RoundMonotonic(start, start + fraction * extent);
    }
  }

  /** For a valid region, the pixels of `ToRectangle` are exactly the
      pixels of `rect` that lie within the region's rounded pixel bounds. */
  lemma ToRectanglePixels(region: RelativeRegion, rect: Rectangle, p: Point)
    requires region.Valid() && rect.Canonical()
    ensures region.ToRectangle(rect).Contains(p) <==> rect.Contains(p) && region.PixelBounds(rect).Contains(p)
  {
    PixelBoundsCanonical(region, rect);
    IntersectContains(region.PixelBounds(rect), rect, p);
  }

  /** A region with no width or height covers no pixel of any image. */
  lemma EmptyRegionHasNoPixels(region: RelativeRegion, rect: Rectangle)
    requires region.Valid() && region.IsEmpty()
    ensures region.ToRectangle(rect).Empty()
  {
  }

  /** The region of the crop test: (0.5, 0.5, 0.25, 0.25) of a 640x480
      image is (320,240)-(480,360). */
  lemma ToRectangleExample()
    ensures RelativeRegion(0.5, 0.5, 0.25, 0.25).ToRectangle(Rect(0, 0, 640, 480))
         == Rectangle(Point(320, 240), Point(480, 360))
  {
    assert Round(0.5 * 640.0) == 320;
    assert Round(0.5 * 480.0) == 240;
    assert Round(0.5 * 640.0 + 0.25 * 640.0) == 480;
    assert Round(0.5 * 480.0 + 0.25 * 480.0) == 360;
  }

  /** `NewRelativeRegion`: fails unless all four fractions lie in [0, 1].
      The test is written so that NaN fails it too. */
  function NewRelativeRegion(x: Float, y: Float, w: Float, h: Float): (r: Result<RelativeRegion, GeometryError>)
    ensures r.Success? <==> x.Finite? && y.Finite? && w.Finite? && h.Finite?
                            && RelativeRegion(x.value, y.value, w.value, h.value).Valid()
    ensures r.Success? ==> r.value == RelativeRegion(x.value, y.value, w.value, h.value)
    ensures r.Failure? ==> r.error == InvalidCoordinates
  {
    if !(AtLeast(x, 0.0) && AtMost(x, 1.0) && AtLeast(y, 0.0) && AtMost(y, 1.0)
         && AtLeast(w, 0.0) && AtMost(w, 1.0) && AtLeast(h, 0.0) && AtMost(h, 1.0)) then
      Failure(InvalidCoordinates)
    else Success(RelativeRegion(x.value, y.value, w.value, h.value))
  }

  /** A point given as fractions of an image's width and height. */
  datatype RelativePoint = RelativePoint(x: real, y: real) {

    predicate Valid() { 0.0 <= x <= 1.0 && 0.0 <= y <= 1.0 }

    /** `ToPoint`: the point in pixels, each coordinate rounded half up. */
    function ToPoint(rect: Rectangle): (r: Point)
      ensures -0.5 < r.x as real - x * rect.Dx() as real <= 0.5
      ensures -0.5 < r.y as real - y * rect.Dy() as real <= 0.5
      ensures Valid() && rect.Canonical() ==> 0 <= r.x <= rect.Dx() && 0 <= r.y <= rect.Dy()
    {
      var fw, fh := rect.Dx() as real, rect.Dy() as real;
      ScaledFractionInRange(x, rect.Dx());
      ScaledFractionInRange(y, rect.Dy());
      Point(Round(x * fw), Round(y * fh))
    }
  }

  /** A fraction in [0, 1] of a non-negative extent rounds into [0, extent]. */
  lemma ScaledFractionInRange(fraction: real, extent: int)
    ensures 0.0 <= fraction <= 1.0 && extent >= 0 ==> 0 <= Round(fraction * extent as real) <= extent
  {
    if 0.0 <= fraction <= 1.0 && extent >= 0 {
      var e := extent as real;
      assert 0.0 <= fraction * e <= e;
      RoundMonotonic(0.0, fraction * e);
      RoundMonotonic(fraction * e, e);
      RoundInteger(0);
      RoundInteger(extent);
    }
  }

  /** `NewRelativePoint`: fails unless both fractions lie in [0, 1]. */
  function NewRelativePoint(x: real, y: real): (r: Result<RelativePoint, GeometryError>)
    ensures r.Success? <==> RelativePoint(x, y).Valid()
    ensures r.Success? ==> r.value == RelativePoint(x, y)
  {
    if x < 0.0 || x > 1.0 || y < 0.0 || y > 1.0 then Failure(InvalidCoordinates)
    else Success(RelativePoint(x, y))
  }

  /** `FitDimensions`: scale `size` to the target width and/or height,
      keeping its aspect ratio. No target: `size` unchanged. */
  function FitDimensions(size: Point, w: Option<int>, h: Option<int>): (r: Point)
    ensures w.None? && h.None? ==> r == size
    ensures (w.Some? || h.Some?) ==> r.x >= 0 && r.y >= 0
    ensures (w.Some? || h.Some?) && (size.x <= 0 || size.y <= 0 || (w.Some? && w.value <= 0) || (h.Some? && h.value <= 0))
            ==> r == Point(0, 0)
  {
    if w.None? && h.None? then size
    else if size.y <= 0 || size.x <= 0 || (w.Some? && w.value <= 0) || (h.Some? && h.value <= 0) then Point(0, 0)
    else
      var sw, sh := size.x as real, size.y as real;
      if w.Some? && h.Some? then
        var scale := BoxScale(size, w.value, h.value);
        assert sw * scale >= 0.0 && sh * scale >= 0.0;
        Scaled(size, scale)
      else
        var aspect := sw / sh;
        if aspect <= 0.0 then Point(0, 0)
        else if w.Some? then
          assert w.value as real / aspect > 0.0;
          Point(w.value, Round(w.value as real / aspect))
        else
          assert h.value as real * aspect > 0.0;
          Point(Round(h.value as real * aspect), h.value)
  }

  /** Scaling s by at most t / s gives at most t. */
  lemma ScaleBelow(s: real, t: real, k: real)
    requires s > 0.0 && k <= t / s
    ensures s * k <= t
  {
    assert s * k <= s * (t / s);
  }

  /** Two nearest integers x, y of proportional reals a, b (a : b = w : h)
      keep the cross products within half the sum of the sides. */
  lemma RoundedCross(x: real, y: real, w: real, h: real, a: real, b: real)
    requires w > 0.0 && h > 0.0
    requires -0.5 < x - a <= 0.5 && -0.5 < y - b <= 0.5
    requires a * h == b * w
    ensures CrossWithin(x, y, w, h)
  {
    var ex, ey := x - a, y - b;
    assert x * h - y * w == ex * h - ey * w by {
      SplitProduct(x, ex, a, h);
      SplitProduct(y, ey, b, w);
    }
    HalfErrorScaled(ex, h);
    HalfErrorScaled(ey, w);
    HalvesDifference(ex * h, ey * w, h, w);
  }

  lemma SplitProduct(x: real, e: real, a: real, s: real)
    requires x == e + a
    ensures x * s == e * s + a * s
  {
  }

  /** The difference of two values bounded by half of h and half of w. */
  lemma HalvesDifference(p: real, q: real, h: real, w: real)
    requires -0.5 * h <= p <= 0.5 * h && -0.5 * w <= q <= 0.5 * w
    ensures -(w + h) <= 2.0 * (p - q) <= w + h
  {
  }

  /** An error in (-1/2, 1/2], scaled by a positive s. */
  lemma HalfErrorScaled(e: real, s: real)
    requires -0.5 < e <= 0.5 && s > 0.0
    ensures -0.5 * s < e * s <= 0.5 * s
  {
    assert (e + 0.5) * s > 0.0;
    assert (0.5 - e) * s >= 0.0;
  }

  /** The scale of a fit into a (tw, th) box: the smaller of the two ratios. */
  function BoxScale(size: Point, tw: int, th: int): (k: real)
    requires size.x > 0 && size.y > 0
    ensures k == tw as real / size.x as real || k == th as real / size.y as real
    ensures k <= tw as real / size.x as real && k <= th as real / size.y as real
  {
    MinReal(tw as real / size.x as real, th as real / size.y as real)
  }

  /** Both sides of `size` scaled by k, each rounded half up. */
  function Scaled(size: Point, k: real): Point {
    Point(Round(size.x as real * k), Round(size.y as real * k))
  }

  /** A box at least as large as the size on both axes scales it by at
      least 1. */
  lemma BoxScaleAtLeastOne(size: Point, tw: int, th: int)
    requires size.x > 0 && size.y > 0 && tw >= size.x && th >= size.y
    ensures BoxScale(size, tw, th) >= 1.0
  {
    assert tw as real / size.x as real >= 1.0;
    assert th as real / size.y as real >= 1.0;
  }

  /** Scaling by at least 1 never shrinks a side. */
  lemma ScaledNotSmaller(size: Point, k: real)
    requires size.x >= 0 && size.y >= 0 && k >= 1.0
    ensures Scaled(size, k).x >= size.x && Scaled(size, k).y >= size.y
  {
    var sw, sh := size.x as real, size.y as real;
    assert sw * k >= sw && sh * k >= sh;
    RoundMonotonic(sw, sw * k);
    RoundMonotonic(sh, sh * k);
    RoundInteger(size.x);
    RoundInteger(size.y);
  }

  /** `r` fits inside the (tw, th) box and reaches it on at least one axis. */
  ghost predicate FitsBox(r: Point, tw: int, th: int) {
    0 <= r.x <= tw && 0 <= r.y <= th && (r.x == tw || r.y == th)
  }

  /** Scaling by the smaller ratio and rounding: the box is not exceeded
      and one side reaches it. */
  lemma ScaledSidesInBox(size: Point, tw: int, th: int)
    requires size.x > 0 && size.y > 0 && tw > 0 && th > 0
    ensures FitsBox(Scaled(size, BoxScale(size, tw, th)), tw, th)
  {
    var k := BoxScale(size, tw, th);
    ScaledSideWithin(size.x, tw, k);
    ScaledSideWithin(size.y, th, k);
  }

  /** One side s scaled by a positive k of at most t / s rounds into
      [0, t], and onto t when k is exactly t / s. */
  lemma ScaledSideWithin(s: int, t: int, k: real)
    requires s > 0 && t > 0 && 0.0 < k <= t as real / s as real
    ensures 0 <= Round(s as real * k) <= t
    ensures k == t as real / s as real ==> Round(s as real * k) == t
  {
    ScaleBelow(s as real, t as real, k);
    RoundMonotonic(0.0, s as real * k);
    RoundMonotonic(s as real * k, t as real);
    RoundInteger(0);
    RoundInteger(t);
    if k == t as real / s as real {
      assert s as real * k == t as real;
    }
  }

  /** Both targets present: the result fits inside the target box and
      reaches it on at least one axis. */
  lemma FitIntoBox(size: Point, tw: int, th: int)
    requires size.x > 0 && size.y > 0 && tw > 0 && th > 0
    ensures FitsBox(FitDimensions(size, Some(tw), Some(th)), tw, th)
  {
    ScaledSidesInBox(size, tw, th);
  }

  /** Rounding both sides of a scaled size keeps the cross products within
      half the sum of the sides. */
  lemma ScaledSidesKeepAspect(size: Point, k: real)
    requires size.x > 0 && size.y > 0
    ensures KeepsAspect(size, Scaled(size, k))
  {
    RoundedSidesCross(size, k);
    var r := Scaled(size, k);
    assert r.x == Round(size.x as real * k) && r.y == Round(size.y as real * k);
  }

  lemma RoundedSidesCross(size: Point, k: real)
    requires size.x > 0 && size.y > 0
    ensures CrossWithin(Round(size.x as real * k) as real, Round(size.y as real * k) as real, size.x as real, size.y as real)
  {
    RoundNearest(size.x as real * k);
    RoundNearest(size.y as real * k);
    ProportionalScaled(size.x as real, size.y as real, k);
    RoundedCross(Round(size.x as real * k) as real, Round(size.y as real * k) as real,
                 size.x as real, size.y as real, size.x as real * k, size.y as real * k);
  }

  lemma ProportionalScaled(w: real, h: real, k: real)
    ensures w * k * h == h * k * w
  {
  }

  /** `r` has the aspect ratio of `size` up to rounding: the cross
      products differ by at most half the sum of the sides of `size`. */
  ghost predicate KeepsAspect(size: Point, r: Point) {
    CrossWithin(r.x as real, r.y as real, size.x as real, size.y as real)
  }

  /** The cross products x * h and y * w differ by at most (w + h) / 2. */
  ghost predicate CrossWithin(x: real, y: real, w: real, h: real) {
    -(w + h) <= 2.0 * (x * h - y * w) <= w + h
  }

  /** Both targets present: the aspect ratio is kept up to rounding (the
      cross products differ by at most half the sum of the source sides,
      at most one pixel of distortion). */
  lemma FitKeepsAspect(size: Point, tw: int, th: int)
    requires size.x > 0 && size.y > 0 && tw > 0 && th > 0
    ensures KeepsAspect(size, FitDimensions(size, Some(tw), Some(th)))
  {
    ScaledSidesKeepAspect(size, BoxScale(size, tw, th));
  }

  /** Dividing by a ratio multiplies by its inverse. */
  lemma DivideByRatio(t: real, a: real, b: real)
    requires a > 0.0 && b > 0.0
    ensures t / (a / b) == t * b / a
  {
  }

  /** Multiplying by a ratio. */
  lemma MultiplyByRatio(t: real, a: real, b: real)
    requires b > 0.0
    ensures t * (a / b) == t * a / b
  {
  }

  /** Width only: the width is the target and the height is the nearest
      integer to tw * sh / sw, halves rounded up. */
  lemma FitToWidth(size: Point, tw: int)
    requires size.x > 0 && size.y > 0 && tw > 0
    ensures var r := FitDimensions(size, Some(tw), None);
      && r.x == tw
      && -0.5 < r.y as real - tw as real * size.y as real / size.x as real <= 0.5
  {
    var f := tw as real / (size.x as real / size.y as real);
    assert FitDimensions(size, Some(tw), None) == Point(tw, Round(f));
    assert f == tw as real * size.y as real / size.x as real by { DivideByRatio(tw as real, size.x as real, size.y as real); }
    RoundNearest(f);
  }

  /** Height only: the height is the target and the width is the nearest
      integer to th * sw / sh, halves rounded up. */
  lemma FitToHeight(size: Point, th: int)
    requires size.x > 0 && size.y > 0 && th > 0
    ensures var r := FitDimensions(size, None, Some(th));
      && r.y == th
      && -0.5 < r.x as real - th as real * size.x as real / size.y as real <= 0.5
  {
    var f := th as real * (size.x as real / size.y as real);
    assert FitDimensions(size, None, Some(th)) == Point(Round(f), th);
    assert f == th as real * size.x as real / size.y as real by { MultiplyByRatio(th as real, size.x as real, size.y as real); }
    RoundNearest(f);
  }

  /** The cases of geometry_test.go: a small input is enlarged to the box,
      and a height-only fit of 400x300 to 200 gives 267x200. */
  lemma FitExamples()
    ensures FitDimensions(Point(100, 50), Some(200), Some(200)) == Point(200, 100)
    ensures FitDimensions(Point(400, 300), Some(200), Some(200)) == Point(200, 150)
    ensures FitDimensions(Point(400, 300), None, Some(200)) == Point(267, 200)
    ensures FitDimensions(Point(300, 400), Some(200), None) == Point(200, 267)
  {
    assert MinReal(200.0 / 100.0, 200.0 / 50.0) == 2.0;
    assert Round(100.0 * 2.0) == 200 && Round(50.0 * 2.0) == 100;
    assert MinReal(200.0 / 400.0, 200.0 / 300.0) == 0.5;
    assert Round(400.0 * 0.5) == 200 && Round(300.0 * 0.5) == 150;
    assert 200.0 * (400.0 / 300.0) == 800.0 / 3.0;
    assert Round(800.0 / 3.0) == 267;
    assert 200.0 / (300.0 / 400.0) == 800.0 / 3.0;
  }
}
