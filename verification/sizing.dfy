/** iiif/request.go, `Size.CalculateDimensions` and `checkDimensions`: the
    output size of a request for an input image, capped by the largest
    size the server allows. */
module Sizing {
  import opened Wrappers
  import opened Rectangles
  import opened Geometry
  import opened Floats
  import opened Iiif

  /** What converting a NaN or an infinity to `int` yields. Go leaves it
      to the implementation: on amd64 it is the smallest int64, on arm64
      NaN gives 0. Both are not positive, which is all the model uses. */
  const NonFiniteToInt: int := -0x8000_0000_0000_0000

  /** `round` of a float64 value, `int(math.Floor(f + .5))`. */
  function RoundFloat(f: Float): (n: int)
    ensures f.Finite? ==> -0.5 <= f.value - n as real < 0.5
    ensures !f.Finite? ==> n <= 0
  {
    match f
    case Finite(v) =>
      RoundNearest(v);
      Round(v)
    case _ => NonFiniteToInt
  }

  /** `checkDimensions`: a size beyond the cap on either axis is an error
      naming both sizes; any other size passes unchanged. */
  function CheckDimensions(maxSize: Point, size: Point): (r: Result<Point, Error>)
    ensures r.Success? <==> size.x <= maxSize.x && size.y <= maxSize.y
    ensures r.Success? ==> r.value == size
    ensures r.Failure? ==> r.error == DimensionsError(size, maxSize)
  {
    if size.x > maxSize.x || size.y > maxSize.y then Failure(DimensionsError(size, maxSize))
    else Success(size)
  }

  /** The size each kind asks for, before the cap is checked. */
  function RequestedDimensions(size: Size, input: Point, maxSize: Point): Point
  {
    match size.kind
    case SizeFull => input
    case SizeMax =>
      if input.x > maxSize.x || input.y > maxSize.y then FitDimensions(input, Some(maxSize.x), Some(maxSize.y))
      else input
    case SizeAbsolute(w, h, bestFit) =>
      var result := if bestFit || w.None? || h.None? then FitDimensions(input, w, h) else Point(w.value, h.value);
      if size.doNotEnlarge && (result.x > input.x || result.y > input.y) then input else result
    case SizeRelative(f) =>
      var w := RoundFloat(Times(input.x as real, f));
      var h := RoundFloat(Times(input.y as real, f));
      FitDimensions(input, Some(w), Some(h))
  }

  /** `CalculateDimensions`: the requested size, then the cap. A result is
      never beyond the cap, and the only error is the cap's. */
  function CalculateDimensions(size: Size, input: Point, maxSize: Point): (r: Result<Point, Error>)
    ensures r.Success? ==> r.value.x <= maxSize.x && r.value.y <= maxSize.y
    ensures r.Failure? ==> r.error.DimensionsError? && r.error.maxSize == maxSize
  {
    CheckDimensions(maxSize, RequestedDimensions(size, input, maxSize))
  }

  /** Full size: the input itself, if it is within the cap. */
  lemma FullDimensions(input: Point, maxSize: Point, doNotEnlarge: bool)
    ensures var r := CalculateDimensions(Size(SizeFull, doNotEnlarge), input, maxSize);
      && (r.Success? <==> input.x <= maxSize.x && input.y <= maxSize.y)
      && (r.Success? ==> r.value == input)
  {
  }

  /** Max size of a non-empty image under a positive cap always succeeds:
      an input within the cap is kept, a larger one is scaled into the cap
      box, touching it on one axis and keeping its aspect ratio. */
  lemma MaxDimensions(input: Point, maxSize: Point, doNotEnlarge: bool)
    requires input.x > 0 && input.y > 0 && maxSize.x > 0 && maxSize.y > 0
    ensures var r := CalculateDimensions(Size(SizeMax, doNotEnlarge), input, maxSize);
      && r.Success?
      && (input.x <= maxSize.x && input.y <= maxSize.y ==> r.value == input)
      && (input.x > maxSize.x || input.y > maxSize.y ==>
            FitsBox(r.value, maxSize.x, maxSize.y) && KeepsAspect(input, r.value))
  {
    if input.x > maxSize.x || input.y > maxSize.y {
      FitIntoBox(input, maxSize.x, maxSize.y);
      FitKeepsAspect(input, maxSize.x, maxSize.y);
    }
  }

  /** Both sides given without best fit: exactly that size, whatever the
      input's aspect ratio. */
  lemma AbsoluteExact(input: Point, maxSize: Point, w: int, h: int)
    ensures CalculateDimensions(Size(SizeAbsolute(Some(w), Some(h), false), false), input, maxSize)
         == CheckDimensions(maxSize, Point(w, h))
  {
  }

  /** Best fit of a non-empty image into a positive box: inside the box,
      touching it on one axis, with the input's aspect ratio. */
  lemma AbsoluteBestFit(input: Point, maxSize: Point, w: int, h: int)
    requires input.x > 0 && input.y > 0 && w > 0 && h > 0
    ensures var r := CalculateDimensions(Size(SizeAbsolute(Some(w), Some(h), true), false), input, maxSize);
      r.Success? ==> FitsBox(r.value, w, h) && KeepsAspect(input, r.value)
  {
    FitIntoBox(input, w, h);
    FitKeepsAspect(input, w, h);
  }

  /** Do-not-enlarge: an absolute size is never larger than the input on
      either axis; a size that would be is replaced by the input. */
  lemma DoNotEnlarge(input: Point, maxSize: Point, w: Option<int>, h: Option<int>, bestFit: bool)
    ensures var r := CalculateDimensions(Size(SizeAbsolute(w, h, bestFit), true), input, maxSize);
      r.Success? ==> r.value.x <= input.x && r.value.y <= input.y
    ensures var asked := if bestFit || w.None? || h.None? then FitDimensions(input, w, h) else Point(w.value, h.value);
      CalculateDimensions(Size(SizeAbsolute(w, h, bestFit), true), input, maxSize)
        == CheckDimensions(maxSize, if asked.x > input.x || asked.y > input.y then input else asked)
  {
  }

  /** Do-not-enlarge with only a width, for a non-empty image: a width
      beyond the input's gives the input, any other positive width the
      input scaled to it. */
  lemma DoNotEnlargeWidthOnly(input: Point, maxSize: Point, w: int, bestFit: bool)
    requires input.x > 0 && input.y > 0 && w > 0
    ensures CalculateDimensions(Size(SizeAbsolute(Some(w), None, bestFit), true), input, maxSize)
         == CheckDimensions(maxSize, if w > input.x then input else FitDimensions(input, Some(w), None))
  {
    var fitted := FitDimensions(input, Some(w), None);
    var f := w as real / (input.x as real / input.y as real);
    assert fitted == Point(w, Round(f));
    if w <= input.x {
      assert fitted.y <= input.y by {
        DivideByRatio(w as real, input.x as real, input.y as real);
        var x, y := input.x as real, input.y as real;
        assert f <= y by {
          assert f == w as real * y / x;
          assert w as real * y <= x * y;
          assert x * y / x == y;
        }
        RoundMonotonic(f, input.y as real);
        RoundInteger(input.y);
      }
    }
  }

  /** Do-not-enlarge with only a height, for a non-empty image: a height
      beyond the input's gives the input, any other positive height the
      input scaled to it. */
  lemma DoNotEnlargeHeightOnly(input: Point, maxSize: Point, h: int, bestFit: bool)
    requires input.x > 0 && input.y > 0 && h > 0
    ensures CalculateDimensions(Size(SizeAbsolute(None, Some(h), bestFit), true), input, maxSize)
         == CheckDimensions(maxSize, if h > input.y then input else FitDimensions(input, None, Some(h)))
  {
    var fitted := FitDimensions(input, None, Some(h));
    var f := h as real * (input.x as real / input.y as real);
    assert fitted == Point(Round(f), h);
    if h <= input.y {
      assert fitted.x <= input.x by {
        assert f <= input.x as real by {
          assert f == h as real * input.x as real / input.y as real;
          assert h as real * input.x as real <= input.y as real * input.x as real;
        }
        RoundMonotonic(f, input.x as real);
        RoundInteger(input.x);
      }
    }
  }

  /** A width of 2000 with do-not-enlarge on a 1000x500 image gives the
      image's own size. */
  lemma DoNotEnlargeExample()
    ensures CalculateDimensions(Size(SizeAbsolute(Some(2000), None, false), true), Point(1000, 500), Point(4000, 4000))
         == Success(Point(1000, 500))
  {
    DoNotEnlargeWidthOnly(Point(1000, 500), Point(4000, 4000), 2000, false);
  }

  /** Do-not-enlarge with both sides given exactly: that size when it is
      within the input on both axes, the input itself otherwise. */
  lemma DoNotEnlargeExact(input: Point, maxSize: Point, w: int, h: int)
    ensures CalculateDimensions(Size(SizeAbsolute(Some(w), Some(h), false), true), input, maxSize)
         == CheckDimensions(maxSize, if w <= input.x && h <= input.y then Point(w, h) else input)
  {
  }

  /** Do-not-enlarge with best fit into a box no larger than a non-empty
      input: the fitted size, which never needs replacing. */
  lemma DoNotEnlargeSmallerBox(input: Point, maxSize: Point, w: int, h: int)
    requires input.x > 0 && input.y > 0 && 0 < w <= input.x && 0 < h <= input.y
    ensures CalculateDimensions(Size(SizeAbsolute(Some(w), Some(h), true), true), input, maxSize)
         == CheckDimensions(maxSize, FitDimensions(input, Some(w), Some(h)))
  {
    FitIntoBox(input, w, h);
  }

  /** Do-not-enlarge with best fit into a box at least as large as the
      input: the input itself. */
  lemma DoNotEnlargeLargerBox(input: Point, maxSize: Point, w: int, h: int)
    requires input.x > 0 && input.y > 0 && w >= input.x && h >= input.y
    ensures CalculateDimensions(Size(SizeAbsolute(Some(w), Some(h), true), true), input, maxSize)
         == CheckDimensions(maxSize, input)
  {
    var fitted := FitDimensions(input, Some(w), Some(h));
    assert fitted.x >= input.x && fitted.y >= input.y by {
      var k := BoxScale(input, w, h);
      BoxScaleAtLeastOne(input, w, h);
      ScaledNotSmaller(input, k);
      assert fitted == Scaled(input, k);
    }
  }

  /** Only a width: the input scaled to that width, whatever best fit
      says; for a non-empty image and a positive width the height follows
      the aspect ratio, rounded half up. */
  lemma AbsoluteWidthOnly(input: Point, maxSize: Point, w: int, bestFit: bool)
    ensures var r := CalculateDimensions(Size(SizeAbsolute(Some(w), None, bestFit), false), input, maxSize);
      && r == CheckDimensions(maxSize, FitDimensions(input, Some(w), None))
      && (input.x > 0 && input.y > 0 && w > 0 && r.Success? ==>
            r.value.x == w && -0.5 < r.value.y as real - w as real * input.y as real / input.x as real <= 0.5)
  {
    if input.x > 0 && input.y > 0 && w > 0 {
      FitToWidth(input, w);
    }
  }

  /** Only a height: the input scaled to that height, the width following
      the aspect ratio. */
  lemma AbsoluteHeightOnly(input: Point, maxSize: Point, h: int, bestFit: bool)
    ensures var r := CalculateDimensions(Size(SizeAbsolute(None, Some(h), bestFit), false), input, maxSize);
      && r == CheckDimensions(maxSize, FitDimensions(input, None, Some(h)))
      && (input.x > 0 && input.y > 0 && h > 0 && r.Success? ==>
            r.value.y == h && -0.5 < r.value.x as real - h as real * input.x as real / input.y as real <= 0.5)
  {
    if input.x > 0 && input.y > 0 && h > 0 {
      FitToHeight(input, h);
    }
  }

  /** A fraction of a non-empty image: the input scaled into the box of
      its sides times the fraction, each rounded half up, keeping its
      aspect ratio. */
  lemma RelativeDimensions(input: Point, maxSize: Point, f: real, doNotEnlarge: bool)
    requires input.x > 0 && input.y > 0
    requires Scaled(input, f).x > 0 && Scaled(input, f).y > 0
    ensures var r := CalculateDimensions(Size(SizeRelative(Finite(f)), doNotEnlarge), input, maxSize);
      r.Success? ==>
        && FitsBox(r.value, Scaled(input, f).x, Scaled(input, f).y)
        && KeepsAspect(input, r.value)
  {
    var w, h := Scaled(input, f).x, Scaled(input, f).y;
    assert RoundFloat(Times(input.x as real, Finite(f))) == w;
    assert RoundFloat(Times(input.y as real, Finite(f))) == h;
    var fitted := FitDimensions(input, Some(w), Some(h));
    assert RequestedDimensions(Size(SizeRelative(Finite(f)), doNotEnlarge), input, maxSize) == fitted;
    assert FitsBox(fitted, w, h) && KeepsAspect(input, fitted) by {
      FitIntoBox(input, w, h);
      FitKeepsAspect(input, w, h);
    }
  }

  /** A NaN fraction (which "pct:NaN" parses to) asks for no pixels at
      all: the result is 0x0, subject only to the cap. */
  lemma RelativeNaN(input: Point, maxSize: Point, doNotEnlarge: bool)
    ensures CalculateDimensions(Size(SizeRelative(NaN), doNotEnlarge), input, maxSize)
         == CheckDimensions(maxSize, Point(0, 0))
  {
  }

  /** Half of a 640x480 image is 320x240; max size of a 4000x3000 image
      under a 2000x2000 cap is 2000x1500; and an exact 3000x3000 under
      that cap is refused. */
  lemma DimensionsExamples()
    ensures CalculateDimensions(Size(SizeRelative(Finite(0.5)), false), Point(640, 480), Point(2000, 2000))
         == Success(Point(320, 240))
    ensures CalculateDimensions(Size(SizeMax, false), Point(4000, 3000), Point(2000, 2000))
         == Success(Point(2000, 1500))
    ensures CalculateDimensions(Size(SizeAbsolute(Some(3000), Some(3000), false), false), Point(640, 480), Point(2000, 2000))
         == Failure(DimensionsError(Point(3000, 3000), Point(2000, 2000)))
  {
    assert Scaled(Point(640, 480), 0.5) == Point(320, 240) by {
      assert Round(640.0 * 0.5) == 320 && Round(480.0 * 0.5) == 240;
    }
    assert MinReal(320.0 / 640.0, 240.0 / 480.0) == 0.5;
    assert FitDimensions(Point(640, 480), Some(320), Some(240)) == Point(320, 240);
    assert MinReal(2000.0 / 4000.0, 2000.0 / 3000.0) == 0.5;
    assert Round(4000.0 * 0.5) == 2000 && Round(3000.0 * 0.5) == 1500;
    assert FitDimensions(Point(4000, 3000), Some(2000), Some(2000)) == Point(2000, 1500);
  }
}
