/** imageops/trim.go: trimming a uniform border off an image. The image is
    a two-dimensional array of colours indexed [x, y] with its origin at
    (0, 0); the crop it ends with is the `cutter` configuration of the
    crop module. */
module Trim {
  import opened Rectangles
  import opened Crop

  /** A 16-bit colour channel, as `color.Color.RGBA` returns it. */
  type Channel = x: int | 0 <= x <= 65535

  /** The four channels `RGBA` returns. */
  datatype Color = Color(r: Channel, g: Channel, b: Channel, alpha: Channel)

  /** 3 * 65535^2: the largest squared distance of two colours. */
  const MaxSquaredDistance: int := 3 * 65535 * 65535

  /** The squared Euclidean distance of the red, green and blue channels;
      alpha takes no part. */
  function SquaredDistance(c1: Color, c2: Color): (d: int)
    ensures 0 <= d <= MaxSquaredDistance
    ensures d == 0 <==> c1.r == c2.r && c1.g == c2.g && c1.b == c2.b
  {
    ChannelSquareBound(c2.r - c1.r);
    ChannelSquareBound(c2.g - c1.g);
    ChannelSquareBound(c2.b - c1.b);
    (c2.r - c1.r) * (c2.r - c1.r) + (c2.g - c1.g) * (c2.g - c1.g) + (c2.b - c1.b) * (c2.b - c1.b)
  }

  /** The square of a channel difference is at most 65535^2, and zero only
      for a zero difference. */
  lemma ChannelSquareBound(d: int)
    ensures -65535 <= d <= 65535 ==> 0 <= d * d <= 65535 * 65535
    ensures d * d == 0 <==> d == 0
  {
    var n := if d >= 0 then d else -d;
    SquareOfNegation(d);
    assert d * d == n * n;
    if n <= 65535 {
      MultiplyBelow(n, n, 65535);
      MultiplyBelow(65535, n, 65535);
    }
    if n > 0 {
      MultiplyBelow(n, 1, n);
    }
  }

  lemma MultiplyBelow(a: int, b: int, c: int)
    requires 0 <= a && b <= c
    ensures a * b <= a * c
  {
  }

  /** The square of `colorDistance`: the squared distance normalised by
      the largest one. `colorDistance` itself is its square root. */
  function ColorDistanceSquared(c1: Color, c2: Color): (d: real)
    ensures 0.0 <= d <= 1.0
  {
    SquaredDistance(c1, c2) as real / MaxSquaredDistance as real
  }

  /** `colorDistance(c, corner) <= fuzz`, with the square root squared
      away: no colour is within a negative fuzz. */
  predicate WithinFuzz(c: Color, corner: Color, fuzz: real) {
    fuzz >= 0.0 && SquaredDistance(c, corner) as real <= fuzz * fuzz * MaxSquaredDistance as real
  }

  /** `WithinFuzz` is the comparison of `colorDistance` with the fuzz: a
      non-negative fuzz bounding the distance's square root. */
  lemma WithinFuzzMeaning(c: Color, corner: Color, fuzz: real)
    ensures WithinFuzz(c, corner, fuzz) <==> fuzz >= 0.0 && ColorDistanceSquared(c, corner) <= fuzz * fuzz
  {
    var m := MaxSquaredDistance as real;
    var s := SquaredDistance(c, corner) as real;
    assert s / m <= fuzz * fuzz <==> s <= fuzz * fuzz * m by {
      DivideBelow(s, m, fuzz * fuzz);
    }
  }

  lemma DivideBelow(s: real, m: real, q: real)
    requires m > 0.0
    ensures s / m <= q <==> s <= q * m
  {
    assert s == (s / m) * m;
  }

  /** `colorDistance` is symmetric. */
  lemma ColorDistanceSymmetric(c1: Color, c2: Color)
    ensures ColorDistanceSquared(c1, c2) == ColorDistanceSquared(c2, c1)
  {
    SquareOfNegation(c2.r - c1.r);
    SquareOfNegation(c2.g - c1.g);
    SquareOfNegation(c2.b - c1.b);
  }

  lemma SquareOfNegation(d: int)
    ensures d * d == (-d) * (-d)
  {
  }

  /** `colorDistance` ignores alpha. */
  lemma ColorDistanceIgnoresAlpha(c1: Color, c2: Color, a1: Channel, a2: Channel)
    ensures ColorDistanceSquared(c1.(alpha := a1), c2.(alpha := a2)) == ColorDistanceSquared(c1, c2)
  {
  }

  /** `colorDistance` is zero exactly for the same red, green and blue. */
  lemma ColorDistanceZero(c1: Color, c2: Color)
    ensures ColorDistanceSquared(c1, c2) == 0.0 <==> c1.r == c2.r && c1.g == c2.g && c1.b == c2.b
  {
  }

  /** With fuzz 0 only colours with the corner's red, green and blue are
      part of a border. */
  lemma WithinZeroFuzz(c: Color, corner: Color)
    ensures WithinFuzz(c, corner, 0.0) <==> c.r == corner.r && c.g == corner.g && c.b == corner.b
  {
  }

  /** With fuzz 1 or more every colour is part of a border. */
  lemma WithinFullFuzz(c: Color, corner: Color, fuzz: real)
    requires fuzz >= 1.0
    ensures WithinFuzz(c, corner, fuzz)
  {
    var m := MaxSquaredDistance as real;
    assert fuzz * fuzz >= 1.0 by { assert fuzz * fuzz >= fuzz * 1.0; }
    assert fuzz * fuzz * m >= 1.0 * m;
  }

  /** The x scan walks columns from the left and right edges inwards; the
      y scan walks rows from the top and bottom edges. */
  datatype Axis = X | Y

  /** The number of lines the scan along `axis` can visit. */
  function Extent(img: array2<Color>, axis: Axis): nat {
    if axis == X then img.Length0 else img.Length1
  }

  /** The length of each scanned line. */
  function Across(img: array2<Color>, axis: Axis): nat {
    if axis == X then img.Length1 else img.Length0
  }

  /** Pixel j of line i of the scan along `axis`. */
  function PixelAt(img: array2<Color>, axis: Axis, i: int, j: int): Color
    reads img
    requires 0 <= i < Extent(img, axis) && 0 <= j < Across(img, axis)
  {
    if axis == X then img[i, j] else img[j, i]
  }

  /** Pixel j of line i and of its mirror line are both within fuzz of the
      corner colour. */
  predicate PairWithin(img: array2<Color>, corner: Color, fuzz: real, axis: Axis, i: int, j: int)
    reads img
    requires 0 <= i < Extent(img, axis) && 0 <= j < Across(img, axis)
  {
    WithinFuzz(PixelAt(img, axis, i, j), corner, fuzz)
    && WithinFuzz(PixelAt(img, axis, Extent(img, axis) - 1 - i, j), corner, fuzz)
  }

  /** Line i and its mirror line are within fuzz of the corner colour
      along their whole length. */
  ghost predicate LinePairWithin(img: array2<Color>, corner: Color, fuzz: real, axis: Axis, i: int)
    reads img
    requires 0 <= i < Extent(img, axis)
  {
    forall j :: 0 <= j < Across(img, axis) ==> PairWithin(img, corner, fuzz, axis, i, j)
  }

  /** d is the border depth along `axis`: at most half the extent, every
      line pair before d is within fuzz, and the pair at d is not unless d
      is already half the extent. */
  ghost predicate IsDepth(img: array2<Color>, corner: Color, fuzz: real, axis: Axis, d: int)
    reads img
  {
    && 0 <= d <= Extent(img, axis) / 2
    && (forall i :: 0 <= i < d ==> LinePairWithin(img, corner, fuzz, axis, i))
    && (d < Extent(img, axis) / 2 ==> !LinePairWithin(img, corner, fuzz, axis, d))
  }

  /** The border depth along `axis`, scanning from line i. */
  ghost function DepthFrom(img: array2<Color>, corner: Color, fuzz: real, axis: Axis, i: int): int
    reads img
    requires 0 <= i <= Extent(img, axis) / 2
    decreases Extent(img, axis) / 2 - i
  {
    if i == Extent(img, axis) / 2 || !LinePairWithin(img, corner, fuzz, axis, i) then i
    else DepthFrom(img, corner, fuzz, axis, i + 1)
  }

  /** The border depth along `axis`. */
  ghost function Depth(img: array2<Color>, corner: Color, fuzz: real, axis: Axis): int
    reads img
  {
    DepthFrom(img, corner, fuzz, axis, 0)
  }

  /** Scanning from a line before which every pair is within fuzz finds
      the border depth. */
  lemma {:induction false} DepthFromIsDepth(img: array2<Color>, corner: Color, fuzz: real, axis: Axis, i: int)
    requires 0 <= i <= Extent(img, axis) / 2
    requires forall k :: 0 <= k < i ==> LinePairWithin(img, corner, fuzz, axis, k)
    ensures IsDepth(img, corner, fuzz, axis, DepthFrom(img, corner, fuzz, axis, i))
    decreases Extent(img, axis) / 2 - i
  {
    if i == Extent(img, axis) / 2 || !LinePairWithin(img, corner, fuzz, axis, i) {
    } else {
      DepthFromIsDepth(img, corner, fuzz, axis, i + 1);
    }
  }

  /** `Depth` is the border depth, and the only one. */
  lemma DepthIsDepth(img: array2<Color>, corner: Color, fuzz: real, axis: Axis, d: int)
    ensures IsDepth(img, corner, fuzz, axis, Depth(img, corner, fuzz, axis))
    ensures IsDepth(img, corner, fuzz, axis, d) <==> d == Depth(img, corner, fuzz, axis)
  {
    DepthFromIsDepth(img, corner, fuzz, axis, 0);
  }

  /** The image unchanged, or the crop applied to it. */
  datatype TrimResult = Unchanged | Cropped(config: CutterConfig)

  /** The crop inset by the two depths on every side, or no crop when
      both depths are zero. */
  function InsetCrop(width: int, height: int, xdepth: int, ydepth: int): TrimResult {
    if xdepth > 0 || ydepth > 0 then
      Cropped(CutterConfig(TopLeft, Point(xdepth, ydepth), width - xdepth * 2, height - ydepth * 2))
    else Unchanged
  }

  /** What `Trim` does with `img`: nothing for an empty image, otherwise
      the inset crop by the depths of the border around the corner colour.
      The y depth is computed from the whole image, whatever the x depth. */
  ghost function TrimSpec(img: array2<Color>, fuzz: real): TrimResult
    reads img
  {
    if img.Length0 == 0 || img.Length1 == 0 then Unchanged
    else
      var corner := img[0, 0];
      InsetCrop(img.Length0, img.Length1, Depth(img, corner, fuzz, X), Depth(img, corner, fuzz, Y))
  }

  /** One of `Trim`'s two scans: from the edges inwards along `axis`,
      while the line and its mirror line are within fuzz of the corner
      colour, stopping at half the extent. */
  method ScanDepth(img: array2<Color>, corner: Color, fuzz: real, axis: Axis) returns (depth: int)
    ensures IsDepth(img, corner, fuzz, axis, depth)
  {
    var center := Extent(img, axis) / 2;
    depth := 0;
    label Outer:
    while depth < center
      invariant 0 <= depth <= center
      invariant forall i :: 0 <= i < depth ==> LinePairWithin(img, corner, fuzz, axis, i)
    {
      var j := 0;
      while j < Across(img, axis)
        invariant 0 <= j <= Across(img, axis)
        invariant forall k :: 0 <= k < j ==> PairWithin(img, corner, fuzz, axis, depth, k)
      {
        if !(WithinFuzz(PixelAt(img, axis, depth, j), corner, fuzz)
             && WithinFuzz(PixelAt(img, axis, Extent(img, axis) - depth - 1, j), corner, fuzz)) {
          assert !PairWithin(img, corner, fuzz, axis, depth, j);
          break Outer;
        }
        j := j + 1;
      }
      depth := depth + 1;
    }
  }

  /** `Trim`: scan the columns, then the rows, and crop the border found. */
  method Trim(img: array2<Color>, fuzz: real) returns (result: TrimResult)
    ensures result == TrimSpec(img, fuzz)
  {
    if img.Length0 == 0 || img.Length1 == 0 {
      return Unchanged;
    }
    var corner := img[0, 0];
    var xdepth := ScanDepth(img, corner, fuzz, X);
    var ydepth := ScanDepth(img, corner, fuzz, Y);
    DepthIsDepth(img, corner, fuzz, X, xdepth);
    DepthIsDepth(img, corner, fuzz, Y, ydepth);
    result := InsetCrop(img.Length0, img.Length1, xdepth, ydepth);
  }

  /** The bounds of `Trim`'s output for an image of the given size: the
      image's own bounds, or the bounds of the crop. */
  function OutputBounds(width: int, height: int, result: TrimResult): Rectangle {
    match result
    case Unchanged => Rect(0, 0, width, height)
    case Cropped(c) => c.CroppedBounds(Rect(0, 0, width, height))
  }

  /** `Trim` keeps the image when both depths are zero, and otherwise crops
      it inset by the x depth on the left and right and the y depth on the
      top and bottom; neither depth exceeds half the dimension, so the
      crop has a non-negative size and lies inside the image. */
  lemma TrimInset(img: array2<Color>, fuzz: real)
    requires img.Length0 > 0 && img.Length1 > 0
    ensures var xd, yd := Depth(img, img[0, 0], fuzz, X), Depth(img, img[0, 0], fuzz, Y);
      var result := TrimSpec(img, fuzz);
      && 0 <= 2 * xd <= img.Length0 && 0 <= 2 * yd <= img.Length1
      && (result == Unchanged <==> xd == 0 && yd == 0)
      && (result.Cropped? ==>
            && result.config.mode == TopLeft
            && result.config.width >= 0 && result.config.height >= 0
            && result.config.Region() == Rectangle(Point(xd, yd), Point(img.Length0 - xd, img.Length1 - yd))
            && result.config.Region().In(Rect(0, 0, img.Length0, img.Length1)))
  {
    DepthIsDepth(img, img[0, 0], fuzz, X, 0);
    DepthIsDepth(img, img[0, 0], fuzz, Y, 0);
  }

  /** An empty image is returned unchanged. */
  lemma TrimEmpty(img: array2<Color>, fuzz: real)
    requires img.Length0 == 0 || img.Length1 == 0
    ensures TrimSpec(img, fuzz) == Unchanged
    ensures OutputBounds(img.Length0, img.Length1, TrimSpec(img, fuzz)).Size() == Point(img.Length0, img.Length1)
  {
  }

  /** With fuzz 1 or more every line pair is part of the border, so each
      depth is half the dimension: the output is empty unless both
      dimensions are odd, when the single centre pixel is left. */
  lemma FullFuzzTrim(img: array2<Color>, fuzz: real)
    requires fuzz >= 1.0 && img.Length0 > 0 && img.Length1 > 0
    ensures Depth(img, img[0, 0], fuzz, X) == img.Length0 / 2
    ensures Depth(img, img[0, 0], fuzz, Y) == img.Length1 / 2
    ensures OutputBounds(img.Length0, img.Length1, TrimSpec(img, fuzz)).Size()
         == if img.Length0 % 2 == 1 && img.Length1 % 2 == 1 then Point(1, 1) else Point(0, 0)
  {
    var corner := img[0, 0];
    AllLinesWithin(img, corner, fuzz, X);
    AllLinesWithin(img, corner, fuzz, Y);
    DepthIsDepth(img, corner, fuzz, X, img.Length0 / 2);
    DepthIsDepth(img, corner, fuzz, Y, img.Length1 / 2);
  }

  /** With fuzz 1 or more every line pair along `axis` is within fuzz. */
  lemma AllLinesWithin(img: array2<Color>, corner: Color, fuzz: real, axis: Axis)
    requires fuzz >= 1.0
    ensures IsDepth(img, corner, fuzz, axis, Extent(img, axis) / 2)
  {
    forall i, j | 0 <= i < Extent(img, axis) && 0 <= j < Across(img, axis)
      ensures WithinFuzz(PixelAt(img, axis, i, j), corner, fuzz)
    {
      WithinFullFuzz(PixelAt(img, axis, i, j), corner, fuzz);
    }
  }
}
