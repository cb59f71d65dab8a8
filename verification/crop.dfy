/** imageops/crop.go: square, rectangular and relative crops. The pixel copy
    itself belongs to the `cutter` library; each crop is modelled by the
    configuration handed to it, and a top-left configuration by the
    sub-rectangle it selects. */
module Crop {
  import opened Rectangles
  import opened Geometry

  /** `cutter.TopLeft` anchors the crop at its top-left corner,
      `cutter.Centered` centres it. */
  datatype CutterMode = TopLeft | Centered

  /** `cutter.Config`: the mode, the anchor and the requested size. */
  datatype CutterConfig = CutterConfig(mode: CutterMode, anchor: Point, width: int, height: int) {

    /** The sub-rectangle a top-left crop selects: `width` by `height`
        pixels starting at the anchor. */
    function Region(): Rectangle {
      Rectangle(anchor, Point(anchor.x + width, anchor.y + height))
    }

    /** The bounds of the image a top-left crop of an image with `bounds`
        gives: the selected sub-rectangle clipped to the image, the zero
        rectangle when nothing is left. */
    function CroppedBounds(bounds: Rectangle): (r: Rectangle)
      ensures r.In(bounds)
    {
      Region().Intersect(bounds)
    }
  }

  /** `CropSquare`: a centred crop whose side is the shorter of the two
      dimensions of `bounds`. */
  function CropSquare(bounds: Rectangle): (c: CutterConfig)
    ensures c.mode == Centered
    ensures c.width == c.height
    ensures c.width <= bounds.Dx() && c.width <= bounds.Dy()
    ensures c.width == bounds.Dx() || c.width == bounds.Dy()
    ensures bounds.Canonical() ==> c.width >= 0
  {
    var dx, dy := bounds.Dx(), bounds.Dy();
    var size := if dx > dy then dy else dx;
    CutterConfig(Centered, Point(0, 0), size, size)
  }

  /** `CropRect`: clip `rect` to `bounds`, then crop from the clipped
      rectangle's top-left corner with its width and height. */
  function CropRect(bounds: Rectangle, rect: Rectangle): (c: CutterConfig)
    ensures c.mode == TopLeft
    ensures c.width >= 0 && c.height >= 0
    ensures c.Region().In(bounds) && c.Region().In(rect)
  {
    var clipped := rect.Intersect(bounds);
    CutterConfig(TopLeft, clipped.min, clipped.Dx(), clipped.Dy())
  }

  /** `CropRelative`: the rectangle crop of the region's pixels. */
  function CropRelative(bounds: Rectangle, region: RelativeRegion): (c: CutterConfig)
    ensures c.mode == TopLeft
    ensures c.width >= 0 && c.height >= 0
    ensures c.Region().In(bounds)
  {
    CropRect(bounds, region.ToRectangle(bounds))
  }

  /** The pixels a rectangle crop selects are exactly the pixels of the
      image that lie in the requested rectangle. */
  lemma CropRectPixels(bounds: Rectangle, rect: Rectangle, p: Point)
    ensures CropRect(bounds, rect).Region().Contains(p) <==> bounds.Contains(p) && rect.Contains(p)
  {
    var clipped := rect.Intersect(bounds);
    assert CropRect(bounds, rect).Region() == clipped;
    IntersectContains(rect, bounds, p);
  }

  /** A non-empty rectangle inside the image is cropped exactly. */
  lemma CropRectInside(bounds: Rectangle, rect: Rectangle)
    requires !rect.Empty() && rect.In(bounds)
    ensures CropRect(bounds, rect).Region() == rect
    ensures CropRect(bounds, rect).anchor == rect.min
  {
    IntersectInside(rect, bounds);
  }

  /** For a valid region, the pixels a relative crop selects are exactly
      the image pixels within the region's rounded pixel bounds. */
  lemma CropRelativePixels(bounds: Rectangle, region: RelativeRegion, p: Point)
    requires region.Valid() && bounds.Canonical()
    ensures CropRelative(bounds, region).Region().Contains(p)
        <==> bounds.Contains(p) && region.PixelBounds(bounds).Contains(p)
  {
    CropRectPixels(bounds, region.ToRectangle(bounds), p);
    ToRectanglePixels(region, bounds, p);
  }

  /** The crop of the test suite: the region (0.5, 0.5, 0.25, 0.25) of a
      640x480 image is the 160x120 crop anchored at (320, 240). */
  lemma CropRelativeExample()
    ensures CropRelative(Rect(0, 0, 640, 480), RelativeRegion(0.5, 0.5, 0.25, 0.25))
         == CutterConfig(TopLeft, Point(320, 240), 160, 120)
  {
    ToRectangleExample();
  }

  /** The square crop of a landscape 640x480 image is 480 on each side. */
  lemma CropSquareExample()
    ensures CropSquare(Rect(0, 0, 640, 480)) == CutterConfig(Centered, Point(0, 0), 480, 480)
  {
  }
}
