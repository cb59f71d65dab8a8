/** iiif/request.go: the parsed form of an IIIF image request, its errors,
    and how each part is written back as text. */
module Iiif {
  import opened Wrappers
  import opened Rectangles
  import opened Geometry
  import opened Floats
  import opened Numerals
  import opened UrlEncoding

  /** A fraction as a percentage. */
  function Percent(v: real): real {
    100.0 * v
  }

  /** A fraction written as a percentage by `formatCompactFloat`. */
  function PercentString(v: real): string {
    CompactFloat(Finite(Percent(v)))
  }

  /** The region part of a request: the whole image, its centred square, a
      rectangle in pixels, or a rectangle in fractions of the image. */
  datatype Region =
    | RegionFull
    | RegionSquare
    | RegionAbsolute(rect: Rectangle)
    | RegionRelative(relative: RelativeRegion)
  {
    /** `Region.String`: "full", "square", "pct:" and the four fractions as
        percentages, or x,y,w,h in pixels. */
    function String(): string {
      match this
      case RegionFull => "full"
      case RegionSquare => "square"
      case RegionRelative(r) =>
        "pct:" + (PercentString(r.x) + "," + PercentString(r.y) + ","
          + PercentString(r.w) + "," + PercentString(r.h))
      case RegionAbsolute(rect) =>
        IntToString(rect.min.x) + "," + IntToString(rect.min.y) + ","
          + IntToString(rect.Dx()) + "," + IntToString(rect.Dy())
    }
  }

  /** The size part of a request: the full size, the largest allowed size,
      a width and/or height in pixels (with best fit), or a fraction. */
  datatype SizeKind =
    | SizeFull
    | SizeMax
    | SizeAbsolute(width: Option<int>, height: Option<int>, bestFit: bool)
    | SizeRelative(factor: Float)

  /** `Size`: its kind, and whether the result may not be larger than the
      input (`AbsDoNotEnlarge`). */
  datatype Size = Size(kind: SizeKind, doNotEnlarge: bool) {
    /** `Size.String`: "full", "max", "pct:" and the percentage, or
        [!]w,h with an absent side left empty. */
    function String(): string {
      match kind
      case SizeFull => "full"
      case SizeMax => "max"
      case SizeRelative(f) => "pct:" + CompactFloat(Times(100.0, f))
      case SizeAbsolute(w, h, bestFit) =>
        var ws := if w.Some? then IntToString(w.value) else "";
        var hs := if h.Some? then IntToString(h.value) else "";
        (if bestFit then "!" else "") + (ws + "," + hs)
    }
  }

  /** The output formats. */
  datatype Format = Jpeg | Png | Gif {
    function Name(): string {
      match this
      case Jpeg => "jpg"
      case Png => "png"
      case Gif => "gif"
    }
  }

  /** `Request`: the image, what to cut out, how large, in which format,
      and the extra operations. */
  datatype Request = Request(
    identifier: string,
    region: Region,
    size: Size,
    format: Format,
    autoOrient: bool,
    trimBorder: bool,
    trimBorderFuzziness: Float)
  {
    /** The optional parameters, in the order `Request.String` writes
        them: autoOrient, trimBorder, scale. */
    function Extras(): (ps: seq<Param>)
      ensures |ps| <= 3
      ensures autoOrient <==> Param("autoOrient", "true") in ps
      ensures trimBorder <==> Param("trimBorder", CompactFloat(trimBorderFuzziness)) in ps
      ensures size.doNotEnlarge <==> Param("scale", "down") in ps
      ensures forall i :: 0 <= i < |ps| ==>
        ps[i] in {Param("autoOrient", "true"), Param("trimBorder", CompactFloat(trimBorderFuzziness)), Param("scale", "down")}
    {
      ExtraParams(autoOrient, trimBorder, CompactFloat(trimBorderFuzziness), size.doNotEnlarge)
    }

    /** The query written after '?', empty when no extra is set. */
    function Query(): string {
      var extras := Extras();
      if |extras| > 0 then "?" + JoinParams(extras) else ""
    }

    /** `Request.String` as written: identifier, region, size, then
        "default" and the format, with no rotation segment. */
    function String(): string {
      QueryEscape(identifier) + "/" + (region.String() + "/" + (size.String() + "/"
        + ("default" + "." + (format.Name() + Query()))))
    }

    /** The serialisation with the rotation segment "0" that the request
        grammar requires between the size and the quality. */
    function CanonicalString(): string {
      QueryEscape(identifier) + "/" + (region.String() + "/" + (size.String() + "/"
        + ("0" + "/" + ("default" + "." + (format.Name() + Query())))))
    }
  }

  /** The optional parameters that are set, the fuzziness as `fuzz`:
      one for each flag, in the order autoOrient, trimBorder, scale. */
  function ExtraParams(autoOrient: bool, trimBorder: bool, fuzz: string, scaleDown: bool): (ps: seq<Param>)
    ensures |ps| == (if autoOrient then 1 else 0) + (if trimBorder then 1 else 0) + (if scaleDown then 1 else 0)
    ensures autoOrient ==> ps[0] == Param("autoOrient", "true")
    ensures trimBorder ==> ps[if autoOrient then 1 else 0] == Param("trimBorder", fuzz)
    ensures scaleDown ==> ps[|ps| - 1] == Param("scale", "down")
  {
    (if autoOrient then [Param("autoOrient", "true")] else [])
      + (if trimBorder then [Param("trimBorder", fuzz)] else [])
      + (if scaleDown then [Param("scale", "down")] else [])
  }

  /** The errors of parsing a request or sizing an image. */
  datatype Error =
    | InvalidSpec(message: string)
    | ConversionError(numError: NumError)
    | UnescapeError(escapeError: EscapeError)
    | CoordinatesError(geometryError: GeometryError)
    | DimensionsError(size: Point, maxSize: Point)
  {
    function Message(): string {
      match this
      case InvalidSpec(m) => m
      case ConversionError(e) => e.Message()
      case UnescapeError(e) => e.Message()
      case CoordinatesError(_) => "Invalid coordinates"
      case DimensionsError(s, m) =>
        "(" + IntToString(s.x) + ", " + IntToString(s.y) + ") exceeds maximum allowed dimensions ("
          + IntToString(m.x) + ", " + IntToString(m.y) + ")"
    }
  }

  /** The format of each format name. */
  function FormatNames(): map<string, Format> {
    map["jpg" := Jpeg, "png" := Png, "gif" := Gif]
  }

  /** Every format is found under its own name, and only format names are
      keys. */
  lemma FormatNamesInverse()
    ensures forall f: Format :: f.Name() in FormatNames() && FormatNames()[f.Name()] == f
    ensures forall k :: k in FormatNames() ==> FormatNames()[k].Name() == k
  {
    forall f: Format ensures f.Name() in FormatNames() && FormatNames()[f.Name()] == f {
      match f
      case Jpeg =>
      case Png =>
      case Gif =>
    }
  }

  /** The map that adds each format of `formats` under its name, in order. */
  function NameMap(formats: seq<Format>): map<string, Format>
  {
    if formats == [] then map[]
    else NameMap(formats[..|formats| - 1])[formats[|formats| - 1].Name() := formats[|formats| - 1]]
  }

  /** The `init` loop that fills the format name map from the list of
      formats. */
  method BuildFormatNames() returns (m: map<string, Format>)
    ensures m == FormatNames()
  {
    var formats := [Jpeg, Png, Gif];
    m := map[];
    var i := 0;
    while i < |formats|
      invariant 0 <= i <= |formats|
      invariant m == NameMap(formats[..i])
    {
      assert formats[..i + 1][..i] == formats[..i];
      m := m[formats[i].Name() := formats[i]];
      i := i + 1;
    }
    assert formats[..3] == formats;
    assert formats[..2] == [Jpeg, Png] && formats[..2][..1] == [Jpeg] && [Jpeg][..0] == [];
    assert NameMap(formats) == map["jpg" := Jpeg, "png" := Png, "gif" := Gif];
  }
}
