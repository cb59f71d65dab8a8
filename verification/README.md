# picaxe IIIF core in Dafny

This project models the core of picaxe, an image server that speaks a dialect
of the IIIF Image API. A request names an image and says four things about the
output. Its grammar is
`{identifier}/{region}/{size}/{rotation}/{quality}.{format}[?{query}]`:

- **region**: what to cut out. It is the whole image, its centred square, a
  rectangle in pixels, or a rectangle in percentages.
- **size**: how large the output is. It is the full size, the largest allowed
  size, a width and/or height with optional best fit, or a percentage.
- **format**: jpg, png or gif.
- **query**: optional extras. These are trimming a uniform border, honouring
  the EXIF orientation, and never enlarging.

The model covers these parts:

- **The request grammar** (`iiif/request.go`, `iiif/parsing.go`).
  - Parsing is modelled with a hand-written matcher for the request regular
    expression, the three component expressions, and the numeral and URL
    routines of Go's standard library that the parser relies on.
  - Serialising is modelled through the `String` methods of regions, sizes and
    requests.
- **The dimension engine** (`imageops/geometry.go`, `Size.CalculateDimensions`
  and `checkDimensions`). It covers relative regions and points,
  aspect-preserving fitting, the size rules and the cap on output dimensions.
- **The border trimmer** (`imageops/trim.go`). It is an imperative method over
  a two-dimensional array of colours, with the two scan loops and the inset crop.
- **The crop geometry** (`imageops/crop.go`). Each crop is modelled by the
  configuration it hands to the `cutter` library.

## Modules

| file | module | what it holds |
|---|---|---|
| wrappers.dfy | Wrappers | `Option` and `Result` |
| floats.dfy | Floats | `float64` values as finite reals, NaN and the infinities, with IEEE comparisons |
| rectangles.dfy | Rectangles | Go's `image.Point` and `image.Rectangle`: `Dx`, `Dy`, `Empty`, `In`, `Canon`, `Intersect`, `Rect` |
| geometry.dfy | Geometry | `round`, `min`, `RelativeRegion`, `RelativePoint`, `FitDimensions` |
| crop.dfy | Crop | `CropSquare`, `CropRect`, `CropRelative` as cutter configurations |
| trim.dfy | Trim | `colorDistance` (squared), the border depth, the `Trim` method |
| numerals.dfy | Numerals | `%d`, `strconv.ParseInt` for 32-bit values, `strconv.ParseFloat`, `FormatFloat(f, 'f', prec, 64)`, `formatCompactFloat` |
| url_encoding.dfy | UrlEncoding | `url.QueryEscape`, `url.QueryUnescape`, `url.ParseQuery`, `Values.Get` |
| iiif.dfy | Iiif | `Region`, `Size`, `Format`, `Request`, their `String` methods, the format name map |
| sizing.dfy | Sizing | `CalculateDimensions`, `checkDimensions` |
| parsing.dfy | Parsing | the component expressions, `parsePercentageCoords`, `parseRectangle`, `parseWidthHeight`, `parsePixelComponent`, `parsePercentage` |
| spec_parser.dfy | SpecParser | the request expression, `parseBoolean`, `parseFloat`, `parseRegion`, `parseSize`, `ParseSpec` |
| round_trip.dfy | RoundTrip | what parsing makes of serialised requests |

## Modelling choices

- **Floating-point numbers.** A `float64` is `Floats.Float`: a finite value
  held as an exact real, NaN, or an infinity.
  - Comparisons follow IEEE 754: every comparison with NaN is false, so a test
    `f < lo || f > hi` lets NaN through (`Floats.OutsideMeaning`).
  - `strconv.ParseFloat` accepts the special spellings "NaN", "Inf" and
    "Infinity" (case ignored, a sign only before the infinities),
    hexadecimal numerals such as "0x1p-2", and underscores between digits. A
    magnitude of at least 2^1024 - 2^970 rounds to an infinity and is a range
    error.
  - `round(f)` is `floor(f + 0.5)`. Converting NaN or an infinity to `int` is
    left to the implementation by Go. The model takes amd64's value, the
    smallest `int64` (`Sizing.NonFiniteToInt`). Every result the model proves
    about it holds for any value that is not positive. On arm64 that covers
    NaN, which converts to 0, and negative infinity, but not positive infinity,
    which saturates to the largest `int64`. A parsed request never holds
    positive infinity as a size factor, because the percentage range test
    rejects it (`Parsing.ParsePercentage`).
  - `FormatFloat` with precision 10 rounds the exact value half to even at the
    tenth decimal.
  - Parsing a percentage that was printed with ten decimals gives back the
    value rounded to ten decimals of a percent (`Parsing.RoundedFraction`).
- **Out-parameters and in-place building.** `parseRegion` and `parseSize` fill
  a struct through a pointer. `ParseSpec` builds the request field by field.
  - Each of these returns a value or an error in the model.
  - `SpecParser.ParseSpec` and `SpecParser.ApplyQueryValues` are methods that
    build the request step by step, as the source does. Each is proved equal
    to a functional specification.
  - The `init` loop that fills the format map is `Iiif.BuildFormatNames`.
  - The character-trimming loop of `formatCompactFloat` is
    `Numerals.FormatCompactFloat`.
- **Trimming.** The image is an `array2<Color>` indexed `[x, y]`, with its
  origin at (0, 0).
  - The two labelled scan loops of `Trim` are one method, `Trim.ScanDepth`,
    with an axis parameter. It is called once per axis.
  - `Trim.Trim` returns either "unchanged" or the cutter configuration of the
    inset crop.
- **Colour distance.** `colorDistance(a, b) <= fuzz` is decided without a
  square root. The squared channel distance is compared with
  `fuzz^2 * 3 * 65535^2`, and `Trim.WithinFuzzMeaning` proves this equivalent
  to comparing the squared normalised distance with `fuzz^2`.
- **The request expression.** It is not anchored at the start, so the
  leftmost match wins (`SpecParser.FindFrom`).
  - Within one start position, the captures are cut at the first '/' four
    times, then at the first '.', then at the first '?'.
  - The query capture `(.*)` does not match a newline.
  - The quality capture `[^.]+` may contain '/'.
- **Lenient checks.** The model keeps the code's checks as written.
  - Rotation "" is accepted by the code's check (`iiif/request.go:219`). The
    expression never yields an empty capture, though.
  - Quality "color" is accepted alongside "default" (`iiif/request.go:232`).
  - NaN passes the range tests of `parsePercentage` and `parseFloat`. The
    request parser keeps that behaviour; the corrected tests are under
    "Findings".

## Model

| member | source | states |
|---|---|---|
| Floats.OutsideMeaning | iiif/parsing.go:135 | the test `f < lo \|\| f > hi` is false exactly for NaN and for finite values from lo to hi |
| Floats.OverTimes | iiif/parsing.go:140 | dividing by a positive number and multiplying back gives the value again, NaN and infinities included |
| Rectangles.Rectangle.Canon | iiif/parsing.go:78 | `Canon` gives a rectangle with min <= max on both axes, keeps a rectangle that already is, and on each axis its min and max are the two given coordinates, in some order |
| Rectangles.Rectangle.Intersect | imageops/crop.go:40 | the intersection is canonical and lies in both rectangles; an empty one is the zero rectangle |
| Rectangles.IntersectContains | imageops/crop.go:40 | a pixel is in the intersection exactly when it is in both rectangles |
| Rectangles.IntersectInside | imageops/crop.go:40 | intersecting a non-empty rectangle with one that contains it gives it back unchanged |
| Rectangles.Rect | iiif/parsing.go:78 | `image.Rect` is canonical and keeps already ordered corners as given |
| Geometry.Round | imageops/geometry.go:90-92 | `round(f)`, `floor(f + 0.5)`; its properties are stated by `RoundNearest`, `RoundMonotonic` and `RoundInteger` |
| Geometry.RoundNearest | imageops/geometry.go:90-92 | `round(f)` is within half a unit of f, rounding halves up |
| Geometry.RoundMonotonic | imageops/geometry.go:90-92 | `round` is monotonic |
| Geometry.RoundInteger | imageops/geometry.go:90-92 | `round` leaves integers unchanged |
| Geometry.MinReal | imageops/geometry.go:83-88 | `min` is below both arguments and is one of them |
| Geometry.NewRelativeRegion | imageops/geometry.go:13-18 | succeeds exactly when all four components are finite and in [0, 1], and then holds exactly those components; NaN and infinities fail; the only error is invalid coordinates |
| Geometry.RelativeRegion.ToRectangle | imageops/geometry.go:24-31 | the result is canonical and inside the given bounds |
| Geometry.PixelBoundsCanonical | imageops/geometry.go:24-30 | for a valid region over canonical bounds, the rounded corners are already ordered |
| Geometry.ToRectanglePixels | imageops/geometry.go:24-31 | a pixel is in the result exactly when it is in the bounds and in the rounded rectangle of the fractions times the bounds' size |
| Geometry.RelativeRegion.IsEmpty | imageops/geometry.go:20-22 | `IsEmpty`: no width or no height; `EmptyRegionHasNoPixels` states what it means for the crop |
| Geometry.EmptyRegionHasNoPixels | imageops/geometry.go:20-31 | a region that `IsEmpty` (zero width or height) gives an empty rectangle |
| Geometry.ToRectangleExample | imageops/geometry.go:24-31 | (0.5, 0.5, 0.25, 0.25) of 640x480 is (320,240)-(480,360) |
| Geometry.NewRelativePoint | imageops/geometry.go:37-42 | succeeds exactly when both coordinates are in [0, 1] |
| Geometry.RelativePoint.ToPoint | imageops/geometry.go:44-47 | each coordinate is the fraction times the size rounded half up; a valid point lands within the bounds' size |
| Geometry.ScaledFractionInRange | imageops/geometry.go:44-47 | a fraction in [0, 1] of a non-negative extent rounds into [0, extent] |
| Geometry.FitDimensions | imageops/geometry.go:56-81 | no target gives the size back; any target gives a non-negative result; a non-positive size or target gives (0, 0) |
| Geometry.BoxScale | imageops/geometry.go:67-70 | the scale is the smaller of the two target ratios |
| Geometry.FitIntoBox | imageops/geometry.go:67-71 | with both targets, the result fits in the box and reaches it on at least one axis, enlarging small inputs |
| Geometry.ScaledSidesInBox | imageops/geometry.go:67-71 | both sides scaled by the box scale fit the box and touch it |
| Geometry.FitKeepsAspect | imageops/geometry.go:67-71 | with both targets, the result keeps the input's aspect ratio up to rounding |
| Geometry.FitToWidth | imageops/geometry.go:73-78 | with only a width, that side is the target and the other is the target over the aspect ratio, rounded half up |
| Geometry.FitToHeight | imageops/geometry.go:73-80 | with only a height, that side is the target and the other is the target times the aspect ratio, rounded half up |
| Geometry.FitExamples | imageops/geometry_test.go:11-107 | (100,50) into 200x200 is (200,100), (400,300) into 200x200 is (200,150), (400,300) at height 200 is (267,200), (300,400) at width 200 is (200,267) |
| Crop.CutterConfig.CroppedBounds | imageops/crop.go:41-46 | a top-left crop never reaches outside the image |
| Crop.CropSquare | imageops/crop.go:11-26 | a centred square whose side is the shorter dimension, no larger than either |
| Crop.CropRect | imageops/crop.go:39-46 | a top-left crop with non-negative size, inside both the image and the requested rectangle, so the panic branch is unreachable |
| Crop.CropRectPixels | imageops/crop.go:39-46 | a pixel is cropped exactly when it is in the image and the requested rectangle |
| Crop.CropRectInside | imageops/crop.go:39-46 | a non-empty request inside the image is cropped exactly, anchored at its min |
| Crop.CropRelative | imageops/crop.go:34-36 | a relative crop is a top-left crop of non-negative size inside the image |
| Crop.CropRelativePixels | imageops/crop.go:34-36 | a relative crop selects exactly the pixels of the image that lie in the region's rounded pixel bounds |
| Crop.CropRelativeExample | imageops/crop_test.go:24-32 | (0.5, 0.5, 0.25, 0.25) of 640x480 is a 160x120 crop anchored at (320, 240) |
| Crop.CropSquareExample | imageops/crop.go:11-26 | the square of a 640x480 image is a centred 480x480 crop |
| Trim.SquaredDistance | imageops/trim.go:70-75 | the squared RGB distance is 0 exactly for equal RGB and at most 3 * 65535^2 |
| Trim.ColorDistanceSquared | imageops/trim.go:70-77 | the squared normalised distance lies in [0, 1] |
| Trim.WithinFuzzMeaning | imageops/trim.go:43-44 | the integer test is the same as comparing the squared normalised distance with fuzz^2 |
| Trim.ColorDistanceSymmetric | imageops/trim.go:70-77 | the distance is symmetric |
| Trim.ColorDistanceIgnoresAlpha | imageops/trim.go:70-77 | alpha does not change the distance |
| Trim.ColorDistanceZero | imageops/trim.go:70-77 | the distance is 0 exactly for equal RGB |
| Trim.WithinZeroFuzz | imageops/trim.go:43-44 | with fuzz 0 only the corner's own RGB is within fuzz |
| Trim.WithinFullFuzz | imageops/trim.go:43-44 | with fuzz at least 1 every colour is within fuzz |
| Trim.DepthFromIsDepth | imageops/trim.go:40-57 | scanning on from a line before which every line pair is within fuzz gives the border depth |
| Trim.DepthIsDepth | imageops/trim.go:40-57 | the border depth exists and is unique: at most half the extent, every line pair before it is within fuzz, and the pair at it is not unless it is half the extent |
| Trim.ScanDepth | imageops/trim.go:40-57 | the scan returns the border depth of its axis |
| Trim.Trim | imageops/trim.go:27-68 | `Trim` returns an empty image unchanged, and otherwise the inset crop by the two depths, both scanned from the untrimmed image |
| Trim.TrimInset | imageops/trim.go:35-66 | each depth is at most half its dimension; the image is unchanged exactly when both depths are 0, and otherwise cropped from (xdepth, ydepth) to (dx - xdepth, dy - ydepth) inside the image |
| Trim.TrimEmpty | imageops/trim.go:29-31 | an empty image is returned unchanged |
| Trim.FullFuzzTrim | imageops/trim.go:41-62 | with fuzz at least 1 both depths reach half the dimension; the output is empty, or 1x1 when both dimensions are odd |
| Trim.AllLinesWithin | imageops/trim.go:41-50 | with fuzz at least 1 the depth is half the extent |
| Iiif.Region.String | iiif/request.go:44-62 | `Region.String`; `RoundTrip.RegionNoSlash` proves the text is one path segment and `RoundTrip.RegionRoundTrip` that it parses back to the region's normal form |
| Iiif.Size.String | iiif/request.go:88-110 | `Size.String`; `RoundTrip.SizeNoSlash` proves the text is one path segment and `RoundTrip.SizeRoundTrip` that it parses back to the size's normal form |
| Iiif.Request.Query | iiif/request.go:176-189 | the "?" and the extras joined by "&", empty when none is set; `RoundTrip.QueryLacks` and `RoundTrip.QueryRoundTrip` state what it holds and that it reads back |
| Iiif.Request.String | iiif/request.go:168-191 | `Request.String` as written; `RoundTrip.StringSlashes` proves it has three '/' and `RoundTrip.StringNeverParses` that the parser rejects it |
| Iiif.Request.CanonicalString | iiif/request.go:168-191 | the corrected text with the rotation "0"; `RoundTrip.CanonicalRoundTrip` proves it parses back to the request's normal form |
| Iiif.Request.Extras | iiif/request.go:176-186 | at most three parameters; autoOrient=true is present exactly when auto-orienting, trimBorder with the compact fuzziness exactly when trimming, scale=down exactly with do-not-enlarge; nothing else is written |
| Iiif.ExtraParams | iiif/request.go:176-186 | one parameter per set flag, in the order autoOrient, trimBorder, scale, each with its written value |
| Iiif.FormatNames | iiif/request.go:376-384 | the format name map; `FormatNamesInverse` and `BuildFormatNames` state its contents |
| Iiif.FormatNamesInverse | iiif/request.go:376-384 | every format is found under its own name, and every key names its format |
| Iiif.BuildFormatNames | iiif/request.go:378-384 | the `init` loop builds exactly the map jpg, png, gif to their formats |
| Sizing.CheckDimensions | iiif/request.go:142-148 | succeeds exactly when the size is within the cap on both axes, returning it unchanged; otherwise the error names both sizes |
| Sizing.RequestedDimensions | iiif/request.go:114-138 | the size each kind asks for before the cap; the `Sizing` lemmas below state it kind by kind |
| Sizing.CalculateDimensions | iiif/request.go:112-140 | a result is never beyond the cap, and the only error is the cap's |
| Sizing.FullDimensions | iiif/request.go:115-116 | full size is the input, when it is within the cap |
| Sizing.MaxDimensions | iiif/request.go:117-122 | max size keeps an input within the cap; a larger one is fitted into the cap box, touching it, with the input's aspect ratio |
| Sizing.AbsoluteExact | iiif/request.go:123-128 | both sides without best fit give exactly (w, h), whatever the aspect ratio |
| Sizing.AbsoluteBestFit | iiif/request.go:123-128 | best fit gives a result inside the box, touching it, with the input's aspect ratio |
| Sizing.DoNotEnlarge | iiif/request.go:123-131 | with do-not-enlarge, an absolute size is never larger than the input on either axis: the size asked for (fitted, or exact when both sides are given without best fit) is replaced by the input when it is larger on either axis, and kept otherwise, then capped |
| Sizing.DoNotEnlargeWidthOnly | iiif/request.go:123-131 | with do-not-enlarge and only a width, on a non-empty image, a width beyond the input's gives the input, and any other positive width the input scaled to it |
| Sizing.DoNotEnlargeHeightOnly | iiif/request.go:123-131 | with do-not-enlarge and only a height, on a non-empty image, a height beyond the input's gives the input, and any other positive height the input scaled to it |
| Sizing.DoNotEnlargeExample | iiif/request.go:123-131 | a width of 2000 with do-not-enlarge on a 1000x500 image gives 1000x500 |
| Sizing.DoNotEnlargeExact | iiif/request.go:123-131 | with do-not-enlarge and both sides exact, the result is (w, h) when it is within the input on both axes and the input otherwise, then capped |
| Sizing.DoNotEnlargeSmallerBox | iiif/request.go:123-131 | with do-not-enlarge and best fit into a box no larger than the input, the fitted size is kept |
| Sizing.DoNotEnlargeLargerBox | iiif/request.go:123-131 | with do-not-enlarge and best fit into a box at least as large as the input, the input itself is the result |
| Sizing.AbsoluteWidthOnly | iiif/request.go:123-126 | only a width is `FitDimensions` with that width, whatever best fit says: the width exactly and the height by the aspect ratio, rounded half up |
| Sizing.AbsoluteHeightOnly | iiif/request.go:123-126 | only a height is `FitDimensions` with that height: the height exactly and the width by the aspect ratio, rounded half up |
| Sizing.RoundFloat | iiif/request.go:133-134 | `round` of a finite value is within half a unit of it; NaN and infinities give a value that is not positive |
| Sizing.RelativeNaN | iiif/request.go:132-135 | a NaN factor asks for the size (0, 0), which then passes the cap |
| Sizing.RelativeDimensions | iiif/request.go:132-135 | a finite fraction fits the input into the rounded scaled box with its aspect ratio |
| Sizing.DimensionsExamples | iiif/request.go:112-148 | half of 640x480 is 320x240; max of 4000x3000 under a 2000x2000 cap is 2000x1500; an exact 3000x3000 is refused |
| Numerals.IntToString | iiif/request.go:57-59 | `%d`; `NatToDigitsValue` gives its digits' value, `ParseIntToString` proves it parses back and `RoundTrip.IntToStringNumeral` that it is a plain numeral |
| Numerals.NatToDigitsValue | iiif/request.go:57-59 | `%d` of a natural number is a non-empty digit string whose value is the number |
| Numerals.LeadingDigits | iiif/parsing.go:114-119 | the length of the leading run of digits |
| Numerals.ParseUint | iiif/parsing.go:122-128 | digit strings within the bound parse to their value; nothing else succeeds |
| Numerals.ParseInt32 | iiif/parsing.go:122-128 | a parsed value is a signed 32-bit integer; an error names `ParseInt` and the text |
| Numerals.ParseIntToString | iiif/parsing.go:122-128 | every 32-bit integer printed with `%d` parses back to itself |
| Numerals.ParseFloatDecimal | iiif/parsing.go:130-134 | a decimal with a fraction parses to the value of its digits |
| Numerals.ParseFloatInteger | iiif/parsing.go:130-134 | a digit string parses to its value, or is a range error when that value rounds to an infinity |
| Numerals.ParseFloat | iiif/parsing.go:131 | an error names `ParseFloat` and the text; a finite result is below the overflow bound; the special spellings give their values |
| Numerals.ParseNumeral | iiif/parsing.go:131 | a numeral without underscores reads as its value, or as a range error at or beyond the overflow bound |
| Numerals.SpecialExamples | iiif/request.go:297 | "NaN" is NaN, "+Inf" and "Infinity" the positive infinity, "-inf" the negative one |
| Numerals.HexExample | iiif/request.go:297 | the hexadecimal numeral "0x1p-2" is 0.25 |
| Numerals.UnderscoresIgnored | iiif/request.go:297 | with well-placed underscores, the text parses as it does without them, the error naming the original text |
| Numerals.UnderscoreExample | iiif/request.go:297 | "1_000" is 1000 |
| Numerals.LeadingUnderscoreExample | iiif/request.go:297 | "_1" is a syntax error |
| Numerals.LongNumeralOutOfRange | iiif/parsing.go:131 | a digit string whose value rounds to an infinity is a range error |
| Numerals.RoundHalfEven | iiif/request.go:369 | the rounding used by `FormatFloat` is within half a unit and keeps signs |
| Numerals.PadLeftValue | iiif/request.go:369 | zero padding does not change a digit string's value |
| Numerals.TrimTrailingZeros | iiif/request.go:370-372 | the trimmed text is a prefix with no trailing '0' |
| Numerals.FormatFloat | iiif/request.go:369 | `strconv.FormatFloat(f, 'f', prec, 64)`: NaN, "+Inf" and "-Inf" for the special values, the exact value rounded half to even otherwise; `FormatFixedParts` states the finite case |
| Numerals.CompactFloat | iiif/request.go:368-374 | `formatCompactFloat`; `CompactFloatParts` states its shape, `CompactFloatParses` that it parses back to the value rounded to ten decimals, and `FormatCompactFloat` is the loop that computes it |
| Numerals.FormatCompactFloat | iiif/request.go:368-374 | the trimming loop computes `formatCompactFloat` |
| Numerals.TrimFractionValue | iiif/request.go:370-372 | dropping trailing zeros of a fraction does not change its value |
| Numerals.FormatFixedParts | iiif/request.go:369 | `FormatFloat(x, 'f', 10, 64)` is digits, '.', and ten digits whose value is x rounded to ten decimals |
| Numerals.CompactFloatParts | iiif/request.go:368-374 | the compact text is an integer part and an optional fraction whose value is x rounded to ten decimals |
| Numerals.CompactFloatParses | iiif/request.go:368-374 | the compact text is an unsigned decimal that parses back to x rounded to ten decimals |
| Numerals.CompactWhole | iiif/request.go:368-374 | a whole number is written without a point, as `%d` writes it |
| Numerals.CompactFloatExamples | iiif/request.go:368-374 | 50 is written "50", 0 is written "0", NaN "NaN" and the negative infinity "-Inf" |
| UrlEncoding.EscapeChar | iiif/request.go:170 | escaping a character gives only unreserved characters, '+' and '%' |
| UrlEncoding.QueryEscape | iiif/request.go:170 | the escaped identifier is no shorter and holds no '/' or other reserved character |
| UrlEncoding.QueryUnescape | iiif/request.go:205-209 | an error names a malformed escape starting with '%'; a result is no longer than its input |
| UrlEncoding.UnescapeEscape | iiif/request.go:205-209 | unescaping the escaped text gives it back |
| UrlEncoding.IndexOf | iiif/request.go:250 | the first occurrence of a character, or the length |
| UrlEncoding.ParseQuery | iiif/request.go:250-255 | `url.ParseQuery`; `ParseJoined` proves joined plain parameters parse back, and `SemicolonRejected` and `MalformedEscapeRejected` state its errors |
| UrlEncoding.ParsePieces | iiif/request.go:250-255 | parsing the query pieces only appends to the parameters found so far |
| UrlEncoding.Get | iiif/request.go:257-272 | a non-empty result is the value of a parameter with that key; a missing key gives "" |
| UrlEncoding.GetFirst | iiif/request.go:257-272 | the result is the value of the first parameter with that key |
| UrlEncoding.PlainUnescapes | iiif/request.go:250-255 | text of unreserved characters unescapes to itself |
| UrlEncoding.ParseJoinedFrom | iiif/request.go:250-255 | pieces of plain parameters joined by '&' parse back to those parameters, in order |
| UrlEncoding.ParseJoined | iiif/request.go:250-255 | `ParseQuery` of plain parameters joined by '&' gives them back |
| UrlEncoding.SemicolonRejected | iiif/request.go:250-255 | a ';' in the query is an error |
| UrlEncoding.MalformedEscapeRejected | iiif/request.go:250-255 | a malformed escape in the query is an error naming it |
| Parsing.Split | iiif/parsing.go:114-117 | splitting at a separator gives at least one field, none holding the separator |
| Parsing.JoinSplit | iiif/parsing.go:114-117 | joining the fields of a split gives the text back |
| Parsing.SplitJoin | iiif/parsing.go:114-117 | splitting joined fields that lack the separator gives them back |
| Parsing.PercentageFields | iiif/parsing.go:114-115 | a match is four signed decimals that joined by ',' are the text |
| Parsing.PercentageFieldsOf | iiif/parsing.go:114-115 | four signed decimals joined by ',' match as those four |
| Parsing.RectangleFields | iiif/parsing.go:116-117 | a match is four signed integers that joined by ',' are the text |
| Parsing.RectangleFieldsOf | iiif/parsing.go:116-117 | four signed integers joined by ',' match as those four |
| Parsing.WidthHeightFields | iiif/parsing.go:118-119 | a match is an optional '!' and two digit strings, possibly empty, that give the text |
| Parsing.WidthHeightFieldsOf | iiif/parsing.go:118-119 | every such text matches with its own parts |
| Parsing.ParsePercentage | iiif/parsing.go:130-141 | succeeds exactly for NaN and numbers in [0, 100], giving a value that times 100 is the number; conversion errors pass on; a number out of range names the text |
| Parsing.DecimalPercentage | iiif/parsing.go:12-41 | a matched decimal field gives a finite percentage, or fails out of range or by a range error |
| Parsing.PercentageAcceptsNaN | iiif/parsing.go:130-141 | as written, "NaN" is accepted as the percentage NaN |
| Parsing.ParsePercentageChecked | iiif/parsing.go:130-141 | corrected: succeeds exactly for finite numbers in [0, 100], giving the finite number divided by 100 |
| Parsing.PercentageCheckedAgrees | iiif/parsing.go:130-141 | the corrected and the written check agree on every text except one that parses to NaN |
| Parsing.ParsePercentageCoords | iiif/parsing.go:12-41 | a region that comes out is valid; every error is an `InvalidSpec` or a conversion range error, so the `NewRelativeRegion` error is unreachable; a mismatch names the text |
| Parsing.FirstBadPercentage | iiif/parsing.go:20-38 | the components are checked in x, y, w, h order, and the error names the first one out of range |
| Parsing.ConvertPercentages | iiif/parsing.go:20-40 | four matched percentages give a valid region, an `InvalidSpec`, or a conversion range error |
| Parsing.ParsePixelComponent | iiif/parsing.go:122-128 | a result is a signed 32-bit integer; an error is the conversion's, never an `InvalidSpec`, and for a matched numeral it is a range error |
| Parsing.PixelComponentOf | iiif/parsing.go:122-128 | every 32-bit integer written with `%d` parses to itself |
| Parsing.SignedIntegerNoSyntaxError | iiif/parsing.go:122-128 | a matched signed integer fails only by being out of range |
| Parsing.SignedDecimalParses | iiif/parsing.go:130-134 | a matched signed decimal always reads as a number; it converts to that number, or is a range error when it rounds to an infinity |
| Parsing.ParseRectangle | iiif/parsing.go:43-80 | a rectangle that comes out is canonical; a mismatch names the text, and the only other error is a range error |
| Parsing.ConvertRectangle | iiif/parsing.go:51-79 | four converted components give a canonical rectangle; the only error is a conversion error |
| Parsing.Span | iiif/parsing.go:71-78 | negative width and height become 0, and the rectangle spans (x, y) to (x + w, y + h) |
| Parsing.RectangleOf | iiif/parsing.go:43-80 | four 32-bit integers printed and joined by ',' parse to the rectangle at (x, y) with the clamped width and height |
| Parsing.RectangleExample | iiif/request_test.go:148-158 | "-10,-10,100,100" is (-10,-10)-(90,90) |
| Parsing.NegativeSizeExample | iiif/request_test.go:159-168 | "0,0,-100,-100" is the empty rectangle at the origin |
| Parsing.ClampedRectangle | iiif/parsing.go:71-78 | a width and height of at most 0 give the empty rectangle at (x, y) |
| Parsing.OptionalComponent | iiif/parsing.go:91-107 | an empty side is absent; a given side is a non-negative 32-bit value |
| Parsing.ParseWidthHeight | iiif/parsing.go:82-111 | best fit only with both sides; sides are non-negative 32-bit values; a mismatch names the text |
| Parsing.WidthHeightOf | iiif/parsing.go:82-111 | a printed width and height parse back, with best fit only when '!' is given with both sides |
| Parsing.PercentageOf | iiif/request.go:51-55 | a printed fraction in [0, 1] is a signed decimal that parses back as the fraction rounded to ten decimals of a percent |
| Parsing.PercentageInRange | iiif/parsing.go:130-141 | a text that converts to a number in [0, 100] gives that number divided by 100 |
| Parsing.RoundedPercentage | iiif/request.go:368-374 | rounding keeps a percentage in [0, 100] |
| Parsing.PercentageCoordsOf | iiif/parsing.go:12-41 | four printed fractions of a valid region parse to the rounded region |
| Parsing.PercentagesJoined | iiif/parsing.go:12-41 | four converted percentages joined by ',' give their region |
| SpecParser.CutAt | iiif/request.go:193 | cutting at the first occurrence gives a non-empty head without the separator, and the head, separator and rest are the text |
| SpecParser.CutAtOf | iiif/request.go:193 | a head without the separator is cut exactly there |
| SpecParser.MatchTail | iiif/request.go:193 | the format is non-empty without '?'; the query has no newline; together they are the text |
| SpecParser.MatchAt | iiif/request.go:193 | a match at a position has the shape of the expression and its captures give the text |
| SpecParser.MatchAtOf | iiif/request.go:193 | every text of that shape matches with its own captures |
| SpecParser.FindFrom | iiif/request.go:196 | a match found is the match at some start from the given position on |
| SpecParser.FindFromLeftmost | iiif/request.go:196 | the match found is at a start before which no position from the given one matches, so it is the leftmost |
| SpecParser.FindFromNone | iiif/request.go:196 | nothing is found exactly when no position from the given one matches |
| SpecParser.FindSpecAtStart | iiif/request.go:196 | a text that matches at its start is matched there |
| SpecParser.MatchNeedsSlashes | iiif/request.go:193 | a match needs at least four '/' |
| SpecParser.FewSlashesNoMatch | iiif/request.go:193-201 | text with fewer than four '/' matches nowhere |
| SpecParser.FewSlashesRejected | iiif/request.go:196-201 | such text is rejected as "not a valid spec" |
| SpecParser.ParseBoolean | iiif/request.go:284-294 | only "true" and "false" are booleans; anything else is an error quoting it |
| SpecParser.ParseFloatInRange | iiif/request.go:296-309 | succeeds exactly for NaN and numbers in [min, max], giving the parsed value; a non-number and an out-of-range value give their two messages |
| SpecParser.TrimBorderAcceptsNaN | iiif/request.go:257-263 | as written, a fuzziness "NaN" is accepted and leaves trimming off |
| SpecParser.ParseFloatInRangeChecked | iiif/request.go:296-309 | corrected: succeeds exactly for finite numbers in [min, max], with the same two messages otherwise |
| SpecParser.RangeCheckedAgrees | iiif/request.go:296-309 | the corrected and the written check agree on every text except one that parses to NaN |
| SpecParser.ParseRegion | iiif/request.go:311-335 | "full" and "" give Full and "square" gives Square, and Full and Square come from no other text; a relative region is valid and an absolute one canonical |
| SpecParser.ParseSize | iiif/request.go:337-362 | "full" and "" give the full size and "max" the largest; a parsed size never has do-not-enlarge; a factor is NaN or in [0, 1]; best fit only with both sides, and sides are non-negative 32-bit values |
| SpecParser.SizeAcceptsNaN | iiif/request.go:347-355 | as written, "pct:NaN" is a relative size whose factor is NaN |
| SpecParser.CheckRotation | iiif/request.go:219-228 | only "" and "0" pass; anything else is an error quoting it |
| SpecParser.CheckQuality | iiif/request.go:230-239 | only "", "color" and "default" pass; anything else is an error quoting it |
| SpecParser.ParseFormat | iiif/request.go:241-247 | only names in the format map pass, giving the format of that name; anything else is an error quoting it |
| SpecParser.UnescapeIdentifier | iiif/request.go:205-209 | the identifier is unescaped, or the unescaping error passes on |
| SpecParser.ApplyTrimBorder | iiif/request.go:257-263 | a given trimBorder succeeds exactly when `parseFloat` accepts it in [0, 0.999], and fails with its error; the fuzziness is the parsed value, trimming is on exactly when it is above 0, and nothing else changes |
| SpecParser.ApplyAutoOrient | iiif/request.go:265-270 | a given autoOrient succeeds exactly for "true" and "false", setting it to whether it is "true"; anything else is an error quoting it; nothing else changes |
| SpecParser.ApplyScale | iiif/request.go:272-278 | succeeds exactly for no scale or "down"; "down" sets do-not-enlarge and changes nothing else; anything else is an error quoting it |
| SpecParser.ApplyQuery | iiif/request.go:249-279 | an empty query changes nothing; a query that does not parse is "invalid query string"; identifier, region, size kind and format are kept; a change implies the query parsed |
| SpecParser.ApplyQueryValues | iiif/request.go:249-279 | the step-by-step query handling computes `ApplyQuery` |
| SpecParser.ParseParts | iiif/request.go:203-247 | a parsed request had rotation "" or "0", an accepted quality, and a format of the captured name |
| SpecParser.Parse | iiif/request.go:195-282 | a text that does not match is "not a valid spec"; a success is the parts of the leftmost match, parsed |
| SpecParser.ParseSpec | iiif/request.go:195-282 | `ParseSpec` builds the request step by step and computes `Parse` |
| SpecParser.ParsedRequestInvariant | iiif/request.go:195-282 | every parsed request has a valid relative region, a canonical rectangle, a factor that is NaN or in [0, 1], best fit only with both sides, a fuzziness that is NaN or in [0, 0.999], and trimming exactly for a fuzziness above 0 |
| SpecParser.QueryKeepsInvariant | iiif/request.go:249-279 | the query steps keep that invariant |
| SpecParser.StepsKeepInvariant | iiif/request.go:257-278 | each of trimBorder, autoOrient and scale keeps that invariant |
| RoundTrip.IntToStringNumeral | iiif/request.go:57-59 | `%d` writes a non-empty numeral: digits, '-' and '.' only, so no '/', ',' or '?' |
| RoundTrip.CompactFloatNumeral | iiif/request.go:368-374 | `formatCompactFloat` writes a non-empty numeral; anything but an infinity is written with digits, '-', '.' and the letters of "NaN" only |
| RoundTrip.ExtrasPlain | iiif/request.go:176-186 | the extra parameters need no escaping, unless trimming with an infinite fuzziness, which prints with a raw "+" that is not plain |
| RoundTrip.QueryLacks | iiif/request.go:187-189 | the written query has no '/' and no newline |
| RoundTrip.ExtrasLack | iiif/request.go:176-186 | no extra parameter key or value holds a '/' or a newline |
| RoundTrip.RegionNoSlash | iiif/request.go:44-62 | a written region is non-empty and has no '/' |
| RoundTrip.SizeNoSlash | iiif/request.go:88-110 | a written size is non-empty and has no '/' |
| RoundTrip.TailNoSlash | iiif/request.go:169-189 | "default", the format and the query have no '/' |
| RoundTrip.StringSlashes | iiif/request.go:168-191 | `Request.String` writes exactly three '/' |
| RoundTrip.StringNeverParses | iiif/request.go:168-193 | no output of `Request.String` is accepted by `ParseSpec` |
| RoundTrip.CanonicalText | iiif/request.go:168-193 | the corrected text is the expression's shape filled with the written parts |
| RoundTrip.CanonicalShape | iiif/request.go:193 | for a well-formed request, those parts have the shape the expression needs |
| RoundTrip.MatchCanonical | iiif/request.go:193-201 | the corrected text of a well-formed request matches at its start with exactly those parts |
| RoundTrip.RelativeRegionRoundTrip | iiif/request.go:44-55 | a written relative region parses to itself, rounded to ten decimals of a percent |
| RoundTrip.PixelsRoundTrip | iiif/parsing.go:43-80 | x, y, w, h written with `%d` parse back as the region (x, y)-(x + w, y + h) |
| RoundTrip.AbsoluteRegionRoundTrip | iiif/request.go:56-59 | a written canonical pixel region with 32-bit values parses to itself |
| RoundTrip.RegionRoundTrip | iiif/request.go:44-62 | every well-formed region parses back to itself, fractions rounded |
| RoundTrip.RelativeSizeRoundTrip | iiif/request.go:94-95 | a written size with a factor that is NaN or in [0, 1] parses to the factor in normal form |
| RoundTrip.PercentageRoundTrip | iiif/request.go:94-95 | a factor that is NaN or in [0, 1], written as a percentage, parses back to its normal form: NaN, or the fraction rounded to ten decimals of a percent |
| RoundTrip.FinitePercentageRoundTrip | iiif/request.go:94-95 | a fraction in [0, 1] written as a percentage parses back rounded to ten decimals of a percent |
| RoundTrip.AbsoluteSizeRoundTrip | iiif/request.go:96-108 | a written width and height parse back, best fit only with both sides |
| RoundTrip.SizeRoundTrip | iiif/request.go:88-110 | every well-formed size parses back to its normal form; do-not-enlarge travels in the query |
| RoundTrip.GetAfter | iiif/request.go:257-272 | `Get` skips parameters with other keys |
| RoundTrip.GetTrimBorder | iiif/request.go:180-183 | the written parameters give trimBorder the written fuzziness exactly when trimming |
| RoundTrip.GetAutoOrient | iiif/request.go:177-179 | the written parameters give autoOrient "true" exactly when set |
| RoundTrip.GetScale | iiif/request.go:184-186 | the written parameters give scale "down" exactly when do-not-enlarge is set |
| RoundTrip.GetExtraParams | iiif/request.go:176-186 | each extra reads back as written |
| RoundTrip.RoundedFuzzInRange | iiif/request.go:257-262 | a fuzziness in [0, 0.999] stays there after rounding to ten decimals |
| RoundTrip.ExtrasRoundTrip | iiif/request.go:249-279 | the written extras set autoOrient, trimming and do-not-enlarge as written |
| RoundTrip.QueryRoundTrip | iiif/request.go:176-189 | a request's written query reads back its flags and its rounded fuzziness |
| RoundTrip.PartsRoundTrip | iiif/request.go:203-279 | the written parts of a well-formed request parse back to its normal form |
| RoundTrip.CanonicalRoundTrip | iiif/request.go:168-282 | with the rotation segment written, every well-formed request parses back to its normal form |

## Left out

- HTTP routing, middleware, caching headers and ETag hashing are not part of
  this model. They are I/O and foreign hashing.
- Resource fetching is not part of this model. It is network I/O.
- `iiif/processor.go` is not part of this model. It orchestrates foreign
  decoders and encoders.
- `imageops/scaling.go` is not part of this model. It wraps a resampling
  library.
- The generated mocks and the legacy root-level files are not part of this
  model. They belong to a superseded API.
- The pixel copy of `cutter.Crop` is not modelled. A crop is modelled by the
  configuration handed to it, and a top-left crop by the sub-rectangle it
  selects.
- Centred crops are modelled by their side only. Where a centred crop lands is
  `cutter`'s business.
- `float64` is modelled as exact reals. Binary rounding of products and
  quotients, and the shortest-representation details of `FormatFloat`, are not
  modelled.
- Numerals.ParseFloat gives the exact value of a finite numeral. The rounding
  to the nearest `float64`, underflow to zero and subnormals are not
  modelled; only the overflow bound is. Negative zero is the same as zero.
- Geometry.NewRelativePoint takes exact reals, so it does not show that its
  test `x < 0 || x > 1` would let NaN through. Nothing in the core calls it.
- Sizing.RoundFloat gives NaN and the infinities one fixed value that is not
  positive. Go leaves that conversion to the implementation.
- `%q` quoting is modelled as plain double quotes. The escaping of special
  characters inside the quotes is not modelled.
- Characters are treated as bytes by the URL routines. Multi-byte UTF-8
  escaping of characters from 256 upwards is not modelled: those are kept
  unescaped.
- The partial parameters that `url.ParseQuery` returns alongside an error are
  not modelled, since `ParseSpec` discards them.
- Go releases before 1.17 treated ';' as a query separator. Only the current
  behaviour (';' is an error) is modelled.
- The zero value of `Format` (the empty name) is not a `Format` in the model.
  Every request the parser produces has one of the three formats.
- Trim.ScanDepth models the two labelled loops of `Trim` as one method with an
  axis parameter.
- Trim.Trim indexes the image from (0, 0). It does not model images whose
  bounds start elsewhere.
- Trim.SquaredDistance compares squared distances instead of taking the square
  root of `colorDistance`. The two tests agree, as Trim.WithinFuzzMeaning
  shows.
- The panics for an unknown region or size kind are not modelled. The
  datatypes have no other kinds.

## Findings

| source | as written | input that shows it | evidently intended | confidence | as-written member | corrected member |
|---|---|---|---|---|---|---|
| iiif/request.go:168-193 | `Request.String` writes identifier/region/size/default.format with no rotation segment, so its output has three '/', while the request expression needs four | the request for identifier "some-identifier", region full, size max, format png is written "some-identifier/full/max/default.png", which `ParseSpec` rejects as "not a valid spec" | the canonical form writes the rotation "0" between size and quality, and parses back to the request | not executed | RoundTrip.StringNeverParses | RoundTrip.CanonicalRoundTrip |
| iiif/parsing.go:135-140 | `parsePercentage` rejects `pcnt < 0 \|\| pcnt > 100`; both comparisons are false for NaN, so NaN is returned as a percentage | the size "pct:NaN" is accepted, as a relative size whose factor is NaN, and asks for a 0x0 output | only finite percentages from 0 to 100 are accepted | not executed | SpecParser.SizeAcceptsNaN | Parsing.ParsePercentageChecked |
| iiif/request.go:302-306 | `parseFloat` rejects `f < min \|\| f > max`, which NaN passes | the query "trimBorder=NaN" is accepted with fuzziness NaN and trimming off, where every other value out of [0, 0.999] is an error | only finite numbers from min to max are accepted | not executed | SpecParser.TrimBorderAcceptsNaN | SpecParser.ParseFloatInRangeChecked |

For the two NaN rows, `Parsing.PercentageCheckedAgrees` and
`SpecParser.RangeCheckedAgrees` prove that each corrected check differs from
the one as written only on text that parses to NaN. The request parser keeps
the checks as written, so that it answers as the server does.
`Parsing.PercentageAcceptsNaN` shows the percentage itself, and
`Sizing.RelativeNaN` shows the size that a NaN factor asks for.

The corrected serialisation is `Iiif.Request.CanonicalString`. The
round trip it completes holds for every well-formed request.

- A well-formed request has:
  - a non-empty identifier;
  - a canonical pixel region with 32-bit values;
  - a valid relative region;
  - sides that are non-negative 32-bit values;
  - a fraction in [0, 1];
  - when trimming, a fuzziness in [0, 0.999].
- Reading the text back gives the request in normal form:
  - fractions and the fuzziness are rounded to ten decimals, which is what
    `formatCompactFloat` keeps;
  - best fit stays only when both sides are given;
  - trimming stays on only if the rounded fuzziness is above 0.
