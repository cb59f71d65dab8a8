/** iiif/parsing.go: the region and size parameters that are not keywords —
    four percentages, four pixel values, or a width and/or height — matched
    against their regular expressions and converted. */
module Parsing {
  import opened Wrappers
  import opened Rectangles
  import opened Geometry
  import opened Floats
  import opened Numerals
  import opened UrlEncoding
  import opened Iiif

  /** s cut at every c, in order: one more field than there are c's, and
      no field holds a c. */
  function Split(s: string, c: char): (fields: seq<string>)
    ensures |fields| >= 1
    ensures forall i :: 0 <= i < |fields| ==> !Contains(fields[i], c)
    decreases |s|
  {
    var k := IndexOf(s, c);
    if k == |s| then [s] else [s[..k]] + Split(s[k + 1..], c)
  }

  /** The fields joined with c between them. */
  function Join(fields: seq<string>, c: char): string
    requires |fields| >= 1
  {
    if |fields| == 1 then fields[0] else fields[0] + [c] + Join(fields[1..], c)
  }

  /** Joining the fields of s gives s back. */
  lemma {:induction false} JoinSplit(s: string, c: char)
    ensures Join(Split(s, c), c) == s
    decreases |s|
  {
    var k := IndexOf(s, c);
    if k < |s| {
      var rest := Split(s[k + 1..], c);
      var fs := Split(s, c);
      assert fs == [s[..k]] + rest;
      assert fs[0] == s[..k] && fs[1..] == rest && |fs| > 1;
      assert Join(fs, c) == s[..k] + [c] + Join(rest, c);
      JoinSplit(s[k + 1..], c);
      assert s == s[..k] + [c] + s[k + 1..];
    }
  }

  /** Fields without c are exactly the fields of their join. */
  lemma {:induction false} SplitJoin(fields: seq<string>, c: char)
    requires |fields| >= 1
    requires forall i :: 0 <= i < |fields| ==> !Contains(fields[i], c)
    ensures Split(Join(fields, c), c) == fields
    decreases |fields|
  {
    var f := fields[0];
    if |fields| == 1 {
      IndexOfJoin(f, "", c);
      assert f + "" == f;
    } else {
      var rest := Join(fields[1..], c);
      var s := f + [c] + rest;
      assert Join(fields, c) == s;
      assert IndexOf(s, c) == |f| by {
        assert s == f + ([c] + rest);
        IndexOfJoin(f, [c] + rest, c);
      }
      assert s[..|f|] == f && s[|f| + 1..] == rest;
      assert Split(s, c) == [f] + Split(rest, c);
      assert forall i :: 0 <= i < |fields[1..]| ==> !Contains(fields[1..][i], c) by {
        forall i | 0 <= i < |fields[1..]| ensures !Contains(fields[1..][i], c) {
          assert fields[1..][i] == fields[i + 1];
        }
      }
      SplitJoin(fields[1..], c);
      assert [f] + fields[1..] == fields;
    }
  }

  /** Two fields joined by a comma. */
  lemma JoinTwo(a: string, b: string)
    ensures Join([a, b], ',') == a + "," + b
  {
    assert [a, b][1..] == [b];
  }

  /** Four fields joined by commas. */
  lemma JoinFour(a: string, b: string, c: string, d: string)
    ensures Join([a, b, c, d], ',') == a + "," + b + "," + c + "," + d
  {
    var fs := [a, b, c, d];
    JoinTwo(c, d);
    assert fs[1..][1..] == [c, d];
    assert fs[1..] == [b, c, d];
    assert Join([b, c, d], ',') == b + "," + (c + "," + d);
    assert Join(fs, ',') == a + "," + (b + "," + (c + "," + d));
  }

  /** `-?\d+(?:\.\d+)?`: an optional minus and an unsigned decimal. */
  predicate SignedDecimal(t: string) {
    UnsignedDecimal(if |t| > 0 && t[0] == '-' then t[1..] else t)
  }

  /** `-?\d+`: an optional minus and digits. */
  predicate SignedInteger(t: string) {
    var u := if |t| > 0 && t[0] == '-' then t[1..] else t;
    |u| > 0 && AllDigits(u)
  }

  /** An unsigned decimal holds only digits and a point. */
  lemma UnsignedDecimalChars(s: string)
    requires UnsignedDecimal(s)
    ensures forall i :: 0 <= i < |s| ==> IsDigit(s[i]) || s[i] == '.'
  {
    var k := LeadingDigits(s);
    forall i | 0 <= i < |s| ensures IsDigit(s[i]) || s[i] == '.' {
      if i < k {
        assert s[..k][i] == s[i];
      } else if i > k {
        assert s[k + 1..][i - k - 1] == s[i];
      }
    }
  }

  /** Fields of the decimal and integer shapes hold no comma. */
  lemma SignedDecimalNoComma(t: string)
    requires SignedDecimal(t)
    ensures !Contains(t, ',')
  {
    var u := if |t| > 0 && t[0] == '-' then t[1..] else t;
    UnsignedDecimalChars(u);
    forall i | 0 <= i < |t| ensures t[i] != ',' {
      if t[0] == '-' && i > 0 {
        assert t[i] == u[i - 1];
      }
    }
  }

  lemma SignedIntegerNoComma(t: string)
    requires SignedInteger(t)
    ensures !Contains(t, ',')
  {
    var u := if |t| > 0 && t[0] == '-' then t[1..] else t;
    forall i | 0 <= i < |t| ensures t[i] != ',' {
      if t[0] == '-' && i > 0 {
        assert t[i] == u[i - 1];
      }
    }
  }

  /** The mantissa of an unsigned decimal covers all of it. */
  lemma UnsignedDecimalMantissa(u: string)
    requires UnsignedDecimal(u)
    ensures SplitMantissa(u).tail == "" && |SplitMantissa(u).intPart| > 0
  {
    var k := LeadingDigits(u);
    if k < |u| {
      var after := u[k + 1..];
      assert u[k..][1..] == after;
      LeadingDigitsOf(after, "");
      assert after + "" == after;
    }
  }

  /** Everything of the shape `-?\d+(?:\.\d+)?` reads as a number, which
      converts to a finite value unless its magnitude rounds to an
      infinity. */
  lemma SignedDecimalParses(t: string)
    requires SignedDecimal(t)
    ensures ReadFloat(t).Some?
    ensures var v := ReadFloat(t).value;
      ParseFloat(t) == if Abs(v) >= FloatOverflow then Failure(NumError("ParseFloat", t, RangeError))
                       else Success(Finite(v))
  {
    var u := if |t| > 0 && t[0] == '-' then t[1..] else t;
    UnsignedDecimalMantissa(u);
    UnsignedDecimalChars(u);
    var m := SplitMantissa(u);
    assert IsDigit(u[0]) by {
      assert u[..LeadingDigits(u)][0] == u[0];
    }
    assert !HexPrefixed(u);
    ReadUnsigned(u);
    ReadMantissa(u, m.intPart, m.fracPart);
    assert ReadFloat(t).Some? by {
      if t[0] == '-' {
        assert t[1..] == u;
      }
    }
    NumberNotSpecial(t);
    assert NoUnderscore(t) by {
      forall i | 0 <= i < |t| ensures t[i] != '_' {
        if t[0] == '-' && i > 0 {
          assert t[i] == u[i - 1];
        }
      }
    }
    ParseNumeral(t, ReadFloat(t).value);
  }

  /** Digits alone never fail `strconv.ParseUint` for their syntax. */
  lemma DigitsNoSyntaxError(s: string, max: nat)
    requires |s| > 0 && AllDigits(s)
    ensures ParseUint(s, max) != Failure(SyntaxError)
  {
    LeadingDigitsOf(s, "");
    assert s + "" == s && s[..|s|] == s;
  }

  /** Text of the shape `-?\d+` can fail `strconv.ParseInt` only for its
      range. */
  lemma SignedIntegerNoSyntaxError(s: string)
    ensures SignedInteger(s) && ParseInt32(s).Failure? ==> ParseInt32(s).error.reason == RangeError
  {
    if SignedInteger(s) {
      var u := if s[0] == '-' then s[1..] else s;
      DigitsNoSyntaxError(u, 0xFFFF_FFFF);
    }
  }

  /** The captures of the coordinate expression `^(D),(D),(D),(D)$`, D
      being `-?\d+(?:\.\d+)?`: the four fields, when s is exactly four
      such fields joined by commas. */
  function PercentageFields(s: string): (r: Option<seq<string>>)
    ensures r.Some? ==> |r.value| == 4 && Join(r.value, ',') == s
    ensures r.Some? ==> forall i :: 0 <= i < 4 ==> SignedDecimal(r.value[i])
  {
    var fields := Split(s, ',');
    if |fields| == 4 && forall i :: 0 <= i < 4 ==> SignedDecimal(fields[i]) then
      JoinSplit(s, ',');
      Some(fields)
    else None
  }

  /** Four decimal fields joined by commas match, with those captures. */
  lemma PercentageFieldsOf(fields: seq<string>)
    requires |fields| == 4 && forall i :: 0 <= i < 4 ==> SignedDecimal(fields[i])
    ensures PercentageFields(Join(fields, ',')) == Some(fields)
  {
    forall i | 0 <= i < 4 ensures !Contains(fields[i], ',') {
      SignedDecimalNoComma(fields[i]);
    }
    SplitJoin(fields, ',');
  }

  /** The captures of the pixel expression `^(I),(I),(I),(I)$`, I being
      `-?\d+`. */
  function RectangleFields(s: string): (r: Option<seq<string>>)
    ensures r.Some? ==> |r.value| == 4 && Join(r.value, ',') == s
    ensures r.Some? ==> forall i :: 0 <= i < 4 ==> SignedInteger(r.value[i])
  {
    var fields := Split(s, ',');
    if |fields| == 4 && forall i :: 0 <= i < 4 ==> SignedInteger(fields[i]) then
      JoinSplit(s, ',');
      Some(fields)
    else None
  }

  lemma RectangleFieldsOf(fields: seq<string>)
    requires |fields| == 4 && forall i :: 0 <= i < 4 ==> SignedInteger(fields[i])
    ensures RectangleFields(Join(fields, ',')) == Some(fields)
  {
    forall i | 0 <= i < 4 ensures !Contains(fields[i], ',') {
      SignedIntegerNoComma(fields[i]);
    }
    SplitJoin(fields, ',');
  }

  /** A size as `parseWidthHeight` reads it: an optional '!', then two
      digit strings around a comma. */
  function WidthHeightText(bang: bool, a: string, b: string): string {
    (if bang then "!" else "") + (a + "," + b)
  }

  /** The captures of the size expression `^(!)?(\d+)?,(\d+)?$`: whether
      there is a '!', then the two digit strings, either possibly empty. */
  function WidthHeightFields(s: string): (r: Option<(bool, string, string)>)
    ensures r.Some? ==> AllDigits(r.value.1) && AllDigits(r.value.2)
    ensures r.Some? ==> s == WidthHeightText(r.value.0, r.value.1, r.value.2)
  {
    var bang := |s| > 0 && s[0] == '!';
    var rest := if bang then s[1..] else s;
    var fields := Split(rest, ',');
    if |fields| == 2 && AllDigits(fields[0]) && AllDigits(fields[1]) then
      SplitTwo(rest);
      assert s == if bang then "!" + rest else rest by {
        if bang {
          assert s == [s[0]] + s[1..];
        }
      }
      Some((bang, fields[0], fields[1]))
    else None
  }

  /** Text with two comma-separated fields is those fields joined. */
  lemma SplitTwo(s: string)
    requires |Split(s, ',')| == 2
    ensures s == Split(s, ',')[0] + "," + Split(s, ',')[1]
  {
    var fields := Split(s, ',');
    JoinSplit(s, ',');
    assert fields == [fields[0], fields[1]];
    JoinTwo(fields[0], fields[1]);
  }

  /** An optional '!' and two digit strings around a comma match, with
      those captures. */
  lemma WidthHeightFieldsOf(bang: bool, a: string, b: string)
    requires AllDigits(a) && AllDigits(b)
    ensures WidthHeightFields(WidthHeightText(bang, a, b)) == Some((bang, a, b))
  {
    var rest := a + "," + b;
    var s := WidthHeightText(bang, a, b);
    assert !Contains(a, ',') && !Contains(b, ',') by {
      assert forall i :: 0 <= i < |a| ==> IsDigit(a[i]);
      assert forall i :: 0 <= i < |b| ==> IsDigit(b[i]);
    }
    JoinTwo(a, b);
    SplitJoin([a, b], ',');
    if bang {
      assert s[1..] == rest;
    } else {
      assert s == rest;
      assert |s| > 0 && s[0] != '!' by {
        if |a| > 0 { assert s[0] == a[0]; } else { assert s[0] == ','; }
      }
    }
  }

  const CoordinatesPrefix: string := "Not a valid set of coordinates: "
  const WidthHeightPrefix: string := "Not a valid width/height: "
  const PercentagePrefix: string := "Invalid percentage number: "

  /** `parsePercentage`: a number from 0 to 100 as a fraction from 0 to 1;
      a conversion failure is passed on, and a number below 0 or above 100
      is an error naming the text. NaN is neither, and passes as NaN. */
  function ParsePercentage(s: string): (r: Result<Float, Error>)
    ensures r.Success? <==> ParseFloat(s).Success? && NotOutside(ParseFloat(s).value, 0.0, 100.0)
    ensures r.Success? ==> Times(100.0, r.value) == ParseFloat(s).value
    ensures r.Success? ==> NotOutside(r.value, 0.0, 1.0)
    ensures ParseFloat(s).Failure? ==> r == Failure(ConversionError(ParseFloat(s).error))
    ensures ParseFloat(s).Success? && r.Failure? ==> r == Failure(InvalidSpec(PercentagePrefix + s))
  {
    match ParseFloat(s)
    case Failure(e) => Failure(ConversionError(e))
    case Success(p) =>
      OutsideMeaning(p, 0.0, 100.0);
      OverTimes(p, 100.0);
      if Less(p, 0.0) || Greater(p, 100.0) then Failure(InvalidSpec(PercentagePrefix + s))
      else Success(Over(p, 100.0))
  }

  /** `parsePercentageCoords`: four percentages as a relative region. Every
      field has the shape of a decimal number, so conversion fails only for
      a magnitude that rounds to an infinity, and no field is NaN; the
      other errors are a mismatch and a percentage out of range, and a
      region that comes out is always valid. */
  function ParsePercentageCoords(s: string): (r: Result<RelativeRegion, Error>)
    ensures r.Success? ==> r.value.Valid()
    ensures r.Failure? ==> r.error.InvalidSpec? || (r.error.ConversionError? && r.error.numError.reason == RangeError)
    ensures PercentageFields(s).None? ==> r == Failure(InvalidSpec(CoordinatesPrefix + s))
  {
    match PercentageFields(s)
    case None => Failure(InvalidSpec(CoordinatesPrefix + s))
    case Some(f) => ConvertPercentages(f)
  }

  /** A decimal field converts to a finite percentage, or fails out of
      range. */
  lemma DecimalPercentage(t: string)
    requires SignedDecimal(t)
    ensures ParsePercentage(t).Success? ==> ParsePercentage(t).value.Finite?
    ensures ParsePercentage(t).Failure? ==>
      ParsePercentage(t).error.InvalidSpec? || (ParsePercentage(t).error.ConversionError? && ParsePercentage(t).error.numError.reason == RangeError)
  {
    SignedDecimalParses(t);
  }

  /** The four matched fields converted, and the region they give. */
  function ConvertPercentages(f: seq<string>): (r: Result<RelativeRegion, Error>)
    requires |f| == 4 && forall i :: 0 <= i < 4 ==> SignedDecimal(f[i])
    ensures r.Success? ==> r.value.Valid()
    ensures r.Failure? ==> r.error.InvalidSpec? || (r.error.ConversionError? && r.error.numError.reason == RangeError)
  {
    DecimalPercentage(f[0]);
    DecimalPercentage(f[1]);
    DecimalPercentage(f[2]);
    DecimalPercentage(f[3]);
    var x :- ParsePercentage(f[0]);
    var y :- ParsePercentage(f[1]);
    var w :- ParsePercentage(f[2]);
    var h :- ParsePercentage(f[3]);
    match NewRelativeRegion(x, y, w, h)
    case Failure(e) => assert false; Failure(CoordinatesError(e))
    case Success(region) => Success(region)
  }

  /** The fields are converted in x, y, w, h order: the first one that
      fails gives the error. */
  lemma FirstBadPercentage(s: string, k: nat)
    requires PercentageFields(s).Some? && k < 4
    requires ParsePercentage(PercentageFields(s).value[k]).Failure?
    requires forall j :: 0 <= j < k ==> ParsePercentage(PercentageFields(s).value[j]).Success?
    ensures ParsePercentageCoords(s) == Failure(ParsePercentage(PercentageFields(s).value[k]).error)
  {
    var f := PercentageFields(s).value;
    if k > 0 { assert ParsePercentage(f[0]).Success?; }
    if k > 1 { assert ParsePercentage(f[1]).Success?; }
    if k > 2 { assert ParsePercentage(f[2]).Success?; }
  }

  /** Finding, as written: NaN is neither below 0 nor above 100, so
      `parsePercentage` lets "NaN" through as a NaN fraction. */
  lemma PercentageAcceptsNaN()
    ensures ParsePercentage("NaN") == Success(NaN)
  {
    SpecialExamples();
  }

  /** Corrected `parsePercentage`: the range test written as "from 0 to
      100", which NaN fails, so every fraction that comes out is a finite
      value from 0 to 1. */
  function ParsePercentageChecked(s: string): (r: Result<Float, Error>)
    ensures r.Success? <==> ParseFloat(s).Success? && ParseFloat(s).value.Finite?
                            && 0.0 <= ParseFloat(s).value.value <= 100.0
    ensures r.Success? ==> r.value.Finite? && 0.0 <= r.value.value <= 1.0
                           && 100.0 * r.value.value == ParseFloat(s).value.value
    ensures ParseFloat(s).Failure? ==> r == Failure(ConversionError(ParseFloat(s).error))
    ensures ParseFloat(s).Success? && r.Failure? ==> r == Failure(InvalidSpec(PercentagePrefix + s))
  {
    match ParseFloat(s)
    case Failure(e) => Failure(ConversionError(e))
    case Success(p) =>
      if !(AtLeast(p, 0.0) && AtMost(p, 100.0)) then Failure(InvalidSpec(PercentagePrefix + s))
      else Success(Over(p, 100.0))
  }

  /** The corrected conversion differs from the one as written exactly on
      the text that reads as NaN. */
  lemma PercentageCheckedAgrees(s: string)
    ensures ParsePercentageChecked(s) == ParsePercentage(s) <==> ParseFloat(s) != Success(NaN)
  {
    if ParseFloat(s).Success? {
      OutsideMeaning(ParseFloat(s).value, 0.0, 100.0);
    }
  }

  lemma ConvertPercentagesOf(f: seq<string>, x: real, y: real, w: real, h: real)
    requires |f| == 4 && forall i :: 0 <= i < 4 ==> SignedDecimal(f[i])
    requires ParsePercentage(f[0]) == Success(Finite(x)) && ParsePercentage(f[1]) == Success(Finite(y))
    requires ParsePercentage(f[2]) == Success(Finite(w)) && ParsePercentage(f[3]) == Success(Finite(h))
    ensures ConvertPercentages(f) == Success(RelativeRegion(x, y, w, h))
  {
  }

  /** `parsePixelComponent`: `strconv.ParseInt(s, 10, 32)`, its error
      passed on. Text of the shape `-?\d+` can only be out of range. */
  function ParsePixelComponent(s: string): (r: Result<int, Error>)
    ensures r.Success? ==> Int32Min <= r.value <= Int32Max
    ensures r.Failure? ==> r.error.ConversionError? && r.error.numError.num == s
    ensures SignedInteger(s) && r.Failure? ==> r.error.numError.reason == RangeError
  {
    SignedIntegerNoSyntaxError(s);
    match ParseInt32(s)
    case Failure(e) => Failure(ConversionError(e))
    case Success(v) => Success(v)
  }

  /** A 32-bit value printed with `%d` converts back to itself. */
  lemma PixelComponentOf(n: int)
    requires Int32Min <= n <= Int32Max
    ensures ParsePixelComponent(IntToString(n)) == Success(n)
  {
    ParseIntToString(n);
  }

  /** Digits alone convert to a value that is not negative. */
  lemma UnsignedComponent(s: string)
    requires |s| > 0 && AllDigits(s)
    ensures ParsePixelComponent(s).Success? ==> ParsePixelComponent(s).value >= 0
  {
    assert IsDigit(s[0]);
  }

  /** `parseRectangle`: x,y,w,h in pixels as the rectangle from (x, y) to
      (x + w, y + h), a negative width or height taken as 0. */
  function ParseRectangle(s: string): (r: Result<Rectangle, Error>)
    ensures r.Success? ==> r.value.Canonical()
    ensures r.Failure? ==>
      r.error == InvalidSpec(CoordinatesPrefix + s) || (r.error.ConversionError? && r.error.numError.reason == RangeError)
    ensures RectangleFields(s).None? ==> r == Failure(InvalidSpec(CoordinatesPrefix + s))
  {
    match RectangleFields(s)
    case None => Failure(InvalidSpec(CoordinatesPrefix + s))
    case Some(f) => ConvertRectangle(f)
  }

  /** The four matched fields converted, and the rectangle they span. */
  function ConvertRectangle(f: seq<string>): (r: Result<Rectangle, Error>)
    requires |f| == 4
    ensures r.Success? ==> r.value.Canonical()
    ensures r.Failure? ==> r.error.ConversionError?
    ensures r.Failure? && (forall i :: 0 <= i < 4 ==> SignedInteger(f[i])) ==> r.error.numError.reason == RangeError
  {
    var x :- ParsePixelComponent(f[0]);
    var y :- ParsePixelComponent(f[1]);
    var w :- ParsePixelComponent(f[2]);
    var h :- ParsePixelComponent(f[3]);
    Success(Span(x, y, w, h))
  }

  /** The rectangle at (x, y) of width w and height h, a negative width or
      height taken as 0. */
  function Span(x: int, y: int, w: int, h: int): (r: Rectangle)
    ensures r == Rectangle(Point(x, y), Point(x + Max(w, 0), y + Max(h, 0)))
  {
    var w' := if w < 0 then 0 else w;
    var h' := if h < 0 then 0 else h;
    Rect(x, y, x + w', y + h').Canon()
  }

  /** Four 32-bit values printed with `%d` and joined by commas give the
      rectangle at (x, y) of width w and height h, each clamped at 0. */
  lemma RectangleOf(s: string, x: int, y: int, w: int, h: int)
    requires Int32Min <= x <= Int32Max && Int32Min <= y <= Int32Max
    requires Int32Min <= w <= Int32Max && Int32Min <= h <= Int32Max
    requires s == IntToString(x) + "," + IntToString(y) + "," + IntToString(w) + "," + IntToString(h)
    ensures ParseRectangle(s) == Success(Rectangle(Point(x, y), Point(x + Max(w, 0), y + Max(h, 0))))
  {
    var fields := [IntToString(x), IntToString(y), IntToString(w), IntToString(h)];
    assert RectangleFields(s) == Some(fields) by {
      IntegerShape(fields[0], x);
      IntegerShape(fields[1], y);
      IntegerShape(fields[2], w);
      IntegerShape(fields[3], h);
      JoinFour(fields[0], fields[1], fields[2], fields[3]);
      RectangleFieldsOf(fields);
    }
    PixelComponentOf(x);
    PixelComponentOf(y);
    PixelComponentOf(w);
    PixelComponentOf(h);
    RectangleFromFields(s, fields, x, y, w, h);
  }

  /** The rectangle of four matched and converted fields. */
  lemma RectangleFromFields(s: string, fields: seq<string>, x: int, y: int, w: int, h: int)
    requires RectangleFields(s) == Some(fields)
    requires ParsePixelComponent(fields[0]) == Success(x) && ParsePixelComponent(fields[1]) == Success(y)
    requires ParsePixelComponent(fields[2]) == Success(w) && ParsePixelComponent(fields[3]) == Success(h)
    ensures ParseRectangle(s) == Success(Rectangle(Point(x, y), Point(x + Max(w, 0), y + Max(h, 0))))
  {
    ConvertRectangleOf(fields, x, y, w, h);
  }

  lemma ConvertRectangleOf(f: seq<string>, x: int, y: int, w: int, h: int)
    requires |f| == 4
    requires ParsePixelComponent(f[0]) == Success(x) && ParsePixelComponent(f[1]) == Success(y)
    requires ParsePixelComponent(f[2]) == Success(w) && ParsePixelComponent(f[3]) == Success(h)
    ensures ConvertRectangle(f) == Success(Span(x, y, w, h))
  {
  }

  /** `%d` output has the shape `-?\d+`. */
  lemma IntegerShape(s: string, n: int)
    requires s == IntToString(n)
    ensures SignedInteger(s)
  {
    var m: nat := if n < 0 then -n else n;
    NatToDigitsValue(m);
    if n < 0 {
      assert s[1..] == NatToDigits(m);
    } else {
      assert IsDigit(s[0]);
    }
  }

  /** The parsed width and height of a size, and whether it is a best fit. */
  datatype WidthHeight = WidthHeight(width: Option<int>, height: Option<int>, bestFit: bool)

  /** A capture that may be empty: absent when empty, else a pixel value. */
  function OptionalComponent(s: string): (r: Result<Option<int>, Error>)
    requires AllDigits(s)
    ensures r.Success? ==> (r.value.None? <==> s == "")
    ensures r.Success? && r.value.Some? ==> 0 <= r.value.value <= Int32Max
  {
    if s == "" then Success(None)
    else
      UnsignedComponent(s);
      var v :- ParsePixelComponent(s);
      Success(Some(v))
  }

  /** `parseWidthHeight`: `w,h`, `w,`, `,h` or `!w,h`; a best fit only when
      both sides are given after a '!'. */
  function ParseWidthHeight(s: string): (r: Result<WidthHeight, Error>)
    ensures r.Success? ==> r.value.bestFit ==> r.value.width.Some? && r.value.height.Some?
    ensures r.Success? ==> r.value.width.Some? ==> 0 <= r.value.width.value <= Int32Max
    ensures r.Success? ==> r.value.height.Some? ==> 0 <= r.value.height.value <= Int32Max
    ensures WidthHeightFields(s).None? ==> r == Failure(InvalidSpec(WidthHeightPrefix + s))
  {
    match WidthHeightFields(s)
    case None => Failure(InvalidSpec(WidthHeightPrefix + s))
    case Some((bang, a, b)) =>
      var w :- OptionalComponent(a);
      var h :- OptionalComponent(b);
      Success(WidthHeight(w, h, w.Some? && h.Some? && bang))
  }

  /** The text of an optional side: `%d` of the value, or nothing. */
  function SideString(v: Option<int>): string {
    if v.Some? then IntToString(v.value) else ""
  }

  /** A written width and height read back: the same sides, and a best
      fit only if both are present. */
  lemma WidthHeightOf(w: Option<int>, h: Option<int>, bestFit: bool)
    requires w.Some? ==> 0 <= w.value <= Int32Max
    requires h.Some? ==> 0 <= h.value <= Int32Max
    ensures ParseWidthHeight(WidthHeightText(bestFit, SideString(w), SideString(h)))
         == Success(WidthHeight(w, h, bestFit && w.Some? && h.Some?))
  {
    var a, b := SideString(w), SideString(h);
    if w.Some? {
      NatToDigitsValue(w.value);
      PixelComponentOf(w.value);
    }
    if h.Some? {
      NatToDigitsValue(h.value);
      PixelComponentOf(h.value);
    }
    WidthHeightFieldsOf(bestFit, a, b);
  }

  /** A fraction written as a percentage and read back: the percentage
      rounded to ten decimals, as a fraction. */
  function RoundedFraction(v: real): real {
    DecimalRound(Percent(v), 10) / 100.0
  }

  /** Percentages that are written, then read: a fraction from 0 to 1
      printed as a percentage by `formatCompactFloat` has the decimal
      shape, and reads back as that percentage rounded to ten decimals,
      still from 0 to 1. */
  lemma PercentageOf(v: real)
    requires 0.0 <= v <= 1.0
    ensures SignedDecimal(PercentString(v))
    ensures ParsePercentage(PercentString(v)) == Success(Finite(RoundedFraction(v)))
  {
    var x := Percent(v);
    RoundedPercentage(x);
    CompactFloatParses(x);
    var s := PercentString(v);
    UnsignedIsSigned(s);
    PercentageInRange(s, DecimalRound(x, 10));
    assert ParsePercentage(s).value == Finite(RoundedFraction(v));
  }

  /** An unsigned decimal starts with a digit, so it is also signed. */
  lemma UnsignedIsSigned(s: string)
    requires UnsignedDecimal(s)
    ensures SignedDecimal(s)
  {
    assert LeadingDigits(s) > 0;
    assert s[..LeadingDigits(s)][0] == s[0];
  }

  /** A text that converts to a number from 0 to 100 is that percentage. */
  lemma PercentageInRange(s: string, p: real)
    requires ParseFloat(s) == Success(Finite(p)) && 0.0 <= p <= 100.0
    ensures ParsePercentage(s) == Success(Finite(p / 100.0))
  {
    var r := ParsePercentage(s);
    assert r.Success? && r.value.Finite?;
    assert 100.0 * r.value.value == p;
    assert r.value == Finite(p / 100.0);
  }

  /** Rounding to ten decimals keeps a percentage from 0 to 100. */
  lemma RoundedPercentage(p: real)
    requires 0.0 <= p <= 100.0
    ensures 0.0 <= DecimalRound(p, 10) <= 100.0
  {
    var q := Pow10(10);
    var n := ScaledDigits(p, 10);
    assert p * q as real <= 100.0 * q as real;
    assert n as real <= 100.0 * q as real + 0.5;
    assert n <= 100 * q;
    assert DecimalRound(p, 10) == n as real / q as real;
  }

  /** The region of a written percentage quadruple, each side rounded to
      ten decimals of a percent. */
  function RoundedRegion(r: RelativeRegion): RelativeRegion {
    RelativeRegion(RoundedFraction(r.x), RoundedFraction(r.y), RoundedFraction(r.w), RoundedFraction(r.h))
  }

  /** The four percentages of a valid region read back as the region, each
      side rounded to ten decimals of a percent. */
  lemma PercentageCoordsOf(r: RelativeRegion)
    requires r.Valid()
    ensures ParsePercentageCoords(PercentString(r.x) + "," + PercentString(r.y) + ","
              + PercentString(r.w) + "," + PercentString(r.h))
         == Success(RoundedRegion(r))
  {
    PercentageOf(r.x);
    PercentageOf(r.y);
    PercentageOf(r.w);
    PercentageOf(r.h);
    PercentagesJoined(PercentString(r.x), PercentString(r.y), PercentString(r.w), PercentString(r.h),
                      RoundedFraction(r.x), RoundedFraction(r.y), RoundedFraction(r.w), RoundedFraction(r.h));
  }

  /** Four decimal fields joined by commas, each converting to its
      percentage, give the region of those percentages. */
  lemma PercentagesJoined(a: string, b: string, c: string, d: string, x: real, y: real, w: real, h: real)
    requires SignedDecimal(a) && SignedDecimal(b) && SignedDecimal(c) && SignedDecimal(d)
    requires ParsePercentage(a) == Success(Finite(x)) && ParsePercentage(b) == Success(Finite(y))
    requires ParsePercentage(c) == Success(Finite(w)) && ParsePercentage(d) == Success(Finite(h))
    ensures ParsePercentageCoords(a + "," + b + "," + c + "," + d) == Success(RelativeRegion(x, y, w, h))
  {
    FourPercentageFields(a, b, c, d);
    ConvertPercentagesOf([a, b, c, d], x, y, w, h);
    CoordinatesOfFields(a + "," + b + "," + c + "," + d, [a, b, c, d], RelativeRegion(x, y, w, h));
  }

  /** Four decimal fields joined by commas are matched as those fields. */
  lemma FourPercentageFields(a: string, b: string, c: string, d: string)
    requires SignedDecimal(a) && SignedDecimal(b) && SignedDecimal(c) && SignedDecimal(d)
    ensures PercentageFields(a + "," + b + "," + c + "," + d) == Some([a, b, c, d])
  {
    JoinFour(a, b, c, d);
    PercentageFieldsOf([a, b, c, d]);
  }

  /** Text whose four fields convert to a region parses to it. */
  lemma CoordinatesOfFields(s: string, fields: seq<string>, region: RelativeRegion)
    requires PercentageFields(s) == Some(fields)
    requires |fields| == 4 && forall i :: 0 <= i < 4 ==> SignedDecimal(fields[i])
    requires ConvertPercentages(fields) == Success(region)
    ensures ParsePercentageCoords(s) == Success(region)
  {
  }

  lemma ShiftedText()
    ensures "-10,-10,100,100" == IntToString(-10) + "," + IntToString(-10) + "," + IntToString(100) + "," + IntToString(100)
  {
    assert NatToDigits(1) == "1" && NatToDigits(0) == "0";
    assert NatToDigits(10) == "10";
    assert NatToDigits(100) == "100";
  }

  /** The example of the region tests with a negative origin: the size
      is kept. */
  lemma RectangleExample()
    ensures ParseRectangle("-10,-10,100,100") == Success(Rectangle(Point(-10, -10), Point(90, 90)))
  {
    ShiftedText();
    RectangleOf("-10,-10,100,100", -10, -10, 100, 100);
  }

  lemma NegativeText()
    ensures "0,0,-100,-100" == IntToString(0) + "," + IntToString(0) + "," + IntToString(-100) + "," + IntToString(-100)
  {
    assert NatToDigits(1) == "1" && NatToDigits(0) == "0";
    assert NatToDigits(10) == "10";
    assert NatToDigits(100) == "100";
  }

  /** The example of the region tests with a negative size: width and
      height are taken as 0, giving the empty rectangle at the origin. */
  lemma NegativeSizeExample()
    ensures ParseRectangle("0,0,-100,-100") == Success(Rectangle(Point(0, 0), Point(0, 0)))
  {
    NegativeText();
    ClampedRectangle("0,0,-100,-100", 0, 0, -100, -100);
  }

  /** Printed values with a width and height of at most 0 give the empty
      rectangle at (x, y). */
  lemma ClampedRectangle(s: string, x: int, y: int, w: int, h: int)
    requires Int32Min <= x <= Int32Max && Int32Min <= y <= Int32Max
    requires Int32Min <= w <= 0 && Int32Min <= h <= 0
    requires s == IntToString(x) + "," + IntToString(y) + "," + IntToString(w) + "," + IntToString(h)
    ensures ParseRectangle(s) == Success(Rectangle(Point(x, y), Point(x, y)))
  {
    RectangleOf(s, x, y, w, h);
    EmptyWhenClamped(ParseRectangle(s), x, y, w, h);
  }

  lemma EmptyWhenClamped(r: Result<Rectangle, Error>, x: int, y: int, w: int, h: int)
    requires w <= 0 && h <= 0
    requires r == Success(Rectangle(Point(x, y), Point(x + Max(w, 0), y + Max(h, 0))))
    ensures r == Success(Rectangle(Point(x, y), Point(x, y)))
  {
  }
}
