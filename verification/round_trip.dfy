/** Writing a request as text and reading it back (iiif/request.go,
    `Request.String` and `ParseSpec`). As written, `Request.String` leaves
    out the rotation segment, so no request it prints is accepted by the
    request grammar; with the rotation "0" in place the text reads back as
    the request, its numbers rounded the way `formatCompactFloat` prints
    them. */
module RoundTrip {
  import opened Wrappers
  import opened Rectangles
  import opened Geometry
  import opened Floats
  import opened Numerals
  import opened UrlEncoding
  import opened Iiif
  import opened Parsing
  import opened SpecParser

  /** A character `%d`, `strconv.FormatFloat` and `formatCompactFloat` may
      print, the special values "NaN", "+Inf" and "-Inf" included. */
  predicate NumeralChar(c: char) {
    PlainNumeralChar(c) || c == '+'
  }

  /** A numeral character that a query carries as it is: all but '+'. */
  predicate PlainNumeralChar(c: char) {
    IsDigit(c) || c == '-' || c == '.' || c == 'N' || c == 'a' || c == 'I' || c == 'n' || c == 'f'
  }

  predicate Numeral(s: string) {
    forall i :: 0 <= i < |s| ==> NumeralChar(s[i])
  }

  predicate PlainNumeral(s: string) {
    forall i :: 0 <= i < |s| ==> PlainNumeralChar(s[i])
  }

  lemma ContainsAppend(a: string, b: string, c: char)
    ensures Contains(a + b, c) <==> Contains(a, c) || Contains(b, c)
  {
    if Contains(a + b, c) {
      var i :| 0 <= i < |a + b| && (a + b)[i] == c;
      if i < |a| {
        assert a[i] == c;
      } else {
        assert b[i - |a|] == c;
      }
    }
    if Contains(a, c) {
      var i :| 0 <= i < |a| && a[i] == c;
      assert (a + b)[i] == c;
    }
    if Contains(b, c) {
      var i :| 0 <= i < |b| && b[i] == c;
      assert (a + b)[|a| + i] == c;
    }
  }

  /** Text without c, joined, is still without c. */
  lemma LacksAppend(a: string, b: string, c: char)
    requires !Contains(a, c) && !Contains(b, c)
    ensures !Contains(a + b, c)
  {
    ContainsAppend(a, b, c);
  }

  /** A numeral holds no character other than digits, '-' and '.'. */
  lemma NumeralLacks(s: string, c: char)
    requires Numeral(s) && !NumeralChar(c)
    ensures !Contains(s, c)
  {
  }

  lemma IntToStringNumeral(n: int)
    ensures Numeral(IntToString(n)) && |IntToString(n)| > 0
    ensures IsDigit(IntToString(n)[0]) || IntToString(n)[0] == '-'
  {
    var m: nat := if n < 0 then -n else n;
    NatToDigitsValue(m);
  }

  /** `FormatFixed` with at least one decimal: a sign and the integer
      digits, a point, and the fraction digits. */
  lemma FormatFixedSplit(x: real, prec: nat) returns (lead: string, frac: string)
    requires prec > 0
    ensures FormatFixed(x, prec) == lead + "." + frac
    ensures |lead| > 0 && PlainNumeral(lead) && AllDigits(frac)
  {
    var n := ScaledDigits(Abs(x), prec);
    var p := Pow10(prec);
    var q, r := Quotient(n, p), n % p;
    var digits := NatToDigits(q);
    assert |digits| > 0 && PlainNumeral(digits) by {
      NatToDigitsValue(q);
    }
    frac := PadLeft(NatToDigits(r), prec);
    assert AllDigits(frac) by {
      NatToDigitsValue(r);
      PadLeftValue(NatToDigits(r), prec);
    }
    lead := if x < 0.0 then "-" + digits else digits;
    assert PlainNumeral(lead);
  }

  /** Trailing zeros, then a trailing point, dropped from a numeral with a
      point leave a non-empty numeral. */
  lemma TrimmedNumeral(lead: string, frac: string)
    requires |lead| > 0 && PlainNumeral(lead) && AllDigits(frac)
    ensures var s := TrimPoint(TrimTrailingZeros(lead + "." + frac));
      PlainNumeral(s) && |s| > 0
  {
    var a := lead + ".";
    TrimAfterPoint(a, frac);
    var g := TrimTrailingZeros(frac);
    assert g == frac[..|g|];
    var t := a + g;
    assert PlainNumeral(t);
    assert lead + "." + frac == a + frac;
  }

  /** `formatCompactFloat` prints a non-empty numeral, and one without
      '+' unless the value is an infinity. */
  lemma CompactFloatNumeral(f: Float)
    ensures Numeral(CompactFloat(f)) && |CompactFloat(f)| > 0
    ensures !f.Inf? ==> PlainNumeral(CompactFloat(f))
  {
    match f
    case Finite(x) =>
      var lead, frac := FormatFixedSplit(x, 10);
      TrimmedNumeral(lead, frac);
    case NaN =>
      assert TrimTrailingZeros("NaN") == "NaN";
      assert CompactFloat(f) == "NaN";
    case Inf(negative) =>
      var t := if negative then "-Inf" else "+Inf";
      assert TrimTrailingZeros(t) == t;
      assert CompactFloat(f) == t;
  }

  /** A fraction printed as a percentage is a non-empty numeral. */
  lemma PercentStringNumeral(v: real)
    ensures Numeral(PercentString(v)) && |PercentString(v)| > 0
  {
    CompactFloatNumeral(Finite(Percent(v)));
  }

  /** A numeral without '+' is plain text in a query. */
  lemma NumeralPlain(s: string)
    requires PlainNumeral(s)
    ensures Plain(s)
  {
  }

  /** The names and fixed values of the optional parameters are plain. */
  lemma ExtraNamesPlain()
    ensures Plain("autoOrient") && Plain("true") && Plain("trimBorder")
    ensures Plain("scale") && Plain("down")
  {
  }

  /** The optional parameters are plain when the fuzziness text is. */
  lemma ExtraParamsPlain(autoOrient: bool, trimBorder: bool, fuzz: string, scaleDown: bool)
    requires Plain(fuzz)
    ensures var ps := ExtraParams(autoOrient, trimBorder, fuzz, scaleDown);
      forall i :: 0 <= i < |ps| ==> PlainParam(ps[i])
  {
    ExtraNamesPlain();
  }

  /** The optional parameters of a request are plain unless it trims
      with an infinite fuzziness, which prints with a '+'. */
  lemma ExtrasPlain(req: Request)
    requires req.trimBorder ==> !req.trimBorderFuzziness.Inf?
    ensures forall i :: 0 <= i < |req.Extras()| ==> PlainParam(req.Extras()[i])
  {
    var fuzz := CompactFloat(req.trimBorderFuzziness);
    if req.trimBorder {
      CompactFloatNumeral(req.trimBorderFuzziness);
      NumeralPlain(fuzz);
    }
    ExtraNamesPlain();
  }

  /** Plain text holds no character outside the plain ones. */
  lemma PlainLacks(s: string, c: char)
    requires Plain(s) && !PlainChar(c)
    ensures !Contains(s, c)
  {
  }

  /** No key or value of the optional parameters of any request holds c,
      for c neither a numeral character nor in a parameter name. */
  lemma ExtrasLack(req: Request, c: char)
    requires c == '/' || c == '\n'
    ensures forall i :: 0 <= i < |req.Extras()| ==>
      !Contains(req.Extras()[i].key, c) && !Contains(req.Extras()[i].value, c)
  {
    var fuzz := CompactFloat(req.trimBorderFuzziness);
    CompactFloatNumeral(req.trimBorderFuzziness);
    NumeralLacks(fuzz, c);
    ExtraNamesPlain();
    PlainLacks("autoOrient", c);
    PlainLacks("true", c);
    PlainLacks("trimBorder", c);
    PlainLacks("scale", c);
    PlainLacks("down", c);
    var ps := req.Extras();
    forall i | 0 <= i < |ps| ensures !Contains(ps[i].key, c) && !Contains(ps[i].value, c) {
      assert ps[i] in {Param("autoOrient", "true"), Param("trimBorder", fuzz), Param("scale", "down")};
    }
  }

  /** Parameters whose keys and values lack c, joined by '&', still lack
      c when c is neither '=' nor '&'. */
  lemma {:induction false} JoinParamsLacks(params: seq<Param>, c: char)
    requires forall i :: 0 <= i < |params| ==> !Contains(params[i].key, c) && !Contains(params[i].value, c)
    requires c != '=' && c != '&'
    ensures !Contains(JoinParams(params), c)
  {
    if params != [] {
      var p := params[0];
      ContainsAppend(p.key, "=", c);
      ContainsAppend(p.key + "=", p.value, c);
      if |params| > 1 {
        JoinParamsLacks(params[1..], c);
        ContainsAppend("&", JoinParams(params[1..]), c);
      }
      ContainsAppend(Piece(p), if |params| == 1 then "" else "&" + JoinParams(params[1..]), c);
    }
  }

  /** The query of a request holds neither '/' nor a line break. */
  lemma QueryLacks(req: Request, c: char)
    requires c == '/' || c == '\n'
    ensures !Contains(req.Query(), c)
  {
    var extras := req.Extras();
    if |extras| > 0 {
      ExtrasLack(req, c);
      JoinParamsLacks(extras, c);
      ContainsAppend("?", JoinParams(extras), c);
    }
  }

  /** Four numerals joined by commas hold no '/'. */
  lemma FourNoSlash(a: string, b: string, c: string, d: string)
    requires Numeral(a) && Numeral(b) && Numeral(c) && Numeral(d)
    ensures !Contains(a + "," + b + "," + c + "," + d, '/')
  {
    NumeralLacks(a, '/');
    NumeralLacks(b, '/');
    NumeralLacks(c, '/');
    NumeralLacks(d, '/');
    assert !Contains(",", '/');
    LacksAppend(a, ",", '/');
    LacksAppend(a + ",", b, '/');
    LacksAppend(a + "," + b, ",", '/');
    LacksAppend(a + "," + b + ",", c, '/');
    LacksAppend(a + "," + b + "," + c, ",", '/');
    LacksAppend(a + "," + b + "," + c + ",", d, '/');
  }

  /** Four percentages after "pct:" hold no '/'. */
  lemma PercentagesNoSlash(a: string, b: string, c: string, d: string)
    requires Numeral(a) && Numeral(b) && Numeral(c) && Numeral(d)
    ensures !Contains("pct:" + (a + "," + b + "," + c + "," + d), '/')
  {
    FourNoSlash(a, b, c, d);
    assert !Contains("pct:", '/');
    LacksAppend("pct:", a + "," + b + "," + c + "," + d, '/');
  }

  /** The written region is never empty and holds no '/'. */
  lemma RegionNoSlash(region: Region)
    ensures |region.String()| > 0 && !Contains(region.String(), '/')
  {
    match region
    case RegionFull =>
    case RegionSquare =>
    case RegionRelative(r) =>
      PercentStringNumeral(r.x);
      PercentStringNumeral(r.y);
      PercentStringNumeral(r.w);
      PercentStringNumeral(r.h);
      PercentagesNoSlash(PercentString(r.x), PercentString(r.y), PercentString(r.w), PercentString(r.h));
    case RegionAbsolute(rect) =>
      IntToStringNumeral(rect.min.x);
      IntToStringNumeral(rect.min.y);
      IntToStringNumeral(rect.Dx());
      IntToStringNumeral(rect.Dy());
      FourNoSlash(IntToString(rect.min.x), IntToString(rect.min.y), IntToString(rect.Dx()), IntToString(rect.Dy()));
  }

  /** Two optional numerals around a comma, after an optional '!', hold no
      '/'. */
  lemma SidesNoSlash(bang: bool, a: string, b: string)
    requires Numeral(a) && Numeral(b)
    ensures !Contains(WidthHeightText(bang, a, b), '/')
  {
    NumeralLacks(a, '/');
    NumeralLacks(b, '/');
    assert !Contains(",", '/') && !Contains("!", '/') && !Contains("", '/');
    LacksAppend(a, ",", '/');
    LacksAppend(a + ",", b, '/');
    LacksAppend(if bang then "!" else "", a + "," + b, '/');
  }

  lemma SideStringNumeral(v: Option<int>)
    ensures Numeral(SideString(v))
  {
    if v.Some? {
      IntToStringNumeral(v.value);
    }
  }

  /** A percentage after "pct:" holds no '/'. */
  lemma PercentNoSlash(f: Float)
    ensures !Contains("pct:" + CompactFloat(Times(100.0, f)), '/')
  {
    CompactFloatNumeral(Times(100.0, f));
    PrefixedNoSlash(CompactFloat(Times(100.0, f)));
  }

  lemma PrefixedNoSlash(s: string)
    requires Numeral(s)
    ensures !Contains("pct:" + s, '/')
  {
    NumeralLacks(s, '/');
    assert !Contains("pct:", '/');
    LacksAppend("pct:", s, '/');
  }

  /** The written size is never empty and holds no '/'. */
  lemma SizeNoSlash(size: Size)
    ensures |size.String()| > 0 && !Contains(size.String(), '/')
  {
    match size.kind
    case SizeFull =>
    case SizeMax =>
    case SizeRelative(f) =>
      PercentNoSlash(f);
    case SizeAbsolute(w, h, bestFit) =>
      SideStringNumeral(w);
      SideStringNumeral(h);
      SidesNoSlash(bestFit, SideString(w), SideString(h));
      assert size.String() == WidthHeightText(bestFit, SideString(w), SideString(h));
  }

  /** "default.", a format name and text without '/' hold no '/'. */
  lemma DefaultNoSlash(format: Format, q: string)
    requires !Contains(q, '/')
    ensures !Contains("default" + "." + (format.Name() + q), '/')
  {
    assert !Contains("default" + ".", '/') && !Contains(format.Name(), '/');
    LacksAppend(format.Name(), q, '/');
    LacksAppend("default" + ".", format.Name() + q, '/');
  }

  /** The quality, the format and the query hold no '/'. */
  lemma TailNoSlash(req: Request)
    ensures !Contains("default" + "." + (req.format.Name() + req.Query()), '/')
  {
    QueryLacks(req, '/');
    DefaultNoSlash(req.format, req.Query());
  }

  /** Text with three '/' between four parts that hold none. */
  lemma ThreeSlashes(a: string, b: string, c: string, d: string)
    requires !Contains(a, '/') && !Contains(b, '/') && !Contains(c, '/') && !Contains(d, '/')
    ensures CountChar(a + "/" + (b + "/" + (c + "/" + d)), '/') == 3
  {
    CountAbsent(a, '/');
    CountAbsent(b, '/');
    CountAbsent(c, '/');
    CountAbsent(d, '/');
    assert CountChar("/", '/') == 1;
    CountAppend(c, "/", '/');
    CountAppend(c + "/", d, '/');
    CountAppend(b, "/", '/');
    CountAppend(b + "/", c + "/" + d, '/');
    CountAppend(a, "/", '/');
    CountAppend(a + "/", b + "/" + (c + "/" + d), '/');
  }

  /** `Request.String` as written holds exactly three '/'. */
  lemma StringSlashes(req: Request)
    ensures CountChar(req.String(), '/') == 3
  {
    RegionNoSlash(req.region);
    SizeNoSlash(req.size);
    TailNoSlash(req);
    ThreeSlashes(QueryEscape(req.identifier), req.region.String(), req.size.String(),
                 "default" + "." + (req.format.Name() + req.Query()));
  }

  /** Finding, as written: no request printed by `Request.String` is
      accepted by `ParseSpec`, since the grammar needs four '/' and the
      rotation segment is never printed. */
  lemma StringNeverParses(req: Request)
    ensures Parse(req.String()) == Failure(InvalidSpec(NotValidSpec(req.String())))
  {
    StringSlashes(req);
    FewSlashesRejected(req.String());
  }

  /** A region the printer writes and the grammar reads back: a canonical
      rectangle whose numbers fit in 32 bits, or fractions from 0 to 1. */
  predicate RegionWellFormed(region: Region) {
    && (region.RegionAbsolute? ==>
          var rect := region.rect;
          && rect.Canonical()
          && Int32Min <= rect.min.x <= Int32Max && Int32Min <= rect.min.y <= Int32Max
          && rect.Dx() <= Int32Max && rect.Dy() <= Int32Max)
    && (region.RegionRelative? ==> region.relative.Valid())
  }

  /** A size the printer writes and the grammar reads back: sides that fit
      in 32 bits, or a fraction from 0 to 1. */
  predicate SizeWellFormed(size: Size) {
    && (size.kind.SizeAbsolute? ==>
          && (size.kind.width.Some? ==> 0 <= size.kind.width.value <= Int32Max)
          && (size.kind.height.Some? ==> 0 <= size.kind.height.value <= Int32Max))
    && (size.kind.SizeRelative? ==> NotOutside(size.kind.factor, 0.0, 1.0))
  }

  /** A request the printer writes and the grammar can read back: a
      non-empty identifier, a well-formed region and size, and a
      fuzziness the query accepts when trimming is on. */
  predicate WellFormed(req: Request) {
    && req.identifier != ""
    && RegionWellFormed(req.region)
    && SizeWellFormed(req.size)
    && (req.trimBorder ==> NotOutside(req.trimBorderFuzziness, 0.0, 0.999))
  }

  /** The region read back: fractions rounded to ten decimals of a
      percent. */
  function NormalRegion(region: Region): Region {
    match region
    case RegionRelative(r) => RegionRelative(RoundedRegion(r))
    case _ => region
  }

  /** A fraction read back: rounded to ten decimals of a percent when
      finite; NaN stays NaN. */
  function NormalFraction(f: Float): Float {
    match f
    case Finite(v) => Finite(RoundedFraction(v))
    case _ => f
  }

  /** The size read back: the fraction rounded, and a best fit only with
      both sides. */
  function NormalKind(kind: SizeKind): SizeKind {
    match kind
    case SizeRelative(f) => SizeRelative(NormalFraction(f))
    case SizeAbsolute(w, h, bestFit) => SizeAbsolute(w, h, bestFit && w.Some? && h.Some?)
    case _ => kind
  }

  /** The fuzziness read back: when trimming, rounded to ten decimals if
      finite and NaN if NaN; 0 otherwise. */
  function NormalFuzz(req: Request): Float {
    if !req.trimBorder then Finite(0.0)
    else match req.trimBorderFuzziness
      case Finite(v) => Finite(DecimalRound(v, 10))
      case f => f
  }

  /** The request a canonical text reads back as. Trimming stays on only
      if the printed fuzziness is above 0. */
  function Normalise(req: Request): Request {
    var fuzz := NormalFuzz(req);
    Request(req.identifier, NormalRegion(req.region), Size(NormalKind(req.size.kind), req.size.doNotEnlarge),
            req.format, req.autoOrient, Greater(fuzz, 0.0), fuzz)
  }

  /** The query capture of a list of parameters. */
  function QueryCapture(params: seq<Param>): Option<string> {
    if |params| > 0 then Some(JoinParams(params)) else None
  }

  /** The captures of a canonical text. */
  function CanonicalParts(req: Request): SpecParts {
    SpecParts(QueryEscape(req.identifier), req.region.String(), req.size.String(), "0", "default",
              req.format.Name(), QueryCapture(req.Extras()))
  }

  /** The canonical text is the text of its captures. */
  lemma CanonicalText(req: Request)
    ensures req.CanonicalString() == SpecText(CanonicalParts(req))
  {
    assert req.Query() == QuerySuffix(QueryCapture(req.Extras()));
  }

  /** The fixed captures of a canonical text have the grammar's shape. */
  lemma FixedCapturesShape(f: Format)
    ensures |"0"| > 0 && !Contains("0", '/') && |"default"| > 0 && !Contains("default", '.')
    ensures |f.Name()| > 0 && !Contains(f.Name(), '?')
  {
  }

  /** An escaped identifier holds no '/'. */
  lemma EscapedNoSlash(id: string)
    ensures !Contains(QueryEscape(id), '/')
  {
  }

  /** The captures of a well-formed request have the grammar's shape. */
  lemma CanonicalShape(req: Request)
    requires WellFormed(req)
    ensures SpecShape(CanonicalParts(req))
  {
    var p := CanonicalParts(req);
    assert |p.identifier| > 0 && !Contains(p.identifier, '/') by {
      EscapedNoSlash(req.identifier);
    }
    assert |p.region| > 0 && !Contains(p.region, '/') by {
      RegionNoSlash(req.region);
    }
    assert |p.size| > 0 && !Contains(p.size, '/') by {
      SizeNoSlash(req.size);
    }
    FixedCapturesShape(req.format);
    assert p.query.Some? ==> !Contains(p.query.value, '\n') by {
      if p.query.Some? {
        ExtrasLack(req, '\n');
        JoinParamsLacks(req.Extras(), '\n');
      }
    }
  }

  /** A canonical text matches at its start, with its own captures. */
  lemma MatchCanonical(req: Request)
    requires WellFormed(req)
    ensures FindSpec(req.CanonicalString()) == Some(CanonicalParts(req))
  {
    CanonicalText(req);
    CanonicalShape(req);
    MatchAtOf(CanonicalParts(req));
    FindSpecAtStart(req.CanonicalString());
  }

  /** Text that starts with a digit or '-' is none of the region and size
      keywords and has no "pct:" prefix. */
  lemma NotKeyword(s: string)
    requires |s| > 0 && (IsDigit(s[0]) || s[0] == '-')
    ensures !HasPrefix(s, "pct:") && s != "full" && s != "" && s != "square" && s != "max"
  {
  }

  /** Text that starts with "pct:" is none of the keywords. */
  lemma PercentNotKeyword(s: string, body: string)
    requires s == "pct:" + body
    ensures HasPrefix(s, "pct:") && s[4..] == body
    ensures s != "full" && s != "" && s != "square" && s != "max"
  {
    assert s[0] == 'p';
  }

  /** A written relative region reads back rounded. */
  lemma RelativeRegionRoundTrip(r: RelativeRegion)
    requires r.Valid()
    ensures ParseRegion(RegionRelative(r).String()) == Success(RegionRelative(RoundedRegion(r)))
  {
    PercentNotKeyword(RegionRelative(r).String(),
      PercentString(r.x) + "," + PercentString(r.y) + "," + PercentString(r.w) + "," + PercentString(r.h));
    PercentageCoordsOf(r);
  }

  /** Text that is no keyword reads as a region by `parseRectangle`. */
  lemma RegionOfRectangle(s: string, r: Rectangle)
    requires !HasPrefix(s, "pct:") && s != "full" && s != "" && s != "square"
    requires ParseRectangle(s) == Success(r)
    ensures ParseRegion(s) == Success(RegionAbsolute(r))
  {
  }

  /** Four 32-bit values printed with `%d` and joined by commas read back
      as a rectangle region. */
  lemma PixelsRoundTrip(s: string, x: int, y: int, w: int, h: int)
    requires Int32Min <= x <= Int32Max && Int32Min <= y <= Int32Max
    requires 0 <= w <= Int32Max && 0 <= h <= Int32Max
    requires s == IntToString(x) + "," + IntToString(y) + "," + IntToString(w) + "," + IntToString(h)
    ensures ParseRegion(s) == Success(RegionAbsolute(Rectangle(Point(x, y), Point(x + w, y + h))))
  {
    assert |s| > 0 && (IsDigit(s[0]) || s[0] == '-') by {
      IntToStringNumeral(x);
      assert s[0] == IntToString(x)[0];
    }
    NotKeyword(s);
    var r := Rectangle(Point(x, y), Point(x + w, y + h));
    assert Rectangle(Point(x, y), Point(x + Max(w, 0), y + Max(h, 0))) == r;
    RectangleOf(s, x, y, w, h);
    RegionOfRectangle(s, r);
  }

  /** A written rectangle reads back unchanged. */
  lemma AbsoluteRegionRoundTrip(rect: Rectangle)
    requires RegionWellFormed(RegionAbsolute(rect))
    ensures ParseRegion(RegionAbsolute(rect).String()) == Success(RegionAbsolute(rect))
  {
    var x, y, w, h := rect.min.x, rect.min.y, rect.Dx(), rect.Dy();
    var s := RegionAbsolute(rect).String();
    assert s == IntToString(x) + "," + IntToString(y) + "," + IntToString(w) + "," + IntToString(h);
    assert 0 <= w && 0 <= h && rect == Rectangle(Point(x, y), Point(x + w, y + h));
    PixelsRoundTrip(s, x, y, w, h);
  }

  /** The region of a well-formed request reads back normalised. */
  lemma RegionRoundTrip(region: Region)
    requires RegionWellFormed(region)
    ensures ParseRegion(region.String()) == Success(NormalRegion(region))
  {
    match region
    case RegionFull =>
    case RegionSquare =>
    case RegionRelative(r) => RelativeRegionRoundTrip(r);
    case RegionAbsolute(rect) => AbsoluteRegionRoundTrip(rect);
  }

  /** A written fraction of the size reads back rounded; NaN, written
      "pct:NaN", reads back as NaN. */
  lemma RelativeSizeRoundTrip(f: Float, doNotEnlarge: bool)
    requires NotOutside(f, 0.0, 1.0)
    ensures ParseSize(Size(SizeRelative(f), doNotEnlarge).String()) == Success(Size(SizeRelative(NormalFraction(f)), false))
  {
    var body := CompactFloat(Times(100.0, f));
    PercentNotKeyword(Size(SizeRelative(f), doNotEnlarge).String(), body);
    assert ParsePercentage(body) == Success(NormalFraction(f)) by {
      PercentageRoundTrip(f);
    }
  }

  /** A fraction printed as a percentage reads back as a fraction rounded
      to ten decimals of a percent; NaN reads back as NaN. */
  lemma PercentageRoundTrip(f: Float)
    requires NotOutside(f, 0.0, 1.0)
    ensures ParsePercentage(CompactFloat(Times(100.0, f))) == Success(NormalFraction(f))
  {
    if f.Finite? {
      FinitePercentageRoundTrip(f.value);
    } else {
      assert CompactFloat(Times(100.0, f)) == "NaN" by {
        CompactFloatExamples();
      }
      PercentageAcceptsNaN();
    }
  }

  lemma FinitePercentageRoundTrip(v: real)
    requires 0.0 <= v <= 1.0
    ensures ParsePercentage(CompactFloat(Times(100.0, Finite(v)))) == Success(Finite(RoundedFraction(v)))
  {
    var t := PercentString(v);
    assert ParsePercentage(t) == Success(Finite(RoundedFraction(v))) by {
      PercentageOf(v);
    }
    assert CompactFloat(Times(100.0, Finite(v))) == t by {
      assert Times(100.0, Finite(v)) == Finite(Percent(v));
    }
  }

  /** Text of the width-and-height shape is none of the keywords. */
  lemma SidesNotKeyword(bang: bool, a: string, b: string)
    requires |a| == 0 || IsDigit(a[0])
    ensures var s := WidthHeightText(bang, a, b);
      !HasPrefix(s, "pct:") && s != "full" && s != "" && s != "max"
  {
    var s := WidthHeightText(bang, a, b);
    assert s[0] == '!' || s[0] == ',' || IsDigit(s[0]);
  }

  /** A written width and height read back, with a best fit only when
      both are given. */
  lemma AbsoluteSizeRoundTrip(w: Option<int>, h: Option<int>, bestFit: bool, doNotEnlarge: bool)
    requires w.Some? ==> 0 <= w.value <= Int32Max
    requires h.Some? ==> 0 <= h.value <= Int32Max
    ensures ParseSize(Size(SizeAbsolute(w, h, bestFit), doNotEnlarge).String())
         == Success(Size(SizeAbsolute(w, h, bestFit && w.Some? && h.Some?), false))
  {
    var s := Size(SizeAbsolute(w, h, bestFit), doNotEnlarge).String();
    var a, b := SideString(w), SideString(h);
    assert s == WidthHeightText(bestFit, a, b);
    if w.Some? { NatToDigitsValue(w.value); }
    SidesNotKeyword(bestFit, a, b);
    WidthHeightOf(w, h, bestFit);
  }

  /** The size of a well-formed request reads back normalised, without
      the do-not-enlarge flag (that comes back through the query). */
  lemma SizeRoundTrip(size: Size)
    requires SizeWellFormed(size)
    ensures ParseSize(size.String()) == Success(Size(NormalKind(size.kind), false))
  {
    match size.kind
    case SizeFull =>
    case SizeMax =>
    case SizeRelative(f) => RelativeSizeRoundTrip(f, size.doNotEnlarge);
    case SizeAbsolute(w, h, bestFit) => AbsoluteSizeRoundTrip(w, h, bestFit, size.doNotEnlarge);
  }

  /** Parameters without `key` before others do not change what `Get`
      finds. */
  lemma {:induction false} GetAfter(xs: seq<Param>, ys: seq<Param>, key: string)
    requires forall i :: 0 <= i < |xs| ==> xs[i].key != key
    ensures Get(xs + ys, key) == Get(ys, key)
  {
    if xs != [] {
      assert (xs + ys)[0] == xs[0] && xs[0].key != key;
      assert (xs + ys)[1..] == xs[1..] + ys;
      assert Get(xs + ys, key) == Get(xs[1..] + ys, key);
      GetAfter(xs[1..], ys, key);
    } else {
      assert xs + ys == ys;
    }
  }

  lemma ExtraKeysDistinct()
    ensures "autoOrient" != "trimBorder" && "autoOrient" != "scale" && "trimBorder" != "scale"
  {
    assert "autoOrient"[0] != "trimBorder"[0];
    assert |"autoOrient"| != |"scale"| && |"trimBorder"| != |"scale"|;
  }

  /** The three groups of optional parameters, in order. */
  function Groups(autoOrient: bool, trimBorder: bool, fuzz: string, scaleDown: bool): (g: (seq<Param>, seq<Param>, seq<Param>))
    ensures g.0 + (g.1 + g.2) == ExtraParams(autoOrient, trimBorder, fuzz, scaleDown)
  {
    var a := if autoOrient then [Param("autoOrient", "true")] else [];
    var t := if trimBorder then [Param("trimBorder", fuzz)] else [];
    var d := if scaleDown then [Param("scale", "down")] else [];
    assert a + t + d == a + (t + d);
    (a, t, d)
  }

  /** The fuzziness is found under "trimBorder" exactly when it was
      written. */
  lemma GetTrimBorder(autoOrient: bool, trimBorder: bool, fuzz: string, scaleDown: bool)
    requires fuzz != ""
    ensures Get(ExtraParams(autoOrient, trimBorder, fuzz, scaleDown), "trimBorder") == (if trimBorder then fuzz else "")
  {
    var g := Groups(autoOrient, trimBorder, fuzz, scaleDown);
    ExtraKeysDistinct();
    GetAfter(g.0, g.1 + g.2, "trimBorder");
  }

  /** "true" is found under "autoOrient" exactly when it was written. */
  lemma GetAutoOrient(autoOrient: bool, trimBorder: bool, fuzz: string, scaleDown: bool)
    ensures Get(ExtraParams(autoOrient, trimBorder, fuzz, scaleDown), "autoOrient") == (if autoOrient then "true" else "")
  {
    var g := Groups(autoOrient, trimBorder, fuzz, scaleDown);
    ExtraKeysDistinct();
    if !autoOrient {
      GetAfter(g.0, g.1 + g.2, "autoOrient");
      GetAfter(g.1, g.2, "autoOrient");
    }
  }

  /** "down" is found under "scale" exactly when it was written. */
  lemma GetScale(autoOrient: bool, trimBorder: bool, fuzz: string, scaleDown: bool)
    ensures Get(ExtraParams(autoOrient, trimBorder, fuzz, scaleDown), "scale") == (if scaleDown then "down" else "")
  {
    var g := Groups(autoOrient, trimBorder, fuzz, scaleDown);
    ExtraKeysDistinct();
    GetAfter(g.0, g.1 + g.2, "scale");
    GetAfter(g.1, g.2, "scale");
  }

  /** Each optional parameter is found by its key exactly when it was
      written. */
  lemma GetExtraParams(autoOrient: bool, trimBorder: bool, fuzz: string, scaleDown: bool)
    requires fuzz != ""
    ensures var ps := ExtraParams(autoOrient, trimBorder, fuzz, scaleDown);
      && Get(ps, "trimBorder") == (if trimBorder then fuzz else "")
      && Get(ps, "autoOrient") == (if autoOrient then "true" else "")
      && Get(ps, "scale") == (if scaleDown then "down" else "")
  {
    GetTrimBorder(autoOrient, trimBorder, fuzz, scaleDown);
    GetAutoOrient(autoOrient, trimBorder, fuzz, scaleDown);
    GetScale(autoOrient, trimBorder, fuzz, scaleDown);
  }

  /** A fuzziness up to 0.999 is still up to 0.999 when rounded to ten
      decimals. */
  lemma RoundedFuzzInRange(fuzz: real)
    requires 0.0 <= fuzz <= 0.999
    ensures 0.0 <= DecimalRound(fuzz, 10) <= 0.999
  {
    var q := Pow10(10);
    var n := ScaledDigits(fuzz, 10);
    var bound := 999 * (q / 1000);
    assert q == 10000000000;
    assert fuzz * q as real <= bound as real;
    assert n as real <= bound as real + 0.5;
    assert n <= bound;
    assert DecimalRound(fuzz, 10) == n as real / q as real;
  }

  /** The optional parameters written with a fuzziness text that reads as
      `value`, read back onto a request without extras. */
  lemma ExtrasRoundTrip(base: Request, autoOrient: bool, trimBorder: bool, fuzz: string, scaleDown: bool, value: Float)
    requires Plain(fuzz) && fuzz != ""
    requires trimBorder ==> ParseFloat(fuzz) == Success(value) && NotOutside(value, 0.0, 0.999)
    requires !base.autoOrient && !base.trimBorder && base.trimBorderFuzziness == Finite(0.0) && !base.size.doNotEnlarge
    ensures var f := if trimBorder then value else Finite(0.0);
      ApplyQuery(base, QueryText(QueryCapture(ExtraParams(autoOrient, trimBorder, fuzz, scaleDown))))
        == Success(base.(autoOrient := autoOrient, trimBorder := Greater(f, 0.0), trimBorderFuzziness := f,
                         size := base.size.(doNotEnlarge := scaleDown)))
  {
    var extras := ExtraParams(autoOrient, trimBorder, fuzz, scaleDown);
    var f := if trimBorder then value else Finite(0.0);
    if |extras| > 0 {
      var q := JoinParams(extras);
      assert QueryText(QueryCapture(extras)) == q;
      assert q != "" by {
        assert |Piece(extras[0])| > 0;
      }
      assert ParseQuery(q) == Success(extras) by {
        ExtraParamsPlain(autoOrient, trimBorder, fuzz, scaleDown);
        ParseJoined(extras);
      }
      GetExtraParams(autoOrient, trimBorder, fuzz, scaleDown);
      var withTrim := base.(trimBorder := Greater(f, 0.0), trimBorderFuzziness := f);
      assert ApplyTrimBorder(base, Get(extras, "trimBorder")) == Success(withTrim);
      var withOrient := withTrim.(autoOrient := autoOrient);
      assert ApplyAutoOrient(withTrim, Get(extras, "autoOrient")) == Success(withOrient);
      assert ApplyScale(withOrient, Get(extras, "scale")) == Success(withOrient.(size := base.size.(doNotEnlarge := scaleDown)));
    }
  }

  /** The query of a request read back onto the request without extras. */
  lemma QueryRoundTrip(req: Request, base: Request)
    requires req.trimBorder ==> NotOutside(req.trimBorderFuzziness, 0.0, 0.999)
    requires !base.autoOrient && !base.trimBorder && base.trimBorderFuzziness == Finite(0.0) && !base.size.doNotEnlarge
    ensures ApplyQuery(base, QueryText(QueryCapture(req.Extras())))
         == Success(base.(autoOrient := req.autoOrient, trimBorder := Greater(NormalFuzz(req), 0.0),
                          trimBorderFuzziness := NormalFuzz(req),
                          size := base.size.(doNotEnlarge := req.size.doNotEnlarge)))
  {
    var x := req.trimBorderFuzziness;
    var fuzz := if req.trimBorder then CompactFloat(x) else "0";
    assert req.Extras() == ExtraParams(req.autoOrient, req.trimBorder, fuzz, req.size.doNotEnlarge);
    if req.trimBorder {
      CompactFloatNumeral(x);
      NumeralPlain(fuzz);
      match x
      case Finite(v) =>
        RoundedFuzzInRange(v);
        CompactFloatParses(v);
      case NaN =>
        CompactFloatExamples();
        SpecialExamples();
    } else {
      assert Plain("0");
    }
    ExtrasRoundTrip(base, req.autoOrient, req.trimBorder, fuzz, req.size.doNotEnlarge, NormalFuzz(req));
  }

  /** Captures whose segments each convert go on to the query. */
  lemma PartsThenQuery(parts: SpecParts, identifier: string, region: Region, size: Size, format: Format)
    requires UnescapeIdentifier(parts.identifier) == Success(identifier)
    requires ParseRegion(parts.region) == Success(region)
    requires ParseSize(parts.size) == Success(size)
    requires parts.rotation == "0" && parts.quality == "default"
    requires ParseFormat(parts.format) == Success(format)
    ensures ParseParts(parts) == ApplyQuery(Request(identifier, region, size, format, false, false, Finite(0.0)), QueryText(parts.query))
  {
  }

  /** The captures of a well-formed request convert back to the request,
      normalised. */
  lemma PartsRoundTrip(req: Request)
    requires WellFormed(req)
    ensures ParseParts(CanonicalParts(req)) == Success(Normalise(req))
  {
    var p := CanonicalParts(req);
    assert UnescapeIdentifier(p.identifier) == Success(req.identifier) by {
      UnescapeEscape(req.identifier);
    }
    assert ParseRegion(p.region) == Success(NormalRegion(req.region)) by {
      RegionRoundTrip(req.region);
    }
    var size := Size(NormalKind(req.size.kind), false);
    assert ParseSize(p.size) == Success(size) by {
      SizeRoundTrip(req.size);
    }
    assert ParseFormat(p.format) == Success(req.format) by {
      FormatNamesInverse();
    }
    PartsThenQuery(p, req.identifier, NormalRegion(req.region), size, req.format);
    var base := Request(req.identifier, NormalRegion(req.region), size, req.format, false, false, Finite(0.0));
    QueryRoundTrip(req, base);
  }

  /** Corrected: the canonical text of a well-formed request, with the
      rotation segment in place, reads back as the request with its
      numbers rounded the way they were printed. */
  lemma CanonicalRoundTrip(req: Request)
    requires WellFormed(req)
    ensures Parse(req.CanonicalString()) == Success(Normalise(req))
  {
    MatchCanonical(req);
    PartsRoundTrip(req);
  }

  /** A request already in its read-back form is read back exactly. */
  lemma NormalisedFixed(req: Request)
    requires req.region.RegionRelative? ==> RoundedRegion(req.region.relative) == req.region.relative
    requires req.size.kind.SizeRelative? ==> NormalFraction(req.size.kind.factor) == req.size.kind.factor
    requires req.size.kind.SizeAbsolute? && req.size.kind.bestFit ==> req.size.kind.width.Some? && req.size.kind.height.Some?
    requires req.trimBorder ==> req.trimBorderFuzziness.Finite? && req.trimBorderFuzziness.value > 0.0
                                && DecimalRound(req.trimBorderFuzziness.value, 10) == req.trimBorderFuzziness.value
    requires !req.trimBorder ==> req.trimBorderFuzziness == Finite(0.0)
    ensures Normalise(req) == req
  {
  }
}
