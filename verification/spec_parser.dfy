/** iiif/request.go, `ParseSpec` and its helpers: the request path
    `identifier/region/size/rotation/quality.format[?query]` matched
    against the request expression, then each part converted in turn. */
module SpecParser {
  import opened Wrappers
  import opened Rectangles
  import opened Geometry
  import opened Floats
  import opened Numerals
  import opened UrlEncoding
  import opened Iiif
  import opened Parsing

  /** The captures of the request expression: identifier, region, size,
      rotation, quality, format, and the query after a '?' if there is
      one. */
  datatype SpecParts = SpecParts(
    identifier: string,
    region: string,
    size: string,
    rotation: string,
    quality: string,
    format: string,
    query: Option<string>)

  /** `[^c]+c` at the start of t: the non-empty text before the first c,
      and what follows that c. */
  function CutAt(t: string, c: char): (r: Option<(string, string)>)
    ensures r.Some? ==> t == r.value.0 + [c] + r.value.1
    ensures r.Some? ==> |r.value.0| > 0 && !Contains(r.value.0, c)
  {
    var k := IndexOf(t, c);
    if 0 < k < |t| then
      assert t == t[..k] + [c] + t[k + 1..];
      Some((t[..k], t[k + 1..]))
    else None
  }

  /** Text that starts with a non-empty run without c, then c, is cut
      right there. */
  lemma CutAtOf(a: string, c: char, b: string)
    requires |a| > 0 && !Contains(a, c)
    ensures CutAt(a + [c] + b, c) == Some((a, b))
  {
    var t := a + [c] + b;
    assert t == a + ([c] + b);
    IndexOfJoin(a, [c] + b, c);
    assert t[..|a|] == a && t[|a| + 1..] == b;
  }

  /** What the request expression may end with: '?' and the query. */
  function QuerySuffix(query: Option<string>): string {
    if query.Some? then "?" + query.value else ""
  }

  /** The text whose captures are `parts`: four fields each followed by
      '/', the quality, '.', the format and the query suffix. */
  function SpecText(p: SpecParts): string {
    p.identifier + "/" + (p.region + "/" + (p.size + "/" + (p.rotation + "/"
      + (p.quality + "." + (p.format + QuerySuffix(p.query))))))
  }

  /** What each capture may hold: the first four no '/', the quality no
      '.', the format no '?', and the query no line break; all but the
      query non-empty. */
  predicate SpecShape(p: SpecParts) {
    && |p.identifier| > 0 && !Contains(p.identifier, '/')
    && |p.region| > 0 && !Contains(p.region, '/')
    && |p.size| > 0 && !Contains(p.size, '/')
    && |p.rotation| > 0 && !Contains(p.rotation, '/')
    && |p.quality| > 0 && !Contains(p.quality, '.')
    && |p.format| > 0 && !Contains(p.format, '?')
    && (p.query.Some? ==> !Contains(p.query.value, '\n'))
  }

  /** The tail `([^?]+)(?:\?(.*))?$` after the quality's '.': the format,
      and the query if a '?' follows it. */
  function MatchTail(t: string): (r: Option<(string, Option<string>)>)
    ensures r.Some? ==> |r.value.0| > 0 && !Contains(r.value.0, '?')
    ensures r.Some? ==> t == r.value.0 + QuerySuffix(r.value.1)
    ensures r.Some? && r.value.1.Some? ==> !Contains(r.value.1.value, '\n')
  {
    var k := IndexOf(t, '?');
    if k < |t| then
      var format, query := t[..k], t[k + 1..];
      if |format| > 0 && !Contains(query, '\n') then
        assert t == format + ("?" + query);
        Some((format, Some(query)))
      else None
    else if |t| > 0 then
      assert t == t + "";
      Some((t, None))
    else None
  }

  /** The request expression anchored at the start of t: each field runs
      up to the first separator that may end it, so a match is unique. */
  function MatchAt(t: string): (r: Option<SpecParts>)
    ensures r.Some? ==> SpecShape(r.value) && t == SpecText(r.value)
  {
    match CutAt(t, '/')
    case None => None
    case Some((identifier, r1)) =>
      match CutAt(r1, '/')
      case None => None
      case Some((region, r2)) =>
        match CutAt(r2, '/')
        case None => None
        case Some((size, r3)) =>
          match CutAt(r3, '/')
          case None => None
          case Some((rotation, r4)) =>
            match CutAt(r4, '.')
            case None => None
            case Some((quality, r5)) =>
              match MatchTail(r5)
              case None => None
              case Some((format, query)) =>
                Some(SpecParts(identifier, region, size, rotation, quality, format, query))
  }

  /** Every text of the expression's shape matches, with its own
      captures. */
  lemma MatchAtOf(p: SpecParts)
    requires SpecShape(p)
    ensures MatchAt(SpecText(p)) == Some(p)
  {
    var r5 := p.format + QuerySuffix(p.query);
    var r4 := p.quality + "." + r5;
    var r3 := p.rotation + "/" + r4;
    var r2 := p.size + "/" + r3;
    var r1 := p.region + "/" + r2;
    CutAtOf(p.identifier, '/', r1);
    CutAtOf(p.region, '/', r2);
    CutAtOf(p.size, '/', r3);
    CutAtOf(p.rotation, '/', r4);
    CutAtOf(p.quality, '.', r5);
    MatchTailOf(p.format, p.query);
  }

  lemma MatchTailOf(format: string, query: Option<string>)
    requires |format| > 0 && !Contains(format, '?')
    requires query.Some? ==> !Contains(query.value, '\n')
    ensures MatchTail(format + QuerySuffix(query)) == Some((format, query))
  {
    var t := format + QuerySuffix(query);
    IndexOfJoin(format, QuerySuffix(query), '?');
    if query.Some? {
      assert t[..|format|] == format && t[|format| + 1..] == query.value;
    } else {
      assert t == format;
    }
  }

  /** `FindStringSubmatch` on the unanchored expression: the match at the
      leftmost position from p on where there is one. */
  function FindFrom(s: string, p: nat): (r: Option<SpecParts>)
    requires p <= |s|
    ensures r.Some? ==> exists q :: p <= q <= |s| && MatchAt(s[q..]) == r
    decreases |s| - p
  {
    match MatchAt(s[p..])
    case Some(parts) => Some(parts)
    case None => if p == |s| then None else FindFrom(s, p + 1)
  }

  /** The match found is the leftmost: it is at some q from p on with no
      match between p and q. */
  lemma {:induction false} FindFromLeftmost(s: string, p: nat)
    requires p <= |s|
    ensures FindFrom(s, p).Some? ==>
      exists q :: p <= q <= |s| && MatchAt(s[q..]) == FindFrom(s, p)
                  && NoMatchIn(s, p, q)
    decreases |s| - p
  {
    if FindFrom(s, p).Some? {
      if MatchAt(s[p..]).Some? {
        assert NoMatchIn(s, p, p);
        assert MatchAt(s[p..]) == FindFrom(s, p);
      } else {
        assert p < |s| && FindFrom(s, p) == FindFrom(s, p + 1);
        FindFromLeftmost(s, p + 1);
        var q :| p + 1 <= q <= |s| && MatchAt(s[q..]) == FindFrom(s, p + 1)
                 && NoMatchIn(s, p + 1, q);
        assert NoMatchIn(s, p, q) by {
          NoMatchExtend(s, p, q);
        }
      }
    }
  }

  lemma NoMatchExtend(s: string, p: nat, q: nat)
    requires p < q <= |s| && MatchAt(s[p..]).None? && NoMatchIn(s, p + 1, q)
    ensures NoMatchIn(s, p, q)
  {
  }

  /** No position from lo up to hi matches. */
  predicate NoMatchIn(s: string, lo: nat, hi: nat)
    requires hi <= |s|
  {
    forall q :: lo <= q < hi ==> MatchAt(s[q..]).None?
  }

  /** Nothing is found only when no position from p on matches. */
  lemma {:induction false} FindFromNone(s: string, p: nat)
    requires p <= |s|
    ensures FindFrom(s, p).None? <==> forall q :: p <= q <= |s| ==> MatchAt(s[q..]).None?
    decreases |s| - p
  {
    if MatchAt(s[p..]).None? && p < |s| {
      assert FindFrom(s, p) == FindFrom(s, p + 1);
      FindFromNone(s, p + 1);
      assert (forall q :: p <= q <= |s| ==> MatchAt(s[q..]).None?)
        <==> (forall q :: p + 1 <= q <= |s| ==> MatchAt(s[q..]).None?);
    }
  }

  function FindSpec(s: string): Option<SpecParts> {
    FindFrom(s, 0)
  }

  /** A match at the very start is the one found. */
  lemma FindSpecAtStart(s: string)
    requires MatchAt(s).Some?
    ensures FindSpec(s) == MatchAt(s)
  {
    assert s[0..] == s;
  }

  /** The number of times c occurs in s. */
  function CountChar(s: string, c: char): nat {
    if s == "" then 0 else (if s[0] == c then 1 else 0) + CountChar(s[1..], c)
  }

  lemma {:induction false} CountAppend(a: string, b: string, c: char)
    ensures CountChar(a + b, c) == CountChar(a, c) + CountChar(b, c)
  {
    if a == "" {
      assert a + b == b;
    } else {
      assert (a + b)[1..] == a[1..] + b;
      CountAppend(a[1..], b, c);
    }
  }

  lemma {:induction false} CountSuffix(s: string, p: nat, c: char)
    requires p <= |s|
    ensures CountChar(s[p..], c) <= CountChar(s, c)
  {
    if p > 0 {
      assert s[p..] == s[1..][p - 1..];
      CountSuffix(s[1..], p - 1, c);
    }
  }

  lemma {:induction false} CountAbsent(s: string, c: char)
    requires !Contains(s, c)
    ensures CountChar(s, c) == 0
  {
    if s != "" {
      assert s[0] != c;
      assert !Contains(s[1..], c) by {
        forall i | 0 <= i < |s[1..]| ensures s[1..][i] != c {
          assert s[1..][i] == s[i + 1];
        }
      }
      CountAbsent(s[1..], c);
    }
  }

  /** Each cut at c takes one c away. */
  lemma CutCount(t: string, c: char)
    requires CutAt(t, c).Some?
    ensures CountChar(t, c) == 1 + CountChar(CutAt(t, c).value.1, c)
  {
    var (a, b) := CutAt(t, c).value;
    CountAppend(a + [c], b, c);
    CountAppend(a, [c], c);
    CountAbsent(a, c);
  }

  /** A match needs four slashes. */
  lemma MatchNeedsSlashes(t: string)
    requires MatchAt(t).Some?
    ensures CountChar(t, '/') >= 4
  {
    var r1 := CutAt(t, '/').value.1;
    var r2 := CutAt(r1, '/').value.1;
    var r3 := CutAt(r2, '/').value.1;
    CutCount(t, '/');
    CutCount(r1, '/');
    CutCount(r2, '/');
    CutCount(r3, '/');
  }

  /** Text with fewer than four slashes matches nowhere. */
  lemma {:induction false} FewSlashesNoMatch(s: string, p: nat)
    requires p <= |s| && CountChar(s, '/') < 4
    ensures FindFrom(s, p) == None
    decreases |s| - p
  {
    CountSuffix(s, p, '/');
    if MatchAt(s[p..]).Some? {
      MatchNeedsSlashes(s[p..]);
    }
    if p < |s| {
      FewSlashesNoMatch(s, p + 1);
    }
  }

  /** `parseBoolean`: exactly "true" or "false". */
  function ParseBoolean(value: string): (r: Result<bool, Error>)
    ensures r.Success? <==> value == "true" || value == "false"
    ensures r.Success? ==> (r.value <==> value == "true")
    ensures r.Failure? ==> r.error == InvalidSpec("not a boolean value: " + Quote(value))
  {
    if value == "true" then Success(true)
    else if value == "false" then Success(false)
    else Failure(InvalidSpec("not a boolean value: " + Quote(value)))
  }

  /** The message of a value out of range, each number with `%f`. */
  function RangeMessage(min: real, max: real, f: Float): string {
    "value outside of range " + FormatFixed(min, 6) + ".." + FormatFixed(max, 6) + ": " + FormatFloat(f, 6)
  }

  /** `parseFloat`: a number from min to max; a text that is no number
      and a number below min or above max are errors with their own
      messages. NaN is neither below nor above, and passes. */
  function ParseFloatInRange(value: string, min: real, max: real): (r: Result<Float, Error>)
    ensures r.Success? <==> ParseFloat(value).Success? && NotOutside(ParseFloat(value).value, min, max)
    ensures r.Success? ==> r.value == ParseFloat(value).value
    ensures ParseFloat(value).Failure? ==> r == Failure(InvalidSpec("not a floating-point value: " + Quote(value)))
    ensures ParseFloat(value).Success? && r.Failure? ==> r == Failure(InvalidSpec(RangeMessage(min, max, ParseFloat(value).value)))
  {
    match ParseFloat(value)
    case Failure(_) => Failure(InvalidSpec("not a floating-point value: " + Quote(value)))
    case Success(f) =>
      OutsideMeaning(f, min, max);
      if Less(f, min) || Greater(f, max) then Failure(InvalidSpec(RangeMessage(min, max, f)))
      else Success(f)
  }

  /** As written, the range test of `parseFloat` lets NaN through: a
      trim fuzziness "NaN" is accepted, and leaves trimming off. */
  lemma TrimBorderAcceptsNaN(req: Request)
    ensures ParseFloatInRange("NaN", 0.0, 0.999) == Success(NaN)
    ensures ApplyTrimBorder(req, "NaN") == Success(req.(trimBorderFuzziness := NaN, trimBorder := false))
  {
    SpecialExamples();
  }

  /** Corrected `parseFloat`: the range test written as "from min to
      max", which NaN fails, so every value that comes out is a finite
      number in range. */
  function ParseFloatInRangeChecked(value: string, min: real, max: real): (r: Result<Float, Error>)
    ensures r.Success? <==> ParseFloat(value).Success? && ParseFloat(value).value.Finite?
                            && min <= ParseFloat(value).value.value <= max
    ensures r.Success? ==> r.value == ParseFloat(value).value
    ensures ParseFloat(value).Failure? ==> r == Failure(InvalidSpec("not a floating-point value: " + Quote(value)))
    ensures ParseFloat(value).Success? && r.Failure? ==> r == Failure(InvalidSpec(RangeMessage(min, max, ParseFloat(value).value)))
  {
    match ParseFloat(value)
    case Failure(_) => Failure(InvalidSpec("not a floating-point value: " + Quote(value)))
    case Success(f) =>
      if !(AtLeast(f, min) && AtMost(f, max)) then Failure(InvalidSpec(RangeMessage(min, max, f)))
      else Success(f)
  }

  /** The corrected check differs from the one as written exactly on NaN. */
  lemma RangeCheckedAgrees(value: string, min: real, max: real)
    ensures ParseFloatInRangeChecked(value, min, max) == ParseFloatInRange(value, min, max)
        <==> ParseFloat(value) != Success(NaN)
  {
    if ParseFloat(value).Success? {
      OutsideMeaning(ParseFloat(value).value, min, max);
    }
  }

  /** `strings.HasPrefix`. */
  predicate HasPrefix(s: string, prefix: string) {
    |prefix| <= |s| && s[..|prefix|] == prefix
  }

  /** `parseRegion`: "full" (or nothing), "square", "pct:" and four
      percentages, or four pixel values. A relative region that comes out
      is valid and an absolute one canonical. */
  function ParseRegion(value: string): (r: Result<Region, Error>)
    ensures r.Success? && r.value.RegionRelative? ==> r.value.relative.Valid()
    ensures r.Success? && r.value.RegionAbsolute? ==> r.value.rect.Canonical()
    ensures r.Success? && r.value.RegionFull? ==> value == "full" || value == ""
    ensures r.Success? && r.value.RegionSquare? ==> value == "square"
    ensures value == "full" || value == "" ==> r == Success(RegionFull)
    ensures value == "square" ==> r == Success(RegionSquare)
  {
    if value == "full" || value == "" then Success(RegionFull)
    else if value == "square" then Success(RegionSquare)
    else if HasPrefix(value, "pct:") then
      var relative :- ParsePercentageCoords(value[4..]);
      Success(RegionRelative(relative))
    else
      var rect :- ParseRectangle(value);
      Success(RegionAbsolute(rect))
  }

  /** `parseSize`: "full" (or nothing), "max", "pct:" and a percentage,
      or a width and/or height. The do-not-enlarge flag is left unset. */
  function ParseSize(value: string): (r: Result<Size, Error>)
    ensures r.Success? ==> !r.value.doNotEnlarge
    ensures value == "full" || value == "" ==> r == Success(Size(SizeFull, false))
    ensures value == "max" ==> r == Success(Size(SizeMax, false))
    ensures r.Success? && r.value.kind.SizeRelative? ==> NotOutside(r.value.kind.factor, 0.0, 1.0)
    ensures r.Success? && r.value.kind.SizeAbsolute? ==>
      var k := r.value.kind;
      && (k.bestFit ==> k.width.Some? && k.height.Some?)
      && (k.width.Some? ==> 0 <= k.width.value <= Int32Max)
      && (k.height.Some? ==> 0 <= k.height.value <= Int32Max)
  {
    if value == "full" || value == "" then Success(Size(SizeFull, false))
    else if value == "max" then Success(Size(SizeMax, false))
    else if HasPrefix(value, "pct:") then
      var factor :- ParsePercentage(value[4..]);
      Success(Size(SizeRelative(factor), false))
    else
      var wh :- ParseWidthHeight(value);
      Success(Size(SizeAbsolute(wh.width, wh.height, wh.bestFit), false))
  }

  /** As written, a size "pct:NaN" is accepted, as a relative size whose
      factor is NaN. */
  lemma SizeAcceptsNaN()
    ensures ParseSize("pct:NaN") == Success(Size(SizeRelative(NaN), false))
  {
    var v := "pct:NaN";
    assert v != "full" && v != "" && v != "max";
    assert HasPrefix(v, "pct:") && v[4..] == "NaN";
    PercentageAcceptsNaN();
  }

  /** The rotation: only none or "0". */
  function CheckRotation(rotation: string): (r: Result<string, Error>)
    ensures r.Success? <==> rotation == "" || rotation == "0"
    ensures r.Failure? ==> r.error == InvalidSpec("unsupported rotation " + Quote(rotation))
  {
    if rotation == "" || rotation == "0" then Success(rotation)
    else Failure(InvalidSpec("unsupported rotation " + Quote(rotation)))
  }

  /** The quality: none, "color" or "default". */
  function CheckQuality(quality: string): (r: Result<string, Error>)
    ensures r.Success? <==> quality == "" || quality == "color" || quality == "default"
    ensures r.Failure? ==> r.error == InvalidSpec("unsupported quality " + Quote(quality))
  {
    if quality == "" || quality == "color" || quality == "default" then Success(quality)
    else Failure(InvalidSpec("unsupported quality " + Quote(quality)))
  }

  /** The format of a format name, looked up in the name map. */
  function ParseFormat(name: string): (r: Result<Format, Error>)
    ensures r.Success? <==> name in FormatNames()
    ensures r.Success? ==> r.value.Name() == name
    ensures r.Failure? ==> r.error == InvalidSpec("unsupported format " + Quote(name))
  {
    FormatNamesInverse();
    if name in FormatNames() then Success(FormatNames()[name])
    else Failure(InvalidSpec("unsupported format " + Quote(name)))
  }

  /** The identifier, unescaped. */
  function UnescapeIdentifier(s: string): (r: Result<string, Error>)
    ensures r.Success? <==> QueryUnescape(s).Success?
    ensures r.Success? ==> r.value == QueryUnescape(s).value
    ensures r.Failure? ==> r.error == UnescapeError(QueryUnescape(s).error)
  {
    match QueryUnescape(s)
    case Failure(e) => Failure(UnescapeError(e))
    case Success(id) => Success(id)
  }

  /** The trim fuzziness, when given: a number from 0 to 0.999 (or NaN),
      which becomes the fuzziness; trimming is on when it is above 0. The
      error is the conversion's. */
  function ApplyTrimBorder(req: Request, t: string): (r: Result<Request, Error>)
    ensures t != "" ==> (r.Success? <==> ParseFloatInRange(t, 0.0, 0.999).Success?)
    ensures t != "" && r.Failure? ==> r.error == ParseFloatInRange(t, 0.0, 0.999).error
    ensures r.Success? && t != "" ==>
      && r.value.trimBorderFuzziness == ParseFloat(t).value
      && NotOutside(r.value.trimBorderFuzziness, 0.0, 0.999)
      && (r.value.trimBorder <==> r.value.trimBorderFuzziness.Finite? && r.value.trimBorderFuzziness.value > 0.0)
      && r.value == req.(trimBorderFuzziness := r.value.trimBorderFuzziness, trimBorder := r.value.trimBorder)
    ensures t == "" ==> r == Success(req)
  {
    if t == "" then Success(req)
    else
      var fuzz :- ParseFloatInRange(t, 0.0, 0.999);
      Success(req.(trimBorderFuzziness := fuzz, trimBorder := Greater(fuzz, 0.0)))
  }

  /** Auto-orientation, when given: a boolean. */
  function ApplyAutoOrient(req: Request, t: string): (r: Result<Request, Error>)
    ensures t != "" ==> (r.Success? <==> t == "true" || t == "false")
    ensures t != "" && r.Failure? ==> r.error == InvalidSpec("not a boolean value: " + Quote(t))
    ensures r.Success? ==> r.value == req.(autoOrient := r.value.autoOrient)
    ensures r.Success? && t != "" ==> (r.value.autoOrient <==> t == "true")
    ensures t == "" ==> r == Success(req)
  {
    if t == "" then Success(req)
    else
      var b :- ParseBoolean(t);
      Success(req.(autoOrient := b))
  }

  /** The scale, when given: only "down", which forbids enlarging. */
  function ApplyScale(req: Request, t: string): (r: Result<Request, Error>)
    ensures r.Success? <==> t == "" || t == "down"
    ensures r.Success? && t != "" ==> t == "down" && r.value == req.(size := req.size.(doNotEnlarge := true))
    ensures t == "down" ==> r == Success(req.(size := req.size.(doNotEnlarge := true)))
    ensures t == "" ==> r == Success(req)
    ensures t != "" && t != "down" ==> r == Failure(InvalidSpec("not a valid scale: " + Quote(t)))
  {
    if t == "" then Success(req)
    else if t == "down" then Success(req.(size := req.size.(doNotEnlarge := true)))
    else Failure(InvalidSpec("not a valid scale: " + Quote(t)))
  }

  /** The query, when there is one: a query string that does not parse is
      an error; then trimBorder, autoOrient and scale in that order, each
      by its first value. */
  function ApplyQuery(req: Request, query: string): (r: Result<Request, Error>)
    ensures query == "" ==> r == Success(req)
    ensures r.Success? ==> r.value.identifier == req.identifier && r.value.region == req.region
    ensures r.Success? ==> r.value.size.kind == req.size.kind && r.value.format == req.format
    ensures r.Success? && r.value != req ==> ParseQuery(query).Success?
    ensures query != "" && ParseQuery(query).Failure? ==> r == Failure(InvalidSpec("invalid query string " + Quote(query)))
  {
    if query == "" then Success(req)
    else
      match ParseQuery(query)
      case Failure(_) => Failure(InvalidSpec("invalid query string " + Quote(query)))
      case Success(values) =>
        var withTrim :- ApplyTrimBorder(req, Get(values, "trimBorder"));
        var withOrient :- ApplyAutoOrient(withTrim, Get(values, "autoOrient"));
        ApplyScale(withOrient, Get(values, "scale"))
  }

  /** The text of an optional capture: the empty string when absent. */
  function QueryText(query: Option<string>): string {
    if query.Some? then query.value else ""
  }

  /** The request the captures describe, each converted in the order of
      `ParseSpec`; the first failure is the result. */
  function ParseParts(parts: SpecParts): (r: Result<Request, Error>)
    ensures r.Success? ==> parts.rotation == "" || parts.rotation == "0"
    ensures r.Success? ==> parts.quality == "" || parts.quality == "color" || parts.quality == "default"
    ensures r.Success? ==> r.value.format.Name() == parts.format
  {
    var identifier :- UnescapeIdentifier(parts.identifier);
    var region :- ParseRegion(parts.region);
    var size :- ParseSize(parts.size);
    var _ :- CheckRotation(parts.rotation);
    var _ :- CheckQuality(parts.quality);
    var format :- ParseFormat(parts.format);
    ApplyQuery(Request(identifier, region, size, format, false, false, Finite(0.0)), QueryText(parts.query))
  }

  /** The message of a path that does not match the request expression. */
  function NotValidSpec(spec: string): string {
    "not a valid spec: " + Quote(spec)
  }

  /** What `ParseSpec` returns: the request, or the first error. */
  function Parse(spec: string): (r: Result<Request, Error>)
    ensures FindSpec(spec).None? ==> r == Failure(InvalidSpec(NotValidSpec(spec)))
    ensures r.Success? ==> FindSpec(spec).Some? && r == ParseParts(FindSpec(spec).value)
  {
    match FindSpec(spec)
    case None => Failure(InvalidSpec(NotValidSpec(spec)))
    case Some(parts) => ParseParts(parts)
  }

  /** A successfully parsed request keeps the invariants the rest of the
      server relies on: a valid relative region, a canonical rectangle, a
      fraction from 0 to 1 (or NaN), and a fuzziness from 0 to 0.999 (or
      NaN) that is above 0 exactly when trimming is on. */
  predicate ParsedInvariant(req: Request) {
    && (req.region.RegionRelative? ==> req.region.relative.Valid())
    && (req.region.RegionAbsolute? ==> req.region.rect.Canonical())
    && (req.size.kind.SizeRelative? ==> NotOutside(req.size.kind.factor, 0.0, 1.0))
    && (req.size.kind.SizeAbsolute? && req.size.kind.bestFit ==> req.size.kind.width.Some? && req.size.kind.height.Some?)
    && NotOutside(req.trimBorderFuzziness, 0.0, 0.999)
    && (req.trimBorder <==> Greater(req.trimBorderFuzziness, 0.0))
  }

  lemma ParsedRequestInvariant(spec: string)
    ensures Parse(spec).Success? ==> ParsedInvariant(Parse(spec).value)
  {
    if Parse(spec).Success? {
      var parts := FindSpec(spec).value;
      var identifier := UnescapeIdentifier(parts.identifier).value;
      var region := ParseRegion(parts.region).value;
      var size := ParseSize(parts.size).value;
      var format := ParseFormat(parts.format).value;
      var base := Request(identifier, region, size, format, false, false, Finite(0.0));
      assert ParsedInvariant(base);
      QueryKeepsInvariant(base, QueryText(parts.query));
    }
  }

  /** The query steps keep the invariant. */
  lemma QueryKeepsInvariant(req: Request, query: string)
    requires ParsedInvariant(req)
    ensures ApplyQuery(req, query).Success? ==> ParsedInvariant(ApplyQuery(req, query).value)
  {
    if query != "" && ParseQuery(query).Success? {
      var values := ParseQuery(query).value;
      var t := ApplyTrimBorder(req, Get(values, "trimBorder"));
      StepsKeepInvariant(req, Get(values, "trimBorder"), "", "");
      if t.Success? {
        var o := ApplyAutoOrient(t.value, Get(values, "autoOrient"));
        StepsKeepInvariant(t.value, "", Get(values, "autoOrient"), "");
        if o.Success? {
          StepsKeepInvariant(o.value, "", "", Get(values, "scale"));
        }
      }
    }
  }

  /** Each extra keeps the invariant. */
  lemma StepsKeepInvariant(req: Request, trim: string, orient: string, scale: string)
    requires ParsedInvariant(req)
    ensures ApplyTrimBorder(req, trim).Success? ==> ParsedInvariant(ApplyTrimBorder(req, trim).value)
    ensures ApplyAutoOrient(req, orient).Success? ==> ParsedInvariant(ApplyAutoOrient(req, orient).value)
    ensures ApplyScale(req, scale).Success? ==> ParsedInvariant(ApplyScale(req, scale).value)
  {
  }

  /** A path with fewer than four slashes is not a request at all. */
  lemma FewSlashesRejected(spec: string)
    requires CountChar(spec, '/') < 4
    ensures Parse(spec) == Failure(InvalidSpec(NotValidSpec(spec)))
  {
    FewSlashesNoMatch(spec, 0);
  }

  /** `ParseSpec`: the path matched, then the request filled in part by
      part, returning at the first error. */
  method ParseSpec(spec: string) returns (r: Result<Request, Error>)
    ensures r == Parse(spec)
  {
    var found := FindSpec(spec);
    if found.None? {
      return Failure(InvalidSpec(NotValidSpec(spec)));
    }
    var parts := found.value;
    var identifier := UnescapeIdentifier(parts.identifier);
    if identifier.Failure? {
      return Failure(identifier.error);
    }
    var region := ParseRegion(parts.region);
    if region.Failure? {
      return Failure(region.error);
    }
    var size := ParseSize(parts.size);
    if size.Failure? {
      return Failure(size.error);
    }
    if parts.rotation != "" && parts.rotation != "0" {
      return Failure(InvalidSpec("unsupported rotation " + Quote(parts.rotation)));
    }
    if parts.quality != "" && parts.quality != "color" && parts.quality != "default" {
      return Failure(InvalidSpec("unsupported quality " + Quote(parts.quality)));
    }
    if parts.format !in FormatNames() {
      return Failure(InvalidSpec("unsupported format " + Quote(parts.format)));
    }
    var req := Request(identifier.value, region.value, size.value, FormatNames()[parts.format], false, false, Finite(0.0));
    r := ApplyQueryValues(req, QueryText(parts.query));
  }

  /** The query part of `ParseSpec`: each extra, when given, applied to the
      request in turn. */
  method ApplyQueryValues(req0: Request, query: string) returns (r: Result<Request, Error>)
    ensures r == ApplyQuery(req0, query)
  {
    var req := req0;
    if query != "" {
      var values := ParseQuery(query);
      if values.Failure? {
        return Failure(InvalidSpec("invalid query string " + Quote(query)));
      }
      var t := Get(values.value, "trimBorder");
      if t != "" {
        var fuzz := ParseFloatInRange(t, 0.0, 0.999);
        if fuzz.Failure? {
          return Failure(fuzz.error);
        }
        req := req.(trimBorderFuzziness := fuzz.value, trimBorder := Greater(fuzz.value, 0.0));
      }
      assert ApplyTrimBorder(req0, t) == Success(req);
      var req1 := req;
      t := Get(values.value, "autoOrient");
      if t != "" {
        var b := ParseBoolean(t);
        if b.Failure? {
          return Failure(b.error);
        }
        req := req.(autoOrient := b.value);
      }
      assert ApplyAutoOrient(req1, t) == Success(req);
      t := Get(values.value, "scale");
      if t != "" {
        if t == "down" {
          req := req.(size := req.size.(doNotEnlarge := true));
        } else {
          return Failure(InvalidSpec("not a valid scale: " + Quote(t)));
        }
      }
    }
    return Success(req);
  }
}
