/** The numeral conversions the request grammar relies on: `%d`
    formatting, `strconv.ParseInt(s, 10, 32)`, `strconv.ParseFloat(s, 64)`,
    `strconv.FormatFloat(f, 'f', prec, 64)` and `formatCompactFloat`
    (iiif/request.go). Finite floating-point values are exact reals. */
module Numerals {
  import opened Wrappers
  import opened Floats
  import opened UrlEncoding

  predicate IsDigit(c: char) { '0' <= c <= '9' }

  predicate AllDigits(s: string) {
    forall i :: 0 <= i < |s| ==> IsDigit(s[i])
  }

  function DigitValue(c: char): nat
    requires IsDigit(c)
  {
    c as int - '0' as int
  }

  function DigitChar(d: nat): (c: char)
    requires d < 10
    ensures IsDigit(c) && DigitValue(c) == d
  {
    ('0' as int + d) as char
  }

  function Pow10(n: nat): (p: nat)
    ensures p >= 1
  {
    if n == 0 then 1 else 10 * Pow10(n - 1)
  }

  /** The value of a string of decimal digits. */
  function DigitsValue(s: string): nat
    requires AllDigits(s)
  {
    if |s| == 0 then 0 else 10 * DigitsValue(s[..|s| - 1]) + DigitValue(s[|s| - 1])
  }

  /** The decimal digits of n, without leading zeros. */
  function NatToDigits(n: nat): string
  {
    if n < 10 then [DigitChar(n)] else NatToDigits(n / 10) + [DigitChar(n % 10)]
  }

  /** `NatToDigits` gives a non-empty digit string whose value is n. */
  lemma {:induction false} NatToDigitsValue(n: nat)
    ensures |NatToDigits(n)| > 0 && AllDigits(NatToDigits(n))
    ensures DigitsValue(NatToDigits(n)) == n
  {
    if n >= 10 {
      NatToDigitsValue(n / 10);
      var s := NatToDigits(n);
      assert s[..|s| - 1] == NatToDigits(n / 10);
    }
  }

  /** `%d`: the decimal numeral of n, with a minus sign when negative. */
  function IntToString(n: int): string
  {
    if n < 0 then "-" + NatToDigits(-n) else NatToDigits(n)
  }

  /** The number of leading digits of s. */
  function LeadingDigits(s: string): (k: nat)
    ensures k <= |s| && AllDigits(s[..k])
    ensures k < |s| ==> !IsDigit(s[k])
  {
    if |s| == 0 || !IsDigit(s[0]) then 0
    else
      var k := 1 + LeadingDigits(s[1..]);
      assert s[..k] == [s[0]] + s[1..][..k - 1];
      k
  }

  /** Digits followed by a non-digit: the leading digits are exactly them. */
  lemma {:induction false} LeadingDigitsOf(d: string, rest: string)
    requires AllDigits(d)
    requires |rest| == 0 || !IsDigit(rest[0])
    ensures LeadingDigits(d + rest) == |d|
  {
    if |d| == 0 {
      assert d + rest == rest;
    } else {
      assert (d + rest)[1..] == d[1..] + rest;
      LeadingDigitsOf(d[1..], rest);
    }
  }

  /** Why a `strconv` conversion failed. */
  datatype NumReason = SyntaxError | RangeError

  /** `strconv.NumError`: the conversion, the input and the reason. */
  datatype NumError = NumError(fn: string, num: string, reason: NumReason) {
    function Message(): string {
      "strconv." + fn + ": parsing " + Quote(num) + ": "
        + (if reason == SyntaxError then "invalid syntax" else "value out of range")
    }
  }

  /** `%q` quoting, without escapes inside the quotes. */
  function Quote(s: string): string { "\"" + s + "\"" }

  /** `strconv.ParseUint(s, 10, ...)` with largest value `max`. Go scans
      left to right and fails with a range error as soon as the digits read
      so far exceed `max`; since those values only grow, that happens
      exactly when the leading digits exceed `max`. */
  function ParseUint(s: string, max: nat): (r: Result<nat, NumReason>)
    ensures r.Success? ==> AllDigits(s) && r.value == DigitsValue(s) <= max
    ensures AllDigits(s) && |s| > 0 && DigitsValue(s) <= max ==> r == Success(DigitsValue(s))
  {
    if s == "" then Failure(SyntaxError)
    else
      var k := LeadingDigits(s);
      assert AllDigits(s) ==> s[..k] == s;
      if DigitsValue(s[..k]) > max then Failure(RangeError)
      else if k < |s| then Failure(SyntaxError)
      else
        assert s[..k] == s;
        Success(DigitsValue(s))
  }

  const Int32Min: int := -0x8000_0000
  const Int32Max: int := 0x7FFF_FFFF

  /** `strconv.ParseInt(s, 10, 32)`: an optional sign and decimal digits,
      within the signed 32-bit range. */
  function ParseInt32(s: string): (r: Result<int, NumError>)
    ensures r.Success? ==> Int32Min <= r.value <= Int32Max
    ensures r.Failure? ==> r.error.fn == "ParseInt" && r.error.num == s
  {
    if s == "" then Failure(NumError("ParseInt", s, SyntaxError))
    else
      var neg := s[0] == '-';
      var body := if s[0] == '+' || s[0] == '-' then s[1..] else s;
      match ParseUint(body, 0xFFFF_FFFF)
      case Failure(SyntaxError) => Failure(NumError("ParseInt", s, SyntaxError))
      case Failure(RangeError) => Failure(NumError("ParseInt", s, RangeError))
      case Success(u) =>
        if !neg && u > Int32Max then Failure(NumError("ParseInt", s, RangeError))
        else if neg && u > -Int32Min then Failure(NumError("ParseInt", s, RangeError))
        else
          var v: int := u;
          Success(if neg then -v else v)
  }

  /** `%d` output of a 32-bit value parses back to it. */
  lemma ParseIntToString(n: int)
    requires Int32Min <= n <= Int32Max
    ensures ParseInt32(IntToString(n)) == Success(n)
  {
    var m: nat := if n < 0 then -n else n;
    NatToDigitsValue(m);
    var s := IntToString(n);
    if n < 0 {
      assert s[1..] == NatToDigits(m);
    } else {
      assert IsDigit(s[0]);
    }
  }

  /** The value of a decimal mantissa with integer digits `i` and
      fraction digits `f`. */
  function MantissaValue(i: string, f: string): real
    requires AllDigits(i) && AllDigits(f)
  {
    DigitsValue(i) as real + DigitsValue(f) as real / Pow10(|f|) as real
  }

  /** 10 to an integer power. */
  function Power10(e: int): (p: real)
    ensures p > 0.0
  {
    if e >= 0 then Pow10(e) as real else 1.0 / Pow10(-e) as real
  }

  function Pow2(n: nat): (p: nat)
    ensures p >= 1
  {
    if n == 0 then 1 else 2 * Pow2(n - 1)
  }

  /** 2 to an integer power. */
  function Power2(e: int): (p: real)
    ensures p > 0.0
  {
    if e >= 0 then Pow2(e) as real else 1.0 / Pow2(-e) as real
  }

  /** The digits of an exponent after its marker, with an optional sign;
      None when there are no digits or anything else. */
  function SignedExponent(t: string): Option<int>
  {
    var neg := |t| > 0 && t[0] == '-';
    var digits := if |t| > 0 && (t[0] == '+' || t[0] == '-') then t[1..] else t;
    if |digits| == 0 || !AllDigits(digits) then None
    else
      var v: int := DigitsValue(digits);
      Some(if neg then -v else v)
  }

  /** A decimal numeral's optional exponent `e`/`E`, sign and digits:
      its value, or None when `s` is not of that form. The empty string is
      exponent 0. */
  function ParseExponent(s: string): Option<int>
  {
    if s == "" then Some(0)
    else if s[0] != 'e' && s[0] != 'E' then None
    else SignedExponent(s[1..])
  }

  /** A hexadecimal numeral's exponent `p`/`P`, sign and digits, which
      is not optional. */
  function ParseBinaryExponent(s: string): Option<int>
  {
    if s == "" || (s[0] != 'p' && s[0] != 'P') then None
    else SignedExponent(s[1..])
  }

  /** A mantissa split into its integer digits, its fraction digits and
      what follows them. */
  datatype Mantissa = Mantissa(intPart: string, fracPart: string, tail: string)

  /** The leading digits of `body`, then, after a point, the digits that
      follow it. */
  function SplitMantissa(body: string): (m: Mantissa)
    ensures AllDigits(m.intPart) && AllDigits(m.fracPart)
  {
    var k := LeadingDigits(body);
    var rest := body[k..];
    if |rest| > 0 && rest[0] == '.' then
      var after := rest[1..];
      var j := LeadingDigits(after);
      Mantissa(body[..k], after[..j], after[j..])
    else Mantissa(body[..k], "", rest)
  }

  predicate AllHex(s: string) {
    forall i :: 0 <= i < |s| ==> IsHex(s[i])
  }

  /** The value of a string of hexadecimal digits. */
  function HexDigitsValue(s: string): nat
    requires AllHex(s)
  {
    if |s| == 0 then 0 else 16 * HexDigitsValue(s[..|s| - 1]) + HexValue(s[|s| - 1])
  }

  /** The number of leading hexadecimal digits of s. */
  function LeadingHexDigits(s: string): (k: nat)
    ensures k <= |s| && AllHex(s[..k])
    ensures k < |s| ==> !IsHex(s[k])
  {
    if |s| == 0 || !IsHex(s[0]) then 0
    else
      var k := 1 + LeadingHexDigits(s[1..]);
      assert s[..k] == [s[0]] + s[1..][..k - 1];
      k
  }

  /** The leading hexadecimal digits of `body`, then, after a point, the
      hexadecimal digits that follow it. */
  function SplitHexMantissa(body: string): (m: Mantissa)
    ensures AllHex(m.intPart) && AllHex(m.fracPart)
  {
    var k := LeadingHexDigits(body);
    var rest := body[k..];
    if |rest| > 0 && rest[0] == '.' then
      var after := rest[1..];
      var j := LeadingHexDigits(after);
      Mantissa(body[..k], after[..j], after[j..])
    else Mantissa(body[..k], "", rest)
  }

  /** An unsigned decimal numeral: digits with an optional point (at least
      one digit in all), then an optional exponent. */
  function ReadDecimal(body: string): Option<real>
  {
    var m := SplitMantissa(body);
    if |m.intPart| + |m.fracPart| == 0 then None
    else
      match ParseExponent(m.tail)
      case None => None
      case Some(e) => Some(MantissaValue(m.intPart, m.fracPart) * Power10(e))
  }

  /** An unsigned hexadecimal numeral after its "0x": hexadecimal digits
      with an optional point (at least one digit in all), then a binary
      exponent. Each fraction digit is worth four bits. */
  function ReadHex(body: string): Option<real>
  {
    var m := SplitHexMantissa(body);
    if |m.intPart| + |m.fracPart| == 0 then None
    else
      match ParseBinaryExponent(m.tail)
      case None => None
      case Some(e) =>
        assert AllHex(m.intPart + m.fracPart);
        Some(HexDigitsValue(m.intPart + m.fracPart) as real * Power2(e - 4 * |m.fracPart|))
  }

  /** Whether s is a hexadecimal numeral: "0x" or "0X" with more after it. */
  predicate HexPrefixed(body: string) {
    |body| > 2 && body[0] == '0' && (body[1] == 'x' || body[1] == 'X')
  }

  /** `readFloat` on text without underscores: an optional sign, then a
      hexadecimal numeral after its prefix, or else a decimal one. */
  function ReadFloat(s: string): Option<real>
  {
    var neg := |s| > 0 && s[0] == '-';
    var body := if |s| > 0 && (s[0] == '+' || s[0] == '-') then s[1..] else s;
    var v := if HexPrefixed(body) then ReadHex(body[2..]) else ReadDecimal(body);
    match v
    case None => None
    case Some(x) => Some(if neg then -x else x)
  }

  /** ASCII upper-case letters made lower-case. */
  function LowerChar(c: char): char {
    if 'A' <= c <= 'Z' then (c as int - 'A' as int + 'a' as int) as char else c
  }

  function Lower(s: string): (t: string)
    ensures |t| == |s| && forall i :: 0 <= i < |s| ==> t[i] == LowerChar(s[i])
  {
    seq(|s|, i requires 0 <= i < |s| => LowerChar(s[i]))
  }

  /** `special`: the spellings read as special values, case ignored:
      "nan", and "inf" or "infinity" with an optional sign. A sign before
      "nan" is not one of them. */
  function Special(s: string): Option<Float>
  {
    var t := Lower(s);
    if t == "nan" then Some(NaN)
    else if t == "inf" || t == "+inf" || t == "infinity" || t == "+infinity" then Some(Inf(false))
    else if t == "-inf" || t == "-infinity" then Some(Inf(true))
    else None
  }

  predicate NoUnderscore(s: string) {
    forall i :: 0 <= i < |s| ==> s[i] != '_'
  }

  /** s with its underscores taken out. */
  function DropUnderscores(s: string): (t: string)
    ensures |t| <= |s|
  {
    if s == "" then "" else (if s[0] == '_' then "" else [s[0]]) + DropUnderscores(s[1..])
  }

  /** Text without underscores is kept as it is. */
  lemma {:induction false} DropNoUnderscores(s: string)
    requires NoUnderscore(s)
    ensures DropUnderscores(s) == s
  {
    if s != "" {
      assert NoUnderscore(s[1..]) by {
        forall i | 0 <= i < |s[1..]| ensures s[1..][i] != '_' {
          assert s[1..][i] == s[i + 1];
        }
      }
      DropNoUnderscores(s[1..]);
      assert [s[0]] + s[1..] == s;
    }
  }

  /** What the scan of `underscoreOK` saw last. */
  datatype Seen = Start | DigitSeen | UnderscoreSeen | OtherSeen

  /** The scan of `underscoreOK` over the rest of the text: an underscore
      must follow a digit and must not be followed by anything but a
      digit. In a hexadecimal numeral the letters a to f are digits. */
  function UnderscoresFrom(s: string, hex: bool, seen: Seen): bool
    decreases |s|
  {
    if s == "" then seen != UnderscoreSeen
    else if IsDigit(s[0]) || (hex && 'a' <= LowerChar(s[0]) <= 'f') then UnderscoresFrom(s[1..], hex, DigitSeen)
    else if s[0] == '_' then seen == DigitSeen && UnderscoresFrom(s[1..], hex, UnderscoreSeen)
    else seen != UnderscoreSeen && UnderscoresFrom(s[1..], hex, OtherSeen)
  }

  /** `underscoreOK`: after an optional sign and an optional base prefix
      (which counts as a digit), every underscore stands between digits. */
  function UnderscoreOK(s: string): bool
  {
    var t := if |s| >= 1 && (s[0] == '-' || s[0] == '+') then s[1..] else s;
    if |t| >= 2 && t[0] == '0' && (LowerChar(t[1]) == 'b' || LowerChar(t[1]) == 'o' || LowerChar(t[1]) == 'x') then
      UnderscoresFrom(t[2..], LowerChar(t[1]) == 'x', DigitSeen)
    else UnderscoresFrom(t, false, Start)
  }

  /** 2^1024 - 2^970: the least magnitude that `float64` rounds to an
      infinity (halfway between the largest finite value and 2^1024, a
      tie that goes to the even neighbour 2^1024). */
  const FloatOverflow: real := 179769313486231580793728971405303415079934132710037826936173778980444968292764750946649017977587207096330286416692887910946555547851940402630657488671505820681908902000708383676273854845817711531764475730270069855571366959622842914819860834936475292719074168444365510704342711559699508093042880177904174497792.0

  /** `strconv.ParseFloat(s, 64)`: a special value, or a decimal or
      hexadecimal numeral in which underscores may stand between digits.
      Anything else is a syntax error, and a numeral whose magnitude rounds
      to an infinity is a range error. */
  function ParseFloat(s: string): (r: Result<Float, NumError>)
    ensures r.Failure? ==> r.error.fn == "ParseFloat" && r.error.num == s
    ensures r.Success? && r.value.Finite? ==> Abs(r.value.value) < FloatOverflow
    ensures Special(s).Some? ==> r == Success(Special(s).value)
  {
    match Special(s)
    case Some(f) => Success(f)
    case None =>
      if !NoUnderscore(s) && !UnderscoreOK(s) then Failure(NumError("ParseFloat", s, SyntaxError))
      else
        match ReadFloat(DropUnderscores(s))
        case None => Failure(NumError("ParseFloat", s, SyntaxError))
        case Some(v) =>
          if Abs(v) >= FloatOverflow then Failure(NumError("ParseFloat", s, RangeError))
          else Success(Finite(v))
  }

  /** A numeral without underscores that is no special value reads as
      its value, or as a range error when that rounds to an infinity. */
  lemma ParseNumeral(s: string, v: real)
    requires Special(s).None? && NoUnderscore(s) && ReadFloat(s) == Some(v)
    ensures ParseFloat(s) == if Abs(v) >= FloatOverflow then Failure(NumError("ParseFloat", s, RangeError)) else Success(Finite(v))
  {
    DropNoUnderscores(s);
  }

  /** Text that starts with a digit, or with '-' and a digit, is no special
      spelling. */
  lemma NumberNotSpecial(s: string)
    requires |s| > 0 && (IsDigit(s[0]) || (|s| > 1 && s[0] == '-' && IsDigit(s[1])))
    ensures Special(s).None?
  {
    var t := Lower(s);
    assert t[0] == s[0];
    if s[0] == '-' {
      assert t[1] == s[1];
    }
  }

  /** Text that starts with a digit and is not hexadecimal reads as an
      unsigned decimal numeral. */
  lemma ReadUnsigned(s: string)
    requires |s| > 0 && IsDigit(s[0]) && !HexPrefixed(s)
    ensures ReadFloat(s) == ReadDecimal(s)
  {
    assert s[0] != '+' && s[0] != '-';
  }

  /** A mantissa with nothing after it reads as its value. */
  lemma ReadMantissa(s: string, i: string, f: string)
    requires SplitMantissa(s) == Mantissa(i, f, "") && |i| > 0
    ensures ReadDecimal(s) == Some(MantissaValue(i, f))
  {
    assert ParseExponent("") == Some(0);
    assert Power10(0) == 1.0;
  }

  /** An unsigned mantissa with nothing after it parses to its value,
      when that is below the overflow bound. */
  lemma ParseFloatMantissa(s: string, i: string, f: string)
    requires |s| > 0 && IsDigit(s[0]) && NoUnderscore(s)
    requires |s| <= 2 || (s[1] != 'x' && s[1] != 'X')
    requires SplitMantissa(s) == Mantissa(i, f, "") && |i| > 0
    requires MantissaValue(i, f) < FloatOverflow
    ensures ParseFloat(s) == Success(Finite(MantissaValue(i, f)))
  {
    NumberNotSpecial(s);
    assert !HexPrefixed(s);
    ReadUnsigned(s);
    ReadMantissa(s, i, f);
    MantissaNonNegative(i, f);
    ParseNumeral(s, MantissaValue(i, f));
  }

  lemma MantissaNonNegative(i: string, f: string)
    requires AllDigits(i) && AllDigits(f)
    ensures MantissaValue(i, f) >= 0.0
  {
    var d := Pow10(|f|) as real;
    assert DigitsValue(f) as real / d >= 0.0;
  }

  lemma SplitDecimal(i: string, f: string)
    requires |i| > 0 && AllDigits(i) && AllDigits(f) && |f| > 0
    ensures SplitMantissa(i + "." + f) == Mantissa(i, f, "")
  {
    var s := i + "." + f;
    var rest := "." + f;
    assert LeadingDigits(s) == |i| by {
      assert s == i + rest;
      LeadingDigitsOf(i, rest);
    }
    assert s[..|i|] == i && s[|i|..] == rest;
    assert rest[1..] == f;
    assert LeadingDigits(f) == |f| by {
      LeadingDigitsOf(f, "");
      assert f + "" == f;
    }
    assert f[..|f|] == f && f[|f|..] == "";
  }

  lemma SplitInteger(i: string)
    requires |i| > 0 && AllDigits(i)
    ensures SplitMantissa(i) == Mantissa(i, "", "")
  {
    LeadingDigitsOf(i, "");
    assert i + "" == i && i[..|i|] == i && i[|i|..] == "";
  }

  /** Digits, a point and non-empty digits parse to their decimal value,
      when that is below the overflow bound. */
  lemma ParseFloatDecimal(i: string, f: string)
    requires |i| > 0 && AllDigits(i) && AllDigits(f) && |f| > 0
    requires MantissaValue(i, f) < FloatOverflow
    ensures ParseFloat(i + "." + f) == Success(Finite(MantissaValue(i, f)))
  {
    var s := i + "." + f;
    SplitDecimal(i, f);
    assert s[0] == i[0];
    assert |s| > 2 ==> s[1] == (if |i| > 1 then i[1] else '.');
    assert NoUnderscore(s) by {
      forall k | 0 <= k < |s| ensures s[k] != '_' {
        if k < |i| { assert s[k] == i[k]; } else if k > |i| { assert s[k] == f[k - |i| - 1]; }
      }
    }
    ParseFloatMantissa(s, i, f);
  }

  lemma MantissaInteger(i: string)
    requires AllDigits(i)
    ensures MantissaValue(i, "") == DigitsValue(i) as real
  {
    assert DigitsValue("") == 0 && Pow10(0) == 1;
  }

  /** Digits alone parse to their value, when that is below the overflow
      bound, and are a range error from there on. */
  lemma ParseFloatInteger(i: string)
    requires |i| > 0 && AllDigits(i)
    ensures DigitsValue(i) as real < FloatOverflow ==> ParseFloat(i) == Success(Finite(DigitsValue(i) as real))
    ensures DigitsValue(i) as real >= FloatOverflow ==> ParseFloat(i) == Failure(NumError("ParseFloat", i, RangeError))
  {
    SplitInteger(i);
    MantissaInteger(i);
    NumberNotSpecial(i);
    assert |i| > 2 ==> IsDigit(i[1]);
    ReadUnsigned(i);
    ReadMantissa(i, i, "");
    assert NoUnderscore(i) by {
      forall k | 0 <= k < |i| ensures i[k] != '_' {
        assert IsDigit(i[k]);
      }
    }
    ParseNumeral(i, DigitsValue(i) as real);
  }

  /** The special spellings: "NaN" is NaN, "+Inf" and "Infinity" are the
      positive infinity, "-inf" the negative one, and a sign before "nan"
      is a syntax error. */
  lemma SpecialExamples()
    ensures ParseFloat("NaN") == Success(NaN)
    ensures ParseFloat("+Inf") == Success(Inf(false))
    ensures ParseFloat("Infinity") == Success(Inf(false))
    ensures ParseFloat("-inf") == Success(Inf(true))
  {
    assert Lower("NaN") == "nan";
    assert Lower("+Inf") == "+inf";
    assert Lower("Infinity") == "infinity";
    assert Lower("-inf") == "-inf";
  }

  /** A hexadecimal numeral: "0x1p-2" is a quarter. */
  lemma HexExample()
    ensures ParseFloat("0x1p-2") == Success(Finite(0.25))
  {
    var s := "0x1p-2";
    assert Special(s).None? && NoUnderscore(s) by {
      assert Lower(s)[0] == '0';
    }
    QuarterRead();
    ParseNumeral(s, 0.25);
  }

  /** "0x1p-2" reads as a quarter. */
  lemma QuarterRead()
    ensures ReadFloat("0x1p-2") == Some(0.25)
  {
    var s := "0x1p-2";
    assert HexPrefixed(s);
    assert s[2..] == "1p-2";
    QuarterHex();
  }

  /** The hexadecimal numeral "1p-2" after its prefix: one times 2^-2. */
  lemma QuarterHex()
    ensures ReadHex("1p-2") == Some(0.25)
  {
    var body := "1p-2";
    assert LeadingHexDigits(body) == 1 by {
      assert IsHex(body[0]) && !IsHex(body[1]);
      assert LeadingHexDigits(body[1..]) == 0;
    }
    assert SplitHexMantissa(body) == Mantissa("1", "", "p-2");
    assert ParseBinaryExponent("p-2") == Some(-2) by {
      assert "p-2"[1..] == "-2";
      assert "-2"[1..] == "2";
      assert DigitsValue("2") == 2;
    }
    assert HexDigitsValue("1" + "") == 1;
    assert Power2(-2) == 0.25;
  }

  /** Dropping underscores leaves none. */
  lemma {:induction false} DroppedNoUnderscore(s: string)
    ensures NoUnderscore(DropUnderscores(s))
  {
    if s != "" {
      DroppedNoUnderscore(s[1..]);
    }
  }

  /** Where they are allowed, underscores change nothing: the text reads
      as it does without them. */
  lemma UnderscoresIgnored(s: string)
    requires Special(s).None? && Special(DropUnderscores(s)).None? && UnderscoreOK(s)
    ensures var t := DropUnderscores(s);
      ParseFloat(s) == if ParseFloat(t).Success? then ParseFloat(t)
                       else Failure(NumError("ParseFloat", s, ParseFloat(t).error.reason))
  {
    var t := DropUnderscores(s);
    DroppedNoUnderscore(s);
    DropNoUnderscores(t);
  }

  /** Underscores between digits are dropped: "1_000" is a thousand. */
  lemma UnderscoreExample()
    ensures ParseFloat("1_000") == Success(Finite(1000.0))
  {
    ThousandUnderscored();
    Thousand();
    UnderscoresIgnored("1_000");
  }

  /** "1_000" is no special spelling, its underscore is well placed, and
      without it the text is "1000". */
  lemma ThousandUnderscored()
    ensures Special("1_000").None? && Special("1000").None?
    ensures UnderscoreOK("1_000") && DropUnderscores("1_000") == "1000"
  {
    assert Lower("1_000")[0] == '1';
    NumberNotSpecial("1000");
    assert "1_000"[1..] == "_000" && "_000"[1..] == "000" && "000"[1..] == "00" && "00"[1..] == "0" && "0"[1..] == "";
  }

  /** "1000" is a thousand. */
  lemma Thousand()
    ensures ParseFloat("1000") == Success(Finite(1000.0))
  {
    assert AllDigits("1000") && DigitsValue("1000") == 1000 by {
      assert "1000"[..3] == "100" && "100"[..2] == "10" && "10"[..1] == "1" && "1"[..0] == "";
    }
    ParseFloatInteger("1000");
  }

  /** An underscore at the start is a syntax error. */
  lemma LeadingUnderscoreExample()
    ensures ParseFloat("_1") == Failure(NumError("ParseFloat", "_1", SyntaxError))
  {
    assert Lower("_1")[0] == '_';
    assert !NoUnderscore("_1");
    assert !UnderscoreOK("_1");
  }

  /** Digits whose value reaches the overflow bound are a range error. */
  lemma LongNumeralOutOfRange(s: string)
    requires |s| > 0 && AllDigits(s) && DigitsValue(s) as real >= FloatOverflow
    ensures ParseFloat(s) == Failure(NumError("ParseFloat", s, RangeError))
  {
    ParseFloatInteger(s);
  }

  /** Rounding to the nearest integer, halves to the even neighbour. */
  function RoundHalfEven(r: real): (n: int)
    ensures r - 0.5 <= n as real <= r + 0.5
    ensures r >= 0.0 ==> n >= 0
  {
    var f := r.Floor;
    var d := r - f as real;
    if d < 0.5 then f
    else if d > 0.5 then f + 1
    else if f % 2 == 0 then f else f + 1
  }

  /** The value `FormatFloat(x, 'f', prec, 64)` prints: x rounded to
      `prec` decimals, halves to even. */
  function DecimalRound(x: real, prec: nat): real
  {
    var v := ScaledDigits(Abs(x), prec) as real / Pow10(prec) as real;
    if x < 0.0 then -v else v
  }

  function Abs(x: real): (r: real)
    ensures r >= 0.0 && (r == x || r == -x)
  {
    if x < 0.0 then -x else x
  }

  function Quotient(n: nat, d: nat): nat
    requires d > 0
  {
    n / d
  }

  /** a scaled by 10^prec and rounded, halves to even. */
  function ScaledDigits(a: real, prec: nat): nat
    requires a >= 0.0
  {
    NonNegativeProduct(a, Pow10(prec) as real);
    RoundHalfEven(a * Pow10(prec) as real)
  }

  lemma NonNegativeProduct(a: real, b: real)
    requires a >= 0.0 && b >= 0.0
    ensures a * b >= 0.0
  {
  }

  /** `s` padded on the left with zeros to `width` characters. */
  function PadLeft(s: string, width: nat): (r: string)
    ensures |r| == if |s| < width then width else |s|
  {
    if |s| < width then Zeros(width - |s|) + s else s
  }

  function Zeros(k: nat): (z: string)
    ensures |z| == k
  {
    seq(k, _ => '0')
  }

  /** Zero padding keeps a digit string's value. */
  lemma PadLeftValue(s: string, width: nat)
    requires AllDigits(s)
    ensures AllDigits(PadLeft(s, width)) && DigitsValue(PadLeft(s, width)) == DigitsValue(s)
  {
    if |s| < width {
      LeadingZerosValue(width - |s|, s);
    }
  }

  lemma {:induction false} LeadingZerosValue(k: nat, s: string)
    requires AllDigits(s)
    ensures AllDigits(Zeros(k) + s) && DigitsValue(Zeros(k) + s) == DigitsValue(s)
  {
    if k == 0 {
      assert Zeros(k) + s == s;
    } else {
      LeadingZerosValue(k - 1, s);
      assert Zeros(k) + s == "0" + (Zeros(k - 1) + s);
      LeadingZeroValue(Zeros(k - 1) + s);
    }
  }

  lemma {:induction false} LeadingZeroValue(s: string)
    requires AllDigits(s)
    ensures AllDigits("0" + s) && DigitsValue("0" + s) == DigitsValue(s)
  {
    if |s| > 0 {
      var t := "0" + s;
      assert t[..|t| - 1] == "0" + s[..|s| - 1];
      LeadingZeroValue(s[..|s| - 1]);
    }
  }

  /** `strconv.FormatFloat(x, 'f', prec, 64)`: the digits of x rounded to
      `prec` decimals, halves to even, with a minus sign when negative. */
  function FormatFixed(x: real, prec: nat): string
  {
    var n := ScaledDigits(Abs(x), prec);
    var p := Pow10(prec);
    var digits := NatToDigits(Quotient(n, p))
      + (if prec == 0 then "" else "." + PadLeft(NatToDigits(n % p), prec));
    if x < 0.0 then "-" + digits else digits
  }

  /** `s` with every trailing '0' removed. */
  function TrimTrailingZeros(s: string): (r: string)
    ensures |r| <= |s| && r == s[..|r|]
    ensures |r| == 0 || r[|r| - 1] != '0'
  {
    if |s| > 0 && s[|s| - 1] == '0' then TrimTrailingZeros(s[..|s| - 1]) else s
  }

  /** `strings.TrimSuffix(s, ".")`. */
  function TrimPoint(s: string): string
  {
    if |s| > 0 && s[|s| - 1] == '.' then s[..|s| - 1] else s
  }

  /** `strconv.FormatFloat(f, 'f', prec, 64)` of any value: the special
      values print as "NaN", "+Inf" and "-Inf". */
  function FormatFloat(f: Float, prec: nat): string
  {
    match f
    case Finite(x) => FormatFixed(x, prec)
    case NaN => "NaN"
    case Inf(negative) => if negative then "-Inf" else "+Inf"
  }

  /** What `formatCompactFloat` returns: ten decimals with the trailing
      zeros, and then a trailing point, removed. */
  function CompactFloat(f: Float): string
  {
    TrimPoint(TrimTrailingZeros(FormatFloat(f, 10)))
  }

  /** `formatCompactFloat`: print with ten decimals, then drop trailing
      zeros one by one, then a trailing point. */
  method FormatCompactFloat(f: Float) returns (s: string)
    ensures s == CompactFloat(f)
  {
    s := FormatFloat(f, 10);
    ghost var full := s;
    while |s| > 0 && s[|s| - 1] == '0'
      invariant TrimTrailingZeros(s) == TrimTrailingZeros(full)
      decreases |s|
    {
      s := s[..|s| - 1];
    }
    if |s| > 0 && s[|s| - 1] == '.' {
      s := s[..|s| - 1];
    }
  }

  /** Trailing zeros after a point never reach the point. */
  lemma {:induction false} TrimAfterPoint(a: string, f: string)
    requires |a| > 0 && a[|a| - 1] != '0'
    ensures TrimTrailingZeros(a + f) == a + TrimTrailingZeros(f)
    decreases |f|
  {
    if |f| > 0 && f[|f| - 1] == '0' {
      assert (a + f)[..|a + f| - 1] == a + f[..|f| - 1];
      TrimAfterPoint(a, f[..|f| - 1]);
    } else if |f| == 0 {
      assert a + f == a;
    }
  }

  /** Dropping trailing zeros of a fraction keeps its value. */
  lemma {:induction false} TrimFractionValue(f: string)
    requires AllDigits(f)
    ensures AllDigits(TrimTrailingZeros(f))
    ensures DigitsValue(TrimTrailingZeros(f)) as real / Pow10(|TrimTrailingZeros(f)|) as real
         == DigitsValue(f) as real / Pow10(|f|) as real
    decreases |f|
  {
    if |f| > 0 && f[|f| - 1] == '0' {
      var g := f[..|f| - 1];
      TrimFractionValue(g);
      assert DigitsValue(f) == 10 * DigitsValue(g);
      assert Pow10(|f|) == 10 * Pow10(|g|);
      ScaleFraction(DigitsValue(g) as real, Pow10(|g|) as real);
    }
  }

  lemma ScaleFraction(v: real, p: real)
    requires p > 0.0
    ensures (10.0 * v) / (10.0 * p) == v / p
  {
  }

  /** The integer and fraction digits of ten-decimal formatting. */
  lemma FormatFixedParts(x: real) returns (i: string, f: string)
    requires x >= 0.0
    ensures FormatFixed(x, 10) == i + "." + f
    ensures |i| > 0 && AllDigits(i) && AllDigits(f) && |f| == 10
    ensures MantissaValue(i, f) == DecimalRound(x, 10)
  {
    var p := Pow10(10);
    assert Abs(x) == x;
    var n := ScaledDigits(x, 10);
    var q, r := Quotient(n, p), n % p;
    i := NatToDigits(q);
    f := PadLeft(NatToDigits(r), 10);
    NatToDigitsValue(q);
    NatToDigitsValue(r);
    PadLeftValue(NatToDigits(r), 10);
    NatToDigitsLength(r, 10);
    assert |f| == 10;
    assert FormatFixed(x, 10) == i + "." + f;
    assert DecimalRound(x, 10) == n as real / p as real;
    assert MantissaValue(i, f) == q as real + r as real / p as real;
    SplitQuotient(n, p);
  }

  /** n / p + (n % p) / p == n / p in the reals. */
  lemma SplitQuotient(n: nat, p: nat)
    requires p > 0
    ensures (n / p) as real + (n % p) as real / p as real == n as real / p as real
  {
    var q, r := n / p, n % p;
    assert n == q * p + r;
    assert n as real == q as real * p as real + r as real;
  }

  /** n < 10^w has at most w digits (at least one). */
  lemma {:induction false} NatToDigitsLength(n: nat, w: nat)
    requires n < Pow10(w)
    ensures |NatToDigits(n)| <= w || (|NatToDigits(n)| == 1 && w == 0)
  {
    if n >= 10 {
      assert w >= 1;
      assert n / 10 < Pow10(w - 1);
      NatToDigitsLength(n / 10, w - 1);
    } else if w == 0 {
    }
  }

  /** The integer digits and the trimmed fraction digits `formatCompactFloat`
      prints for a non-negative value. */
  lemma CompactFloatParts(x: real) returns (i: string, g: string)
    requires x >= 0.0
    ensures |i| > 0 && AllDigits(i) && AllDigits(g)
    ensures CompactFloat(Finite(x)) == if g == "" then i else i + "." + g
    ensures MantissaValue(i, g) == DecimalRound(x, 10)
  {
    var f;
    i, f := FormatFixedParts(x);
    var a := i + ".";
    TrimAfterPoint(a, f);
    assert FormatFixed(x, 10) == a + f;
    g := TrimTrailingZeros(f);
    TrimFractionValue(f);
    if g == "" {
      assert a + g == a;
      assert TrimPoint(a) == i;
    } else {
      assert IsDigit(g[|g| - 1]);
      assert a + g == i + "." + g;
    }
  }

  /** Digits, optionally followed by a point and non-empty digits, have the
      shape `\d+(\.\d+)?`. */
  lemma UnsignedDecimalOf(i: string, g: string)
    requires |i| > 0 && AllDigits(i) && AllDigits(g)
    ensures UnsignedDecimal(if g == "" then i else i + "." + g)
  {
    if g == "" {
      LeadingDigitsOf(i, "");
      assert i + "" == i;
    } else {
      LeadingDigitsOf(i, "." + g);
      assert i + "." + g == i + ("." + g);
      assert (i + "." + g)[|i| + 1..] == g;
    }
  }

  /** A non-negative value printed by `formatCompactFloat` reads back as
      its ten-decimal rounding, and has the shape digits[.digits]. */
  lemma CompactFloatParses(x: real)
    requires x >= 0.0 && DecimalRound(x, 10) < FloatOverflow
    ensures ParseFloat(CompactFloat(Finite(x))) == Success(Finite(DecimalRound(x, 10)))
    ensures UnsignedDecimal(CompactFloat(Finite(x)))
  {
    var i, g := CompactFloatParts(x);
    UnsignedDecimalOf(i, g);
    if g == "" {
      ParseFloatInteger(i);
      MantissaInteger(i);
    } else {
      ParseFloatDecimal(i, g);
    }
  }

  /** The shape `\d+(\.\d+)?`: digits, then optionally a point and digits. */
  predicate UnsignedDecimal(s: string)
  {
    var k := LeadingDigits(s);
    k > 0 && (k == |s| || (s[k] == '.' && k + 1 < |s| && AllDigits(s[k + 1..])))
  }

  lemma {:induction false} TrimZeros(k: nat)
    ensures TrimTrailingZeros(Zeros(k)) == ""
  {
    if k > 0 {
      assert Zeros(k)[..k - 1] == Zeros(k - 1);
      TrimZeros(k - 1);
    }
  }

  lemma RoundWhole(n: nat)
    ensures RoundHalfEven(n as real) == n
  {
  }

  /** A whole number prints as its digits alone. */
  lemma CompactWhole(n: nat)
    ensures CompactFloat(Finite(n as real)) == NatToDigits(n)
  {
    var a := NatToDigits(n) + ".";
    assert FormatFloat(Finite(n as real), 10) == a + Zeros(10) by {
      FixedWhole(n);
    }
    assert TrimTrailingZeros(a + Zeros(10)) == a by {
      TrimAfterPoint(a, Zeros(10));
      TrimZeros(10);
      assert a + "" == a;
    }
  }

  /** A whole number with ten decimals: its digits, a point, ten zeros. */
  lemma FixedWhole(n: nat)
    ensures FormatFixed(n as real, 10) == NatToDigits(n) + "." + Zeros(10)
  {
    var p := Pow10(10);
    assert ScaledDigits(n as real, 10) == n * p by {
      assert n as real * p as real == (n * p) as real;
      RoundWhole(n * p);
    }
    assert Quotient(n * p, p) == n;
    assert (n * p) % p == 0;
    assert PadLeft(NatToDigits(0), 10) == Zeros(10);
  }

  /** 50 prints as "50", 0 as "0" and NaN as "NaN". */
  lemma CompactFloatExamples()
    ensures CompactFloat(Finite(50.0)) == "50"
    ensures CompactFloat(Finite(0.0)) == "0"
    ensures CompactFloat(NaN) == "NaN"
    ensures CompactFloat(Inf(true)) == "-Inf"
  {
    CompactWhole(50);
    CompactWhole(0);
  }
}
