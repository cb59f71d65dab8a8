/** The parts of Go's `net/url` the request grammar uses: query-component
    escaping and unescaping (`url.QueryEscape`, `url.QueryUnescape`) and
    query-string parsing (`url.ParseQuery`, `url.Values.Get`). Go strings
    are byte strings; here each character stands for one byte. */
module UrlEncoding {
  import opened Wrappers

  /** Characters a query component keeps as they are. */
  predicate Unreserved(c: char) {
    ('A' <= c <= 'Z') || ('a' <= c <= 'z') || ('0' <= c <= '9')
      || c == '-' || c == '_' || c == '.' || c == '~'
  }

  predicate IsHex(c: char) {
    ('0' <= c <= '9') || ('a' <= c <= 'f') || ('A' <= c <= 'F')
  }

  function HexValue(c: char): (v: nat)
    requires IsHex(c)
    ensures v < 16
  {
    if '0' <= c <= '9' then c as int - '0' as int
    else if 'a' <= c <= 'f' then c as int - 'a' as int + 10
    else c as int - 'A' as int + 10
  }

  /** The upper-case hexadecimal digit of v. */
  function HexDigit(v: nat): (c: char)
    requires v < 16
    ensures IsHex(c) && HexValue(c) == v
  {
    if v < 10 then ('0' as int + v) as char else ('A' as int + v - 10) as char
  }

  /** A character of an escaped query component: unreserved, '+', '%' or an
      upper-case hex digit, or a character beyond one byte. */
  predicate EscapedChar(c: char) {
    Unreserved(c) || c == '+' || c == '%' || c as int >= 256
  }

  /** How one byte is escaped: unreserved characters stay, a space becomes
      '+', every other byte becomes '%' and two upper-case hex digits. */
  function EscapeChar(c: char): (e: string)
    ensures |e| > 0 && forall i :: 0 <= i < |e| ==> EscapedChar(e[i])
  {
    if Unreserved(c) then [c]
    else if c == ' ' then "+"
    else if c as int < 256 then ['%', HexDigit(c as int / 16), HexDigit(c as int % 16)]
    else [c]
  }

  /** `url.QueryEscape`. */
  function QueryEscape(s: string): (e: string)
    ensures |e| >= |s|
    ensures forall i :: 0 <= i < |e| ==> EscapedChar(e[i])
  {
    if s == "" then "" else EscapeChar(s[0]) + QueryEscape(s[1..])
  }

  /** `url.EscapeError`: the malformed escape, at most three characters. */
  datatype EscapeError = EscapeError(escape: string) {
    function Message(): string { "invalid URL escape \"" + escape + "\"" }
  }

  /** `url.QueryUnescape`: '+' is a space, '%' and two hex digits is that
      byte, anything else stands for itself; the first '%' not followed by
      two hex digits is an error. */
  function QueryUnescape(s: string): (r: Result<string, EscapeError>)
    ensures r.Failure? ==> 1 <= |r.error.escape| <= 3 && r.error.escape[0] == '%'
    ensures r.Success? ==> |r.value| <= |s|
  {
    if s == "" then Success("")
    else if s[0] == '%' then
      if |s| < 3 || !IsHex(s[1]) || !IsHex(s[2]) then
        Failure(EscapeError(if |s| < 3 then s else s[..3]))
      else
        var rest :- QueryUnescape(s[3..]);
        Success([(16 * HexValue(s[1]) + HexValue(s[2])) as char] + rest)
    else
      var rest :- QueryUnescape(s[1..]);
      Success([if s[0] == '+' then ' ' else s[0]] + rest)
  }

  lemma UnescapeChar(c: char, rest: string)
    ensures QueryUnescape(EscapeChar(c) + rest)
         == (match QueryUnescape(rest)
             case Success(r) => Success([c] + r)
             case Failure(e) => Failure(e))
  {
    var e := EscapeChar(c);
    if Unreserved(c) || c as int >= 256 {
      assert (e + rest)[1..] == rest;
    } else if c == ' ' {
      assert (e + rest)[1..] == rest;
    } else {
      assert (e + rest)[3..] == rest;
      assert (16 * (c as int / 16) + c as int % 16) as char == c;
    }
  }

  /** Unescaping undoes escaping. */
  lemma {:induction false} UnescapeEscape(s: string)
    ensures QueryUnescape(QueryEscape(s)) == Success(s)
  {
    if s != "" {
      UnescapeEscape(s[1..]);
      UnescapeChar(s[0], QueryEscape(s[1..]));
      assert [s[0]] + s[1..] == s;
    }
  }

  /** The position of the first c in s, or |s|. */
  function IndexOf(s: string, c: char): (k: nat)
    ensures k <= |s| && (k < |s| ==> s[k] == c)
    ensures forall j :: 0 <= j < k ==> s[j] != c
  {
    if s == "" || s[0] == c then 0 else 1 + IndexOf(s[1..], c)
  }

  predicate Contains(s: string, c: char) {
    exists i :: 0 <= i < |s| && s[i] == c
  }

  /** `strings.Cut` at the first c: what comes before it and after it (all
      of s and nothing when there is no c). */
  function Before(s: string, c: char): string { s[..IndexOf(s, c)] }

  function After(s: string, c: char): string
  {
    var k := IndexOf(s, c);
    if k < |s| then s[k + 1..] else ""
  }

  /** One query parameter, unescaped. */
  datatype Param = Param(key: string, value: string)

  const SemicolonMessage: string := "invalid semicolon separator in query"

  /** The parameters and the error after one '&'-separated piece: a
      piece with a ';' is an error that replaces any earlier one; an empty
      piece is skipped; a piece whose key or value does not unescape
      records its error only when none is recorded yet; a piece without '='
      is a key with the empty value. */
  function ParsePiece(piece: string, params: seq<Param>, err: Option<string>): (r: (seq<Param>, Option<string>))
    ensures |r.0| >= |params| && r.0[..|params|] == params
  {
    if Contains(piece, ';') then (params, Some(SemicolonMessage))
    else if piece == "" then (params, err)
    else
      match QueryUnescape(Before(piece, '='))
      case Failure(e) => (params, if err.None? then Some(e.Message()) else err)
      case Success(key) =>
        match QueryUnescape(After(piece, '='))
        case Failure(e) => (params, if err.None? then Some(e.Message()) else err)
        case Success(value) => (params + [Param(key, value)], err)
  }

  /** The pieces of a query, cut at each '&' in turn, parsed in order. */
  function ParsePieces(query: string, params: seq<Param>, err: Option<string>): (r: (seq<Param>, Option<string>))
    ensures |r.0| >= |params| && r.0[..|params|] == params
    decreases |query|
  {
    if query == "" then (params, err)
    else
      var (params', err') := ParsePiece(Before(query, '&'), params, err);
      ParsePieces(After(query, '&'), params', err')
  }

  /** `url.ParseQuery`: the parameters in order, or the error. */
  function ParseQuery(query: string): Result<seq<Param>, string>
  {
    var (params, err) := ParsePieces(query, [], None);
    if err.Some? then Failure(err.value) else Success(params)
  }

  /** `url.Values.Get`: the first value given for key, or "". */
  function Get(params: seq<Param>, key: string): (v: string)
    ensures v != "" ==> exists i :: 0 <= i < |params| && params[i] == Param(key, v)
    ensures (forall i :: 0 <= i < |params| ==> params[i].key != key) ==> v == ""
  {
    if params == [] then ""
    else if params[0].key == key then params[0].value
    else
      var v := Get(params[1..], key);
      assert v != "" ==> exists i :: 0 <= i < |params[1..]| && params[1..][i] == Param(key, v);
      assert forall j :: 1 <= j < |params| ==> params[j] == params[1..][j - 1];
      v
  }

  /** The value Get returns is the one of the first parameter named key. */
  lemma {:induction false} GetFirst(params: seq<Param>, key: string, j: nat)
    requires j < |params| && params[j].key == key
    requires forall i :: 0 <= i < j ==> params[i].key != key
    ensures Get(params, key) == params[j].value
  {
    if j > 0 {
      assert params[0].key != key;
      assert forall i :: 0 <= i < j - 1 ==> params[1..][i].key != key by {
        forall i | 0 <= i < j - 1
          ensures params[1..][i].key != key
        {
          assert params[1..][i] == params[i + 1];
        }
      }
      GetFirst(params[1..], key, j - 1);
    }
  }

  /** A character a parameter written as key=value may hold without
      escaping, so that the query reads back as written. */
  predicate PlainChar(c: char) {
    Unreserved(c)
  }

  predicate Plain(s: string) {
    forall i :: 0 <= i < |s| ==> PlainChar(s[i])
  }

  /** A parameter with a non-empty key, key and value plain. */
  predicate PlainParam(p: Param) {
    Plain(p.key) && Plain(p.value) && p.key != ""
  }

  /** A parameter written as key=value. */
  function Piece(p: Param): string { p.key + "=" + p.value }

  /** Parameters written as key=value, joined by '&'. */
  function JoinParams(params: seq<Param>): string
  {
    if params == [] then ""
    else Piece(params[0]) + (if |params| == 1 then "" else "&" + JoinParams(params[1..]))
  }

  lemma PlainUnescapes(s: string)
    requires Plain(s)
    ensures QueryUnescape(s) == Success(s)
  {
    if s != "" {
      PlainUnescapes(s[1..]);
      assert [s[0]] + s[1..] == s;
    }
  }

  /** The first c in a + b, when a holds none and b is empty or starts with
      c, is at |a|. */
  lemma {:induction false} IndexOfJoin(a: string, b: string, c: char)
    requires forall j :: 0 <= j < |a| ==> a[j] != c
    requires b == "" || b[0] == c
    ensures IndexOf(a + b, c) == |a|
  {
    if a != "" {
      assert (a + b)[1..] == a[1..] + b;
      IndexOfJoin(a[1..], b, c);
    } else {
      assert a + b == b;
    }
  }

  /** One plain key=value piece parses to that parameter. */
  lemma ParsePlainPiece(p: Param, params: seq<Param>)
    requires Plain(p.key) && Plain(p.value) && p.key != ""
    ensures ParsePiece(Piece(p), params, None) == (params + [p], None)
  {
    var piece := Piece(p);
    assert piece == p.key + ("=" + p.value);
    IndexOfJoin(p.key, "=" + p.value, '=');
    assert forall j :: 0 <= j < |piece| ==> PlainChar(piece[j]) || piece[j] == '=';
    assert !Contains(piece, ';');
    assert Before(piece, '=') == p.key;
    assert After(piece, '=') == p.value;
    PlainUnescapes(p.key);
    PlainUnescapes(p.value);
  }

  /** A plain piece followed by nothing or by '&' is cut there. */
  lemma CutPlainPiece(p: Param, rest: string)
    requires Plain(p.key) && Plain(p.value)
    requires rest == "" || rest[0] == '&'
    ensures Before(Piece(p) + rest, '&') == Piece(p)
    ensures After(Piece(p) + rest, '&') == if rest == "" then "" else rest[1..]
  {
    var piece := Piece(p);
    assert forall j :: 0 <= j < |piece| ==> PlainChar(piece[j]) || piece[j] == '=';
    IndexOfJoin(piece, rest, '&');
  }

  /** Parsing a query that starts with a plain piece adds that parameter
      and goes on after the '&'. */
  lemma ParseFirstPiece(p: Param, rest: string, acc: seq<Param>)
    requires PlainParam(p)
    requires rest == "" || rest[0] == '&'
    ensures ParsePieces(Piece(p) + rest, acc, None)
         == ParsePieces(if rest == "" then "" else rest[1..], acc + [p], None)
  {
    var q := Piece(p) + rest;
    assert q != "" by {
      assert |Piece(p)| > 0;
    }
    CutPlainPiece(p, rest);
    ParsePlainPiece(p, acc);
  }

  lemma AppendFirst(acc: seq<Param>, s: seq<Param>)
    requires |s| > 0
    ensures acc + [s[0]] + s[1..] == acc + s
  {
    assert [s[0]] + s[1..] == s;
  }

  /** Plain parameters joined by '&' parse back to themselves. */
  lemma {:induction false} ParseJoinedFrom(params: seq<Param>, acc: seq<Param>)
    requires forall i :: 0 <= i < |params| ==> PlainParam(params[i])
    ensures ParsePieces(JoinParams(params), acc, None) == (acc + params, None)
    decreases |params|
  {
    if params == [] {
      assert acc + params == acc;
    } else if |params| == 1 {
      ParseFirstPiece(params[0], "", acc);
      assert JoinParams(params) == Piece(params[0]) + "";
      assert acc + params == acc + [params[0]];
    } else {
      var tail := params[1..];
      assert ParsePieces(JoinParams(params), acc, None)
          == ParsePieces(JoinParams(tail), acc + [params[0]], None) by {
        var rest := "&" + JoinParams(tail);
        ParseFirstPiece(params[0], rest, acc);
        assert JoinParams(params) == Piece(params[0]) + rest;
        assert rest[1..] == JoinParams(tail);
      }
      assert forall i :: 0 <= i < |tail| ==> PlainParam(tail[i]) by {
        assert forall i :: 0 <= i < |tail| ==> tail[i] == params[i + 1];
      }
      ParseJoinedFrom(tail, acc + [params[0]]);
      AppendFirst(acc, params);
    }
  }

  /** `url.ParseQuery` reads back plain parameters joined by '&'. */
  lemma ParseJoined(params: seq<Param>)
    requires forall i :: 0 <= i < |params| ==> PlainParam(params[i])
    ensures ParseQuery(JoinParams(params)) == Success(params)
  {
    ParseJoinedFrom(params, []);
  }

  /** A piece with a semicolon makes the query an error. */
  lemma SemicolonRejected()
    ensures ParseQuery("a=1;b=2") == Failure(SemicolonMessage)
  {
    var q := "a=1;b=2";
    assert IndexOf(q, '&') == 7;
    assert Before(q, '&') == q && After(q, '&') == "";
    assert q[3] == ';';
    assert ParsePiece(q, [], None) == ([], Some(SemicolonMessage));
  }

  /** A malformed escape makes the query an error with that escape. */
  lemma MalformedEscapeRejected()
    ensures ParseQuery("a=%zz") == Failure("invalid URL escape \"%zz\"")
  {
    var q := "a=%zz";
    assert IndexOf(q, '&') == 5;
    assert Before(q, '&') == q && After(q, '&') == "";
    assert !Contains(q, ';');
    assert IndexOf(q, '=') == 1;
    assert Before(q, '=') == "a" && After(q, '=') == "%zz";
    assert QueryUnescape("a") == Success("a") by {
      assert ['a'] + "" == "a";
    }
    assert QueryUnescape("%zz") == Failure(EscapeError("%zz")) by {
      assert "%zz"[..3] == "%zz" && !IsHex("%zz"[1]);
    }
    assert EscapeError("%zz").Message() == "invalid URL escape \"%zz\"";
  }
}
