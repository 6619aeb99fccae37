/** `java.net.URI.create(u).getPath()`, as far as the controller relies on it: which strings
    are rejected (RFC 2396 syntax, with Java's allowance for non-ASCII "other" characters),
    where the path component lies, and its percent-decoding. */
module JavaUri {
  import opened Common
  import opened Text
  import Utf8
  import UrlCodec

  const Malformed: Error := IllegalArgument("URISyntaxException")

  predicate IsAlpha(c: char) { ('a' <= c <= 'z') || ('A' <= c <= 'Z') }
  predicate IsAlnum(c: char) { IsAlpha(c) || ('0' <= c <= '9') }

  /** RFC 2396 "mark" characters, unreserved besides letters and digits. */
  predicate IsMark(c: char) {
    c == '-' || c == '_' || c == '.' || c == '!' || c == '~' || c == '*' || c == '\'' || c == '(' || c == ')'
  }

  /** `Character.isSpaceChar` outside ASCII. */
  predicate IsSpaceChar(c: char) {
    || c == '\U{A0}' || c == '\U{1680}' || ('\U{2000}' <= c <= '\U{200A}') || c == '\U{2028}'
    || c == '\U{2029}' || c == '\U{202F}' || c == '\U{205F}' || c == '\U{3000}'
  }

  /** Java's "other" category: a non-ASCII character that is neither a control nor a space. */
  predicate IsOther(c: char) {
    c > '\U{80}' && !('\U{80}' <= c <= '\U{9F}') && !IsSpaceChar(c)
  }

  /** The components, each with its own set of literal characters. */
  datatype Part = Opaque | Authority | PathPart | Query | Fragment

  /** A character a component may hold literally (escapes and "other" characters aside). */
  predicate Allowed(k: Part, c: char) {
    IsAlnum(c) || IsMark(c) ||
    match k
    case PathPart => c in ";:@&=+$,/"
    case Authority => c in ";:@&=+$,[]"
    case _ => c in ";/?:@&=+$,[]"
  }

  /** Every character is allowed, an "other" character, or the start of a complete escape. */
  predicate Component(k: Part, s: string) {
    forall i :: 0 <= i < |s| ==>
      Allowed(k, s[i]) || IsOther(s[i])
      || (s[i] == '%' && i + 2 < |s| && UrlCodec.IsHex(s[i + 1]) && UrlCodec.IsHex(s[i + 2]))
  }

  /** A scheme name: a letter, then letters, digits, '+', '-' and '.'. */
  predicate IsScheme(s: string) {
    s != [] && IsAlpha(s[0]) && forall i :: 1 <= i < |s| ==> IsAlnum(s[i]) || s[i] in "+-."
  }

  /** The ':' that ends a scheme: the first ':' when no '/' or '?' comes before it; -1 if none. */
  function SchemeColon(s: string): (r: int)
    ensures -1 <= r < |s|
    ensures r >= 0 ==> s[r] == ':'
    ensures ':' !in s ==> r == -1
  {
    var k := IndexOf(s, ':');
    if k >= 0 && forall j :: 0 <= j < k ==> s[j] != '/' && s[j] != '?' then k else -1
  }

  /** `URI.decode`: escapes decoded as UTF-8 (malformed sequences become U+FFFD); '+' is an
      ordinary character here, unlike in `URLDecoder`. */
  function Decode(s: string): (r: Result<string>)
    decreases |s|
  {
    if s == [] then Ok([])
    else if s[0] == '%' then
      var run :- UrlCodec.EscapeRun(s);
      var rest :- Decode(s[run.1..]);
      Ok(Utf8.Decode(run.0) + rest)
    else
      var rest :- Decode(s[1..]);
      Ok([s[0]] + rest)
  }

  /** The decoded path of a valid hierarchical path component. */
  function DecodedPath(path: string): Result<Option<string>> {
    var d :- Decode(path);
    Ok(Some(d))
  }

  /** `URI.create(u).getPath()`: an error where the constructor throws, None for an opaque
      URI (a scheme not followed by '/'), otherwise the decoded path component. */
  function Path(u: string): (r: Result<Option<string>>)
    ensures r.Ok? && r.value.None? ==> SchemeColon(u) > 0
  {
    var h := IndexOf(u, '#');
    var body := if h < 0 then u else u[..h];
    var fragment := if h < 0 then [] else u[h + 1..];
    var c := SchemeColon(body);
    if !Component(Fragment, fragment) || c == 0 then Err(Malformed)
    else if c > 0 && (!IsScheme(body[..c]) || c + 1 == |body|) then Err(Malformed)
    else if c > 0 && body[c + 1] != '/' then
      if Component(Opaque, body[c + 1..]) then Ok(None) else Err(Malformed)
    else
      var hier := if c > 0 then body[c + 1..] else body;
      var q := IndexOf(hier, '?');
      var beforeQuery := if q < 0 then hier else hier[..q];
      var query := if q < 0 then [] else hier[q + 1..];
      if !Component(Query, query) then Err(Malformed)
      else if StartsWith(beforeQuery, "//") then
        var rest := beforeQuery[2..];
        var a := IndexOf(rest, '/');
        var authority := if a < 0 then rest else rest[..a];
        var path := if a < 0 then [] else rest[a..];
        if rest == [] && q < 0 && h < 0 then Err(Malformed)
        else if !Component(Authority, authority) || !Component(PathPart, path) then Err(Malformed)
        else DecodedPath(path)
      else if !Component(PathPart, beforeQuery) then Err(Malformed)
      else DecodedPath(beforeQuery)
  }

  // ---------------------------------------------------------------- lemmas

  /** Without '+', `URI.decode` and `URLDecoder.decode` agree. */
  lemma {:induction false} DecodeAgrees(s: string)
    requires '+' !in s
    ensures Decode(s) == UrlCodec.Decode(s)
    decreases |s|
  {
    if s != [] {
      if s[0] == '%' {
        var run := UrlCodec.EscapeRun(s);
        if run.Ok? {
          assert forall i :: 0 <= i < |s| - run.value.1 ==> s[run.value.1..][i] == s[run.value.1 + i];
          DecodeAgrees(s[run.value.1..]);
        }
      } else {
        assert forall i :: 0 <= i < |s| - 1 ==> s[1..][i] == s[i + 1];
        DecodeAgrees(s[1..]);
      }
    }
  }

  /** A slash-rooted relative reference without ':', '?', '#' or '+', all of whose characters
      are letters, digits, slashes, one of "-_.*" or complete escapes, is a valid URI whose path
      is its percent-decoding. */
  lemma PathOfPlainReference(u: string)
    requires |u| >= 2 && u[0] == '/' && u[1] != '/'
    requires forall i :: 0 <= i < |u| ==> IsAlnum(u[i]) || u[i] in "-_.*/%"
    requires UrlCodec.WellEscaped(u)
    ensures UrlCodec.Decode(u).Ok? ==> Path(u) == Ok(Some(UrlCodec.Decode(u).value))
  {
    PlainComponent(u);
    NotDoubleSlash(u);
    PathOfRelative(u);
    DecodeAgrees(u);
  }

  lemma NotDoubleSlash(u: string)
    requires |u| >= 2 && u[1] != '/'
    ensures !StartsWith(u, "//")
  {
    assert u[..2] != "//";
  }

  lemma PlainComponent(u: string)
    requires forall i :: 0 <= i < |u| ==> IsAlnum(u[i]) || u[i] in "-_.*/%"
    requires UrlCodec.WellEscaped(u)
    ensures '#' !in u && '?' !in u && ':' !in u && '+' !in u
    ensures Component(PathPart, u)
  {
    forall i | 0 <= i < |u| ensures u[i] != '#' && u[i] != '?' && u[i] != ':' && u[i] != '+' {
      assert IsAlnum(u[i]) || u[i] in "-_.*/%";
    }
    forall i | 0 <= i < |u|
      ensures Allowed(PathPart, u[i]) || (u[i] == '%' && i + 2 < |u| && UrlCodec.IsHex(u[i + 1]) && UrlCodec.IsHex(u[i + 2]))
    {
      assert IsAlnum(u[i]) || u[i] in "-_.*/%";
    }
  }

  /** A reference with no scheme, query, fragment or authority is all path. */
  lemma PathOfRelative(u: string)
    requires '#' !in u && '?' !in u && ':' !in u
    requires !StartsWith(u, "//") && Component(PathPart, u)
    ensures Path(u) == DecodedPath(u)
  {
    assert IndexOf(u, '#') < 0;
    assert SchemeColon(u) == -1;
    assert IndexOf(u, '?') < 0;
  }
}
