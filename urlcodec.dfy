/** `java.net.URLEncoder.encode(s, UTF_8)` and `java.net.URLDecoder.decode(s, UTF_8)`,
    with the `.replace("+", "%20")` that the file store applies to encoded names. */
module UrlCodec {
  import opened Common
  import opened Text
  import Utf8

  /** Characters URLEncoder copies unchanged. */
  predicate IsUnreserved(c: char) {
    ('a' <= c <= 'z') || ('A' <= c <= 'Z') || ('0' <= c <= '9') || c == '.' || c == '-' || c == '*' || c == '_'
  }

  const HexDigits: string := "0123456789ABCDEF"

  /** One byte as `%XY`, upper-case hex. */
  function Escape(b: Utf8.Byte): (r: string)
    ensures |r| == 3 && r[0] == '%' && IsUnreserved(r[1]) && IsUnreserved(r[2])
  {
    ['%', HexDigits[b / 16], HexDigits[b % 16]]
  }

  function Escapes(bs: seq<Utf8.Byte>): (r: string)
    ensures |r| == 3 * |bs|
    ensures forall i :: 0 <= i < |r| ==> IsUnreserved(r[i]) || r[i] == '%'
    ensures bs != [] ==> r[0] == '%'
  {
    if bs == [] then [] else Escape(bs[0]) + Escapes(bs[1..])
  }

  /** URLEncoder on one character: kept, a space becomes '+', anything else is the escape
      of its UTF-8 bytes. */
  function EncoderChar(c: char): (r: string)
    ensures r != []
  {
    if IsUnreserved(c) then [c]
    else if c == ' ' then "+"
    else Escapes(Utf8.EncodeChar(c))
  }

  /** `URLEncoder.encode(s, UTF_8)`. */
  function JavaEncode(s: string): string {
    if s == [] then [] else EncoderChar(s[0]) + JavaEncode(s[1..])
  }

  /** `t.replace("+", "%20")`. */
  function PlusAsEscape(t: string): (r: string)
    ensures '+' !in t ==> r == t
  {
    if t == [] then [] else (if t[0] == '+' then "%20" else [t[0]]) + PlusAsEscape(t[1..])
  }

  /** The encoding of a stored file name inside a file URL. */
  function EncodeName(s: string): string {
    PlusAsEscape(JavaEncode(s))
  }

  // ---------------------------------------------------------------- decoding

  const IncompleteMsg: string := "URLDecoder: Incomplete trailing escape (%) pattern"
  const IllegalHexMsg: string := "URLDecoder: Illegal hex characters in escape (%) pattern - "

  predicate IsHex(c: char) { ('0' <= c <= '9') || ('a' <= c <= 'f') || ('A' <= c <= 'F') }

  function HexVal(c: char): (v: nat)
    requires IsHex(c)
    ensures v < 16
  {
    if '0' <= c <= '9' then c as int - '0' as int
    else if 'a' <= c <= 'f' then c as int - 'a' as int + 10
    else c as int - 'A' as int + 10
  }

  /** The NumberFormatException text of `Integer.parseInt` for a two-character input that
      fails at index `at`. */
  function ParseIntError(c1: char, c2: char, at: nat): string {
    "Error at index " + NatToString(at) + " in: \"" + [c1, c2] + "\""
  }

  /** `Integer.parseInt(s, i + 1, i + 3, 16)` on the two characters after a '%', followed by
      the decoder's check for a negative value. A leading '+' or '-' sign is accepted by
      parseInt, so "%+A" is the byte 10 and "%-0" the byte 0, while "%-A" is negative. */
  function ParseEscape(c1: char, c2: char): (r: Result<Utf8.Byte>)
    ensures IsHex(c1) && IsHex(c2) ==> r == Ok(16 * HexVal(c1) + HexVal(c2))
    ensures !IsHex(c2) ==> r.Err?
  {
    if IsHex(c1) && IsHex(c2) then Ok(16 * HexVal(c1) + HexVal(c2))
    else if (c1 == '+' || c1 == '-') && IsHex(c2) && (c1 == '+' || HexVal(c2) == 0) then Ok(HexVal(c2))
    else Err(EscapeError(c1, c2))
  }

  /** The exception of a rejected escape: parseInt's NumberFormatException, which names the
      index where parsing stopped, or the decoder's own negative-value check. */
  function EscapeError(c1: char, c2: char): Error {
    if IsHex(c1) || c1 == '+' || c1 == '-' then
      if IsHex(c2) then IllegalArgument("URLDecoder: Illegal hex characters in escape (%) pattern - negative value")
      else IllegalArgument(IllegalHexMsg + ParseIntError(c1, c2, 1))
    else IllegalArgument(IllegalHexMsg + ParseIntError(c1, c2, 0))
  }

  /** The decoder's inner loop on a maximal run of escapes starting at a '%': the bytes and
      the number of characters consumed. */
  function EscapeRun(s: string): (r: Result<(seq<Utf8.Byte>, nat)>)
    requires |s| > 0 && s[0] == '%'
    ensures r.Ok? ==> |r.value.0| >= 1 && r.value.1 == 3 * |r.value.0| && r.value.1 <= |s|
    ensures r.Ok? ==> r.value.1 == |s| || s[r.value.1] != '%'
    ensures |s| < 3 ==> r == Err(IllegalArgument(IncompleteMsg))
    decreases |s|
  {
    if |s| < 3 then Err(IllegalArgument(IncompleteMsg))
    else
      var b :- ParseEscape(s[1], s[2]);
      if |s| > 3 && s[3] == '%' then
        var run :- EscapeRun(s[3..]);
        Ok(([b] + run.0, 3 + run.1))
      else Ok(([b], 3))
  }

  /** `URLDecoder.decode(s, UTF_8)`: '+' is a space, a run of escapes is decoded as UTF-8,
      every other character is kept; the first malformed escape is an IllegalArgumentException. */
  function Decode(s: string): (r: Result<string>)
    ensures ('%' !in s && '+' !in s) ==> r == Ok(s)
    decreases |s|
  {
    if s == [] then Ok([])
    else if s[0] == '+' then
      var rest :- Decode(s[1..]);
      Ok([' '] + rest)
    else if s[0] == '%' then
      var run :- EscapeRun(s);
      var rest :- Decode(s[run.1..]);
      Ok(Utf8.Decode(run.0) + rest)
    else
      assert '%' !in s && '+' !in s ==> '%' !in s[1..] && '+' !in s[1..];
      var rest :- Decode(s[1..]);
      assert '%' !in s && '+' !in s ==> [s[0]] + rest == s;
      Ok([s[0]] + rest)
  }

  // ---------------------------------------------------------------- lemmas

  lemma {:induction false} EscapesAppend(a: seq<Utf8.Byte>, b: seq<Utf8.Byte>)
    ensures Escapes(a + b) == Escapes(a) + Escapes(b)
  {
    if a == [] {
      assert a + b == b;
    } else {
      assert (a + b)[0] == a[0] && (a + b)[1..] == a[1..] + b;
      EscapesAppend(a[1..], b);
    }
  }

  lemma {:induction false} JavaEncodeAppend(a: string, b: string)
    ensures JavaEncode(a + b) == JavaEncode(a) + JavaEncode(b)
  {
    if a == [] {
      assert a + b == b;
    } else {
      assert (a + b)[0] == a[0] && (a + b)[1..] == a[1..] + b;
      JavaEncodeAppend(a[1..], b);
    }
  }

  lemma {:induction false} PlusAsEscapeAppend(a: string, b: string)
    ensures PlusAsEscape(a + b) == PlusAsEscape(a) + PlusAsEscape(b)
  {
    if a == [] {
      assert a + b == b;
    } else {
      assert (a + b)[0] == a[0] && (a + b)[1..] == a[1..] + b;
      PlusAsEscapeAppend(a[1..], b);
    }
  }

  /** An encoded name consists of unreserved characters and escapes only; in particular it
      holds no '/', '\', '?', '+' or space. */
  lemma {:induction false} EncodeNameAlphabet(s: string)
    ensures forall i :: 0 <= i < |EncodeName(s)| ==> IsUnreserved(EncodeName(s)[i]) || EncodeName(s)[i] == '%'
  {
    if s != [] {
      assert [s[0]] + s[1..] == s;
      EncodeNameAppend([s[0]], s[1..]);
      EncodeNameOfChar(s[0]);
      EncodeNameAlphabet(s[1..]);
      EscapedConcat(EncodeName([s[0]]), EncodeName(s[1..]));
    }
  }

  /** Unreserved characters and '%' only. */
  predicate EscapedOnly(t: string) {
    forall i :: 0 <= i < |t| ==> IsUnreserved(t[i]) || t[i] == '%'
  }

  lemma EscapedConcat(a: string, b: string)
    requires EscapedOnly(a) && EscapedOnly(b)
    ensures EscapedOnly(a + b)
  {
  }

  /** Encoding never shortens a name. */
  lemma {:induction false} EncodeNameLength(s: string)
    ensures |EncodeName(s)| >= |s|
    decreases |s|
  {
    if s != [] {
      assert [s[0]] + s[1..] == s;
      EncodeNameAppend([s[0]], s[1..]);
      EncodeNameOfChar(s[0]);
      EncodeNameLength(s[1..]);
      if !IsUnreserved(s[0]) {
        assert |Utf8.EncodeChar(s[0])| >= 1;
      }
    }
  }

  /** The encoding of one character in a file URL. */
  lemma EncodeNameOfChar(c: char)
    ensures EncodeName([c]) == if IsUnreserved(c) then [c] else Escapes(Utf8.EncodeChar(c))
  {
    assert JavaEncode([c]) == EncoderChar(c);
    if c == ' ' {
      assert EncodeName([c]) == "%20";
      assert Utf8.EncodeChar(c) == [32];
      assert Escape(32) == "%20";
    } else if !IsUnreserved(c) {
      assert '+' !in Escapes(Utf8.EncodeChar(c));
    }
  }

  lemma EncodeNameAppend(a: string, b: string)
    ensures EncodeName(a + b) == EncodeName(a) + EncodeName(b)
  {
    JavaEncodeAppend(a, b);
    PlusAsEscapeAppend(JavaEncode(a), JavaEncode(b));
  }

  /** A run of characters that all need escaping encodes to the escapes of its UTF-8 bytes. */
  lemma {:induction false} EncodeNameOfReserved(u: string)
    requires forall i :: 0 <= i < |u| ==> !IsUnreserved(u[i])
    ensures EncodeName(u) == Escapes(Utf8.Encode(u))
  {
    if u != [] {
      assert u == [u[0]] + u[1..];
      EncodeNameAppend([u[0]], u[1..]);
      EncodeNameOfChar(u[0]);
      EncodeNameOfReserved(u[1..]);
      EscapesAppend(Utf8.EncodeChar(u[0]), Utf8.Encode(u[1..]));
    }
  }

  lemma HexDigitValue(d: nat)
    requires d < 16
    ensures IsHex(HexDigits[d]) && HexVal(HexDigits[d]) == d
  {
  }

  /** The decoder reads back exactly the bytes of a run of escapes that is not followed by
      another '%'. */
  lemma ParseEscapeOfEscape(b: Utf8.Byte)
    ensures ParseEscape(Escape(b)[1], Escape(b)[2]) == Ok(b)
  {
    HexDigitValue(b / 16);
    HexDigitValue(b % 16);
  }

  lemma EscapeRunLast(x: string, b: Utf8.Byte)
    requires |x| >= 3 && x[0] == '%' && ParseEscape(x[1], x[2]) == Ok(b)
    requires |x| == 3 || x[3] != '%'
    ensures EscapeRun(x) == Ok(([b], 3))
  {
  }

  lemma EscapeRunNext(x: string, b: Utf8.Byte, more: seq<Utf8.Byte>, k: nat)
    requires |x| > 3 && x[0] == '%' && ParseEscape(x[1], x[2]) == Ok(b) && x[3] == '%'
    requires EscapeRun(x[3..]) == Ok((more, k))
    ensures EscapeRun(x) == Ok(([b] + more, 3 + k))
  {
  }

  lemma EscapesSplit(bs: seq<Utf8.Byte>, t: string)
    requires bs != []
    ensures var x := Escapes(bs) + t;
      |x| >= 3 && x[0] == '%' && ParseEscape(x[1], x[2]) == Ok(bs[0]) && x[3..] == Escapes(bs[1..]) + t
  {
    var e := Escape(bs[0]);
    assert Escapes(bs) == e + Escapes(bs[1..]);
    ThreeHead(e, Escapes(bs[1..]), t);
    ParseEscapeOfEscape(bs[0]);
  }

  lemma ThreeHead(e: string, u: string, t: string)
    requires |e| == 3
    ensures var x := e + u + t;
      |x| >= 3 && x[0] == e[0] && x[1] == e[1] && x[2] == e[2] && x[3..] == u + t
  {
    var x := e + u + t;
    assert x == e + (u + t);
    assert x[3..] == u + t;
  }

  lemma {:induction false} EscapeRunOfEscapes(bs: seq<Utf8.Byte>, t: string)
    requires bs != []
    requires t == [] || t[0] != '%'
    ensures EscapeRun(Escapes(bs) + t) == Ok((bs, 3 * |bs|))
  {
    var x := Escapes(bs) + t;
    EscapesSplit(bs, t);
    if |bs| > 1 {
      EscapeRunOfEscapes(bs[1..], t);
      assert x[3] == x[3..][0];
      EscapeRunNext(x, bs[0], bs[1..], 3 * |bs[1..]|);
      assert [bs[0]] + bs[1..] == bs;
    } else {
      assert x[3..] == t;
      assert |x| > 3 ==> x[3] == x[3..][0];
      EscapeRunLast(x, bs[0]);
      assert [bs[0]] == bs;
    }
  }

  /** Length of the longest prefix of `s` made of characters that need escaping. */
  function ReservedPrefix(s: string): (n: nat)
    ensures n <= |s|
    ensures forall i :: 0 <= i < n ==> !IsUnreserved(s[i])
    ensures n < |s| ==> IsUnreserved(s[n])
  {
    if s == [] || IsUnreserved(s[0]) then 0 else 1 + ReservedPrefix(s[1..])
  }

  /** Round trip: decoding an encoded name gives the name back, for every name. */
  lemma {:induction false} DecodeEncodeName(s: string)
    ensures Decode(EncodeName(s)) == Ok(s)
    decreases |s|
  {
    if s == [] {
    } else if IsUnreserved(s[0]) {
      assert s == [s[0]] + s[1..];
      EncodeNameAppend([s[0]], s[1..]);
      EncodeNameOfChar(s[0]);
      var e := EncodeName(s);
      assert e[0] == s[0] && e[1..] == EncodeName(s[1..]);
      DecodeEncodeName(s[1..]);
    } else {
      var n := ReservedPrefix(s);
      var u, v := s[..n], s[n..];
      assert s == u + v;
      EncodeNameAppend(u, v);
      EncodeNameOfReserved(u);
      var bs := Utf8.Encode(u);
      assert bs != [] by { assert |bs| >= |u| >= 1; }
      var tail := EncodeName(v);
      if v != [] {
        assert v == [v[0]] + v[1..];
        EncodeNameAppend([v[0]], v[1..]);
        EncodeNameOfChar(v[0]);
        assert tail[0] == v[0];
      }
      EscapeRunOfEscapes(bs, tail);
      var e := Escapes(bs) + tail;
      assert e[3 * |bs|..] == tail;
      DecodeEncodeName(v);
      Utf8.DecodeEncode(u);
    }
  }

  /** A decoding result with `p` put in front of the decoded text; errors pass unchanged. */
  function Prefixed(p: string, r: Result<string>): Result<string> {
    if r.Ok? then Ok(p + r.value) else r
  }

  /** A plain first character is copied and the rest decoded. */
  lemma DecodePlainHead(s: string)
    requires s != [] && s[0] != '%' && s[0] != '+'
    ensures Decode(s) == Prefixed([s[0]], Decode(s[1..]))
  {
  }

  /** Decoding copies a plain first `n` characters and decodes the rest. */
  lemma {:induction false} DecodeSkipPlain(s: string, n: nat)
    requires n <= |s| && forall i :: 0 <= i < n ==> s[i] != '%' && s[i] != '+'
    ensures Decode(s) == Prefixed(s[..n], Decode(s[n..]))
  {
    if n == 0 {
      SkipNothing(s, Decode(s));
    } else {
      PlainTail(s, n);
      DecodeSkipPlain(s[1..], n - 1);
      SkipPlainStep(s, n, Decode(s[n..]));
    }
  }

  lemma SkipNothing(s: string, r: Result<string>)
    ensures s[0..] == s && Prefixed(s[..0], r) == r
  {
    if r.Ok? {
      assert s[..0] + r.value == r.value;
    }
  }

  lemma PlainTail(s: string, n: nat)
    requires 0 < n <= |s| && forall i :: 0 <= i < n ==> s[i] != '%' && s[i] != '+'
    ensures s[0] != '%' && s[0] != '+'
    ensures s[1..][n - 1..] == s[n..]
    ensures forall i :: 0 <= i < n - 1 ==> s[1..][i] != '%' && s[1..][i] != '+'
  {
  }

  lemma SkipPlainStep(s: string, n: nat, d: Result<string>)
    requires 0 < n <= |s| && s[0] != '%' && s[0] != '+'
    requires d == Decode(s[n..])
    requires Decode(s[1..]) == Prefixed(s[1..][..n - 1], d)
    ensures Decode(s) == Prefixed(s[..n], d)
  {
    DecodePlainHead(s);
    HeadAndRest(s, n);
    PrefixedTwice([s[0]], s[1..][..n - 1], d);
  }

  lemma HeadAndRest(s: string, n: nat)
    requires 0 < n <= |s|
    ensures s[..n] == [s[0]] + s[1..][..n - 1]
  {
  }

  lemma PrefixedTwice(a: string, b: string, r: Result<string>)
    ensures Prefixed(a, Prefixed(b, r)) == Prefixed(a + b, r)
  {
    if r.Ok? {
      assert a + (b + r.value) == (a + b) + r.value;
    }
  }

  /** Characters without '%' and '+' decode to themselves, whatever follows them. */
  lemma DecodePlainPrefix(p: string, t: string)
    requires '%' !in p && '+' !in p
    ensures Decode(t).Err? ==> Decode(p + t) == Decode(t)
    ensures Decode(t).Ok? ==> Decode(p + t) == Ok(p + Decode(t).value)
  {
    PlainConcat(p, t);
    DecodeSkipPlain(p + t, |p|);
  }

  lemma PlainConcat(p: string, t: string)
    requires '%' !in p && '+' !in p
    ensures (p + t)[..|p|] == p && (p + t)[|p|..] == t
    ensures forall i :: 0 <= i < |p| ==> (p + t)[i] != '%' && (p + t)[i] != '+'
  {
    forall i | 0 <= i < |p| ensures (p + t)[i] != '%' && (p + t)[i] != '+' {
      assert (p + t)[i] == p[i];
    }
  }

  /** Every '%' starts a complete escape: two hexadecimal digits follow it. */
  predicate WellEscaped(s: string) {
    forall i :: 0 <= i < |s| && s[i] == '%' ==> i + 2 < |s| && IsHex(s[i + 1]) && IsHex(s[i + 2])
  }

  lemma WellEscapedAppend(a: string, b: string)
    requires WellEscaped(a) && WellEscaped(b)
    ensures WellEscaped(a + b)
  {
    var s := a + b;
    forall i | 0 <= i < |s| && s[i] == '%' ensures i + 2 < |s| && IsHex(s[i + 1]) && IsHex(s[i + 2]) {
      if i < |a| {
        assert a[i] == '%';
      } else {
        assert b[i - |a|] == '%';
      }
    }
  }

  lemma {:induction false} EscapesWellEscaped(bs: seq<Utf8.Byte>)
    ensures WellEscaped(Escapes(bs))
  {
    if bs != [] {
      EscapesWellEscaped(bs[1..]);
      var e := Escape(bs[0]);
      HexDigitValue(bs[0] / 16);
      HexDigitValue(bs[0] % 16);
      assert WellEscaped(e);
      WellEscapedAppend(e, Escapes(bs[1..]));
    }
  }

  /** The encoding of a stored name holds only complete escapes. */
  lemma {:induction false} EncodeNameWellEscaped(s: string)
    ensures WellEscaped(EncodeName(s))
    decreases |s|
  {
    if s != [] {
      assert s == [s[0]] + s[1..];
      EncodeNameAppend([s[0]], s[1..]);
      EncodeNameOfChar(s[0]);
      if !IsUnreserved(s[0]) {
        EscapesWellEscaped(Utf8.EncodeChar(s[0]));
      }
      EncodeNameWellEscaped(s[1..]);
      WellEscapedAppend(EncodeName([s[0]]), EncodeName(s[1..]));
    } else {
      assert EncodeName(s) == [];
    }
  }
}
