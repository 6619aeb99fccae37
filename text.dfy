/** The java.lang.String operations the core relies on, on `seq<char>`.
    A Dafny `char` is a Unicode scalar value, so one `char` is one code point. */
module Text {

  /** `Character.isWhitespace`: the space, line and paragraph separators other than the
      no-break spaces, plus the ASCII controls TAB, LF, VT, FF, CR and FS..US. */
  predicate IsJavaWhitespace(c: char) {
    || c == ' ' || c == '\t' || c == '\n' || c == '\U{B}' || c == '\U{C}' || c == '\r'
    || ('\U{1C}' <= c <= '\U{1F}')
    || c == '\U{1680}' || ('\U{2000}' <= c <= '\U{2006}') || ('\U{2008}' <= c <= '\U{200A}')
    || c == '\U{2028}' || c == '\U{2029}' || c == '\U{205F}' || c == '\U{3000}'
  }

  /** `String.isBlank`: empty or only white space. */
  predicate IsBlank(s: string) {
    forall i :: 0 <= i < |s| ==> IsJavaWhitespace(s[i])
  }

  /** `String.trim` removes every leading and trailing character whose code is at most U+0020. */
  predicate IsTrimmable(c: char) { c <= ' ' }

  function LeadingCut(s: string): (k: nat)
    ensures k <= |s|
    ensures forall i :: 0 <= i < k ==> IsTrimmable(s[i])
    ensures k < |s| ==> !IsTrimmable(s[k])
  {
    if s == [] || !IsTrimmable(s[0]) then 0 else 1 + LeadingCut(s[1..])
  }

  function TrailingKeep(s: string): (k: nat)
    ensures k <= |s|
    ensures forall i :: k <= i < |s| ==> IsTrimmable(s[i])
    ensures k > 0 ==> !IsTrimmable(s[k - 1])
  {
    if s == [] || !IsTrimmable(s[|s| - 1]) then |s| else TrailingKeep(s[..|s| - 1])
  }

  function Trim(s: string): (r: string)
    ensures |r| <= |s|
    ensures r == s[LeadingCut(s)..][..TrailingKeep(s[LeadingCut(s)..])]
    ensures r != [] ==> !IsTrimmable(r[0]) && !IsTrimmable(r[|r| - 1])
    ensures (forall i :: 0 <= i < |s| ==> IsTrimmable(s[i])) <==> r == []
  {
    var t := s[LeadingCut(s)..];
    var r := t[..TrailingKeep(t)];
    assert r != [] ==> r[0] == s[LeadingCut(s)];
    r
  }

  /** A string that neither starts nor ends with a trimmable character is its own trim. */
  lemma TrimIdle(s: string)
    requires s != [] && !IsTrimmable(s[0]) && !IsTrimmable(s[|s| - 1])
    ensures Trim(s) == s
  {
    assert LeadingCut(s) == 0;
    assert s[0..] == s;
    assert TrailingKeep(s) == |s|;
  }

  predicate StartsWith(s: string, p: string) {
    |p| <= |s| && s[..|p|] == p
  }

  predicate EndsWith(s: string, p: string) {
    |p| <= |s| && s[|s| - |p|..] == p
  }

  /** `s.lastIndexOf(c)`, -1 when absent. */
  function LastIndexOf(s: string, c: char): (r: int)
    ensures -1 <= r < |s|
    ensures r >= 0 ==> s[r] == c
    ensures forall k :: r < k < |s| ==> s[k] != c
  {
    if s == [] then -1
    else if s[|s| - 1] == c then |s| - 1
    else LastIndexOf(s[..|s| - 1], c)
  }

  /** `s.indexOf(c)`, -1 when absent. */
  function IndexOf(s: string, c: char): (r: int)
    ensures -1 <= r < |s|
    ensures r >= 0 ==> s[r] == c
    ensures forall k :: 0 <= k < (if r < 0 then |s| else r) ==> s[k] != c
  {
    if s == [] then -1
    else if s[0] == c then 0
    else var k := IndexOf(s[1..], c); if k < 0 then -1 else k + 1
  }

  /** `s.substring(s.lastIndexOf(c) + 1)`: the text after the last `c`, or all of `s`. */
  function AfterLast(s: string, c: char): (r: string)
    ensures c !in r
    ensures EndsWith(s, r)
    ensures |r| < |s| ==> s[|s| - |r| - 1] == c
  {
    s[LastIndexOf(s, c) + 1..]
  }

  /** After a prefix ending in `c`, the text after the last `c` is a `c`-free suffix. */
  lemma AfterLastAppend(p: string, t: string, c: char)
    requires p != [] && p[|p| - 1] == c && c !in t
    ensures AfterLast(p + t, c) == t
  {
    var s := p + t;
    assert s[|p| - 1] == c;
    assert forall k :: |p| <= k < |s| ==> s[k] == t[k - |p|];
    assert LastIndexOf(s, c) == |p| - 1;
    assert s[|p|..] == t;
  }

  /** Without `c`, the text after the last `c` is everything. */
  lemma AfterLastAbsent(s: string, c: char)
    requires c !in s
    ensures AfterLast(s, c) == s
  {
    assert LastIndexOf(s, c) == -1;
    assert s[0..] == s;
  }

  /** `s.replace(a, b)` for single characters. */
  function ReplaceChar(s: string, a: char, b: char): (r: string)
    ensures |r| == |s|
    ensures forall i :: 0 <= i < |s| ==> r[i] == (if s[i] == a then b else s[i])
  {
    seq(|s|, i requires 0 <= i < |s| => if s[i] == a then b else s[i])
  }

  /** The pieces of `s` between occurrences of `c` (every piece, empty ones included). */
  function SplitAll(s: string, c: char): (r: seq<string>)
    ensures |r| >= 1
    ensures forall i :: 0 <= i < |r| ==> c !in r[i]
    ensures JoinWith(r, c) == s
    decreases |s|
  {
    var k := IndexOf(s, c);
    if k < 0 then [s]
    else
      var rest := SplitAll(s[k + 1..], c);
      SplitAround(s, k);
      JoinCons(s[..k], rest, c);
      [s[..k]] + rest
  }

  /** Joining a piece in front of at least one other. */
  lemma JoinCons(a: string, rest: seq<string>, c: char)
    requires |rest| >= 1
    ensures JoinWith([a] + rest, c) == a + [c] + JoinWith(rest, c)
    ensures forall i :: 0 < i < |rest| + 1 ==> ([a] + rest)[i] == rest[i - 1]
  {
    assert ([a] + rest)[1..] == rest;
  }

  /** A string is the text before position `k`, the character there, and the text after. */
  lemma SplitAround(s: string, k: nat)
    requires k < |s|
    ensures s == s[..k] + [s[k]] + s[k + 1..]
  {
  }

  function JoinWith(parts: seq<string>, c: char): string
    requires |parts| >= 1
  {
    if |parts| == 1 then parts[0] else parts[0] + [c] + JoinWith(parts[1..], c)
  }

  /** Splitting at the first separator: the piece before it, then the pieces of the rest. */
  lemma SplitAllAfter(a: string, c: char, b: string)
    requires c !in a
    ensures SplitAll(a + [c] + b, c) == [a] + SplitAll(b, c)
  {
    var s := a + [c] + b;
    var k := IndexOf(s, c);
    assert s[|a|] == c;
    assert forall j :: 0 <= j < |a| ==> s[j] == a[j] && s[j] != c;
    assert k == |a|;
    assert s[..k] == a && s[k + 1..] == b;
  }

  function DropTrailingEmpty(parts: seq<string>): (r: seq<string>)
    ensures |r| <= |parts| && r == parts[..|r|]
    ensures r == [] || r[|r| - 1] != []
    ensures forall i :: |r| <= i < |parts| ==> parts[i] == []
  {
    if parts == [] || parts[|parts| - 1] != [] then parts
    else DropTrailingEmpty(parts[..|parts| - 1])
  }

  /** `s.split(c)` for a one-character literal pattern: the input itself when `c` does not
      occur, otherwise the pieces with trailing empty pieces removed. */
  function JavaSplit(s: string, c: char): (r: seq<string>)
    ensures c !in s ==> r == [s]
    ensures forall i :: 0 <= i < |r| ==> c !in r[i]
  {
    if c !in s then [s] else DropTrailingEmpty(SplitAll(s, c))
  }

  /** Splitting a join of separator-free pieces gives the pieces back. */
  lemma {:induction false} SplitAllJoin(parts: seq<string>, c: char)
    requires |parts| >= 1
    requires forall i :: 0 <= i < |parts| ==> c !in parts[i]
    ensures SplitAll(JoinWith(parts, c), c) == parts
    decreases |parts|
  {
    if |parts| == 1 {
      assert IndexOf(parts[0], c) < 0;
    } else {
      var rest := parts[1..];
      assert forall i :: 0 <= i < |rest| ==> rest[i] == parts[i + 1];
      SplitAllJoin(rest, c);
      SplitAllAfter(parts[0], c, JoinWith(rest, c));
      assert parts == [parts[0]] + rest;
    }
  }

  /** `String.split` undoes a join of separator-free pieces whose last piece is not empty. */
  lemma JavaSplitJoin(parts: seq<string>, c: char)
    requires |parts| >= 1 && parts[|parts| - 1] != []
    requires forall i :: 0 <= i < |parts| ==> c !in parts[i]
    ensures JavaSplit(JoinWith(parts, c), c) == parts
  {
    var s := JoinWith(parts, c);
    if |parts| >= 2 {
      assert s == parts[0] + [c] + JoinWith(parts[1..], c);
      assert s[|parts[0]|] == c;
    }
    SplitAllJoin(parts, c);
  }

  /** A join starts with the first piece's first character. */
  lemma JoinWithHead(parts: seq<string>, c: char)
    requires |parts| >= 1 && parts[0] != []
    ensures JoinWith(parts, c) != [] && JoinWith(parts, c)[0] == parts[0][0]
  {
  }

  predicate IsDigit(c: char) { '0' <= c <= '9' }

  /** `String.valueOf(n)` for a non-negative integer. */
  function NatToString(n: nat): (r: string)
    ensures r != []
    ensures forall i :: 0 <= i < |r| ==> IsDigit(r[i])
  {
    var d := [(('0' as int) + n % 10) as char];
    if n < 10 then d else NatToString(n / 10) + d
  }

  /** `String.toUpperCase()` as far as it can produce ASCII: a..z map to A..Z, and the few
      non-ASCII characters whose upper case is ASCII are expanded (dotless i, long s, sharp s
      and the Latin ligatures). Other characters are kept; their real upper case is never ASCII. */
  function UpperChar(c: char): (r: string)
    ensures 1 <= |r| <= 3
  {
    if 'a' <= c <= 'z' then [(c as int - 32) as char]
    else if c == 'ı' then "I"
    else if c == 'ſ' then "S"
    else if c == 'ß' then "SS"
    else if c == 'ﬀ' then "FF"
    else if c == 'ﬁ' then "FI"
    else if c == 'ﬂ' then "FL"
    else if c == 'ﬃ' then "FFI"
    else if c == 'ﬄ' then "FFL"
    else if c == 'ﬅ' || c == 'ﬆ' then "ST"
    else [c]
  }

  function ToUpper(s: string): (r: string)
    ensures |r| >= |s|
    ensures s == [] <==> r == []
  {
    if s == [] then [] else UpperChar(s[0]) + ToUpper(s[1..])
  }

  /** `Collectors.joining(sep)` over a non-empty list. */
  function JoinSep(parts: seq<string>, sep: string): string
    requires |parts| >= 1
  {
    if |parts| == 1 then parts[0] else parts[0] + sep + JoinSep(parts[1..], sep)
  }

  /** `s.contains(t)`. */
  predicate Contains(s: string, t: string) {
    exists k :: 0 <= k <= |s| && OccursAt(s, t, k)
  }

  predicate OccursAt(s: string, t: string, k: int) {
    0 <= k <= |s| - |t| && s[k..k + |t|] == t
  }

  lemma ContainsLeft(a: string, b: string, t: string)
    requires Contains(a, t)
    ensures Contains(a + b, t)
  {
    var k :| 0 <= k <= |a| && OccursAt(a, t, k);
    assert (a + b)[k..k + |t|] == a[k..k + |t|];
    assert OccursAt(a + b, t, k);
  }

  lemma ContainsRight(a: string, b: string, t: string)
    requires Contains(b, t)
    ensures Contains(a + b, t)
  {
    var k :| 0 <= k <= |b| && OccursAt(b, t, k);
    assert (a + b)[|a| + k..|a| + k + |t|] == b[k..k + |t|];
    assert OccursAt(a + b, t, |a| + k);
  }

  /** Every part occurs in the joined text. */
  lemma {:induction false} JoinSepContains(parts: seq<string>, sep: string, i: nat)
    requires i < |parts|
    ensures Contains(JoinSep(parts, sep), parts[i])
    decreases |parts|
  {
    var p := parts[i];
    assert p[0..|p|] == p;
    assert OccursAt(p, p, 0);
    if |parts| > 1 {
      if i == 0 {
        ContainsLeft(parts[0], sep + JoinSep(parts[1..], sep), p);
        assert parts[0] + sep + JoinSep(parts[1..], sep) == parts[0] + (sep + JoinSep(parts[1..], sep));
      } else {
        JoinSepContains(parts[1..], sep, i - 1);
        ContainsRight(parts[0] + sep, JoinSep(parts[1..], sep), p);
      }
    }
  }

  /** Upper-case ASCII letters lowered; every other character kept. */
  function LowerAscii(s: string): (r: string)
    ensures |r| == |s|
    ensures forall i :: 0 <= i < |s| ==> ('A' <= s[i] <= 'Z' ==> r[i] as int == s[i] as int + 32) && (!('A' <= s[i] <= 'Z') ==> r[i] == s[i])
  {
    seq(|s|, i requires 0 <= i < |s| => if 'A' <= s[i] <= 'Z' then (s[i] as int + 32) as char else s[i])
  }

  /** `toUpperCase` does not see the case of ASCII letters. */
  lemma {:induction false} ToUpperIgnoresAsciiCase(s: string)
    ensures ToUpper(LowerAscii(s)) == ToUpper(s)
    decreases |s|
  {
    if s != [] {
      assert LowerAscii(s)[1..] == LowerAscii(s[1..]);
      ToUpperIgnoresAsciiCase(s[1..]);
    }
  }

  /** `toUpperCase` leaves upper-case letters, digits and punctuation of ASCII alone. */
  lemma {:induction false} ToUpperKeepsUpper(s: string)
    requires forall i :: 0 <= i < |s| ==> s[i] < '\U{80}' && !('a' <= s[i] <= 'z')
    ensures ToUpper(s) == s
    decreases |s|
  {
    if s != [] {
      ToUpperKeepsUpper(s[1..]);
      assert s == [s[0]] + s[1..];
    }
  }
}
