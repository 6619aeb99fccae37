/** The part of `java.nio.file.Path` (Unix file system) the file store relies on:
    parsing, `resolve`, `normalize`, `startsWith` and `getFileName`. */
module Paths {
  import opened Common
  import opened Text

  /** A path is absolute or relative, and a list of non-empty names. */
  datatype Path = Path(absolute: bool, names: seq<string>)

  predicate WellFormed(p: Path) {
    forall i :: 0 <= i < |p.names| ==> p.names[i] != [] && '/' !in p.names[i]
  }

  function NonEmpty(parts: seq<string>): (r: seq<string>)
    ensures |r| <= |parts|
    ensures forall x :: x in r <==> x in parts && x != []
  {
    if parts == [] then []
    else if parts[0] == [] then NonEmpty(parts[1..])
    else [parts[0]] + NonEmpty(parts[1..])
  }

  /** `Paths.get(s)` / `dir.resolve(s)`: '/' separates names, repeated and trailing slashes are
      dropped, a NUL character is rejected with an InvalidPathException. */
  function Parse(s: string): (r: Result<Path>)
    ensures r.Err? <==> '\0' in s
    ensures r.Ok? ==> WellFormed(r.value) && r.value.absolute == (|s| > 0 && s[0] == '/')
  {
    if '\0' in s then Err(IllegalArgument("Nul character not allowed: " + s))
    else
      var names := NonEmpty(SplitAll(s, '/'));
      assert forall i :: 0 <= i < |names| ==> names[i] in names;
      Ok(Path(|s| > 0 && s[0] == '/', names))
  }

  /** `base.resolve(other)`: an absolute `other` replaces the base, otherwise its names are
      appended. */
  function Resolve(base: Path, other: Path): (r: Path)
    ensures !other.absolute ==> r.names == base.names + other.names && r.absolute == base.absolute
    ensures other.absolute ==> r == other
  {
    if other.absolute then other else Path(base.absolute, base.names + other.names)
  }

  /** One step of `normalize`: "." vanishes, ".." removes the preceding name; at the root of
      an absolute path it vanishes, in a relative path with nothing left to remove it stays. */
  function Step(absolute: bool, acc: seq<string>, name: string): seq<string> {
    if name == "." then acc
    else if name == ".." then
      if acc != [] && acc[|acc| - 1] != ".." then acc[..|acc| - 1]
      else if absolute then acc
      else acc + [".."]
    else acc + [name]
  }

  function NormalizeFrom(absolute: bool, acc: seq<string>, names: seq<string>): seq<string>
    decreases |names|
  {
    if names == [] then acc else NormalizeFrom(absolute, Step(absolute, acc, names[0]), names[1..])
  }

  /** `p.normalize()`. */
  function Normalize(p: Path): Path {
    Path(p.absolute, NormalizeFrom(p.absolute, [], p.names))
  }

  /** A name that `normalize` leaves alone. */
  predicate Plain(name: string) { name != "." && name != ".." }

  /** Names in normal form: no ".", and ".." only as a leading run of a relative path. */
  predicate NormalNames(absolute: bool, names: seq<string>) {
    && (forall i :: 0 <= i < |names| ==> names[i] != ".")
    && (forall i, j :: 0 <= i < j < |names| && names[j] == ".." ==> names[i] == "..")
    && (absolute ==> forall i :: 0 <= i < |names| ==> names[i] != "..")
  }

  /** `p.startsWith(q)` for a non-empty `q`: same kind of path and `q`'s names are a prefix. */
  predicate StartsWithPath(p: Path, q: Path) {
    p.absolute == q.absolute && |q.names| <= |p.names| && p.names[..|q.names|] == q.names
  }

  /** `p.getFileName()`: the last name, or null for a path without names. */
  function FileName(p: Path): (r: Option<string>)
    ensures r.Some? <==> p.names != []
  {
    if p.names == [] then None else Some(p.names[|p.names| - 1])
  }

  /** `p.toString()`. */
  function PathString(p: Path): string {
    (if p.absolute then "/" else "") + (if p.names == [] then "" else JoinWith(p.names, '/'))
  }

  // ---------------------------------------------------------------- lemmas

  lemma ParseOneName(s: string)
    requires s != [] && '/' !in s && '\0' !in s
    ensures Parse(s) == Ok(Path(false, [s]))
  {
    assert SplitAll(s, '/') == [s];
    assert s[0] in s;
    var one: seq<string> := [s];
    assert one[1..] == [];
    assert NonEmpty(one) == one;
  }

  lemma NamesOfParse(s: string)
    requires '\0' !in s
    ensures Parse(s).Ok? && Parse(s).value.names == NonEmpty(SplitAll(s, '/'))
  {
  }

  /** Names joined by '/' parse back to those names, as a relative path. */
  lemma {:induction false} ParseJoined(names: seq<string>)
    requires names != []
    requires forall i :: 0 <= i < |names| ==> names[i] != [] && '/' !in names[i] && '\0' !in names[i]
    ensures Parse(JoinWith(names, '/')) == Ok(Path(false, names))
  {
    var s := JoinWith(names, '/');
    if |names| == 1 {
      ParseOneName(names[0]);
      assert names == [names[0]];
    } else {
      var rest := JoinWith(names[1..], '/');
      ParseJoined(names[1..]);
      assert s == names[0] + ['/'] + rest;
      NamesOfParse(rest);
      assert NonEmpty(SplitAll(rest, '/')) == names[1..];
      SplitAllAfter(names[0], '/', rest);
      var parts := SplitAll(s, '/');
      assert parts == [names[0]] + SplitAll(rest, '/');
      assert parts[0] == names[0] && parts[1..] == SplitAll(rest, '/');
      assert NonEmpty(parts) == [names[0]] + names[1..];
      assert '\0' !in s by {
        assert '\0' !in rest;
        assert '\0' !in names[0];
      }
      NamesOfParse(s);
      assert s[0] == names[0][0] && names[0][0] in names[0];
      assert [names[0]] + names[1..] == names;
    }
  }

  /** A leading '/' makes the same names absolute. */
  lemma ParseRooted(x: string)
    requires '\0' !in x
    ensures Parse("/" + x) == Ok(Path(true, Parse(x).value.names))
  {
    var s := "/" + x;
    assert s == "" + ['/'] + x;
    SplitAllAfter("", '/', x);
    assert '\0' !in s by { assert forall c :: c in s ==> c == '/' || c in x; }
    NamesOfParse(x);
    NamesOfParse(s);
    var parts := SplitAll(s, '/');
    assert parts[0] == [] && parts[1..] == SplitAll(x, '/');
  }

  /** A plain name and '/' in front of a path put that name in front of its names. */
  lemma ParseUnder(dir: string, x: string)
    requires dir != [] && '/' !in dir && '\0' !in dir && '\0' !in x
    ensures Parse(dir + "/" + x) == Ok(Path(false, [dir] + Parse(x).value.names))
  {
    var s := dir + "/" + x;
    assert s == dir + ['/'] + x;
    SplitAllAfter(dir, '/', x);
    assert '\0' !in s by { assert forall c :: c in s ==> c == '/' || c in dir || c in x; }
    NamesOfParse(x);
    NamesOfParse(s);
    var parts := SplitAll(s, '/');
    assert parts[0] == dir && parts[1..] == SplitAll(x, '/');
    assert s[0] == dir[0] && dir[0] in dir;
  }

  lemma {:induction false} StepKeepsNormal(absolute: bool, acc: seq<string>, name: string)
    requires NormalNames(absolute, acc)
    ensures NormalNames(absolute, Step(absolute, acc, name))
  {
    var r := Step(absolute, acc, name);
    if name == "." {
    } else if name == ".." {
      if acc != [] && acc[|acc| - 1] != ".." {
        assert r == acc[..|acc| - 1];
      } else if absolute {
      } else {
        assert forall i :: 0 <= i < |acc| ==> acc[i] == ".." by {
          if acc != [] {
            forall i | 0 <= i < |acc| ensures acc[i] == ".." {
              if i < |acc| - 1 { assert acc[|acc| - 1] == ".."; }
            }
          }
        }
      }
    } else {
      assert r == acc + [name];
      forall i, j | 0 <= i < j < |r| && r[j] == ".." ensures r[i] == ".." {
        assert j < |acc|;
      }
    }
  }

  lemma {:induction false} NormalizeFromNormal(absolute: bool, acc: seq<string>, names: seq<string>)
    requires NormalNames(absolute, acc)
    ensures NormalNames(absolute, NormalizeFrom(absolute, acc, names))
    decreases |names|
  {
    if names != [] {
      StepKeepsNormal(absolute, acc, names[0]);
      NormalizeFromNormal(absolute, Step(absolute, acc, names[0]), names[1..]);
    }
  }

  /** The result of `normalize` holds no "." and no ".." other than a leading run of a
      relative path. */
  lemma NormalizeIsNormal(p: Path)
    ensures NormalNames(p.absolute, Normalize(p).names)
  {
    NormalizeFromNormal(p.absolute, [], p.names);
  }

  /** Plain names pass through `normalize` unchanged. */
  lemma {:induction false} NormalizeFromPlain(absolute: bool, acc: seq<string>, xs: seq<string>, ys: seq<string>)
    requires forall i :: 0 <= i < |xs| ==> Plain(xs[i])
    ensures NormalizeFrom(absolute, acc, xs + ys) == NormalizeFrom(absolute, acc + xs, ys)
    decreases |xs|
  {
    if xs == [] {
      assert xs + ys == ys && acc + xs == acc;
    } else {
      assert (xs + ys)[0] == xs[0] && (xs + ys)[1..] == xs[1..] + ys;
      NormalizeFromPlain(absolute, acc + [xs[0]], xs[1..], ys);
      assert acc + [xs[0]] + xs[1..] == acc + xs;
    }
  }

  /** Normal names are a fixed point of the normalising fold. */
  lemma {:induction false} NormalizeFromIdle(absolute: bool, acc: seq<string>, names: seq<string>)
    requires NormalNames(absolute, acc + names)
    ensures NormalizeFrom(absolute, acc, names) == acc + names
    decreases |names|
  {
    if names == [] {
      assert acc + names == acc;
    } else {
      var n := names[0];
      var all := acc + names;
      assert all[|acc|] == n;
      assert n != ".";
      if n == ".." {
        assert !absolute;
        assert acc == [] || acc[|acc| - 1] == ".." by {
          if acc != [] { assert all[|acc| - 1] == acc[|acc| - 1]; }
        }
      }
      assert Step(absolute, acc, n) == acc + [n];
      assert acc + [n] + names[1..] == all;
      NormalizeFromIdle(absolute, acc + [n], names[1..]);
    }
  }

  /** `normalize` is idempotent. */
  lemma NormalizeIdempotent(p: Path)
    ensures Normalize(Normalize(p)) == Normalize(p)
  {
    NormalizeIsNormal(p);
    var q := Normalize(p);
    assert [] + q.names == q.names;
    NormalizeFromIdle(q.absolute, [], q.names);
  }

  /** `startsWith` is transitive. */
  lemma StartsWithTrans(p: Path, q: Path, u: Path)
    requires StartsWithPath(p, q) && StartsWithPath(q, u)
    ensures StartsWithPath(p, u)
  {
    assert p.names[..|u.names|] == p.names[..|q.names|][..|u.names|];
  }

  /** Resolving one name against a directory made of plain names and normalising stays in
      that directory unless the name is ".."; "." gives the directory itself. */
  lemma ResolveNameConfined(dir: Path, name: string)
    requires forall i :: 0 <= i < |dir.names| ==> Plain(dir.names[i])
    requires dir.names != [] && name != []
    ensures var t := Normalize(Resolve(dir, Path(false, [name])));
      && (StartsWithPath(t, dir) <==> name != "..")
      && (name == "." ==> t == dir)
      && (Plain(name) ==> t == Path(dir.absolute, dir.names + [name]))
  {
    NormalizeFromPlain(dir.absolute, [], dir.names, [name]);
    assert [] + dir.names == dir.names;
    var t := Normalize(Resolve(dir, Path(false, [name])));
    assert t.names == Step(dir.absolute, dir.names, name);
    if name == ".." {
      assert |t.names| < |dir.names|;
    }
  }
}
