/** The part of Python's `pathlib` and `os.path` behaviour the backlink adder
    relies on, for absolute POSIX paths: parsing a string into components,
    `dir / s`, lexical `resolve()`, `str(path)`, `.parent`, `.name`,
    `os.path.splitext` and `os.path.relpath`. */
module Paths {
  import opened Text

  /** An absolute POSIX path, as the list of its components below `/`. */
  datatype Path = Path(segs: seq<string>)

  /** A component `PurePosixPath` can hold: not empty, not ".", no "/". */
  predicate ValidSegment(x: string)
  {
    x != "" && x != "." && '/' !in x
  }

  predicate ValidSegs(xs: seq<string>)
  {
    forall i :: 0 <= i < |xs| ==> ValidSegment(xs[i])
  }

  /** Components of a resolved path: valid and free of "..". */
  predicate CanonicalSegs(xs: seq<string>)
  {
    ValidSegs(xs) && forall i :: 0 <= i < |xs| ==> xs[i] != ".."
  }

  /** Every path built by parsing a string has valid components. */
  predicate WellFormed(p: Path)
  {
    ValidSegs(p.segs)
  }

  predicate Canonical(p: Path)
  {
    CanonicalSegs(p.segs)
  }

  /** The pieces of a split path that `PurePosixPath` keeps: it drops empty
      pieces (repeated or trailing slashes) and "." pieces. */
  function Components(pieces: seq<string>): (r: seq<string>)
    ensures forall x :: x in r <==> x in pieces && x != "" && x != "."
    decreases |pieces|
  {
    if |pieces| == 0 then []
    else
      var rest := Components(pieces[1..]);
      assert forall x :: x in pieces <==> x == pieces[0] || x in pieces[1..];
      if pieces[0] == "" || pieces[0] == "." then rest else [pieces[0]] + rest
  }

  /** A single piece is kept exactly when it is neither empty nor ".". */
  lemma ComponentsSingle(x: string)
    ensures Components([x]) == if x == "" || x == "." then [] else [x]
  {
    assert [x][1..] == [];
  }

  /** The kept pieces of a concatenation are those of its two halves, in
      order: together with ComponentsSingle this fixes the order and the
      number of the components. */
  lemma {:induction false} ComponentsAppend(a: seq<string>, b: seq<string>)
    ensures Components(a + b) == Components(a) + Components(b)
    decreases |a|
  {
    if |a| > 0 {
      assert (a + b)[1..] == a[1..] + b;
      ComponentsAppend(a[1..], b);
    } else {
      assert a + b == b;
    }
  }

  /** Valid components are all kept. */
  lemma {:induction false} ComponentsOfValid(xs: seq<string>)
    requires ValidSegs(xs)
    ensures Components(xs) == xs
    decreases |xs|
  {
    if |xs| > 0 {
      ComponentsOfValid(xs[1..]);
    }
  }

  /** The components of `PurePosixPath(s)` below the root. */
  function Parts(s: string): (r: seq<string>)
    ensures ValidSegs(r)
  {
    var pieces := Split(s, '/');
    var r := Components(pieces);
    assert forall i :: 0 <= i < |r| ==> r[i] in pieces;
    r
  }

  /** A character absent from the string is absent from every parsed component. */
  lemma PartsLackChar(s: string, c: char)
    requires c !in s
    ensures forall x :: x in Parts(s) ==> c !in x
  {
    var pieces := Split(s, '/');
    forall i | 0 <= i < |pieces| ensures c !in pieces[i] {
      if c in pieces[i] {
        JoinKeepsChars(pieces, '/', i, c);
      }
    }
  }

  /** Parsing the string a list of valid components joins to gives them back. */
  lemma PartsOfJoin(xs: seq<string>)
    requires ValidSegs(xs)
    ensures Parts(Join(xs, '/')) == xs
  {
    if |xs| == 0 {
      assert Split("", '/') == [""];
    } else {
      SplitJoin(xs, '/');
      ComponentsOfValid(xs);
    }
  }

  /** `PurePosixPath(str(p))` gives back the components of `p`. */
  lemma StrRoundTrip(p: Path)
    requires WellFormed(p)
    ensures Parts(Str(p)) == p.segs
  {
    var j := Join(p.segs, '/');
    assert Str(p) == "" + ['/'] + j;
    SplitPrepend("", '/', j);
    ComponentsAppend([""], Split(j, '/'));
    ComponentsSingle("");
    PartsOfJoin(p.segs);
  }

  /** A leading "./" does not change the components of a path string. */
  lemma PartsDotSlash(s: string)
    ensures Parts("./" + s) == Parts(s)
  {
    assert "./" + s == "." + ['/'] + s;
    SplitPrepend(".", '/', s);
  }

  /** `dir / s`: a string that starts with "/" replaces the directory. */
  function JoinPath(dir: Path, s: string): (r: Path)
    ensures WellFormed(dir) ==> WellFormed(r)
    ensures |s| > 0 && s[0] == '/' ==> r == Path(Parts(s))
    ensures !(|s| > 0 && s[0] == '/') ==> |dir.segs| <= |r.segs| && r.segs[..|dir.segs|] == dir.segs
  {
    if |s| > 0 && s[0] == '/' then Path(Parts(s)) else Path(dir.segs + Parts(s))
  }

  /** Lexical walk: ".." drops the last component (and stays at the root),
      anything else is appended. */
  function Walk(stack: seq<string>, segs: seq<string>): seq<string>
    decreases |segs|
  {
    if |segs| == 0 then stack
    else
      var next :=
        if segs[0] == ".." then (if |stack| == 0 then stack else stack[..|stack| - 1])
        else stack + [segs[0]];
      Walk(next, segs[1..])
  }

  /** Walking valid components from a canonical stack leaves no "." or "..". */
  lemma {:induction false} WalkCanonical(stack: seq<string>, segs: seq<string>)
    requires CanonicalSegs(stack) && ValidSegs(segs)
    ensures CanonicalSegs(Walk(stack, segs))
    decreases |segs|
  {
    if |segs| > 0 {
      var next :=
        if segs[0] == ".." then (if |stack| == 0 then stack else stack[..|stack| - 1])
        else stack + [segs[0]];
      WalkCanonical(next, segs[1..]);
    }
  }

  /** Every component the walk leaves comes from the stack or from the walked components. */
  lemma {:induction false} WalkFrom(stack: seq<string>, segs: seq<string>)
    ensures forall x :: x in Walk(stack, segs) ==> x in stack || x in segs
    decreases |segs|
  {
    if |segs| > 0 {
      var next :=
        if segs[0] == ".." then (if |stack| == 0 then stack else stack[..|stack| - 1])
        else stack + [segs[0]];
      WalkFrom(next, segs[1..]);
      forall x | x in next ensures x in stack || x in segs {
        if segs[0] == ".." && |stack| > 0 {
          var k :| 0 <= k < |stack| - 1 && stack[..|stack| - 1][k] == x;
          assert stack[k] == x;
        }
      }
      forall x | x in segs[1..] ensures x in segs {
        var k :| 0 <= k < |segs| - 1 && segs[1..][k] == x;
        assert segs[k + 1] == x;
      }
    }
  }

  lemma {:induction false} WalkAppend(stack: seq<string>, a: seq<string>, b: seq<string>)
    ensures Walk(stack, a + b) == Walk(Walk(stack, a), b)
    decreases |a|
  {
    if |a| > 0 {
      assert (a + b)[0] == a[0];
      assert (a + b)[1..] == a[1..] + b;
      var next :=
        if a[0] == ".." then (if |stack| == 0 then stack else stack[..|stack| - 1])
        else stack + [a[0]];
      WalkAppend(next, a[1..], b);
    } else {
      assert a + b == b;
    }
  }

  /** Without "..", walking only appends. */
  lemma {:induction false} WalkPlain(stack: seq<string>, a: seq<string>)
    requires forall i :: 0 <= i < |a| ==> a[i] != ".."
    ensures Walk(stack, a) == stack + a
    decreases |a|
  {
    if |a| > 0 {
      WalkPlain(stack + [a[0]], a[1..]);
      assert stack + [a[0]] + a[1..] == stack + a;
    }
  }

  /** `n` parent steps. */
  function Ups(n: nat): (r: seq<string>)
    ensures |r| == n && forall i :: 0 <= i < n ==> r[i] == ".."
  {
    seq(n, _ => "..")
  }

  /** `n` parent steps from a stack at least `n` deep drop its last `n` components. */
  lemma {:induction false} WalkUps(stack: seq<string>, n: nat)
    requires n <= |stack|
    ensures Walk(stack, Ups(n)) == stack[..|stack| - n]
    decreases n
  {
    if n > 0 {
      assert Ups(n)[1..] == Ups(n - 1);
      WalkUps(stack[..|stack| - 1], n - 1);
      assert stack[..|stack| - 1][..|stack| - 1 - (n - 1)] == stack[..|stack| - n];
    }
  }

  /** `Path.resolve()` without symbolic links: the lexical normal form. */
  function Resolve(p: Path): (r: Path)
    ensures WellFormed(p) ==> Canonical(r)
    ensures Canonical(p) ==> r == p
  {
    if Canonical(p) then
      WalkPlain([], p.segs);
      Path(Walk([], p.segs))
    else if WellFormed(p) then
      WalkCanonical([], p.segs);
      Path(Walk([], p.segs))
    else Path(Walk([], p.segs))
  }

  /** `str(p)`. */
  function Str(p: Path): (r: string)
    ensures |r| >= 1 && r[0] == '/'
  {
    "/" + Join(p.segs, '/')
  }

  /** `p.parent`; the root is its own parent. */
  function Parent(p: Path): (r: Path)
    ensures |p.segs| > 0 ==> r.segs + [p.segs[|p.segs| - 1]] == p.segs
    ensures |p.segs| == 0 ==> r == p
  {
    if |p.segs| == 0 then p else Path(p.segs[..|p.segs| - 1])
  }

  /** `p.name`: the last component, or "" for the root. */
  function Name(p: Path): (r: string)
    ensures |p.segs| > 0 ==> Parent(p).segs + [r] == p.segs
    ensures WellFormed(p) ==> '/' !in r
  {
    if |p.segs| == 0 then "" else p.segs[|p.segs| - 1]
  }

  lemma ParentCanonical(p: Path)
    requires Canonical(p)
    ensures Canonical(Parent(p))
  {
  }

  /** `str(p)` is `str(p.parent)`, a slash and `p.name` (with the root's
      string "/" counted as the empty prefix). */
  lemma StrLast(p: Path)
    requires |p.segs| >= 1
    ensures Str(p) == (if |p.segs| == 1 then "" else Str(Parent(p))) + "/" + Name(p)
  {
    if |p.segs| > 1 {
      assert Parent(p).segs + [Name(p)] == p.segs;
      JoinSnoc(Parent(p).segs, Name(p), '/');
    }
  }

  /** `os.path.splitext(s)[1]`: the suffix from the last "." of the last
      component, unless every character before that dot in the component is a
      dot. It is empty, or a suffix of `s` made of one "." and then neither
      "." nor "/". */
  function Ext(s: string): (r: string)
    ensures r == "" || (|r| <= |s| && s[|s| - |r|..] == r && r[0] == '.')
    ensures forall k :: 1 <= k < |r| ==> r[k] != '.' && r[k] != '/'
  {
    var sep := RFind(s, '/');
    var dot := RFind(s, '.');
    if dot > sep && HasNonDot(s, sep, dot) then s[dot..] else ""
  }

  /** Some character strictly between `lo` and `hi` is not a dot. */
  predicate HasNonDot(s: string, lo: int, hi: int)
    requires -1 <= lo && hi <= |s|
  {
    exists k :: lo < k < hi && s[k] != '.'
  }

  /** Whether the stem of `name` holds a non-dot does not change when a
      directory is put in front of it. */
  lemma HasNonDotShift(a: string, name: string, dn: int)
    requires -1 <= dn < |name|
    ensures HasNonDot(a + "/" + name, |a|, |a| + 1 + dn) == HasNonDot(name, -1, dn)
  {
    var s := a + "/" + name;
    var off := |a| + 1;
    if HasNonDot(s, |a|, off + dn) {
      var k :| |a| < k < off + dn && s[k] != '.';
      assert s[k] == name[k - off];
    }
    if HasNonDot(name, -1, dn) {
      var k :| -1 < k < dn && name[k] != '.';
      assert s[off + k] == name[k];
    }
  }

  /** The last "/" of `a + "/" + name` is the one before `name`. */
  lemma SepOfLast(a: string, name: string)
    requires '/' !in name
    ensures RFind(a + "/" + name, '/') == |a|
  {
    assert a + "/" + name == (a + "/") + name;
    RFindAppend(a + "/", name, '/');
  }

  /** The last "." of `a + "/" + name` lies in `name` when `name` holds one,
      and before the "/" otherwise. */
  lemma DotOfLast(a: string, name: string)
    ensures RFind(name, '.') >= 0 ==> RFind(a + "/" + name, '.') == |a| + 1 + RFind(name, '.')
    ensures RFind(name, '.') < 0 ==> RFind(a + "/" + name, '.') < |a|
  {
    assert a + "/" + name == (a + "/") + name;
    RFindAppend(a + "/", name, '.');
    RFindAppend(a, "/", '.');
  }

  /** The extension of a path string depends only on its last component. */
  lemma ExtOfLast(a: string, name: string)
    requires '/' !in name
    ensures Ext(a + "/" + name) == Ext(name)
  {
    var s := a + "/" + name;
    SepOfLast(a, name);
    DotOfLast(a, name);
    var dn := RFind(name, '.');
    assert RFind(name, '/') == -1;
    if dn >= 0 {
      HasNonDotShift(a, name, dn);
      assert s[|a| + 1 + dn..] == name[dn..];
    }
  }

  /** Length of the longest common prefix of two component lists. */
  function CommonPrefix(a: seq<string>, b: seq<string>): (n: nat)
    ensures n <= |a| && n <= |b| && a[..n] == b[..n]
    ensures n < |a| && n < |b| ==> a[n] != b[n]
    decreases |a|
  {
    if |a| == 0 || |b| == 0 || a[0] != b[0] then 0
    else
      var n := 1 + CommonPrefix(a[1..], b[1..]);
      assert a[..n] == [a[0]] + a[1..][..n - 1];
      assert b[..n] == [b[0]] + b[1..][..n - 1];
      n
  }

  /** `os.path.relpath(target, start)` for absolute paths: as many ".." as
      `start` has components below the common prefix, then the rest of
      `target`; "." when the two are the same path. */
  function RelPath(target: Path, start: Path): string
  {
    var ts := Resolve(target).segs;
    var ss := Resolve(start).segs;
    var i := CommonPrefix(ss, ts);
    var rel := Ups(|ss| - i) + ts[i..];
    if rel == [] then "." else Join(rel, '/')
  }

  /** From the root, walking a ".."-free prefix just builds that prefix. */
  lemma WalkFromRoot(ss: seq<string>, x: seq<string>)
    requires forall i :: 0 <= i < |ss| ==> ss[i] != ".."
    ensures Walk([], ss + x) == Walk(ss, x)
  {
    WalkAppend([], ss, x);
    WalkPlain([], ss);
    assert [] + ss == ss;
  }

  /** Climbing from `ss` to its common prefix with `ts`, then walking the rest
      of `ts`, lands on `ts`. */
  lemma WalkBack(ss: seq<string>, ts: seq<string>, i: nat)
    requires i <= |ss| && i <= |ts| && ss[..i] == ts[..i]
    requires forall j :: 0 <= j < |ts| ==> ts[j] != ".."
    ensures Walk(ss, Ups(|ss| - i) + ts[i..]) == ts
  {
    var n := |ss| - i;
    WalkAppend(ss, Ups(n), ts[i..]);
    WalkUps(ss, n);
    WalkRest(ts, i);
  }

  /** Walking the rest of a ".."-free list from its first `i` components gives the list. */
  lemma WalkRest(ts: seq<string>, i: nat)
    requires i <= |ts|
    requires forall j :: 0 <= j < |ts| ==> ts[j] != ".."
    ensures Walk(ts[..i], ts[i..]) == ts
  {
    WalkPlain(ts[..i], ts[i..]);
    assert ts[..i] + ts[i..] == ts;
  }

  /** Joining the relative path to `start` and resolving it leads back to
      `target`: `relpath` and `resolve` are inverse on canonical paths. */
  lemma RelPathRoundTrip(target: Path, start: Path)
    requires Canonical(target) && Canonical(start)
    ensures Resolve(JoinPath(start, RelPath(target, start))) == target
  {
    var ts, ss := target.segs, start.segs;
    var i := CommonPrefix(ss, ts);
    var rel := Ups(|ss| - i) + ts[i..];
    var r := RelPath(target, start);
    if rel == [] {
      assert r == ".";
      SplitPlain(".", '/');
      assert ss == ss[..i] && ts == ts[..i];
      assert JoinPath(start, r).segs == ss + [];
    } else {
      assert ValidSegs(rel) by {
        forall j | 0 <= j < |rel| ensures ValidSegment(rel[j]) {
          if j >= |ss| - i { assert rel[j] == ts[i + j - (|ss| - i)]; }
        }
      }
      assert r == Join(rel, '/');
      JoinHead(rel, '/');
      assert r[0] == rel[0][0];
      PartsOfJoin(rel);
      assert JoinPath(start, r).segs == ss + rel;
      WalkFromRoot(ss, rel);
      WalkBack(ss, ts, i);
    }
  }
}
