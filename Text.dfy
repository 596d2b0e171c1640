/** The small part of Python's `str` behaviour the backlink adder relies on:
    `split` on one character, `find`, `rfind` and ASCII `lower`. */
module Text {

  /** `sep.join(xs)` for a one-character separator. */
  function Join(xs: seq<string>, sep: char): string
  {
    if |xs| == 0 then ""
    else if |xs| == 1 then xs[0]
    else xs[0] + [sep] + Join(xs[1..], sep)
  }

  /** `s.split(sep)`: the pieces between the separators. The pieces hold no
      separator and joining them back gives `s`, which fixes them uniquely. */
  function Split(s: string, sep: char): (r: seq<string>)
    ensures |r| >= 1
    ensures forall i :: 0 <= i < |r| ==> sep !in r[i]
    ensures Join(r, sep) == s
    decreases |s|
  {
    if |s| == 0 then [""]
    else
      var rest := Split(s[1..], sep);
      if s[0] == sep then
        assert [""] + rest == [""] + rest[0..1] + rest[1..];
        assert s == [sep] + s[1..];
        [""] + rest
      else
        var r := [[s[0]] + rest[0]] + rest[1..];
        assert r[1..] == rest[1..];
        assert s == [s[0]] + s[1..];
        r
  }

  /** `s.split(sep)[0]`: everything before the first `sep`. */
  function Before(s: string, sep: char): (r: string)
    ensures sep !in r
    ensures |r| <= |s| && s[..|r|] == r
    ensures |r| < |s| ==> s[|r|] == sep
  {
    var pieces := Split(s, sep);
    JoinHead(pieces, sep);
    pieces[0]
  }

  /** A separator-free prefix stays at the front of the first piece. */
  lemma {:induction false} SplitHead(x: string, s: string, sep: char)
    requires sep !in x
    ensures Split(x + s, sep)[0] == x + Split(s, sep)[0]
    decreases |x|
  {
    if |x| > 0 {
      assert (x + s)[1..] == x[1..] + s;
      SplitHead(x[1..], s, sep);
      assert [x[0]] + x[1..] == x;
    } else {
      assert x + s == s;
    }
  }

  /** Everything before the first `sep` of `x + s`, for a separator-free `x`,
      is `x` followed by everything before the first `sep` of `s`. */
  lemma BeforePrefix(x: string, s: string, sep: char)
    requires sep !in x
    ensures Before(x + s, sep) == x + Before(s, sep)
  {
    SplitHead(x, s, sep);
  }

  lemma JoinHead(xs: seq<string>, sep: char)
    requires |xs| >= 1
    ensures |xs[0]| <= |Join(xs, sep)| && Join(xs, sep)[..|xs[0]|] == xs[0]
    ensures |xs| > 1 ==> |xs[0]| < |Join(xs, sep)| && Join(xs, sep)[|xs[0]|] == sep
  {
  }

  /** A separator-free string is its own only piece. */
  lemma {:induction false} SplitPlain(s: string, sep: char)
    requires sep !in s
    ensures Split(s, sep) == [s]
    decreases |s|
  {
    if |s| > 0 {
      SplitPlain(s[1..], sep);
      assert [s[0]] + s[1..] == s;
    }
  }

  /** Splitting `x + sep + rest` yields the piece `x` followed by the pieces of `rest`. */
  lemma {:induction false} SplitPrepend(x: string, sep: char, rest: string)
    requires sep !in x
    ensures Split(x + [sep] + rest, sep) == [x] + Split(rest, sep)
    decreases |x|
  {
    var s := x + [sep] + rest;
    if |x| == 0 {
      assert s == [sep] + rest;
      assert s[1..] == rest;
    } else {
      assert s[1..] == x[1..] + [sep] + rest;
      SplitPrepend(x[1..], sep, rest);
      assert [x[0]] + x[1..] == x;
    }
  }

  /** Joining separator-free pieces and splitting again gives the pieces back. */
  lemma {:induction false} SplitJoin(xs: seq<string>, sep: char)
    requires |xs| >= 1
    requires forall i :: 0 <= i < |xs| ==> sep !in xs[i]
    ensures Split(Join(xs, sep), sep) == xs
    decreases |xs|
  {
    if |xs| == 1 {
      SplitPlain(xs[0], sep);
    } else {
      SplitJoin(xs[1..], sep);
      SplitPrepend(xs[0], sep, Join(xs[1..], sep));
      assert [xs[0]] + xs[1..] == xs;
    }
  }

  /** `Join(xs + [y])` puts one separator before the new last piece. */
  lemma {:induction false} JoinSnoc(xs: seq<string>, y: string, sep: char)
    requires |xs| >= 1
    ensures Join(xs + [y], sep) == Join(xs, sep) + [sep] + y
    decreases |xs|
  {
    if |xs| == 1 {
      assert xs + [y] == [xs[0], y];
    } else {
      assert (xs + [y])[1..] == xs[1..] + [y];
      JoinSnoc(xs[1..], y, sep);
    }
  }

  /** A character of `Join(xs, sep)` is the separator or a character of some piece. */
  lemma {:induction false} JoinChars(xs: seq<string>, sep: char, c: char)
    requires c in Join(xs, sep)
    ensures c == sep || exists i :: 0 <= i < |xs| && c in xs[i]
    decreases |xs|
  {
    if |xs| > 1 {
      var j := xs[0] + [sep] + Join(xs[1..], sep);
      if c !in xs[0] && c != sep {
        assert c in Join(xs[1..], sep);
        JoinChars(xs[1..], sep, c);
        var i :| 0 <= i < |xs[1..]| && c in xs[1..][i];
        assert c in xs[i + 1];
      }
    }
  }

  /** Every character of a piece is a character of `Join(xs, sep)`. */
  lemma {:induction false} JoinKeepsChars(xs: seq<string>, sep: char, i: int, c: char)
    requires 0 <= i < |xs| && c in xs[i]
    ensures c in Join(xs, sep)
    decreases |xs|
  {
    if |xs| > 1 && i > 0 {
      JoinKeepsChars(xs[1..], sep, i - 1, c);
      assert Join(xs, sep) == xs[0] + [sep] + Join(xs[1..], sep);
    }
  }

  /** `pat` occurs in `s` starting at index `i`. */
  predicate OccursAt(s: string, pat: string, i: int)
  {
    0 <= i && i + |pat| <= |s| && s[i..i + |pat|] == pat
  }

  /** `s.find(pat, start)`: the least index at or after `start` where `pat` occurs, or -1. */
  function FindFrom(s: string, pat: string, start: nat): (r: int)
    requires start <= |s| + 1
    ensures r == -1 || (start <= r && OccursAt(s, pat, r))
    ensures forall j :: start <= j && (r == -1 || j < r) ==> !OccursAt(s, pat, j)
    decreases |s| + 1 - start
  {
    if start + |pat| > |s| then -1
    else if s[start..start + |pat|] == pat then start
    else FindFrom(s, pat, start + 1)
  }

  /** `s.find(pat)`: the first occurrence of `pat` in `s`, or -1 when there is none. */
  function Find(s: string, pat: string): (r: int)
    ensures r == -1 || OccursAt(s, pat, r)
    ensures forall j :: 0 <= j && (r == -1 || j < r) ==> !OccursAt(s, pat, j)
  {
    FindFrom(s, pat, 0)
  }

  /** `s.rfind(c)` for one character: the last index holding `c`, or -1. */
  function RFind(s: string, c: char): (r: int)
    ensures -1 <= r < |s|
    ensures r >= 0 ==> s[r] == c
    ensures forall k :: r < k < |s| ==> s[k] != c
    decreases |s|
  {
    if |s| == 0 then -1
    else if s[|s| - 1] == c then |s| - 1
    else RFind(s[..|s| - 1], c)
  }

  /** The last `c` of `a + b` is in `b` when `b` holds one, else it is the last of `a`. */
  lemma RFindAppend(a: string, b: string, c: char)
    ensures RFind(b, c) >= 0 ==> RFind(a + b, c) == |a| + RFind(b, c)
    ensures RFind(b, c) < 0 ==> RFind(a + b, c) == RFind(a, c)
  {
    var s := a + b;
    var r, ra, rb := RFind(s, c), RFind(a, c), RFind(b, c);
    if rb >= 0 {
      assert s[|a| + rb] == c;
      assert forall k :: |a| + rb < k < |s| ==> s[k] == b[k - |a|];
    } else {
      assert forall k :: |a| <= k < |s| ==> s[k] == b[k - |a|];
      assert forall k :: 0 <= k < |a| ==> s[k] == a[k];
      if ra >= 0 {
        assert s[ra] == c;
      }
    }
  }

  /** ASCII `lower()` of one character. */
  function LowerChar(c: char): (r: char)
    ensures 'A' <= c <= 'Z' ==> 'a' <= r <= 'z' && r as int - c as int == 32
    ensures !('A' <= c <= 'Z') ==> r == c
  {
    if 'A' <= c <= 'Z' then (c as int + 32) as char else c
  }

  /** `s.lower()` restricted to ASCII letters. */
  function Lower(s: string): (r: string)
    ensures |r| == |s|
    ensures forall i :: 0 <= i < |s| ==> r[i] == LowerChar(s[i])
  {
    seq(|s|, i requires 0 <= i < |s| => LowerChar(s[i]))
  }
}
