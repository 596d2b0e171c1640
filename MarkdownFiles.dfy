/** The pure part of one Markdown file (`MarkdownFile` in src.py): choosing
    its heading, resolving a link target, extracting its outbound links,
    the backlink set of the file, and rewriting its generated
    "## Backlinks:" block. */
module MarkdownFiles {
  import opened Wrappers
  import opened Text
  import opened Paths

  /** What the Markdown renderer and the XPath queries give for a file's text:
      the `href` of every `<a>` element in document order (None when the
      element has none) and every text node inside an `h1` element, in
      document order (`//h1//text()`, so one heading marked up in several
      pieces gives several texts). */
  datatype Rendered = Rendered(hrefs: seq<Option<string>>, h1s: seq<string>)

  /** A file of the directory: the path it was discovered under and the
      heading chosen when it was constructed (never refreshed). */
  datatype MarkdownFile = MarkdownFile(path: Path, heading: string)

  /** The heading of a file: the first text node inside an h1, else the file's name. */
  function Heading(doc: Rendered, path: Path): (h: string)
    ensures |doc.h1s| > 0 ==> h == doc.h1s[0]
    ensures |doc.h1s| == 0 ==> h == Name(path)
  {
    if |doc.h1s| > 0 then doc.h1s[0] else Name(path)
  }

  /** `get_absolute_path`: an absent or empty target gives nothing, a target
      starting with "/" is taken as it is (as a `Path`, fragment included), and
      anything else loses everything from its first "#" and is resolved against
      the directory of the file. */
  function GetAbsolutePath(path: Path, link: Option<string>): (r: Option<Path>)
    ensures r.None? <==> link.None? || link.value == ""
    ensures link.Some? && link.value != "" && link.value[0] == '/' ==> r == Some(Path(Parts(link.value)))
    ensures WellFormed(path) && link.Some? && link.value != "" && link.value[0] != '/' ==>
              r.Some? && Canonical(r.value)
  {
    match link
    case None => None
    case Some(s) =>
      if |s| == 0 then None
      else if s[0] == '/' then Some(Path(Parts(s)))
      else
        var dir := Resolve(Parent(path));
        assert WellFormed(path) ==> WellFormed(JoinPath(dir, Before(s, '#')));
        Some(Resolve(JoinPath(dir, Before(s, '#'))))
  }

  /** The value of a relative target: its part before the first "#", parsed,
      walked from the resolved directory of the file (".." climbs, anything
      else descends). */
  lemma RelativeTarget(path: Path, s: string)
    requires WellFormed(path) && s != "" && s[0] != '/'
    ensures GetAbsolutePath(path, Some(s)) == Some(Path(Walk(Resolve(Parent(path)).segs, Parts(Before(s, '#')))))
  {
    var dir := Resolve(Parent(path));
    var b := Before(s, '#');
    assert WellFormed(Parent(path));
    assert JoinPath(dir, b) == Path(dir.segs + Parts(b));
    WalkFromRoot(dir.segs, Parts(b));
  }

  /** A relative target free of "#" and ".." from a canonical file is its
      directory followed by the target's components. */
  lemma RelativeTargetPlain(path: Path, s: string)
    requires Canonical(path) && s != "" && s[0] != '/' && '#' !in s
    requires forall i :: 0 <= i < |Parts(s)| ==> Parts(s)[i] != ".."
    ensures GetAbsolutePath(path, Some(s)) == Some(Path(Parent(path).segs + Parts(s)))
  {
    ParentCanonical(path);
    RelativeTarget(path, s);
    BeforePrefix(s, "", '#');
    assert s + "" == s;
    assert Before("", '#') == "";
    WalkPlain(Parent(path).segs, Parts(s));
  }

  /** A relative target loses its fragment: `s#frag` resolves like `s`. */
  lemma FragmentDropped(path: Path, s: string, frag: string)
    requires s != "" && s[0] != '/' && '#' !in s
    ensures GetAbsolutePath(path, Some(s + "#" + frag)) == GetAbsolutePath(path, Some(s))
  {
    BeforePrefix(s, "#" + frag, '#');
    assert Before("#" + frag, '#') == "";
    BeforePrefix(s, "", '#');
    assert s + "" == s;
    assert s + "#" + frag == s + ("#" + frag);
  }

  /** A leading "./" does not change where a relative target resolves. */
  lemma DotSlashIgnored(path: Path, s: string)
    requires s != "" && s[0] != '/'
    ensures GetAbsolutePath(path, Some("./" + s)) == GetAbsolutePath(path, Some(s))
  {
    BeforePrefix("./", s, '#');
    PartsDotSlash(Before(s, '#'));
  }

  /** No component of the path holds a "#". */
  predicate HashFree(p: Path)
  {
    forall i :: 0 <= i < |p.segs| ==> '#' !in p.segs[i]
  }

  /** A target starting with "/" keeps its fragment: the path it gives has a
      component with a "#", so it is none of the hash-free file paths. */
  lemma AbsoluteKeepsFragment(path: Path, s: string)
    requires s != "" && s[0] == '/' && '#' in s
    ensures GetAbsolutePath(path, Some(s)).Some?
    ensures !HashFree(GetAbsolutePath(path, Some(s)).value)
  {
    var pieces := Split(s, '/');
    JoinChars(pieces, '/', '#');
    var i :| 0 <= i < |pieces| && '#' in pieces[i];
    assert pieces[i] != "" && pieces[i] != ".";
    var segs := Parts(s);
    assert pieces[i] in segs;
    var j :| 0 <= j < |segs| && segs[j] == pieces[i];
  }

  /** A relative target read from a file whose path holds no "#" gives a path
      that holds none either: its fragment is dropped, and the walk only keeps
      components of the file's directory and of the target's part before "#". */
  lemma RelativeTargetHashFree(path: Path, s: string)
    requires WellFormed(path) && HashFree(path) && s != "" && s[0] != '/'
    ensures GetAbsolutePath(path, Some(s)).Some?
    ensures HashFree(GetAbsolutePath(path, Some(s)).value)
  {
    RelativeTarget(path, s);
    var b := Before(s, '#');
    var dir := Parent(path);
    PartsLackChar(b, '#');
    WalkFrom([], dir.segs);
    var stack := Resolve(dir).segs;
    WalkFrom(stack, Parts(b));
    var r := Walk(stack, Parts(b));
    forall i | 0 <= i < |r| ensures '#' !in r[i] {
      assert r[i] in r;
      if r[i] in stack {
        assert r[i] in dir.segs;
        var k :| 0 <= k < |dir.segs| && dir.segs[k] == r[i];
        assert path.segs[k] == r[i];
      }
    }
  }

  /** `str(t)`, where `str(None)` is "None". */
  function TargetString(t: Option<Path>): string
  {
    match t
    case None => "None"
    case Some(p) => Str(p)
  }

  /** The filter of `links`: the extension of the target's string, cut at its
      first "#", is ".md" in any letter case. */
  predicate IsMarkdownTarget(t: Option<Path>)
  {
    Lower(Ext(Before(TargetString(t), '#'))) == ".md"
  }

  /** An unresolved target never passes the filter: "None" has no extension. */
  lemma NoneIsNotMarkdown()
    ensures !IsMarkdownTarget(None)
  {
    var s := "None";
    assert Before(s, '#') == s by {
      assert forall k :: 0 <= k < |s| ==> s[k] != '#';
    }
    assert forall k :: 0 <= k < |s| ==> s[k] != '.';
    assert RFind(s, '.') == -1;
  }

  /** A file name whose `os.path.splitext` extension is ".md" in any letter
      case: it ends with "." and an "m" and a "d" of either case, and not
      everything before that dot is a dot. */
  predicate IsMarkdownName(name: string)
  {
    && |name| >= 3
    && name[|name| - 3] == '.'
    && LowerChar(name[|name| - 2]) == 'm'
    && LowerChar(name[|name| - 1]) == 'd'
    && exists k :: 0 <= k < |name| - 3 && name[k] != '.'
  }

  /** A single component whose extension is ".md" (any case) is a Markdown name. */
  lemma MarkdownExtGivesName(name: string)
    requires '/' !in name && Lower(Ext(name)) == ".md"
    ensures IsMarkdownName(name)
  {
    var n := |name|;
    assert RFind(name, '/') == -1;
    var dot := RFind(name, '.');
    var e := Ext(name);
    assert |e| == 3 && e[0] == '.';
    assert e == name[dot..];
    assert dot == n - 3;
    assert LowerChar(e[1]) == 'm' && LowerChar(e[2]) == 'd';
  }

  /** A Markdown name has the extension ".md" in some letter case. */
  lemma MarkdownNameGivesExt(name: string)
    requires '/' !in name && IsMarkdownName(name)
    ensures Lower(Ext(name)) == ".md"
  {
    var n := |name|;
    assert RFind(name, '/') == -1;
    assert name[n - 2] != '.' && name[n - 1] != '.';
    assert RFind(name, '.') == n - 3;
    var e := Ext(name);
    assert e == name[n - 3..];
    var l := Lower(e);
    assert l[0] == '.' && l[1] == 'm' && l[2] == 'd';
  }

  /** For a single component, `splitext` gives ".md" (any case) exactly when
      the name is a Markdown name. */
  lemma ExtOfName(name: string)
    requires '/' !in name
    ensures Lower(Ext(name)) == ".md" <==> IsMarkdownName(name)
  {
    if Lower(Ext(name)) == ".md" {
      MarkdownExtGivesName(name);
    }
    if IsMarkdownName(name) {
      MarkdownNameGivesExt(name);
    }
  }

  /** For a file path free of "#", the filter of `links` accepts it exactly
      when its name is a Markdown name. */
  lemma MarkdownTargetByName(p: Path)
    requires |p.segs| >= 1 && WellFormed(p) && HashFree(p)
    ensures IsMarkdownTarget(Some(p)) <==> IsMarkdownName(Name(p))
  {
    var s := Str(p);
    assert '#' !in s by {
      if '#' in Join(p.segs, '/') {
        JoinChars(p.segs, '/', '#');
      }
    }
    assert Before(s, '#') == s;
    StrLast(p);
    var a := if |p.segs| == 1 then "" else Str(Parent(p));
    ExtOfLast(a, Name(p));
    ExtOfName(Name(p));
  }

  /** The filter of `links` applied to the resolution of one href: the
      resolved target passes, and so is a path. */
  predicate Accepted(path: Path, href: Option<string>)
  {
    IsMarkdownTarget(GetAbsolutePath(path, href)) && GetAbsolutePath(path, href).Some?
  }

  /** `links`: the resolved targets of the file's hrefs that pass the ".md"
      filter, as a set: a path is a member exactly when some href resolves to
      it and it passes the filter. */
  function Links(path: Path, hrefs: seq<Option<string>>): (r: set<Path>)
    ensures forall p :: p in r <==>
              exists i :: 0 <= i < |hrefs| && Accepted(path, hrefs[i]) && GetAbsolutePath(path, hrefs[i]).value == p
  {
    set i | 0 <= i < |hrefs| && Accepted(path, hrefs[i]) :: GetAbsolutePath(path, hrefs[i]).value
  }

  /** The test `Accepted` is the filter of `links` itself: asking for a
      resolved target as well drops nothing the filter keeps, since an
      unresolved target is `None` and fails it. */
  lemma AcceptedIsFilter(path: Path, href: Option<string>)
    ensures Accepted(path, href) <==> IsMarkdownTarget(GetAbsolutePath(path, href))
  {
    NoneIsNotMarkdown();
  }

  /** `links` is `set(filter(is_md, map(get_absolute_path, hrefs)))`: a path
      is a link exactly when some href resolves to it and the resolution
      passes the ".md" filter; so every link passes the filter, and the
      `None` of an absent or empty href never becomes a link. */
  lemma LinksAreMarkdown(path: Path, hrefs: seq<Option<string>>)
    ensures forall p :: p in Links(path, hrefs) ==> IsMarkdownTarget(Some(p))
    ensures forall p :: p in Links(path, hrefs) <==>
              exists i :: 0 <= i < |hrefs| && IsMarkdownTarget(GetAbsolutePath(path, hrefs[i])) &&
                          GetAbsolutePath(path, hrefs[i]) == Some(p)
  {
    forall i | 0 <= i < |hrefs| {
      AcceptedIsFilter(path, hrefs[i]);
    }
  }

  /** An absent or empty href contributes nothing to `links`: dropping it
      leaves the set unchanged. */
  lemma EmptyHrefIgnored(path: Path, hrefs: seq<Option<string>>, i: nat)
    requires i < |hrefs| && (hrefs[i].None? || hrefs[i] == Some(""))
    ensures Links(path, hrefs) == Links(path, hrefs[..i] + hrefs[i + 1..])
  {
    var rest := hrefs[..i] + hrefs[i + 1..];
    assert GetAbsolutePath(path, hrefs[i]).None?;
    assert forall k :: 0 <= k < i ==> rest[k] == hrefs[k];
    assert forall k :: i <= k < |rest| ==> rest[k] == hrefs[k + 1];
    forall p | p in Links(path, hrefs) ensures p in Links(path, rest) {
      var j :| 0 <= j < |hrefs| && Accepted(path, hrefs[j]) && GetAbsolutePath(path, hrefs[j]).value == p;
      if j < i {
        assert rest[j] == hrefs[j];
      } else {
        assert j != i;
        assert rest[j - 1] == hrefs[j];
      }
    }
    forall p | p in Links(path, rest) ensures p in Links(path, hrefs) {
      var k :| 0 <= k < |rest| && Accepted(path, rest[k]) && GetAbsolutePath(path, rest[k]).value == p;
      if k < i {
        assert rest[k] == hrefs[k];
      } else {
        assert rest[k] == hrefs[k + 1];
      }
    }
  }

  /** Repeating an href adds nothing: a target appears in `links` once. */
  lemma RepeatedHrefCollapses(path: Path, hrefs: seq<Option<string>>, i: nat)
    requires i < |hrefs|
    ensures Links(path, hrefs + [hrefs[i]]) == Links(path, hrefs)
  {
    var more := hrefs + [hrefs[i]];
    assert forall k :: 0 <= k < |hrefs| ==> more[k] == hrefs[k];
    assert more[|hrefs|] == hrefs[i];
    forall p | p in Links(path, more) ensures p in Links(path, hrefs) {
      var j :| 0 <= j < |more| && Accepted(path, more[j]) && GetAbsolutePath(path, more[j]).value == p;
      if j == |hrefs| {
        assert Accepted(path, hrefs[i]);
      }
    }
    forall p | p in Links(path, hrefs) ensures p in Links(path, more) {
      var j :| 0 <= j < |hrefs| && Accepted(path, hrefs[j]) && GetAbsolutePath(path, hrefs[j]).value == p;
      assert Accepted(path, more[j]);
    }
  }

  /** The backlink set of the file at `path`: every file of the link map that
      links to `path`, except the files `path` itself links to (`own`). */
  function BacklinkSet(linkMap: map<Path, set<Path>>, path: Path, own: set<Path>): (r: set<Path>)
    ensures r <= linkMap.Keys
    ensures forall s :: s in r ==> path in linkMap[s]
    ensures r !! own
    ensures forall s :: s in linkMap && path in linkMap[s] && s !in own ==> s in r
  {
    (set s | s in linkMap && path in linkMap[s]) - own
  }

  /** A file never lists itself when `own` is its entry in the link map. */
  lemma NoSelfBacklink(linkMap: map<Path, set<Path>>, path: Path)
    requires path in linkMap
    ensures path !in BacklinkSet(linkMap, path, linkMap[path])
  {
  }

  /** Two files that link to each other get no entry for each other, while a
      third file linking to one of them without a link back still does. */
  lemma MutualLinksExcluded(linkMap: map<Path, set<Path>>, a: Path, b: Path, c: Path)
    requires a in linkMap && b in linkMap && c in linkMap
    requires b in linkMap[a] && a in linkMap[b]
    requires b in linkMap[c] && c !in linkMap[b]
    ensures a !in BacklinkSet(linkMap, b, linkMap[b]) && b !in BacklinkSet(linkMap, a, linkMap[a])
    ensures c in BacklinkSet(linkMap, b, linkMap[b])
  {
  }

  /** The start of the generated block: a blank line, a rule, a blank line
      and the "## Backlinks:" heading line. */
  const Marker: string := "\n\n---\n\n## Backlinks:\n"

  /** The content kept by `add_backlinks`: everything before the first
      marker, or all of it when there is none. The kept prefix holds no marker. */
  function Cut(content: string): (r: string)
    ensures |r| <= |content| && content[..|r|] == r
    ensures forall j :: !OccursAt(r, Marker, j)
    ensures |r| < |content| ==> OccursAt(content, Marker, |r|)
    ensures |r| == |content| ==> forall j :: !OccursAt(content, Marker, j)
    ensures forall j :: OccursAt(content, Marker, j) ==> |r| <= j
  {
    var i := Find(content, Marker);
    if i == -1 then content
    else
      var r := content[..i];
      assert forall j :: OccursAt(r, Marker, j) ==> OccursAt(content, Marker, j) by {
        forall j | OccursAt(r, Marker, j) ensures OccursAt(content, Marker, j) {
          assert r[j..j + |Marker|] == content[j..j + |Marker|];
        }
      }
      r
  }

  /** One entry of the block: `- [heading](relpath)` and a newline. */
  function Entry(heading: string, rel: string): string
  {
    "- [" + heading + "](" + rel + ")\n"
  }

  /** The entries for the backlinks `entries`, in that order, of the file whose
      directory is `dir`: each names the linking file's heading and its path
      relative to `dir`. */
  function Entries(entries: seq<Path>, files: map<Path, MarkdownFile>, dir: Path): string
    requires forall i :: 0 <= i < |entries| ==> entries[i] in files
  {
    if |entries| == 0 then ""
    else
      var last := entries[|entries| - 1];
      Entries(entries[..|entries| - 1], files, dir) + Entry(files[last].heading, RelPath(last, dir))
  }

  /** One more entry adds its line at the end. */
  lemma EntriesSnoc(entries: seq<Path>, s: Path, files: map<Path, MarkdownFile>, dir: Path)
    requires forall i :: 0 <= i < |entries| ==> entries[i] in files
    requires s in files
    ensures Entries(entries + [s], files, dir) == Entries(entries, files, dir) + Entry(files[s].heading, RelPath(s, dir))
  {
    assert (entries + [s])[..|entries|] == entries;
  }

  /** The new content of a file: the kept prefix, the marker, then the entries. */
  function Rewrite(content: string, entries: string): string
  {
    Cut(content) + Marker + entries
  }

  /** The marker minus its final newline: a kept prefix ending with it forms
      a marker together with the first character of the new block. */
  predicate EndsWithOpenMarker(p: string)
  {
    var m := Marker[..|Marker| - 1];
    |p| >= |m| && p[|p| - |m|..] == m
  }

  /** The marker overlaps itself only by its one final/initial newline. */
  lemma MarkerBorder(k: nat)
    requires 0 < k < |Marker|
    ensures Marker[k..] == Marker[..|Marker| - k] ==> k == |Marker| - 1
  {
    var m := Marker;
    if k == |m| - 1 {
    } else if m[k] != m[0] {
      assert m[k..][0] != m[..|m| - k][0];
    } else if m[k + 1] != m[1] {
      assert m[k..][1] != m[..|m| - k][1];
    } else {
      assert m[k..][2] != m[..|m| - k][2];
    }
  }

  /** A marker that fits inside `p` occurs in `p` itself. */
  lemma MarkerInPrefix(p: string, x: string, j: int)
    ensures OccursAt(p + x, Marker, j) && j + |Marker| <= |p| ==> OccursAt(p, Marker, j)
  {
    if OccursAt(p + x, Marker, j) && j + |Marker| <= |p| {
      assert (p + x)[j..j + |Marker|] == p[j..j + |Marker|];
    }
  }

  /** A marker occurring in `p + Marker + e` before `|p|`, where `p` holds no
      marker, straddles the join, so `p` ends with the open marker. */
  lemma StraddlingMarker(p: string, e: string, j: int)
    requires forall i :: !OccursAt(p, Marker, i)
    ensures 0 <= j < |p| && OccursAt(p + Marker + e, Marker, j) ==> EndsWithOpenMarker(p)
  {
    var n := p + Marker + e;
    var m := |Marker|;
    if 0 <= j < |p| && OccursAt(n, Marker, j) {
      assert n == p + (Marker + e);
      MarkerInPrefix(p, Marker + e, j);
      var k := |p| - j;
      assert 0 < k < m;
      assert Marker[k..] == Marker[..m - k] by {
        forall t | 0 <= t < m - k ensures Marker[k + t] == Marker[t] {
          assert n[j + k + t] == Marker[k + t];
          assert n[|p| + t] == Marker[t];
        }
      }
      MarkerBorder(k);
      assert p[|p| - (m - 1)..] == Marker[..m - 1] by {
        forall t | 0 <= t < m - 1 ensures p[j + t] == Marker[t] {
          assert n[j + t] == Marker[t];
        }
      }
    }
  }

  /** The marker written by a rewrite occurs right after the kept prefix. */
  lemma MarkerAfterCut(content: string, entries: string)
    ensures OccursAt(Rewrite(content, entries), Marker, |Cut(content)|)
  {
    var p := Cut(content);
    assert Rewrite(content, entries)[|p|..|p| + |Marker|] == Marker;
  }

  /** Without an open marker at its end, the kept prefix survives a rewrite. */
  lemma CutRewriteKeeps(content: string, entries: string)
    requires !EndsWithOpenMarker(Cut(content))
    ensures Cut(Rewrite(content, entries)) == Cut(content)
  {
    var p := Cut(content);
    var n := Rewrite(content, entries);
    MarkerAfterCut(content, entries);
    var q := Cut(n);
    StraddlingMarker(p, entries, |q|);
    assert |q| == |p|;
    assert q == n[..|p|] == p;
  }

  /** With an open marker at its end, a rewrite cuts the kept prefix shorter. */
  lemma CutRewriteShrinks(content: string, entries: string)
    requires EndsWithOpenMarker(Cut(content))
    ensures |Cut(Rewrite(content, entries))| < |Cut(content)|
  {
    var p := Cut(content);
    var n := Rewrite(content, entries);
    var m := |Marker|;
    var j := |p| - (m - 1);
    assert OccursAt(n, Marker, j) by {
      forall t | 0 <= t < m ensures n[j + t] == Marker[t] {
        if t < m - 1 {
          assert n[j + t] == p[j + t];
        } else {
          assert n[j + t] == n[|p|] == Marker[0] == Marker[m - 1];
        }
      }
    }
  }

  /** Cutting rewritten content gives back the same kept prefix exactly when
      that prefix does not end with the marker minus its final newline. */
  lemma CutRewrite(content: string, entries: string)
    ensures Cut(Rewrite(content, entries)) == Cut(content) <==> !EndsWithOpenMarker(Cut(content))
  {
    if EndsWithOpenMarker(Cut(content)) {
      CutRewriteShrinks(content, entries);
    } else {
      CutRewriteKeeps(content, entries);
    }
  }

  /** Rewriting twice with the same entries gives the same bytes as rewriting
      once, unless the kept prefix ends with the marker minus its newline. */
  lemma RewriteIdempotent(content: string, entries: string)
    requires !EndsWithOpenMarker(Cut(content))
    ensures Rewrite(Rewrite(content, entries), entries) == Rewrite(content, entries)
  {
    CutRewrite(content, entries);
  }

  /** A rerun changes the text whenever the kept prefix ends with the marker
      minus its newline: the second cut is shorter, so the result is too. */
  lemma RerunChangesWhenOpen(content: string, entries: string)
    requires EndsWithOpenMarker(Cut(content))
    ensures Rewrite(Rewrite(content, entries), entries) != Rewrite(content, entries)
  {
    CutRewriteShrinks(content, entries);
  }

  /** A concrete file on which a rerun is not byte-identical: its text ends
      with the marker minus the final newline. */
  lemma RerunChangesOpenMarker()
    ensures var c := "x" + Marker[..|Marker| - 1];
            Rewrite(Rewrite(c, ""), "") != Rewrite(c, "")
  {
    var c := "x" + Marker[..|Marker| - 1];
    forall j ensures !OccursAt(c, Marker, j) {
      if 0 <= j && j + |Marker| <= |c| {
        assert c[j..j + |Marker|][0] == c[0] == 'x';
      }
    }
    assert Cut(c) == c;
    assert EndsWithOpenMarker(c) by {
      assert c[|c| - (|Marker| - 1)..] == Marker[..|Marker| - 1];
    }
    CutRewrite(c, "");
  }
}
