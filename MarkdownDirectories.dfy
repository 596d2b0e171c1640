/** The directory of Markdown files (`MarkdownDirectory` in src.py): the
    files it discovers and keys by resolved path, its link map, and the pass
    that rewrites the backlink block of every file, with the filesystem held
    as a map from path to text that the methods update. */
module MarkdownDirectories {
  import opened Wrappers
  import opened Text
  import opened Paths
  import opened MarkdownFiles

  /** The key of a discovered path string: `(parent.resolve() / s).resolve()`. */
  function Key(parent: Path, s: string): (k: Path)
    ensures |s| > 0 && s[0] == '/' ==> Canonical(k)
    ensures |s| > 0 && s[0] == '/' && Canonical(Path(Parts(s))) ==> k == Path(Parts(s))
  {
    Resolve(JoinPath(Resolve(parent), s))
  }

  /** The file object built for a discovered path string `s`: its path is
      `PosixPath(s)` and its heading comes from that file's current text. */
  function Open(fs: map<Path, string>, s: string, render: string -> Rendered): (f: MarkdownFile)
    requires Path(Parts(s)) in fs
    ensures f.path == Path(Parts(s))
    ensures f.heading == Heading(render(fs[f.path]), f.path)
  {
    var p := Path(Parts(s));
    MarkdownFile(p, Heading(render(fs[p]), p))
  }

  /** Every discovered string names a file that exists. */
  predicate AllExist(fs: map<Path, string>, discovered: seq<string>)
  {
    forall i :: 0 <= i < |discovered| ==> Path(Parts(discovered[i])) in fs
  }

  /** The key of each discovered string, in discovery order. */
  function KeysOf(parent: Path, discovered: seq<string>): seq<Path>
  {
    seq(|discovered|, i requires 0 <= i < |discovered| => Key(parent, discovered[i]))
  }

  /** The file object of each discovered string, in discovery order. */
  function OpenAll(fs: map<Path, string>, discovered: seq<string>, render: string -> Rendered): seq<MarkdownFile>
    requires AllExist(fs, discovered)
  {
    seq(|discovered|, i requires 0 <= i < |discovered| => Open(fs, discovered[i], render))
  }

  /** A dict comprehension that sets `ks[i]` to `vs[i]` in turn: it has
      exactly the keys of `ks`. */
  function DictOf(ks: seq<Path>, vs: seq<MarkdownFile>): (r: map<Path, MarkdownFile>)
    requires |ks| == |vs|
    ensures forall k :: k in r <==> k in ks
    decreases |ks|
  {
    if |ks| == 0 then map[]
    else
      var n := |ks| - 1;
      var prev := DictOf(ks[..n], vs[..n]);
      assert forall k :: k in ks <==> k in ks[..n] || k == ks[n] by {
        assert ks == ks[..n] + [ks[n]];
      }
      prev[ks[n] := vs[n]]
  }

  /** Setting one more key extends the dict by that key. */
  lemma DictOfSnoc(ks: seq<Path>, vs: seq<MarkdownFile>, i: nat)
    requires |ks| == |vs| && i < |ks|
    ensures DictOf(ks[..i + 1], vs[..i + 1]) == DictOf(ks[..i], vs[..i])[ks[i] := vs[i]]
  {
    assert ks[..i + 1][..i] == ks[..i] && vs[..i + 1][..i] == vs[..i];
  }

  /** `ks[i]` does not occur again after position `i`. */
  predicate LastAt(ks: seq<Path>, i: int)
    requires 0 <= i < |ks|
  {
    forall j :: i < j < |ks| ==> ks[j] != ks[i]
  }

  /** When a key is set more than once, the last value wins. */
  lemma {:induction false} DictOfLastWins(ks: seq<Path>, vs: seq<MarkdownFile>, i: nat)
    requires |ks| == |vs| && i < |ks| && LastAt(ks, i)
    ensures ks[i] in DictOf(ks, vs) && DictOf(ks, vs)[ks[i]] == vs[i]
    decreases |ks|
  {
    var n := |ks| - 1;
    if i < n {
      assert ks[n] != ks[i];
      assert ks[..n][i] == ks[i] && vs[..n][i] == vs[i];
      assert LastAt(ks[..n], i);
      DictOfLastWins(ks[..n], vs[..n], i);
    }
  }

  /** No path occurs twice. */
  predicate Distinct(xs: seq<Path>)
  {
    forall i, j :: 0 <= i < j < |xs| ==> xs[i] != xs[j]
  }

  /** The iteration order of such a dict: each key once, at the position of
      its first occurrence (a later duplicate does not move it). */
  function FirstOrder(ks: seq<Path>): (r: seq<Path>)
    ensures Distinct(r)
    ensures forall k :: k in r <==> k in ks
    decreases |ks|
  {
    if |ks| == 0 then []
    else
      var n := |ks| - 1;
      var prev := FirstOrder(ks[..n]);
      assert forall k :: k in ks <==> k in ks[..n] || k == ks[n] by {
        assert ks == ks[..n] + [ks[n]];
      }
      if ks[n] in prev then prev else prev + [ks[n]]
  }

  /** One more key joins the order only when it is new. */
  lemma FirstOrderSnoc(ks: seq<Path>, i: nat)
    requires i < |ks|
    ensures FirstOrder(ks[..i + 1]) == if ks[i] in FirstOrder(ks[..i]) then FirstOrder(ks[..i]) else FirstOrder(ks[..i]) + [ks[i]]
  {
    assert ks[..i + 1][..i] == ks[..i];
  }

  /** Each file of the map sits under its own key, and the key is canonical:
      the discovered path of every file equals its resolved key. */
  predicate KeyedByPath(files: map<Path, MarkdownFile>)
  {
    forall k :: k in files ==> files[k].path == k && Canonical(k)
  }

  /** Adding a file with a canonical path under that path keeps the map keyed by path. */
  lemma KeyedByPathUpdate(files: map<Path, MarkdownFile>, f: MarkdownFile)
    requires KeyedByPath(files) && Canonical(f.path)
    ensures KeyedByPath(files[f.path := f])
  {
  }

  /** `link_map`: every key of `files`, with the links of that file as its
      current text gives them. */
  function LinkMap(disk: map<Path, string>, files: map<Path, MarkdownFile>, render: string -> Rendered): (lm: map<Path, set<Path>>)
    requires forall k :: k in files ==> files[k].path in disk
    ensures lm.Keys == files.Keys
    ensures forall k :: k in lm ==> lm[k] == Links(files[k].path, render(disk[files[k].path]).hrefs)
  {
    map k | k in files :: Links(files[k].path, render(disk[files[k].path]).hrefs)
  }

  /** Changing the text of one file changes only that file's entry of the
      link map: every other file keeps its links. */
  lemma LinkMapUpdate(disk: map<Path, string>, files: map<Path, MarkdownFile>, render: string -> Rendered,
                      d: Path, text: string)
    requires KeyedByPath(files) && files.Keys <= disk.Keys && d in files
    ensures LinkMap(disk[d := text], files, render) ==
            LinkMap(disk, files, render)[d := Links(d, render(text).hrefs)]
  {
    var a := LinkMap(disk[d := text], files, render);
    var b := LinkMap(disk, files, render)[d := Links(d, render(text).hrefs)];
    assert a.Keys == b.Keys;
    forall k | k in a ensures a[k] == b[k] {
      assert files[k].path == k;
    }
  }

  /** `entries` lists the members of `s`, each once, in some order. */
  ghost predicate Enumerates(entries: seq<Path>, s: set<Path>)
  {
    Distinct(entries) && forall k :: k in entries <==> k in s
  }

  /** The backlinks of file `d` when the files hold `disk`: every file whose
      links include `d`, except the files `d` itself links to. */
  function BacklinksOf(disk: map<Path, string>, files: map<Path, MarkdownFile>, render: string -> Rendered, d: Path): (r: set<Path>)
    requires files.Keys <= disk.Keys && d in disk
    ensures r <= files.Keys
  {
    set s | s in files && d in Links(s, render(disk[s]).hrefs) && s !in Links(d, render(disk[d]).hrefs)
  }

  /** The backlink set computed from `link_map` is the backlinks of `d`, and
      `d` is never among them. */
  lemma BacklinksFromLinkMap(disk: map<Path, string>, files: map<Path, MarkdownFile>, render: string -> Rendered, d: Path)
    requires KeyedByPath(files) && files.Keys <= disk.Keys && d in files
    ensures BacklinkSet(LinkMap(disk, files, render), d, Links(d, render(disk[d]).hrefs)) == BacklinksOf(disk, files, render, d)
    ensures d !in BacklinksOf(disk, files, render, d)
  {
    var lm := LinkMap(disk, files, render);
    var own := Links(d, render(disk[d]).hrefs);
    assert own == lm[d];
    NoSelfBacklink(lm, d);
    forall s | s in files ensures lm[s] == Links(s, render(disk[s]).hrefs) {
      assert files[s].path == s;
    }
  }

  /** The files after the old block of `d` is cut off. */
  function CutBlock(disk: map<Path, string>, d: Path): map<Path, string>
    requires d in disk
  {
    disk[d := Cut(disk[d])]
  }

  /** One call of `add_backlinks` on `d` took the files from `before` to
      `after`, writing `entries`: they enumerate the backlinks of `d` as the
      files stand once the old block of `d` is cut off, the new text of `d`
      is its kept prefix, the marker and one line per entry, and every other
      file is unchanged. */
  ghost predicate Rewritten(files: map<Path, MarkdownFile>, render: string -> Rendered,
                            before: map<Path, string>, d: Path, entries: seq<Path>, after: map<Path, string>)
  {
    && KeyedByPath(files) && files.Keys <= before.Keys && d in files
    && Enumerates(entries, BacklinksOf(CutBlock(before, d), files, render, d))
    && after == before[d := Rewrite(before[d], Entries(entries, files, Parent(d)))]
  }

  /** Running `add_backlinks` on `d` a second time with the entries in the
      same order leaves every file as the first run left it, unless the
      kept prefix of `d` ends with the marker minus its final newline. */
  lemma AddBacklinksIdempotent(files: map<Path, MarkdownFile>, render: string -> Rendered,
                               before: map<Path, string>, d: Path, entries: seq<Path>, after: map<Path, string>)
    requires KeyedByPath(files) && files.Keys <= before.Keys && d in files
    requires Rewritten(files, render, before, d, entries, after)
    requires !EndsWithOpenMarker(Cut(before[d]))
    ensures Rewritten(files, render, after, d, entries, after)
  {
    var text := Entries(entries, files, Parent(d));
    var r := Rewrite(before[d], text);
    CutRewriteKeeps(before[d], text);
    UpdateTwice(before, d, r, Cut(r));
    assert CutBlock(after, d) == CutBlock(before, d);
    RewriteIdempotent(before[d], text);
    UpdateSame(after, d);
  }

  /** Setting a key twice keeps the second value. */
  lemma UpdateTwice(m: map<Path, string>, d: Path, x: string, y: string)
    ensures m[d := x][d := y] == m[d := y]
  {
  }

  /** Setting a key to the value it has changes nothing. */
  lemma UpdateSame(m: map<Path, string>, d: Path)
    requires d in m
    ensures m[d := m[d]] == m
  {
  }

  /** The relpath written for a backlink whose path holds no "#", read back
      through the relative rule of `get_absolute_path` from the file `d`,
      leads to the linking file. (Whether the renderer gives that relpath
      back as an href is up to `render`, about which nothing is assumed.) */
  lemma WrittenBacklinkResolves(d: Path, s: Path)
    requires Canonical(d) && Canonical(s) && HashFree(s)
    ensures GetAbsolutePath(d, Some(RelPath(s, Parent(d)))) == Some(s)
  {
    var dir := Parent(d);
    ParentCanonical(d);
    var rel := RelPath(s, dir);
    RelPathRoundTrip(s, dir);
    RelPathShape(s, dir);
    assert Before(rel, '#') == rel by {
      BeforePrefix(rel, "", '#');
      assert rel + "" == rel;
      assert Before("", '#') == "";
    }
  }

  /** The backlink written for a file whose path holds a "#" leads elsewhere:
      `get_absolute_path` cuts the written relpath at that "#", so from a
      file `d` whose own path holds none it resolves to a path that is not
      the linking file. */
  lemma HashedBacklinkMisses(d: Path, s: Path)
    requires Canonical(d) && HashFree(d) && Canonical(s) && !HashFree(s)
    ensures GetAbsolutePath(d, Some(RelPath(s, Parent(d)))) != Some(s)
  {
    ParentCanonical(d);
    RelPathShape(s, Parent(d));
    RelativeTargetHashFree(d, RelPath(s, Parent(d)));
  }

  /** A relative path between canonical paths is not empty, does not start
      with "/" and, when the target is free of "#", holds none. */
  lemma RelPathShape(target: Path, start: Path)
    requires Canonical(target) && Canonical(start)
    ensures var r := RelPath(target, start); r != "" && r[0] != '/' && (HashFree(target) ==> '#' !in r)
  {
    var ts, ss := target.segs, start.segs;
    var i := CommonPrefix(ss, ts);
    var rel := Ups(|ss| - i) + ts[i..];
    var r := RelPath(target, start);
    if rel == [] {
      assert r == ".";
    } else {
      assert forall j :: 0 <= j < |rel| ==> rel[j] != "" && (HashFree(target) ==> '#' !in rel[j]) by {
        forall j | 0 <= j < |rel| ensures rel[j] != "" && (HashFree(target) ==> '#' !in rel[j]) {
          if j >= |ss| - i { assert rel[j] == ts[i + j - (|ss| - i)]; }
        }
      }
      JoinHead(rel, '/');
      assert r[0] == rel[0][0];
      if HashFree(target) && '#' in r {
        JoinChars(rel, '/', '#');
      }
    }
  }

  /** A relation between the files before and after one call on a file
      that wrote some entries. */
  type Step = (map<Path, string>, Path, seq<Path>, map<Path, string>) -> bool

  /** Call `i` of a run: on `order[i]`, from `states[i]` to `states[i + 1]`, writing `chosen[i]`. */
  ghost predicate StepAt(step: Step, order: seq<Path>, states: seq<map<Path, string>>, chosen: seq<seq<Path>>, i: int)
  {
    0 <= i < |order| && i + 1 < |states| && i < |chosen| &&
    step(states[i], order[i], chosen[i], states[i + 1])
  }

  /** A run of calls: `states[i]` holds the files before the `i`-th call,
      which was on `order[i]` and wrote `chosen[i]`. */
  ghost predicate Run(step: Step, order: seq<Path>, states: seq<map<Path, string>>, chosen: seq<seq<Path>>)
  {
    && |states| == |order| + 1 && |chosen| == |order|
    && forall i :: 0 <= i < |order| ==> StepAt(step, order, states, chosen, i)
  }

  /** A run followed by one more step is a run. */
  lemma RunExtend(step: Step, order: seq<Path>, states: seq<map<Path, string>>, chosen: seq<seq<Path>>,
                  d: Path, entries: seq<Path>, next: map<Path, string>)
    requires Run(step, order, states, chosen)
    requires step(states[|order|], d, entries, next)
    ensures Run(step, order + [d], states + [next], chosen + [entries])
  {
    var o, s, c := order + [d], states + [next], chosen + [entries];
    forall i | 0 <= i < |o| ensures StepAt(step, o, s, c, i) {
      if i < |order| {
        assert StepAt(step, order, states, chosen, i);
        assert o[i] == order[i] && s[i] == states[i] && s[i + 1] == states[i + 1] && c[i] == chosen[i];
      } else {
        assert o[i] == d && s[i] == states[i] && s[i + 1] == next && c[i] == entries;
      }
    }
  }

  /** The step of `add_backlinks` in a directory with these files. */
  ghost function AddBacklinksStep(files: map<Path, MarkdownFile>, render: string -> Rendered): Step
  {
    (before, d, entries, after) => Rewritten(files, render, before, d, entries, after)
  }

  /** `after` differs from `before` at most in the text of `d`. */
  predicate ChangesOnly(before: map<Path, string>, d: Path, after: map<Path, string>)
  {
    d in before && d in after && after == before[d := after[d]]
  }

  /** Each step of `states` changes only the text of `order[i]`. */
  predicate StepsChangeOnly(order: seq<Path>, states: seq<map<Path, string>>)
  {
    |states| == |order| + 1 &&
    forall i :: 0 <= i < |order| ==> ChangesOnly(states[i], order[i], states[i + 1])
  }

  /** A file none of the first `m` steps visits keeps its text. */
  lemma {:induction false} Untouched(order: seq<Path>, states: seq<map<Path, string>>, m: nat, k: Path)
    requires StepsChangeOnly(order, states) && m <= |order|
    requires k in states[0] && forall j :: 0 <= j < m ==> order[j] != k
    ensures k in states[m] && states[m][k] == states[0][k]
    decreases m
  {
    if m > 0 {
      Untouched(order, states, m - 1, k);
      assert ChangesOnly(states[m - 1], order[m - 1], states[m]);
    }
  }

  /** After step `i`, a file visited only at step `i` keeps the text it got there. */
  lemma {:induction false} VisitedOnce(order: seq<Path>, states: seq<map<Path, string>>, m: nat, i: nat)
    requires StepsChangeOnly(order, states) && Distinct(order) && i < m <= |order|
    ensures order[i] in states[m] && states[m][order[i]] == states[i + 1][order[i]]
    decreases m
  {
    assert ChangesOnly(states[m - 1], order[m - 1], states[m]);
    if m - 1 > i {
      VisitedOnce(order, states, m - 1, i);
      assert order[m - 1] != order[i];
    }
  }

  /** The set of files stays the same through the steps. */
  lemma {:induction false} SameFiles(order: seq<Path>, states: seq<map<Path, string>>, m: nat)
    requires StepsChangeOnly(order, states) && m <= |order|
    ensures states[m].Keys == states[0].Keys
    decreases m
  {
    if m > 0 {
      SameFiles(order, states, m - 1);
      assert ChangesOnly(states[m - 1], order[m - 1], states[m]);
    }
  }

  /** What one call of `add_backlinks` leaves behind: only the text of `d`
      changed, and it is the kept prefix, the marker and the written lines. */
  lemma RewrittenChangesOnly(files: map<Path, MarkdownFile>, render: string -> Rendered,
                             before: map<Path, string>, d: Path, entries: seq<Path>, after: map<Path, string>)
    requires Rewritten(files, render, before, d, entries, after)
    ensures ChangesOnly(before, d, after)
    ensures forall j :: 0 <= j < |entries| ==> entries[j] in files
    ensures after[d] == Rewrite(before[d], Entries(entries, files, Parent(d)))
  {
  }

  /** A pass over distinct files rewrites each of them exactly once: its final
      text is its text before the pass with the block chosen at its turn, and
      a file the pass does not visit keeps its text. */
  lemma PassRewritesEachOnce(files: map<Path, MarkdownFile>, render: string -> Rendered, order: seq<Path>,
                             states: seq<map<Path, string>>, chosen: seq<seq<Path>>)
    requires Distinct(order)
    requires Run(AddBacklinksStep(files, render), order, states, chosen)
    ensures states[|order|].Keys == states[0].Keys
    ensures forall i :: 0 <= i < |order| ==> order[i] in states[0]
    ensures forall i :: 0 <= i < |order| ==>
              (forall j :: 0 <= j < |chosen[i]| ==> chosen[i][j] in files) &&
              states[|order|][order[i]] == Rewrite(states[0][order[i]], Entries(chosen[i], files, Parent(order[i])))
    ensures forall k :: k in states[0] && k !in order ==> states[|order|][k] == states[0][k]
  {
    var n := |order|;
    var step := AddBacklinksStep(files, render);
    forall i | 0 <= i < n
      ensures ChangesOnly(states[i], order[i], states[i + 1])
      ensures forall j :: 0 <= j < |chosen[i]| ==> chosen[i][j] in files
      ensures states[i + 1][order[i]] == Rewrite(states[i][order[i]], Entries(chosen[i], files, Parent(order[i])))
    {
      assert StepAt(step, order, states, chosen, i);
      RewrittenChangesOnly(files, render, states[i], order[i], chosen[i], states[i + 1]);
    }
    assert StepsChangeOnly(order, states);
    SameFiles(order, states, n);
    forall i | 0 <= i < n
      ensures order[i] in states[0] && order[i] in states[n]
      ensures states[n][order[i]] == Rewrite(states[0][order[i]], Entries(chosen[i], files, Parent(order[i])))
    {
      SameFiles(order, states, i);
      assert ChangesOnly(states[i], order[i], states[i + 1]);
      assert forall j :: 0 <= j < i ==> order[j] != order[i];
      Untouched(order, states, i, order[i]);
      VisitedOnce(order, states, n, i);
    }
    forall k | k in states[0] && k !in order ensures states[n][k] == states[0][k] {
      Untouched(order, states, n, k);
    }
  }

  /** The lines written for the backlinks `todo` of a file in directory
      `dir`, one per backlink, in the order the set is iterated (`entries`). */
  method FormatBacklinks(files: map<Path, MarkdownFile>, todo: set<Path>, dir: Path) returns (lines: string, ghost entries: seq<Path>)
    requires todo <= files.Keys
    ensures Enumerates(entries, todo)
    ensures lines == Entries(entries, files, dir)
  {
    var rest := todo;
    lines := "";
    entries := [];
    while rest != {}
      invariant rest <= todo
      invariant Distinct(entries)
      invariant forall k :: k in entries <==> k in todo && k !in rest
      invariant lines == Entries(entries, files, dir)
      decreases |rest|
    {
      var s :| s in rest;
      EntriesSnoc(entries, s, files, dir);
      lines := lines + Entry(files[s].heading, RelPath(s, dir));
      entries := entries + [s];
      rest := rest - {s};
    }
  }

  class MarkdownDirectory {
    /** The Markdown renderer with the XPath queries, as a function of the text. */
    const render: string -> Rendered
    /** `files`: the file object under each resolved key. */
    const files: map<Path, MarkdownFile>
    /** The keys of `files` in the dict's iteration order. */
    const order: seq<Path>
    /** The text of every file on disk. */
    var disk: map<Path, string>

    ghost predicate Valid()
      reads this
    {
      && KeyedByPath(files)
      && files.Keys <= disk.Keys
      && Distinct(order)
      && forall k :: k in order <==> k in files
    }

    /** `MarkdownDirectory(path_string)`, given the files on disk, the parent
        of the root and the path strings `rglob('*.md')` discovered under it.
        The model assumes the discovered strings are absolute and free of
        "..", so that each discovered path equals its resolved key. */
    constructor (fs: map<Path, string>, parent: Path, discovered: seq<string>, render: string -> Rendered)
      requires forall i :: 0 <= i < |discovered| ==>
                 && |discovered[i]| > 0 && discovered[i][0] == '/'
                 && Canonical(Path(Parts(discovered[i])))
                 && Path(Parts(discovered[i])) in fs
      ensures Valid()
      ensures this.render == render && disk == fs
      ensures files == DictOf(KeysOf(parent, discovered), OpenAll(fs, discovered, render))
      ensures order == FirstOrder(KeysOf(parent, discovered))
    {
      ghost var ks := KeysOf(parent, discovered);
      ghost var vs := OpenAll(fs, discovered, render);
      var m: map<Path, MarkdownFile> := map[];
      var ord: seq<Path> := [];
      for i := 0 to |discovered|
        invariant m == DictOf(ks[..i], vs[..i])
        invariant ord == FirstOrder(ks[..i])
        invariant KeyedByPath(m) && m.Keys <= fs.Keys
      {
        var s := discovered[i];
        var k := Key(parent, s);
        var f := Open(fs, s, render);
        DictOfSnoc(ks, vs, i);
        FirstOrderSnoc(ks, i);
        KeyedByPathUpdate(m, f);
        if k !in ord {
          ord := ord + [k];
        }
        m := m[k := f];
      }
      assert ks[..|discovered|] == ks && vs[..|discovered|] == vs;
      this.render := render;
      files := m;
      order := ord;
      disk := fs;
    }

    /** `add_backlinks` of the file keyed `d`: cut its text at the first
        marker, then append the marker and one line per backlink, computed
        from the texts as they are after the cut. */
    method AddBacklinks(d: Path) returns (ghost entries: seq<Path>)
      requires Valid() && d in files
      modifies this`disk
      ensures Valid()
      ensures Rewritten(files, render, old(disk), d, entries, disk)
    {
      var content := disk[d];
      var index := Find(content, Marker);
      if index != -1 {
        disk := disk[d := content[..index]];
      } else {
        UpdateSame(disk, d);
      }
      assert disk == CutBlock(old(disk), d);
      var lm := LinkMap(disk, files, render);
      var own := Links(d, render(disk[d]).hrefs);
      var todo := BacklinkSet(lm, d, own);
      BacklinksFromLinkMap(disk, files, render, d);
      var lines;
      lines, entries := FormatBacklinks(files, todo, Parent(d));
      ghost var cut := disk;
      disk := disk[d := disk[d] + Marker + lines];
      UpdateTwice(old(disk), d, cut[d], disk[d]);
    }

    /** `add_all_backlinks`: `add_backlinks` on every file in the dict's
        order, each call seeing the texts the earlier calls wrote. */
    method AddAllBacklinks() returns (ghost states: seq<map<Path, string>>, ghost chosen: seq<seq<Path>>)
      requires Valid()
      modifies this`disk
      ensures Valid()
      ensures Run(AddBacklinksStep(files, render), order, states, chosen)
      ensures states[0] == old(disk) && states[|order|] == disk
    {
      states := [disk];
      chosen := [];
      for i := 0 to |order|
        invariant Valid()
        invariant Run(AddBacklinksStep(files, render), order[..i], states, chosen)
        invariant states[0] == old(disk) && states[i] == disk
      {
        var entries := AddBacklinks(order[i]);
        RunExtend(AddBacklinksStep(files, render), order[..i], states, chosen, order[i], entries, disk);
        assert order[..i] + [order[i]] == order[..i + 1];
        states := states + [disk];
        chosen := chosen + [entries];
      }
      assert order[..|order|] == order;
    }
  }
}
