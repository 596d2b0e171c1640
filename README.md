# backlink_adder in Dafny

This project models `src.py` of backlink_adder. The program walks a directory of Markdown files. For each file it collects the files that link to it, its backlinks. It then rewrites the file's generated block: the `"\n\n---\n\n## Backlinks:\n"` marker followed by one `- [heading](relpath)` line per backlink.

The model has four modules:

- `Text` holds the Python `str` operations the program relies on: `split`, `split(c)[0]`, `find`, `rfind` and ASCII `lower`.
- `Paths` holds `PurePosixPath` parsing, the lexical `resolve`, `os.path.splitext`, `str(path)`, `parent`, `name` and `os.path.relpath`. A path is `Path(segs)`, an absolute path given by its components.
- `MarkdownFiles` holds the pure part of `MarkdownFile`:
  - the heading choice;
  - `get_absolute_path`;
  - the `.md` filter and `links`;
  - the backlink set comprehension;
  - the cut-and-append rewrite of the backlink block.
- `MarkdownDirectories` holds `MarkdownDirectory`:
  - the key computation and the last-wins dict of `__init__`;
  - `link_map`;
  - `add_backlinks` as a method;
  - `add_all_backlinks` as a loop over the files.

In the class `MarkdownDirectories.MarkdownDirectory`, the filesystem is a field `disk: map<Path, string>` that the methods rewrite.

The Markdown renderer and its XPath queries are a function `render` from a file's text to its hrefs and the text nodes inside its `h1` elements (`//h1//text()`). The class holds it as a constant.

`add_backlinks` first cuts the file at the marker, and only then reads the link map and the file's own links. So the file's own links come from its text after the cut, while every other file is read as it currently stands. The model keeps that order. In `add_all_backlinks`, each call sees the blocks that the earlier calls wrote.

The order of the backlink lines comes from set iteration. The model chooses it with `:|`. A ghost sequence `entries` records the choice, and the contracts state it enumerates the backlink set with no repetition.

The membership test at src.py:145 compares against the path as discovered, while the keys and links are resolved paths. The model assumes each discovered path string is absolute and canonical, so that it equals its key. The constructor's `requires` states this, and `Valid()` keeps it as `KeyedByPath`.

A file's text in the model is the decoded text that `read()` returns, and the cut is at the character index that `find` gives. The source truncates at that number taken as a byte offset of the file (see "## Left out"). So what follows holds of the source only for files whose text before the first marker is ASCII and holds no "\r".

Cutting at the marker is meant to leave a rerun's output unchanged. For such files the code does so only when the kept prefix does not end with the marker minus its final newline. When it does, the first marker found on the rerun straddles the join, and the rerun cuts earlier:

- `CutRewrite` proves the condition as an iff for the cut.
- `RewriteIdempotent` proves that a rerun with the same lines gives the same text when the condition holds, and `RerunChangesWhenOpen` proves that it changes the text when the condition fails.
- `MarkerBorder` shows this is the only possible overlap, and `RerunChangesOpenMarker` exhibits such a file.

## Model

| member | source | states |
|---|---|---|
| Text.Split | src.py:93 | `s.split(c)`: at least one piece, no piece holds `c`, and joining the pieces with `c` gives `s` back |
| Text.Before | src.py:119 | `s.split(c)[0]` is a prefix of `s` free of `c`, followed in `s` by `c` unless it is all of `s` |
| Text.BeforePrefix | src.py:119 | a prefix free of the separator is kept by `split(c)[0]` and the rest is cut as before |
| Text.SplitJoin | src.py:93 | splitting the join of separator-free pieces gives the pieces back |
| Text.Find | src.py:131 | `find` gives an index where the pattern occurs with no earlier occurrence, or -1 when it occurs nowhere |
| Text.RFind | src.py:93 | `rfind` of a character gives its last index, or -1 when it is absent |
| Text.RFindAppend | src.py:93 | the last occurrence in `a + b` lies in `b` when `b` has one, else it is the last one in `a` |
| Text.Lower | src.py:93 | `lower()` keeps the length and lowers each ASCII capital |
| Paths.Components | src.py:118 | `PurePosixPath` keeps exactly the pieces that are neither empty nor "." (their order and count are stated by ComponentsAppend and ComponentsSingle) |
| Paths.ComponentsSingle | src.py:118 | one piece is kept exactly when it is neither empty nor "." |
| Paths.ComponentsAppend | src.py:118 | the kept pieces of a concatenation are those of each half, in order |
| Paths.Parts | src.py:118 | every component of a parsed path is non-empty, not ".", and free of "/" |
| Paths.PartsOfJoin | src.py:118 | parsing the joined components of a path gives them back |
| Paths.StrRoundTrip | src.py:93 | parsing `str(p)` gives back the components of `p` |
| Paths.JoinPath | src.py:119 | the `/` operator: a string starting with "/" replaces the directory, anything else extends it; a well-formed directory gives a well-formed path |
| Paths.PartsDotSlash | src.py:119 | a leading "./" does not change the components |
| Paths.Resolve | src.py:32 | `resolve()` of a parsed path has no "." or ".." component, and a canonical path resolves to itself |
| Paths.WalkAppend | src.py:119 | resolving a concatenation walks its two halves in turn |
| Paths.WalkUps | src.py:119 | n ".." components drop the last n components |
| Paths.Parent | src.py:119 | `parent` is the path less its last component, and the root is its own parent |
| Paths.Name | src.py:80 | `name` is the last component: the parent's components followed by it give the path, and it holds no "/" |
| Paths.ParentCanonical | src.py:119 | the parent of a canonical path is canonical |
| Paths.Str | src.py:93 | `str(p)` starts with "/" |
| Paths.StrLast | src.py:93 | `str(p)` is the parent's string, "/" and the name |
| Paths.Ext | src.py:93 | `splitext` gives "" or a suffix of the string made of one "." and then no "." or "/" |
| Paths.ExtOfLast | src.py:93 | the extension of a path string is the extension of its last component |
| Paths.CommonPrefix | src.py:143 | the longest common prefix of two component lists |
| Paths.RelPath | src.py:143 | `os.path.relpath` of absolute paths: one ".." per component of the start below the common prefix, then the rest of the target, or "." for the same path; what it means is stated by RelPathRoundTrip and RelPathShape |
| Paths.RelPathRoundTrip | src.py:143 | joining `relpath(target, start)` to `start` and resolving gives `target` back |
| MarkdownFiles.Heading | src.py:76-80 | the heading is the first text node inside an `h1`, or the file name when there is none |
| MarkdownFiles.GetAbsolutePath | src.py:101-119 | no result exactly for an absent or empty target; a target starting with "/" is parsed as it is; a relative target gives a canonical path |
| MarkdownFiles.RelativeTarget | src.py:119 | a relative target gives its part before the first "#", parsed and walked from the file's resolved directory |
| MarkdownFiles.RelativeTargetPlain | src.py:119 | a relative target free of "#" and ".." gives the file's directory followed by its components |
| MarkdownFiles.FragmentDropped | src.py:119 | `s#frag` resolves to the same path as `s` |
| MarkdownFiles.DotSlashIgnored | src.py:119 | `./s` resolves to the same path as `s` |
| MarkdownFiles.AbsoluteKeepsFragment | src.py:117-118 | a target starting with "/" keeps its "#fragment", so it gives a path no hash-free key equals |
| MarkdownFiles.IsMarkdownTarget | src.py:93 | the filter: the extension of `str(target)` cut at its first "#", lowered, is ".md"; MarkdownTargetByName and NoneIsNotMarkdown state what it accepts |
| MarkdownFiles.NoneIsNotMarkdown | src.py:93 | `str(None)` never passes the ".md" filter |
| MarkdownFiles.MarkdownExtGivesName | src.py:93 | a component whose lowered extension is ".md" is a Markdown name |
| MarkdownFiles.MarkdownNameGivesExt | src.py:93 | a Markdown name has the lowered extension ".md" |
| MarkdownFiles.ExtOfName | src.py:93 | for one component, the extension is ".md" in any case iff the name is a Markdown name |
| MarkdownFiles.MarkdownTargetByName | src.py:93 | a hash-free path passes the filter iff its last component is a Markdown name |
| MarkdownFiles.Links | src.py:89-99 | a path is a link iff some href resolves to it and passes the filter |
| MarkdownFiles.AcceptedIsFilter | src.py:93 | the test the model uses for `links` keeps an href exactly when the source's filter keeps its resolution, `None` included |
| MarkdownFiles.LinksAreMarkdown | src.py:91-99 | a path is a link exactly when some href's resolution is that path and passes the source's ".md" filter, so every link passes it and an absent or empty href adds nothing |
| MarkdownFiles.RelativeTargetHashFree | src.py:119 | a relative target read from a file whose path holds no "#" gives a path holding none |
| MarkdownFiles.EmptyHrefIgnored | src.py:115-116 | deleting an absent or empty href leaves the links unchanged |
| MarkdownFiles.RepeatedHrefCollapses | src.py:91 | repeating an href adds no link |
| MarkdownFiles.BacklinkSet | src.py:144-146 | the backlink set is the keys whose links hold the file, minus the file's own links: within the keys, disjoint from the own links, and complete |
| MarkdownFiles.NoSelfBacklink | src.py:144-146 | a file is never its own backlink |
| MarkdownFiles.MutualLinksExcluded | src.py:144-146 | two files that link to each other are not each other's backlinks, while a one-way linker is a backlink |
| MarkdownFiles.Cut | src.py:129-134 | the kept content is the prefix before the first marker, or all of it when there is none, and holds no marker |
| MarkdownFiles.Entry | src.py:143 | one line `- [heading](relpath)` and a newline |
| MarkdownFiles.Entries | src.py:142-147 | the lines for a sequence of backlinks, in that order; EntriesSnoc states how one more backlink extends them |
| MarkdownFiles.Rewrite | src.py:129-149 | the new content: the kept prefix, the marker and the lines; CutRewrite and RewriteIdempotent state how it behaves on a rerun |
| MarkdownFiles.EntriesSnoc | src.py:142-147 | one more backlink appends its `- [heading](relpath)` line at the end |
| MarkdownFiles.MarkerBorder | src.py:131 | the marker overlaps itself only by its single newline |
| MarkdownFiles.StraddlingMarker | src.py:131-141 | a marker found across the join of a marker-free prefix and a new block means the prefix ends with the marker minus its newline |
| MarkdownFiles.MarkerAfterCut | src.py:131-141 | the rewritten content has a marker right after the kept prefix |
| MarkdownFiles.CutRewriteKeeps | src.py:129-141 | cutting the rewritten content gives the same prefix unless it ends with the open marker |
| MarkdownFiles.CutRewriteShrinks | src.py:129-141 | when the prefix ends with the open marker, cutting the rewritten content gives a shorter prefix |
| MarkdownFiles.CutRewrite | src.py:129-149 | cutting the rewritten content gives the same prefix iff the prefix does not end with the marker minus its newline |
| MarkdownFiles.RewriteIdempotent | src.py:129-149 | rewriting twice with the same lines equals rewriting once, under that condition |
| MarkdownFiles.RerunChangesWhenOpen | src.py:129-149 | a rerun changes the text whenever the kept prefix ends with the marker minus its newline |
| MarkdownFiles.RerunChangesOpenMarker | src.py:129-149 | a file ending with the marker minus its newline changes on a rerun |
| MarkdownDirectories.Key | src.py:32 | the key of an absolute string is canonical, and equals the string's parsed path when that is canonical |
| MarkdownDirectories.Open | src.py:30 | the file object has the discovered path and the heading of the file's current text |
| MarkdownDirectories.DictOf | src.py:29-33 | the dict built by the comprehension has exactly the discovered keys |
| MarkdownDirectories.DictOfSnoc | src.py:29-33 | one more discovered path sets its key to its file object |
| MarkdownDirectories.DictOfLastWins | src.py:29-33 | a key discovered more than once holds the file object of its last occurrence |
| MarkdownDirectories.FirstOrder | src.py:44 | the dict's iteration order lists each key once, and exactly the discovered keys |
| MarkdownDirectories.FirstOrderSnoc | src.py:44 | a key joins the iteration order only when it is new |
| MarkdownDirectories.LinkMap | src.py:36-41 | `link_map` has exactly the keys of `files`, each mapped to that file's current links |
| MarkdownDirectories.LinkMapUpdate | src.py:35-41 | after one file's text changes, only that file's entry of `link_map` changes |
| MarkdownDirectories.BacklinksOf | src.py:144-146 | the backlinks are files of the directory |
| MarkdownDirectories.BacklinksFromLinkMap | src.py:144-146 | the set computed from `link_map` is the files linking to `d` that `d` does not link to, and never includes `d` |
| MarkdownDirectories.Rewritten | src.py:121-149 | one `add_backlinks` on `d`: the entries enumerate the backlinks of `d` computed after its cut, `d` gets its kept prefix, the marker and the lines, and no other file changes |
| MarkdownDirectories.AddBacklinksIdempotent | src.py:121-149 | a second `add_backlinks` on the same file with the entries in the same order changes nothing, unless the kept prefix ends with the open marker |
| MarkdownDirectories.RewrittenChangesOnly | src.py:136-149 | one `add_backlinks` changes only its own file, to the kept prefix, the marker and the lines |
| MarkdownDirectories.WrittenBacklinkResolves | src.py:143 | for a linking file whose path holds no "#", the written relpath, resolved by `get_absolute_path` from the file, leads back to it |
| MarkdownDirectories.HashedBacklinkMisses | src.py:119 | for a linking file whose path holds a "#", the written relpath resolved from a file without one does not lead back to it |
| MarkdownDirectories.RelPathShape | src.py:143 | the written relpath is non-empty and relative, and free of "#" when the linking file's path is |
| MarkdownDirectories.RunExtend | src.py:44-45 | a pass followed by one more call is a pass over one more file |
| MarkdownDirectories.PassRewritesEachOnce | src.py:43-45 | after the pass over distinct files, each file holds its text before the pass rewritten with the lines chosen at its turn, and every other file is unchanged |
| MarkdownDirectories.FormatBacklinks | src.py:142-147 | the lines are one `- [heading](relpath)` line per member of the backlink set, each member once |
| MarkdownDirectories.MarkdownDirectory.constructor | src.py:18-33 | `files` is the last-wins dict of the discovered keys, `order` is its iteration order, and each file sits under its own canonical key |
| MarkdownDirectories.MarkdownDirectory.AddBacklinks | src.py:121-149 | the file gets its prefix before the first marker, the marker, and one line per backlink computed from the texts after the cut; no other file changes |
| MarkdownDirectories.MarkdownDirectory.AddAllBacklinks | src.py:43-45 | the files go through one `add_backlinks` per key in dict order, each call reading the texts the earlier calls left |

## Left out

- Reading and writing files: `open`, `read`, `seek`, `truncate` and append mode are a rewrite of the file's entry in `disk`, which holds the decoded text. Write errors are not modelled.
- Byte offsets are not modelled. The file is opened in text mode (src.py:129), so `read()` decodes it and turns "\r\n" into "\n", and `find` gives a character index into that text (src.py:131). `seek` then takes that number as a byte offset and `truncate` cuts there (src.py:133-134). When the text before the marker holds a non-ASCII character or a "\r", the source cuts before the marker: it loses the end of the kept text and can split a UTF-8 sequence, after which the next read fails, and each rerun cuts further. The model cuts at the character index, which is what the source does exactly when that text is ASCII with no "\r"; Cut, CutRewrite, RewriteIdempotent, RerunChangesWhenOpen and AddBacklinksIdempotent describe the source only for such files.
- The `markdown` renderer and the `lxml` XPath queries are foreign code. They are the function `render` from text to hrefs and `h1` texts. An href that is not a string is `None`.
- `render` is taken as total. In the source it is not: Python-Markdown renders an empty or whitespace-only text to "", and `lxml.html.fromstring("")` raises `ParserError` (src.py:86). So `MarkdownDirectory.__init__` raises on any empty or blank `.md` file, through the heading lookup (src.py:76), and `links` and `link_map` raise on a file whose text is blank when read (src.py:96). The model's constructor and `add_backlinks` succeed on such files.
- `rglob` discovery is not modelled. The discovered path strings are an input sequence.
- Read failures are not modelled. `MarkdownFile.__init__` opens each discovered file to read its heading (src.py:76, src.py:85), which fails for a directory named `*.md` or an unreadable file. The constructor's `requires` that every discovered path is a file in `disk` excludes these cases.
- The model assumes every discovered string is absolute and canonical, so that each file's discovered path equals its key. With a relative or non-canonical root, the `in` test at src.py:145 never matches. That case is not modelled.
- `Path.resolve` is lexical. Symlinks and the current working directory do not take part, and "//" at the start of a path is an ordinary root.
- `lower()` is modelled for ASCII letters only, without Unicode case mapping.
- Backlink lines are written in an order the model leaves open, like the source's set iteration. The model states only that the lines enumerate the set once each.
- MarkdownDirectories.FirstOrder: the contract states only that each key appears once and that the keys are the discovered ones. That each key sits at its first occurrence follows from the definition and is not stated as a lemma.
- MarkdownFiles.GetAbsolutePath: for a relative target, the contract states only that the result is canonical. Its value for every relative target is stated by RelativeTarget, and for targets free of "#" and ".." by RelativeTargetPlain.
- Whole-pass idempotence is not proved. A second `add_all_backlinks` can choose a different entry order, and each earlier rewrite changes the links of later files. The model proves idempotence for a single `add_backlinks` with the same entry order (AddBacklinksIdempotent).
- MarkdownDirectories.WrittenBacklinkResolves: holds only for a linking file whose path holds no "#". A backlink from a file whose path holds one (`a#1.md`) is written, but `get_absolute_path` cuts its relpath at the "#" (src.py:119), so it points elsewhere; HashedBacklinkMisses proves this for every such file. The model writes it as the source does.
- The example `/a/b.md#x` passing the ".md" filter is not proved on that literal string. AbsoluteKeepsFragment states the general fact that such a target keeps its fragment.
