/** The workspace listing walker: a breadth-first walk over workspace folders, one
    `databricks workspace ls -l --absolute` call per folder, each output line
    classified as a notebook, a directory or another object. */
module ListingWalker {
  import opened Base
  import opened Text
  import opened PosixPath
  import opened Glob
  import opened WorkspacePaths
  import opened Commands
  import opened Ordering

  datatype Kind = Notebook | Folder | Other

  /** One listing entry: its kind, the listing line it came from, the path shown for
      it, and (for notebooks) the language. */
  datatype Entry = Entry(kind: Kind, raw: string, display: string, language: string)

  // ---------------------------------------------------------------------------
  // The three line patterns

  /** `[A-Z]` */
  predicate IsUpper(c: char) {
    'A' <= c <= 'Z'
  }

  predicate AllUpper(s: string) {
    forall k | 0 <= k < |s| :: IsUpper(s[k])
  }

  /** Text matched by ` +` (without the "at least one" part). */
  predicate Blanks(s: string) {
    forall k | 0 <= k < |s| :: s[k] == ' '
  }

  /** The length of the longest all-uppercase suffix of `s`. */
  function TrailingUpper(s: string): (n: nat)
    ensures n <= |s|
    ensures AllUpper(s[|s| - n..])
    ensures n < |s| ==> !IsUpper(s[|s| - n - 1])
    decreases |s|
  {
    if s != [] && IsUpper(s[|s| - 1]) then
      var t := s[..|s| - 1];
      var m := TrailingUpper(t);
      assert forall k | |s| - m - 1 <= k < |s| - 1 :: s[k] == t[|t| - m..][k - (|s| - m - 1)];
      m + 1
    else 0
  }

  /** The length of the longest all-uppercase prefix of `s`. */
  function LeadingUpper(s: string): (n: nat)
    ensures n <= |s|
    ensures AllUpper(s[..n])
    ensures n < |s| ==> !IsUpper(s[n])
    decreases |s|
  {
    if s != [] && IsUpper(s[0]) then
      var m := LeadingUpper(s[1..]);
      assert forall k | 1 <= k < m + 1 :: s[k] == s[1..][..m][k - 1];
      m + 1
    else 0
  }

  lemma {:induction false} TrailingUpperOf(a: string, u: string)
    requires AllUpper(u)
    requires a == [] || !IsUpper(a[|a| - 1])
    ensures TrailingUpper(a + u) == |u|
    decreases |u|
  {
    if u == [] {
      assert a + u == a;
    } else {
      var s := a + u;
      assert s[..|s| - 1] == a + u[..|u| - 1];
      TrailingUpperOf(a, u[..|u| - 1]);
    }
  }

  lemma {:induction false} LeadingUpperOf(u: string, b: string)
    requires AllUpper(u)
    requires b == [] || !IsUpper(b[0])
    ensures LeadingUpper(u + b) == |u|
    decreases |u|
  {
    if u == [] {
      assert u + b == b;
    } else {
      assert (u + b)[1..] == u[1..] + b;
      LeadingUpperOf(u[1..], b);
    }
  }

  lemma BlanksAreSpace(s: string)
    requires Blanks(s)
    ensures AllSpace(s)
  {
  }

  /** `^NOTEBOOK +(.*) +([A-Z]+)$`, the first group stripped: the name and the
      language. The language is the uppercase word after the last space, the name
      everything between `NOTEBOOK` and that space. */
  function ParseNotebook(line: string): Option<(string, string)> {
    var n := TrailingUpper(line);
    if StartsWith(line, "NOTEBOOK ") && n > 0 && |line| >= 10 + n && line[|line| - n - 1] == ' ' then
      Some((Strip(line[9..|line| - n - 1]), line[|line| - n..]))
    else None
  }

  /** The line `NOTEBOOK <mid> <LANG>` parses as `mid` stripped and `LANG`. */
  lemma ParseNotebookOf(mid: string, lang: string)
    requires lang != [] && AllUpper(lang)
    ensures ParseNotebook("NOTEBOOK " + mid + " " + lang) == Some((Strip(mid), lang))
  {
    var a := "NOTEBOOK " + mid + " ";
    var line := a + lang;
    var n := |lang|;
    assert a[|a| - 1] == ' ';
    TrailingUpperOf(a, lang);
    assert StartsWith(line, "NOTEBOOK ") by {
      assert line[..9] == "NOTEBOOK ";
    }
    assert line[|line| - n - 1] == ' ' by {
      assert line[|line| - n - 1] == a[|a| - 1];
    }
    assert line[9..|line| - n - 1] == mid;
    assert line[|line| - n..] == lang;
    ParseNotebookAccepts(line, n);
  }

  /** A line that starts with `NOTEBOOK ` and ends with a space and an uppercase word
      parses. */
  lemma ParseNotebookAccepts(line: string, n: nat)
    requires StartsWith(line, "NOTEBOOK ") && n > 0 && |line| >= 10 + n
    requires TrailingUpper(line) == n && line[|line| - n - 1] == ' '
    ensures ParseNotebook(line) == Some((Strip(line[9..|line| - n - 1]), line[|line| - n..]))
  {
  }

  /** Whichever way the pattern's two space runs and its first group divide a
      matching line, the parse yields that first group stripped and the trailing
      word. */
  lemma NotebookPatternMatches(gap1: string, name: string, gap2: string, lang: string)
    requires gap1 != [] && Blanks(gap1) && gap2 != [] && Blanks(gap2)
    requires lang != [] && AllUpper(lang)
    ensures ParseNotebook("NOTEBOOK" + gap1 + name + gap2 + lang) == Some((Strip(name), lang))
  {
    var g1 := gap1[1..];
    var g2 := gap2[..|gap2| - 1];
    assert gap1 == " " + g1 && gap2 == g2 + " ";
    var mid := g1 + name + g2;
    assert "NOTEBOOK" + gap1 + name + gap2 + lang == "NOTEBOOK " + mid + " " + lang;
    ParseNotebookOf(mid, lang);
    BlanksAreSpace(g1);
    BlanksAreSpace(g2);
    StripPadded(g1, name, g2);
  }

  /** Every line the parse accepts matches the pattern: `NOTEBOOK` and a space, the
      first group, a space, and a non-empty uppercase word up to the end. */
  lemma NotebookPatternOnly(line: string)
    requires ParseNotebook(line).Some?
    ensures var (name, lang) := ParseNotebook(line).value;
      && |line| >= 10 + |lang| && StartsWith(line, "NOTEBOOK ")
      && line[|line| - |lang| - 1] == ' '
      && lang == line[|line| - |lang|..] && lang != [] && AllUpper(lang)
      && name == Strip(line[9..|line| - |lang| - 1])
  {
  }

  /** `^DIRECTORY +(.*)$`, the group stripped: the folder path. */
  function ParseDirectory(line: string): (r: Option<string>)
    ensures r.Some? <==> StartsWith(line, "DIRECTORY ")
  {
    if StartsWith(line, "DIRECTORY ") then Some(Strip(line[10..])) else None
  }

  /** However the pattern's space run divides a matching line, the parse yields the
      group stripped. */
  lemma DirectoryPatternMatches(gap: string, path: string)
    requires gap != [] && Blanks(gap)
    ensures ParseDirectory("DIRECTORY" + gap + path) == Some(Strip(path))
  {
    var line := "DIRECTORY" + gap + path;
    assert line[..10] == "DIRECTORY" + [gap[0]];
    assert line[10..] == gap[1..] + path + "";
    BlanksAreSpace(gap[1..]);
    StripPadded(gap[1..], path, "");
  }

  /** `^([A-Z]+) +(.*)$`, the second group stripped. */
  function ParseOther(line: string): Option<string> {
    var n := LeadingUpper(line);
    if n > 0 && n < |line| && line[n] == ' ' then Some(Strip(line[n + 1..])) else None
  }

  /** The line `<WORD> <rest>` parses as `rest` stripped. */
  lemma ParseOtherOf(word: string, rest: string)
    requires word != [] && AllUpper(word)
    ensures ParseOther(word + " " + rest) == Some(Strip(rest))
  {
    var line := word + (" " + rest);
    assert word + " " + rest == line;
    LeadingUpperOf(word, " " + rest);
    assert line[|word|] == ' ';
    assert line[|word| + 1..] == rest;
  }

  /** However the pattern's space run divides a matching line, the parse yields the
      second group stripped. */
  lemma OtherPatternMatches(word: string, gap: string, rest: string)
    requires word != [] && AllUpper(word)
    requires gap != [] && Blanks(gap)
    ensures ParseOther(word + gap + rest) == Some(Strip(rest))
  {
    var g := gap[1..];
    assert gap == " " + g;
    assert word + gap + rest == word + " " + (g + rest);
    ParseOtherOf(word, g + rest);
    BlanksAreSpace(g);
    StripPadded(g, rest, "");
    assert g + rest + "" == g + rest;
  }

  /** Every line the parse accepts matches the pattern: a non-empty uppercase word,
      a space, and the second group. */
  lemma OtherPatternOnly(line: string)
    requires ParseOther(line).Some?
    ensures var n := LeadingUpper(line);
      && 0 < n < |line| && AllUpper(line[..n]) && line[n] == ' '
      && ParseOther(line).value == Strip(line[n + 1..])
  {
  }

  // ---------------------------------------------------------------------------
  // One folder listing

  /** What a walk is asked for: how to reach the workspace, and which entries to
      keep. `filter` is the name pattern, if the listed path ended in one. */
  datatype Lister = Lister(
    shell: Shell,
    profile: string,
    recursive: bool,
    allowOther: bool,
    omitDirs: bool,
    filter: Option<string>)

  /** `_wksp_folder_listing(path, extended=True, absolute_paths=True)`: the command. */
  function FolderListingCommand(profile: string, path: string): Command {
    ["databricks", "workspace", "ls", "--profile", profile, "-l", "--absolute", path]
  }

  /** The output lines of listing one folder. The exit status is ignored: a failed
      listing is only logged, and its lines are processed like any others. */
  function ListingLines(ls: Lister, path: string): seq<string> {
    OutputLines(ls.shell(FolderListingCommand(ls.profile, path)))
  }

  /** What an entry the walker keeps satisfies. */
  predicate WellFormed(e: Entry, ls: Lister) {
    && (e.kind == Notebook ==> MatchFilter(e.raw, ls.filter) && ParseNotebook(e.raw) == Some((e.display, e.language)))
    && (e.kind == Folder ==> !ls.omitDirs && EndsWith(e.display, "/") && e.language == ""
                             && ParseNotebook(e.raw).None? && ParseDirectory(e.raw).Some?
                             && e.display == ParseDirectory(e.raw).value + "/")
    && (e.kind == Other ==> ls.allowOther && |e.raw| > 0 && MatchFilter(e.raw, ls.filter) && e.language == ""
                            && ParseNotebook(e.raw).None? && ParseDirectory(e.raw).None?
                            && e.display == OtherDisplay(e.raw))
  }

  /** The entry one listing line contributes, if any: a notebook line that passes the
      filter; a directory line unless directories are omitted (shown with a trailing
      `/`); any other non-empty line that passes the filter when other objects are
      allowed (shown as its second word onwards with ` (L)`, or as the whole line
      when it has no uppercase first word). The filter sees the base name of the
      whole line. */
  function LineEntries(fp: string, ls: Lister): (es: seq<Entry>)
    ensures |es| <= 1
    ensures es != [] ==> es[0].raw == fp && WellFormed(es[0], ls)
    ensures ParseNotebook(fp).Some? ==> (es != [] <==> MatchFilter(fp, ls.filter))
    ensures ParseNotebook(fp).None? && ParseDirectory(fp).Some? ==> (es != [] <==> !ls.omitDirs)
    ensures ParseNotebook(fp).None? && ParseDirectory(fp).None? ==>
      (es != [] <==> ls.allowOther && |fp| > 0 && MatchFilter(fp, ls.filter))
  {
    var nb := ParseNotebook(fp);
    var dir := ParseDirectory(fp);
    if nb.Some? then
      if MatchFilter(fp, ls.filter) then [Entry(Notebook, fp, nb.value.0, nb.value.1)] else []
    else if dir.Some? then
      assert EndsWith(dir.value + "/", "/");
      if !ls.omitDirs then [Entry(Folder, fp, dir.value + "/", "")] else []
    else if ls.allowOther && |fp| > 0 && MatchFilter(fp, ls.filter) then
      [Entry(Other, fp, OtherDisplay(fp), "")]
    else []
  }

  /** How another object is shown: its second word onwards with ` (L)`, or the whole
      line when it does not start with an uppercase word and a space. */
  function OtherDisplay(fp: string): string {
    match ParseOther(fp)
    case Some(rest) => rest + " (L)"
    case None => fp
  }

  /** The folder one listing line adds to the worklist: the path of a directory line
      in recursive mode, whatever the filter and `omitDirs` say. */
  function LineSubfolders(fp: string, recursive: bool): (fs: seq<string>)
    ensures |fs| <= 1
    ensures fs != [] <==> recursive && ParseNotebook(fp).None? && ParseDirectory(fp).Some?
    ensures fs != [] ==> fs[0] == ParseDirectory(fp).value
  {
    if recursive && ParseNotebook(fp).None? then
      match ParseDirectory(fp)
      case Some(path) => [path]
      case None => []
    else []
  }

  /** The entries of a folder's output lines, in line order. */
  function LinesEntries(lines: seq<string>, ls: Lister): seq<Entry>
    decreases |lines|
  {
    if lines == [] then []
    else LineEntries(lines[0], ls) + LinesEntries(lines[1..], ls)
  }

  /** Each entry of a folder comes from one of its lines and is well formed. */
  lemma {:induction false} LinesEntriesWellFormed(lines: seq<string>, ls: Lister)
    ensures forall e | e in LinesEntries(lines, ls) :: e.raw in lines && WellFormed(e, ls)
    decreases |lines|
  {
    if lines != [] {
      LinesEntriesWellFormed(lines[1..], ls);
    }
  }

  /** The subfolders a folder's output lines add to the worklist, in line order. */
  function LinesSubfolders(lines: seq<string>, recursive: bool): (fs: seq<string>)
    ensures !recursive ==> fs == []
    decreases |lines|
  {
    if lines == [] then []
    else LineSubfolders(lines[0], recursive) + LinesSubfolders(lines[1..], recursive)
  }

  // ---------------------------------------------------------------------------
  // The walk

  /** The entries collected from listing `folders`, one folder after the other. */
  function EntriesOf(ls: Lister, folders: seq<string>): seq<Entry>
    decreases |folders|
  {
    if folders == [] then []
    else EntriesOf(ls, folders[..|folders| - 1]) + LinesEntries(ListingLines(ls, folders[|folders| - 1]), ls)
  }

  /** Every entry the walk collects is well formed. */
  lemma {:induction false} EntriesOfWellFormed(ls: Lister, folders: seq<string>)
    ensures forall e | e in EntriesOf(ls, folders) :: WellFormed(e, ls)
    decreases |folders|
  {
    if folders != [] {
      EntriesOfWellFormed(ls, folders[..|folders| - 1]);
      LinesEntriesWellFormed(ListingLines(ls, folders[|folders| - 1]), ls);
    }
  }

  /** The subfolders discovered by listing `folders`, in discovery order. */
  function SubfoldersOf(ls: Lister, folders: seq<string>): (fs: seq<string>)
    ensures !ls.recursive ==> fs == []
    decreases |folders|
  {
    if folders == [] then []
    else SubfoldersOf(ls, folders[..|folders| - 1]) + LinesSubfolders(ListingLines(ls, folders[|folders| - 1]), ls.recursive)
  }

  /** How many subfolders listing the first `k` listed folders discovered. */
  function Discovered(ls: Lister, listed: seq<string>, k: nat): nat
    requires k <= |listed|
  {
    |SubfoldersOf(ls, listed[..k])|
  }

  /** The state of a walk: folders listed so far, the worklist, entries collected. */
  datatype Walk = Walk(listed: seq<string>, pending: seq<string>, entries: seq<Entry>)

  /** The walk's invariant: the folders listed, followed by the worklist, are exactly
      the start folder followed by every subfolder discovered so far, in the order of
      discovery (first in, first out); each listed folder after the start had been
      discovered by listing the folders before it; the entries are those of the
      listed folders. */
  predicate Fifo(ls: Lister, start: string, w: Walk) {
    && QueueIsDiscovery(ls, start, w)
    && ListedWereDiscovered(ls, w.listed)
    && w.entries == EntriesOf(ls, w.listed)
  }

  /** The folders listed, followed by the worklist, are the start folder followed by
      every subfolder discovered, in the order of discovery. */
  predicate QueueIsDiscovery(ls: Lister, start: string, w: Walk) {
    w.listed + w.pending == [start] + SubfoldersOf(ls, w.listed)
  }

  /** Each listed folder after the first was discovered by listing the ones before it. */
  predicate ListedWereDiscovered(ls: Lister, listed: seq<string>) {
    forall k | 0 < k < |listed| :: k <= Discovered(ls, listed, k)
  }

  /** One round of the loop: list the first folder of the worklist, append its
      entries, and append its subfolders to the end of the worklist. */
  function Step(ls: Lister, w: Walk): (r: Walk)
    requires w.pending != []
    ensures r.listed == w.listed + [w.pending[0]]
  {
    var lines := ListingLines(ls, w.pending[0]);
    Walk(w.listed + [w.pending[0]], w.pending[1..] + LinesSubfolders(lines, ls.recursive), w.entries + LinesEntries(lines, ls))
  }

  lemma StepKeepsFifo(ls: Lister, start: string, w: Walk)
    requires w.pending != [] && Fifo(ls, start, w)
    ensures Fifo(ls, start, Step(ls, w))
  {
    StepKeepsQueue(ls, start, w);
    StepKeepsEntries(ls, w);
    StepKeepsDiscovered(ls, start, w);
  }

  /** A step keeps the listed folders and the worklist together equal to the start
      followed by every subfolder discovered. */
  lemma StepKeepsQueue(ls: Lister, start: string, w: Walk)
    requires w.pending != [] && QueueIsDiscovery(ls, start, w)
    ensures QueueIsDiscovery(ls, start, Step(ls, w))
  {
    var path := w.pending[0];
    var found := LinesSubfolders(ListingLines(ls, path), ls.recursive);
    assert Step(ls, w).pending == w.pending[1..] + found;
    SubfoldersOfSnoc(ls, w.listed, path);
    QueueStep(w.listed, w.pending, found, start, SubfoldersOf(ls, w.listed));
  }

  /** A step keeps the entries equal to those of the listed folders. */
  lemma StepKeepsEntries(ls: Lister, w: Walk)
    requires w.pending != [] && w.entries == EntriesOf(ls, w.listed)
    ensures Step(ls, w).entries == EntriesOf(ls, Step(ls, w).listed)
  {
    EntriesOfSnoc(ls, w.listed, w.pending[0]);
  }

  /** A step lists a folder that had been discovered. */
  lemma StepKeepsDiscovered(ls: Lister, start: string, w: Walk)
    requires w.pending != [] && QueueIsDiscovery(ls, start, w) && ListedWereDiscovered(ls, w.listed)
    ensures ListedWereDiscovered(ls, Step(ls, w).listed)
  {
    assert |w.listed| + |w.pending| == 1 + |SubfoldersOf(ls, w.listed)| by {
      assert |w.listed + w.pending| == |[start] + SubfoldersOf(ls, w.listed)|;
    }
    DiscoveredBeforeListed(ls, w.listed, w.pending[0], |w.pending|);
  }

  /** Listing the head of a non-empty worklist lists a folder that had been
      discovered. */
  lemma DiscoveredBeforeListed(ls: Lister, listed: seq<string>, path: string, pending: nat)
    requires pending >= 1 && |listed| + pending == 1 + |SubfoldersOf(ls, listed)|
    requires ListedWereDiscovered(ls, listed)
    ensures ListedWereDiscovered(ls, listed + [path])
  {
    var next := listed + [path];
    forall k | 0 < k < |next| ensures k <= Discovered(ls, next, k) {
      if k < |listed| {
        assert next[..k] == listed[..k];
        assert Discovered(ls, next, k) == Discovered(ls, listed, k);
      } else {
        assert next[..k] == listed;
        assert Discovered(ls, next, k) == |SubfoldersOf(ls, listed)|;
      }
    }
  }

  /** Moving the head of the queue to the listed folders and appending what was
      found keeps the invariant's shape. */
  lemma QueueStep(listed: seq<string>, pending: seq<string>, found: seq<string>, start: string, known: seq<string>)
    requires pending != [] && listed + pending == [start] + known
    ensures (listed + [pending[0]]) + (pending[1..] + found) == [start] + (known + found)
  {
    assert pending == [pending[0]] + pending[1..];
    assert (listed + [pending[0]]) + (pending[1..] + found) == (listed + pending) + found;
  }

  lemma SubfoldersOfSnoc(ls: Lister, folders: seq<string>, path: string)
    ensures SubfoldersOf(ls, folders + [path])
         == SubfoldersOf(ls, folders) + LinesSubfolders(ListingLines(ls, path), ls.recursive)
  {
    assert (folders + [path])[..|folders|] == folders;
  }

  lemma EntriesOfSnoc(ls: Lister, folders: seq<string>, path: string)
    ensures EntriesOf(ls, folders + [path]) == EntriesOf(ls, folders) + LinesEntries(ListingLines(ls, path), ls)
  {
    assert (folders + [path])[..|folders|] == folders;
  }

  /** The `while` loop of `get_workspace_listing`, with at most `fuel` more rounds. */
  function WalkQueue(ls: Lister, start: string, w: Walk, fuel: nat): (r: Walk)
    requires Fifo(ls, start, w)
    ensures Fifo(ls, start, r)
    ensures w.listed <= r.listed
    ensures r.pending == [] || |r.listed| == |w.listed| + fuel
    decreases fuel
  {
    if w.pending == [] || fuel == 0 then w
    else
      StepKeepsFifo(ls, start, w);
      var next := Step(ls, w);
      var r := WalkQueue(ls, start, next, fuel - 1);
      assert w.listed <= next.listed;
      r
  }

  /** The walk from `start`, with at most `fuel` folder listings. */
  function WalkFrom(ls: Lister, start: string, fuel: nat): (r: Walk)
    ensures Fifo(ls, start, r)
    ensures r.pending == [] || |r.listed| == fuel
  {
    WalkQueue(ls, start, Walk([], [start], []), fuel)
  }

  /** Without recursion only the start folder is listed. */
  lemma NonRecursiveListsStartOnly(ls: Lister, start: string, fuel: nat)
    requires !ls.recursive && fuel >= 1
    ensures WalkFrom(ls, start, fuel).listed == [start]
    ensures WalkFrom(ls, start, fuel).pending == []
  {
    var r := WalkFrom(ls, start, fuel);
    assert r.listed + r.pending == [start];
    assert |r.listed| + |r.pending| == 1;
  }

  /** The same filter and the same choice of kinds to keep. */
  predicate SameSelection(ls1: Lister, ls2: Lister) {
    ls1.filter == ls2.filter && ls1.omitDirs == ls2.omitDirs && ls1.allowOther == ls2.allowOther
  }

  /** Which folders the walk queues depends only on the listing output and on
      `recursive`: not on the filter, `omitDirs`, `allowOther` or the exit codes. */
  lemma {:induction false} SubfoldersOfSameOutput(ls1: Lister, ls2: Lister, folders: seq<string>)
    requires ls1.recursive == ls2.recursive
    requires forall p | p in folders :: ListingLines(ls1, p) == ListingLines(ls2, p)
    ensures SubfoldersOf(ls1, folders) == SubfoldersOf(ls2, folders)
    decreases |folders|
  {
    if folders != [] {
      assert folders[|folders| - 1] in folders;
      SubfoldersOfSameOutput(ls1, ls2, folders[..|folders| - 1]);
    }
  }

  /** With the same selection as well, the walk collects the same entries. */
  lemma {:induction false} EntriesOfSameOutput(ls1: Lister, ls2: Lister, folders: seq<string>)
    requires SameSelection(ls1, ls2)
    requires forall p | p in folders :: ListingLines(ls1, p) == ListingLines(ls2, p)
    ensures EntriesOf(ls1, folders) == EntriesOf(ls2, folders)
    decreases |folders|
  {
    if folders != [] {
      var last := folders[|folders| - 1];
      assert last in folders;
      EntriesOfSameOutput(ls1, ls2, folders[..|folders| - 1]);
      LinesEntriesSameSelection(ListingLines(ls1, last), ls1, ls2);
    }
  }

  lemma {:induction false} LinesEntriesSameSelection(lines: seq<string>, ls1: Lister, ls2: Lister)
    requires SameSelection(ls1, ls2)
    ensures LinesEntries(lines, ls1) == LinesEntries(lines, ls2)
    decreases |lines|
  {
    if lines != [] {
      LinesEntriesSameSelection(lines[1..], ls1, ls2);
    }
  }

  // ---------------------------------------------------------------------------
  // The listing

  /** Where the walk starts and which name filter it applies: a path whose text
      has wildcards is split into its directory and its last component. */
  function ListingTarget(effective: string): (t: (string, Option<string>))
    ensures HasMagic(effective) ==> t == (Dirname(effective), Some(Basename(effective)))
    ensures !HasMagic(effective) ==> t == (effective, None)
  {
    if HasMagic(effective) then (Dirname(effective), Some(Basename(effective))) else (effective, None)
  }

  /** A wildcard path `dir/name` is listed from `dir` with `name` as the filter. */
  lemma ListingTargetOfWildcardPath(dir: string, name: string)
    requires '/' !in name && dir != "" && !EndsWith(dir, "/")
    requires HasMagic(dir) || HasMagic(name)
    ensures ListingTarget(Join(dir, name)) == (dir, Some(name))
  {
    var p := Join(dir, name);
    assert name != [] ==> name[0] in name;
    assert p == dir + "/" + name;
    if HasMagic(name) {
      var i :| 0 <= i < |name| && name[i] in MagicChars;
      assert p[|dir| + 1 + i] == name[i];
    } else {
      var i :| 0 <= i < |dir| && dir[i] in MagicChars;
      assert p[i] == dir[i];
    }
    SplitJoin(dir, name);
  }

  /** The prefix removed from entries when relative paths are asked for. */
  function RootPrefix(dir: string): (r: string)
    ensures r != [] && EndsWith(r, "/")
    ensures StartsWith(r, dir)
    ensures |r| <= |dir| + 1
    ensures EndsWith(dir, "/") ==> r == dir
  {
    if EndsWith(dir, "/") then dir else dir + "/"
  }

  /** `(x[0], x[1].replace(root, ""), x[2].replace(root, ""), x[3])` */
  function Relativize(e: Entry, root: string): (r: Entry)
    requires root != []
    ensures r.kind == e.kind && r.language == e.language
  {
    e.(raw := ReplaceAll(e.raw, root, ""), display := ReplaceAll(e.display, root, ""))
  }

  function RelativizeAll(es: seq<Entry>, root: string): (rs: seq<Entry>)
    requires root != []
    ensures |rs| == |es|
    ensures forall i | 0 <= i < |es| :: rs[i] == Relativize(es[i], root)
  {
    seq(|es|, i requires 0 <= i < |es| => Relativize(es[i], root))
  }

  /** A path below the listed folder loses exactly the folder prefix when the rest
      of it does not contain the folder again. */
  lemma RelativizeChild(root: string, rest: string)
    requires root != [] && !Contains(rest, root)
    ensures ReplaceAll(root + rest, root, "") == rest
  {
    assert (root + rest)[..|root|] == root;
    assert (root + rest)[|root|..] == rest;
  }

  /** A folder keeps its trailing `/` through root removal unless its display path
      ends with the root itself. */
  lemma RelativizeKeepsFolderSlash(e: Entry, root: string)
    requires root != [] && EndsWith(e.display, "/") && !EndsWith(e.display, root)
    ensures EndsWith(Relativize(e, root).display, "/")
  {
    var d := e.display;
    ReplaceAllKeepsLast(d, root, "");
    var r := ReplaceAll(d, root, "");
    assert r[|r| - 1..] == [Last(r)];
    assert d[|d| - 1..] == [Last(d)];
  }

  /** `replace` removes every occurrence of the root, not only the leading one: a
      folder whose name repeats the root's last component loses its trailing `/`. */
  lemma RelativizeCanEraseFolderSlash()
    ensures Relativize(Entry(Folder, "", "/a/b/a/", ""), "/a/").display == "b"
  {
    var root := "/a/";
    var s := "/a/b/a/";
    assert s[..3] == root && s[3..] == "b/a/";
    assert "b/a/"[0] != root[0];
    assert "b/a/"[..3] != root && "b/a/"[1..] == root;
    assert root[..3] == root && root[3..] == "";
    assert ReplaceAll(root, root, "") == "";
    assert ReplaceAll("b/a/", root, "") == "b";
  }

  function DisplayOf(e: Entry): string {
    e.display
  }

  /** `get_workspace_listing(filepath, extended, absolute_paths, recursive,
      allow_other, omit_dirs)`, with `root` the configured default root and at most
      `fuel` folder listings (`None` when the walk needed more). The entries come
      back sorted by display path; unless absolute paths are asked for, every
      occurrence of the listed folder (with a trailing `/`) is removed from the raw
      line and the display path of every entry. */
  function WorkspaceListing(shell: Shell, profile: string, root: string, filepath: string, absolutePaths: bool,
                            recursive: bool, allowOther: bool, omitDirs: bool, fuel: nat): (r: Option<seq<Entry>>)
    ensures var (dir, filter) := ListingTarget(MkWorkspacePath(root, filepath, []));
      var ls := Lister(shell, profile, recursive, allowOther, omitDirs, filter);
      var w := WalkFrom(ls, dir, fuel);
      && (r.Some? <==> w.pending == [])
      && (r.Some? && absolutePaths ==> multiset(r.value) == multiset(w.entries))
      && (r.Some? && !absolutePaths ==> multiset(r.value) == multiset(RelativizeAll(w.entries, RootPrefix(dir))))
      && (r.Some? && absolutePaths ==> forall e | e in r.value :: WellFormed(e, ls))
    ensures r.Some? ==> SortedBy(r.value, DisplayOf)
    ensures r.Some? ==> KindsAllowed(r.value, omitDirs, allowOther)
  {
    var (dir, filter) := ListingTarget(MkWorkspacePath(root, filepath, []));
    var ls := Lister(shell, profile, recursive, allowOther, omitDirs, filter);
    var w := WalkFrom(ls, dir, fuel);
    if w.pending != [] then None
    else
      var files := if absolutePaths then w.entries else RelativizeAll(w.entries, RootPrefix(dir));
      EntriesOfWellFormed(ls, w.listed);
      KindsOfWellFormed(w.entries, ls);
      RelativizeKeepsKinds(w.entries, RootPrefix(dir));
      var sorted := SortBy(files, DisplayOf);
      PermutationKeepsKinds(files, sorted);
      PermutationKeepsWellFormed(files, sorted, ls);
      Some(sorted)
  }

  /** No folder when directories are omitted, no other object unless allowed. */
  predicate KindsAllowed(es: seq<Entry>, omitDirs: bool, allowOther: bool) {
    forall e | e in es :: (omitDirs ==> e.kind != Folder) && (!allowOther ==> e.kind != Other)
  }

  lemma KindsOfWellFormed(es: seq<Entry>, ls: Lister)
    requires forall e | e in es :: WellFormed(e, ls)
    ensures KindsAllowed(es, ls.omitDirs, ls.allowOther)
  {
  }

  lemma RelativizeKeepsKinds(es: seq<Entry>, root: string)
    requires root != []
    ensures forall o, a | KindsAllowed(es, o, a) :: KindsAllowed(RelativizeAll(es, root), o, a)
  {
    var rs := RelativizeAll(es, root);
    forall o, a | KindsAllowed(es, o, a) ensures KindsAllowed(rs, o, a) {
      forall e | e in rs ensures (o ==> e.kind != Folder) && (!a ==> e.kind != Other) {
        var i :| 0 <= i < |rs| && rs[i] == e;
        assert es[i] in es;
      }
    }
  }

  lemma PermutationKeepsKinds(a: seq<Entry>, b: seq<Entry>)
    requires multiset(a) == multiset(b)
    ensures forall o, al | KindsAllowed(a, o, al) :: KindsAllowed(b, o, al)
  {
    forall e | e in b ensures e in a {
      assert e in multiset(b);
    }
  }

  lemma PermutationKeepsWellFormed(a: seq<Entry>, b: seq<Entry>, ls: Lister)
    requires multiset(a) == multiset(b)
    ensures (forall e | e in a :: WellFormed(e, ls)) ==> forall e | e in b :: WellFormed(e, ls)
  {
    forall e | e in b ensures e in a {
      assert e in multiset(b);
    }
  }
}
