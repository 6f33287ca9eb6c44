/** The change detector: which local files `git status` reports as modified or
    untracked, filtered the way the import and export commands need them. */
module ChangeDetector {
  import opened Base
  import opened Text
  import opened Seqs
  import opened Failures
  import opened Commands

  /** One line of `git status -s`: the two-letter status code and the path. */
  datatype Change = Change(status: string, path: string)

  /** The short, untracked-aware status query for `filepath`. */
  function GitStatusCommand(filepath: string): Command {
    ["git", "status", "-s", "-u", "normal", filepath]
  }

  /** `(x[:2], x[2:].strip())` */
  function ParseStatusLine(x: string): (c: Change)
    ensures |c.status| == if |x| < 2 then |x| else 2
    ensures c.status + Drop(x, 2) == x
    ensures c.path == Strip(Drop(x, 2))
  {
    Change(Take(x, 2), Strip(Drop(x, 2)))
  }

  /** A status line written the way `git status -s` writes it, a two-letter code,
      a space and the path, is read back as that code and that path. */
  lemma StatusLineRoundTrip(status: string, path: string)
    requires |status| == 2
    requires path == [] || (!IsSpace(path[0]) && !IsSpace(path[|path| - 1]))
    ensures ParseStatusLine(status + " " + path) == Change(status, path)
  {
    var x := status + " " + path;
    assert Drop(x, 2) == " " + path + "";
    StripPadded(" ", path, "");
    StripOfTrimmed(path);
  }

  /** Every line of the status output, parsed. */
  function ParsedStatus(out: seq<string>): (cs: seq<Change>)
    ensures |cs| == |out|
    ensures forall i | 0 <= i < |out| :: cs[i] == ParseStatusLine(out[i])
  {
    seq(|out|, i requires 0 <= i < |out| => ParseStatusLine(out[i]))
  }

  /** A change that concerns the current directory or a directory below it. */
  predicate InTree(c: Change) {
    |c.path| > 0 && !StartsWith(c.path, "..")
  }

  /** A change that is a modification rather than an untracked file. */
  predicate Tracked(c: Change) {
    c.status != "??"
  }

  /** A change directly in the current directory. */
  predicate TopLevel(c: Change) {
    '/' !in c.path
  }

  /** Everything the detector asks of a change it reports. */
  predicate Reported(c: Change, recursive: bool, modifiedOnly: bool) {
    InTree(c) && (!modifiedOnly || Tracked(c)) && (recursive || TopLevel(c))
  }

  /** `get_modified_or_untracked_changes(filepath, recursive, modified_only)`, given
      the result of the status query: fails when `git status` fails, and otherwise
      reports the changes `Reported` keeps from the parsed output lines. */
  function ModifiedOrUntracked(status: CmdResult, recursive: bool, modifiedOnly: bool): (r: Result<seq<Change>, SyncError>)
    ensures r.Err? <==> status.returnCode != 0
    ensures r.Err? ==> r.error == GitStatusFailed
    ensures r.Ok? ==> forall c | c in r.value :: Reported(c, recursive, modifiedOnly)
    ensures r.Ok? ==> IsSubsequence(r.value, ParsedStatus(OutputLines(status)))
    ensures r.Ok? ==> forall c | c in ParsedStatus(OutputLines(status)) && Reported(c, recursive, modifiedOnly) :: c in r.value
    ensures r.Ok? ==> forall c :: multiset(r.value)[c] == if Reported(c, recursive, modifiedOnly) then multiset(ParsedStatus(OutputLines(status)))[c] else 0
  {
    if status.returnCode != 0 then Err(GitStatusFailed)
    else Ok(KeptChanges(ParsedStatus(OutputLines(status)), recursive, modifiedOnly))
  }

  /** The filters of the detector, in the order it applies them: keep paths that are
      non-empty and do not start with `..`; with `modifiedOnly` drop untracked files;
      unless `recursive` drop paths in subdirectories. */
  function KeptChanges(parsed: seq<Change>, recursive: bool, modifiedOnly: bool): (kept: seq<Change>)
    ensures forall c | c in kept :: Reported(c, recursive, modifiedOnly)
    ensures IsSubsequence(kept, parsed)
    ensures forall c | c in parsed && Reported(c, recursive, modifiedOnly) :: c in kept
    ensures forall c :: multiset(kept)[c] == if Reported(c, recursive, modifiedOnly) then multiset(parsed)[c] else 0
  {
    var inTree := Filter(parsed, InTree);
    var modified := if modifiedOnly then Filter(inTree, Tracked) else inTree;
    var kept := if recursive then modified else Filter(modified, TopLevel);
    SubsequenceRefl(inTree);
    SubsequenceRefl(modified);
    SubsequenceTrans(modified, inTree, parsed);
    SubsequenceTrans(kept, modified, parsed);
    forall c | c in kept ensures Reported(c, recursive, modifiedOnly) {
      assert c in modified && c in inTree;
    }
    forall c | c in parsed && Reported(c, recursive, modifiedOnly) ensures c in kept {
      assert c in inTree;
      assert c in modified;
    }
    forall c ensures multiset(kept)[c] == if Reported(c, recursive, modifiedOnly) then multiset(parsed)[c] else 0 {
      assert multiset(inTree)[c] == if InTree(c) then multiset(parsed)[c] else 0;
      assert multiset(modified)[c] == if !modifiedOnly || Tracked(c) then multiset(inTree)[c] else 0;
    }
    kept
  }

  /** The paths of the changes, for the error report. */
  function ChangedPaths(changes: seq<Change>): (ps: seq<string>)
    ensures |ps| == |changes|
    ensures forall i | 0 <= i < |changes| :: ps[i] == changes[i].path
  {
    seq(|changes|, i requires 0 <= i < |changes| => changes[i].path)
  }

  /** A clean tree: a successful status query with no output reports no change. */
  lemma CleanTreeHasNoChanges(recursive: bool, modifiedOnly: bool)
    ensures ModifiedOrUntracked(CmdResult(0, ""), recursive, modifiedOnly) == Ok([])
  {
    var parsed := ParsedStatus(OutputLines(CmdResult(0, "")));
    assert OutputLines(CmdResult(0, "")) == [""];
    assert parsed == [Change("", "")];
    assert !InTree(parsed[0]);
    assert Filter(parsed, InTree) == Filter(parsed[1..], InTree) == [];
    assert Filter([], Tracked) == [] && Filter([], TopLevel) == [];
  }
}
