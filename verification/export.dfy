/** `export_from_workspace`: the commands that copy notebooks from the workspace into
    the local git tree, commit them and optionally push them. The whole plan is built,
    and every check made, before the first command runs. */
module Exporter {
  import opened Base
  import opened Text
  import opened Seqs
  import opened Failures
  import opened PosixPath
  import opened Glob
  import opened WorkspacePaths
  import opened Commands
  import opened ChangeDetector
  import opened ListingWalker

  /** The options export reads. */
  datatype ExportArgs = ExportArgs(
    wkspPath: string,
    tgtPath: string,
    recursive: bool,
    format: string,
    overwrite: bool,
    noCommit: bool,
    pushTo: Option<string>)

  /** What export consults outside its options: the process runner, the profile and
      default workspace root in use, and the local files that already exist. */
  datatype ExportEnv = ExportEnv(shell: Shell, profile: string, root: string, existing: set<string>)

  // ---------------------------------------------------------------------------
  // The commands

  const Mkdir: Command := ["mkdir", "-p"]

  function MkdirCommand(folder: string): Command {
    Mkdir + [folder]
  }

  function GitAddCommand(file: string): Command {
    ["git", "add", file]
  }

  /** The commit, with the message as the source spells it, quotes included. */
  const CommitCommand: Command := ["git", "commit", "-m", "'commited changes exported from workspace'"]

  function PushCommand(remote: string, branch: string): Command {
    ["git", "push", remote, branch]
  }

  /** `databricks workspace export`, with `--overwrite` when asked for. */
  function ExportCommand(profile: string, overwrite: bool, format: string, source: string, target: string): (c: Command)
    ensures IsExportCommand(c) && Output(c) == target
    ensures |c| == |Export| + (if overwrite then 7 else 6)
    ensures c[|Export|..|Export| + 2] == ["--profile", profile]
    ensures overwrite <==> c[|Export| + 2] == "--overwrite"
    ensures c[|c| - 4..] == ["--format", format, source, target]
  {
    Export + ["--profile", profile]
    + (if overwrite then ["--overwrite"] else [])
    + ["--format", format, source, target]
  }

  const Export: Command := ["databricks", "workspace", "export"]

  predicate IsExportCommand(c: Command) {
    Export <= c
  }

  // ---------------------------------------------------------------------------
  // Validating `--push-to`

  /** `--push-to remote/branch`: not allowed with `--no-commit`; otherwise split on
      `/` into exactly two parts, each stripped and non-empty. */
  function ParsePushTarget(pushTo: Option<string>, noCommit: bool): (r: Result<Option<(string, string)>, SyncError>)
    ensures pushTo.None? ==> r == Ok(None)
    ensures pushTo.Some? && noCommit ==> r == Err(PushToWithNoCommit)
    ensures pushTo.Some? && !noCommit && r.Err? ==> r.error == MalformedPushTarget(pushTo.value)
    ensures pushTo.Some? && !noCommit ==>
      (r.Ok? <==> exists a, b | pushTo.value == a + "/" + b && '/' !in a && '/' !in b :: Strip(a) != "" && Strip(b) != "")
    ensures pushTo.Some? && r.Ok? ==> r.value.Some? && !noCommit
    ensures pushTo.Some? && r.Ok? ==>
      var (remote, branch) := r.value.value;
      && remote != "" && branch != ""
      && exists a, b | pushTo.value == a + "/" + b && '/' !in a && '/' !in b :: Strip(a) == remote && Strip(b) == branch
  {
    match pushTo
    case None => Ok(None)
    case Some(p) =>
      if noCommit then Err(PushToWithNoCommit)
      else
        var parts := SplitOn(p, '/');
        if |parts| == 2 && Strip(parts[0]) != "" && Strip(parts[1]) != "" then
          assert p == parts[0] + "/" + parts[1] by {
            assert JoinWith(parts[1..], '/') == parts[1];
          }
          assert '/' !in parts[0] && '/' !in parts[1] by {
            assert parts[0] in parts && parts[1] in parts;
          }
          Ok(Some((Strip(parts[0]), Strip(parts[1]))))
        else
          assert forall a, b | p == a + "/" + b && '/' !in a && '/' !in b :: Strip(a) == "" || Strip(b) == "" by {
            forall a, b | p == a + "/" + b && '/' !in a && '/' !in b ensures Strip(a) == "" || Strip(b) == "" {
              SlashPairSplits(a, b);
            }
          }
          Err(MalformedPushTarget(p))
  }

  /** Two slash-free names joined by one `/` split back into those two names. */
  lemma SlashPairSplits(a: string, b: string)
    requires '/' !in a && '/' !in b
    ensures SplitOn(a + "/" + b, '/') == [a, b]
  {
    var parts := [a, b];
    assert JoinWith(parts, '/') == a + "/" + b by {
      assert JoinWith(parts[1..], '/') == b;
    }
    SplitJoinRoundTrip(parts, '/');
  }

  /** A target written as `remote/branch`, both names free of `/` and of surrounding
      whitespace, is read back as that remote and that branch. */
  lemma PushTargetRoundTrip(remote: string, branch: string)
    requires remote != "" && branch != "" && '/' !in remote && '/' !in branch
    requires !IsSpace(remote[0]) && !IsSpace(remote[|remote| - 1])
    requires !IsSpace(branch[0]) && !IsSpace(branch[|branch| - 1])
    ensures ParsePushTarget(Some(remote + "/" + branch), false) == Ok(Some((remote, branch)))
  {
    SlashPairSplits(remote, branch);
    StripOfTrimmed(remote);
    StripOfTrimmed(branch);
  }

  /** A remote without a branch is refused: `origin` has no `/` to split on. */
  lemma PushTargetNeedsBranch(remote: string)
    requires '/' !in remote
    ensures ParsePushTarget(Some(remote), false) == Err(MalformedPushTarget(remote))
  {
    forall a: string, b: string ensures '/' in a + "/" + b {
      assert (a + "/" + b)[|a|] == '/';
    }
  }

  // ---------------------------------------------------------------------------
  // What to export

  /** Export walks subfolders when asked to or when either path contains `**`. */
  function ExportRecursive(a: ExportArgs): bool {
    a.recursive || Contains(a.tgtPath, "**") || Contains(a.wkspPath, "**")
  }

  /** The workspace folder export lists: a last component with wildcards is split
      off, and it is not used as a filter afterwards. */
  function ExportSource(root: string, wkspPath: string): string {
    var (basePath, baseName) := Split(wkspPath);
    if HasMagic(baseName) then MkWorkspacePath(root, basePath, []) else MkWorkspacePath(root, wkspPath, [])
  }

  /** Exporting `dir/<pattern>` lists the same folder as exporting `dir`: the
      pattern selects nothing. */
  lemma ExportDropsPattern(root: string, dir: string, pattern: string)
    requires '/' !in pattern && HasMagic(pattern)
    requires dir != "" && !EndsWith(dir, "/") && !HasMagic(Basename(dir))
    ensures ExportSource(root, Join(dir, pattern)) == ExportSource(root, dir)
  {
    assert !IsAbsolute(pattern) by {
      assert pattern != [] && pattern[0] in pattern;
    }
    SplitJoin(dir, pattern);
  }

  /** The listing export asks for: paths relative to the listed folder, no folders,
      no other objects. */
  function ExportListing(env: ExportEnv, a: ExportArgs, fuel: nat): Option<seq<Entry>> {
    WorkspaceListing(env.shell, env.profile, env.root, ExportSource(env.root, a.wkspPath),
                     false, ExportRecursive(a), false, true, fuel)
  }

  /** The local file one entry is exported to, refused when it exists and
      `--overwrite` is off. */
  function ExportTarget(e: Entry, format: string, overwrite: bool, existing: set<string>): Result<string, SyncError> {
    var file :- MkLocalFileFromNotebook(e.display, e.language, format);
    if file in existing && !overwrite then Err(TargetExists(file)) else Ok(file)
  }

  /** An entry's target is its local file, unless the file has no name (an unknown
      language) or already exists while overwriting is off. The target has no
      parentheses. */
  lemma ExportTargetCases(e: Entry, format: string, overwrite: bool, existing: set<string>)
    ensures var (file, r) := (MkLocalFileFromNotebook(e.display, e.language, format), ExportTarget(e, format, overwrite, existing));
      && (r.Ok? <==> file.Ok? && (overwrite || file.value !in existing))
      && (r.Ok? ==> r.value == file.value && '(' !in r.value && ')' !in r.value)
      && (r.Err? && file.Ok? ==> r.error == TargetExists(file.value))
      && (r.Err? && file.Err? ==> r.error == file.error)
  {
  }

  /** The target of every entry, in listing order. */
  function TargetResults(es: seq<Entry>, format: string, overwrite: bool, existing: set<string>): (rs: seq<Result<string, SyncError>>)
    ensures |rs| == |es|
    ensures forall i | 0 <= i < |es| :: rs[i] == ExportTarget(es[i], format, overwrite, existing)
  {
    seq(|es|, i requires 0 <= i < |es| => ExportTarget(es[i], format, overwrite, existing))
  }

  /** The targets of all entries, in listing order, or the failure of the first
      entry that has none. */
  function ExportTargets(es: seq<Entry>, format: string, overwrite: bool, existing: set<string>): (r: Result<seq<string>, SyncError>)
    ensures r.Ok? <==> forall i | 0 <= i < |es| :: ExportTarget(es[i], format, overwrite, existing).Ok?
    ensures r.Ok? ==> |r.value| == |es|
    ensures r.Ok? ==> forall i | 0 <= i < |es| :: r.value[i] == ExportTarget(es[i], format, overwrite, existing).value
    ensures r.Err? ==> exists i | 0 <= i < |es| :: FirstFailure(es, format, overwrite, existing, i, r.error)
  {
    var rs := TargetResults(es, format, overwrite, existing);
    var r := Collect(rs);
    if r.Err? then
      var i :| 0 <= i < |rs| && FirstErr(rs, i) && rs[i].error == r.error;
      assert FirstFailure(es, format, overwrite, existing, i, r.error);
      r
    else r
  }

  /** Entry `i` is the first without a target, and fails with `error`. */
  predicate FirstFailure(es: seq<Entry>, format: string, overwrite: bool, existing: set<string>, i: nat, error: SyncError)
    requires i < |es|
  {
    && ExportTarget(es[i], format, overwrite, existing) == Err(error)
    && forall j | 0 <= j < i :: ExportTarget(es[j], format, overwrite, existing).Ok?
  }

  predicate NonEmpty(s: string) {
    s != ""
  }

  /** The distinct non-empty parents of some paths, in order of first appearance. */
  function ParentFolders(paths: seq<string>): (fs: seq<string>)
    ensures Distinct(fs)
    ensures forall p | p in paths && Dirname(p) != "" :: Dirname(p) in fs
    ensures forall f | f in fs :: f != "" && f in Parents(paths)
  {
    var parents := Parents(paths);
    var kept := Filter(parents, NonEmpty);
    forall p | p in paths && Dirname(p) != "" ensures Dirname(p) in kept {
      var i :| 0 <= i < |paths| && paths[i] == p;
      assert parents[i] in parents;
    }
    Dedup(kept)
  }

  /** The workspace display paths of the entries. */
  function DisplayPaths(es: seq<Entry>): (ps: seq<string>)
    ensures |ps| == |es|
    ensures forall i | 0 <= i < |es| :: ps[i] == es[i].display
  {
    seq(|es|, i requires 0 <= i < |es| => es[i].display)
  }

  /** A notebook in a folder whose name has parentheses is written to a file whose
      folder has underscores in their place. */
  lemma ParenthesisedFolderTarget()
    ensures ExportTarget(Entry(Notebook, "NOTEBOOK f(1)/nb PYTHON", "f(1)/nb", "PYTHON"), "SOURCE", false, {})
         == Ok("f_1_/nb.py")
  {
    var file := MkLocalFileFromNotebook("f(1)/nb", "PYTHON", "SOURCE");
    assert FormatExtension("PYTHON", "SOURCE") == Ok(".py");
    var full := "f(1)/nb" + ".py";
    var v := file.value;
    assert |v| == |full| == 10;
    assert v[0] == 'f' && v[1] == '_' && v[2] == '1' && v[3] == '_' && v[4] == '/';
    assert v[5] == 'n' && v[6] == 'b' && v[7] == '.' && v[8] == 'p' && v[9] == 'y';
    assert v == "f_1_/nb.py";
  }

  /** The folders `export_from_workspace` makes as written are the parents of the
      workspace display paths, not of the files it writes. When the folder of a
      notebook has a parenthesis in its name, the file goes to a folder (with
      underscores in its name) that none of those commands makes. */
  lemma DisplayFoldersMissTarget(e: Entry, format: string, overwrite: bool, existing: set<string>)
    requires ExportTarget(e, format, overwrite, existing).Ok?
    requires '(' in Dirname(e.display) || ')' in Dirname(e.display)
    ensures var target := ExportTarget(e, format, overwrite, existing).value;
      && Dirname(target) != ""
      && Dirname(target) !in ParentFolders(DisplayPaths([e]))
  {
    var target := ExportTarget(e, format, overwrite, existing).value;
    var folder := Dirname(e.display);
    var full := e.display + FormatExtension(e.language, format).value;
    assert '/' in target by {
      assert '/' in e.display;
      var j :| 0 <= j < |e.display| && e.display[j] == '/';
      assert full[j] == '/';
      assert target[j] == '/';
    }
    assert '(' !in Dirname(target) && ')' !in Dirname(target) by {
      assert StartsWith(target, Dirname(target));
      forall k | 0 <= k < |Dirname(target)| ensures Dirname(target)[k] == target[k] {
      }
    }
    assert DisplayPaths([e]) == [e.display];
    assert Parents([e.display]) == [folder];
  }

  // ---------------------------------------------------------------------------
  // The plan

  /** One `mkdir -p` per folder, in order. */
  function MkdirCommands(folders: seq<string>): seq<Command> {
    MakeFolders(Mkdir, folders)
  }

  /** The workspace path of an entry under the exported folder `source`. */
  function EntrySource(root: string, source: string, e: Entry): string {
    MkWorkspacePath(root, source, [e.display])
  }

  /** No `mkdir -p` command is the commit. */
  lemma MkdirCommandsNoCommit(folders: seq<string>)
    ensures CommitCommand !in MkdirCommands(folders)
  {
    var mk := MkdirCommands(folders);
    forall c | c in mk ensures c != CommitCommand {
      var j :| 0 <= j < |mk| && mk[j] == c;
      assert c[0] == "mkdir";
    }
  }

  /** The workspace paths of the entries under the exported folder `source`. */
  function EntrySources(root: string, source: string, es: seq<Entry>): (ss: seq<string>)
    ensures |ss| == |es|
    ensures forall i | 0 <= i < |es| :: ss[i] == EntrySource(root, source, es[i])
  {
    seq(|es|, i requires 0 <= i < |es| => EntrySource(root, source, es[i]))
  }

  /** For each file in turn, export it from its workspace path to its target, then
      `git add` the target. */
  function FileCommands(profile: string, overwrite: bool, format: string, sources: seq<string>, targets: seq<string>): seq<Command>
    requires |sources| == |targets|
    decreases |sources|
  {
    if sources == [] then []
    else
      [ExportCommand(profile, overwrite, format, sources[0], targets[0]), GitAddCommand(targets[0])]
      + FileCommands(profile, overwrite, format, sources[1..], targets[1..])
  }

  /** Export command `2i` and `git add` command `2i + 1` are those of file `i`. */
  lemma FileCommandsShape(profile: string, overwrite: bool, format: string, sources: seq<string>, targets: seq<string>)
    requires |sources| == |targets|
    ensures var cs := FileCommands(profile, overwrite, format, sources, targets);
      && |cs| == 2 * |sources|
      && forall i | 0 <= i < |sources| ::
           && cs[2 * i] == ExportCommand(profile, overwrite, format, sources[i], targets[i])
           && cs[2 * i + 1] == GitAddCommand(targets[i])
  {
    FileCommandsLength(profile, overwrite, format, sources, targets);
    forall i | 0 <= i < |sources| {
      FileCommandsAt(profile, overwrite, format, sources, targets, i);
    }
  }

  lemma {:induction false} FileCommandsLength(profile: string, overwrite: bool, format: string, sources: seq<string>, targets: seq<string>)
    requires |sources| == |targets|
    ensures |FileCommands(profile, overwrite, format, sources, targets)| == 2 * |sources|
    decreases |sources|
  {
    if sources != [] {
      FileCommandsLength(profile, overwrite, format, sources[1..], targets[1..]);
    }
  }

  lemma {:induction false} FileCommandsAt(profile: string, overwrite: bool, format: string, sources: seq<string>, targets: seq<string>, i: nat)
    requires |sources| == |targets| && i < |sources|
    ensures var cs := FileCommands(profile, overwrite, format, sources, targets);
      && 2 * i + 1 < |cs|
      && cs[2 * i] == ExportCommand(profile, overwrite, format, sources[i], targets[i])
      && cs[2 * i + 1] == GitAddCommand(targets[i])
    decreases i
  {
    FileCommandsLength(profile, overwrite, format, sources, targets);
    var cs := FileCommands(profile, overwrite, format, sources, targets);
    var rest := FileCommands(profile, overwrite, format, sources[1..], targets[1..]);
    var x := ExportCommand(profile, overwrite, format, sources[0], targets[0]);
    var y := GitAddCommand(targets[0]);
    assert cs == [x, y] + rest;
    if i > 0 {
      FileCommandsAt(profile, overwrite, format, sources[1..], targets[1..], i - 1);
      assert sources[1..][i - 1] == sources[i] && targets[1..][i - 1] == targets[i];
      var j := 2 * (i - 1);
      assert cs[2 * i] == rest[j] && cs[2 * i + 1] == rest[j + 1];
    }
  }

  /** Every file is exported from its workspace path to its target, and its target
      added. */
  lemma FileCommandsCover(profile: string, overwrite: bool, format: string, sources: seq<string>, targets: seq<string>, i: int)
    requires |sources| == |targets| && 0 <= i < |sources|
    ensures ExportCommand(profile, overwrite, format, sources[i], targets[i]) in FileCommands(profile, overwrite, format, sources, targets)
    ensures GitAddCommand(targets[i]) in FileCommands(profile, overwrite, format, sources, targets)
  {
    FileCommandsAt(profile, overwrite, format, sources, targets, i);
  }

  /** Nothing but exports into the targets and `git` commands. */
  lemma {:induction false} FileCommandsOnly(profile: string, overwrite: bool, format: string, sources: seq<string>, targets: seq<string>, c: Command)
    requires |sources| == |targets|
    requires c in FileCommands(profile, overwrite, format, sources, targets)
    ensures c != [] && (c[0] == "git" || (IsExportCommand(c) && Output(c) in targets))
    decreases |sources|
  {
    var rest := FileCommands(profile, overwrite, format, sources[1..], targets[1..]);
    if c in rest {
      FileCommandsOnly(profile, overwrite, format, sources[1..], targets[1..], c);
      assert forall t | t in targets[1..] :: t in targets;
    }
  }

  /** No commit among them. */
  lemma {:induction false} FileCommandsNoCommit(profile: string, overwrite: bool, format: string, sources: seq<string>, targets: seq<string>)
    requires |sources| == |targets|
    ensures CommitCommand !in FileCommands(profile, overwrite, format, sources, targets)
    decreases |sources|
  {
    if sources != [] {
      FileCommandsNoCommit(profile, overwrite, format, sources[1..], targets[1..]);
      assert GitAddCommand(targets[0])[1] != CommitCommand[1];
    }
  }

  /** The commit unless `--no-commit`, then the push when a target was given. */
  function FinishCommands(noCommit: bool, push: Option<(string, string)>): (cs: seq<Command>)
    ensures CommitCommand in cs <==> !noCommit
    ensures push.Some? ==> cs != [] && cs[|cs| - 1] == PushCommand(push.value.0, push.value.1)
    ensures |cs| == (if noCommit then 0 else 1) + (if push.Some? then 1 else 0)
    ensures forall c | c in cs :: c != [] && c[0] == "git"
  {
    (if noCommit then [] else [CommitCommand])
    + (match push case None => [] case Some((remote, branch)) => [PushCommand(remote, branch)])
  }

  /** The plan for entries with the given targets: make some folders, then export
      and add each file, then commit and push. */
  function PlanCommands(env: ExportEnv, a: ExportArgs, push: Option<(string, string)>, es: seq<Entry>,
                        targets: seq<string>, folders: seq<string>): seq<Command>
    requires |targets| == |es|
  {
    MkdirCommands(folders)
    + (FileCommands(env.profile, a.overwrite, a.format, EntrySources(env.root, ExportSource(env.root, a.wkspPath), es), targets)
       + FinishCommands(a.noCommit, push))
  }

  /** The plan for a listing as `export_from_workspace` builds it, once the checks
      have passed: every entry needs a target, and the first entry without one is
      the failure. The folders it makes are the parents of the workspace display
      paths, not of the targets. */
  function ListingPlan(env: ExportEnv, a: ExportArgs, push: Option<(string, string)>, es: seq<Entry>): (r: Result<seq<Command>, SyncError>)
    ensures r.Ok? <==> forall i | 0 <= i < |es| :: ExportTarget(es[i], a.format, a.overwrite, env.existing).Ok?
    ensures r.Err? ==> exists i | 0 <= i < |es| :: FirstFailure(es, a.format, a.overwrite, env.existing, i, r.error)
    ensures r.Ok? ==> MkdirCommands(ParentFolders(DisplayPaths(es))) <= r.value
  {
    var targets :- ExportTargets(es, a.format, a.overwrite, env.existing);
    Ok(PlanCommands(env, a, push, es, targets, ParentFolders(DisplayPaths(es))))
  }

  /** The plan as evidently intended: the folders made are the parents of the files
      written. */
  function CorrectedListingPlan(env: ExportEnv, a: ExportArgs, push: Option<(string, string)>, es: seq<Entry>): (r: Result<seq<Command>, SyncError>)
    ensures r.Ok? <==> ListingPlan(env, a, push, es).Ok?
    ensures r.Err? ==> r == ListingPlan(env, a, push, es)
    ensures r.Ok? ==> MkdirCommands(ParentFolders(ExportTargets(es, a.format, a.overwrite, env.existing).value)) <= r.value
  {
    var targets :- ExportTargets(es, a.format, a.overwrite, env.existing);
    Ok(PlanCommands(env, a, push, es, targets, ParentFolders(targets)))
  }

  /** Each entry is exported from its workspace path to its target, and its target
      added to git. */
  lemma PlanExports(env: ExportEnv, a: ExportArgs, push: Option<(string, string)>, es: seq<Entry>,
                    targets: seq<string>, folders: seq<string>, i: int)
    requires |targets| == |es| && 0 <= i < |es|
    ensures var plan := PlanCommands(env, a, push, es, targets, folders);
      && ExportCommand(env.profile, a.overwrite, a.format, EntrySource(env.root, ExportSource(env.root, a.wkspPath), es[i]), targets[i]) in plan
      && GitAddCommand(targets[i]) in plan
  {
    var sources := EntrySources(env.root, ExportSource(env.root, a.wkspPath), es);
    var files := FileCommands(env.profile, a.overwrite, a.format, sources, targets);
    FileCommandsCover(env.profile, a.overwrite, a.format, sources, targets, i);
    var mk := MkdirCommands(folders);
    var finish := FinishCommands(a.noCommit, push);
    assert forall c | c in files :: c in mk + (files + finish);
  }

  /** Each entry of a listing plan is exported from its workspace path to its
      target, which exists only when overwriting is allowed, and its target is
      added to git. */
  lemma ListingPlanExports(env: ExportEnv, a: ExportArgs, push: Option<(string, string)>, es: seq<Entry>, i: int)
    requires ListingPlan(env, a, push, es).Ok? && 0 <= i < |es|
    ensures var target := ExportTarget(es[i], a.format, a.overwrite, env.existing).value;
      && (a.overwrite || target !in env.existing)
      && ExportCommand(env.profile, a.overwrite, a.format, EntrySource(env.root, ExportSource(env.root, a.wkspPath), es[i]), target)
         in ListingPlan(env, a, push, es).value
      && GitAddCommand(target) in ListingPlan(env, a, push, es).value
  {
    var targets := ExportTargets(es, a.format, a.overwrite, env.existing).value;
    PlanExports(env, a, push, es, targets, ParentFolders(DisplayPaths(es)), i);
    ExportTargetCases(es[i], a.format, a.overwrite, env.existing);
  }

  /** A plan is its folder commands, then for each entry in order its export
      immediately followed by its `git add`, then the commit and push; nothing else. */
  lemma PlanShape(env: ExportEnv, a: ExportArgs, push: Option<(string, string)>, es: seq<Entry>,
                  targets: seq<string>, folders: seq<string>)
    requires |targets| == |es|
    ensures var plan := PlanCommands(env, a, push, es, targets, folders);
      var mk := MkdirCommands(folders);
      var finish := FinishCommands(a.noCommit, push);
      && plan[..|mk|] == mk
      && |plan| == |mk| + 2 * |es| + |finish|
      && (forall i | 0 <= i < |es| ::
            && plan[|mk| + 2 * i] == ExportCommand(env.profile, a.overwrite, a.format, EntrySource(env.root, ExportSource(env.root, a.wkspPath), es[i]), targets[i])
            && plan[|mk| + 2 * i + 1] == GitAddCommand(targets[i]))
      && plan[|mk| + 2 * |es|..] == finish
  {
    SourcesShape(env.profile, a.overwrite, a.format, MkdirCommands(folders), env.root, ExportSource(env.root, a.wkspPath),
                 es, targets, FinishCommands(a.noCommit, push));
  }

  /** The same for the entries under any exported folder `source`. */
  lemma SourcesShape(profile: string, overwrite: bool, format: string, mk: seq<Command>, root: string, source: string,
                     es: seq<Entry>, targets: seq<string>, finish: seq<Command>)
    requires |es| == |targets|
    ensures var plan := mk + (FileCommands(profile, overwrite, format, EntrySources(root, source, es), targets) + finish);
      && plan[..|mk|] == mk
      && |plan| == |mk| + 2 * |es| + |finish|
      && (forall i | 0 <= i < |es| ::
            && plan[|mk| + 2 * i] == ExportCommand(profile, overwrite, format, EntrySource(root, source, es[i]), targets[i])
            && plan[|mk| + 2 * i + 1] == GitAddCommand(targets[i]))
      && plan[|mk| + 2 * |es|..] == finish
  {
    PartsShape(profile, overwrite, format, mk, EntrySources(root, source, es), targets, finish, |es|);
  }

  /** The same for any folder commands, workspace paths and closing commands. */
  lemma PartsShape(profile: string, overwrite: bool, format: string, mk: seq<Command>,
                   sources: seq<string>, targets: seq<string>, finish: seq<Command>, n: nat)
    requires |sources| == |targets| == n
    ensures var plan := mk + (FileCommands(profile, overwrite, format, sources, targets) + finish);
      && plan[..|mk|] == mk
      && |plan| == |mk| + 2 * n + |finish|
      && (forall i | 0 <= i < n ::
            && plan[|mk| + 2 * i] == ExportCommand(profile, overwrite, format, sources[i], targets[i])
            && plan[|mk| + 2 * i + 1] == GitAddCommand(targets[i]))
      && plan[|mk| + 2 * n..] == finish
  {
    var files := FileCommands(profile, overwrite, format, sources, targets);
    FileCommandsShape(profile, overwrite, format, sources, targets);
    ConcatParts(mk, files, finish);
  }

  /** `plan` is laid out as a listing plan: the folder commands for the display
      paths, then each entry's export from its workspace path to its target
      immediately followed by the `git add` of that target, in listing order, then
      the commit and push. */
  predicate ListingLayout(env: ExportEnv, a: ExportArgs, push: Option<(string, string)>, es: seq<Entry>, plan: seq<Command>)
    requires forall i | 0 <= i < |es| :: ExportTarget(es[i], a.format, a.overwrite, env.existing).Ok?
  {
    var mk := MkdirCommands(ParentFolders(DisplayPaths(es)));
    var finish := FinishCommands(a.noCommit, push);
    && |plan| == |mk| + 2 * |es| + |finish|
    && plan[..|mk|] == mk
    && (forall i | 0 <= i < |es| ::
          var target := ExportTarget(es[i], a.format, a.overwrite, env.existing).value;
          && plan[|mk| + 2 * i] == ExportCommand(env.profile, a.overwrite, a.format, EntrySource(env.root, ExportSource(env.root, a.wkspPath), es[i]), target)
          && plan[|mk| + 2 * i + 1] == GitAddCommand(target))
    && plan[|mk| + 2 * |es|..] == finish
  }

  /** The plan as written for a listing whose every entry has a target has that
      layout. */
  lemma ListingPlanShape(env: ExportEnv, a: ExportArgs, push: Option<(string, string)>, es: seq<Entry>)
    requires ListingPlan(env, a, push, es).Ok?
    ensures ListingLayout(env, a, push, es, ListingPlan(env, a, push, es).value)
  {
    ListingPlanValue(env, a, push, es);
    TargetsShape(env, a, push, es, ExportTargets(es, a.format, a.overwrite, env.existing).value, ListingPlan(env, a, push, es).value);
  }

  /** The plan for the entries' own targets has the listing layout. */
  lemma TargetsShape(env: ExportEnv, a: ExportArgs, push: Option<(string, string)>, es: seq<Entry>,
                     targets: seq<string>, plan: seq<Command>)
    requires |targets| == |es|
    requires forall i | 0 <= i < |es| :: ExportTarget(es[i], a.format, a.overwrite, env.existing) == Ok(targets[i])
    requires plan == PlanCommands(env, a, push, es, targets, ParentFolders(DisplayPaths(es)))
    ensures ListingLayout(env, a, push, es, plan)
  {
    PlanShape(env, a, push, es, targets, ParentFolders(DisplayPaths(es)));
  }

  /** A listing plan that succeeds is the plan for the entries' targets. */
  lemma ListingPlanValue(env: ExportEnv, a: ExportArgs, push: Option<(string, string)>, es: seq<Entry>)
    requires ListingPlan(env, a, push, es).Ok?
    ensures var targets := ExportTargets(es, a.format, a.overwrite, env.existing).value;
      && |targets| == |es|
      && (forall i | 0 <= i < |es| :: ExportTarget(es[i], a.format, a.overwrite, env.existing) == Ok(targets[i]))
      && ListingPlan(env, a, push, es).value == PlanCommands(env, a, push, es, targets, ParentFolders(DisplayPaths(es)))
  {
  }

  /** A plan made from distinct folders makes each folder once. */
  lemma PlanFoldersOnce(env: ExportEnv, a: ExportArgs, push: Option<(string, string)>, es: seq<Entry>,
                        targets: seq<string>, folders: seq<string>)
    requires |targets| == |es| && Distinct(folders)
    ensures var plan := PlanCommands(env, a, push, es, targets, folders);
      forall i, j | 0 <= i < j < |plan| && Mkdir <= plan[i] :: plan[i] != plan[j]
  {
    var sources := EntrySources(env.root, ExportSource(env.root, a.wkspPath), es);
    var files := FileCommands(env.profile, a.overwrite, a.format, sources, targets);
    var finish := FinishCommands(a.noCommit, push);
    forall c | c in files + finish ensures !(Mkdir <= c) {
      if c in files {
        FileCommandsOnly(env.profile, a.overwrite, a.format, sources, targets, c);
        assert c[0] != Mkdir[0];
      } else {
        assert c[0] != Mkdir[0];
      }
    }
    FoldersMadeOnce(Mkdir, folders, files + finish);
  }

  /** A listing plan makes each folder once. */
  lemma ListingPlanFoldersOnce(env: ExportEnv, a: ExportArgs, push: Option<(string, string)>, es: seq<Entry>)
    requires ListingPlan(env, a, push, es).Ok?
    ensures var plan := ListingPlan(env, a, push, es).value;
      forall i, j | 0 <= i < j < |plan| && Mkdir <= plan[i] :: plan[i] != plan[j]
  {
    var targets := ExportTargets(es, a.format, a.overwrite, env.existing).value;
    PlanFoldersOnce(env, a, push, es, targets, ParentFolders(DisplayPaths(es)));
  }

  /** A plan commits unless `--no-commit` was given. */
  lemma PlanCommits(env: ExportEnv, a: ExportArgs, push: Option<(string, string)>, es: seq<Entry>,
                    targets: seq<string>, folders: seq<string>)
    requires |targets| == |es|
    ensures CommitCommand in PlanCommands(env, a, push, es, targets, folders) <==> !a.noCommit
  {
    MkdirCommandsNoCommit(folders);
    FileCommandsNoCommit(env.profile, a.overwrite, a.format, EntrySources(env.root, ExportSource(env.root, a.wkspPath), es), targets);
  }

  /** A listing plan commits unless `--no-commit` was given. */
  lemma ListingPlanCommits(env: ExportEnv, a: ExportArgs, push: Option<(string, string)>, es: seq<Entry>)
    requires ListingPlan(env, a, push, es).Ok?
    ensures CommitCommand in ListingPlan(env, a, push, es).value <==> !a.noCommit
  {
    var targets := ExportTargets(es, a.format, a.overwrite, env.existing).value;
    PlanCommits(env, a, push, es, targets, ParentFolders(DisplayPaths(es)));
  }

  /** A plan ends with the push when a push target was given. */
  lemma PlanPushesLast(env: ExportEnv, a: ExportArgs, remote: string, branch: string, es: seq<Entry>,
                       targets: seq<string>, folders: seq<string>)
    requires |targets| == |es|
    ensures var plan := PlanCommands(env, a, Some((remote, branch)), es, targets, folders);
      plan != [] && plan[|plan| - 1] == PushCommand(remote, branch)
  {
    var mk := MkdirCommands(folders);
    var files := FileCommands(env.profile, a.overwrite, a.format, EntrySources(env.root, ExportSource(env.root, a.wkspPath), es), targets);
    var finish := FinishCommands(a.noCommit, Some((remote, branch)));
    var tail := files + finish;
    assert tail[|tail| - 1] == finish[|finish| - 1];
    assert (mk + tail)[|mk + tail| - 1] == tail[|tail| - 1];
  }

  /** A listing plan ends with the push when a push target was given. */
  lemma ListingPlanPushesLast(env: ExportEnv, a: ExportArgs, remote: string, branch: string, es: seq<Entry>)
    requires ListingPlan(env, a, Some((remote, branch)), es).Ok?
    ensures var plan := ListingPlan(env, a, Some((remote, branch)), es).value;
      plan != [] && plan[|plan| - 1] == PushCommand(remote, branch)
  {
    var targets := ExportTargets(es, a.format, a.overwrite, env.existing).value;
    PlanPushesLast(env, a, remote, branch, es, targets, ParentFolders(DisplayPaths(es)));
  }

  /** A plan whose folders include the folder of every target makes the folder of
      every file before exporting into it. */
  lemma PlanParentsFirst(env: ExportEnv, a: ExportArgs, push: Option<(string, string)>, es: seq<Entry>,
                         targets: seq<string>, folders: seq<string>)
    requires |targets| == |es|
    requires forall t | t in targets && Dirname(t) != "" :: Dirname(t) in folders
    ensures ParentsFirst(PlanCommands(env, a, push, es, targets, folders), Export, Mkdir)
  {
    PartsParentsFirst(env.profile, a.overwrite, a.format, folders, EntrySources(env.root, ExportSource(env.root, a.wkspPath), es),
                      targets, FinishCommands(a.noCommit, push));
  }

  /** The same for any workspace paths and any closing `git` commands. */
  lemma PartsParentsFirst(profile: string, overwrite: bool, format: string, folders: seq<string>,
                          sources: seq<string>, targets: seq<string>, finish: seq<Command>)
    requires |sources| == |targets|
    requires forall t | t in targets && Dirname(t) != "" :: Dirname(t) in folders
    requires forall c | c in finish :: c != [] && c[0] == "git"
    ensures ParentsFirst(MkdirCommands(folders) + (FileCommands(profile, overwrite, format, sources, targets) + finish), Export, Mkdir)
  {
    var files := FileCommands(profile, overwrite, format, sources, targets);
    forall c | c in files + finish && IsExportCommand(c) ensures Dirname(Output(c)) == "" || Dirname(Output(c)) in folders {
      if c in files {
        FileCommandsOnly(profile, overwrite, format, sources, targets, c);
      }
    }
    assert Export[0] != Mkdir[0];
    FoldersLead(Export, Mkdir, folders, files + finish);
  }

  /** The corrected plan makes the folder of every file before exporting into it. */
  lemma CorrectedListingPlanParentsFirst(env: ExportEnv, a: ExportArgs, push: Option<(string, string)>, es: seq<Entry>)
    requires CorrectedListingPlan(env, a, push, es).Ok?
    ensures ParentsFirst(CorrectedListingPlan(env, a, push, es).value, Export, Mkdir)
  {
    var targets := ExportTargets(es, a.format, a.overwrite, env.existing).value;
    PlanParentsFirst(env, a, push, es, targets, ParentFolders(targets));
  }

  /** The corrected plan is the plan as written with the folder-making commands
      replaced, and nothing else changed. */
  lemma CorrectedPlanKeepsFiles(env: ExportEnv, a: ExportArgs, push: Option<(string, string)>, es: seq<Entry>)
    requires ListingPlan(env, a, push, es).Ok?
    ensures var targets := ExportTargets(es, a.format, a.overwrite, env.existing).value;
      var made := |ParentFolders(DisplayPaths(es))|;
      && made <= |ListingPlan(env, a, push, es).value|
      && CorrectedListingPlan(env, a, push, es).value
         == MkdirCommands(ParentFolders(targets)) + ListingPlan(env, a, push, es).value[made..]
  {
    var targets := ExportTargets(es, a.format, a.overwrite, env.existing).value;
    var mk := MkdirCommands(ParentFolders(DisplayPaths(es)));
    var rest := FileCommands(env.profile, a.overwrite, a.format, EntrySources(env.root, ExportSource(env.root, a.wkspPath), es), targets)
                + FinishCommands(a.noCommit, push);
    assert (mk + rest)[|mk|..] == rest;
  }

  /** A plan whose first file goes into a folder that is neither the current one nor
      among the folders it makes does not make parents first. */
  lemma PlanMissesFolder(env: ExportEnv, a: ExportArgs, push: Option<(string, string)>, es: seq<Entry>,
                         targets: seq<string>, folders: seq<string>)
    requires |targets| == |es| && es != []
    requires Dirname(targets[0]) != "" && Dirname(targets[0]) !in folders
    ensures !ParentsFirst(PlanCommands(env, a, push, es, targets, folders), Export, Mkdir)
  {
    var sources := EntrySources(env.root, ExportSource(env.root, a.wkspPath), es);
    var files := FileCommands(env.profile, a.overwrite, a.format, sources, targets);
    FileCommandsAt(env.profile, a.overwrite, a.format, sources, targets, 0);
    var rest := files + FinishCommands(a.noCommit, push);
    assert rest[0] == files[0];
    UnmadeFolderBreaksOrder(Export, Mkdir, folders, rest);
  }

  /** A listing of one entry whose workspace folder has a parenthesis in its name,
      and which has a target, gives a plan as written that exports into a folder it
      never makes. */
  lemma ParenthesisedFolderBreaksPlan(env: ExportEnv, a: ExportArgs, push: Option<(string, string)>, e: Entry)
    requires ExportTarget(e, a.format, a.overwrite, env.existing).Ok?
    requires '(' in Dirname(e.display) || ')' in Dirname(e.display)
    ensures ListingPlan(env, a, push, [e]).Ok?
    ensures !ParentsFirst(ListingPlan(env, a, push, [e]).value, Export, Mkdir)
  {
    var es := [e];
    var target := ExportTarget(e, a.format, a.overwrite, env.existing).value;
    DisplayFoldersMissTarget(e, a.format, a.overwrite, env.existing);
    SingleListingPlan(env, a, push, e);
    PlanMissesFolder(env, a, push, es, [target], ParentFolders(DisplayPaths(es)));
  }

  /** The plan as written for a listing of one entry that has a target. */
  lemma SingleListingPlan(env: ExportEnv, a: ExportArgs, push: Option<(string, string)>, e: Entry)
    requires ExportTarget(e, a.format, a.overwrite, env.existing).Ok?
    ensures var target := ExportTarget(e, a.format, a.overwrite, env.existing).value;
      ListingPlan(env, a, push, [e]) == Ok(PlanCommands(env, a, push, [e], [target], ParentFolders(DisplayPaths([e]))))
  {
    var targets := ExportTargets([e], a.format, a.overwrite, env.existing);
    assert targets.Ok? && targets.value[0] == ExportTarget(e, a.format, a.overwrite, env.existing).value;
    assert targets.value == [ExportTarget(e, a.format, a.overwrite, env.existing).value];
  }

  /** The notebook `f(1)/nb` in `PYTHON`, exported as `SOURCE` with nothing in the
      way, breaks the plan as written: the plan makes `f(1)` and then exports into
      `f_1_/nb.py`, whose folder no command makes. */
  lemma ListingPlanMissesFolder(env: ExportEnv, a: ExportArgs, push: Option<(string, string)>)
    requires a.format == "SOURCE" && !a.overwrite && env.existing == {}
    ensures var es := [Entry(Notebook, "NOTEBOOK f(1)/nb PYTHON", "f(1)/nb", "PYTHON")];
      && ListingPlan(env, a, push, es).Ok?
      && !ParentsFirst(ListingPlan(env, a, push, es).value, Export, Mkdir)
  {
    var e := Entry(Notebook, "NOTEBOOK f(1)/nb PYTHON", "f(1)/nb", "PYTHON");
    ParenthesisedFolderTarget();
    ParenthesisedDisplayFolder();
    ParenthesisedFolderBreaksPlan(env, a, push, e);
  }

  /** The workspace folder of `f(1)/nb` has a parenthesis in its name. */
  lemma ParenthesisedDisplayFolder()
    ensures '(' in Dirname("f(1)/nb")
  {
    var p := "f(1)/nb";
    RFindLast(p, '/', 4);
    TrimSlashesOnce("f(1)");
    assert p[..5] == "f(1)" + "/";
    assert Dirname(p) == "f(1)";
    assert Dirname(p)[1] == '(';
  }

  /** `export_from_workspace(args)` up to running the plan. Its checks, in order: the
      `--push-to` value; `git status` on the target path, which must succeed and
      report no modified tracked file; the workspace listing; a target for each
      entry. */
  function ExportPlan(env: ExportEnv, a: ExportArgs, fuel: nat): (r: Result<seq<Command>, SyncError>)
    ensures a.pushTo.Some? && a.noCommit ==> r == Err(PushToWithNoCommit)
    ensures var push := ParsePushTarget(a.pushTo, a.noCommit);
            var status := env.shell(GitStatusCommand(a.tgtPath));
            var changes := ModifiedOrUntracked(status, ExportRecursive(a), true);
      && (push.Err? ==> r == Err(push.error))
      && (push.Ok? && status.returnCode != 0 ==> r == Err(GitStatusFailed))
      && (push.Ok? && changes.Ok? && changes.value != [] ==> r == Err(UncommittedChanges(ChangedPaths(changes.value))))
      && (push.Ok? && changes == Ok([]) ==> r == match ExportListing(env, a, fuel)
            case None => Err(ListingIncomplete)
            case Some(es) => ListingPlan(env, a, push.value, es))
      && (r.Ok? ==> changes == Ok([]))
    ensures r.Ok? ==> match (ParsePushTarget(a.pushTo, a.noCommit), ExportListing(env, a, fuel))
      case (Ok(push), Some(es)) => r == ListingPlan(env, a, push, es)
      case _ => false
  {
    var push :- ParsePushTarget(a.pushTo, a.noCommit);
    var changes :- ModifiedOrUntracked(env.shell(GitStatusCommand(a.tgtPath)), ExportRecursive(a), true);
    if changes != [] then Err(UncommittedChanges(ChangedPaths(changes)))
    else match ExportListing(env, a, fuel)
      case None => Err(ListingIncomplete)
      case Some(es) => ListingPlan(env, a, push, es)
  }
}
