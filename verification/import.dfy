/** `import_to_workspace`: the commands that copy local files into the workspace.
    As with export, every check is made and the whole plan built before the first
    command runs. */
module Importer {
  import opened Base
  import opened Text
  import opened Seqs
  import opened Failures
  import opened PosixPath
  import opened WorkspacePaths
  import opened Commands
  import opened ChangeDetector

  /** The options import reads. */
  datatype ImportArgs = ImportArgs(
    srcPath: string,
    wkspPath: string,
    recursive: bool,
    format: string,
    language: string,
    overwrite: bool,
    force: bool,
    keepExtensions: bool)

  /** The local file system's `glob.glob(pattern, recursive=...)`, as an oracle. */
  type Globber = (string, bool) -> seq<string>

  /** What import consults outside its options: the process runner, the file
      system's pattern matcher, and the profile and default workspace root in use. */
  datatype ImportEnv = ImportEnv(shell: Shell, glob: Globber, profile: string, root: string)

  // ---------------------------------------------------------------------------
  // The commands

  const Import: Command := ["databricks", "workspace", "import"]

  /** `databricks workspace mkdirs --profile <profile>`, still missing its folder. */
  function Mkdirs(profile: string): Command {
    ["databricks", "workspace", "mkdirs", "--profile", profile]
  }

  /** `databricks workspace import`, with `--overwrite` when asked for, copying
      `source` to `target`. */
  function ImportCommand(profile: string, a: ImportArgs, source: string, target: string): (c: Command)
    ensures Import <= c && Output(c) == target
    ensures |c| == |Import| + (if a.overwrite then 9 else 8)
    ensures c[|Import|..|Import| + 6] == ["--profile", profile, "--format", a.format, "--language", a.language]
    ensures a.overwrite ==> c[|Import| + 6] == "--overwrite"
    ensures c[|c| - 2..] == [source, target]
  {
    Import + ["--profile", profile, "--format", a.format, "--language", a.language]
    + (if a.overwrite then ["--overwrite"] else [])
    + [source, target]
  }

  // ---------------------------------------------------------------------------
  // What to import, and where

  /** Import walks subfolders when asked to or when either path contains `**`. */
  function ImportRecursive(a: ImportArgs): bool {
    a.recursive || Contains(a.srcPath, "**") || Contains(a.wkspPath, "**")
  }

  /** The local pattern import globs: the source path, never made absolute. */
  function LocalPattern(a: ImportArgs): Result<string, SyncError> {
    AdjustLocalPaths(a.srcPath, ImportRecursive(a), false, "")
  }

  /** The workspace path a local file maps to: the file's path under the workspace
      folder, itself mapped against the default root. */
  function MappedPath(root: string, a: ImportArgs, file: string): string {
    MkWorkspacePath(root, MkWorkspacePath(root, a.wkspPath, []), [file])
  }

  /** The workspace paths of all the files, in order. */
  function MappedPaths(root: string, a: ImportArgs, files: seq<string>): (ps: seq<string>)
    ensures |ps| == |files|
    ensures forall i | 0 <= i < |files| :: ps[i] == MappedPath(root, a, files[i])
  {
    seq(|files|, i requires 0 <= i < |files| => MappedPath(root, a, files[i]))
  }

  /** A relative file under an absolute workspace folder maps to that folder, a
      `/`, and the file. */
  lemma MappedPathChild(root: string, a: ImportArgs, file: string)
    requires IsAbsolute(a.wkspPath) && !EndsWith(a.wkspPath, "/")
    requires !IsAbsolute(file) && !StartsWith(file, "./")
    ensures MappedPath(root, a, file) == a.wkspPath + "/" + file
  {
    MkWorkspacePathChild(root, a.wkspPath, file);
  }

  /** Where a file is imported to: its mapped path, without its extension unless
      `--keep-extensions` was given. */
  function ImportTarget(root: string, a: ImportArgs, file: string): string {
    var mapped := MappedPath(root, a, file);
    if a.keepExtensions then mapped else Splitext(mapped).0
  }

  /** The extension dropped from a target is the mapped path's own: putting it back
      gives the mapped path, and the folder is the mapped path's folder. */
  lemma ImportTargetShape(root: string, a: ImportArgs, file: string)
    ensures var (mapped, t) := (MappedPath(root, a, file), ImportTarget(root, a, file));
      && (a.keepExtensions ==> t == mapped)
      && (!a.keepExtensions ==> t + Splitext(mapped).1 == mapped)
      && Dirname(t) == Dirname(mapped)
  {
    DirnameSplitext(MappedPath(root, a, file));
  }

  /** The distinct parent folders of the mapped paths, in order of first
      appearance; an empty parent is kept. */
  function ImportFolders(root: string, a: ImportArgs, files: seq<string>): (fs: seq<string>)
    ensures Distinct(fs)
    ensures forall x | x in files :: Dirname(MappedPath(root, a, x)) in fs
    ensures forall f | f in fs :: exists x | x in files :: f == Dirname(MappedPath(root, a, x))
  {
    var mapped := MappedPaths(root, a, files);
    var parents := Parents(mapped);
    forall x | x in files ensures Dirname(MappedPath(root, a, x)) in parents {
      var i :| 0 <= i < |files| && files[i] == x;
      assert parents[i] in parents;
    }
    forall f | f in parents ensures exists x | x in files :: f == Dirname(MappedPath(root, a, x)) {
      var i :| 0 <= i < |parents| && parents[i] == f;
      assert files[i] in files;
    }
    Dedup(parents)
  }

  // ---------------------------------------------------------------------------
  // The plan

  /** One `mkdirs` per folder, in order. */
  function MkdirsCommands(profile: string, folders: seq<string>): seq<Command> {
    MakeFolders(Mkdirs(profile), folders)
  }

  /** One import per file, in order. */
  function ImportCommands(profile: string, root: string, a: ImportArgs, files: seq<string>): seq<Command>
    decreases |files|
  {
    if files == [] then []
    else [ImportCommand(profile, a, files[0], ImportTarget(root, a, files[0]))] + ImportCommands(profile, root, a, files[1..])
  }

  /** Import command `i` copies file `i` to its target. */
  lemma {:induction false} ImportCommandsShape(profile: string, root: string, a: ImportArgs, files: seq<string>)
    ensures var cs := ImportCommands(profile, root, a, files);
      && |cs| == |files|
      && forall i | 0 <= i < |files| :: cs[i] == ImportCommand(profile, a, files[i], ImportTarget(root, a, files[i]))
    decreases |files|
  {
    if files != [] {
      var cs := ImportCommands(profile, root, a, files);
      var rest := ImportCommands(profile, root, a, files[1..]);
      ImportCommandsShape(profile, root, a, files[1..]);
      assert cs[1..] == rest;
      forall i | 1 <= i < |files| ensures cs[i] == ImportCommand(profile, a, files[i], ImportTarget(root, a, files[i])) {
        assert files[1..][i - 1] == files[i];
        assert cs[i] == rest[i - 1];
      }
    }
  }

  /** Every file is imported to its target. */
  lemma {:induction false} ImportCommandsCover(profile: string, root: string, a: ImportArgs, files: seq<string>, x: string)
    requires x in files
    ensures ImportCommand(profile, a, x, ImportTarget(root, a, x)) in ImportCommands(profile, root, a, files)
    decreases |files|
  {
    if files[0] != x {
      ImportCommandsCover(profile, root, a, files[1..], x);
    }
  }

  /** Nothing but imports of the files to their targets. */
  lemma {:induction false} ImportCommandsOnly(profile: string, root: string, a: ImportArgs, files: seq<string>, c: Command)
    requires c in ImportCommands(profile, root, a, files)
    ensures Import <= c
    ensures exists x | x in files :: Output(c) == ImportTarget(root, a, x)
    decreases |files|
  {
    if c != ImportCommands(profile, root, a, files)[0] {
      ImportCommandsOnly(profile, root, a, files[1..], c);
      var x :| x in files[1..] && Output(c) == ImportTarget(root, a, x);
      assert x in files;
    } else {
      assert files[0] in files;
    }
  }

  /** The plan for the files found: make every folder, then import every file. */
  function FilesPlan(env: ImportEnv, a: ImportArgs, files: seq<string>): seq<Command> {
    MkdirsCommands(env.profile, ImportFolders(env.root, a, files)) + ImportCommands(env.profile, env.root, a, files)
  }

  /** `import_to_workspace(args)` up to running the plan. Its checks, in order:
      `git status` on the source path, which must succeed and report no modified or
      untracked file unless `--force` was given; then the source path, which must
      not climb above the current folder. */
  function ImportPlan(env: ImportEnv, a: ImportArgs): (r: Result<seq<Command>, SyncError>)
    ensures var status := env.shell(GitStatusCommand(a.srcPath));
            var changes := ModifiedOrUntracked(status, ImportRecursive(a), false);
      && (status.returnCode != 0 ==> r == Err(GitStatusFailed))
      && (changes.Ok? && changes.value != [] && !a.force ==> r == Err(UncommittedChanges(ChangedPaths(changes.value))))
      && (changes.Ok? && (changes.value == [] || a.force) ==>
            (r.Err? <==> StartsWith(Dirname(a.srcPath), "..")) && (r.Err? ==> r.error == ParentPathNotSupported(a.srcPath)))
    ensures r.Ok? ==> LocalPattern(a).Ok?
    ensures r.Ok? ==> r.value == FilesPlan(env, a, env.glob(LocalPattern(a).value, ImportRecursive(a)))
  {
    var recursive := ImportRecursive(a);
    var changes :- ModifiedOrUntracked(env.shell(GitStatusCommand(a.srcPath)), recursive, false);
    if changes != [] && !a.force then Err(UncommittedChanges(ChangedPaths(changes)))
    else
      var localPath :- LocalPattern(a);
      Ok(FilesPlan(env, a, env.glob(localPath, recursive)))
  }

  /** Every file the pattern matches is imported, to its mapped path (without its
      extension unless asked to keep it). */
  lemma ImportPlanImports(env: ImportEnv, a: ImportArgs, x: string)
    requires ImportPlan(env, a).Ok?
    requires x in env.glob(LocalPattern(a).value, ImportRecursive(a))
    ensures ImportCommand(env.profile, a, x, ImportTarget(env.root, a, x)) in ImportPlan(env, a).value
  {
    var files := env.glob(LocalPattern(a).value, ImportRecursive(a));
    ImportCommandsCover(env.profile, env.root, a, files, x);
  }

  /** An import plan makes the workspace folder of every file before importing
      into it. */
  lemma ImportPlanParentsFirst(env: ImportEnv, a: ImportArgs)
    requires ImportPlan(env, a).Ok?
    ensures ParentsFirst(ImportPlan(env, a).value, Import, Mkdirs(env.profile))
  {
    FilesPlanParentsFirst(env, a, env.glob(LocalPattern(a).value, ImportRecursive(a)));
  }

  /** An import plan makes each folder once. */
  lemma ImportPlanFoldersOnce(env: ImportEnv, a: ImportArgs)
    requires ImportPlan(env, a).Ok?
    ensures var plan := ImportPlan(env, a).value;
      forall i, j | 0 <= i < j < |plan| && Mkdirs(env.profile) <= plan[i] :: plan[i] != plan[j]
  {
    FilesPlanFoldersOnce(env, a, env.glob(LocalPattern(a).value, ImportRecursive(a)));
  }

  lemma FilesPlanParentsFirst(env: ImportEnv, a: ImportArgs, files: seq<string>)
    ensures ParentsFirst(FilesPlan(env, a, files), Import, Mkdirs(env.profile))
  {
    var folders := ImportFolders(env.root, a, files);
    var imports := ImportCommands(env.profile, env.root, a, files);
    var maker := Mkdirs(env.profile);
    assert Import[2] != maker[2] by {
      assert maker[2] == "mkdirs";
    }
    ImportsIntoFolders(env.profile, env.root, a, files);
    FoldersLead(Import, maker, folders, imports);
    assert FilesPlan(env, a, files) == MakeFolders(maker, folders) + imports;
  }

  /** Every import writes into one of the folders the plan makes. */
  lemma ImportsIntoFolders(profile: string, root: string, a: ImportArgs, files: seq<string>)
    ensures forall c | c in ImportCommands(profile, root, a, files) && Import <= c ::
      Dirname(Output(c)) == "" || Dirname(Output(c)) in ImportFolders(root, a, files)
  {
    forall c | c in ImportCommands(profile, root, a, files) && Import <= c
      ensures Dirname(Output(c)) in ImportFolders(root, a, files)
    {
      ImportCommandsOnly(profile, root, a, files, c);
      var x :| x in files && Output(c) == ImportTarget(root, a, x);
      ImportTargetShape(root, a, x);
    }
  }

  /** No import is a `mkdirs`. */
  lemma {:induction false} ImportsMakeNoFolder(profile: string, root: string, a: ImportArgs, files: seq<string>)
    ensures forall c | c in ImportCommands(profile, root, a, files) :: !(Mkdirs(profile) <= c)
    decreases |files|
  {
    if files != [] {
      ImportsMakeNoFolder(profile, root, a, files[1..]);
      ImportIsNoMkdirs(profile, ImportCommand(profile, a, files[0], ImportTarget(root, a, files[0])));
    }
  }

  lemma ImportIsNoMkdirs(profile: string, c: Command)
    requires Import <= c
    ensures !(Mkdirs(profile) <= c)
  {
    assert c[2] == Import[2];
    assert Mkdirs(profile)[2] == "mkdirs";
  }

  lemma FilesPlanFoldersOnce(env: ImportEnv, a: ImportArgs, files: seq<string>)
    ensures var plan := FilesPlan(env, a, files);
      forall i, j | 0 <= i < j < |plan| && Mkdirs(env.profile) <= plan[i] :: plan[i] != plan[j]
  {
    var folders := ImportFolders(env.root, a, files);
    var imports := ImportCommands(env.profile, env.root, a, files);
    var maker := Mkdirs(env.profile);
    ImportsMakeNoFolder(env.profile, env.root, a, files);
    FoldersMadeOnce(maker, folders, imports);
    assert FilesPlan(env, a, files) == MakeFolders(maker, folders) + imports;
  }
}
