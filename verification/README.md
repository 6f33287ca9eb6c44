# databricks_sync reconciliation, modelled in Dafny

`DatabricksSync` keeps a local git checkout and a Databricks workspace folder in
step. It does this by building a list of command lines and then running them:

- `databricks workspace ls/export/import/mkdirs`, which talk to the workspace;
- `git status/add/commit/push`, which talk to the local repository.

This project models the part that decides which commands to run. Every external
answer it reads is an input:

- the output of a command, as a `Shell` from argument vector to exit status and
  standard output;
- the set of local files that already exist;
- what the local glob matches;
- each command's exit status, when the plan is run.

With those inputs fixed, everything else is pure string and sequence logic.

## Modules

- `Base`: `Option`, and a `Result` usable with `:-`. `Collect` turns a sequence of
  results into either all their values or the first error.
- `Failures`: one constructor per way an export or import refuses to start.
  - `ParentPathNotSupported`: a local path whose folder starts with `..`.
  - `UnknownLanguage`: a language with no source extension.
  - `GitStatusFailed`: `git status` exited non-zero.
  - `UncommittedChanges`: the working tree has changes that block the command.
  - `PushToWithNoCommit`: `--push-to` was given together with `--no-commit`.
  - `MalformedPushTarget`: `--push-to` is not of the form `remote/branch`.
  - `TargetExists`: a local file would be replaced without `--overwrite`.
  - `ListingIncomplete`: the bounded walk did not finish.
- `Seqs`, `Text`, `Ordering`: Python's list and string built-ins. They cover:
  - `strip`, `split`, `replace` and `startswith`;
  - filters, `set` as first-appearance de-duplication, and subsequences;
  - code-point string order, and a sort by key.
- `PosixPath`: `os.path.join`, `split`, `dirname`, `basename` and `splitext`. An
  absolute later part resets `join`.
- `Glob`: `has_magic`, `fnmatch` for `*` and `?`, and `match_filter`.
- `WorkspacePaths`: `mk_workspace_path`, `adjust_local_paths`,
  `mk_local_file_from_notebook` and `escaped_file`.
- `ChangeDetector`: `get_modified_or_untracked_changes`. It parses
  `git status -s -u normal` lines into a two-character code and a stripped path,
  then filters them.
- `Commands`: argument vectors, and the output-line split of `execute_cmd_ex`. Two
  plan-shape lemmas are shared by export and import: "every folder is made before
  anything is written into it", and "every folder is made once". The module also
  holds `execute_cmds_ex` as a method over a plan and an exit-status oracle.
- `ListingWalker`: `get_workspace_listing`.
  - The three line patterns are characterised exactly. Because `.*` is greedy, the
    notebook language is the trailing uppercase word after the last space.
  - A FIFO worklist walk, bounded by `fuel`.
  - The filter is applied to the base name of the raw line.
  - Root stripping uses `replace` on every occurrence.
  - The result is sorted by display path.
- `Exporter`: `export_from_workspace` up to running the plan. It covers the checks,
  in the source's order, and the plan built from a listing, both as the code
  builds it and as corrected (see "Findings").
- `Importer`: `import_to_workspace` up to running the plan. It covers the checks,
  and the plan built from the glob result.

The export and import plans are returned as values (`seq<Command>`). They are not
appended to a mutable list. A failing `assert`, or a `raise` before
`execute_cmds_ex`, becomes an `Err`. Nothing runs in that case, because the source
builds the whole plan before it runs the first command.

In these places the code does less than its names or messages suggest. The model
follows the code:

- The error raised by `adjust_local_paths` says that paths with `..` are not
  supported (databricks_sync.py:516). The test before it (line 515) rejects only a
  folder part that *starts* with `..`, not one that merely contains it.
- `export_from_workspace` splits a wildcard name off `--wksp-path` into a pattern
  (databricks_sync.py:332-337). The pattern is then only logged, and the listing
  is of the whole folder (`ExportDropsPattern`).
- The commit message is the literal `'commited changes exported from workspace'`,
  with its single quotes and spelling (databricks_sync.py:389).
- `modified_files is not None` always holds (databricks_sync.py:326, 579). Only the
  length test matters.

## Model

| member | source | states |
|---|---|---|
| Glob.HasMagic | databricks_sync.py:404-409 | a path has wildcards exactly when some character is `?`, `*` or `[` |
| Glob.LiteralPatternMatchesItself | databricks_sync.py:444 | a pattern without wildcards matches exactly the one name it spells |
| Glob.StarMatchesEverything | databricks_sync.py:444 | the pattern `*` matches every name |
| Glob.MatchFilter | databricks_sync.py:438-444 | with no filter every name passes; with a wildcard-free filter a path passes exactly when its base name equals the filter |
| Glob.MatchFilterIgnoresDirectory | databricks_sync.py:443-444 | the folder part of a path never affects whether it passes the filter |
| PosixPath.Join | databricks_sync.py:522 | `os.path.join`: an absolute second part replaces the first; otherwise the result starts with the first part and ends with the second |
| PosixPath.JoinAllAbsoluteResets | databricks_sync.py:717 | in a many-part join, everything before the last absolute part is discarded |
| PosixPath.Split | databricks_sync.py:513 | `os.path.split`: the tail is everything after the last `/` (it has no `/`, ends the path, and is the whole path or follows a `/`); the head is empty exactly when the path has no `/`; otherwise it is what precedes the tail with the trailing slashes removed, unless that is all slashes, in which case it is kept whole |
| PosixPath.SplitJoin | databricks_sync.py:332 | splitting `dir/name` gives back `dir` and `name` when `dir` has no trailing slash |
| PosixPath.BasenameJoin | databricks_sync.py:443 | the base name of a joined path is its last part, whatever the folder |
| PosixPath.Splitext | databricks_sync.py:609 | root plus extension is the path; a non-empty extension starts with its only dot, holds no `/`, and lies inside the base name |
| PosixPath.SplitextFindsExtension | databricks_sync.py:609 | a path has an extension exactly when some dot of its base name follows a base-name character other than a dot; otherwise `splitext` gives the whole path and an empty extension |
| PosixPath.SplitextRoundTrip | databricks_sync.py:609 | appending a one-dot extension to a name with a non-dot character and splitting it off gives both parts back |
| PosixPath.DirnameSplitext | databricks_sync.py:609 | dropping the extension never changes the folder |
| Seqs.Dedup | databricks_sync.py:594 | `set(...)` as a list: no repeats, and the same members as the input |
| Seqs.Filter | databricks_sync.py:258 | `filter`: an order-preserving subsequence holding exactly the kept elements, each kept element as often as in the input |
| Text.Strip | databricks_sync.py:253 | `strip()`: the result is a slice of the input with no surrounding whitespace, and only whitespace was removed |
| Text.StripPadded | databricks_sync.py:489 | stripping a name padded with whitespace gives the stripped name |
| Text.SplitOn | databricks_sync.py:225 | `split(c)`: the parts hold no `c`, and joining them with `c` gives the input back |
| Text.ReplaceAllKeepsLast | databricks_sync.py:508 | `replace` keeps the last character of a string that does not end with the pattern |
| Text.ReplaceCharRemoves | databricks_sync.py:275 | replacing one character by another leaves none of the first and keeps the length |
| Ordering.StrLtTrans | databricks_sync.py:510 | the code-point order on strings used by `sorted` is transitive |
| Ordering.StrLtTotal | databricks_sync.py:510 | any two different strings are ordered one way or the other |
| Ordering.SortBy | databricks_sync.py:510 | `sorted(..., key=...)`: the result is ordered by key and is a permutation of the input |
| WorkspacePaths.DropDotSlash | databricks_sync.py:715 | one leading `./` is removed, and nothing else changes |
| WorkspacePaths.MkWorkspacePath | databricks_sync.py:706-719 | with no extra parts, an absolute path is kept and a relative one is joined under the default root; with extra parts, the result ends with the last part stripped of `./` |
| WorkspacePaths.MkWorkspacePathIdempotent | databricks_sync.py:706-719 | with an absolute or empty default root, mapping a mapped path again changes nothing |
| WorkspacePaths.RelativeRootPrefixesTwice | databricks_sync.py:709-713 | for any non-empty relative default root without a trailing `/` and any relative path, mapping gives `root/path` and mapping that again gives `root/root/path` |
| WorkspacePaths.MkWorkspacePathChild | databricks_sync.py:715-717 | a relative name under an absolute folder maps to `folder/name` |
| WorkspacePaths.AdjustLocalPaths | databricks_sync.py:512-527 | it fails exactly when the folder part starts with `..`; otherwise it keeps the base name; a path without a folder is unchanged; a `.` folder becomes `./**/` when recursive (under the current folder when absolute); any other folder is joined back to the base name with one `/`, and a joined path starting with `./` is re-rooted under the current folder when absolute |
| WorkspacePaths.RejoinLocal | databricks_sync.py:518-525 | the rejoined path ends with the pattern; an empty folder gives the pattern alone; any other folder is joined to the pattern with exactly one `/`, and a result starting with `./` is re-rooted under the current folder when absolute |
| WorkspacePaths.LanguageExtension | databricks_sync.py:267 | only R, PYTHON and SCALA have an extension |
| WorkspacePaths.MkLocalFileFromNotebook | databricks_sync.py:265-275 | it fails exactly for SOURCE or JUPYTER with a language outside the map; otherwise the result is the path plus the format's extension, with every parenthesis turned into `_` and every other character kept, so it holds no parenthesis |
| WorkspacePaths.UnderscoredPointwise | databricks_sync.py:275 | the two `replace` calls change each parenthesis to `_`, one character at a time |
| WorkspacePaths.EscapedFile | databricks_sync.py:277-289 | the chain of seven `replace` calls escapes each character on its own, as if the characters were escaped one by one |
| WorkspacePaths.EscapeChainPerChar | databricks_sync.py:282-288 | no replacement text is touched by a later replacement, so the chain distributes over the characters |
| WorkspacePaths.EscapeOneChar | databricks_sync.py:282-288 | a single character goes through the chain as its own escape sequence |
| WorkspacePaths.ReplaceEachAppend | databricks_sync.py:282-288 | the replacement chain on a concatenation is the concatenation of the chains |
| ChangeDetector.ParseStatusLine | databricks_sync.py:253 | the code is the first two characters (fewer for a short line), and the path is the rest stripped |
| ChangeDetector.StatusLineRoundTrip | databricks_sync.py:253 | a status line written from a two-character code and a path parses back into that code and path |
| ChangeDetector.KeptChanges | databricks_sync.py:252-263 | an order-preserving subsequence of the parsed lines that keeps exactly the reported changes, each as often as it was parsed: a non-empty path not starting with `..`, no `??` when only modified files count, and no `/` unless recursive |
| ChangeDetector.ModifiedOrUntracked | databricks_sync.py:242-263 | it fails exactly when `git status` exits non-zero; otherwise it gives the reported changes of the parsed output, in order, complete and with their multiplicities |
| ChangeDetector.CleanTreeHasNoChanges | databricks_sync.py:246-263 | empty `git status` output that exits 0 reports no change |
| Commands.OutputLines | databricks_sync.py:225 | the output lines hold no newline and join back into the output |
| Commands.FoldersLead | databricks_sync.py:351-358 | when the folder commands come first and every later write goes into one of those folders or the current one, each write's folder is made before the write |
| Commands.UnmadeFolderBreaksOrder | databricks_sync.py:351-358 | conversely, when the first command after the folder commands writes into a folder that is neither the current one nor among them, the plan does not make parents first |
| Commands.FoldersMadeOnce | databricks_sync.py:351-358 | distinct folders and no later folder command mean that no folder command is repeated |
| Commands.ExecuteCommands | databricks_sync.py:230-240 | a dry run shows the whole plan and runs nothing; otherwise commands run in order until the first non-zero exit, which is reported together with the successful prefix, and the plan completes exactly when every command exits 0 |
| ListingWalker.TrailingUpper | databricks_sync.py:459 | the longest run of uppercase letters at the end of a line |
| ListingWalker.NotebookPatternMatches | databricks_sync.py:459 | every line of the form `NOTEBOOK`, spaces, name, spaces, uppercase word parses as the stripped name and the word, however the spaces are divided |
| ListingWalker.NotebookPatternOnly | databricks_sync.py:459 | every parsed line has that form: `NOTEBOOK `, the name, a space and a final uppercase word |
| ListingWalker.ParseDirectory | databricks_sync.py:460 | a directory line is recognised exactly when it starts with `DIRECTORY ` |
| ListingWalker.DirectoryPatternMatches | databricks_sync.py:460 | `DIRECTORY`, spaces and a path parse as the stripped path |
| ListingWalker.OtherPatternMatches | databricks_sync.py:461 | an uppercase word, spaces and a rest parse as the stripped rest |
| ListingWalker.OtherPatternOnly | databricks_sync.py:461 | every parsed other line starts with an uppercase word and a space, and parses as the rest stripped |
| ListingWalker.LineEntries | databricks_sync.py:485-500 | a line gives at most one entry; a notebook line gives one exactly when the filter passes; a directory line gives one exactly when directories are kept; any other line gives one exactly when other objects are allowed, the line is non-empty and it passes the filter; the entry is well formed: a notebook shows its captured name and language, a folder its captured path plus `/`, another object its second word onwards plus ` (L)` (or the whole line) |
| ListingWalker.LineSubfolders | databricks_sync.py:491-496 | a line queues a folder exactly when the walk is recursive and the line is a directory line, whatever the filter says; the folder is the captured path |
| ListingWalker.LinesEntriesWellFormed | databricks_sync.py:485-500 | every entry of a listing comes from one of its lines and is well formed: folders end with `/` and only when kept, others only when allowed and non-empty, and notebooks and others only when the filter passes on the line |
| ListingWalker.Step | databricks_sync.py:476-496 | one step lists the head of the worklist and nothing else |
| ListingWalker.StepKeepsFifo | databricks_sync.py:472-496 | listed plus pending is always the start folder followed by every folder discovered, in discovery order, and every listed folder after the start was discovered by listing the folders before it |
| ListingWalker.DiscoveredBeforeListed | databricks_sync.py:472-496 | the head of a non-empty worklist is a discovered folder, so listing it keeps every listed folder discovered before its turn |
| ListingWalker.WalkQueue | databricks_sync.py:472-500 | the walk keeps the FIFO invariant, only extends what was listed, and stops only when the worklist is empty or the fuel is spent |
| ListingWalker.WalkFrom | databricks_sync.py:465-500 | a walk from the start folder satisfies the FIFO invariant; its worklist is empty unless the fuel ran out |
| ListingWalker.NonRecursiveListsStartOnly | databricks_sync.py:465-496 | a walk that is not recursive lists the start folder alone |
| ListingWalker.EntriesOfSameOutput | databricks_sync.py:478-500 | the entries depend only on the listed folders' output lines and on the filter and kinds kept |
| ListingWalker.ListingTargetOfWildcardPath | databricks_sync.py:456-457 | a wildcard path `dir/name`, with `dir` non-empty and without a trailing `/`, is listed from `dir` with `name` as the filter |
| ListingWalker.RootPrefix | databricks_sync.py:506 | the stripped root is the listed folder when that ends with `/`, and the folder plus `/` otherwise |
| ListingWalker.RelativizeChild | databricks_sync.py:508 | a path under the root that does not repeat the root loses exactly the root prefix |
| ListingWalker.RelativizeKeepsFolderSlash | databricks_sync.py:494-508 | a folder keeps its trailing `/` when its display path does not end with the root |
| ListingWalker.RelativizeCanEraseFolderSlash | databricks_sync.py:494-508 | a folder whose path repeats the root loses its trailing `/` to root stripping |
| ListingWalker.WorkspaceListing | databricks_sync.py:447-510 | a complete walk gives exactly the walked entries, root-stripped unless absolute, sorted by display path, with no folder when directories are omitted and no other object unless allowed |
| Exporter.ExportCommand | databricks_sync.py:372-378 | the export command is `databricks workspace export --profile <profile>`, then `--overwrite` exactly when asked for (one argument longer), then `--format <format>`, the workspace source and the target |
| Exporter.ParsePushTarget | databricks_sync.py:301-307 | no push without `--push-to`; an error with `--no-commit`; otherwise accepted exactly when the value is two slash-free parts around one `/` whose stripped forms are non-empty, giving those stripped parts, and a malformed-target error in every other case |
| Exporter.PushTargetRoundTrip | databricks_sync.py:304-307 | `remote/branch` from a remote and a branch that are clean, non-empty and slash-free parses back into those two |
| Exporter.PushTargetNeedsBranch | databricks_sync.py:301-307 | a value without `/`, such as `origin`, is refused as malformed |
| Exporter.ExportDropsPattern | databricks_sync.py:332-341 | exporting `dir/<pattern>` lists the same folder as exporting `dir` |
| Exporter.ExportTargetCases | databricks_sync.py:364-369 | an entry has a target exactly when its local file has a name and, unless overwriting, does not exist; the target is that file; the error is the existing file or the unknown language |
| Exporter.ExportTargets | databricks_sync.py:362-369 | all entries' targets in order when every entry has one; otherwise the error of the first entry without one |
| Exporter.ParentFolders | databricks_sync.py:352-353 | each distinct non-empty folder of the given paths, once |
| Exporter.DisplayFoldersMissTarget | databricks_sync.py:352-364 | for an entry whose folder has a parenthesis, the folder its file goes to is not among the folders made from display paths |
| Exporter.ParenthesisedFolderTarget | databricks_sync.py:364 | notebook `f(1)/nb` in PYTHON exported as SOURCE goes to `f_1_/nb.py` |
| Exporter.FileCommandsCover | databricks_sync.py:362-384 | every entry is exported from its workspace path to its target, and the target is added to git |
| Exporter.FileCommandsOnly | databricks_sync.py:362-384 | the per-entry commands are `git` commands and exports into targets, nothing else |
| Exporter.FileCommandsShape | databricks_sync.py:362-384 | the per-entry commands alternate: command `2i` exports file `i` from its workspace path to its target, and command `2i + 1` adds that target to git |
| Exporter.FinishCommands | databricks_sync.py:387-396 | a commit exactly when `--no-commit` is absent, then a push to the parsed remote and branch as the last command when one was given |
| Exporter.ListingPlan | databricks_sync.py:351-396 | the plan as the code builds it exists exactly when every entry has a target, and otherwise fails with the first entry's failure; it starts by making the folders of the display paths |
| Exporter.CorrectedListingPlan | databricks_sync.py:351-384 | the corrected plan exists and fails exactly as the plan as written does, but starts by making the folders of the targets |
| Exporter.PlanShape | databricks_sync.py:351-396 | a plan is its folder commands, then for each entry in order its export from its workspace path to its target immediately followed by the `git add` of that target, then the commit and push, and nothing else |
| Exporter.ListingPlanShape | databricks_sync.py:351-396 | a listing plan that exists has the listing layout: the folders of the display paths, then entry `i`'s export to its target at position `2i` after them and its `git add` at `2i + 1`, then the commit and push, with nothing in between |
| Exporter.ListingPlanExports | databricks_sync.py:362-384 | every entry is exported to its target and added to git, and the target exists only when overwriting |
| Exporter.CorrectedListingPlanParentsFirst | databricks_sync.py:351-384 | in the corrected plan, every file's folder is made before it is exported into |
| Exporter.CorrectedPlanKeepsFiles | databricks_sync.py:351-396 | the corrected plan is the plan as written with its folder-making commands replaced, and nothing else changed |
| Exporter.PlanMissesFolder | databricks_sync.py:352-384 | a plan whose first file goes into a folder that is neither current nor made does not make parents first |
| Exporter.ParenthesisedFolderBreaksPlan | databricks_sync.py:352-384 | for any one-entry listing whose workspace folder has a parenthesis and which has a target, the plan as written exists and exports into a folder it never makes |
| Exporter.ListingPlanMissesFolder | databricks_sync.py:352-384 | for the notebook `f(1)/nb` in PYTHON exported as SOURCE, the plan as written exists and exports into a folder it never makes |
| Exporter.ListingPlanFoldersOnce | databricks_sync.py:351-358 | no `mkdir -p` command is repeated |
| Exporter.ListingPlanCommits | databricks_sync.py:387-390 | the plan commits exactly when `--no-commit` is absent |
| Exporter.ListingPlanPushesLast | databricks_sync.py:394-396 | with a push target, the last command is the push |
| Exporter.ExportPlan | databricks_sync.py:301-396 | a bad `--push-to` fails first with its own error; then a failing `git status` fails; then any change other than untracked files fails and names every changed path; with a clean tree, an incomplete listing fails and a complete one gives the listing plan as written |
| Importer.ImportCommand | databricks_sync.py:615-621 | the import command is `databricks workspace import --profile <profile> --format <format> --language <language>`, then `--overwrite` when asked for (exactly then one argument longer), then the source and the target |
| Importer.MappedPathChild | databricks_sync.py:589-591 | a relative local file, under an absolute workspace folder without a trailing `/`, maps to `folder/file` |
| Importer.ImportTargetShape | databricks_sync.py:605-611 | with `--keep-extensions` the target is the mapped path; otherwise it is the mapped path minus its extension; the folder is the same either way |
| Importer.ImportFolders | databricks_sync.py:594 | each distinct folder of the mapped paths exactly once, the empty folder included, and nothing else |
| Importer.ImportCommandsShape | databricks_sync.py:614-622 | one import per globbed file, in glob order: command `i` copies file `i` to its target |
| Importer.ImportCommandsCover | databricks_sync.py:614-622 | every globbed file is imported to its target |
| Importer.ImportCommandsOnly | databricks_sync.py:614-622 | the import commands write only to the files' targets |
| Importer.ImportsIntoFolders | databricks_sync.py:594-614 | every import writes into one of the folders that are made |
| Importer.ImportPlan | databricks_sync.py:565-622 | a failing `git status` fails; any change, untracked included, fails and names every path unless forced; a folder part starting with `..` fails; otherwise the plan is the folders then the imports of the globbed files |
| Importer.ImportPlanImports | databricks_sync.py:614-622 | every file the glob returns is imported to its target |
| Importer.ImportPlanParentsFirst | databricks_sync.py:593-622 | every file's folder is made before it is imported into |
| Importer.ImportPlanFoldersOnce | databricks_sync.py:593-600 | no `workspace mkdirs` command is repeated |

## Left out

- Argument parsing, help text, the `sync` dispatcher, the configuration file and
  prompts. The profile and default root are parameters.
- Running processes. Every command's output is the `Shell` parameter, and
  `execute_cmds_ex` reads exit statuses from a function of position and command.
  Its dry-run printing becomes the `DryRun` outcome, which lists the plan.
- `glob.glob`, `os.path.exists` and `os.getcwd`. They are the `glob` parameter, the
  `existing` set and the `cwd` parameter. `os.path.exists` is asked about a file
  before any command has run, so a set fixed for the whole plan is faithful.
- Logging, progress dots, the `print` calls (databricks_sync.py:365, 587) and
  `diff_against_workspace`: output only.
- `ls`, and the `extended` flag of `get_workspace_listing`. The walker always asks
  for `-l --absolute` (databricks_sync.py:478-480), so the flag changes nothing.
- Glob.FnMatch: `[...]` character classes are not modelled. `[` is matched as
  itself. `*` and `?` are modelled fully.
- Glob.MatchFilter: the contract pins the result only with no filter or with a
  wildcard-free filter. With wildcards, it is `FnMatch` on the base name by
  definition.
- WorkspacePaths.MkWorkspacePath: with extra parts, the contract says only that
  the result ends with the last part. `MkWorkspacePathChild` gives the exact
  result for a relative name under an absolute folder.
- ListingWalker.WorkspaceListing: the walk is bounded by `fuel` folder listings.
  A walk that needs more gives `None` (export reports `ListingIncomplete`). The
  source would keep listing, and loops forever on a cyclic listing.
- Ordering.SortBy: states order and permutation, not stability. Entries with equal
  display paths may come out in a different order than `sorted` gives.
- Exporter.ParentFolders, Importer.ImportFolders and Seqs.Dedup: the source makes
  folders from a Python `set`, whose iteration order is not defined. The model uses first
  appearance, and the contracts promise only each distinct folder exactly once.

## Findings

| source | as written | input that shows it | evidently intended | confidence | as-written member | corrected member |
|---|---|---|---|---|---|---|
| databricks_sync.py:352-364 | export makes `mkdir -p dirname(display path)`, but it writes each notebook to `mk_local_file_from_notebook(display path)`, which turns `(` and `)` into `_` in the folder part too | notebook `f(1)/nb`, language PYTHON, format SOURCE: the plan makes `f(1)` and exports to `f_1_/nb.py`, whose folder `f_1_` is never made | make the folder of each target file | high (not executed) | Exporter.ListingPlanMissesFolder | Exporter.CorrectedListingPlanParentsFirst |

`Exporter.ListingPlan` builds the plan as the code does, and `Exporter.ExportPlan`
uses it. `Exporter.ParenthesisedFolderTarget` computes the concrete target for the
input above, and `Exporter.DisplayFoldersMissTarget` shows, for any entry whose
folder has a parenthesis, that the target's folder is not among those made.
`Exporter.ParenthesisedFolderBreaksPlan` lifts that to the whole plan for any such
entry, and `Exporter.ListingPlanMissesFolder` applies it to the input above: a plan
that exports before its folder exists.

`Exporter.CorrectedListingPlan` makes the folders of the targets
(`ParentFolders(targets)`) instead of the folders of the display paths.
`CorrectedListingPlanParentsFirst` proves that, in that plan, every file's folder
is made before the file is written. `CorrectedPlanKeepsFiles` shows that nothing
else changes.
