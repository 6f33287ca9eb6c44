/** The ways a sync command stops before running anything: each constructor stands
    for one exception the synchronizer raises while validating or planning. */
module Failures {

  datatype SyncError =
    /** a local directory part beginning with `..` (ValueError) */
    | ParentPathNotSupported(path: string)
    /** SOURCE or JUPYTER format for a language with no known extension (KeyError) */
    | UnknownLanguage(language: string)
    /** `git status` exited with a non-zero code */
    | GitStatusFailed
    /** the local tree has changes that block the command; their paths */
    | UncommittedChanges(paths: seq<string>)
    /** `--push-to` together with `--no-commit` */
    | PushToWithNoCommit
    /** a `--push-to` value that is not `remote/branch` */
    | MalformedPushTarget(pushTo: string)
    /** an export target that exists while `--overwrite` is off */
    | TargetExists(file: string)
    /** the workspace walk needed more folder listings than the bound on them allows;
        the synchronizer itself has no such bound */
    | ListingIncomplete
}
