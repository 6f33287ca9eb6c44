/** External commands: argument vectors, what a finished process reports, and the
    runner that executes a built plan in order. */
module Commands {
  import opened Text
  import opened Seqs
  import opened PosixPath

  /** An argument vector as handed to the process runner. */
  type Command = seq<string>

  /** What a finished process reports: its exit status and its standard output. */
  datatype CmdResult = CmdResult(returnCode: int, stdout: string)

  /** The outside world as the synchronizer sees it: what running an argument vector
      prints and returns. */
  type Shell = Command -> CmdResult

  /** `str(stdout).split('\n')`: the output lines of a command, the last one empty
      when the output ends with a newline. */
  function OutputLines(r: CmdResult): (lines: seq<string>)
    ensures |lines| >= 1
    ensures forall line | line in lines :: '\n' !in line
    ensures JoinWith(lines, '\n') == r.stdout
  {
    SplitOn(r.stdout, '\n')
  }

  /** The path a command writes, when it names one: its last argument. */
  function Output(c: Command): string {
    if c == [] then "" else c[|c| - 1]
  }

  /** Every command of the plan that starts with `writer` writes a path whose folder
      is the current one or was made earlier in the plan by `maker` followed by that
      folder. */
  predicate ParentsFirst(plan: seq<Command>, writer: Command, maker: Command) {
    forall k | 0 <= k < |plan| && writer <= plan[k] ::
      Dirname(Output(plan[k])) == "" || maker + [Dirname(Output(plan[k]))] in plan[..k]
  }

  /** `maker` followed by each folder in turn: one command per folder. */
  function MakeFolders(maker: Command, folders: seq<string>): (cs: seq<Command>)
    ensures |cs| == |folders|
    ensures forall i | 0 <= i < |folders| :: cs[i] == maker + [folders[i]]
  {
    seq(|folders|, i requires 0 <= i < |folders| => maker + [folders[i]])
  }

  /** A plan that first makes some folders, and whose later writing commands all
      write into one of them or into the current folder, makes each parent before
      writing into it; `writer` and `maker` differ in a word, so no folder-making
      command is also a writing one. */
  lemma FoldersLead(writer: Command, maker: Command, folders: seq<string>, rest: seq<Command>)
    requires exists i | 0 <= i < |writer| && i < |maker| :: writer[i] != maker[i]
    requires forall c | c in rest && writer <= c :: Dirname(Output(c)) == "" || Dirname(Output(c)) in folders
    ensures ParentsFirst(MakeFolders(maker, folders) + rest, writer, maker)
  {
    var mk := MakeFolders(maker, folders);
    var plan := mk + rest;
    var n := |folders|;
    var d :| 0 <= d < |writer| && d < |maker| && writer[d] != maker[d];
    forall k | 0 <= k < n ensures !(writer <= plan[k]) {
      assert plan[k][d] == maker[d];
    }
    forall k | 0 <= k < |plan| && writer <= plan[k]
      ensures Dirname(Output(plan[k])) == "" || maker + [Dirname(Output(plan[k]))] in plan[..k]
    {
      if k < n {
        assert false;
      }
      assert plan[k] == rest[k - n];
      var parent := Dirname(Output(plan[k]));
      if parent != "" {
        var j :| 0 <= j < n && folders[j] == parent;
        assert plan[..k][j] == plan[j] == maker + [parent];
      }
    }
  }

  /** Conversely, a plan that makes some folders and then writes into a folder that
      is neither the current one nor among them does not make parents first. */
  lemma UnmadeFolderBreaksOrder(writer: Command, maker: Command, folders: seq<string>, rest: seq<Command>)
    requires rest != [] && writer <= rest[0]
    requires Dirname(Output(rest[0])) != "" && Dirname(Output(rest[0])) !in folders
    ensures !ParentsFirst(MakeFolders(maker, folders) + rest, writer, maker)
  {
    var mk := MakeFolders(maker, folders);
    var plan := mk + rest;
    var k := |mk|;
    var parent := Dirname(Output(rest[0]));
    assert plan[k] == rest[0] && plan[..k] == mk;
    forall j | 0 <= j < k ensures plan[..k][j] != maker + [parent] {
      assert mk[j][|maker|] == folders[j];
    }
  }

  /** Made from distinct folders, and followed by no other command of the same
      kind, every folder-making command of the plan is made once. */
  lemma FoldersMadeOnce(maker: Command, folders: seq<string>, rest: seq<Command>)
    requires Distinct(folders)
    requires forall c | c in rest :: !(maker <= c)
    ensures var plan := MakeFolders(maker, folders) + rest;
      forall i, j | 0 <= i < j < |plan| && maker <= plan[i] :: plan[i] != plan[j]
  {
    var mk := MakeFolders(maker, folders);
    var plan := mk + rest;
    var n := |folders|;
    forall i, j | 0 <= i < j < |plan| && maker <= plan[i] ensures plan[i] != plan[j] {
      if j < n {
        assert plan[i][|maker|] == folders[i] && plan[j][|maker|] == folders[j];
      } else {
        assert plan[j] in rest;
      }
    }
  }

  /** How running a plan ended. */
  datatype Outcome =
    /** dry run: every command is shown, in plan order, and none is run */
    | DryRun(shown: seq<Command>)
    /** every command ran and exited with status 0 */
    | Completed(ran: seq<Command>)
    /** the commands in `ran` succeeded, then `failing` exited non-zero and the
        rest of the plan was abandoned */
    | Failed(ran: seq<Command>, failing: Command)

  /** `execute_cmds_ex`: in a dry run show every command; otherwise run the commands
      in order and stop at the first one whose exit status is not 0. `exitCode(k, c)`
      is the status the `k`-th run reports for command `c`. */
  method ExecuteCommands(plan: seq<Command>, dryRun: bool, exitCode: (nat, Command) -> int) returns (o: Outcome)
    ensures dryRun ==> o == DryRun(plan)
    ensures !dryRun ==> !o.DryRun?
    ensures o.Completed? <==> !dryRun && forall k | 0 <= k < |plan| :: exitCode(k, plan[k]) == 0
    ensures o.Completed? ==> o.ran == plan
    ensures o.Failed? ==> |o.ran| < |plan| && o.ran == plan[..|o.ran|] && o.failing == plan[|o.ran|]
    ensures o.Failed? ==> exitCode(|o.ran|, o.failing) != 0
    ensures o.Failed? ==> forall k | 0 <= k < |o.ran| :: exitCode(k, plan[k]) == 0
  {
    if dryRun {
      return DryRun(plan);
    }
    var i := 0;
    while i < |plan|
      invariant 0 <= i <= |plan|
      invariant forall k | 0 <= k < i :: exitCode(k, plan[k]) == 0
    {
      if exitCode(i, plan[i]) != 0 {
        return Failed(plan[..i], plan[i]);
      }
      i := i + 1;
    }
    return Completed(plan);
  }
}
