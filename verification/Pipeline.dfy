/** A program over a workspace (workspace.go, evaluate) and its commit (run.go):
    what the workspace shows is what ends up on disk, or the disk is as it was. */
module Pipeline {
  import opened Wrappers
  import opened Changes
  import opened Workspace
  import Transaction

  // Failures of target resolution are collected; any other failure ends the program.
  predicate IndependentlyDetectable(reason: Reason) {
    reason.Target?
  }

  // ---- A program run ----------------------------------------------------------------------

  /** A run: each command so far led from one state of the workspace to the next. */
  ghost predicate Ran(workspace: PendingWorkspace, trace: seq<Session>, commands: seq<Command>,
                      outcomes: seq<Option<Reason>>) {
    && |trace| == |outcomes| + 1 && |outcomes| <= |commands| && SessionOk(workspace.disk, trace[0])
    && forall i :: 0 <= i < |outcomes| ==> RanAt(workspace, trace, commands, outcomes, i)
  }

  ghost predicate RanAt(workspace: PendingWorkspace, trace: seq<Session>, commands: seq<Command>,
                        outcomes: seq<Option<Reason>>, i: nat)
    requires i < |outcomes| <= |commands| && |trace| == |outcomes| + 1
  {
    && SessionOk(workspace.disk, trace[i]) && SessionOk(workspace.disk, trace[i + 1])
    && workspace.Executes(trace[i], commands[i], outcomes[i], trace[i + 1])
  }

  // The failures met, in order.
  function Failures(outcomes: seq<Option<Reason>>): seq<Reason> {
    if outcomes == [] then [] else
    var last := outcomes[|outcomes| - 1];
    Failures(outcomes[..|outcomes| - 1]) + if last.Some? then [last.value] else []
  }

  // A failure that ends the program at once: any but that of a target.
  predicate IsFatal(outcome: Option<Reason>) {
    outcome.Some? && outcome.value != Reason.Target
  }

  predicate Harmless(outcomes: seq<Option<Reason>>) {
    forall i :: 0 <= i < |outcomes| ==> !IsFatal(outcomes[i])
  }

  predicate Succeeded(outcomes: seq<Option<Reason>>) {
    forall i :: 0 <= i < |outcomes| ==> outcomes[i].None?
  }

  lemma {:induction false} FailuresMeans(outcomes: seq<Option<Reason>>)
    ensures Failures(outcomes) == [] <==> Succeeded(outcomes)
    ensures |Failures(outcomes)| <= |outcomes|
    ensures forall reason :: reason in Failures(outcomes) <==> Some(reason) in outcomes
  {
    if outcomes != [] {
      var rest, last := outcomes[..|outcomes| - 1], outcomes[|outcomes| - 1];
      FailuresMeans(rest);
      assert outcomes == rest + [last];
    }
  }

  lemma RanLonger(workspace: PendingWorkspace, trace: seq<Session>, commands: seq<Command>,
                  outcomes: seq<Option<Reason>>, next: Session, outcome: Option<Reason>)
    requires Ran(workspace, trace, commands, outcomes) && |outcomes| < |commands|
    requires SessionOk(workspace.disk, trace[|outcomes|]) && SessionOk(workspace.disk, next)
    requires workspace.Executes(trace[|outcomes|], commands[|outcomes|], outcome, next)
    ensures Ran(workspace, trace + [next], commands, outcomes + [outcome])
  {
    forall i | 0 <= i <= |outcomes| ensures RanAt(workspace, trace + [next], commands, outcomes + [outcome], i) {
      assert i < |outcomes| ==> RanAt(workspace, trace, commands, outcomes, i);
    }
  }

  predicate Names(command: Command, path: Path) {
    (command.In? || command.New? || command.Move?) && command.path == path
  }

  predicate AwayFrom(s: Session, path: Path) {
    forall i :: 0 <= i < |s.files| ==> s.files[i].path != path
  }

  // The path is no file's, and shows what is on disk.
  ghost predicate Stays(workspace: PendingWorkspace, s: Session, path: Path) {
    SessionOk(workspace.disk, s) && AwayFrom(s, path)
    && ShownIn(workspace.disk, s, path) == Get(workspace.disk.files, path)
  }

  lemma StaysAtFirst(workspace: PendingWorkspace, s: Session, path: Path)
    requires s == Session(map[], {}, {}, [], None, None, 0) && SessionOk(workspace.disk, s)
    ensures Stays(workspace, s, path)
  {
  }

  // A command leaves the files alone, adds one at the path it names, or changes the active one.
  lemma FilesFollow(workspace: PendingWorkspace, before: Session, command: Command, failure: Option<Reason>,
                    after: Session)
    requires SessionOk(workspace.disk, before) && SessionOk(workspace.disk, after)
    requires workspace.Executes(before, command, failure, after)
    ensures || after.files == before.files
            || Adds(before, command, after)
            || Alters(before, command, after)
  {
  }

  predicate Adds(before: Session, command: Command, after: Session) {
    var n := |before.files|;
    |after.files| == n + 1 && after.files == before.files + [after.files[n]] && Names(command, after.files[n].path)
  }

  predicate Alters(before: Session, command: Command, after: Session) {
    && before.active.Some? && before.active.value < |before.files| == |after.files|
    && var i := before.active.value;
       && after.files == before.files[i := after.files[i]]
       && (after.files[i].path == before.files[i].path || Names(command, after.files[i].path))
  }

  lemma FilesStayAway(workspace: PendingWorkspace, before: Session, command: Command, failure: Option<Reason>,
                      after: Session, path: Path)
    requires SessionOk(workspace.disk, before) && SessionOk(workspace.disk, after)
    requires workspace.Executes(before, command, failure, after)
    requires AwayFrom(before, path) && !Names(command, path)
    ensures AwayFrom(after, path)
  {
    FilesFollow(workspace, before, command, failure, after);
  }

  lemma ShownStays(workspace: PendingWorkspace, before: Session, command: Command, failure: Option<Reason>,
                   after: Session, path: Path)
    requires SessionOk(workspace.disk, before) && SessionOk(workspace.disk, after)
    requires workspace.Executes(before, command, failure, after)
    requires AwayFrom(before, path) && !Names(command, path)
    ensures ShownIn(workspace.disk, after, path) == ShownIn(workspace.disk, before, path)
  {
  }

  lemma StaysAtStep(workspace: PendingWorkspace, before: Session, command: Command, failure: Option<Reason>,
                    after: Session, path: Path)
    requires Stays(workspace, before, path) && SessionOk(workspace.disk, after) && !Names(command, path)
    requires workspace.Executes(before, command, failure, after)
    ensures Stays(workspace, after, path)
  {
    FilesStayAway(workspace, before, command, failure, after, path);
    ShownStays(workspace, before, command, failure, after, path);
  }

  lemma StaysAlong(workspace: PendingWorkspace, trace: seq<Session>, commands: seq<Command>,
                   outcomes: seq<Option<Reason>>, i: nat, path: Path)
    requires Ran(workspace, trace, commands, outcomes) && i < |outcomes| && !Names(commands[i], path)
    requires Stays(workspace, trace[i], path)
    ensures Stays(workspace, trace[i + 1], path)
  {
    assert RanAt(workspace, trace, commands, outcomes, i);
    StaysAtStep(workspace, trace[i], commands[i], outcomes[i], trace[i + 1], path);
  }

  /** A program shows, and so commits, the disk as it is at every path that none of its
      commands names. */
  lemma UnnamedPathsStay(workspace: PendingWorkspace, trace: seq<Session>, commands: seq<Command>,
                         outcomes: seq<Option<Reason>>, path: Path)
    requires Ran(workspace, trace, commands, outcomes)
    requires trace[0] == Session(map[], {}, {}, [], None, None, 0)
    requires forall k :: 0 <= k < |outcomes| ==> !Names(commands[k], path)
    ensures forall i :: 0 <= i < |trace| ==> Stays(workspace, trace[i], path)
  {
    StaysAtFirst(workspace, trace[0], path);
    for i := 0 to |outcomes|
      invariant forall k :: 0 <= k <= i ==> Stays(workspace, trace[k], path)
    {
      StaysAlong(workspace, trace, commands, outcomes, i, path);
    }
  }

  // One more command.
  method Advance(workspace: PendingWorkspace, commands: seq<Command>, k: nat, ghost trace: seq<Session>,
                 ghost outcomes: seq<Option<Reason>>)
      returns (failure: Option<Reason>, ghost longer: seq<Session>, ghost met: seq<Option<Reason>>)
    requires workspace.Valid() && Ran(workspace, trace, commands, outcomes)
    requires |outcomes| == k < |commands| && trace[k] == workspace.Now()
    modifies workspace
    ensures workspace.Valid() && Ran(workspace, longer, commands, met)
    ensures met == outcomes + [failure] && longer[0] == trace[0] && longer[k + 1] == workspace.Now()
  {
    failure := workspace.Execute(commands[k]);
    RanLonger(workspace, trace, commands, outcomes, workspace.Now(), failure);
    longer, met := trace + [workspace.Now()], outcomes + [failure];
  }

  /** evaluate: the commands are executed one after the other, up to the first failure
      that is not one of target resolution. The result is Ok exactly when every command
      succeeded, and is then what separates the disk from the last state; otherwise it
      lists the failures met, or only the one that ended the program. */
  method Evaluate(workspace: PendingWorkspace, commands: seq<Command>)
      returns (result: Result<seq<Change>, seq<Reason>>, ghost trace: seq<Session>, ghost outcomes: seq<Option<Reason>>)
    requires workspace.Valid()
    modifies workspace
    ensures workspace.Valid() && Ran(workspace, trace, commands, outcomes)
    ensures trace[0] == old(workspace.Now()) && trace[|outcomes|] == workspace.Now()
    ensures outcomes != [] ==> Harmless(outcomes[..|outcomes| - 1])
    ensures |outcomes| < |commands| ==> outcomes != [] && IsFatal(outcomes[|outcomes| - 1])
    ensures result.Ok? <==> |outcomes| == |commands| && Succeeded(outcomes)
    ensures result.Err? ==>
      result.error == if Harmless(outcomes) then Failures(outcomes) else [outcomes[|outcomes| - 1].value]
    ensures result.Ok? ==> Installable(result.value, workspace.disk.files)
    ensures result.Ok? ==> forall path :: Get(Applied(result.value, workspace.disk.files), path) == workspace.At(path)
  {
    var failures: seq<Reason> := [];
    trace, outcomes := [workspace.Now()], [];
    for k := 0 to |commands|
      invariant workspace.Valid() && |outcomes| == k && Ran(workspace, trace, commands, outcomes)
      invariant trace[0] == old(workspace.Now()) && trace[k] == workspace.Now()
      invariant Harmless(outcomes) && failures == Failures(outcomes)
    {
      ghost var before := outcomes;
      var failure;
      failure, trace, outcomes := Advance(workspace, commands, k, trace, outcomes);
      assert outcomes[..k] == before;
      if failure.Some? {
        failures := failures + [failure.value];
        if !IndependentlyDetectable(failure.value) {
          assert IsFatal(outcomes[k]);
          return Err([failure.value]), trace, outcomes;
        }
      }
    }
    FailuresMeans(outcomes);
    if failures != [] {
      return Err(failures), trace, outcomes;
    }
    var changes := workspace.FinalChanges();
    result := Ok(changes);
  }

  /** Commit of the pending files onto the disk they were read from. The outcome says
      what failed, if anything. When nothing did, the disk becomes what the workspace
      shows; when only a backup could not be dropped, it does but for such spare copies;
      otherwise no file is lost, and none has moved when staging failed. */
  method CommitWorkspace(workspace: PendingWorkspace, taken: set<Path>)
      returns (outcome: Transaction.Outcome, transaction: Transaction.FileTransaction)
    requires workspace.Valid() && workspace.disk.files.Keys <= taken
    requires forall i :: 0 <= i < |workspace.files| ==>
      workspace.files[i].path in taken && workspace.files[i].originalPath in taken
    ensures fresh(transaction) && transaction.initial == workspace.disk.files
    ensures outcome == Transaction.OutcomeOf(transaction.record)
    ensures outcome.Committed? ==> forall path :: Get(transaction.tree, path) == workspace.At(path)
    ensures outcome == Transaction.StagingFailed(true) || outcome == Transaction.CommitFailed(true) ==>
      transaction.tree == workspace.disk.files
    ensures outcome.StagingFailed? ==>
      forall path :: path in workspace.disk.files ==> Get(transaction.tree, path) == Get(workspace.disk.files, path)
    ensures outcome.CommitFailed? ==> Transaction.NothingLost(transaction.tree, workspace.disk.files)
    ensures outcome.BackupCleanupFailed? ==>
      forall path ::
        || Get(transaction.tree, path) == workspace.At(path)
        || Transaction.SpareCopy(transaction.tree, workspace.disk.files, path)
    ensures !outcome.TempCleanupFailed?
  {
    var changes := workspace.FinalChanges();
    forall i, path | 0 <= i < |changes| && Touches(changes[i], path) ensures path in taken {
      var k := ChangeHasFile(workspace.files, i);
    }
    transaction := new Transaction.FileTransaction(changes, workspace.disk.files, taken);
    outcome := transaction.Commit();
  }
}
