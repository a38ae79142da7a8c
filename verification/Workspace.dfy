/** The pending workspace (workspace.go): commands select, create, move, remove
    and edit files over a disk that does not change, and the result is a change
    list for the transaction. A file pointer is a position in `files`. */
module Workspace {
  import opened Wrappers
  import opened Changes
  import opened Edits
  import Editor
  import PendingText
  import Targets

  // Regular files, and everything else that occupies a path.
  datatype Disk = Disk(files: Tree, others: set<Path>)

  predicate Occupied(disk: Disk, path: Path) {
    path in disk.files || path in disk.others
  }

  datatype FileState = FileState(
    originalPath: Path,
    path: Path,
    original: string,
    mode: nat,
    created: bool,
    deleted: bool,
    baseline: string,
    edits: seq<Edit>)

  datatype Reason =
    | ActiveFile | FileMissing | FileConflict | PathReason | Initialization | EditConflict | Target | Unreadable

  predicate IsLive(files: seq<FileState>, i: nat) {
    i < |files| && !files[i].deleted
  }

  function Content(file: FileState): string
    requires Compatible(file.edits, |file.baseline|)
  {
    Render(file.baseline, file.edits)
  }

  function FileMode(file: FileState): nat {
    if file.created then NEW_FILE_MODE else file.mode
  }

  // ---- The invariant ------------------------------------------------------------

  ghost predicate FileOk(file: FileState, disk: Disk, blocked: set<Path>) {
    && Recorded(file.edits, |file.baseline|)
    && (if file.created then file.baseline == ""
        else
          && file.originalPath in disk.files && disk.files[file.originalPath] == File(file.original, file.mode)
          && file.baseline == file.original
          && (file.deleted || file.path != file.originalPath ==> file.originalPath in blocked)
          && (file.deleted ==> file.edits == []))
    && (!file.deleted && (file.created || file.path != file.originalPath) ==> !Occupied(disk, file.path))
  }

  // A blocked path that is on disk is the original of a moved or removed file.
  ghost predicate BlockedOk(files: seq<FileState>, disk: Disk, path: Path) {
    path in disk.files ==>
      exists i :: 0 <= i < |files| && !files[i].created && files[i].originalPath == path
        && (files[i].deleted || files[i].path != path)
  }

  ghost predicate Inv(disk: Disk, paths: map<Path, nat>, blocked: set<Path>, files: seq<FileState>) {
    && (forall i :: 0 <= i < |files| ==> FileOk(files[i], disk, blocked))
    && (forall path :: path in paths ==>
        IsLive(files, paths[path]) && files[paths[path]].path == path && path !in blocked)
    && (forall i: nat :: IsLive(files, i) ==> files[i].path in paths && paths[files[i].path] == i)
    && (forall i, j :: 0 <= i < j < |files| && !files[i].created && !files[j].created ==>
          files[i].originalPath != files[j].originalPath)
    && (forall path :: path in blocked ==> BlockedOk(files, disk, path))
  }

  lemma OriginalIsKnown(disk: Disk, paths: map<Path, nat>, blocked: set<Path>, files: seq<FileState>, i: nat)
    requires Inv(disk, paths, blocked, files) && i < |files| && !files[i].created
    ensures files[i].originalPath in paths || files[i].originalPath in blocked
    ensures files[i].originalPath in paths ==> paths[files[i].originalPath] == i
  {
    assert FileOk(files[i], disk, blocked);
    if files[i].originalPath in paths {
      assert IsLive(files, i) && files[i].path == files[i].originalPath;
    } else {
      assert IsLive(files, i) ==> files[i].path in paths;
    }
  }

  // ---- What the workspace shows at a path ------------------------------------------

  ghost function View(disk: Disk, paths: map<Path, nat>, blocked: set<Path>, files: seq<FileState>,
                      path: Path): Option<File>
    requires Inv(disk, paths, blocked, files)
  {
    if path in paths then
      var file := files[paths[path]];
      assert FileOk(file, disk, blocked);
      Some(Shown(file))
    else if path in blocked then None
    else Get(disk.files, path)
  }

  function Shown(file: FileState): File
    requires Compatible(file.edits, |file.baseline|)
  {
    File(Content(file), FileMode(file))
  }

  // ---- The change list ---------------------------------------------------------------

  function ChangeOf(file: FileState): Option<Change>
    requires Compatible(file.edits, |file.baseline|)
  {
    if file.created && file.deleted then None
    else if file.created then Some(Add(file.path, Content(file)))
    else if file.deleted then Some(Delete(file.originalPath, file.original, file.mode))
    else if file.originalPath != file.path || file.original != Content(file) then
      Some(Update(file.originalPath, file.path, file.original, Content(file), file.mode))
    else None
  }

  ghost predicate AllCompatible(files: seq<FileState>) {
    forall i :: 0 <= i < |files| ==> Compatible(files[i].edits, |files[i].baseline|)
  }

  function ChangesOf(files: seq<FileState>): seq<Change>
    requires AllCompatible(files)
  {
    if files == [] then [] else
    var change := ChangeOf(files[|files| - 1]);
    ChangesOf(files[..|files| - 1]) + if change.Some? then [change.value] else []
  }

  lemma {:induction false} ChangeHasFile(files: seq<FileState>, k: nat) returns (i: nat)
    requires AllCompatible(files) && k < |ChangesOf(files)|
    ensures i < |files| && ChangeOf(files[i]) == Some(ChangesOf(files)[k])
  {
    var rest := files[..|files| - 1];
    if k < |ChangesOf(rest)| {
      i := ChangeHasFile(rest, k);
    } else {
      i := |files| - 1;
    }
  }

  lemma {:induction false} FileHasChange(files: seq<FileState>, i: nat) returns (k: nat)
    requires AllCompatible(files) && i < |files| && ChangeOf(files[i]).Some?
    ensures k < |ChangesOf(files)| && ChangesOf(files)[k] == ChangeOf(files[i]).value
  {
    if i == |files| - 1 {
      k := |ChangesOf(files)| - 1;
    } else {
      k := FileHasChange(files[..|files| - 1], i);
    }
  }

  lemma InvIsCompatible(disk: Disk, paths: map<Path, nat>, blocked: set<Path>, files: seq<FileState>)
    requires Inv(disk, paths, blocked, files)
    ensures AllCompatible(files)
  {
    forall i | 0 <= i < |files| ensures Compatible(files[i].edits, |files[i].baseline|) {
      assert FileOk(files[i], disk, blocked);
      RecordedIsCompatible(files[i].edits, |files[i].baseline|);
    }
  }

  lemma FilesAreIndependent(disk: Disk, paths: map<Path, nat>, blocked: set<Path>, files: seq<FileState>, i: nat,
                            j: nat)
    requires Inv(disk, paths, blocked, files) && i < |files| && j < |files| && i != j && AllCompatible(files)
    requires ChangeOf(files[i]).Some? && ChangeOf(files[j]).Some?
    ensures Independent(ChangeOf(files[i]).value, ChangeOf(files[j]).value)
  {
    assert FileOk(files[i], disk, blocked) && FileOk(files[j], disk, blocked);
    if !files[i].created {
      OriginalIsKnown(disk, paths, blocked, files, i);
    }
    if !files[j].created {
      OriginalIsKnown(disk, paths, blocked, files, j);
    }
    assert IsLive(files, i) ==> files[i].path in paths;
    assert IsLive(files, j) ==> files[j].path in paths;
  }

  lemma {:induction false} ChangesPairwise(disk: Disk, paths: map<Path, nat>, blocked: set<Path>,
                                           files: seq<FileState>, n: nat, k: nat, l: nat)
    requires Inv(disk, paths, blocked, files) && AllCompatible(files) && n <= |files|
    requires k < l < |ChangesOf(files[..n])|
    ensures Independent(ChangesOf(files[..n])[k], ChangesOf(files[..n])[l])
    decreases n
  {
    var part, rest := files[..n], files[..n - 1];
    assert part[..n - 1] == rest;
    if l < |ChangesOf(rest)| {
      ChangesPairwise(disk, paths, blocked, files, n - 1, k, l);
    } else {
      var i := ChangeHasFile(rest, k);
      FilesAreIndependent(disk, paths, blocked, files, i, n - 1);
    }
  }

  /** The change list is exactly what the transaction asks for. */
  lemma ChangesAreInstallable(disk: Disk, paths: map<Path, nat>, blocked: set<Path>, files: seq<FileState>)
    requires Inv(disk, paths, blocked, files)
    ensures AllCompatible(files) && Installable(ChangesOf(files), disk.files)
  {
    InvIsCompatible(disk, paths, blocked, files);
    var changes := ChangesOf(files);
    forall k | 0 <= k < |changes| ensures Fits(changes[k], disk.files) {
      var i := ChangeHasFile(files, k);
      assert FileOk(files[i], disk, blocked);
    }
    forall k, l | 0 <= k < l < |changes| ensures Independent(changes[k], changes[l]) {
      assert files[..|files|] == files;
      ChangesPairwise(disk, paths, blocked, files, |files|, k, l);
    }
  }

  lemma TouchedPath(disk: Disk, paths: map<Path, nat>, blocked: set<Path>, files: seq<FileState>, i: nat, path: Path)
    requires Inv(disk, paths, blocked, files) && AllCompatible(files) && i < |files|
    requires ChangeOf(files[i]).Some? && Touches(ChangeOf(files[i]).value, path)
    ensures AfterChange(ChangeOf(files[i]).value, path) == View(disk, paths, blocked, files, path)
  {
    assert FileOk(files[i], disk, blocked);
    if !files[i].created {
      OriginalIsKnown(disk, paths, blocked, files, i);
    }
    if IsLive(files, i) && files[i].path == path {
      assert paths[path] == i;
    }
  }

  lemma UntouchedPath(disk: Disk, paths: map<Path, nat>, blocked: set<Path>, files: seq<FileState>, path: Path)
    requires Inv(disk, paths, blocked, files) && AllCompatible(files)
    requires forall i :: 0 <= i < |files| && ChangeOf(files[i]).Some? ==> !Touches(ChangeOf(files[i]).value, path)
    ensures Get(disk.files, path) == View(disk, paths, blocked, files, path)
  {
    if path in paths {
      var i := paths[path];
      assert FileOk(files[i], disk, blocked) && ChangeOf(files[i]).None?;
    } else if path in blocked && path in disk.files {
      assert BlockedOk(files, disk, path);
      BlockedIsTouched(disk, files, path);
    }
  }

  // A blocked path that is on disk is touched by a change.
  lemma BlockedIsTouched(disk: Disk, files: seq<FileState>, path: Path)
    requires BlockedOk(files, disk, path) && path in disk.files && AllCompatible(files)
    ensures exists i :: 0 <= i < |files| && ChangeOf(files[i]).Some? && Touches(ChangeOf(files[i]).value, path)
  {
    var i :| 0 <= i < |files| && !files[i].created && files[i].originalPath == path
            && (files[i].deleted || files[i].path != path);
    assert Touches(ChangeOf(files[i]).value, path);
  }

  /** Applying the change list to the disk gives, at every path, what the
      workspace shows there. */
  lemma AppliedIsView(disk: Disk, paths: map<Path, nat>, blocked: set<Path>, files: seq<FileState>, path: Path)
    requires Inv(disk, paths, blocked, files)
    ensures AllCompatible(files)
    ensures Get(Applied(ChangesOf(files), disk.files), path) == View(disk, paths, blocked, files, path)
  {
    ChangesAreInstallable(disk, paths, blocked, files);
    var changes := ChangesOf(files);
    if exists k :: 0 <= k < |changes| && Touches(changes[k], path) {
      var k :| 0 <= k < |changes| && Touches(changes[k], path);
      AppliedAt(changes, disk.files, path, k);
      var i := ChangeHasFile(files, k);
      TouchedPath(disk, paths, blocked, files, i, path);
    } else {
      AppliedAt(changes, disk.files, path, |changes|);
      forall i | 0 <= i < |files| && ChangeOf(files[i]).Some? ensures !Touches(ChangeOf(files[i]).value, path) {
        var k := FileHasChange(files, i);
      }
      UntouchedPath(disk, paths, blocked, files, path);
    }
  }

  // ---- Steps ---------------------------------------------------------------------------

  lemma ReplaceBlocked(disk: Disk, files: seq<FileState>, i: nat, edits: seq<Edit>, path: Path)
    requires BlockedOk(files, disk, path) && i < |files|
    ensures BlockedOk(files[i := files[i].(edits := edits)], disk, path)
  {
    var updated := files[i := files[i].(edits := edits)];
    if path in disk.files {
      var k :| 0 <= k < |files| && !files[k].created && files[k].originalPath == path
            && (files[k].deleted || files[k].path != path);
      assert !updated[k].created && updated[k].originalPath == path;
    }
  }

  lemma ReplaceFile(disk: Disk, blocked: set<Path>, files: seq<FileState>, i: nat, edits: seq<Edit>, j: nat)
    requires IsLive(files, i) && Recorded(edits, |files[i].baseline|)
    requires j < |files| && FileOk(files[j], disk, blocked)
    ensures FileOk(files[i := files[i].(edits := edits)][j], disk, blocked)
  {
  }

  lemma ReplaceKeeps(disk: Disk, paths: map<Path, nat>, blocked: set<Path>, files: seq<FileState>, i: nat,
                     edits: seq<Edit>)
    requires Inv(disk, paths, blocked, files) && IsLive(files, i) && Recorded(edits, |files[i].baseline|)
    ensures Inv(disk, paths, blocked, files[i := files[i].(edits := edits)])
  {
    var updated := files[i := files[i].(edits := edits)];
    forall j | 0 <= j < |updated| ensures FileOk(updated[j], disk, blocked) {
      ReplaceFile(disk, blocked, files, i, edits, j);
    }
    forall path | path in blocked ensures BlockedOk(updated, disk, path) {
      ReplaceBlocked(disk, files, i, edits, path);
    }
    forall j: nat ensures IsLive(updated, j) <==> IsLive(files, j) {
    }
  }

  lemma AppendViews(disk: Disk, paths: map<Path, nat>, blocked: set<Path>, files: seq<FileState>, file: FileState)
    requires Inv(disk, paths, blocked, files)
    requires Inv(disk, paths[file.path := |files|], blocked, files + [file]) && Compatible(file.edits, |file.baseline|)
    ensures forall other ::
      View(disk, paths[file.path := |files|], blocked, files + [file], other)
      == if other == file.path then Some(Shown(file)) else View(disk, paths, blocked, files, other)
  {
    var grown := files + [file];
    forall other ensures View(disk, paths[file.path := |files|], blocked, grown, other)
      == if other == file.path then Some(Shown(file)) else View(disk, paths, blocked, files, other)
    {
      if other == file.path {
        assert grown[|files|] == file;
      } else if other in paths {
        assert IsLive(files, paths[other]) && grown[paths[other]] == files[paths[other]];
      }
    }
  }

  lemma AppendKeeps(disk: Disk, paths: map<Path, nat>, blocked: set<Path>, files: seq<FileState>, file: FileState)
    requires Inv(disk, paths, blocked, files) && FileOk(file, disk, blocked) && !file.deleted
    requires file.path !in paths && file.path !in blocked
    requires !file.created ==> file.path == file.originalPath
    ensures Inv(disk, paths[file.path := |files|], blocked, files + [file])
  {
    var grown := files + [file];
    forall j | 0 <= j < |files| && !files[j].created && !file.created
      ensures files[j].originalPath != file.originalPath
    {
      OriginalIsKnown(disk, paths, blocked, files, j);
    }
    forall j | 0 <= j < |grown| ensures FileOk(grown[j], disk, blocked) {
      assert j < |files| ==> FileOk(files[j], disk, blocked);
    }
    forall j: nat | IsLive(grown, j)
      ensures grown[j].path in paths[file.path := |files|] && paths[file.path := |files|][grown[j].path] == j
    {
      assert j < |files| ==> IsLive(files, j);
    }
    var paths' := paths[file.path := |files|];
    forall path | path in paths' ensures IsLive(grown, paths'[path]) && grown[paths'[path]].path == path {
      assert path in paths ==> IsLive(files, paths[path]);
    }
    BlockedGrows(disk, files, grown, blocked);
  }

  lemma BlockedGrows(disk: Disk, files: seq<FileState>, grown: seq<FileState>, blocked: set<Path>)
    requires files <= grown && forall path :: path in blocked ==> BlockedOk(files, disk, path)
    ensures forall path :: path in blocked ==> BlockedOk(grown, disk, path)
  {
    forall path | path in blocked ensures BlockedOk(grown, disk, path) {
      assert BlockedOk(files, disk, path);
      if path in disk.files {
        var i :| 0 <= i < |files| && !files[i].created && files[i].originalPath == path
            && (files[i].deleted || files[i].path != path);
        assert grown[i] == files[i];
      }
    }
  }

  // The file at `i` may leave its path, either for a free path or for good.
  ghost predicate MayLeave(disk: Disk, paths: map<Path, nat>, blocked: set<Path>, files: seq<FileState>, i: nat,
                           left: FileState) {
    && IsLive(files, i) && left == files[i].(path := left.path, deleted := left.deleted)
    && (left.deleted ==> left.path == files[i].path && (!left.created ==> left.edits == []))
    && (!left.deleted ==> left.path !in paths && left.path !in blocked && !Occupied(disk, left.path))
  }

  function PathsAfter(paths: map<Path, nat>, i: nat, from: Path, left: FileState): map<Path, nat> {
    if left.deleted then paths - {from} else (paths - {from})[left.path := i]
  }

  lemma LeftPaths(disk: Disk, paths: map<Path, nat>, blocked: set<Path>, files: seq<FileState>, i: nat, left: FileState)
    requires Inv(disk, paths, blocked, files) && MayLeave(disk, paths, blocked, files, i, left)
    ensures var paths' := PathsAfter(paths, i, files[i].path, left);
      var updated := files[i := left];
      && (forall path :: path in paths' ==>
            IsLive(updated, paths'[path]) && updated[paths'[path]].path == path && path !in blocked + {files[i].path})
      && (forall j: nat :: IsLive(updated, j) ==> updated[j].path in paths' && paths'[updated[j].path] == j)
  {
    var updated, paths' := files[i := left], PathsAfter(paths, i, files[i].path, left);
    forall j: nat | IsLive(updated, j) ensures updated[j].path in paths' && paths'[updated[j].path] == j {
      assert IsLive(files, j);
    }
    forall path | path in paths'
      ensures IsLive(updated, paths'[path]) && updated[paths'[path]].path == path && path !in blocked + {files[i].path}
    {
      assert path != left.path || left.deleted ==> path in paths;
    }
  }

  lemma LeaveKeeps(disk: Disk, paths: map<Path, nat>, blocked: set<Path>, files: seq<FileState>, i: nat,
                   left: FileState)
    requires Inv(disk, paths, blocked, files) && MayLeave(disk, paths, blocked, files, i, left)
    ensures Inv(disk, PathsAfter(paths, i, files[i].path, left), blocked + {files[i].path}, files[i := left])
  {
    var updated, from := files[i := left], files[i].path;
    LeftPaths(disk, paths, blocked, files, i, left);
    forall j | 0 <= j < |files| ensures FileOk(updated[j], disk, blocked + {from}) {
      LeftFile(disk, paths, blocked, files, i, left, j);
    }
    forall path | path in blocked + {from} ensures BlockedOk(updated, disk, path) {
      LeftBlocked(disk, paths, blocked, files, i, left, path);
    }
  }

  lemma LeftFile(disk: Disk, paths: map<Path, nat>, blocked: set<Path>, files: seq<FileState>, i: nat, left: FileState,
                 j: nat)
    requires Inv(disk, paths, blocked, files) && MayLeave(disk, paths, blocked, files, i, left) && j < |files|
    ensures FileOk(files[i := left][j], disk, blocked + {files[i].path})
  {
    assert FileOk(files[j], disk, blocked);
  }

  lemma LeftBlocked(disk: Disk, paths: map<Path, nat>, blocked: set<Path>, files: seq<FileState>, i: nat,
                    left: FileState, path: Path)
    requires Inv(disk, paths, blocked, files) && MayLeave(disk, paths, blocked, files, i, left)
    requires path in blocked + {files[i].path}
    ensures BlockedOk(files[i := left], disk, path)
  {
    if path != files[i].path {
      BlockedElsewhere(disk, blocked, files, files[i := left], i, path);
    } else {
      LeftIsBlocked(disk, paths, blocked, files, i, left);
    }
  }

  // The path that the file leaves is gone for good reason.
  lemma LeftIsBlocked(disk: Disk, paths: map<Path, nat>, blocked: set<Path>, files: seq<FileState>, i: nat,
                      left: FileState)
    requires Inv(disk, paths, blocked, files) && MayLeave(disk, paths, blocked, files, i, left)
    ensures BlockedOk(files[i := left], disk, files[i].path)
  {
    var updated := files[i := left];
    assert FileOk(files[i], disk, blocked);
    if files[i].path in disk.files {
      assert !updated[i].created && updated[i].originalPath == files[i].path;
    }
  }

  // What a path shows after a file has left its path.
  ghost predicate LeftAt(disk: Disk, paths: map<Path, nat>, blocked: set<Path>, files: seq<FileState>, i: nat,
                         left: FileState, other: Path)
    requires Inv(disk, paths, blocked, files) && MayLeave(disk, paths, blocked, files, i, left)
    requires Inv(disk, PathsAfter(paths, i, files[i].path, left), blocked + {files[i].path}, files[i := left])
  {
    View(disk, PathsAfter(paths, i, files[i].path, left), blocked + {files[i].path}, files[i := left], other)
    == if other == files[i].path then None
       else if !left.deleted && other == left.path then View(disk, paths, blocked, files, files[i].path)
       else View(disk, paths, blocked, files, other)
  }

  lemma LeaveView(disk: Disk, paths: map<Path, nat>, blocked: set<Path>, files: seq<FileState>, i: nat,
                  left: FileState, other: Path)
    requires Inv(disk, paths, blocked, files) && MayLeave(disk, paths, blocked, files, i, left)
    requires Inv(disk, PathsAfter(paths, i, files[i].path, left), blocked + {files[i].path}, files[i := left])
    ensures LeftAt(disk, paths, blocked, files, i, left, other)
  {
    assert FileOk(files[i], disk, blocked) && IsLive(files, i);
    if other in paths && other != files[i].path {
      OtherStays(disk, paths, blocked, files, i, other);
    }
  }

  lemma OtherStays(disk: Disk, paths: map<Path, nat>, blocked: set<Path>, files: seq<FileState>, i: nat, other: Path)
    requires Inv(disk, paths, blocked, files) && IsLive(files, i) && other in paths && other != files[i].path
    ensures paths[other] < |files| && paths[other] != i
  {
    assert IsLive(files, paths[other]);
  }

  lemma BlockedElsewhere(disk: Disk, blocked: set<Path>, files: seq<FileState>, updated: seq<FileState>, i: nat,
                         path: Path)
    requires i < |files| && path != files[i].path && BlockedOk(files, disk, path)
    requires |updated| == |files| && forall j :: 0 <= j < |files| && j != i ==> updated[j] == files[j]
    requires updated[i] == files[i].(path := updated[i].path, deleted := updated[i].deleted)
    requires updated[i].deleted || !Occupied(disk, updated[i].path)
    ensures BlockedOk(updated, disk, path)
  {
    if path in disk.files {
      var j :| 0 <= j < |files| && !files[j].created && files[j].originalPath == path
          && (files[j].deleted || files[j].path != path);
      assert !updated[j].created && updated[j].originalPath == path && (updated[j].deleted || updated[j].path != path);
    }
  }

  // ---- The workspace object ----------------------------------------------------------------

  datatype Command =
    | In(path: Path)
    | New(path: Path)
    | Move(path: Path)
    | Remove
    | Initialize(text: string, command: nat)
    | Mutate(operation: Targets.Operation, target: Targets.Target, value: string, command: nat)

  /** Recording a mutation: rejected exactly when a changing edit conflicts with a
      recorded one; otherwise the text shows the image of each changed span replaced. */
  ghost predicate Records(file: FileState, spans: seq<Targets.TargetSpan>, operation: Targets.Operation, value: string,
                          command: nat, edits: Option<seq<Edit>>)
    requires Targets.Inside(spans, |file.baseline|)
  {
    var candidates := Targets.EditsFor(file.baseline, spans, value, operation, command);
    && Editor.AllPlaced(candidates, |file.baseline|)
    && var kept := Editor.Kept(file.baseline, candidates);
       var batch := Editor.Numbered(kept, |file.edits| + 1);
       && (edits.Some? <==> Editor.ConflictFree(file.edits + kept))
       && (edits.Some? ==> edits.value == file.edits + batch && Recorded(edits.value, |file.baseline|))
       && (edits.Some? ==> PendingText.BatchShows(file.baseline, file.edits, batch))
  }

  // The state of a workspace between two commands; `calls` counts the calls to the disk.
  datatype Session = Session(
    paths: map<Path, nat>,
    blocked: set<Path>,
    reserved: set<Path>,
    files: seq<FileState>,
    active: Option<nat>,
    initializable: Option<nat>,
    calls: nat)

  ghost predicate SessionOk(disk: Disk, s: Session) {
    && Inv(disk, s.paths, s.blocked, s.files) && s.blocked == s.reserved
    && (s.active.Some? ==> IsLive(s.files, s.active.value))
    && (s.initializable.Some? ==>
        s.initializable == s.active && s.files[s.active.value].created && s.files[s.active.value].edits == [])
  }

  ghost function ShownIn(disk: Disk, s: Session, path: Path): Option<File>
    requires SessionOk(disk, s)
  {
    View(disk, s.paths, s.blocked, s.files, path)
  }

  function Current(s: Session): FileState
    requires s.active.Some? && s.active.value < |s.files|
  {
    s.files[s.active.value]
  }

  function Loaded(path: Path, file: File): FileState {
    FileState(path, path, file.content, file.mode, false, false, file.content, [])
  }

  function Created(path: Path): FileState {
    FileState("", path, "", 0, true, false, "", [])
  }

  /** Only the path `at` shows something else. */
  ghost predicate ShowsAt(disk: Disk, before: Session, after: Session, at: Path, shown: Option<File>)
    requires SessionOk(disk, before) && SessionOk(disk, after)
  {
    forall path :: ShownIn(disk, after, path) == if path == at then shown else ShownIn(disk, before, path)
  }

  ghost predicate SameShown(disk: Disk, before: Session, after: Session)
    requires SessionOk(disk, before) && SessionOk(disk, after)
  {
    forall path :: ShownIn(disk, after, path) == ShownIn(disk, before, path)
  }

  /** What one path showed is shown at another, and nothing is left. */
  ghost predicate ShowsMoved(disk: Disk, before: Session, after: Session, from: Path, to: Path)
    requires SessionOk(disk, before) && SessionOk(disk, after)
  {
    forall path :: ShownIn(disk, after, path)
      == if path == to then ShownIn(disk, before, from) else if path == from then None
         else ShownIn(disk, before, path)
  }

  lemma AppendedIsShown(disk: Disk, before: Session, after: Session, file: FileState)
    requires SessionOk(disk, before) && before.initializable.None?
    requires FileOk(file, disk, before.blocked) && !file.deleted
    requires file.path !in before.paths && file.path !in before.blocked
    requires !file.created ==> file.path == file.originalPath
    requires after == before.(paths := before.paths[file.path := |before.files|], files := before.files + [file],
                              active := Some(|before.files|))
    ensures SessionOk(disk, after) && Compatible(file.edits, |file.baseline|)
    ensures ShowsAt(disk, before, after, file.path, Some(Shown(file)))
  {
    RecordedIsCompatible(file.edits, |file.baseline|);
    AppendKeeps(disk, before.paths, before.blocked, before.files, file);
    AppendViews(disk, before.paths, before.blocked, before.files, file);
  }

  // Loading a file shows what the disk shows.
  lemma LoadedIsSame(disk: Disk, before: Session, between: Session, after: Session, path: Path)
    requires SessionOk(disk, before) && SessionOk(disk, between) && SessionOk(disk, after)
    requires between == before.(calls := between.calls)
    requires path !in before.paths && path !in before.blocked && path in disk.files
    requires Compatible([], |disk.files[path].content|)
    requires Render(disk.files[path].content, []) == disk.files[path].content
    requires ShowsAt(disk, between, after, path, Some(Shown(Loaded(path, disk.files[path]))))
    ensures SameShown(disk, before, after)
  {
    forall other ensures ShownIn(disk, after, other) == ShownIn(disk, before, other) {
      assert ShownIn(disk, between, other) == ShownIn(disk, before, other);
    }
  }

  lemma CreatedIsShown(disk: Disk, before: Session, between: Session, appended: Session, after: Session, path: Path)
    requires SessionOk(disk, before) && SessionOk(disk, between)
    requires SessionOk(disk, appended) && SessionOk(disk, after)
    requires between == before.(calls := between.calls) && after == appended.(initializable := after.initializable)
    requires ShowsAt(disk, between, appended, path, Some(File("", NEW_FILE_MODE)))
    ensures ShowsAt(disk, before, after, path, Some(File("", NEW_FILE_MODE)))
  {
    forall other ensures ShownIn(disk, after, other)
      == if other == path then Some(File("", NEW_FILE_MODE)) else ShownIn(disk, before, other)
    {
      assert ShownIn(disk, appended, other) == ShownIn(disk, after, other);
      assert ShownIn(disk, between, other) == ShownIn(disk, before, other);
    }
  }

  // What the paths show when the active file has left its path.
  ghost function LeftShown(disk: Disk, before: Session, left: FileState, path: Path): Option<File>
    requires SessionOk(disk, before) && before.active.Some?
  {
    var from := Current(before).path;
    if path == from then None
    else if !left.deleted && path == left.path then ShownIn(disk, before, from)
    else ShownIn(disk, before, path)
  }

  ghost predicate ShowsLeft(disk: Disk, before: Session, after: Session, left: FileState)
    requires SessionOk(disk, before) && SessionOk(disk, after) && before.active.Some?
  {
    forall path :: ShownIn(disk, after, path) == LeftShown(disk, before, left, path)
  }

  lemma LeftIsMoved(disk: Disk, before: Session, between: Session, after: Session, left: FileState)
    requires SessionOk(disk, before) && SessionOk(disk, between) && SessionOk(disk, after) && before.active.Some?
    requires between == before.(calls := between.calls) && !left.deleted && left.path != Current(before).path
    requires ShowsLeft(disk, between, after, left)
    ensures ShowsMoved(disk, before, after, Current(before).path, left.path)
  {
    forall path ensures ShownIn(disk, after, path)
      == if path == left.path then ShownIn(disk, before, Current(before).path)
         else if path == Current(before).path then None else ShownIn(disk, before, path)
    {
      assert ShownIn(disk, after, path) == LeftShown(disk, between, left, path);
    }
  }

  lemma LeftIsRemoved(disk: Disk, before: Session, between: Session, after: Session, left: FileState)
    requires SessionOk(disk, before) && SessionOk(disk, between) && SessionOk(disk, after) && before.active.Some?
    requires ShowsLeft(disk, before, between, left) && left.deleted
    requires after == between.(blocked := after.blocked, reserved := after.reserved)
    requires after.blocked == between.blocked
    ensures ShowsAt(disk, before, after, Current(before).path, None)
  {
    forall path ensures ShownIn(disk, after, path)
      == if path == Current(before).path then None else ShownIn(disk, before, path)
    {
      assert ShownIn(disk, between, path) == LeftShown(disk, before, left, path);
    }
  }

  /** Nothing shown, given up earlier, or on disk is at the path. */
  ghost predicate Free(disk: Disk, s: Session, path: Path)
    requires SessionOk(disk, s)
  {
    ShownIn(disk, s, path).None? && path !in s.reserved && !Occupied(disk, path)
  }

  // The paths that were given up stay the same.
  predicate KeepsGivenUp(before: Session, after: Session) {
    after.blocked == before.blocked && after.reserved == before.reserved
  }

  predicate GivesUp(before: Session, after: Session, path: Path) {
    after.reserved == before.reserved + {path}
  }

  class PendingWorkspace {
    const disk: Disk
    const directories: set<Path>
    const parentOf: Path -> Path
    const hash: string -> string
    const fails: nat -> bool              // which calls to the disk fail
    var calls: nat
    var paths: map<Path, nat>
    var blocked: set<Path>
    var reserved: set<Path>
    var files: seq<FileState>
    var active: Option<nat>
    var initializable: Option<nat>

    ghost predicate Valid()
      reads this
    {
      SessionOk(disk, Now())
    }

    ghost function Now(): Session
      reads this
    {
      Session(paths, blocked, reserved, files, active, initializable, calls)
    }

    /** The file that the workspace shows at a path. */
    ghost function At(path: Path): Option<File>
      requires Valid()
      reads this
    {
      View(disk, paths, blocked, files, path)
    }

    constructor (disk: Disk, directories: set<Path>, parentOf: Path -> Path, hash: string -> string,
                 fails: nat -> bool)
      ensures Valid() && Now() == Session(map[], {}, {}, [], None, None, 0)
      ensures this.disk == disk && this.directories == directories && this.parentOf == parentOf
      ensures this.hash == hash && this.fails == fails
      ensures forall path :: At(path) == Get(disk.files, path)
    {
      this.disk, this.directories, this.parentOf, this.hash, this.fails := disk, directories, parentOf, hash, fails;
      paths, blocked, reserved, files, active, initializable, calls := map[], {}, {}, [], None, None, 0;
    }

    // ---- What each command does ------------------------------------------------------------

    // No call to the disk failed from one state to the other.
    ghost predicate Quiet(before: Session, after: Session) {
      forall k :: before.calls <= k < after.calls ==> !fails(k)
    }

    /** A destination is refused exactly when its directory is missing or it is not free. */
    ghost predicate ChecksFree(before: Session, path: Path, failure: Option<Reason>, after: Session)
      requires SessionOk(disk, before)
    {
      if !Quiet(before, after) then failure == Some(Unreadable)
      else if parentOf(path) !in directories then failure == Some(PathReason)
      else if Free(disk, before, path) then failure.None?
      else failure == Some(FileConflict)
    }

    /** in PATH finds exactly what the workspace shows, and changes nothing that it shows. */
    ghost predicate Selects(before: Session, path: Path, failure: Option<Reason>, after: Session)
      requires SessionOk(disk, before) && SessionOk(disk, after)
    {
      && (if !Quiet(before, after) then failure == Some(Unreadable)
          else if ShownIn(disk, before, path).Some? then failure.None?
          else failure == Some(if path !in before.blocked && Occupied(disk, path) then Unreadable else FileMissing))
      && (failure.None? ==>
          && SameShown(disk, before, after) && KeepsGivenUp(before, after)
          && after.active.Some? && Current(after).path == path && after.initializable.None?
          && (if path in before.paths then after.files == before.files
              else path in disk.files && after.files == before.files + [Loaded(path, disk.files[path])]))
    }

    ghost predicate Creates(before: Session, path: Path, failure: Option<Reason>, after: Session)
      requires SessionOk(disk, before) && SessionOk(disk, after)
    {
      && ChecksFree(before, path, failure, after)
      && (failure.None? ==>
          && ShowsAt(disk, before, after, path, Some(File("", NEW_FILE_MODE))) && KeepsGivenUp(before, after)
          && after.active == Some(|before.files|) && after.initializable == after.active
          && after.files == before.files + [Created(path)])
    }

    ghost predicate Moves(before: Session, path: Path, failure: Option<Reason>, after: Session)
      requires SessionOk(disk, before) && SessionOk(disk, after)
    {
      if before.active.None? then failure == Some(ActiveFile)
      else
        && ChecksFree(before, path, failure, after)
        && (failure.None? ==>
            && ShowsMoved(disk, before, after, Current(before).path, path)
            && GivesUp(before, after, Current(before).path)
            && after.active == before.active && after.initializable.None?
            && after.files == before.files[before.active.value := Current(before).(path := path)])
    }

    ghost predicate Removes(before: Session, failure: Option<Reason>, after: Session)
      requires SessionOk(disk, before) && SessionOk(disk, after)
    {
      if before.active.None? then failure == Some(ActiveFile)
      else if !Current(before).created && Current(before).edits != [] then failure == Some(EditConflict)
      else
        && failure.None? && ShowsAt(disk, before, after, Current(before).path, None)
        && GivesUp(before, after, Current(before).path) && after.active.None? && after.initializable.None?
        && after.files == before.files[before.active.value := Current(before).(deleted := true)]
    }

    // Only the edits of the active file change.
    ghost predicate EditsCurrent(before: Session, after: Session)
      requires SessionOk(disk, before) && SessionOk(disk, after) && before.active.Some?
    {
      && KeepsGivenUp(before, after) && after.active == before.active && after.initializable.None?
      && ShowsAt(disk, before, after, Current(before).path, ShownIn(disk, after, Current(before).path))
      && after.files == before.files[before.active.value := Current(before).(edits := Current(after).edits)]
    }

    /** A bare type succeeds exactly right after new, and the file then has that content. */
    ghost predicate Initializes(before: Session, text: string, failure: Option<Reason>, after: Session)
      requires SessionOk(disk, before) && SessionOk(disk, after)
    {
      if before.active.None? then failure == Some(ActiveFile)
      else if before.initializable.None? then failure == Some(Initialization)
      else
        && failure.None? && EditsCurrent(before, after)
        && ShownIn(disk, after, Current(before).path) == Some(File(text, NEW_FILE_MODE))
    }

    ghost predicate MutatesActive(before: Session, operation: Targets.Operation, target: Targets.Target,
                                  value: string, command: nat, failure: Option<Reason>, after: Session)
      requires SessionOk(disk, before) && SessionOk(disk, after)
    {
      if before.active.None? then failure == Some(ActiveFile)
      else if Current(before).created then failure == Some(Initialization)
      else
        && FileOk(Current(before), disk, before.blocked) && after.active == before.active
        && before.active.value < |after.files|
        && Mutates(Current(before), Current(after), operation, target, value, command, failure)
        && (failure.None? ==> EditsCurrent(before, after))
    }

    /** What one command does: its effect when it succeeds, and nothing when it fails. */
    ghost predicate Executes(before: Session, command: Command, failure: Option<Reason>, after: Session)
      requires SessionOk(disk, before) && SessionOk(disk, after)
    {
      && (failure.Some? ==> after == before.(initializable := None, calls := after.calls))
      && match command
         case In(path) => Selects(before, path, failure, after)
         case New(path) => Creates(before, path, failure, after)
         case Move(path) => Moves(before, path, failure, after)
         case Remove => Removes(before, failure, after)
         case Initialize(text, _) => Initializes(before, text, failure, after)
         case Mutate(operation, target, value, index) =>
           MutatesActive(before, operation, target, value, index, failure, after)
    }

    // ---- The commands ------------------------------------------------------------------------

    // One call to the disk.
    method Call() returns (failed: bool)
      modifies this`calls
      ensures calls == old(calls) + 1 && failed == fails(old(calls))
    {
      failed := fails(calls);
      calls := calls + 1;
    }

    /** validateFreeDestination: nothing pending, reserved or on disk is at the path. */
    method ValidateFreeDestination(path: Path) returns (failure: Option<Reason>)
      requires Valid()
      modifies this`calls
      ensures Valid() && Now() == old(Now()).(calls := calls) && ChecksFree(old(Now()), path, failure, Now())
      ensures failure.None? ==> path !in paths && path !in blocked && !Occupied(disk, path)
    {
      var parentProbeFails := Call();
      if parentProbeFails {
        return Some(Unreadable);
      }
      if parentOf(path) !in directories {
        return Some(PathReason);
      }
      if path in paths || path in reserved {
        return Some(FileConflict);
      }
      if path in blocked {
        return None;
      }
      var probeFails := Call();
      if probeFails {
        return Some(Unreadable);
      }
      failure := if Occupied(disk, path) then Some(FileConflict) else None;
    }

    /** in PATH: loading a file changes nothing that the workspace shows. */
    method SelectFile(path: Path) returns (failure: Option<Reason>)
      requires Valid() && initializable.None?
      modifies this
      ensures Valid() && Selects(old(Now()), path, failure, Now())
      ensures failure.Some? ==> Now() == old(Now()).(calls := calls)
    {
      ghost var before := Now();
      if path in paths {
        active := Some(paths[path]);
        return None;
      }
      if path in blocked {
        return Some(FileMissing);
      }
      var loadFails := Call();
      if loadFails {
        return Some(Unreadable);
      }
      if path !in disk.files {
        return Some(if path in disk.others then Unreadable else FileMissing);
      }
      RenderNothing(disk.files[path].content);
      ghost var between := Now();
      Append(Loaded(path, disk.files[path]));
      LoadedIsSame(disk, before, between, Now(), path);
      failure := None;
    }

    method Append(file: FileState)
      requires Valid() && initializable.None? && FileOk(file, disk, blocked) && !file.deleted
      requires file.path !in paths && file.path !in blocked && (!file.created ==> file.path == file.originalPath)
      modifies this`paths, this`files, this`active
      ensures Valid() && files == old(files) + [file] && active == Some(|old(files)|)
      ensures ShowsAt(disk, old(Now()), Now(), file.path, Some(Shown(file)))
    {
      ghost var before := Now();
      paths := paths[file.path := |files|];
      files := files + [file];
      active := Some(|files| - 1);
      AppendedIsShown(disk, before, Now(), file);
    }

    /** new PATH */
    method NewFile(path: Path) returns (failure: Option<Reason>)
      requires Valid() && initializable.None?
      modifies this
      ensures Valid() && Creates(old(Now()), path, failure, Now())
      ensures failure.Some? ==> Now() == old(Now()).(calls := calls)
    {
      ghost var before := Now();
      failure := ValidateFreeDestination(path);
      if failure.None? {
        ghost var between := Now();
        AppendNew(path);
        ghost var appended := Now();
        initializable := active;
        CreatedIsShown(disk, before, between, appended, Now(), path);
      }
    }

    method AppendNew(path: Path)
      requires Valid() && initializable.None? && path !in paths && path !in blocked && path !in disk.files
      requires path !in disk.others
      modifies this`paths, this`files, this`active
      ensures Valid() && active == Some(|old(files)|) && files == old(files) + [Created(path)]
      ensures ShowsAt(disk, old(Now()), Now(), path, Some(File("", NEW_FILE_MODE)))
    {
      RenderNothing("");
      assert Shown(Created(path)) == File("", NEW_FILE_MODE);
      Append(Created(path));
    }

    method Leave(left: FileState)
      requires Valid() && initializable.None? && active.Some?
      requires MayLeave(disk, paths, blocked, files, active.value, left)
      modifies this`paths, this`blocked, this`reserved, this`files, this`active
      ensures Valid() && active == if left.deleted then None else old(active)
      ensures files == old(files)[old(active).value := left]
      ensures blocked == old(blocked) + {old(files[active.value].path)}
      ensures ShowsLeft(disk, old(Now()), Now(), left)
    {
      var i, from := active.value, files[active.value].path;
      LeaveKeeps(disk, paths, blocked, files, i, left);
      ghost var p, b, f := paths, blocked, files;
      paths := PathsAfter(paths, i, from, left);
      blocked := blocked + {from};
      reserved := reserved + {from};
      files := files[i := left];
      if left.deleted {
        active := None;
      }
      forall other ensures ShownIn(disk, Now(), other) == LeftShown(disk, old(Now()), left, other) {
        LeaveView(disk, p, b, f, i, left, other);
      }
    }

    /** mv PATH: the active file appears at the new path and nothing is left at the old one. */
    method MoveFile(path: Path) returns (failure: Option<Reason>)
      requires Valid() && initializable.None?
      modifies this
      ensures Valid() && Moves(old(Now()), path, failure, Now())
      ensures failure.Some? ==> Now() == old(Now()).(calls := calls)
    {
      if active.None? {
        return Some(ActiveFile);
      }
      ghost var before := Now();
      failure := ValidateFreeDestination(path);
      if failure.None? {
        ghost var between := Now();
        var left := files[active.value].(path := path);
        Leave(left);
        LeftIsMoved(disk, before, between, Now(), left);
      }
    }

    /** rm: nothing is left at the active path, and no file is active. */
    method RemoveFile() returns (failure: Option<Reason>)
      requires Valid() && initializable.None?
      modifies this`paths, this`blocked, this`reserved, this`files, this`active
      ensures Valid() && Removes(old(Now()), failure, Now())
      ensures failure.Some? ==> Now() == old(Now())
    {
      if active.None? {
        return Some(ActiveFile);
      }
      var file := files[active.value];
      if !file.created && file.edits != [] {
        return Some(EditConflict);
      }
      OriginalBlocked(disk, paths, blocked, files, active.value);
      ghost var before := Now();
      Leave(file.(deleted := true));
      ghost var between := Now();
      if !file.created {
        assert blocked + {file.originalPath} == blocked;
        blocked := blocked + {file.originalPath};
      }
      LeftIsRemoved(disk, before, between, Now(), file.(deleted := true));
      failure := None;
    }

    method SetEdits(edits: seq<Edit>)
      requires Valid() && initializable.None? && active.Some? && Recorded(edits, |files[active.value].baseline|)
      modifies this`files
      ensures Valid() && EditsCurrent(old(Now()), Now())
      ensures files[active.value] == old(files[active.value]).(edits := edits)
      ensures Compatible(edits, |files[active.value].baseline|)
      ensures ShownIn(disk, Now(), files[active.value].path) == Some(Shown(files[active.value]))
    {
      ghost var before := Now();
      ReplaceKeeps(disk, paths, blocked, files, active.value, edits);
      RecordedIsCompatible(edits, |files[active.value].baseline|);
      files := files[active.value := files[active.value].(edits := edits)];
    }

    /** type VALUE right after new: the new file has that content. */
    method InitializeFile(text: string, command: nat) returns (failure: Option<Reason>)
      requires Valid()
      modifies this`files, this`initializable
      ensures Valid() && Initializes(old(Now()), text, failure, Now())
      ensures failure.Some? ==> Now() == old(Now()).(initializable := None)
    {
      if active.None? {
        return Some(ActiveFile);
      }
      if initializable != active || !files[active.value].created {
        initializable := None;
        return Some(Initialization);
      }
      initializable := None;
      assert FileOk(files[active.value], disk, blocked);
      if text == "" {
        RenderNothing("");
        SetEdits([]);
      } else {
        Editor.SingleInsertion(text, Edit(0, 0, text, 1, command));
        SetEdits([Edit(0, 0, text, 1, command)]);
      }
      failure := None;
    }

    /** What a mutation does to the active file. */
    ghost predicate Mutates(before: FileState, after: FileState, operation: Targets.Operation, target: Targets.Target,
                            value: string, command: nat, failure: Option<Reason>)
      requires Compatible(before.edits, |before.baseline|)
    {
      var spans := Resolved(before, target);
      && (failure == Some(Target) <==> spans.Err?)
      && (failure == Some(EditConflict) <==> spans.Ok? && failure.Some?)
      && (spans.Ok? ==>
            && Targets.Inside(spans.value, |before.baseline|)
            && Records(before, spans.value, operation, value, command,
                       if failure.None? then Some(after.edits) else None))
      && after == before.(edits := after.edits)
    }

    // The spans that a target stands for in a file.
    ghost function Resolved(file: FileState,
                            target: Targets.Target): Result<seq<Targets.TargetSpan>, Targets.TargetError>
      requires Compatible(file.edits, |file.baseline|)
    {
      Targets.Resolution(hash, file.baseline, file.edits, target)
    }

    method ResolveTarget(file: FileState, target: Targets.Target)
        returns (spans: Result<seq<Targets.TargetSpan>, Targets.TargetError>)
      requires Recorded(file.edits, |file.baseline|)
      ensures Compatible(file.edits, |file.baseline|) && spans == Resolved(file, target)
      ensures spans.Ok? ==> Targets.Inside(spans.value, |file.baseline|) && Targets.SideBySide(spans.value)
    {
      RecordedIsCompatible(file.edits, |file.baseline|);
      var editor := new Editor.BaselineEditor.Pending(hash, file.baseline, file.edits);
      spans := Targets.ResolveTarget(editor, target);
      if spans.Ok? {
        Targets.ResolvedSpans(hash, file.baseline, file.edits, target);
      }
    }

    /** applyMutation: type or add with a target. It fails when the target does not
        resolve or when an edit conflicts with a recorded one; otherwise the file shows
        its text with the image of every span replaced, and nothing else changes. */
    method MutateFile(operation: Targets.Operation, target: Targets.Target, value: string, command: nat)
        returns (failure: Option<Reason>)
      requires Valid() && initializable.None?
      modifies this`files
      ensures Valid() && MutatesActive(old(Now()), operation, target, value, command, failure, Now())
      ensures failure.Some? ==> Now() == old(Now())
    {
      if active.None? {
        return Some(ActiveFile);
      }
      if files[active.value].created {
        return Some(Initialization);
      }
      failure := MutateCurrent(operation, target, value, command);
    }

    method MutateCurrent(operation: Targets.Operation, target: Targets.Target, value: string, command: nat)
        returns (failure: Option<Reason>)
      requires Valid() && initializable.None? && active.Some? && !files[active.value].created
      modifies this`files
      ensures Valid() && Compatible(old(files[active.value].edits), |old(files[active.value].baseline)|)
      ensures Mutates(old(files[active.value]), files[active.value], operation, target, value, command, failure)
      ensures failure.Some? ==> Now() == old(Now())
      ensures failure.None? ==> EditsCurrent(old(Now()), Now())
    {
      var file := files[active.value];
      assert FileOk(file, disk, blocked);
      var spans := ResolveTarget(file, target);
      if spans.Err? {
        return Some(Target);
      }
      var edits := RecordMutation(file, spans.value, operation, value, command);
      if edits.None? {
        return Some(EditConflict);
      }
      SetEdits(edits.value);
      failure := None;
    }

    // recordEdits on the edits of a mutation.
    method RecordMutation(file: FileState, spans: seq<Targets.TargetSpan>, operation: Targets.Operation, value: string,
                          command: nat)
        returns (edits: Option<seq<Edit>>)
      requires Recorded(file.edits, |file.baseline|)
      requires Targets.Inside(spans, |file.baseline|) && Targets.SideBySide(spans)
      ensures Records(file, spans, operation, value, command, edits)
    {
      var candidates := Targets.EditsFor(file.baseline, spans, value, operation, command);
      Targets.MutationAgrees(file.baseline, spans, value, operation, command);
      Editor.AcceptedIff(file.baseline, file.edits, candidates);
      Editor.RecordKeeps(file.baseline, file.edits, candidates);
      edits := Editor.Record(file.baseline, file.edits, candidates);
      if edits.Some? {
        Targets.MutationShows(file.baseline, file.edits, spans, value, operation, command);
      }
    }

    /** execute */
    method Execute(command: Command) returns (failure: Option<Reason>)
      requires Valid()
      modifies this
      ensures Valid() && Executes(old(Now()), command, failure, Now())
    {
      ghost var before := Now();
      if command.Initialize? {
        failure := InitializeFile(command.text, command.command);
      } else {
        initializable := None;
        ghost var between := Now();
        failure := Dispatch(command);
        Forgets(before, between, command, failure, Now());
      }
    }

    method Dispatch(command: Command) returns (failure: Option<Reason>)
      requires Valid() && initializable.None? && !command.Initialize?
      modifies this
      ensures Valid() && Executes(old(Now()), command, failure, Now())
    {
      match command
      case In(path) => failure := SelectFile(path);
      case New(path) => failure := NewFile(path);
      case Move(path) => failure := MoveFile(path);
      case Remove => failure := RemoveFile();
      case Mutate(operation, target, value, command) => failure := MutateFile(operation, target, value, command);
      case Initialize(_, _) =>
    }

    // Only a bare type asks whether new came right before it.
    lemma Forgets(before: Session, between: Session, command: Command, failure: Option<Reason>, after: Session)
      requires SessionOk(disk, before) && SessionOk(disk, between) && SessionOk(disk, after)
      requires between == before.(initializable := None) && !command.Initialize?
      requires Executes(between, command, failure, after)
      ensures Executes(before, command, failure, after)
    {
    }

    /** changes: a list the transaction accepts, whose application shows, at every
        path, what the workspace shows. */
    method FinalChanges() returns (changes: seq<Change>)
      requires Valid()
      ensures AllCompatible(files) && changes == ChangesOf(files) && Installable(changes, disk.files)
      ensures forall path :: Get(Applied(changes, disk.files), path) == At(path)
    {
      InvIsCompatible(disk, paths, blocked, files);
      changes := [];
      for k := 0 to |files|
        invariant changes == ChangesOf(files[..k])
      {
        assert files[..k + 1][..k] == files[..k];
        var change := ChangeOf(files[k]);
        if change.Some? {
          changes := changes + [change.value];
        }
      }
      assert files[..|files|] == files;
      ChangesAreInstallable(disk, paths, blocked, files);
      forall path ensures Get(Applied(changes, disk.files), path) == At(path) {
        AppliedIsView(disk, paths, blocked, files, path);
      }
    }
  }

  // Blocking the original of a removed file blocks nothing that is not reserved.
  lemma OriginalBlocked(disk: Disk, paths: map<Path, nat>, blocked: set<Path>, files: seq<FileState>, i: nat)
    requires Inv(disk, paths, blocked, files) && IsLive(files, i)
    ensures !files[i].created ==> files[i].originalPath in blocked + {files[i].path}
  {
    assert FileOk(files[i], disk, blocked);
  }
}
