/** The file transaction (transaction.go): stage outputs and backup names, move
    originals to their backups, install the outputs, drop the backups; on a
    failure roll back and clean up. Every rename, removal, temporary creation,
    close and write may fail. */
module Transaction {
  import opened Wrappers
  import opened Changes

  // A temporary name; `held` is false where the source stores the empty string.
  datatype Temp = Temp(name: Path, held: bool)

  datatype Staged = Staged(change: Change, outputTemp: Temp, backupPath: Temp, installed: bool, backedUp: bool)

  datatype Outcome =
    | Committed
    | StagingFailed(cleaned: bool)
    | CommitFailed(rolledBack: bool)
    | BackupCleanupFailed
    | TempCleanupFailed

  // ---- What one staged change owns, and what is there -------------------------

  predicate Claims(item: Staged, path: Path) {
    || Touches(item.change, path)
    || (GivesOutput(item.change) && path == item.outputTemp.name)
    || (TakesOriginal(item.change) && path == item.backupPath.name)
  }

  // Temporary names are new names.
  predicate NamesOk(item: Staged, initial: Tree) {
    && (TakesOriginal(item.change) ==>
          item.backupPath.name !in initial && !Touches(item.change, item.backupPath.name))
    && (GivesOutput(item.change) ==>
          item.outputTemp.name !in initial && !Touches(item.change, item.outputTemp.name))
    && (item.change.Update? ==> item.outputTemp.name != item.backupPath.name)
  }

  predicate OutputVisible(item: Staged) {
    GivesOutput(item.change) && item.installed && (InPlace(item.change) ==> item.backedUp)
  }

  function Expected(initial: Tree, item: Staged, path: Path): Option<File> {
    var c := item.change;
    if OutputVisible(item) && path == c.path then Some(Output(c))
    else if TakesOriginal(c) && path == c.originalPath then
      if item.backedUp then None else Get(initial, c.originalPath)
    else if TakesOriginal(c) && path == item.backupPath.name then
      if item.backedUp then Get(initial, c.originalPath) else None
    else if GivesOutput(c) && path == item.outputTemp.name then
      if item.outputTemp.held then Some(Output(c)) else None
    else None
  }

  ghost predicate ItemOk(tree: Tree, initial: Tree, item: Staged) {
    && NamesOk(item, initial) && Fits(item.change, initial)
    && forall path :: Claims(item, path) ==> Get(tree, path) == Expected(initial, item, path)
  }

  ghost predicate Disjoint(a: Staged, b: Staged) {
    forall path :: !(Claims(a, path) && Claims(b, path))
  }

  ghost predicate Unclaimed(items: seq<Staged>, path: Path) {
    forall i :: 0 <= i < |items| ==> !Claims(items[i], path)
  }

  /** The tree is exactly what the flags of the staged changes say. */
  ghost predicate Matches(items: seq<Staged>, tree: Tree, initial: Tree) {
    && (forall i :: 0 <= i < |items| ==> ItemOk(tree, initial, items[i]))
    && (forall i, j :: 0 <= i < j < |items| ==> Disjoint(items[i], items[j]))
    && (forall path :: Unclaimed(items, path) ==> Get(tree, path) == Get(initial, path))
  }

  predicate SameNames(a: Staged, b: Staged) {
    a.change == b.change && a.outputTemp.name == b.outputTemp.name && a.backupPath.name == b.backupPath.name
  }

  lemma Replace(items: seq<Staged>, i: nat, item: Staged, tree: Tree, next: Tree, initial: Tree)
    requires Matches(items, tree, initial) && i < |items| && SameNames(item, items[i])
    requires forall path :: !Claims(item, path) ==> Get(next, path) == Get(tree, path)
    requires ItemOk(next, initial, item)
    ensures Matches(items[i := item], next, initial)
  {
    var updated := items[i := item];
    assert forall path :: Claims(item, path) == Claims(items[i], path);
    forall a, b | 0 <= a < b < |items| ensures Disjoint(updated[a], updated[b]) {
      assert Disjoint(items[a], items[b]);
    }
    forall j | 0 <= j < |items| ensures ItemOk(next, initial, updated[j]) {
      assert ItemOk(tree, initial, items[j]);
      assert j < i ==> Disjoint(items[j], items[i]);
      assert i < j ==> Disjoint(items[i], items[j]);
    }
    forall path | Unclaimed(updated, path) ensures Get(next, path) == Get(initial, path) {
      assert updated[i] == item;
      assert Unclaimed(items, path) by {
        forall j | 0 <= j < |items| ensures !Claims(items[j], path) {
          assert !Claims(updated[j], path);
        }
      }
    }
  }

  // ---- Crash safety of one tree -----------------------------------------------

  predicate OriginalKept(item: Staged, tree: Tree, initial: Tree) {
    TakesOriginal(item.change) ==>
      || Get(tree, item.change.originalPath) == Get(initial, item.change.originalPath)
      || Get(tree, item.backupPath.name) == Get(initial, item.change.originalPath)
  }

  /** Every original's content is at its original path or at its backup path. */
  ghost predicate Recoverable(items: seq<Staged>, tree: Tree, initial: Tree) {
    forall i :: 0 <= i < |items| ==> OriginalKept(items[i], tree, initial)
  }

  lemma MatchesIsRecoverable(items: seq<Staged>, tree: Tree, initial: Tree)
    requires Matches(items, tree, initial)
    ensures Recoverable(items, tree, initial)
  {
    forall i | 0 <= i < |items| ensures OriginalKept(items[i], tree, initial) {
      assert ItemOk(tree, initial, items[i]);
      if TakesOriginal(items[i].change) {
        assert Claims(items[i], items[i].change.originalPath) && Claims(items[i], items[i].backupPath.name);
      }
    }
  }

  /** Every output is in place and every other original path is empty. */
  ghost predicate AllInstalled(items: seq<Staged>, tree: Tree) {
    forall i, path :: 0 <= i < |items| && Touches(items[i].change, path) ==>
      Get(tree, path) == AfterChange(items[i].change, path)
  }

  // ---- Single steps on the tree ------------------------------------------------

  function Renamed(tree: Tree, from: Path, to: Path): Tree
    requires from in tree
  {
    tree[to := tree[from]] - {from}
  }

  lemma BackUpStep(tree: Tree, initial: Tree, item: Staged)
    requires ItemOk(tree, initial, item) && TakesOriginal(item.change) && !item.backedUp && !item.installed
    ensures item.change.originalPath in tree && item.change.originalPath != item.backupPath.name
    ensures ItemOk(Renamed(tree, item.change.originalPath, item.backupPath.name), initial, item.(backedUp := true))
  {
    assert Claims(item, item.change.originalPath);
    var next := item.(backedUp := true);
    forall path | Claims(next, path)
      ensures Get(Renamed(tree, item.change.originalPath, item.backupPath.name), path) == Expected(initial, next, path)
    {
      assert Claims(item, path);
    }
  }

  lemma InstallStep(tree: Tree, initial: Tree, item: Staged)
    requires ItemOk(tree, initial, item) && GivesOutput(item.change) && item.outputTemp.held
    requires !item.installed && (TakesOriginal(item.change) ==> item.backedUp)
    ensures item.outputTemp.name in tree && item.outputTemp.name != item.change.path
    ensures ItemOk(Renamed(tree, item.outputTemp.name, item.change.path), initial,
                   item.(installed := true, outputTemp := item.outputTemp.(held := false)))
  {
    assert Claims(item, item.outputTemp.name);
    var next := item.(installed := true, outputTemp := item.outputTemp.(held := false));
    forall path | Claims(next, path)
      ensures Get(Renamed(tree, item.outputTemp.name, item.change.path), path) == Expected(initial, next, path)
    {
      assert Claims(item, path);
    }
  }

  lemma UninstallStep(tree: Tree, initial: Tree, item: Staged)
    requires ItemOk(tree, initial, item) && OutputVisible(item)
    ensures item.change.path in tree
    ensures ItemOk(tree - {item.change.path}, initial, item.(installed := false))
  {
    assert Claims(item, item.change.path);
    var next := item.(installed := false);
    forall path | Claims(next, path) ensures Get(tree - {item.change.path}, path) == Expected(initial, next, path) {
      assert Claims(item, path);
    }
  }

  lemma RestoreStep(tree: Tree, initial: Tree, item: Staged)
    requires ItemOk(tree, initial, item) && TakesOriginal(item.change) && item.backedUp
    ensures item.backupPath.name in tree && item.change.originalPath != item.backupPath.name
    ensures ItemOk(Renamed(tree, item.backupPath.name, item.change.originalPath), initial,
                   item.(backedUp := false, backupPath := item.backupPath.(held := false)))
  {
    assert Claims(item, item.backupPath.name);
    var next := item.(backedUp := false, backupPath := item.backupPath.(held := false));
    forall path | Claims(next, path)
      ensures Get(Renamed(tree, item.backupPath.name, item.change.originalPath), path) == Expected(initial, next, path)
    {
      assert Claims(item, path);
    }
  }

  // ---- Histories ---------------------------------------------------------------

  ghost predicate AllRecoverable(items: seq<Staged>, history: seq<Tree>, initial: Tree) {
    forall tree :: tree in history ==> Recoverable(items, tree, initial)
  }

  lemma StillRecoverable(items: seq<Staged>, i: nat, item: Staged, history: seq<Tree>, initial: Tree)
    requires i < |items| && SameNames(item, items[i]) && AllRecoverable(items, history, initial)
    ensures AllRecoverable(items[i := item], history, initial)
  {
    var updated := items[i := item];
    forall tree | tree in history ensures Recoverable(updated, tree, initial) {
      assert Recoverable(items, tree, initial);
      forall j | 0 <= j < |updated| ensures OriginalKept(updated[j], tree, initial) {
        assert OriginalKept(items[j], tree, initial);
      }
    }
  }

  // One successful step of item `i`.
  lemma Advance(items: seq<Staged>, i: nat, item: Staged, tree: Tree, next: Tree, initial: Tree, history: seq<Tree>)
    requires Matches(items, tree, initial) && AllRecoverable(items, history, initial)
    requires i < |items| && SameNames(item, items[i])
    requires forall path :: !Claims(item, path) ==> Get(next, path) == Get(tree, path)
    requires ItemOk(next, initial, item)
    ensures Matches(items[i := item], next, initial)
    ensures AllRecoverable(items[i := item], history + [next], initial)
  {
    Replace(items, i, item, tree, next, initial);
    MatchesIsRecoverable(items[i := item], next, initial);
    StillRecoverable(items, i, item, history, initial);
  }

  // A failed step leaves the tree as it was.
  lemma Stay(items: seq<Staged>, tree: Tree, initial: Tree, history: seq<Tree>)
    requires Matches(items, tree, initial) && AllRecoverable(items, history, initial)
    ensures AllRecoverable(items, history + [tree], initial)
  {
    MatchesIsRecoverable(items, tree, initial);
  }

  // ---- After the last install ----------------------------------------------------

  function ExpectedAfter(initial: Tree, item: Staged, path: Path): Option<File> {
    var c := item.change;
    if Touches(c, path) then AfterChange(c, path)
    else if TakesOriginal(c) && path == item.backupPath.name && item.backedUp then Get(initial, c.originalPath)
    else None
  }

  ghost predicate ItemDone(tree: Tree, initial: Tree, item: Staged) {
    && NamesOk(item, initial) && Fits(item.change, initial)
    && forall path :: Claims(item, path) ==> Get(tree, path) == ExpectedAfter(initial, item, path)
  }

  ghost predicate Installed(items: seq<Staged>, tree: Tree, initial: Tree) {
    && (forall i :: 0 <= i < |items| ==> ItemDone(tree, initial, items[i]))
    && (forall i, j :: 0 <= i < j < |items| ==> Disjoint(items[i], items[j]))
    && (forall path :: Unclaimed(items, path) ==> Get(tree, path) == Get(initial, path))
  }

  predicate FullyInstalled(item: Staged) {
    && (TakesOriginal(item.change) ==> item.backedUp)
    && (GivesOutput(item.change) ==> item.installed && !item.outputTemp.held)
  }

  lemma CommitPoint(items: seq<Staged>, tree: Tree, initial: Tree)
    requires Matches(items, tree, initial)
    requires forall i :: 0 <= i < |items| ==> FullyInstalled(items[i])
    ensures Installed(items, tree, initial)
  {
    forall i | 0 <= i < |items| ensures ItemDone(tree, initial, items[i]) {
      assert ItemOk(tree, initial, items[i]) && FullyInstalled(items[i]);
      forall path | Claims(items[i], path) ensures Get(tree, path) == ExpectedAfter(initial, items[i], path) {
        assert Get(tree, path) == Expected(initial, items[i], path);
      }
    }
  }

  lemma InstalledIsAllInstalled(items: seq<Staged>, tree: Tree, initial: Tree)
    requires Installed(items, tree, initial)
    ensures AllInstalled(items, tree)
  {
    forall i, path | 0 <= i < |items| && Touches(items[i].change, path)
      ensures Get(tree, path) == AfterChange(items[i].change, path)
    {
      assert ItemDone(tree, initial, items[i]) && Claims(items[i], path);
    }
  }

  lemma DropBackup(items: seq<Staged>, i: nat, tree: Tree, initial: Tree)
    requires Installed(items, tree, initial) && i < |items| && TakesOriginal(items[i].change)
    ensures Installed(items[i := Dropped(items[i])], tree - {items[i].backupPath.name}, initial)
  {
    var item, next, updated := Dropped(items[i]), tree - {items[i].backupPath.name}, items[i := Dropped(items[i])];
    assert forall path :: Claims(item, path) == Claims(items[i], path);
    assert ItemDone(tree, initial, items[i]) && Claims(items[i], items[i].backupPath.name);
    forall j | 0 <= j < |updated| ensures ItemDone(next, initial, updated[j]) {
      assert ItemDone(tree, initial, items[j]);
      assert j < i ==> Disjoint(items[j], items[i]);
      assert i < j ==> Disjoint(items[i], items[j]);
      forall path | Claims(updated[j], path) ensures Get(next, path) == ExpectedAfter(initial, updated[j], path) {
        assert Claims(items[j], path);
      }
    }
    forall a, b | 0 <= a < b < |items| ensures Disjoint(updated[a], updated[b]) {
      assert Disjoint(items[a], items[b]);
    }
    forall path | Unclaimed(updated, path) ensures Get(next, path) == Get(initial, path) {
      UnclaimedBefore(items, i, item, path);
    }
  }

  lemma BackupIsThere(items: seq<Staged>, i: nat, tree: Tree, initial: Tree)
    requires Installed(items, tree, initial) && i < |items|
    requires TakesOriginal(items[i].change) && items[i].backedUp
    ensures items[i].backupPath.name in tree
  {
    assert ItemDone(tree, initial, items[i]) && Claims(items[i], items[i].backupPath.name);
  }

  function Dropped(item: Staged): Staged {
    item.(backedUp := false, backupPath := item.backupPath.(held := false))
  }

  lemma UnclaimedBefore(items: seq<Staged>, i: nat, item: Staged, path: Path)
    requires i < |items| && SameNames(item, items[i]) && Unclaimed(items[i := item], path)
    ensures Unclaimed(items, path) && !Claims(items[i], path)
  {
    forall j | 0 <= j < |items| ensures !Claims(items[j], path) {
      assert !Claims(items[i := item][j], path);
    }
  }

  // A backup that could not be dropped still holds its original.
  ghost predicate Leftover(items: seq<Staged>, tree: Tree, initial: Tree, path: Path) {
    exists i :: 0 <= i < |items| && items[i].backedUp && TakesOriginal(items[i].change)
      && path == items[i].backupPath.name && Get(tree, path) == Get(initial, items[i].change.originalPath)
  }

  /** Once everything is installed, the tree is the intended one except for leftover backups. */
  lemma InstalledPath(items: seq<Staged>, changes: seq<Change>, tree: Tree, initial: Tree, path: Path)
    requires Installed(items, tree, initial) && Installable(changes, initial)
    requires |items| == |changes| && forall i :: 0 <= i < |items| ==> items[i].change == changes[i]
    ensures Get(tree, path) == Get(Applied(changes, initial), path) || Leftover(items, tree, initial, path)
  {
    if exists k :: 0 <= k < |changes| && Touches(changes[k], path) {
      var k :| 0 <= k < |changes| && Touches(changes[k], path);
      AppliedAt(changes, initial, path, k);
      assert ItemDone(tree, initial, items[k]) && Claims(items[k], path);
    } else {
      AppliedAt(changes, initial, path, |changes|);
      if !Unclaimed(items, path) {
        var k :| 0 <= k < |items| && Claims(items[k], path);
        assert ItemDone(tree, initial, items[k]) && !Touches(changes[k], path);
      }
    }
  }

  lemma FinalTree(items: seq<Staged>, changes: seq<Change>, tree: Tree, initial: Tree)
    requires Installed(items, tree, initial) && Installable(changes, initial)
    requires |items| == |changes| && forall i :: 0 <= i < |items| ==>
      items[i].change == changes[i] && !items[i].backedUp
    ensures tree == Applied(changes, initial)
  {
    forall path ensures Get(tree, path) == Get(Applied(changes, initial), path) {
      InstalledPath(items, changes, tree, initial, path);
    }
    SameTree(tree, Applied(changes, initial));
  }

  // ---- Staging and cleanup ---------------------------------------------------------

  predicate Pristine(item: Staged) {
    !item.installed && !item.backedUp
  }

  // The temporaries that cleanup is allowed to remove.
  predicate RemovableFrom(item: Staged, path: Path) {
    || (item.outputTemp.held && path == item.outputTemp.name)
    || (item.backupPath.held && !item.backedUp && path == item.backupPath.name)
  }

  predicate Removable(items: seq<Staged>, path: Path) {
    exists i :: 0 <= i < |items| && RemovableFrom(items[i], path)
  }

  // Nothing but removable temporaries distinguishes the tree from the initial one.
  ghost predicate OnlyTemps(items: seq<Staged>, tree: Tree, initial: Tree) {
    forall path :: if Removable(items, path) then path !in initial else Get(tree, path) == Get(initial, path)
  }

  // `next` differs from `tree` only by removed temporaries.
  ghost predicate Cleaned(items: seq<Staged>, tree: Tree, next: Tree) {
    forall path :: Get(next, path) == Get(tree, path) || (Removable(items, path) && path !in next)
  }

  predicate HeldIsUsed(item: Staged) {
    && (item.outputTemp.held ==> GivesOutput(item.change))
    && (item.backupPath.held || item.backedUp ==> TakesOriginal(item.change))
  }

  lemma PristineIsOnlyTemps(items: seq<Staged>, tree: Tree, initial: Tree)
    requires Matches(items, tree, initial)
    requires forall i :: 0 <= i < |items| ==> Pristine(items[i]) && HeldIsUsed(items[i])
    ensures OnlyTemps(items, tree, initial)
  {
    forall path ensures if Removable(items, path) then path !in initial else Get(tree, path) == Get(initial, path) {
      if Removable(items, path) {
        var i :| 0 <= i < |items| && RemovableFrom(items[i], path);
        assert ItemOk(tree, initial, items[i]);
      } else if !Unclaimed(items, path) {
        var i :| 0 <= i < |items| && Claims(items[i], path);
        assert ItemOk(tree, initial, items[i]) && !RemovableFrom(items[i], path);
      }
    }
  }

  lemma CleanedTree(items: seq<Staged>, tree: Tree, next: Tree, initial: Tree)
    requires OnlyTemps(items, tree, initial) && Cleaned(items, tree, next)
    requires forall path :: Removable(items, path) ==> path !in next
    ensures next == initial
  {
    forall path ensures Get(next, path) == Get(initial, path) {
      assert Get(next, path) == Get(tree, path) || Removable(items, path);
    }
    SameTree(next, initial);
  }

  // A path claimed by an item that keeps it is removed on behalf of no item.
  lemma OnlyOwnPaths(items: seq<Staged>, i: nat, path: Path)
    requires forall j, k :: 0 <= j < k < |items| ==> Disjoint(items[j], items[k])
    requires forall j :: 0 <= j < |items| ==> HeldIsUsed(items[j])
    requires i < |items| && Claims(items[i], path) && !RemovableFrom(items[i], path)
    ensures !Removable(items, path)
  {
    forall j | 0 <= j < |items| ensures !RemovableFrom(items[j], path) {
      assert RemovableFrom(items[j], path) ==> Claims(items[j], path);
      assert i < j ==> Disjoint(items[i], items[j]);
      assert j < i ==> Disjoint(items[j], items[i]);
    }
  }

  /** Cleanup never removes a backup that still holds an original. */
  lemma CleanupKeepsOriginals(items: seq<Staged>, tree: Tree, next: Tree, initial: Tree)
    requires Matches(items, tree, initial) && Cleaned(items, tree, next)
    requires forall i :: 0 <= i < |items| ==> HeldIsUsed(items[i])
    ensures Recoverable(items, next, initial)
  {
    MatchesIsRecoverable(items, tree, initial);
    forall i | 0 <= i < |items| ensures OriginalKept(items[i], next, initial) {
      var item := items[i];
      if TakesOriginal(item.change) {
        assert ItemOk(tree, initial, item) && OriginalKept(item, tree, initial);
        var path := if item.backedUp then item.backupPath.name else item.change.originalPath;
        assert Claims(item, path) && !RemovableFrom(item, path);
        OnlyOwnPaths(items, i, path);
        assert Get(next, path) == Get(tree, path) == Expected(initial, item, path);
      }
    }
  }

  // The file is at its path, or whole under a name that was free.
  predicate FileKept(tree: Tree, initial: Tree, path: Path, name: Path) {
    Get(tree, path) == Get(initial, path) || (name !in initial && Get(tree, name) == Get(initial, path))
  }

  /** No file of the initial tree is lost. */
  ghost predicate NothingLost(tree: Tree, initial: Tree) {
    forall path :: path in initial ==> exists name :: FileKept(tree, initial, path, name)
  }

  // A file under a name that was free, with the content of an initial file.
  ghost predicate SpareCopy(tree: Tree, initial: Tree, path: Path) {
    path !in initial && exists o :: o in initial && Get(tree, path) == Get(initial, o)
  }

  lemma ClaimedFile(item: Staged, tree: Tree, initial: Tree, path: Path)
    requires ItemOk(tree, initial, item) && Claims(item, path) && path in initial
    ensures TakesOriginal(item.change) && path == item.change.originalPath && item.backupPath.name !in initial
  {
  }

  /** After a cleanup every file is still there, whole. */
  lemma CleanupLosesNothing(items: seq<Staged>, tree: Tree, next: Tree, initial: Tree)
    requires Matches(items, tree, initial) && Cleaned(items, tree, next)
    requires forall i :: 0 <= i < |items| ==> HeldIsUsed(items[i])
    ensures NothingLost(next, initial)
  {
    CleanupKeepsOriginals(items, tree, next, initial);
    forall path | path in initial ensures exists name :: FileKept(next, initial, path, name) {
      if i :| 0 <= i < |items| && Claims(items[i], path) {
        assert ItemOk(tree, initial, items[i]) && OriginalKept(items[i], next, initial);
        ClaimedFile(items[i], tree, initial, path);
        assert FileKept(next, initial, path, items[i].backupPath.name);
      } else {
        assert Unclaimed(items, path);
        UnclaimedIsNotRemoved(items, path);
        assert FileKept(next, initial, path, path);
      }
    }
  }

  lemma UnclaimedIsNotRemoved(items: seq<Staged>, path: Path)
    requires Unclaimed(items, path) && forall i :: 0 <= i < |items| ==> HeldIsUsed(items[i])
    ensures !Removable(items, path)
  {
    forall i | 0 <= i < |items| ensures !RemovableFrom(items[i], path) {
      assert !Claims(items[i], path) && HeldIsUsed(items[i]);
    }
  }

  lemma LeftoverIsSpare(items: seq<Staged>, changes: seq<Change>, tree: Tree, initial: Tree, path: Path)
    requires Installed(items, tree, initial) && Installable(changes, initial) && Leftover(items, tree, initial, path)
    requires |items| == |changes| && forall i :: 0 <= i < |items| ==> items[i].change == changes[i]
    ensures SpareCopy(tree, initial, path)
  {
    var i :| 0 <= i < |items| && items[i].backedUp && TakesOriginal(items[i].change)
      && path == items[i].backupPath.name && Get(tree, path) == Get(initial, items[i].change.originalPath);
    assert ItemDone(tree, initial, items[i]) && Fits(changes[i], initial);
    assert items[i].change.originalPath in initial;
  }

  ghost predicate OriginalsIntact(changes: seq<Change>, tree: Tree, initial: Tree) {
    forall i :: 0 <= i < |changes| && TakesOriginal(changes[i]) ==>
      Get(tree, changes[i].originalPath) == Get(initial, changes[i].originalPath)
  }

  lemma OnlyTempsIsIntact(items: seq<Staged>, changes: seq<Change>, tree: Tree, initial: Tree)
    requires OnlyTemps(items, tree, initial) && Installable(changes, initial)
    ensures OriginalsIntact(changes, tree, initial)
  {
    forall i | 0 <= i < |changes| && TakesOriginal(changes[i])
      ensures Get(tree, changes[i].originalPath) == Get(initial, changes[i].originalPath)
    {
      assert Fits(changes[i], initial) && !Removable(items, changes[i].originalPath);
    }
  }

  // Every name a staged change uses is known to be taken.
  ghost predicate NamesTaken(items: seq<Staged>, taken: set<Path>) {
    forall i, path :: 0 <= i < |items| && Claims(items[i], path) ==> path in taken
  }

  // A temporary name is never a path of the change list.
  predicate TempsAvoid(item: Staged, c: Change) {
    && (TakesOriginal(item.change) ==> !Touches(c, item.backupPath.name))
    && (GivesOutput(item.change) ==> !Touches(c, item.outputTemp.name))
  }

  lemma AppendItem(items: seq<Staged>, tree: Tree, next: Tree, initial: Tree, item: Staged, taken: set<Path>)
    requires Matches(items, tree, initial) && NamesTaken(items, taken) && initial.Keys <= taken
    requires Fits(item.change, initial) && Pristine(item) && NamesOk(item, initial)
    requires forall i :: 0 <= i < |items| ==>
      Independent(items[i].change, item.change) && TempsAvoid(items[i], item.change)
    requires TakesOriginal(item.change) ==> item.backupPath.name !in taken
    requires GivesOutput(item.change) ==> item.outputTemp.held && item.outputTemp.name !in taken
    requires next == if GivesOutput(item.change) then tree[item.outputTemp.name := Output(item.change)] else tree
    ensures Matches(items + [item], next, initial)
  {
    var grown := items + [item];
    forall i | 0 <= i < |items| ensures Disjoint(items[i], item) && ItemOk(next, initial, items[i]) {
      assert Independent(items[i].change, item.change) && ItemOk(tree, initial, items[i])
          && TempsAvoid(items[i], item.change);
      forall path ensures !(Claims(items[i], path) && Claims(item, path)) {
        assert Claims(items[i], path) ==> path in taken;
      }
      forall path | Claims(items[i], path) ensures Get(next, path) == Get(tree, path) {
        assert path in taken;
      }
    }
    forall path | !Claims(item, path) ensures Get(next, path) == Get(tree, path) {
    }
    forall path | Claims(item, path) ensures Get(next, path) == Expected(initial, item, path) {
      forall i | 0 <= i < |items| ensures !Claims(items[i], path) {
        assert Disjoint(items[i], item);
      }
      assert Unclaimed(items, path);
    }
    forall path | Unclaimed(grown, path) ensures Get(next, path) == Get(initial, path) {
      assert grown[|items|] == item;
      forall i | 0 <= i < |items| ensures !Claims(items[i], path) {
        assert grown[i] == items[i];
      }
      assert Unclaimed(items, path);
    }
  }

  // A change whose staging stopped half-way leaves only removable temporaries.
  lemma AppendDirty(items: seq<Staged>, tree: Tree, next: Tree, initial: Tree, item: Staged)
    requires OnlyTemps(items, tree, initial) && !item.backedUp
    requires forall path :: RemovableFrom(item, path) ==> path !in initial
    requires forall path :: !RemovableFrom(item, path) ==> Get(next, path) == Get(tree, path)
    ensures OnlyTemps(items + [item], next, initial)
  {
    var grown := items + [item];
    forall path
      ensures Removable(grown, path) <==> Removable(items, path) || RemovableFrom(item, path)
    {
      if Removable(items, path) {
        var i :| 0 <= i < |items| && RemovableFrom(items[i], path);
        assert RemovableFrom(grown[i], path);
      }
      if RemovableFrom(item, path) {
        assert RemovableFrom(grown[|items|], path);
      }
    }
    assert forall path :: if Removable(grown, path) then path !in initial else Get(next, path) == Get(initial, path);
  }

  // ---- The transaction ---------------------------------------------------------------

  lemma {:induction false} LongerThanAll(paths: set<Path>) returns (n: nat)
    ensures forall path :: path in paths ==> |path| < n
  {
    n := 0;
    if paths != {} {
      var path :| path in paths;
      n := LongerThanAll(paths - {path});
      n := if |path| < n then n else |path| + 1;
    }
  }

  lemma FreshPathExists(taken: set<Path>)
    ensures exists path: Path :: path !in taken
  {
    var n := LongerThanAll(taken);
    var path := seq(n, _ => 'x');
    assert path !in taken;
  }

  // Staged but not yet moved, with temporaries that are no path of the change list.
  ghost predicate Fresh(item: Staged, changes: seq<Change>) {
    && Pristine(item) && HeldIsUsed(item)
    && (GivesOutput(item.change) ==> item.outputTemp.held)
    && forall k :: 0 <= k < |changes| ==> TempsAvoid(item, changes[k])
  }

  ghost predicate SameOn(paths: set<Path>, left: Tree, right: Tree) {
    forall path :: path in paths ==> Get(left, path) == Get(right, path)
  }

  // New trees that agree with the old one on all known names keep the originals.
  lemma IntactAgain(changes: seq<Change>, initial: Tree, items: seq<Staged>, taken: set<Path>, before: Tree,
                    history: seq<Tree>, longer: seq<Tree>)
    requires Installable(changes, initial) && OnlyTemps(items, before, initial)
    requires forall i, path :: 0 <= i < |changes| && Touches(changes[i], path) ==> path in taken
    requires forall t :: t in history ==> OriginalsIntact(changes, t, initial)
    requires forall t :: t in longer ==> t in history || SameOn(taken, before, t)
    ensures forall t :: t in longer ==> OriginalsIntact(changes, t, initial)
  {
    OnlyTempsIsIntact(items, changes, before, initial);
    forall t | t in longer && t !in history ensures OriginalsIntact(changes, t, initial) {
      forall i | 0 <= i < |changes| && TakesOriginal(changes[i])
        ensures Get(t, changes[i].originalPath) == Get(initial, changes[i].originalPath)
      {
        assert Touches(changes[i], changes[i].originalPath);
      }
    }
  }

  lemma StagedItem(changes: seq<Change>, k: nat, items: seq<Staged>, taken: set<Path>, item: Staged, initial: Tree)
    requires Installable(changes, initial) && k < |changes| && item.change == changes[k] && |items| == k
    requires initial.Keys <= taken
    requires forall i, path :: 0 <= i < |changes| && Touches(changes[i], path) ==> path in taken
    requires forall i :: 0 <= i < |items| ==> items[i].change == changes[i] && Fresh(items[i], changes)
    requires Pristine(item) && HeldIsUsed(item)
    requires TakesOriginal(item.change) ==> item.backupPath.name !in taken
    requires GivesOutput(item.change) ==> item.outputTemp.held && item.outputTemp.name !in taken
    requires item.change.Update? ==> item.outputTemp.name != item.backupPath.name
    ensures Fresh(item, changes) && NamesOk(item, initial) && Fits(item.change, initial)
    ensures forall i :: 0 <= i < |items| ==>
      Independent(items[i].change, item.change) && TempsAvoid(items[i], item.change)
  {
    forall i | 0 <= i < |items| ensures Independent(items[i].change, item.change) && TempsAvoid(items[i], item.change) {
      assert Independent(changes[i], changes[k]) && Fresh(items[i], changes);
    }
  }

  lemma CleanedMore(items: seq<Staged>, k: nat, start: Tree, tree: Tree, next: Tree, path: Path)
    requires Cleaned(items, start, tree) && k < |items|
    requires next == tree || (RemovableFrom(items[k], path) && next == tree - {path})
    ensures Cleaned(items, start, next)
  {
    if next != tree {
      assert Removable(items, path);
      forall other ensures Get(next, other) == Get(start, other) || (Removable(items, other) && other !in next) {
        assert Get(tree, other) == Get(start, other) || (Removable(items, other) && other !in tree);
      }
    }
  }

  lemma CleanedIsOnlyTemps(items: seq<Staged>, tree: Tree, next: Tree, initial: Tree)
    requires OnlyTemps(items, tree, initial) && Cleaned(items, tree, next)
    ensures OnlyTemps(items, next, initial)
  {
  }

  lemma EmptyMatches(initial: Tree)
    ensures Matches([], initial, initial)
  {
  }

  lemma IntactIsRecoverable(changes: seq<Change>, items: seq<Staged>, history: seq<Tree>, initial: Tree)
    requires |items| == |changes| && forall i :: 0 <= i < |items| ==> items[i].change == changes[i]
    requires forall t :: t in history ==> OriginalsIntact(changes, t, initial)
    ensures AllRecoverable(items, history, initial)
  {
    forall t | t in history ensures Recoverable(items, t, initial) {
      assert OriginalsIntact(changes, t, initial);
    }
  }

  // After the last backup is dropped no item holds a temporary.
  lemma NothingToClean(items: seq<Staged>, tree: Tree, next: Tree)
    requires forall i :: 0 <= i < |items| ==> !items[i].outputTemp.held && !items[i].backupPath.held
    requires Cleaned(items, tree, next)
    ensures next == tree && forall path :: !Removable(items, path)
  {
    forall path ensures !Removable(items, path) && Get(next, path) == Get(tree, path) {
      assert Get(next, path) == Get(tree, path) || Removable(items, path);
    }
    SameTree(next, tree);
  }

  lemma SafeAgain(items: seq<Staged>, updated: seq<Staged>, history: seq<Tree>, next: Tree, initial: Tree)
    requires |items| == |updated| && forall i :: 0 <= i < |items| ==> SameNames(items[i], updated[i])
    requires AllInstalled(updated, next)
    requires forall t :: t in history ==> Recoverable(items, t, initial) || AllInstalled(items, t)
    ensures forall t :: t in history + [next] ==> Recoverable(updated, t, initial) || AllInstalled(updated, t)
  {
    forall t | t in history ensures Recoverable(updated, t, initial) || AllInstalled(updated, t) {
      if Recoverable(items, t, initial) {
        forall i | 0 <= i < |updated| ensures OriginalKept(updated[i], t, initial) {
          assert OriginalKept(items[i], t, initial);
        }
      } else {
        assert AllInstalled(items, t);
      }
    }
  }

  predicate ReadyToInstall(item: Staged) {
    && !item.installed
    && (GivesOutput(item.change) ==> item.outputTemp.held)
    && (TakesOriginal(item.change) ==> item.backedUp)
  }

  function InstalledItem(item: Staged): Staged {
    item.(installed := true, outputTemp := item.outputTemp.(held := false))
  }

  datatype Removal = Done | Missing | Failed

  // ---- What went wrong -----------------------------------------------------------

  datatype Operation = Creating | Closing | Writing | Renaming | Removing

  // The first operation that failed, and whether a rename had been tried before it.
  datatype Failure = Failure(operation: Operation, moved: bool)

  // The operations so far: whether one was a rename, how many failed, and the first of these.
  datatype Record = Record(moved: bool, failures: nat, first: Option<Failure>)

  const NO_OPERATION := Record(false, 0, None)

  function Logged(r: Record, operation: Operation, failed: bool): Record {
    Record(r.moved || operation.Renaming?, if failed then r.failures + 1 else r.failures,
           if failed && r.first.None? then Some(Failure(operation, r.moved)) else r.first)
  }

  predicate Calm(r: Record) {
    r.failures == 0 && r.first.None?
  }

  // One operation failed, and it was not a rename, nor after one.
  predicate StagingBroke(r: Record) {
    !r.moved && r.failures == 1 && r.first.Some? && !r.first.value.operation.Renaming? && !r.first.value.moved
  }

  predicate RenameBroke(r: Record) {
    r.failures == 1 && r.first.Some? && r.first.value.operation.Renaming?
  }

  predicate DropBroke(r: Record) {
    r.failures > 0 && r.first == Some(Failure(Removing, true))
  }

  // Operations that come after a first failure; `ok` when none of them fails.
  predicate Follows(r: Record, next: Record, ok: bool) {
    && (r.first.Some? ==> next.first == r.first) && (r.moved ==> next.moved)
    && (if ok then next.failures == r.failures && next.first == r.first else next.failures > r.failures)
  }

  /** What the outcome says: nothing failed; or which kind of operation failed first,
      and whether nothing else failed after it. */
  function OutcomeOf(r: Record): Outcome {
    if r.first.None? then Committed
    else if r.first.value.operation.Renaming? then CommitFailed(r.failures == 1)
    else if !r.first.value.moved then StagingFailed(r.failures == 1)
    else BackupCleanupFailed
  }

  class FileTransaction {
    const changes: seq<Change>
    ghost const initial: Tree
    var tree: Tree
    var taken: set<Path>          // names the random generator does not produce again
    var staged: seq<Staged>
    ghost var history: seq<Tree>  // every tree since the start
    ghost var record: Record      // what failed

    constructor (changes: seq<Change>, tree: Tree, taken: set<Path>)
      requires Installable(changes, tree) && tree.Keys <= taken
      requires forall i, path :: 0 <= i < |changes| && Touches(changes[i], path) ==> path in taken
      ensures this.changes == changes && initial == this.tree == tree && this.taken == taken
      ensures staged == [] && history == [] && record == NO_OPERATION
    {
      this.changes, this.tree, this.taken, initial := changes, tree, taken, tree;
      staged, history, record := [], [], NO_OPERATION;
    }

    // ---- fileOperations ----

    method CreateTemp() returns (name: Option<Path>)
      modifies this`tree, this`taken, this`history, this`record
      ensures name.None? ==> tree == old(tree) && taken == old(taken)
      ensures name.Some? ==> name.value !in old(taken) && name.value !in old(tree) && taken == old(taken) + {name.value}
      ensures name.Some? ==> tree == old(tree)[name.value := File("", 384)]
      ensures history == old(history) + [tree] && record == Logged(old(record), Creating, name.None?)
    {
      var fails: bool := *;
      record := Logged(record, Creating, fails);
      name := None;
      if !fails {
        FreshPathExists(taken + tree.Keys);
        var path: Path :| path !in taken + tree.Keys;
        name, taken, tree := Some(path), taken + {path}, tree[path := File("", 384)];
      }
      history := history + [tree];
    }

    method WriteStaged(path: Path, file: File) returns (ok: bool)
      modifies this`tree, this`history, this`record
      ensures ok ==> tree == old(tree)[path := file]
      ensures tree.Keys == old(tree.Keys) + {path}
      ensures forall other :: other != path ==> Get(tree, other) == Get(old(tree), other)
      ensures history == old(history) + [tree] && record == Logged(old(record), Writing, !ok)
    {
      var written: File := *;
      ok := *;
      record := Logged(record, Writing, !ok);
      tree := tree[path := if ok then file else written];
      history := history + [tree];
    }

    method Rename(from: Path, to: Path) returns (ok: bool)
      requires from != to
      modifies this`tree, this`history, this`record
      ensures if ok then from in old(tree) && tree == Renamed(old(tree), from, to) else tree == old(tree)
      ensures history == old(history) + [tree]
      ensures record == Logged(old(record), Renaming, !ok && from in old(tree))
    {
      var fails: bool := *;
      ok := !fails && from in tree;
      record := Logged(record, Renaming, fails && from in tree);
      if ok {
        tree := Renamed(tree, from, to);
      }
      history := history + [tree];
    }

    method Remove(path: Path) returns (removal: Removal)
      modifies this`tree, this`history, this`record
      ensures removal.Missing? <==> path !in old(tree)
      ensures tree == if removal.Done? then old(tree) - {path} else old(tree)
      ensures history == old(history) + [tree] && record == Logged(old(record), Removing, removal.Failed?)
    {
      var fails: bool := *;
      record := Logged(record, Removing, fails && path in tree);
      removal := if path !in tree then Missing else if fails then Failed else Done;
      if removal.Done? {
        tree := tree - {path};
      }
      history := history + [tree];
    }

    method Close() returns (ok: bool)
      modifies this`record
      ensures record == Logged(old(record), Closing, !ok)
    {
      ok := *;
      record := Logged(record, Closing, !ok);
    }

    // ---- Staging ----

    ghost predicate Staging()
      reads this
    {
      && Installable(changes, initial) && initial.Keys <= taken && tree.Keys <= taken
      && (forall i, path :: 0 <= i < |changes| && Touches(changes[i], path) ==> path in taken)
      && |staged| <= |changes|
      && (forall i :: 0 <= i < |staged| ==> staged[i].change == changes[i] && Fresh(staged[i], changes))
      && Matches(staged, tree, initial) && NamesTaken(staged, taken)
      && AllIntact()
    }

    ghost predicate AllIntact()
      reads this
    {
      forall t :: t in history ==> OriginalsIntact(changes, t, initial)
    }

    method StageOne(c: Change) returns (ok: bool)
      requires Staging() && |staged| < |changes| && c == changes[|staged|]
      requires record == NO_OPERATION
      modifies this`tree, this`taken, this`staged, this`history, this`record
      ensures if ok then record == NO_OPERATION else StagingBroke(record)
      ensures ok ==> Staging() && |staged| == old(|staged|) + 1
      ensures !ok ==> OnlyTemps(staged, tree, initial) && AllIntact()
    {
      ghost var before, items, names := tree, staged, taken;
      PristineIsOnlyTemps(items, before, initial);
      var item;
      ok, item := CreateTemps(c);
      IntactAgain(changes, initial, items, names, before, old(history), history);
      staged := staged + [item];
      if ok {
        StagedItem(changes, |items|, items, names, item, initial);
        AppendItem(items, before, tree, initial, item, names);
      } else {
        AppendDirty(items, before, tree, initial, item);
      }
    }

    method CreateTemps(c: Change) returns (ok: bool, item: Staged)
      requires tree.Keys <= taken
      requires record == NO_OPERATION
      modifies this`tree, this`taken, this`history, this`record
      ensures if ok then record == NO_OPERATION else StagingBroke(record)
      ensures tree.Keys <= taken && old(taken) <= taken
      ensures item.change == c && Pristine(item) && HeldIsUsed(item)
      ensures item.backupPath.held ==> item.backupPath.name in taken - old(taken)
      ensures item.outputTemp.held ==> item.outputTemp.name in taken - old(taken)
      ensures item.backupPath.held && item.outputTemp.held ==> item.outputTemp.name != item.backupPath.name
      ensures ok ==> item.backupPath.held == TakesOriginal(c) && item.outputTemp.held == GivesOutput(c)
      ensures ok ==> tree == if GivesOutput(c) then old(tree)[item.outputTemp.name := Output(c)] else old(tree)
      ensures forall path :: !RemovableFrom(item, path) ==> Get(tree, path) == Get(old(tree), path)
      ensures forall t :: t in history ==> t in old(history) || SameOn(old(taken), old(tree), t)
    {
      item := Staged(c, Temp("", false), Temp("", false), false, false);
      ok := true;
      if TakesOriginal(c) {
        ok, item := ReserveBackup(item);
      }
      if ok && GivesOutput(c) {
        ok, item := WriteOutput(item);
      }
    }

    /** Reserve a backup name and release it again (lines 115-127). */
    method ReserveBackup(start: Staged) returns (ok: bool, item: Staged)
      requires tree.Keys <= taken && TakesOriginal(start.change) && Pristine(start)
      requires !start.backupPath.held && !start.outputTemp.held
      requires record == NO_OPERATION
      modifies this`tree, this`taken, this`history, this`record
      ensures if ok then record == NO_OPERATION else StagingBroke(record)
      ensures tree.Keys <= taken && old(taken) <= taken
      ensures item == start.(backupPath := item.backupPath)
      ensures item.backupPath.held ==> item.backupPath.name in taken - old(taken)
      ensures ok ==> item.backupPath.held && tree == old(tree)
      ensures forall path :: !RemovableFrom(item, path) ==> Get(tree, path) == Get(old(tree), path)
      ensures forall t :: t in history ==> t in old(history) || SameOn(old(taken), old(tree), t)
    {
      item := start;
      var reserved := CreateTemp();
      if reserved.None? {
        return false, item;
      }
      item := item.(backupPath := Temp(reserved.value, true));
      var closed := Close();
      if !closed {
        return false, item;
      }
      var removal := Remove(reserved.value);
      return removal.Done?, item;
    }

    /** Create and write the output file (lines 129-138). */
    method WriteOutput(start: Staged) returns (ok: bool, item: Staged)
      requires tree.Keys <= taken && GivesOutput(start.change) && !start.outputTemp.held
      requires record == NO_OPERATION
      modifies this`tree, this`taken, this`history, this`record
      ensures if ok then record == NO_OPERATION else StagingBroke(record)
      ensures tree.Keys <= taken && old(taken) <= taken
      ensures item == start.(outputTemp := item.outputTemp)
      ensures item.outputTemp.held ==> item.outputTemp.name in taken - old(taken)
      ensures ok ==> item.outputTemp.held && tree == old(tree)[item.outputTemp.name := Output(item.change)]
      ensures forall path :: !(item.outputTemp.held && path == item.outputTemp.name) ==>
        Get(tree, path) == Get(old(tree), path)
      ensures forall t :: t in history ==> t in old(history) || SameOn(old(taken), old(tree), t)
    {
      item := start;
      ok := false;
      var output := CreateTemp();
      if output.Some? {
        item := item.(outputTemp := Temp(output.value, true));
        ok := WriteStaged(output.value, Output(item.change));
      }
    }

    method Stage() returns (ok: bool)
      requires Staging() && staged == []
      requires record == NO_OPERATION
      modifies this`tree, this`taken, this`staged, this`history, this`record
      ensures if ok then record == NO_OPERATION else StagingBroke(record)
      ensures ok ==> Staging() && |staged| == |changes|
      ensures !ok ==> OnlyTemps(staged, tree, initial) && AllIntact()
    {
      for k := 0 to |changes|
        invariant Staging() && |staged| == k && record == NO_OPERATION
      {
        ok := StageOne(changes[k]);
        if !ok {
          return;
        }
      }
      ok := true;
    }

    // ---- Cleanup ----

    method RemoveTemp(path: Path, held: bool) returns (ok: bool)
      modifies this`tree, this`history, this`record
      ensures Follows(old(record), record, ok)
      ensures tree == old(tree) || (held && tree == old(tree) - {path})
      ensures ok && held ==> path !in tree
      ensures !ok ==> held
      ensures forall t :: t in history ==> t in old(history) || t == tree
    {
      ok := true;
      if held {
        var removal := Remove(path);
        ok := !removal.Failed?;
      }
    }

    method CleanupStaging() returns (ok: bool)
      modifies this`tree, this`history, this`record
      ensures Follows(old(record), record, ok)
      ensures Cleaned(staged, old(tree), tree)
      ensures ok ==> forall path :: Removable(staged, path) ==> path !in tree
      ensures !ok ==> exists path :: Removable(staged, path)
      ensures forall t :: t in history ==> t in old(history) || Cleaned(staged, old(tree), t)
    {
      ok := true;
      for k := 0 to |staged|
        invariant Cleaned(staged, old(tree), tree) && Follows(old(record), record, ok)
        invariant !ok ==> exists path :: Removable(staged, path)
        invariant ok ==> forall i, path :: 0 <= i < k && RemovableFrom(staged[i], path) ==> path !in tree
        invariant forall t :: t in history ==> t in old(history) || Cleaned(staged, old(tree), t)
      {
        var item := staged[k];
        ghost var middle := tree;
        var first := RemoveTemp(item.outputTemp.name, item.outputTemp.held);
        CleanedMore(staged, k, old(tree), middle, tree, item.outputTemp.name);
        middle := tree;
        var second := RemoveTemp(item.backupPath.name, item.backupPath.held && !item.backedUp);
        CleanedMore(staged, k, old(tree), middle, tree, item.backupPath.name);
        assert !first ==> RemovableFrom(staged[k], item.outputTemp.name) && Removable(staged, item.outputTemp.name);
        assert !second ==> RemovableFrom(staged[k], item.backupPath.name) && Removable(staged, item.backupPath.name);
        ok := ok && first && second;
      }
    }

    // ---- Commit and rollback ----

    ghost predicate Moving()
      reads this
    {
      && Installable(changes, initial) && |staged| == |changes|
      && (forall i :: 0 <= i < |staged| ==> staged[i].change == changes[i] && HeldIsUsed(staged[i]))
      && Matches(staged, tree, initial) && AllRecoverable(staged, history, initial)
    }

    ghost predicate NoBackup()
      reads this
    {
      forall i :: 0 <= i < |staged| ==> !staged[i].backedUp
    }

    /** Move every original to its backup path (lines 67-75). */
    method BackUpAll() returns (ok: bool)
      requires Moving() && forall i :: 0 <= i < |staged| ==>
        Pristine(staged[i]) && (GivesOutput(staged[i].change) ==> staged[i].outputTemp.held)
      requires Calm(record) && (!record.moved ==> NoBackup())
      modifies this`tree, this`staged, this`history, this`record
      ensures if ok then Calm(record) else RenameBroke(record)
      ensures !record.moved ==> NoBackup()
      ensures Moving() && forall i :: 0 <= i < |staged| ==>
        !staged[i].installed && (GivesOutput(staged[i].change) ==> staged[i].outputTemp.held)
      ensures ok ==> forall i :: 0 <= i < |staged| && TakesOriginal(staged[i].change) ==> staged[i].backedUp
    {
      for k := 0 to |staged|
        invariant Moving() && |staged| == |changes| && Calm(record) && (!record.moved ==> NoBackup())
        invariant forall i :: 0 <= i < |staged| ==>
          !staged[i].installed && (GivesOutput(staged[i].change) ==> staged[i].outputTemp.held)
        invariant forall i :: 0 <= i < k && TakesOriginal(staged[i].change) ==> staged[i].backedUp
        invariant forall i :: k <= i < |staged| ==> !staged[i].backedUp
      {
        if TakesOriginal(staged[k].change) {
          ok := BackUpOne(k);
          if !ok {
            return;
          }
        }
      }
      ok := true;
    }

    method BackUpOne(k: nat) returns (ok: bool)
      requires Moving() && k < |staged| && TakesOriginal(staged[k].change) && !staged[k].backedUp
      requires !staged[k].installed
      requires Calm(record)
      modifies this`tree, this`staged, this`history, this`record
      ensures if ok then Calm(record) else RenameBroke(record)
      ensures record.moved
      ensures Moving() && staged == if ok then old(staged)[k := old(staged)[k].(backedUp := true)] else old(staged)
    {
      ghost var before, trees := tree, history;
      var item := staged[k];
      assert ItemOk(tree, initial, item);
      BackUpStep(tree, initial, item);
      ok := Rename(item.change.originalPath, item.backupPath.name);
      if ok {
        Advance(staged, k, item.(backedUp := true), before, tree, initial, trees);
        staged := staged[k := item.(backedUp := true)];
      } else {
        Stay(staged, tree, initial, trees);
      }
    }

    ghost predicate BackedUpFirst()
      reads this
    {
      forall i :: 0 <= i < |staged| && staged[i].installed ==>
        GivesOutput(staged[i].change) && (TakesOriginal(staged[i].change) ==> staged[i].backedUp)
    }

    /** Rename every output into place (lines 77-86). */
    method InstallAll() returns (ok: bool)
      requires Moving() && forall i :: 0 <= i < |staged| ==> ReadyToInstall(staged[i])
      requires Calm(record) && (!record.moved ==> NoBackup())
      modifies this`tree, this`staged, this`history, this`record
      ensures if ok then Calm(record) else RenameBroke(record)
      ensures !record.moved ==> NoBackup()
      ensures Moving() && BackedUpFirst()
      ensures ok ==> forall i :: 0 <= i < |staged| ==> FullyInstalled(staged[i])
    {
      for k := 0 to |staged|
        invariant Moving() && |staged| == |changes| && Calm(record) && (!record.moved ==> NoBackup())
        invariant forall i :: 0 <= i < k ==> FullyInstalled(staged[i])
        invariant forall i :: k <= i < |staged| ==> ReadyToInstall(staged[i])
        invariant BackedUpFirst()
      {
        if GivesOutput(staged[k].change) {
          ok := InstallOne(k);
          if !ok {
            return;
          }
        }
      }
      ok := true;
    }

    method InstallOne(k: nat) returns (ok: bool)
      requires Moving() && k < |staged| && GivesOutput(staged[k].change) && ReadyToInstall(staged[k])
      requires Calm(record)
      modifies this`tree, this`staged, this`history, this`record
      ensures if ok then Calm(record) else RenameBroke(record)
      ensures record.moved
      ensures Moving()
      ensures staged == if ok then old(staged)[k := InstalledItem(old(staged)[k])] else old(staged)
    {
      ghost var before, trees := tree, history;
      var item := staged[k];
      assert ItemOk(tree, initial, item);
      InstallStep(tree, initial, item);
      ok := Rename(item.outputTemp.name, item.change.path);
      if ok {
        Advance(staged, k, InstalledItem(item), before, tree, initial, trees);
        staged := staged[k := InstalledItem(item)];
      } else {
        Stay(staged, tree, initial, trees);
      }
    }

    /** Undo installs, then restore originals, both from the last item to the
        first; errors are collected and the walk goes on (lines 167-190). */
    method Rollback() returns (ok: bool)
      requires Moving() && BackedUpFirst()
      modifies this`tree, this`staged, this`history, this`record
      ensures Follows(old(record), record, ok)
      ensures Moving()
      ensures ok ==> forall i :: 0 <= i < |staged| ==> Pristine(staged[i])
    {
      ok := true;
      var k := |staged|;
      while k > 0
        invariant 0 <= k <= |staged| == |changes| && Moving() && BackedUpFirst()
        invariant Follows(old(record), record, ok)
        invariant ok ==> forall i :: k <= i < |staged| ==> !staged[i].installed
      {
        k := k - 1;
        if staged[k].installed {
          var removed := UninstallOne(k);
          ok := ok && removed;
        }
      }
      k := |staged|;
      while k > 0
        invariant 0 <= k <= |staged| == |changes| && Moving() && Follows(old(record), record, ok)
        invariant ok ==> forall i :: 0 <= i < |staged| ==> !staged[i].installed
        invariant ok ==> forall i :: k <= i < |staged| ==> !staged[i].backedUp
      {
        k := k - 1;
        if staged[k].backedUp {
          var restored := RestoreOne(k);
          ok := ok && restored;
        }
      }
    }

    method UninstallOne(k: nat) returns (ok: bool)
      requires Moving() && BackedUpFirst() && k < |staged| && staged[k].installed
      modifies this`tree, this`staged, this`history, this`record
      ensures Follows(old(record), record, ok)
      ensures Moving() && staged == if ok then old(staged)[k := old(staged)[k].(installed := false)] else old(staged)
    {
      ghost var before, trees := tree, history;
      var item := staged[k];
      assert ItemOk(tree, initial, item);
      UninstallStep(tree, initial, item);
      var removal := Remove(item.change.path);
      ok := !removal.Failed?;
      if ok {
        Advance(staged, k, item.(installed := false), before, tree, initial, trees);
        staged := staged[k := item.(installed := false)];
      } else {
        Stay(staged, tree, initial, trees);
      }
    }

    method RestoreOne(k: nat) returns (ok: bool)
      requires Moving() && k < |staged| && staged[k].backedUp
      modifies this`tree, this`staged, this`history, this`record
      ensures Follows(old(record), record, ok)
      ensures Moving() && staged == if ok then old(staged)[k := Dropped(old(staged)[k])] else old(staged)
    {
      ghost var before, trees := tree, history;
      var item := staged[k];
      assert ItemOk(tree, initial, item);
      RestoreStep(tree, initial, item);
      ok := Rename(item.backupPath.name, item.change.originalPath);
      if ok {
        Advance(staged, k, Dropped(item), before, tree, initial, trees);
        staged := staged[k := Dropped(item)];
      } else {
        Stay(staged, tree, initial, trees);
      }
    }

    /** Drop the backups of a committed transaction (lines 88-102). */
    method DropBackups() returns (ok: bool)
      requires Moving() && forall i :: 0 <= i < |staged| ==> FullyInstalled(staged[i])
      requires Calm(record) && (!record.moved ==> NoBackup())
      modifies this`tree, this`staged, this`history, this`record
      ensures if ok then Calm(record) else DropBroke(record)
      ensures Installed(staged, tree, initial) && |staged| == |changes| && SafeHistory()
      ensures forall i :: 0 <= i < |staged| ==> staged[i].change == changes[i] && !staged[i].outputTemp.held
      ensures ok ==> forall i :: 0 <= i < |staged| ==> !staged[i].backedUp && !staged[i].backupPath.held
    {
      CommitPoint(staged, tree, initial);
      ok := true;
      for k := 0 to |staged|
        invariant Installed(staged, tree, initial) && |staged| == |changes| && SafeHistory()
        invariant (if ok then Calm(record) else DropBroke(record)) && (!record.moved ==> NoBackup())
        invariant forall i :: 0 <= i < |staged| ==> Settled(i) && (i >= k ==> FullyInstalled(staged[i]))
        invariant ok ==> forall i :: 0 <= i < k ==> !staged[i].backedUp && !staged[i].backupPath.held
      {
        if staged[k].backedUp {
          var dropped := DropOne(k);
          ok := ok && dropped;
        }
      }
    }

    ghost predicate Settled(i: int)
      requires 0 <= i < |staged| == |changes|
      reads this
    {
      staged[i].change == changes[i] && !staged[i].outputTemp.held && HeldIsUsed(staged[i])
    }

    // No crash loses data: the originals are recoverable or the outputs are all in place.
    ghost predicate SafeHistory()
      reads this
    {
      forall t :: t in history ==> Recoverable(staged, t, initial) || AllInstalled(staged, t)
    }

    method DropOne(k: nat) returns (ok: bool)
      requires Installed(staged, tree, initial) && SafeHistory()
      requires k < |staged| && staged[k].backedUp && TakesOriginal(staged[k].change)
      modifies this`tree, this`staged, this`history, this`record
      ensures record == Logged(old(record), Removing, !ok)
      ensures Installed(staged, tree, initial) && SafeHistory()
      ensures staged == if ok then old(staged)[k := Dropped(old(staged)[k])] else old(staged)
    {
      ghost var before, items, trees := tree, staged, history;
      var item := staged[k];
      DropBackup(staged, k, tree, initial);
      BackupIsThere(staged, k, tree, initial);
      var removal := Remove(item.backupPath.name);
      ok := removal.Done?;
      if ok {
        staged := staged[k := Dropped(item)];
      }
      InstalledIsAllInstalled(staged, tree, initial);
      SafeAgain(items, staged, trees, tree, initial);
    }

    /** `stagingError`: clean up what staging left behind. */
    method AbandonStaging() returns (ok: bool)
      requires OnlyTemps(staged, tree, initial) && AllIntact() && Installable(changes, initial)
      requires StagingBroke(record)
      modifies this`tree, this`history, this`record
      ensures StagingFailed(ok) == OutcomeOf(record)
      ensures ok ==> tree == initial
      ensures AllIntact() && forall path :: path in initial ==> Get(tree, path) == Get(initial, path)
    {
      ghost var before, trees := tree, history;
      ok := CleanupStaging();
      CleanedIsOnlyTemps(staged, before, tree, initial);
      if ok {
        CleanedTree(staged, before, tree, initial);
      }
      forall t | t in history && t !in trees ensures OriginalsIntact(changes, t, initial) {
        CleanedIsOnlyTemps(staged, before, t, initial);
        OnlyTempsIsIntact(staged, changes, t, initial);
      }
    }

    /** `fail`: roll back and clean up. */
    method Undo() returns (ok: bool)
      requires Moving() && BackedUpFirst()
      requires RenameBroke(record)
      modifies this`tree, this`staged, this`history, this`record
      ensures CommitFailed(ok) == OutcomeOf(record)
      ensures ok ==> tree == initial
      ensures |staged| == |changes| && forall i :: 0 <= i < |staged| ==> staged[i].change == changes[i]
      ensures AllRecoverable(staged, history, initial) && NothingLost(tree, initial)
    {
      var rolledBack := Rollback();
      ghost var before, trees := tree, history;
      var cleaned := CleanupStaging();
      CleanupLosesNothing(staged, before, tree, initial);
      ok := rolledBack && cleaned;
      if ok {
        PristineIsOnlyTemps(staged, before, initial);
        CleanedTree(staged, before, tree, initial);
      }
      forall t | t in history && t !in trees ensures Recoverable(staged, t, initial) {
        CleanupKeepsOriginals(staged, before, t, initial);
      }
    }

    /** The whole commit. */
    method Commit() returns (outcome: Outcome)
      requires staged == [] && history == [] && record == NO_OPERATION && tree == initial && initial.Keys <= taken
      requires Installable(changes, initial)
      requires forall i, path :: 0 <= i < |changes| && Touches(changes[i], path) ==> path in taken
      modifies this`tree, this`taken, this`staged, this`history, this`record
      ensures outcome == OutcomeOf(record)
      ensures outcome.Committed? ==> tree == Applied(changes, initial)
      ensures outcome == StagingFailed(true) || outcome == CommitFailed(true) ==> tree == initial
      ensures outcome.BackupCleanupFailed? ==> forall path ::
        Get(tree, path) == Get(Applied(changes, initial), path)
        || (Leftover(staged, tree, initial, path) && SpareCopy(tree, initial, path))
      ensures !outcome.TempCleanupFailed?
      ensures outcome.StagingFailed? ==> forall t :: t in history ==> OriginalsIntact(changes, t, initial)
      ensures !outcome.StagingFailed? ==> SafeHistory()
      ensures !outcome.StagingFailed? ==>
        |staged| == |changes| && forall i :: 0 <= i < |staged| ==> staged[i].change == changes[i]
      ensures outcome.CommitFailed? ==> forall t :: t in history ==> Recoverable(staged, t, initial)
      ensures outcome.StagingFailed? ==> forall path :: path in initial ==> Get(tree, path) == Get(initial, path)
      ensures outcome.CommitFailed? ==> NothingLost(tree, initial)
    {
      EmptyMatches(initial);
      var ok := Stage();
      if !ok {
        ok := AbandonStaging();
        return StagingFailed(ok);
      }
      IntactIsRecoverable(changes, staged, history, initial);
      ok := BackUpAll();
      if ok {
        ok := InstallAll();
      }
      if !ok {
        ok := Undo();
        return CommitFailed(ok);
      }
      ok := DropBackups();
      if !ok {
        forall path
          ensures Get(tree, path) == Get(Applied(changes, initial), path)
                  || (Leftover(staged, tree, initial, path) && SpareCopy(tree, initial, path))
        {
          InstalledPath(staged, changes, tree, initial, path);
          if Leftover(staged, tree, initial, path) {
            LeftoverIsSpare(staged, changes, tree, initial, path);
          }
        }
        return BackupCleanupFailed;
      }
      FinalTree(staged, changes, tree, initial);
      ghost var final, trees := tree, history;
      InstalledIsAllInstalled(staged, final, initial);
      ok := CleanupStaging();
      NothingToClean(staged, final, tree);
      forall t | t in history && t !in trees ensures AllInstalled(staged, t) {
        NothingToClean(staged, final, t);
      }
      outcome := if ok then Committed else TempCleanupFailed;
    }
  }
}
