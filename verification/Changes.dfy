/** Files, trees and the change list that the workspace (workspace.go) hands to
    the transaction (transaction.go). */
module Changes {
  import opened Wrappers

  type Path = string

  datatype File = File(content: string, mode: nat)

  type Tree = map<Path, File>

  datatype Change =
    | Add(path: Path, content: string)
    | Update(originalPath: Path, path: Path, original: string, content: string, mode: nat)
    | Delete(originalPath: Path, original: string, mode: nat)

  const NEW_FILE_MODE: nat := 420  // 0o644

  function Get(tree: Tree, path: Path): Option<File> {
    if path in tree then Some(tree[path]) else None
  }

  lemma SameTree(left: Tree, right: Tree)
    requires forall path :: Get(left, path) == Get(right, path)
    ensures left == right
  {
    forall path ensures (path in left <==> path in right) && (path in left ==> left[path] == right[path]) {
      assert Get(left, path) == Get(right, path);
    }
  }

  predicate TakesOriginal(c: Change) {
    !c.Add?
  }

  predicate GivesOutput(c: Change) {
    !c.Delete?
  }

  function Output(c: Change): File
    requires GivesOutput(c)
  {
    if c.Add? then File(c.content, NEW_FILE_MODE) else File(c.content, c.mode)
  }

  // A rename or an addition needs a free destination; an update in place does not.
  predicate InPlace(c: Change) {
    c.Update? && c.path == c.originalPath
  }

  // Neither change can disturb the other's original or destination.
  predicate Independent(a: Change, b: Change) {
    && (TakesOriginal(a) && TakesOriginal(b) ==> a.originalPath != b.originalPath)
    && (GivesOutput(a) && GivesOutput(b) ==> a.path != b.path)
    && (GivesOutput(a) && TakesOriginal(b) ==> a.path != b.originalPath)
    && (TakesOriginal(a) && GivesOutput(b) ==> a.originalPath != b.path)
  }

  predicate Fits(c: Change, tree: Tree) {
    && (TakesOriginal(c) ==> c.originalPath in tree)
    && (GivesOutput(c) && !InPlace(c) ==> c.path !in tree)
  }

  /** What the transaction needs of its change list. */
  ghost predicate Installable(changes: seq<Change>, tree: Tree) {
    && (forall i :: 0 <= i < |changes| ==> Fits(changes[i], tree))
    && (forall i, j :: 0 <= i < j < |changes| ==> Independent(changes[i], changes[j]))
  }

  function ApplyOne(tree: Tree, c: Change): Tree {
    var without := if TakesOriginal(c) then tree - {c.originalPath} else tree;
    if GivesOutput(c) then without[c.path := Output(c)] else without
  }

  /** The intended tree: the changes one after another. */
  function Applied(changes: seq<Change>, tree: Tree): Tree {
    if changes == [] then tree
    else ApplyOne(Applied(changes[..|changes| - 1], tree), changes[|changes| - 1])
  }

  predicate Touches(c: Change, path: Path) {
    (TakesOriginal(c) && c.originalPath == path) || (GivesOutput(c) && c.path == path)
  }

  function AfterChange(c: Change, path: Path): Option<File> {
    if GivesOutput(c) && c.path == path then Some(Output(c)) else None
  }

  /** Independent changes commute, so the intended tree is given path by path:
      the one change that touches a path decides it. */
  lemma {:induction false} AppliedAt(changes: seq<Change>, tree: Tree, path: Path, k: nat)
    requires forall i, j :: 0 <= i < j < |changes| ==> Independent(changes[i], changes[j])
    requires k < |changes| ==> Touches(changes[k], path)
    requires k >= |changes| ==> forall i :: 0 <= i < |changes| ==> !Touches(changes[i], path)
    ensures Get(Applied(changes, tree), path)
            == if k < |changes| then AfterChange(changes[k], path) else Get(tree, path)
    decreases |changes|
  {
    if changes != [] {
      var n := |changes| - 1;
      if k != n {
        if k < n {
          assert Independent(changes[k], changes[n]);
        }
        AppliedAt(changes[..n], tree, path, k);
      }
    }
  }
}
