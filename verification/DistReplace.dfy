/** Installing a freshly built tree by two renames, with the previous tree recoverable whatever fails. */
module DistReplace {
  import opened Wrappers

  /** A directory tree, by the sorted list of its entries. */
  type Tree = seq<string>
  type ScratchId = nat

  /** `preserved` says that the error names the copy kept in the scratch tree. */
  datatype Failure = Failure(code: string, preserved: bool)

  /** Which of the file operations raise OSError. A failed rename changes nothing. */
  datatype Luck = Luck(asideFails: bool, parentFails: bool, installFails: bool, restoreFails: bool)

  const REPLACE_FAILED: string := "DIST_REPLACE_FAILED"

  /** The installed tree, and the two slots of the scratch tree: the build's output and the tree moved aside. */
  datatype Disk = Disk(dist: Option<Tree>, output: Option<Tree>, aside: Option<Tree>)

  /** The paths `_replace_dist` renames between. */
  class Files {
    var dist: Option<Tree>
    var output: Option<Tree>
    var aside: Option<Tree>

    constructor (disk: Disk)
      ensures Disk(dist, output, aside) == disk
    {
      dist, output, aside := disk.dist, disk.output, disk.aside;
    }

    method ReplaceDist(luck: Luck) returns (failure: Option<Failure>)
      requires output.Some? && aside.None?
      modifies this
      ensures (Disk(dist, output, aside), failure) == Replaced(old(Disk(dist, output, aside)), luck)
    {
      var kept := false;
      if dist.Some? {
        if luck.asideFails {
          return Some(Failure(REPLACE_FAILED, false));
        }
        aside, dist := dist, None;
        kept := true;
      }
      if luck.parentFails || luck.installFails {
        if kept {
          if luck.restoreFails {
            return Some(Failure(REPLACE_FAILED, true));
          }
          dist, aside := aside, None;
        }
        return Some(Failure(REPLACE_FAILED, false));
      }
      dist, output := output, None;
      return None;
    }
  }

  function Replaced(disk: Disk, luck: Luck): (Disk, Option<Failure>) {
    if disk.dist.Some? && luck.asideFails then (disk, Some(Failure(REPLACE_FAILED, false)))
    else
      var moved := if disk.dist.Some? then disk.(dist := None, aside := disk.dist) else disk;
      if !luck.parentFails && !luck.installFails then (moved.(dist := disk.output, output := None), None)
      else if disk.dist.None? then (moved, Some(Failure(REPLACE_FAILED, false)))
      else if luck.restoreFails then (moved, Some(Failure(REPLACE_FAILED, true)))
      else (disk, Some(Failure(REPLACE_FAILED, false)))
  }

  /** One refresh: the build either fails before anything is replaced or leaves a tree in the scratch
      output; an equal tree is left alone; the scratch tree is removed unless the error names it. */
  datatype Attempt = BuildFails(code: string) | Builds(tree: Tree, luck: Luck)

  /** The installed tree, and the scratch trees still on disk with what was moved aside into them. */
  datatype World = World(dist: Option<Tree>, kept: map<ScratchId, Tree>)

  function Refreshed(w: World, id: ScratchId, attempt: Attempt): (World, Option<Failure>) {
    match attempt
    case BuildFails(code) => (w, Some(Failure(code, false)))
    case Builds(tree, luck) =>
      if w.dist == Some(tree) then (w, None)
      else
        var (disk, failure) := Replaced(Disk(w.dist, Some(tree), None), luck);
        var abandon := failure.Some? && failure.value.preserved;
        (World(disk.dist, if abandon && disk.aside.Some? then w.kept[id := disk.aside.value] else w.kept), failure)
  }

  /** A run of refreshes, each with a scratch id not used before; the ids and failures are returned in order. */
  function AfterRefreshes(w: World, attempts: seq<Attempt>): World
  {
    if attempts == [] then w
    else Refreshed(AfterRefreshes(w, attempts[..|attempts| - 1]), |attempts| - 1, attempts[|attempts| - 1]).0
  }

  /** The tree the last successful refresh installed or confirmed; before the first, the one there at the start. */
  function LastInstalled(w: World, attempts: seq<Attempt>): Option<Tree>
  {
    if attempts == [] then w.dist
    else
      var front, last := attempts[..|attempts| - 1], attempts[|attempts| - 1];
      if Refreshed(AfterRefreshes(w, front), |attempts| - 1, last).1.None? then Some(last.tree)
      else LastInstalled(w, front)
  }

  /** The refresh whose error named the copy that still holds a tree. */
  ghost predicate NamedCopy(w: World, attempts: seq<Attempt>, k: nat, tree: Tree) {
    && k < |attempts|
    && Refreshed(AfterRefreshes(w, attempts[..k]), k, attempts[k]).1 == Some(Failure(REPLACE_FAILED, true))
    && k in AfterRefreshes(w, attempts).kept && AfterRefreshes(w, attempts).kept[k] == tree
  }

  lemma {:induction false} KeptStays(w: World, attempts: seq<Attempt>, last: Attempt, k: nat, tree: Tree)
    requires NamedCopy(w, attempts, k, tree)
    ensures NamedCopy(w, attempts + [last], k, tree)
  {
    var longer := attempts + [last];
    assert longer[..k] == attempts[..k] && longer[k] == attempts[k];
    assert longer[..|longer| - 1] == attempts;
  }

  /** A refresh that reports success has its tree installed; its error names a copy exactly when a tree was
      moved aside and neither the install nor the way back worked. */
  lemma {:induction false} RefreshReports(w: World, id: ScratchId, tree: Tree, luck: Luck)
    ensures var (after, failure) := Refreshed(w, id, Builds(tree, luck));
            && (failure.None? ==> after.dist == Some(tree) && after.kept == w.kept)
            && (failure.Some? && failure.value.preserved <==>
                w.dist.Some? && w.dist != Some(tree) && !luck.asideFails &&
                (luck.parentFails || luck.installFails) && luck.restoreFails)
            && (failure.Some? && !failure.value.preserved ==> after == w)
            && (failure.Some? && failure.value.preserved ==>
                after.dist.None? && after.kept == w.kept[id := w.dist.value])
  {
  }

  /** The last installed tree is installed, or lies untouched in a scratch copy that an error named. */
  ghost predicate Safe(w: World, attempts: seq<Attempt>) {
    var tree, now := LastInstalled(w, attempts), AfterRefreshes(w, attempts);
    && (tree.Some? ==> now.dist == tree || exists k :: NamedCopy(w, attempts, k, tree.value))
    && (now.dist.Some? ==> now.dist == tree)
    && (tree.None? ==> now.dist.None? && now.kept == map[])
  }

  lemma {:induction false} OneMore(w: World, front: seq<Attempt>, last: Attempt)
    ensures var (after, failure) := Refreshed(AfterRefreshes(w, front), |front|, last);
            && AfterRefreshes(w, front + [last]) == after
            && LastInstalled(w, front + [last]) == if failure.None? then Some(last.tree) else LastInstalled(w, front)
  {
    assert (front + [last])[..|front|] == front;
  }

  lemma {:induction false} JustNamed(w: World, front: seq<Attempt>, last: Attempt, tree: Tree)
    requires AfterRefreshes(w, front).dist == Some(tree)
    requires Refreshed(AfterRefreshes(w, front), |front|, last).1 == Some(Failure(REPLACE_FAILED, true))
    ensures NamedCopy(w, front + [last], |front|, tree)
  {
    assert (front + [last])[..|front|] == front;
    RefreshReports(AfterRefreshes(w, front), |front|, last.tree, last.luck);
  }

  lemma {:induction false} SafeStep(w: World, front: seq<Attempt>, last: Attempt)
    requires Safe(w, front)
    ensures Safe(w, front + [last])
  {
    var before := AfterRefreshes(w, front);
    var tree := LastInstalled(w, front);
    OneMore(w, front, last);
    if last.Builds? {
      RefreshReports(before, |front|, last.tree, last.luck);
    }
    if Refreshed(before, |front|, last).1.Some? && tree.Some? {
      if before.dist != tree {
        var k :| NamedCopy(w, front, k, tree.value);
        KeptStays(w, front, last, k, tree.value);
      } else if AfterRefreshes(w, front + [last]).dist != tree {
        JustNamed(w, front, last, tree.value);
      }
    }
  }

  /** Whatever fails in whatever refreshes, the last installed tree is never lost: it is installed, or it
      lies untouched in the scratch copy that the failing refresh's error named. */
  lemma {:induction false} NeverLost(w: World, attempts: seq<Attempt>)
    requires w.kept == map[]
    ensures var tree := LastInstalled(w, attempts); var now := AfterRefreshes(w, attempts);
            && (tree.Some? ==> now.dist == tree || exists k :: NamedCopy(w, attempts, k, tree.value))
            && (now.dist.Some? ==> now.dist == tree)
            && (tree.None? ==> now.dist.None? && now.kept == map[])
  {
    if attempts == [] {
      assert Safe(w, attempts);
    } else {
      var front := attempts[..|attempts| - 1];
      NeverLost(w, front);
      assert Safe(w, front);
      SafeStep(w, front, attempts[|attempts| - 1]);
      assert attempts == front + [attempts[|attempts| - 1]];
    }
  }
}
