/**
The restore: back up what is there now, then swap every backed-up tree into
place through a staging sibling.
*/
module Restores {
  import opened Wrappers
  import opened FileTree
  import opened Sorting
  import opened DiskSteps
  import opened Retention
  import opened RunNames
  import opened Backups
  import opened Resets

  function StagingPath(dest: Path): Path
    requires dest != []
  {
    dest[..|dest| - 1] + ["." + dest[|dest| - 1] + ".zirv-restore-tmp"]
  }

  lemma StagingApart(dest: Path)
    requires dest != []
    ensures Disjoint(dest, StagingPath(dest))
  {
    var parent, name := dest[..|dest| - 1], dest[|dest| - 1];
    assert dest == parent + [name];
    assert |"." + name + ".zirv-restore-tmp"| > |name|;
    SiblingsDisjoint(parent, name, "." + name + ".zirv-restore-tmp");
  }

  /** Best effort: clears the staging path, or leaves part of what was there. */
  method RemoveStaged(disk: Disk, path: Path)
    requires disk.Valid() && path != []
    modifies disk
    ensures disk.Valid() && Evolved(old(disk.history), disk.history, {path})
    ensures Lookup(disk.root, path).Some? ==>
              Lookup(old(disk.root), path).Some? &&
              Shrunk(Lookup(disk.root, path).value, Lookup(old(disk.root), path).value)
    ensures old(disk.faults) <= disk.faults && (disk.calm ==> disk.faults == old(disk.faults))
    ensures disk.faults == old(disk.faults) ==> Lookup(disk.root, path).None?
    ensures disk.faults == old(disk.faults) && Reachable(old(disk.root), path) ==> Reachable(disk.root, path)
    ensures Lookup(old(disk.root), path).None? ==> disk.root == old(disk.root)
  {
    if Lookup(disk.root, path).Some? {
      PutSame(disk.root, path);
      RemovedIsReachable(disk.root, path);
      var _ := disk.RemoveNode(path);
    }
  }

  /** What a failed cleanup can have left at the staging path. */
  ghost predicate Leftover(left: Option<Node>, t: Node, staging: Path) {
    left.Some? ==> Lookup(t, staging).Some? && Shrunk(left.value, Lookup(t, staging).value)
  }

  /** At `s` the old destination is whole, or a complete copy is staged or in place. */
  ghost predicate SwapSafe(s: Node, before: Node, dest: Path, staging: Path, copy: Node) {
    || Lookup(s, dest) == Lookup(before, dest)
    || Lookup(s, staging) == Some(copy)
    || Lookup(s, dest) == Some(copy)
  }

  ghost predicate SwapSafeSince(h0: seq<Node>, h1: seq<Node>, dest: Path, staging: Path, copy: Node)
    requires h0 != []
  {
    forall k | |h0| <= k < |h1| :: SwapSafe(h1[k], Last(h0), dest, staging, copy)
  }

  /**
   Copy first, swap second. The result is the backup laid over whatever the
   cleanup left staged; until a complete copy is staged the destination is
   untouched. Only a destination removed in part can end up nowhere whole.
   When no step fails, nothing but a link or a blocked way can stop it.
   */
  method RestoreTarget(disk: Disk, backup: Path, dest: Path) returns (r: Result<(), Failure>, ghost left: Option<Node>)
    requires disk.Valid() && dest != []
    requires Disjoint(backup, dest) && Disjoint(backup, StagingPath(dest))
    modifies disk
    ensures disk.Valid() && Evolved(old(disk.history), disk.history, {dest, StagingPath(dest)})
    ensures Leftover(left, old(disk.root), StagingPath(dest))
    ensures r.Ok? ==>
              && Lookup(old(disk.root), backup).Some? && SymlinkFree(Lookup(old(disk.root), backup).value)
              && Lookup(disk.root, dest) == Some(Overlay(left, Lookup(old(disk.root), backup).value))
              && Lookup(disk.root, StagingPath(dest)).None?
    ensures Lookup(old(disk.root), dest).Some? && Lookup(old(disk.root), dest).value.Symlink? ==>
              r == Err(RefusedTarget) && disk.history == old(disk.history)
    ensures r in {Err(RefusedTarget), Err(CopyFailed)} ==>
              forall k | |old(disk.history)| <= k < |disk.history| ::
                Lookup(disk.history[k], dest) == Lookup(old(disk.root), dest)
    ensures (r.Ok? || r == Err(RenameFailed)) ==>
              SwapSafeSince(old(disk.history), disk.history, dest, StagingPath(dest),
                            Overlay(left, NodeAt(old(disk.root), backup)))
    ensures r == Err(RenameFailed) ==>
              Lookup(disk.root, StagingPath(dest)) == Some(Overlay(left, NodeAt(old(disk.root), backup)))
    ensures disk.calm ==> left.None?
    ensures r.Ok? ==> CanRestore(old(disk.root), backup, dest)
    ensures disk.faults == old(disk.faults) && CanRestore(old(disk.root), backup, dest) ==> r.Ok?
    ensures disk.calm && r.Err? ==> r.error in {RefusedTarget, CopyFailed}
    ensures disk.calm && r == Err(CopyFailed) ==> Lookup(disk.root, StagingPath(dest)).None?
    // and a failure leaves a stray copy behind only when the cleanup was refused too
    ensures old(disk.faults) <= disk.faults && (disk.calm ==> disk.faults == old(disk.faults))
    ensures r in {Err(CopyFailed), Err(RemovalFailed)} && Lookup(disk.root, StagingPath(dest)).Some? ==>
              disk.faults >= old(disk.faults) + if CanRestore(old(disk.root), backup, dest) then 2 else 1
  {
    left := None;
    var current := Lookup(disk.root, dest);
    if current.Some? && current.value.Symlink? {
      return Err(RefusedTarget), left;
    }
    var staging := StagingPath(dest);
    StagingApart(dest);
    ghost var h0, before := disk.history, disk.root;
    var copied;
    copied, left := StageCopy(disk, backup, dest);
    ghost var h1, staged := disk.history, disk.root;
    EvolvedSuperset(h0, h1, {staging}, {dest, staging});
    DestUntouched(h0, h1, dest, staging);
    if !copied {
      return Err(CopyFailed), left;
    }
    var removed := true;
    if Lookup(disk.root, dest).Some? {
      removed := disk.RemoveNode(dest);
    }
    ghost var h2 := disk.history;
    EvolvedSuperset(h1, h2, {dest}, {dest, staging});
    EvolvedTrans(h0, h1, h2, {dest, staging});
    StagedKept(h1, h2, dest, staging);
    StagedHasParent(disk.root, dest);
    if !removed {
      RemoveStaged(disk, staging);
      EvolvedSuperset(h2, disk.history, {staging}, {dest, staging});
      EvolvedTrans(h0, h2, disk.history, {dest, staging});
      return Err(RemovalFailed), left;
    }
    var renamed := disk.Rename(staging, dest);
    EvolvedSuperset(h2, disk.history, {staging, dest}, {dest, staging});
    EvolvedTrans(h0, h2, disk.history, {dest, staging});
    SwapWasSafe(h0, h1, h2, disk.history, dest, staging, Overlay(left, NodeAt(before, backup)));
    r := if renamed then Ok(()) else Err(RenameFailed);
  }

  /** Enough for a restore of one target to go through on a calm disk. */
  ghost predicate CanRestore(t: Node, backup: Path, dest: Path) {
    && Lookup(t, backup).Some? && SymlinkFree(Lookup(t, backup).value)
    && Reachable(t, dest) && (Lookup(t, dest).Some? ==> !Lookup(t, dest).value.Symlink?)
  }

  /** The staging sibling stands in the same directory as the destination. */
  lemma StagedHasParent(t: Node, dest: Path)
    requires dest != []
    ensures Reachable(t, StagingPath(dest)) <==> Reachable(t, dest)
    ensures Lookup(t, StagingPath(dest)).Some? ==> HasParent(t, dest)
  {
    var parent, name := dest[..|dest| - 1], dest[|dest| - 1];
    assert dest == parent + [name];
    SiblingsShareParent(t, parent, "." + name + ".zirv-restore-tmp", name);
  }

  /** Clears the staging path and copies the backup there. */
  method StageCopy(disk: Disk, backup: Path, dest: Path) returns (copied: bool, ghost left: Option<Node>)
    requires disk.Valid() && dest != [] && Disjoint(backup, StagingPath(dest))
    modifies disk
    ensures disk.Valid() && Evolved(old(disk.history), disk.history, {StagingPath(dest)})
    ensures Leftover(left, old(disk.root), StagingPath(dest))
    ensures copied ==>
              && Lookup(old(disk.root), backup).Some? && SymlinkFree(Lookup(old(disk.root), backup).value)
              && Lookup(disk.root, StagingPath(dest)) == Some(Overlay(left, Lookup(old(disk.root), backup).value))
    ensures disk.calm ==> left.None?
    ensures disk.faults == old(disk.faults) && CanRestore(old(disk.root), backup, dest) ==> copied
    ensures copied ==> Reachable(old(disk.root), dest)
    ensures disk.calm && !copied ==> Lookup(disk.root, StagingPath(dest)).None?
    ensures old(disk.faults) <= disk.faults && (disk.calm ==> disk.faults == old(disk.faults))
    ensures !copied && Lookup(disk.root, StagingPath(dest)).Some? ==>
              disk.faults >= old(disk.faults) + if CanRestore(old(disk.root), backup, dest) then 2 else 1
  {
    var staging := StagingPath(dest);
    StagedHasParent(disk.root, dest);
    if Lookup(disk.root, staging).Some? {
      ParentReaches(disk.root, dest);
    }
    RemoveStaged(disk, staging);
    ghost var h, cleared := disk.history, disk.root;
    left := Lookup(disk.root, staging);
    EvolvedTrans(old(disk.history), h, h, {staging});
    assert Apart(backup, {staging});
    copied := disk.CopyForBackup(backup, staging);
    EvolvedTrans(old(disk.history), h, disk.history, {staging});
    if copied {
      CopyLands(cleared, disk.root, backup, staging);
    } else {
      ghost var h' := disk.history;
      RemoveStaged(disk, staging);
      EvolvedTrans(old(disk.history), h', disk.history, {staging});
    }
  }

  lemma DestUntouched(h0: seq<Node>, h1: seq<Node>, dest: Path, staging: Path)
    requires Evolved(h0, h1, {staging}) && Disjoint(dest, staging)
    ensures forall k | |h0| <= k < |h1| :: Lookup(h1[k], dest) == Lookup(Last(h0), dest)
    ensures Lookup(Last(h1), dest) == Lookup(Last(h0), dest)
  {
  }

  lemma StagedKept(h1: seq<Node>, h2: seq<Node>, dest: Path, staging: Path)
    requires Evolved(h1, h2, {dest}) && Disjoint(dest, staging)
    ensures forall k | |h1| <= k < |h2| :: Lookup(h2[k], staging) == Lookup(Last(h1), staging)
    ensures Lookup(Last(h2), staging) == Lookup(Last(h1), staging)
  {
  }

  lemma SwapWasSafe(
    h0: seq<Node>, h1: seq<Node>, h2: seq<Node>, h3: seq<Node>, dest: Path, staging: Path, copy: Node
  )
    requires h0 != [] && h0 <= h1 <= h2 <= h3 && |h3| <= |h2| + 1
    requires forall k | |h0| <= k < |h1| :: Lookup(h1[k], dest) == Lookup(Last(h0), dest)
    requires forall k | |h1| <= k < |h2| :: Lookup(h2[k], staging) == Some(copy)
    requires |h3| > |h2| ==> Lookup(Last(h3), dest) == Some(copy)
    ensures SwapSafeSince(h0, h3, dest, staging, copy)
  {
  }

  /** Nothing is staged, or nothing that the tree to be copied there does not hold too. */
  ghost predicate StagingHarmless(t: Node, staging: Path, tree: Node) {
    Lookup(t, staging).None? || Covered(Lookup(t, staging).value, tree)
  }

  /** The restored tree is the backed-up one, however the cleanup goes, exactly when what is staged is harmless. */
  lemma NoLeftoverIsExact(t: Node, staging: Path, backup: Node)
    ensures (forall left | Leftover(left, t, staging) :: Overlay(left, backup) == backup) <==>
              StagingHarmless(t, staging, backup)
  {
    forall left | Leftover(left, t, staging) && StagingHarmless(t, staging, backup)
      ensures Overlay(left, backup) == backup
    {
      if left.None? {
        OverlayNothing(backup);
      } else {
        ShrunkIsCovered(left.value, Lookup(t, staging).value, backup);
        OverlayIsExact(left.value, backup);
      }
    }
    if Lookup(t, staging).Some? {
      var staged := Lookup(t, staging).value;
      ShrunkReflexive(staged);
      assert Leftover(Some(staged), t, staging);
      OverlayIsExact(staged, backup);
    }
  }

  // ------------------------------------------------------ a whole restore

  datatype BackupRun = BackupRun(id: RunId, dir: Path, manifest: Manifest)

  datatype RestoreArgs = RestoreArgs(dryRun: bool, yes: bool, includeAuth: bool)

  const CREDENTIALS: set<Name> := {".credentials.json", "auth.json"}

  predicate IsAuth(source: Path) {
    source != [] && source[|source| - 1] in CREDENTIALS
  }

  /** The targets a restore acts on; the others are credentials it skips. */
  function Chosen(targets: seq<ManifestTarget>, includeAuth: bool): seq<ManifestTarget> {
    if targets == [] then []
    else
      (if IsAuth(targets[0].source) && !includeAuth then [] else [targets[0]]) +
      Chosen(targets[1..], includeAuth)
  }

  function Sources(targets: seq<ManifestTarget>): (ps: seq<Path>)
    ensures |ps| == |targets| && forall i | 0 <= i < |ps| :: ps[i] == targets[i].source
  {
    seq(|targets|, i requires 0 <= i < |targets| => targets[i].source)
  }

  ghost predicate Placed(root: Path, backupRoot: Path, dir: Path, target: ManifestTarget) {
    var source := target.source;
    && root <= source && |root| < |source|
    && Disjoint(backupRoot, source) && Disjoint(backupRoot, StagingPath(source))
    && Disjoint(dir, source) && Disjoint(dir, StagingPath(source))
  }

  ghost predicate Separate(a: ManifestTarget, b: ManifestTarget) {
    && a.source != [] && b.source != []
    && Disjoint(a.source, b.source)
    && Disjoint(StagingPath(a.source), b.source) && Disjoint(StagingPath(b.source), a.source)
  }

  /** Targets and staging siblings keep out of each other's way and out of the runs. */
  ghost predicate RestoreLayout(root: Path, backupRoot: Path, dir: Path, targets: seq<ManifestTarget>) {
    && (forall i | 0 <= i < |targets| :: Placed(root, backupRoot, dir, targets[i]))
    && forall i, j | 0 <= i < j < |targets| :: Separate(targets[i], targets[j])
  }

  lemma StagingsDisjoint(a: Path, b: Path)
    requires a != [] && b != [] && Disjoint(a, b)
    requires Disjoint(StagingPath(a), b) && Disjoint(StagingPath(b), a)
    ensures Disjoint(StagingPath(a), StagingPath(b))
  {
    var sa, sb := StagingPath(a), StagingPath(b);
    if |a| == |b| {
      if a[..|a| - 1] == b[..|b| - 1] {
        assert a == a[..|a| - 1] + [a[|a| - 1]] && b == b[..|b| - 1] + [b[|b| - 1]];
        var x, y := a[|a| - 1], b[|b| - 1];
        assert ("." + x + ".zirv-restore-tmp")[1..|x| + 1] == x;
        assert ("." + y + ".zirv-restore-tmp")[1..|y| + 1] == y;
        assert |"." + x + ".zirv-restore-tmp"| == |x| + 18;
        assert |"." + y + ".zirv-restore-tmp"| == |y| + 18;
        SiblingsDisjoint(a[..|a| - 1], "." + x + ".zirv-restore-tmp", "." + y + ".zirv-restore-tmp");
      } else {
        assert sa[..|a| - 1] == a[..|a| - 1] && sb[..|b| - 1] == b[..|b| - 1];
      }
    } else if |a| < |b| {
      assert sb[..|a|] == b[..|a|];
    } else {
      assert sa[..|b|] == a[..|b|];
    }
  }

  lemma {:induction false} ChosenMembers(targets: seq<ManifestTarget>, includeAuth: bool)
    ensures forall x :: x in Chosen(targets, includeAuth) <==>
              x in targets && !(IsAuth(x.source) && !includeAuth)
  {
    if targets != [] {
      ChosenMembers(targets[1..], includeAuth);
      assert targets == [targets[0]] + targets[1..];
    }
  }

  lemma LayoutTail(root: Path, backupRoot: Path, dir: Path, targets: seq<ManifestTarget>)
    requires RestoreLayout(root, backupRoot, dir, targets) && targets != []
    ensures RestoreLayout(root, backupRoot, dir, targets[1..])
    ensures forall x | x in targets[1..] :: Separate(targets[0], x)
  {
  }

  lemma LayoutCons(root: Path, backupRoot: Path, dir: Path, x: ManifestTarget, targets: seq<ManifestTarget>)
    requires RestoreLayout(root, backupRoot, dir, targets) && Placed(root, backupRoot, dir, x)
    requires forall y | y in targets :: Separate(x, y)
    ensures RestoreLayout(root, backupRoot, dir, [x] + targets)
  {
  }

  lemma {:induction false} ChosenLayout(
    root: Path, backupRoot: Path, dir: Path, targets: seq<ManifestTarget>, includeAuth: bool
  )
    requires RestoreLayout(root, backupRoot, dir, targets)
    ensures RestoreLayout(root, backupRoot, dir, Chosen(targets, includeAuth))
  {
    if targets != [] {
      LayoutTail(root, backupRoot, dir, targets);
      ChosenLayout(root, backupRoot, dir, targets[1..], includeAuth);
      ChosenMembers(targets[1..], includeAuth);
      var x, rest := targets[0], Chosen(targets[1..], includeAuth);
      LayoutCons(root, backupRoot, dir, x, rest);
    }
  }

  /** Two different targets keep out of each other's way. */
  lemma TargetsSeparate(
    root: Path, backupRoot: Path, dir: Path, targets: seq<ManifestTarget>, s: ManifestTarget, c: ManifestTarget
  )
    requires RestoreLayout(root, backupRoot, dir, targets) && s in targets && c in targets && s != c
    ensures Separate(s, c) || Separate(c, s)
  {
    var i :| 0 <= i < |targets| && targets[i] == s;
    var j :| 0 <= j < |targets| && targets[j] == c;
    assert if i < j then Separate(targets[i], targets[j]) else Separate(targets[j], targets[i]);
  }

  lemma LayoutIsWellPlaced(root: Path, backupRoot: Path, dir: Path, targets: seq<ManifestTarget>)
    requires RestoreLayout(root, backupRoot, dir, targets)
    ensures WellPlaced(root, backupRoot, Sources(targets))
  {
  }

  // ------------------------------------------------ target by target

  /** The two places restoring a target may write to. */
  ghost function Spots(x: ManifestTarget): set<Path> {
    if x.source == [] then {} else {x.source, StagingPath(x.source)}
  }

  ghost function AllSpots(targets: seq<ManifestTarget>): set<Path> {
    set x, p | x in targets && p in Spots(x) :: p
  }

  /**
   One target restored: the backed-up tree over whatever stale staging could
   not be cleared (nothing, after a clean sweep), or nothing where nothing had
   been.
   */
  ghost predicate TargetRestored(before: Node, after: Node, dir: Path, x: ManifestTarget, clean: bool) {
    && x.source != [] && (Reachable(before, x.source) ==> Reachable(after, x.source)) &&
    var backup := Lookup(before, FilesPath(dir, x.relative));
    var staging := StagingPath(x.source);
    if x.existedBefore then
      && backup.Some? && SymlinkFree(backup.value)
      && Lookup(after, staging).None?
      && exists left ::
           && Leftover(left, before, staging) && (clean ==> left.None?)
           && Lookup(after, x.source) == Some(Overlay(left, backup.value))
    else
      && !Exists(after, x.source) && (Exists(before, x.source) ==> Lookup(after, x.source).None?)
      && Lookup(after, staging) == Lookup(before, staging)
  }

  ghost predicate AllRestored(before: Node, after: Node, dir: Path, targets: seq<ManifestTarget>, clean: bool) {
    forall i | 0 <= i < |targets| :: TargetRestored(before, after, dir, targets[i], clean)
  }

  /** What is staged beside `x` cannot show in a restore of it from the run at `dir`. */
  ghost predicate RowHarmless(t: Node, dir: Path, x: ManifestTarget) {
    var backup := Lookup(t, FilesPath(dir, x.relative));
    x.existedBefore && backup.Some? ==>
      x.source != [] && StagingHarmless(t, StagingPath(x.source), backup.value)
  }

  lemma RestoredExactly(before: Node, after: Node, dir: Path, x: ManifestTarget, clean: bool)
    requires TargetRestored(before, after, dir, x, clean) && x.existedBefore
    requires clean || RowHarmless(before, dir, x)
    ensures Lookup(after, x.source) == Lookup(before, FilesPath(dir, x.relative))
  {
    var backup := Lookup(before, FilesPath(dir, x.relative)).value;
    var left :| Leftover(left, before, StagingPath(x.source)) && (clean ==> left.None?) &&
                Lookup(after, x.source) == Some(Overlay(left, backup));
    NoLeftoverIsExact(before, StagingPath(x.source), backup);
    OverlayNothing(backup);
  }

  /** A restore that could not clear a stale staging directory, and what it left in place. */
  lemma StaleStagingLeaksIn()
    ensures var stale := Dir(map["stale.md" := File(Raw([]))]);
            var backup := Dir(map["rule.md" := File(Raw([]))]);
            var run := Dir(map[FILES := Dir(map["rules" := backup])]);
            var x := ManifestTarget(["rules"], ["rules"], true);
            var before := Dir(map["run" := run, ".rules.zirv-restore-tmp" := stale]);
            var after := Dir(map["run" := run, "rules" := Overlay(Some(stale), backup)]);
            && Lookup(before, StagingPath(["rules"])) == Some(stale)
            && TargetRestored(before, after, ["run"], x, false)
            && Lookup(after, ["rules"]) != Lookup(before, FilesPath(["run"], ["rules"]))
  {
    var stale := Dir(map["stale.md" := File(Raw([]))]);
    var backup := Dir(map["rule.md" := File(Raw([]))]);
    var run := Dir(map[FILES := Dir(map["rules" := backup])]);
    var before := Dir(map["run" := run, ".rules.zirv-restore-tmp" := stale]);
    var after := Dir(map["run" := run, "rules" := Overlay(Some(stale), backup)]);
    StagingOfRules();
    LookupChild(before, ".rules.zirv-restore-tmp");
    LookupChild(after, ".rules.zirv-restore-tmp");
    LookupChild(after, "rules");
    BackupOfRules(before, run, backup);
    ShrunkReflexive(stale);
    assert Leftover(Some(stale), before, StagingPath(["rules"]));
    assert "stale.md" !in backup.entries && "stale.md" in stale.entries;
    assert !Covered(stale, backup);
    OverlayIsExact(stale, backup);
    assert Lookup(after, ["rules"]) == Some(Overlay(Some(stale), backup));
  }

  lemma StagingOfRules()
    ensures StagingPath(["rules"]) == [".rules.zirv-restore-tmp"]
  {
    assert "." + "rules" + ".zirv-restore-tmp" == ".rules.zirv-restore-tmp";
  }

  lemma BackupOfRules(t: Node, run: Node, backup: Node)
    requires t.Dir? && "run" in t.entries && t.entries["run"] == run
    requires run == Dir(map[FILES := Dir(map["rules" := backup])])
    ensures Lookup(t, FilesPath(["run"], ["rules"])) == Some(backup)
  {
    LookupChild(t, "run");
    LookupChild(run, FILES);
    LookupChild(Dir(map["rules" := backup]), "rules");
    LookupAppend(t, ["run"], [FILES]);
    LookupAppend(t, ["run"] + [FILES], ["rules"]);
  }

  /** Enough for a row of a run to be restored on a calm disk. */
  ghost predicate CanRestoreRow(t: Node, dir: Path, x: ManifestTarget) {
    if x.existedBefore then CanRestore(t, FilesPath(dir, x.relative), x.source)
    else Exists(t, x.source) ==> !Lookup(t, x.source).value.Symlink?
  }

  method RestoreOne(disk: Disk, root: Path, backupRoot: Path, dir: Path, x: ManifestTarget)
    returns (r: Result<(), Failure>)
    requires disk.Valid() && Placed(root, backupRoot, dir, x)
    modifies disk
    ensures disk.Valid() && Evolved(old(disk.history), disk.history, Spots(x))
    ensures r.Ok? ==> TargetRestored(old(disk.root), disk.root, dir, x, disk.calm)
    ensures r.Ok? ==> CanRestoreRow(old(disk.root), dir, x)
    ensures old(disk.faults) <= disk.faults && (disk.calm ==> disk.faults == old(disk.faults))
    ensures disk.faults == old(disk.faults) && CanRestoreRow(old(disk.root), dir, x) ==> r.Ok?
    ensures disk.calm && r.Err? ==> Lookup(disk.root, x.source) == Lookup(old(disk.root), x.source)
  {
    ghost var before := disk.root;
    StagingApart(x.source);
    if x.existedBefore {
      var backup := FilesPath(dir, x.relative);
      BackupApart(dir, x);
      ghost var left;
      r, left := RestoreTarget(disk, backup, x.source);
      assert r.Ok? ==> Leftover(left, before, StagingPath(x.source));
      if r.Ok? {
        PutSame(disk.root, x.source);
      }
    } else if Exists(disk.root, x.source) {
      r := RemoveResetTarget(disk, x.source, root);
      DestUntouched(old(disk.history), disk.history, StagingPath(x.source), x.source);
      EvolvedSuperset(old(disk.history), disk.history, {x.source}, Spots(x));
    } else {
      r := Ok(());
    }
  }

  lemma BackupApart(dir: Path, x: ManifestTarget)
    requires x.source != [] && Disjoint(dir, x.source) && Disjoint(dir, StagingPath(x.source))
    ensures Disjoint(FilesPath(dir, x.relative), x.source)
    ensures Disjoint(FilesPath(dir, x.relative), StagingPath(x.source))
  {
  }

  /** Whether a target is restored depends on its own two spots and its backup. */
  lemma RestoredDependsOnItsSpots(
    before: Node, before': Node, after: Node, after': Node, dir: Path, x: ManifestTarget, clean: bool
  )
    requires TargetRestored(before, after, dir, x, clean)
    requires Lookup(before, FilesPath(dir, x.relative)) == Lookup(before', FilesPath(dir, x.relative))
    requires forall p | p in Spots(x) ::
               Lookup(before', p) == Lookup(before, p) && Lookup(after', p) == Lookup(after, p)
    requires StillOpenAt(before', before, x.source) && StillOpenAt(after, after', x.source)
    ensures TargetRestored(before', after', dir, x, clean)
  {
    if x.existedBefore {
      var backup := Lookup(before, FilesPath(dir, x.relative)).value;
      var left :| Leftover(left, before, StagingPath(x.source)) && (clean ==> left.None?) &&
                  Lookup(after, x.source) == Some(Overlay(left, backup));
      assert Leftover(left, before', StagingPath(x.source));
    }
  }

  /** `y` has its spots, its backup and its way as they were. */
  ghost predicate RowUntouched(t: Node, t': Node, dir: Path, y: ManifestTarget) {
    && (forall p | p in Spots(y) :: Lookup(t', p) == Lookup(t, p))
    && Lookup(t', FilesPath(dir, y.relative)) == Lookup(t, FilesPath(dir, y.relative))
    && (y.source != [] ==> StillOpenAt(t, t', y.source))
  }

  /** Restoring one target leaves the others' spots and the run alone. */
  lemma OtherRowUntouched(
    h0: seq<Node>, h1: seq<Node>, root: Path, backupRoot: Path, dir: Path, x: ManifestTarget, y: ManifestTarget
  )
    requires Placed(root, backupRoot, dir, x) && (Separate(x, y) || Separate(y, x))
    requires Evolved(h0, h1, Spots(x))
    ensures RowUntouched(Last(h0), Last(h1), dir, y)
  {
    StagingsDisjoint(x.source, y.source);
    forall p | p in Spots(y) ensures Lookup(Last(h1), p) == Lookup(Last(h0), p) {
      assert Apart(p, Spots(x));
      StaysOpen(h0, h1, Spots(x), p);
    }
    BackupUntouched(h0, h1, root, backupRoot, dir, x, y.relative);
    assert Apart(y.source, Spots(x));
    StaysOpen(h0, h1, Spots(x), y.source);
  }

  lemma BackupUntouched(
    h0: seq<Node>, h1: seq<Node>, root: Path, backupRoot: Path, dir: Path, x: ManifestTarget, relative: Path
  )
    requires Placed(root, backupRoot, dir, x) && Evolved(h0, h1, Spots(x))
    ensures Lookup(Last(h1), FilesPath(dir, relative)) == Lookup(Last(h0), FilesPath(dir, relative))
  {
    BackupApart(dir, x.(relative := relative));
    assert Apart(FilesPath(dir, relative), Spots(x));
    StaysOpen(h0, h1, Spots(x), FilesPath(dir, relative));
  }

  lemma RowStillRestorable(t: Node, t': Node, dir: Path, y: ManifestTarget)
    requires RowUntouched(t, t', dir, y) && y.source != [] && CanRestoreRow(t, dir, y)
    ensures CanRestoreRow(t', dir, y)
  {
    assert y.source in Spots(y);
  }

  /** A row whose source is not among the failed ones is restored; on a calm disk the failed ones are untouched. */
  ghost predicate RestoredBut(
    before: Node, after: Node, dir: Path, targets: seq<ManifestTarget>, failed: seq<Path>, clean: bool
  ) {
    forall i | 0 <= i < |targets| :: RestoredOrFailed(before, after, dir, targets[i], failed, clean)
  }

  ghost predicate RestoredOrFailed(
    before: Node, after: Node, dir: Path, x: ManifestTarget, failed: seq<Path>, clean: bool
  ) {
    if x.source !in failed then TargetRestored(before, after, dir, x, clean)
    else clean ==> Lookup(after, x.source) == Lookup(before, x.source)
  }

  /**
   The failed ones are sources of rows, none twice, and of rows that could be
   restored no more than steps were refused.
   */
  ghost predicate FailedAmong(
    before: Node, dir: Path, targets: seq<ManifestTarget>, failed: seq<Path>, refused: int
  ) {
    FailedSoFar(before, dir, targets, |targets|, failed, refused)
  }

  /** The rows that could be restored and failed all the same. */
  ghost function AbleFailed(before: Node, dir: Path, targets: seq<ManifestTarget>, failed: seq<Path>): set<int> {
    set i | 0 <= i < |targets| && targets[i].source in failed && CanRestoreRow(before, dir, targets[i])
  }

  ghost predicate FailedSoFar(
    before: Node, dir: Path, targets: seq<ManifestTarget>, n: nat, failed: seq<Path>, refused: int
  ) {
    && Distinct(failed)
    && (forall p | p in failed :: exists i :: 0 <= i < n && i < |targets| && targets[i].source == p)
    && |AbleFailed(before, dir, targets, failed)| <= refused
  }

  /** A partial restore: some rows failed, and only those are not restored. */
  ghost predicate PartRestored(
    before: Node, after: Node, dir: Path, targets: seq<ManifestTarget>, failed: seq<Path>, clean: bool, refused: int
  ) {
    && failed != [] && FailedAmong(before, dir, targets, failed, refused)
    && RestoredBut(before, after, dir, targets, failed, clean)
  }

  /** What a restore did, told by its result. */
  ghost predicate RestoreOutcome(
    before: Node, after: Node, dir: Path, targets: seq<ManifestTarget>, r: Result<int, Failure>,
    clean: bool, refused: int
  ) {
    && (r.Ok? ==> AllRestored(before, after, dir, targets, clean))
    && (r.Err? && r.error.PartlyRestored? ==>
          PartRestored(before, after, dir, targets, r.error.failed, clean, refused))
  }

  lemma OutcomeForMore(
    before: Node, after: Node, dir: Path, targets: seq<ManifestTarget>, r: Result<int, Failure>,
    clean: bool, refused: int, more: int
  )
    requires RestoreOutcome(before, after, dir, targets, r, clean, refused) && refused <= more
    ensures RestoreOutcome(before, after, dir, targets, r, clean, more)
  {
  }

  /** The rows before `i` are restored or failed, and those from `i` on as they were. */
  ghost predicate RestoredSoFar(
    before: Node, now: Node, dir: Path, targets: seq<ManifestTarget>, i: nat, failed: seq<Path>, clean: bool
  )
  {
    && (forall j | i <= j < |targets| :: RowUntouched(before, now, dir, targets[j]))
    && forall j | 0 <= j < i && j < |targets| :: RestoredOrFailed(before, now, dir, targets[j], failed, clean)
  }

  lemma OneMoreRestored(
    h0: seq<Node>, h1: seq<Node>, before: Node, root: Path, backupRoot: Path, dir: Path,
    targets: seq<ManifestTarget>, i: nat, failed: seq<Path>, ok: bool, clean: bool
  )
    requires RestoreLayout(root, backupRoot, dir, targets) && i < |targets|
    requires Evolved(h0, h1, Spots(targets[i])) && RestoredSoFar(before, Last(h0), dir, targets, i, failed, clean)
    requires forall p | p in failed :: exists j :: 0 <= j < i && targets[j].source == p
    requires if ok then TargetRestored(Last(h0), Last(h1), dir, targets[i], clean)
             else clean ==> Lookup(Last(h1), targets[i].source) == Lookup(Last(h0), targets[i].source)
    ensures RestoredSoFar(
              before, Last(h1), dir, targets, i + 1, failed + if ok then [] else [targets[i].source], clean)
  {
    var now, then_ := Last(h0), Last(h1);
    forall j | 0 <= j < |targets| && j != i ensures RowUntouched(now, then_, dir, targets[j]) {
      assert if i < j then Separate(targets[i], targets[j]) else Separate(targets[j], targets[i]);
      OtherRowUntouched(h0, h1, root, backupRoot, dir, targets[i], targets[j]);
    }
    forall j | i + 1 <= j < |targets| ensures RowUntouched(before, then_, dir, targets[j]) {
      RowUntouchedTrans(before, now, then_, dir, targets[j]);
    }
    if ok {
      RestoredDependsOnItsSpots(now, before, then_, then_, dir, targets[i], clean);
    }
    var failed' := failed + if ok then [] else [targets[i].source];
    forall j | 0 <= j <= i ensures RestoredOrFailed(before, then_, dir, targets[j], failed', clean) {
      if j < i {
        assert Separate(targets[j], targets[i]) && RestoredOrFailed(before, now, dir, targets[j], failed, clean);
        StillRestoredOrFailed(before, now, then_, dir, targets[j], failed, failed', clean);
      } else {
        NotFailedBefore(root, backupRoot, dir, targets, i, failed);
      }
    }
  }

  lemma NotFailedBefore(
    root: Path, backupRoot: Path, dir: Path, targets: seq<ManifestTarget>, i: nat, failed: seq<Path>
  )
    requires RestoreLayout(root, backupRoot, dir, targets) && i < |targets|
    requires forall p | p in failed :: exists j :: 0 <= j < i && targets[j].source == p
    ensures targets[i].source !in failed
  {
    forall j | 0 <= j < i ensures targets[j].source != targets[i].source {
      assert Separate(targets[j], targets[i]);
    }
  }

  lemma StillRestoredOrFailed(
    before: Node, now: Node, after: Node, dir: Path, x: ManifestTarget,
    failed: seq<Path>, failed': seq<Path>, clean: bool
  )
    requires RestoredOrFailed(before, now, dir, x, failed, clean) && (x.source in failed <==> x.source in failed')
    requires RowUntouched(now, after, dir, x) && x.source != []
    ensures RestoredOrFailed(before, after, dir, x, failed', clean)
  {
    assert x.source in Spots(x);
    if x.source !in failed {
      RestoredDependsOnItsSpots(before, before, now, after, dir, x, clean);
    }
  }

  lemma OneMoreFailed(
    before: Node, root: Path, backupRoot: Path, dir: Path, targets: seq<ManifestTarget>, i: nat,
    failed: seq<Path>, refused: int
  )
    requires RestoreLayout(root, backupRoot, dir, targets) && i < |targets|
    requires FailedSoFar(before, dir, targets, i, failed, refused)
    ensures FailedSoFar(before, dir, targets, i + 1, failed + [targets[i].source],
                        refused + if CanRestoreRow(before, dir, targets[i]) then 1 else 0)
  {
    NotFailedBefore(root, backupRoot, dir, targets, i, failed);
    AbleNext(before, root, backupRoot, dir, targets, i, failed);
    var all := failed + [targets[i].source];
    forall j, k | 0 <= j < k < |all| ensures all[j] != all[k] {
      assert failed[j] in failed;
    }
    forall p | p in all ensures exists j :: 0 <= j < i + 1 && j < |targets| && targets[j].source == p {
      if p in failed {
        var j :| 0 <= j < i && targets[j].source == p;
      }
    }
  }

  lemma AbleNext(
    before: Node, root: Path, backupRoot: Path, dir: Path, targets: seq<ManifestTarget>, i: nat, failed: seq<Path>
  )
    requires RestoreLayout(root, backupRoot, dir, targets) && i < |targets|
    ensures |AbleFailed(before, dir, targets, failed + [targets[i].source])| <=
              |AbleFailed(before, dir, targets, failed)| + if CanRestoreRow(before, dir, targets[i]) then 1 else 0
  {
    var then_, now := AbleFailed(before, dir, targets, failed),
                      AbleFailed(before, dir, targets, failed + [targets[i].source]);
    var self: set<int> := if CanRestoreRow(before, dir, targets[i]) then {i as int} else {};
    forall j | j in now ensures j in then_ + self {
      if j != i {
        assert if i < j then Separate(targets[i], targets[j]) else Separate(targets[j], targets[i]);
      }
    }
    SubsetCount(now, then_ + self);
  }

  ghost predicate RowsDone(
    before: Node, now: Node, dir: Path, targets: seq<ManifestTarget>, i: nat, failed: seq<Path>,
    clean: bool, refused: int
  ) {
    && RestoredSoFar(before, now, dir, targets, i, failed, clean)
    && FailedSoFar(before, dir, targets, i, failed, refused)
  }

  /** One row restored or failed, with `more` steps refused on the way. */
  lemma NextRow(
    h0: seq<Node>, h1: seq<Node>, before: Node, root: Path, backupRoot: Path, dir: Path,
    targets: seq<ManifestTarget>, i: nat, failed: seq<Path>, ok: bool, clean: bool, refused: int, more: int
  )
    requires RestoreLayout(root, backupRoot, dir, targets) && i < |targets| && more >= 0
    requires Evolved(h0, h1, Spots(targets[i]))
    requires RowsDone(before, Last(h0), dir, targets, i, failed, clean, refused)
    requires if ok then TargetRestored(Last(h0), Last(h1), dir, targets[i], clean)
             else clean ==> Lookup(Last(h1), targets[i].source) == Lookup(Last(h0), targets[i].source)
    requires more == 0 && CanRestoreRow(Last(h0), dir, targets[i]) ==> ok
    ensures var failed' := failed + if ok then [] else [targets[i].source];
            RowsDone(before, Last(h1), dir, targets, i + 1, failed', clean, refused + more)
  {
    assert Placed(root, backupRoot, dir, targets[i]);
    if CanRestoreRow(before, dir, targets[i]) {
      RowStillRestorable(before, Last(h0), dir, targets[i]);
    }
    OneMoreRestored(h0, h1, before, root, backupRoot, dir, targets, i, failed, ok, clean);
    if ok {
      assert failed + [] == failed;
    } else {
      OneMoreFailed(before, root, backupRoot, dir, targets, i, failed, refused);
    }
  }

  lemma RowUntouchedTrans(t0: Node, t1: Node, t2: Node, dir: Path, y: ManifestTarget)
    requires RowUntouched(t0, t1, dir, y) && RowUntouched(t1, t2, dir, y)
    ensures RowUntouched(t0, t2, dir, y)
  {
  }

  /**
   Restores every target, going on after a failure: what it does not report as
   failed is restored, and what could be restored fails only for a refused
   step each.
   */
  method RestoreAll(disk: Disk, root: Path, backupRoot: Path, dir: Path, targets: seq<ManifestTarget>)
    returns (failed: seq<Path>)
    requires disk.Valid() && RestoreLayout(root, backupRoot, dir, targets)
    modifies disk
    ensures disk.Valid() && Evolved(old(disk.history), disk.history, AllSpots(targets))
    ensures RestoredBut(old(disk.root), disk.root, dir, targets, failed, disk.calm)
    ensures FailedAmong(old(disk.root), dir, targets, failed, disk.faults - old(disk.faults))
    ensures old(disk.faults) <= disk.faults && (disk.calm ==> disk.faults == old(disk.faults))
  {
    ghost var before := disk.root;
    failed := [];
    var i := 0;
    while i < |targets|
      invariant 0 <= i <= |targets|
      invariant disk.Valid() && Evolved(old(disk.history), disk.history, AllSpots(targets))
      invariant RowsDone(before, disk.root, dir, targets, i, failed, disk.calm, disk.faults - old(disk.faults))
      invariant old(disk.faults) <= disk.faults && (disk.calm ==> disk.faults == old(disk.faults))
    {
      ghost var h, faults := disk.history, disk.faults;
      assert Placed(root, backupRoot, dir, targets[i]);
      var r := RestoreOne(disk, root, backupRoot, dir, targets[i]);
      NextRow(
        h, disk.history, before, root, backupRoot, dir, targets, i, failed, r.Ok?, disk.calm,
        faults - old(disk.faults), disk.faults - faults);
      EvolvedSuperset(h, disk.history, Spots(targets[i]), AllSpots(targets));
      EvolvedTrans(old(disk.history), h, disk.history, AllSpots(targets));
      if r.Err? {
        failed := failed + [targets[i].source];
      }
      i := i + 1;
    }
  }

  // ------------------------------------------------------- the whole run

  /** Every tree to be read is there, and neither it nor anything to be replaced is or holds a link. */
  ghost predicate RowsLinkFree(t: Node, dir: Path, targets: seq<ManifestTarget>) {
    forall i | 0 <= i < |targets| ::
      && (targets[i].existedBefore ==> LinkFreeAt(t, FilesPath(dir, targets[i].relative)))
      && (Exists(t, targets[i].source) ==> LinkFreeAt(t, targets[i].source))
  }

  /** Refuses links in any source or destination before the first write. */
  method ValidateRestore(disk: Disk, dir: Path, targets: seq<ManifestTarget>) returns (ok: bool)
    requires disk.Valid()
    modifies disk`faults
    ensures disk.Valid()
    ensures old(disk.faults) <= disk.faults
    ensures ok ==> RowsLinkFree(disk.root, dir, targets)
    ensures disk.calm && RowsLinkFree(disk.root, dir, targets) ==> ok
  {
    var i := 0;
    while i < |targets|
      invariant 0 <= i <= |targets|
      invariant RowsLinkFree(disk.root, dir, targets[..i])
      invariant old(disk.faults) <= disk.faults
    {
      ok := true;
      if targets[i].existedBefore {
        ok := ValidateResetTarget(disk, FilesPath(dir, targets[i].relative));
      }
      if ok && Exists(disk.root, targets[i].source) {
        ok := ValidateResetTarget(disk, targets[i].source);
      }
      if !ok {
        return;
      }
      i := i + 1;
    }
    ok := true;
  }

  /** A run read from disk, in the backup root restores write to or well away from it. */
  ghost predicate RunOnDisk(t: Node, backupRoot: Path, run: BackupRun) {
    && Lookup(t, run.dir + [MANIFEST]).Some?
    && (run.dir == backupRoot + [run.id] || Disjoint(backupRoot, run.dir))
  }

  /** The manifest of the safety run a restore writes first. */
  ghost function SafetyManifest(t: Node, root: Path, run: BackupRun, includeAuth: bool, now: nat): Manifest {
    ManifestFor(t, RestoreRun, root, Sources(Chosen(run.manifest.targets, includeAuth)), now)
  }

  /** Enough for a confirmed restore of a run to go through on a calm disk. */
  ghost predicate CanRestoreRun(t: Node, run: BackupRun, args: RestoreArgs, backupRoot: Path, now: nat, slug: string) {
    && (args.yes || args.dryRun) && run.manifest.schemaVersion == SUPPORTED_MANIFEST_SCHEMA_VERSION
    && CanRestoreChosen(t, run.dir, Chosen(run.manifest.targets, args.includeAuth), backupRoot, now, slug)
  }

  /** Enough for the safety run to be written, after which each row is restored if it can be. */
  ghost predicate CanStartRestore(t: Node, run: BackupRun, args: RestoreArgs, backupRoot: Path, now: nat, slug: string)
  {
    var chosen := Chosen(run.manifest.targets, args.includeAuth);
    && (args.yes || args.dryRun) && run.manifest.schemaVersion == SUPPORTED_MANIFEST_SCHEMA_VERSION
    && RowsLinkFree(t, run.dir, chosen)
    && CanWriteRun(t, backupRoot + [UniqueRunId(t, backupRoot, now, slug)], Sources(chosen))
  }

  ghost predicate CanRestoreChosen(
    t: Node, dir: Path, chosen: seq<ManifestTarget>, backupRoot: Path, now: nat, slug: string
  ) {
    && CanWriteRun(t, backupRoot + [UniqueRunId(t, backupRoot, now, slug)], Sources(chosen))
    && forall i | 0 <= i < |chosen| :: CanRestoreRow(t, dir, chosen[i])
  }

  method RestoreBackup(
    disk: Disk, run: BackupRun, args: RestoreArgs, root: Path, backupRoot: Path, now: nat, slug: string, keep: nat
  ) returns (r: Result<int, Failure>)
    requires disk.Valid() && keep >= 1
    requires RestoreLayout(root, backupRoot, run.dir, run.manifest.targets)
    requires RunOnDisk(disk.root, backupRoot, run)
    modifies disk
    ensures disk.Valid()
    ensures Evolved(old(disk.history), disk.history,
                    {backupRoot} + AllSpots(Chosen(run.manifest.targets, args.includeAuth)))
    // nothing happens without confirmation, on a dry run, or for a manifest of another version
    ensures args.dryRun || !args.yes || run.manifest.schemaVersion != SUPPORTED_MANIFEST_SCHEMA_VERSION ==>
              disk.history == old(disk.history)
    ensures !args.dryRun && !args.yes ==> r == Err(NotConfirmed)
    ensures (args.dryRun || args.yes) && run.manifest.schemaVersion != SUPPORTED_MANIFEST_SCHEMA_VERSION ==>
              r == Err(UnknownSchema)
    // a backup gone missing, or a link in what it would read or replace, and nothing is written
    ensures (args.dryRun || args.yes) && run.manifest.schemaVersion == SUPPORTED_MANIFEST_SCHEMA_VERSION &&
            !RowsLinkFree(old(disk.root), run.dir, Chosen(run.manifest.targets, args.includeAuth)) ==>
              r == Err(RefusedTarget) && disk.history == old(disk.history)
    // a restore that fails otherwise than in part has written at most a run
    ensures r.Err? && !r.error.PartlyRestored? ==> Evolved(old(disk.history), disk.history, {backupRoot})
    // credentials are left alone unless asked for
    ensures forall k, i | |old(disk.history)| <= k < |disk.history| && 0 <= i < |run.manifest.targets| &&
                          IsAuth(run.manifest.targets[i].source) && !args.includeAuth ::
              Lookup(disk.history[k], run.manifest.targets[i].source) ==
              Lookup(old(disk.root), run.manifest.targets[i].source)
    ensures !Exists(old(disk.root), backupRoot + [UniqueRunId(old(disk.root), backupRoot, now, slug)]) ==>
              && Kept(old(disk.history), disk.history, run.dir)
              && (!args.dryRun ==>
                    RestoreOutcome(old(disk.root), disk.root, run.dir, Chosen(run.manifest.targets, args.includeAuth),
                                   r, disk.calm, disk.faults - old(disk.faults)))
    ensures NewRunIsSafe(old(disk.root), backupRoot, now, slug, keep, {run.id}) ==>
              var safety := backupRoot + [UniqueRunId(old(disk.root), backupRoot, now, slug)];
              var m := SafetyManifest(old(disk.root), root, run, args.includeAuth, now);
              && NothingLostSince(old(disk.history), disk.history, old(disk.root), safety, m,
                                  Sources(Chosen(run.manifest.targets, args.includeAuth)))
              && ((r.Ok? && !args.dryRun) || (r.Err? && r.error.PartlyRestored?) ==>
                    RunComplete(disk.root, safety, m, old(disk.root)))
    // no other name appears among the runs
    ensures forall name: RunId | name != UniqueRunId(old(disk.root), backupRoot, now, slug) ::
              NameKept(old(disk.root), disk.root, backupRoot + [name])
    // when no step fails, only a link or a blocked way can stop it
    ensures disk.calm && CanRestoreRun(old(disk.root), run, args, backupRoot, now, slug) ==> r == Ok(0)
    ensures disk.calm && CanStartRestore(old(disk.root), run, args, backupRoot, now, slug) ==>
              r.Ok? || r.error.PartlyRestored?
  {
    var chosen := Chosen(run.manifest.targets, args.includeAuth);
    var early := CheckRestore(disk, run, args, chosen);
    if early.Some? {
      return early.value;
    }
    ChosenLayout(root, backupRoot, run.dir, run.manifest.targets, args.includeAuth);
    ghost var faults := disk.faults;
    r := RestoreChosen(disk, run, chosen, root, backupRoot, now, slug, keep);
    if !Exists(old(disk.root), backupRoot + [UniqueRunId(old(disk.root), backupRoot, now, slug)]) {
      OutcomeForMore(old(disk.root), disk.root, run.dir, chosen, r, disk.calm,
                     disk.faults - faults, disk.faults - old(disk.faults));
    }
    SkippedUntouched(old(disk.history), disk.history, root, backupRoot, run, args.includeAuth);
  }

  /** The checks before anything is written, and the result where they already decide it. */
  method CheckRestore(disk: Disk, run: BackupRun, args: RestoreArgs, chosen: seq<ManifestTarget>)
    returns (early: Option<Result<int, Failure>>)
    requires disk.Valid()
    modifies disk`faults
    ensures disk.Valid() && old(disk.faults) <= disk.faults
    ensures var known := run.manifest.schemaVersion == SUPPORTED_MANIFEST_SCHEMA_VERSION;
            if !args.dryRun && !args.yes then early == Some(Err(NotConfirmed))
            else if !known then early == Some(Err(UnknownSchema))
            else if !RowsLinkFree(disk.root, run.dir, chosen) then early == Some(Err(RefusedTarget))
            else early == (if args.dryRun then Some(Ok(0)) else None) ||
                 (early == Some(Err(RefusedTarget)) && !disk.calm)
  {
    if !args.dryRun && !args.yes {
      return Some(Err(NotConfirmed));
    }
    if run.manifest.schemaVersion != SUPPORTED_MANIFEST_SCHEMA_VERSION {
      return Some(Err(UnknownSchema));
    }
    var valid := ValidateRestore(disk, run.dir, chosen);
    if !valid {
      return Some(Err(RefusedTarget));
    }
    early := if args.dryRun then Some(Ok(0)) else None;
  }

  /** The writing part: the safety run, then every target. */
  method RestoreChosen(
    disk: Disk, run: BackupRun, chosen: seq<ManifestTarget>, root: Path, backupRoot: Path,
    now: nat, slug: string, keep: nat
  ) returns (r: Result<int, Failure>)
    requires disk.Valid() && keep >= 1
    requires RestoreLayout(root, backupRoot, run.dir, chosen) && RunOnDisk(disk.root, backupRoot, run)
    modifies disk
    ensures disk.Valid() && Evolved(old(disk.history), disk.history, {backupRoot} + AllSpots(chosen))
    ensures old(disk.faults) <= disk.faults
    ensures r.Ok? ==> r.value == 0
    ensures r.Err? ==> r.error == StepFailed || r.error.PartlyRestored?
    ensures r == Err(StepFailed) ==> Evolved(old(disk.history), disk.history, {backupRoot})
    ensures !Exists(old(disk.root), backupRoot + [UniqueRunId(old(disk.root), backupRoot, now, slug)]) ==>
              && Kept(old(disk.history), disk.history, run.dir)
              && RestoreOutcome(old(disk.root), disk.root, run.dir, chosen, r, disk.calm,
                                disk.faults - old(disk.faults))
    ensures NewRunIsSafe(old(disk.root), backupRoot, now, slug, keep, {run.id}) ==>
              var safety := backupRoot + [UniqueRunId(old(disk.root), backupRoot, now, slug)];
              var m := ManifestFor(old(disk.root), RestoreRun, root, Sources(chosen), now);
              && NothingLostSince(old(disk.history), disk.history, old(disk.root), safety, m, Sources(chosen))
              && (r.Ok? || (r.Err? && r.error.PartlyRestored?) ==> RunComplete(disk.root, safety, m, old(disk.root)))
    ensures forall name: RunId | name != UniqueRunId(old(disk.root), backupRoot, now, slug) ::
              NameKept(old(disk.root), disk.root, backupRoot + [name])
    ensures disk.calm && CanRestoreChosen(old(disk.root), run.dir, chosen, backupRoot, now, slug) ==> r.Ok?
    ensures var dir := backupRoot + [UniqueRunId(old(disk.root), backupRoot, now, slug)];
            disk.calm && CanWriteRun(old(disk.root), dir, Sources(chosen)) ==> r.Ok? || r.error.PartlyRestored?
  {
    ghost var before := disk.root;
    var written := SaveCurrent(disk, run, chosen, root, backupRoot, now, slug, keep);
    ghost var h, faults, id := disk.history, disk.faults, UniqueRunId(before, backupRoot, now, slug);
    ghost var touched := {backupRoot} + AllSpots(chosen);
    EvolvedSuperset(old(disk.history), h, {backupRoot}, touched);
    if written.Err? {
      return Err(written.error);
    }
    var failed := RestoreAll(disk, root, backupRoot, run.dir, chosen);
    r := if failed == [] then Ok(0) else Err(PartlyRestored(failed));
    EvolvedSuperset(h, disk.history, AllSpots(chosen), touched);
    EvolvedTrans(old(disk.history), h, disk.history, touched);
    SpotsApart(root, backupRoot, run.dir, chosen, id);
    KeptElsewhere(h, disk.history, AllSpots(chosen), run.dir);
    RunNamesUntouched(h, disk.history, root, backupRoot, run.dir, chosen);
    if !Exists(before, backupRoot + [id]) {
      KeptTrans(old(disk.history), h, disk.history, run.dir);
      AsFromTheStart(
        old(disk.history), h, disk.root, root, backupRoot, run.dir, chosen, failed, disk.calm,
        disk.faults - faults, disk.faults - old(disk.faults));
    }
    if NewRunIsSafe(before, backupRoot, now, slug, keep, {run.id}) {
      ghost var m := ManifestFor(before, RestoreRun, root, Sources(chosen), now);
      CompleteElsewhere(h, disk.history, AllSpots(chosen), backupRoot + [id], m, before);
      LostNothing(old(disk.history), h, disk.history, before, backupRoot + [id], m, Sources(chosen));
    }
  }

  /** What the restore did since the safety run was written, seen from before that. */
  lemma AsFromTheStart(
    h0: seq<Node>, h1: seq<Node>, after: Node, root: Path, backupRoot: Path, dir: Path,
    targets: seq<ManifestTarget>, failed: seq<Path>, clean: bool, refused: int, inAll: int
  )
    requires RestoreLayout(root, backupRoot, dir, targets) && refused <= inAll
    requires Evolved(h0, h1, {backupRoot}) && Lookup(Last(h1), dir) == Lookup(Last(h0), dir)
    requires RestoredBut(Last(h1), after, dir, targets, failed, clean)
    requires FailedAmong(Last(h1), dir, targets, failed, refused)
    ensures if failed == [] then AllRestored(Last(h0), after, dir, targets, clean)
            else PartRestored(Last(h0), after, dir, targets, failed, clean, inAll)
    ensures refused == 0 && (forall i | 0 <= i < |targets| :: CanRestoreRow(Last(h0), dir, targets[i])) ==>
              failed == []
  {
    RestoredSince(h0, h1, after, root, backupRoot, dir, targets, failed, clean);
    RowsStillRestorable(h0, h1, root, backupRoot, dir, targets);
    SubsetCount(AbleFailed(Last(h0), dir, targets, failed), AbleFailed(Last(h1), dir, targets, failed));
    if failed != [] {
      assert failed[0] in failed;
      var i :| 0 <= i < |targets| && targets[i].source == failed[0];
      assert refused == 0 ==> i !in AbleFailed(Last(h1), dir, targets, failed);
    }
  }

  /** Writes the safety run, with the run being restored protected from its pruning. */
  method SaveCurrent(
    disk: Disk, run: BackupRun, chosen: seq<ManifestTarget>, root: Path, backupRoot: Path,
    now: nat, slug: string, keep: nat
  ) returns (r: Result<RunId, Failure>)
    requires disk.Valid() && keep >= 1
    requires RestoreLayout(root, backupRoot, run.dir, chosen) && RunOnDisk(disk.root, backupRoot, run)
    modifies disk
    ensures disk.Valid() && Evolved(old(disk.history), disk.history, {backupRoot})
    ensures forall k, i | |old(disk.history)| <= k < |disk.history| && 0 <= i < |Sources(chosen)| ::
              Lookup(disk.history[k], Sources(chosen)[i]) == Lookup(old(disk.root), Sources(chosen)[i])
    ensures !Exists(old(disk.root), backupRoot + [UniqueRunId(old(disk.root), backupRoot, now, slug)]) ==>
              Kept(old(disk.history), disk.history, run.dir) &&
              Lookup(disk.root, run.dir) == Lookup(old(disk.root), run.dir)
    ensures r.Err? ==> r.error == StepFailed
    ensures old(disk.faults) <= disk.faults
    ensures forall name: RunId | name != UniqueRunId(old(disk.root), backupRoot, now, slug) ::
              NameKept(old(disk.root), disk.root, backupRoot + [name])
    ensures var dir := backupRoot + [UniqueRunId(old(disk.root), backupRoot, now, slug)];
            disk.calm && CanWriteRun(old(disk.root), dir, Sources(chosen)) ==> r.Ok?
    ensures r.Ok? && NewRunIsSafe(old(disk.root), backupRoot, now, slug, keep, {run.id}) ==>
              RunComplete(disk.root, backupRoot + [UniqueRunId(old(disk.root), backupRoot, now, slug)],
                          ManifestFor(old(disk.root), RestoreRun, root, Sources(chosen), now), old(disk.root))
  {
    ghost var id := UniqueRunId(disk.root, backupRoot, now, slug);
    LayoutIsWellPlaced(root, backupRoot, run.dir, chosen);
    ghost var listing, full;
    r, listing, full := WriteBackupRunKeeping(
      disk, backupRoot, RestoreRun, root, Sources(chosen), {run.id}, now, slug, keep);
    ghost var doomed := Doomed(listing, keep, {run.id});
    RunsAreBelow(old(disk.history), disk.history, backupRoot, id, doomed);
    TargetsApart(root, backupRoot, Sources(chosen), id);
    IntactElsewhere(old(disk.history), disk.history, {backupRoot}, Sources(chosen));
    if !Exists(old(disk.root), backupRoot + [id]) {
      RunDirApart(old(disk.root), backupRoot, run, id, doomed);
      KeptElsewhere(old(disk.history), disk.history, {backupRoot + [id]} + DirsOf(backupRoot, doomed), run.dir);
    }
  }

  /** The run being restored is neither the run being written nor one that is pruned. */
  lemma RunDirApart(t: Node, backupRoot: Path, run: BackupRun, id: RunId, doomed: seq<Run>)
    requires RunOnDisk(t, backupRoot, run) && !Exists(t, backupRoot + [id])
    requires forall d | d in doomed :: d.id != run.id
    ensures Apart(run.dir, {backupRoot + [id]} + DirsOf(backupRoot, doomed))
  {
    LookupAppend(t, run.dir, [MANIFEST]);
    assert Exists(t, run.dir);
    forall p | p in {backupRoot + [id]} + DirsOf(backupRoot, doomed) ensures Disjoint(p, run.dir) {
      var name: RunId :| p == backupRoot + [name] && (run.dir == backupRoot + [run.id] ==> name != run.id);
      if run.dir == backupRoot + [run.id] {
        SiblingsDisjoint(backupRoot, name, run.id);
      } else {
        DisjointBelow(backupRoot, [name], run.dir);
      }
    }
  }

  lemma RunNamesUntouched(
    h0: seq<Node>, h1: seq<Node>, root: Path, backupRoot: Path, dir: Path, targets: seq<ManifestTarget>
  )
    requires RestoreLayout(root, backupRoot, dir, targets) && Evolved(h0, h1, AllSpots(targets))
    ensures forall name: RunId :: Lookup(Last(h1), backupRoot + [name]) == Lookup(Last(h0), backupRoot + [name])
  {
    forall name: RunId ensures Lookup(Last(h1), backupRoot + [name]) == Lookup(Last(h0), backupRoot + [name]) {
      SpotsApart(root, backupRoot, dir, targets, name);
      StaysOpen(h0, h1, AllSpots(targets), backupRoot + [name]);
    }
  }

  lemma SpotsApart(root: Path, backupRoot: Path, dir: Path, targets: seq<ManifestTarget>, id: RunId)
    requires RestoreLayout(root, backupRoot, dir, targets)
    ensures Apart(dir, AllSpots(targets)) && Apart(backupRoot + [id], AllSpots(targets))
  {
    forall p | p in AllSpots(targets) ensures Disjoint(p, dir) && Disjoint(p, backupRoot + [id]) {
      var i :| 0 <= i < |targets| && p in Spots(targets[i]);
      assert Placed(root, backupRoot, dir, targets[i]);
      DisjointBelow(backupRoot, [id], p);
    }
  }

  lemma SkippedUntouched(
    h0: seq<Node>, h1: seq<Node>, root: Path, backupRoot: Path, run: BackupRun, includeAuth: bool
  )
    requires RestoreLayout(root, backupRoot, run.dir, run.manifest.targets)
    requires Evolved(h0, h1, {backupRoot} + AllSpots(Chosen(run.manifest.targets, includeAuth)))
    ensures forall k, i | |h0| <= k < |h1| && 0 <= i < |run.manifest.targets| &&
                          IsAuth(run.manifest.targets[i].source) && !includeAuth ::
              Lookup(h1[k], run.manifest.targets[i].source) == Lookup(Last(h0), run.manifest.targets[i].source)
  {
    var targets := run.manifest.targets;
    var touched := {backupRoot} + AllSpots(Chosen(targets, includeAuth));
    forall k, i | |h0| <= k < |h1| && 0 <= i < |targets| && IsAuth(targets[i].source) && !includeAuth
      ensures Lookup(h1[k], targets[i].source) == Lookup(Last(h0), targets[i].source)
    {
      SkippedIsApart(root, backupRoot, run.dir, targets, includeAuth, i);
      assert SameOutside(Last(h0), h1[k], touched);
    }
  }

  lemma SkippedIsApart(
    root: Path, backupRoot: Path, dir: Path, targets: seq<ManifestTarget>, includeAuth: bool, i: nat
  )
    requires RestoreLayout(root, backupRoot, dir, targets)
    requires i < |targets| && IsAuth(targets[i].source) && !includeAuth
    ensures Apart(targets[i].source, {backupRoot} + AllSpots(Chosen(targets, includeAuth)))
  {
    var s, chosen := targets[i], Chosen(targets, includeAuth);
    ChosenMembers(targets, includeAuth);
    assert Placed(root, backupRoot, dir, s);
    forall c, p | c in chosen && p in Spots(c) ensures Disjoint(p, s.source) {
      TargetsSeparate(root, backupRoot, dir, targets, s, c);
    }
  }

  /** The safety backup keeps every row that could be restored restorable. */
  lemma RowsStillRestorable(
    h0: seq<Node>, h1: seq<Node>, root: Path, backupRoot: Path, dir: Path, targets: seq<ManifestTarget>
  )
    requires RestoreLayout(root, backupRoot, dir, targets)
    requires Evolved(h0, h1, {backupRoot}) && Lookup(Last(h1), dir) == Lookup(Last(h0), dir)
    ensures forall i | 0 <= i < |targets| && CanRestoreRow(Last(h0), dir, targets[i]) ::
              CanRestoreRow(Last(h1), dir, targets[i])
  {
    EvolvedTrans(h0, h1, h1, {backupRoot});
    forall i | 0 <= i < |targets| && CanRestoreRow(Last(h0), dir, targets[i])
      ensures CanRestoreRow(Last(h1), dir, targets[i])
    {
      var x := targets[i];
      assert Placed(root, backupRoot, dir, x);
      assert FilesPath(dir, x.relative) == dir + ([FILES] + x.relative);
      LookupAppend(Last(h0), dir, [FILES] + x.relative);
      LookupAppend(Last(h1), dir, [FILES] + x.relative);
      StaysOpen(h0, h1, {backupRoot}, x.source);
    }
  }

  /** The safety backup changes nothing that decides whether targets are restored. */
  lemma RestoredSince(
    h0: seq<Node>, h1: seq<Node>, after: Node, root: Path, backupRoot: Path, dir: Path,
    targets: seq<ManifestTarget>, failed: seq<Path>, clean: bool
  )
    requires RestoreLayout(root, backupRoot, dir, targets)
    requires Evolved(h0, h1, {backupRoot}) && Lookup(Last(h1), dir) == Lookup(Last(h0), dir)
    requires RestoredBut(Last(h1), after, dir, targets, failed, clean)
    ensures RestoredBut(Last(h0), after, dir, targets, failed, clean)
  {
    EvolvedTrans(h0, h1, h1, {backupRoot});
    forall i | 0 <= i < |targets| ensures RestoredOrFailed(Last(h0), after, dir, targets[i], failed, clean) {
      var x := targets[i];
      assert Placed(root, backupRoot, dir, x);
      assert FilesPath(dir, x.relative) == dir + ([FILES] + x.relative);
      LookupAppend(Last(h0), dir, [FILES] + x.relative);
      LookupAppend(Last(h1), dir, [FILES] + x.relative);
      forall p | p in Spots(x) ensures Lookup(Last(h0), p) == Lookup(Last(h1), p) {
        assert Apart(p, {backupRoot});
      }
      assert x.source in Spots(x) && RestoredOrFailed(Last(h1), after, dir, x, failed, clean);
      if x.source !in failed {
        RestoredDependsOnItsSpots(Last(h1), Last(h0), after, after, dir, x, clean);
      }
    }
  }
}
