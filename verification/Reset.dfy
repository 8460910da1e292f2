/** The reset: back every existing target up, then delete them one by one. */
module Resets {
  import opened Wrappers
  import opened FileTree
  import opened DiskSteps
  import opened Retention
  import opened RunNames
  import opened Backups

  function Existing(t: Node, candidates: seq<Path>): seq<Path> {
    if candidates == [] then []
    else (if Exists(t, candidates[0]) then [candidates[0]] else []) + Existing(t, candidates[1..])
  }

  lemma {:induction false} ExistingMembers(t: Node, candidates: seq<Path>)
    ensures forall p :: p in Existing(t, candidates) <==> p in candidates && Exists(t, p)
  {
    if candidates != [] {
      ExistingMembers(t, candidates[1..]);
      assert candidates == [candidates[0]] + candidates[1..];
    }
  }

  lemma PairwiseTail(ps: seq<Path>)
    requires PairwiseDisjoint(ps) && ps != []
    ensures PairwiseDisjoint(ps[1..]) && forall q | q in ps[1..] :: Disjoint(ps[0], q)
  {
  }

  lemma PairwiseCons(p: Path, ps: seq<Path>)
    requires PairwiseDisjoint(ps) && forall q | q in ps :: Disjoint(p, q)
    ensures PairwiseDisjoint([p] + ps)
  {
    var all := [p] + ps;
    forall i, j | 0 <= i < |all| && 0 <= j < |all| && i != j ensures Disjoint(all[i], all[j]) {
      if i > 0 && j > 0 {
        assert all[i] == ps[i - 1] && all[j] == ps[j - 1];
      } else if i > 0 {
        assert all[i] == ps[i - 1] && all[i] in ps;
      } else {
        assert all[j] == ps[j - 1] && all[j] in ps;
      }
    }
  }

  lemma {:induction false} ExistingDisjoint(t: Node, candidates: seq<Path>)
    requires PairwiseDisjoint(candidates)
    ensures PairwiseDisjoint(Existing(t, candidates))
  {
    if candidates != [] {
      PairwiseTail(candidates);
      ExistingDisjoint(t, candidates[1..]);
      ExistingMembers(t, candidates[1..]);
      PairwiseCons(candidates[0], Existing(t, candidates[1..]));
      assert [] + Existing(t, candidates[1..]) == Existing(t, candidates[1..]);
    }
  }

  lemma ExistingWellPlaced(t: Node, base: Path, backupRoot: Path, candidates: seq<Path>)
    requires WellPlaced(base, backupRoot, candidates)
    ensures WellPlaced(base, backupRoot, Existing(t, candidates))
  {
    ExistingMembers(t, candidates);
    ExistingDisjoint(t, candidates);
    var existing := Existing(t, candidates);
    forall i | 0 <= i < |existing|
      ensures base <= existing[i] && |base| < |existing[i]| && Disjoint(backupRoot, existing[i])
    {
      assert existing[i] in candidates;
    }
  }

  /** Something is there, and no link in it anywhere. */
  predicate LinkFreeAt(t: Node, p: Path) {
    Lookup(t, p).Some? && SymlinkFree(Lookup(t, p).value)
  }

  /** Refuses a target that holds a link anywhere. */
  method ValidateResetTarget(disk: Disk, path: Path) returns (ok: bool)
    requires disk.Valid()
    modifies disk`faults
    ensures disk.Valid() && old(disk.faults) <= disk.faults
    ensures ok ==> LinkFreeAt(disk.root, path)
    ensures disk.calm && LinkFreeAt(disk.root, path) ==> ok
  {
    var refused := disk.Fault();
    var found := Lookup(disk.root, path);
    ok := !refused && found.Some? && SymlinkFree(found.value);
  }

  predicate HoldsLink(t: Node, p: Path) {
    Lookup(t, p).Some? && !SymlinkFree(Lookup(t, p).value)
  }

  method ValidateAll(disk: Disk, paths: seq<Path>) returns (ok: bool)
    requires disk.Valid()
    modifies disk`faults
    ensures disk.Valid()
    ensures ok ==> forall i | 0 <= i < |paths| :: LinkFreeAt(disk.root, paths[i])
    ensures disk.calm && (forall i | 0 <= i < |paths| :: LinkFreeAt(disk.root, paths[i])) ==> ok
  {
    var i := 0;
    while i < |paths|
      invariant 0 <= i <= |paths|
      invariant forall j | 0 <= j < i :: LinkFreeAt(disk.root, paths[j])
    {
      ok := ValidateResetTarget(disk, paths[i]);
      if !ok {
        return;
      }
      i := i + 1;
    }
    ok := true;
  }

  method RemoveResetTarget(disk: Disk, path: Path, base: Path) returns (r: Result<(), Failure>)
    requires disk.Valid()
    modifies disk
    ensures disk.Valid() && Evolved(old(disk.history), disk.history, {path})
    ensures r.Ok? ==> Lookup(old(disk.root), path).Some? && Lookup(disk.root, path).None?
    ensures r.Ok? ==> Reachable(disk.root, path) && Removable(old(disk.root), base, path)
    ensures path == base || !(base <= path) ==> r == Err(RefusedTarget) && disk.history == old(disk.history)
    ensures old(disk.faults) <= disk.faults && (disk.calm ==> disk.faults == old(disk.faults))
    ensures disk.faults == old(disk.faults) && Removable(old(disk.root), base, path) ==> r.Ok?
    ensures r == Err(RefusedTarget) ==> !Removable(old(disk.root), base, path) && disk.history == old(disk.history)
    ensures r.Err? ==> (r.error == RefusedTarget || (r.error == RemovalFailed && !disk.calm))
  {
    if path == base || !(base <= path) {
      return Err(RefusedTarget);
    }
    var found := Lookup(disk.root, path);
    if found.None? || found.value.Symlink? {
      return Err(RefusedTarget);
    }
    PutSame(disk.root, path);
    RemovedIsReachable(disk.root, path);
    var ok := disk.RemoveNode(path);
    r := if ok then Ok(()) else Err(RemovalFailed);
  }

  /** Nothing is lost: every target is where it was, or the run holds them all. */
  ghost predicate NothingLost(s: Node, before: Node, dir: Path, m: Manifest, targets: seq<Path>) {
    || (forall i | 0 <= i < |targets| :: Lookup(s, targets[i]) == Lookup(before, targets[i]))
    || RunComplete(s, dir, m, before)
  }

  ghost predicate NothingLostSince(
    h0: seq<Node>, h1: seq<Node>, before: Node, dir: Path, m: Manifest, targets: seq<Path>
  ) {
    forall k | |h0| <= k < |h1| :: NothingLost(h1[k], before, dir, m, targets)
  }

  function ToSet(ps: seq<Path>): set<Path> {
    set p | p in ps
  }

  /** Removing targets leaves a run elsewhere complete. */
  lemma CompleteElsewhere(
    h0: seq<Node>, h1: seq<Node>, touched: set<Path>, dir: Path, m: Manifest, before: Node
  )
    requires Evolved(h0, h1, touched) && Apart(dir, touched)
    requires RunComplete(Last(h0), dir, m, before)
    ensures forall k | |h0| <= k < |h1| :: RunComplete(h1[k], dir, m, before)
    ensures RunComplete(Last(h1), dir, m, before)
  {
  }

  /** Writing runs leaves every target where it was. */
  lemma IntactElsewhere(h0: seq<Node>, h1: seq<Node>, touched: set<Path>, targets: seq<Path>)
    requires Evolved(h0, h1, touched)
    requires forall i | 0 <= i < |targets| :: Apart(targets[i], touched)
    ensures forall k, i | |h0| <= k < |h1| && 0 <= i < |targets| ::
              Lookup(h1[k], targets[i]) == Lookup(Last(h0), targets[i])
  {
  }

  /** Nothing is there, and nothing blocks putting something there. */
  predicate Gone(t: Node, p: Path) {
    Lookup(t, p).None? && Reachable(t, p)
  }

  ghost predicate Removable(t: Node, base: Path, path: Path) {
    base < path && Lookup(t, path).Some? && !Lookup(t, path).value.Symlink?
  }

  lemma OtherTargetsStay(h0: seq<Node>, h1: seq<Node>, targets: seq<Path>, i: nat)
    requires PairwiseDisjoint(targets) && i < |targets| && Evolved(h0, h1, {targets[i]})
    ensures forall j | 0 <= j < |targets| && j != i ::
              && Lookup(Last(h1), targets[j]) == Lookup(Last(h0), targets[j])
              && (Gone(Last(h0), targets[j]) ==> Gone(Last(h1), targets[j]))
  {
    forall j | 0 <= j < |targets| && j != i
      ensures Lookup(Last(h1), targets[j]) == Lookup(Last(h0), targets[j])
      ensures Gone(Last(h0), targets[j]) ==> Gone(Last(h1), targets[j])
    {
      assert Apart(targets[j], {targets[i]});
      StaysOpen(h0, h1, {targets[i]}, targets[j]);
    }
  }

  method RemoveTargets(disk: Disk, base: Path, targets: seq<Path>) returns (r: Result<nat, Failure>)
    requires disk.Valid() && PairwiseDisjoint(targets)
    modifies disk
    ensures disk.Valid() && Evolved(old(disk.history), disk.history, ToSet(targets))
    ensures r.Ok? ==> r.value == |targets| && forall i | 0 <= i < |targets| :: Gone(disk.root, targets[i])
    ensures disk.calm && (forall i | 0 <= i < |targets| :: Removable(old(disk.root), base, targets[i])) ==> r.Ok?
  {
    var i := 0;
    ghost var removable := forall i | 0 <= i < |targets| :: Removable(disk.root, base, targets[i]);
    while i < |targets|
      invariant 0 <= i <= |targets|
      invariant disk.Valid() && Evolved(old(disk.history), disk.history, ToSet(targets))
      invariant forall j | 0 <= j < i :: Gone(disk.root, targets[j])
      invariant removable ==> forall j | i <= j < |targets| :: Removable(disk.root, base, targets[j])
    {
      ghost var h := disk.history;
      var removed := RemoveResetTarget(disk, targets[i], base);
      OtherTargetsStay(h, disk.history, targets, i);
      EvolvedSuperset(h, disk.history, {targets[i]}, ToSet(targets));
      EvolvedTrans(old(disk.history), h, disk.history, ToSet(targets));
      if removed.Err? {
        return Err(removed.error);
      }
      i := i + 1;
    }
    r := Ok(|targets|);
  }

  /** Enough for a reset to go through on a calm disk. */
  ghost predicate CanReset(t: Node, existing: seq<Path>, backupRoot: Path, now: nat, slug: string) {
    CanWriteRun(t, backupRoot + [UniqueRunId(t, backupRoot, now, slug)], existing)
  }

  /** Removing targets leaves every name in the backup root as it is. */
  lemma RunNamesElsewhere(h0: seq<Node>, h1: seq<Node>, base: Path, backupRoot: Path, targets: seq<Path>)
    requires Evolved(h0, h1, ToSet(targets)) && WellPlaced(base, backupRoot, targets)
    ensures forall name: RunId :: Lookup(Last(h1), backupRoot + [name]) == Lookup(Last(h0), backupRoot + [name])
  {
    forall name: RunId ensures Lookup(Last(h1), backupRoot + [name]) == Lookup(Last(h0), backupRoot + [name]) {
      TargetsApart(base, backupRoot, targets, name);
      StaysOpen(h0, h1, ToSet(targets), backupRoot + [name]);
    }
  }

  /** Targets there and free of links before the run was written can be removed after. */
  lemma StillRemovable(h0: seq<Node>, h1: seq<Node>, base: Path, backupRoot: Path, targets: seq<Path>)
    requires Evolved(h0, h1, {backupRoot}) && WellPlaced(base, backupRoot, targets)
    ensures CanBackUp(Last(h0), targets) && (forall i | 0 <= i < |targets| :: Exists(Last(h0), targets[i])) ==>
              forall i | 0 <= i < |targets| :: Removable(Last(h1), base, targets[i])
  {
    EvolvedTrans(h0, h1, h1, {backupRoot});
    forall i | 0 <= i < |targets| ensures Lookup(Last(h1), targets[i]) == Lookup(Last(h0), targets[i]) {
      assert Apart(targets[i], {backupRoot});
    }
  }

  /**
   All copies finish before the first removal, so with a run that cannot be
   pruned at once nothing is lost at any moment, whatever step fails. When no
   step fails, only a link or a blocked way to the new run can stop it.
   */
  method ResetExisting(
    disk: Disk, base: Path, existing: seq<Path>, backupRoot: Path, now: nat, slug: string, keep: nat
  ) returns (r: Result<nat, Failure>)
    requires disk.Valid() && keep >= 1 && WellPlaced(base, backupRoot, existing)
    requires forall i | 0 <= i < |existing| :: Exists(disk.root, existing[i])
    modifies disk
    ensures disk.Valid() && Evolved(old(disk.history), disk.history, {backupRoot} + ToSet(existing))
    ensures (exists i | 0 <= i < |existing| :: HoldsLink(old(disk.root), existing[i])) ==>
              r == Err(RefusedTarget) && disk.history == old(disk.history)
    ensures r.Ok? ==> r.value == |existing| && forall i | 0 <= i < |existing| :: Gone(disk.root, existing[i])
    ensures forall name: RunId | name != UniqueRunId(old(disk.root), backupRoot, now, slug) ::
              NameKept(old(disk.root), disk.root, backupRoot + [name])
    ensures NewRunIsSafe(old(disk.root), backupRoot, now, slug, keep, {}) ==>
              var dir := backupRoot + [UniqueRunId(old(disk.root), backupRoot, now, slug)];
              var m := ManifestFor(old(disk.root), ResetRun, base, existing, now);
              && NothingLostSince(old(disk.history), disk.history, old(disk.root), dir, m, existing)
              && (r.Ok? ==> RunComplete(disk.root, dir, m, old(disk.root)))
    ensures disk.calm && CanReset(old(disk.root), existing, backupRoot, now, slug) ==> r.Ok?
  {
    ghost var before := disk.root;
    var valid := ValidateAll(disk, existing);
    if !valid {
      return Err(RefusedTarget);
    }
    var written;
    ghost var listing, full;
    written, listing, full := WriteBackupRunKeeping(disk, backupRoot, ResetRun, base, existing, {}, now, slug, keep);
    ghost var h := disk.history;
    ghost var id := UniqueRunId(before, backupRoot, now, slug);
    RunsAreBelow(old(disk.history), h, backupRoot, id, Doomed(listing, keep, {}));
    TargetsApart(base, backupRoot, existing, id);
    IntactElsewhere(old(disk.history), h, {backupRoot}, existing);
    EvolvedSuperset(old(disk.history), h, {backupRoot}, {backupRoot} + ToSet(existing));
    if written.Err? {
      return Err(written.error);
    }
    StillRemovable(old(disk.history), h, base, backupRoot, existing);
    r := RemoveTargets(disk, base, existing);
    RunNamesElsewhere(h, disk.history, base, backupRoot, existing);
    EvolvedSuperset(h, disk.history, ToSet(existing), {backupRoot} + ToSet(existing));
    EvolvedTrans(old(disk.history), h, disk.history, {backupRoot} + ToSet(existing));
    if NewRunIsSafe(before, backupRoot, now, slug, keep, {}) {
      ghost var m := ManifestFor(before, ResetRun, base, existing, now);
      CompleteElsewhere(h, disk.history, ToSet(existing), backupRoot + [id], m, before);
      LostNothing(old(disk.history), h, disk.history, before, backupRoot + [id], m, existing);
    }
  }

  method ResetOne(
    disk: Disk, base: Path, candidates: seq<Path>, backupRoot: Path, dryRun: bool,
    now: nat, slug: string, keep: nat
  ) returns (r: Result<nat, Failure>)
    requires disk.Valid() && keep >= 1 && WellPlaced(base, backupRoot, candidates)
    modifies disk
    ensures disk.Valid()
    ensures var existing := Existing(old(disk.root), candidates);
            && Evolved(old(disk.history), disk.history, {backupRoot} + ToSet(existing))
            && (dryRun ==> r == Ok(|existing|))
            && (dryRun || existing == [] ||
                (exists i | 0 <= i < |existing| :: HoldsLink(old(disk.root), existing[i])) ==>
                  disk.history == old(disk.history))
            && (existing == [] ==> r == Ok(0))
            && (!dryRun && (exists i | 0 <= i < |existing| :: HoldsLink(old(disk.root), existing[i])) ==>
                  r == Err(RefusedTarget))
            && (r.Ok? && !dryRun ==>
                  r.value == |existing| && forall i | 0 <= i < |existing| :: Gone(disk.root, existing[i]))
    ensures forall name: RunId | name != UniqueRunId(old(disk.root), backupRoot, now, slug) ::
              NameKept(old(disk.root), disk.root, backupRoot + [name])
    ensures NewRunIsSafe(old(disk.root), backupRoot, now, slug, keep, {}) ==>
              var existing := Existing(old(disk.root), candidates);
              var dir := backupRoot + [UniqueRunId(old(disk.root), backupRoot, now, slug)];
              var m := ManifestFor(old(disk.root), ResetRun, base, existing, now);
              && NothingLostSince(old(disk.history), disk.history, old(disk.root), dir, m, existing)
              && (r.Ok? && !dryRun && existing != [] ==> RunComplete(disk.root, dir, m, old(disk.root)))
    ensures disk.calm && CanReset(old(disk.root), Existing(old(disk.root), candidates), backupRoot, now, slug) ==> r.Ok?
  {
    var existing := Existing(disk.root, candidates);
    ExistingWellPlaced(disk.root, base, backupRoot, candidates);
    ExistingMembers(disk.root, candidates);
    if existing == [] {
      return Ok(0);
    }
    if dryRun {
      return Ok(|existing|);
    }
    r := ResetExisting(disk, base, existing, backupRoot, now, slug, keep);
  }

  /** Intact while the run is written, complete in the run while targets go. */
  lemma LostNothing(
    h0: seq<Node>, h1: seq<Node>, h2: seq<Node>, before: Node, dir: Path, m: Manifest, targets: seq<Path>
  )
    requires h1 <= h2
    requires forall k, i | |h0| <= k < |h1| && 0 <= i < |targets| ::
               Lookup(h1[k], targets[i]) == Lookup(before, targets[i])
    requires forall k | |h1| <= k < |h2| :: RunComplete(h2[k], dir, m, before)
    ensures NothingLostSince(h0, h2, before, dir, m, targets)
  {
  }

  /** Everything a write touches lies in the backup root. */
  lemma RunsAreBelow(h0: seq<Node>, h1: seq<Node>, backupRoot: Path, id: RunId, doomed: seq<Run>)
    requires Evolved(h0, h1, {backupRoot + [id]} + DirsOf(backupRoot, doomed))
    ensures Evolved(h0, h1, {backupRoot})
  {
  }

  lemma TargetsApart(base: Path, backupRoot: Path, targets: seq<Path>, id: RunId)
    requires WellPlaced(base, backupRoot, targets)
    ensures forall i | 0 <= i < |targets| :: Apart(targets[i], {backupRoot})
    ensures Apart(backupRoot + [id], ToSet(targets))
  {
  }
}
