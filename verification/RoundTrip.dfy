/** What a reset and a restore, and a restore and its undo, come to together. */
module RoundTrips {
  import opened Wrappers
  import opened FileTree
  import opened DiskSteps
  import opened Retention
  import opened RunNames
  import opened Backups
  import opened Resets
  import opened Restores

  /** Every source is at `after` what it was at `before`: the same tree, or absent. */
  ghost predicate GivenBack(before: Node, after: Node, sources: seq<Path>) {
    forall i | 0 <= i < |sources| ::
      if Exists(before, sources[i]) then Lookup(after, sources[i]) == Lookup(before, sources[i])
      else !Exists(after, sources[i])
  }

  /** Restoring rows of a faithful run gives back what the run recorded of them. */
  lemma RestoringGivesBack(
    before: Node, mid: Node, after: Node, dir: Path, rows: seq<ManifestTarget>, chosen: seq<ManifestTarget>, clean: bool
  )
    requires forall i | 0 <= i < |rows| :: RowHolds(mid, dir, rows[i], before)
    requires forall x | x in chosen :: x in rows
    requires AllRestored(mid, after, dir, chosen, clean)
    requires clean || forall i | 0 <= i < |rows| :: RowHarmless(mid, dir, rows[i])
    ensures GivenBack(before, after, Sources(chosen))
  {
    forall i | 0 <= i < |chosen|
      ensures if Exists(before, chosen[i].source)
              then Lookup(after, chosen[i].source) == Lookup(before, chosen[i].source)
              else !Exists(after, chosen[i].source)
    {
      assert chosen[i] in rows;
      var j :| 0 <= j < |rows| && rows[j] == chosen[i];
      assert RowHolds(mid, dir, rows[j], before) && TargetRestored(mid, after, dir, chosen[i], clean);
      if chosen[i].existedBefore {
        RestoredExactly(mid, after, dir, chosen[i], clean);
      }
    }
  }

  /**
   Undoing a restore of `x` cannot bring up anything stale: the restore sweeps
   the staging sibling itself, or nothing is to be put back, or what is staged
   is also in what is to be put back.
   */
  ghost predicate UndoHarmless(t: Node, x: ManifestTarget) {
    || x.existedBefore
    || !Exists(t, x.source)
    || (x.source != [] && StagingHarmless(t, StagingPath(x.source), Lookup(t, x.source).value))
  }

  /** After a restore, nothing staged can show in a restore of the safety run. */
  lemma UndoRowsHarmless(
    before: Node, mid: Node, root: Path, dir: Path, safety: Path, chosen: seq<ManifestTarget>, clean: bool
  )
    requires AllRestored(before, mid, dir, chosen, clean)
    requires forall i | 0 <= i < |chosen| :: UndoHarmless(before, chosen[i])
    requires var rows := Rows(before, root, Sources(chosen));
             forall i | 0 <= i < |rows| :: RowHolds(mid, safety, rows[i], before)
    ensures var rows := Rows(before, root, Sources(chosen));
            forall i | 0 <= i < |rows| :: RowHarmless(mid, safety, rows[i])
  {
    var rows := Rows(before, root, Sources(chosen));
    forall i | 0 <= i < |rows| ensures RowHarmless(mid, safety, rows[i]) {
      assert rows[i].source == chosen[i].source;
      assert TargetRestored(before, mid, dir, chosen[i], clean) && UndoHarmless(before, chosen[i]);
      assert RowHolds(mid, safety, rows[i], before);
    }
  }

  /** Rows written for targets keep their sources, and the layout carries over to the new run. */
  lemma RowsLayout(
    t: Node, root: Path, backupRoot: Path, dir: Path, targets: seq<ManifestTarget>, id: RunId
  )
    requires RestoreLayout(root, backupRoot, dir, targets)
    ensures Sources(Rows(t, root, Sources(targets))) == Sources(targets)
    ensures RestoreLayout(root, backupRoot, backupRoot + [id], Rows(t, root, Sources(targets)))
  {
    var rows := Rows(t, root, Sources(targets));
    forall i | 0 <= i < |rows|
      ensures rows[i].source == targets[i].source && Placed(root, backupRoot, backupRoot + [id], rows[i])
    {
      assert Placed(root, backupRoot, dir, targets[i]);
      DisjointBelow(backupRoot, [id], targets[i].source);
      DisjointBelow(backupRoot, [id], StagingPath(targets[i].source));
    }
    forall i, j | 0 <= i < j < |rows| ensures Separate(rows[i], rows[j]) {
      assert Separate(targets[i], targets[j]);
    }
  }

  lemma {:induction false} ChosenAll(targets: seq<ManifestTarget>, includeAuth: bool)
    requires forall x | x in targets :: !(IsAuth(x.source) && !includeAuth)
    ensures Chosen(targets, includeAuth) == targets
  {
    if targets != [] {
      ChosenAll(targets[1..], includeAuth);
    }
  }

  lemma RowsAreChosen(t: Node, root: Path, targets: seq<ManifestTarget>, includeAuth: bool)
    ensures var chosen := Chosen(targets, includeAuth);
            var rows := Rows(t, root, Sources(chosen));
            Chosen(rows, includeAuth) == rows
  {
    var chosen := Chosen(targets, includeAuth);
    var rows := Rows(t, root, Sources(chosen));
    ChosenMembers(targets, includeAuth);
    forall x | x in rows ensures !(IsAuth(x.source) && !includeAuth) {
      var i :| 0 <= i < |rows| && rows[i] == x;
      assert chosen[i] in chosen;
    }
    ChosenAll(rows, includeAuth);
  }

  /** On a calm disk the safety run can be restored in turn. */
  lemma CanUndo(
    before: Node, mid: Node, run: BackupRun, safety: BackupRun, includeAuth: bool, root: Path, backupRoot: Path,
    later: nat, slug: string
  )
    requires var chosen := Chosen(run.manifest.targets, includeAuth);
             && AllRestored(before, mid, run.dir, chosen, true)
             && safety.manifest.targets == Rows(before, root, Sources(chosen))
             && Chosen(safety.manifest.targets, includeAuth) == safety.manifest.targets
    requires RunComplete(mid, safety.dir, safety.manifest, before) && safety.dir == backupRoot + [safety.id]
    requires safety.manifest.schemaVersion == SUPPORTED_MANIFEST_SCHEMA_VERSION
    requires Lookup(mid, backupRoot + [UniqueRunId(mid, backupRoot, later, slug)]).None?
    ensures CanRestoreRun(mid, safety, RestoreArgs(false, true, includeAuth), backupRoot, later, slug)
  {
    var chosen := Chosen(run.manifest.targets, includeAuth);
    var rows := safety.manifest.targets;
    BesideRun(mid, backupRoot, safety.id, UniqueRunId(mid, backupRoot, later, slug));
    forall i | 0 <= i < |rows|
      ensures CanRestoreRow(mid, safety.dir, rows[i])
      ensures Exists(mid, Sources(rows)[i]) ==> SymlinkFree(Lookup(mid, Sources(rows)[i]).value)
    {
      assert TargetRestored(before, mid, run.dir, chosen[i], true);
      assert RowHolds(mid, safety.dir, rows[i], before);
      if Exists(before, chosen[i].source) {
        PutSame(before, chosen[i].source);
      }
      CanUndoRow(before, mid, run.dir, safety.dir, chosen[i], rows[i]);
    }
  }

  lemma CanUndoRow(before: Node, mid: Node, dir: Path, safety: Path, x: ManifestTarget, row: ManifestTarget)
    requires TargetRestored(before, mid, dir, x, true) && RowHolds(mid, safety, row, before)
    requires row.source == x.source && row.existedBefore == Exists(before, x.source)
    requires Exists(before, x.source) ==> Reachable(before, x.source)
    ensures CanRestoreRow(mid, safety, row)
    ensures Exists(mid, x.source) ==> SymlinkFree(Lookup(mid, x.source).value)
  {
    if x.existedBefore {
      RestoredExactly(before, mid, dir, x, true);
    }
  }

  /** Where one run is, another can be put. */
  lemma BesideRun(t: Node, backupRoot: Path, id: RunId, other: RunId)
    requires Lookup(t, backupRoot + [id] + [MANIFEST]).Some?
    ensures Exists(t, backupRoot + [id]) && Reachable(t, backupRoot + [other])
  {
    LookupAppend(t, backupRoot + [id], [MANIFEST]);
    SiblingsShareParent(t, backupRoot, id, other);
    ParentReaches(t, backupRoot + [other]);
  }

  /**
   Restore a run, then restore the safety run that wrote: every target the
   restore acted on is back exactly as it was before, or absent as before. On
   a calm disk both restores go through unless a link or a blocked way stops
   the first.
   */
  method RestoreThenUndo(
    disk: Disk, run: BackupRun, includeAuth: bool, root: Path, backupRoot: Path,
    now: nat, later: nat, slug: string, keep: nat
  ) returns (first: Result<int, Failure>, second: Result<int, Failure>, ghost mid: Node)
    requires disk.Valid() && keep >= 1
    requires RestoreLayout(root, backupRoot, run.dir, run.manifest.targets)
    requires RunOnDisk(disk.root, backupRoot, run)
    requires NewRunIsSafe(disk.root, backupRoot, now, slug, keep, {run.id})
    requires disk.calm || forall x | x in Chosen(run.manifest.targets, includeAuth) :: UndoHarmless(disk.root, x)
    modifies disk
    ensures first.Ok? && second.Ok? &&
            !Exists(mid, backupRoot + [UniqueRunId(mid, backupRoot, later, slug)]) ==>
              GivenBack(old(disk.root), disk.root, Sources(Chosen(run.manifest.targets, includeAuth)))
    ensures FewEntries(old(disk.root), backupRoot) ==>
              !Exists(mid, backupRoot + [UniqueRunId(mid, backupRoot, later, slug)])
    ensures disk.calm &&
            CanRestoreRun(old(disk.root), run, RestoreArgs(false, true, includeAuth), backupRoot, now, slug) &&
            RoomForNext(old(disk.root), backupRoot, UniqueRunId(old(disk.root), backupRoot, now, slug), later, slug) ==>
              && first.Ok? && second.Ok?
              && GivenBack(old(disk.root), disk.root, Sources(Chosen(run.manifest.targets, includeAuth)))
  {
    ghost var before := disk.root;
    ghost var chosen := Chosen(run.manifest.targets, includeAuth);
    var id := UniqueRunId(disk.root, backupRoot, now, slug);
    var args := RestoreArgs(false, true, includeAuth);
    first := RestoreBackup(disk, run, args, root, backupRoot, now, slug, keep);
    mid := disk.root;
    if FewEntries(before, backupRoot) {
      FreeAfterWrite(before, mid, backupRoot, id, later, slug);
    }
    if first.Err? {
      return first, first, mid;
    }
    var manifest := Lookup(disk.root, backupRoot + [id] + [MANIFEST]).value.data.manifest;
    var safety := BackupRun(id, backupRoot + [id], manifest);
    SafetyRunReady(before, mid, run, safety, includeAuth, root, backupRoot);
    if disk.calm && RoomForNext(before, backupRoot, id, later, slug) {
      NextNameFree(before, mid, backupRoot, id, later, slug);
      CanUndo(before, mid, run, safety, includeAuth, root, backupRoot, later, slug);
    }
    second := RestoreBackup(disk, safety, args, root, backupRoot, later, slug, keep);
    if second.Ok? && !Exists(mid, backupRoot + [UniqueRunId(mid, backupRoot, later, slug)]) {
      UndoGivesBack(before, mid, disk.root, run, safety, includeAuth, root, disk.calm);
    }
  }

  /** The safety run is on disk, laid out like the run it saved from, and credentials it skips are none. */
  lemma SafetyRunReady(
    before: Node, mid: Node, run: BackupRun, safety: BackupRun, includeAuth: bool, root: Path, backupRoot: Path
  )
    requires RestoreLayout(root, backupRoot, run.dir, run.manifest.targets)
    requires safety.dir == backupRoot + [safety.id] && RunComplete(mid, safety.dir, safety.manifest, before)
    requires safety.manifest.targets == Rows(before, root, Sources(Chosen(run.manifest.targets, includeAuth)))
    ensures RestoreLayout(root, backupRoot, safety.dir, safety.manifest.targets)
    ensures RunOnDisk(mid, backupRoot, safety) && Exists(mid, safety.dir)
    ensures Chosen(safety.manifest.targets, includeAuth) == safety.manifest.targets
    ensures Sources(safety.manifest.targets) == Sources(Chosen(run.manifest.targets, includeAuth))
  {
    var chosen := Chosen(run.manifest.targets, includeAuth);
    ChosenLayout(root, backupRoot, run.dir, run.manifest.targets, includeAuth);
    RowsLayout(before, root, backupRoot, run.dir, chosen, safety.id);
    RowsAreChosen(before, root, run.manifest.targets, includeAuth);
    BesideRun(mid, backupRoot, safety.id, safety.id);
  }

  lemma UndoGivesBack(
    before: Node, mid: Node, after: Node, run: BackupRun, safety: BackupRun, includeAuth: bool, root: Path, clean: bool
  )
    requires var chosen := Chosen(run.manifest.targets, includeAuth);
             && AllRestored(before, mid, run.dir, chosen, clean)
             && (clean || forall x | x in chosen :: UndoHarmless(before, x))
             && safety.manifest.targets == Rows(before, root, Sources(chosen))
             && Sources(safety.manifest.targets) == Sources(chosen)
    requires RunComplete(mid, safety.dir, safety.manifest, before)
    requires AllRestored(mid, after, safety.dir, safety.manifest.targets, clean)
    ensures GivenBack(before, after, Sources(Chosen(run.manifest.targets, includeAuth)))
  {
    var chosen, rows := Chosen(run.manifest.targets, includeAuth), safety.manifest.targets;
    if !clean {
      UndoRowsHarmless(before, mid, root, run.dir, safety.dir, chosen, clean);
    }
    RestoringGivesBack(before, mid, after, safety.dir, rows, rows, clean);
  }

  ghost function ResetRows(t: Node, base: Path, candidates: seq<Path>): seq<ManifestTarget> {
    Rows(t, base, Existing(t, candidates))
  }

  /** What is staged beside each recorded target, if anything, is also in the target. */
  ghost predicate NothingHarmful(t: Node, rows: seq<ManifestTarget>) {
    forall i | 0 <= i < |rows| ::
      rows[i].source != [] && Lookup(t, rows[i].source).Some? &&
      StagingHarmless(t, StagingPath(rows[i].source), Lookup(t, rows[i].source).value)
  }

  /**
   Reset, then restore the run it wrote: every target that is not a skipped
   credential is back, and nothing else moved but the runs and staging
   siblings. On a calm disk both go through unless a link or a blocked way
   stops the reset.
   */
  method ResetThenRestore(
    disk: Disk, base: Path, candidates: seq<Path>, backupRoot: Path, includeAuth: bool,
    now: nat, later: nat, slug: string, keep: nat
  ) returns (reset: Result<nat, Failure>, restored: Result<int, Failure>, ghost mid: Node)
    requires disk.Valid() && keep >= 1 && WellPlaced(base, backupRoot, candidates)
    requires var id := UniqueRunId(disk.root, backupRoot, now, slug);
             RestoreLayout(base, backupRoot, backupRoot + [id], ResetRows(disk.root, base, candidates))
    requires disk.calm || NothingHarmful(disk.root, ResetRows(disk.root, base, candidates))
    requires NewRunIsSafe(disk.root, backupRoot, now, slug, keep, {})
    modifies disk
    ensures var existing := Existing(old(disk.root), candidates);
            var rows := ResetRows(old(disk.root), base, candidates);
            reset.Ok? && restored.Ok? && existing != [] &&
            !Exists(mid, backupRoot + [UniqueRunId(mid, backupRoot, later, slug)]) ==>
              RoundTripped(old(disk.root), disk.root, backupRoot, rows, includeAuth)
    ensures FewEntries(old(disk.root), backupRoot) ==>
              !Exists(mid, backupRoot + [UniqueRunId(mid, backupRoot, later, slug)])
    ensures var existing := Existing(old(disk.root), candidates);
            var rows := ResetRows(old(disk.root), base, candidates);
            disk.calm && existing != [] && CanReset(old(disk.root), existing, backupRoot, now, slug) &&
            RoomForNext(old(disk.root), backupRoot, UniqueRunId(old(disk.root), backupRoot, now, slug), later, slug) ==>
              reset.Ok? && restored.Ok? && RoundTripped(old(disk.root), disk.root, backupRoot, rows, includeAuth)
  {
    ghost var before, h0 := disk.root, disk.history;
    ghost var existing := Existing(disk.root, candidates);
    ghost var rows := ResetRows(disk.root, base, candidates);
    var id := UniqueRunId(disk.root, backupRoot, now, slug);
    reset := ResetOne(disk, base, candidates, backupRoot, false, now, slug, keep);
    mid := disk.root;
    if FewEntries(before, backupRoot) {
      FreeAfterWrite(before, mid, backupRoot, id, later, slug);
    }
    if reset.Err? || reset.value == 0 {
      return reset, Ok(0), mid;
    }
    ghost var h1 := disk.history;
    var dir := backupRoot + [id];
    ResetSpots(before, base, backupRoot, dir, candidates, h0, h1);
    var manifest := Lookup(disk.root, dir + [MANIFEST]).value.data.manifest;
    var run := BackupRun(id, dir, manifest);
    var args := RestoreArgs(false, true, includeAuth);
    BesideRun(mid, backupRoot, id, id);
    if disk.calm && RoomForNext(before, backupRoot, id, later, slug) {
      NextNameFree(before, mid, backupRoot, id, later, slug);
      CanRestoreReset(before, mid, run, base, candidates, args, backupRoot, later, slug);
    }
    restored := RestoreBackup(disk, run, args, base, backupRoot, later, slug, keep);
    if restored.Ok? && !Exists(mid, backupRoot + [UniqueRunId(mid, backupRoot, later, slug)]) {
      ChosenMembers(rows, includeAuth);
      if !disk.calm {
        ResetRowsHarmless(before, mid, base, dir, candidates);
      }
      RestoringGivesBack(before, mid, disk.root, dir, rows, Chosen(rows, includeAuth), disk.calm);
      EvolvedSuperset(
        h1, disk.history, {backupRoot} + AllSpots(Chosen(rows, includeAuth)), {backupRoot} + AllSpots(rows));
      EvolvedTrans(h0, h1, disk.history, {backupRoot} + AllSpots(rows));
    }
  }

  /** The targets are back, skipped credentials aside, and only runs and staging siblings moved besides. */
  ghost predicate RoundTripped(
    before: Node, after: Node, backupRoot: Path, rows: seq<ManifestTarget>, includeAuth: bool
  ) {
    && GivenBack(before, after, Sources(Chosen(rows, includeAuth)))
    && SameOutside(before, after, {backupRoot} + AllSpots(rows))
  }

  /** On a calm disk the run a reset wrote can be restored. */
  lemma CanRestoreReset(
    before: Node, mid: Node, run: BackupRun, base: Path, candidates: seq<Path>, args: RestoreArgs,
    backupRoot: Path, later: nat, slug: string
  )
    requires var existing := Existing(before, candidates);
             && run.manifest.targets == Rows(before, base, existing) && args.yes
             && forall i | 0 <= i < |existing| :: Gone(mid, existing[i])
    requires RunComplete(mid, run.dir, run.manifest, before) && run.dir == backupRoot + [run.id]
    requires run.manifest.schemaVersion == SUPPORTED_MANIFEST_SCHEMA_VERSION
    requires Lookup(mid, backupRoot + [UniqueRunId(mid, backupRoot, later, slug)]).None?
    ensures CanRestoreRun(mid, run, args, backupRoot, later, slug)
  {
    var rows := run.manifest.targets;
    var chosen := Chosen(rows, args.includeAuth);
    ChosenMembers(rows, args.includeAuth);
    ExistingMembers(before, candidates);
    BesideRun(mid, backupRoot, run.id, UniqueRunId(mid, backupRoot, later, slug));
    forall i | 0 <= i < |chosen|
      ensures CanRestoreRow(mid, run.dir, chosen[i])
      ensures !Exists(mid, Sources(chosen)[i])
    {
      assert chosen[i] in rows;
      var j :| 0 <= j < |rows| && rows[j] == chosen[i];
      assert RowHolds(mid, run.dir, rows[j], before);
      assert Existing(before, candidates)[j] in candidates;
    }
  }

  lemma ResetRowsHarmless(before: Node, mid: Node, base: Path, dir: Path, candidates: seq<Path>)
    requires var rows := ResetRows(before, base, candidates);
             && NothingHarmful(before, rows)
             && (forall i | 0 <= i < |rows| :: RowHolds(mid, dir, rows[i], before))
             && forall i | 0 <= i < |rows| && rows[i].source != [] ::
                  Lookup(mid, StagingPath(rows[i].source)) == Lookup(before, StagingPath(rows[i].source))
    ensures var rows := ResetRows(before, base, candidates);
            forall i | 0 <= i < |rows| :: RowHarmless(mid, dir, rows[i])
  {
    var rows := ResetRows(before, base, candidates);
    forall i | 0 <= i < |rows| ensures RowHarmless(mid, dir, rows[i]) {
      assert RowHolds(mid, dir, rows[i], before);
    }
  }

  lemma ResetSpots(
    before: Node, base: Path, backupRoot: Path, dir: Path, candidates: seq<Path>, h0: seq<Node>, h1: seq<Node>
  )
    requires RestoreLayout(base, backupRoot, dir, ResetRows(before, base, candidates))
    requires Evolved(h0, h1, {backupRoot} + ToSet(Existing(before, candidates))) && Last(h0) == before
    ensures var rows := ResetRows(before, base, candidates);
            && Evolved(h0, h1, {backupRoot} + AllSpots(rows))
            && forall i | 0 <= i < |rows| && rows[i].source != [] ::
                 Lookup(Last(h1), StagingPath(rows[i].source)) == Lookup(before, StagingPath(rows[i].source))
  {
    var existing, rows := Existing(before, candidates), ResetRows(before, base, candidates);
    forall p | p in ToSet(existing) ensures p in AllSpots(rows) {
      var i :| 0 <= i < |existing| && existing[i] == p;
      assert Placed(base, backupRoot, dir, rows[i]);
      assert rows[i] in rows && p in Spots(rows[i]);
    }
    EvolvedSuperset(h0, h1, {backupRoot} + ToSet(existing), {backupRoot} + AllSpots(rows));
    forall i | 0 <= i < |rows|
      ensures rows[i].source != []
      ensures Lookup(Last(h1), StagingPath(rows[i].source)) == Lookup(before, StagingPath(rows[i].source))
    {
      assert Placed(base, backupRoot, dir, rows[i]);
      StagingApartFromAll(base, backupRoot, dir, existing, rows, i);
      StaysOpen(h0, h1, {backupRoot} + ToSet(existing), StagingPath(rows[i].source));
    }
  }

  lemma StagingApartFromAll(
    base: Path, backupRoot: Path, dir: Path, existing: seq<Path>, rows: seq<ManifestTarget>, i: nat
  )
    requires RestoreLayout(base, backupRoot, dir, rows) && existing == Sources(rows) && i < |rows|
    ensures rows[i].source != [] && Apart(StagingPath(rows[i].source), {backupRoot} + ToSet(existing))
  {
    var x := rows[i];
    assert Placed(base, backupRoot, dir, x);
    forall p | p in {backupRoot} + ToSet(existing) ensures Disjoint(p, StagingPath(x.source)) {
      if p in existing {
        var j :| 0 <= j < |existing| && existing[j] == p;
        assert rows[j].source == p;
        if j < i { assert Separate(rows[j], x); }
        if i < j { assert Separate(x, rows[j]); }
        if i == j { StagingApart(x.source); }
      }
    }
  }
}
