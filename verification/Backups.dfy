/**
Backup runs on disk: writing one, pruning old ones, and the reset that copies
every target into a run before it deletes the first.
*/
module Backups {
  import opened Wrappers
  import opened FileTree
  import opened Sorting
  import opened DiskSteps
  import opened Retention
  import opened RunNames

  const MANIFEST := "manifest.json"
  const FILES := "files"
  const SUPPORTED_MANIFEST_SCHEMA_VERSION := 1

  datatype Failure =
    | StepFailed
    | RefusedTarget
    | NotConfirmed
    | UnknownSchema
    | CopyFailed
    | RemovalFailed
    | RenameFailed
    | PartlyRestored(failed: seq<Path>)

  // ------------------------------------------------------- runs on disk

  /** When the run `id` was created, if it is one: a directory with a readable manifest. */
  function RunAt(t: Node, backupRoot: Path, id: RunId): Option<nat> {
    var manifest := Lookup(t, backupRoot + [id] + [MANIFEST]);
    if manifest.Some? && manifest.value.File? && manifest.value.data.ManifestText?
    then Some(manifest.value.data.manifest.created)
    else None
  }

  ghost function RunsAt(t: Node, backupRoot: Path): set<Run> {
    set id | id in EntriesAt(t, backupRoot) && RunAt(t, backupRoot, id).Some? ::
      Run(id, RunAt(t, backupRoot, id).value)
  }

  lemma RunIsListed(t: Node, backupRoot: Path, id: RunId)
    ensures RunAt(t, backupRoot, id).Some? ==> id in EntriesAt(t, backupRoot)
  {
    assert backupRoot + [id] + [MANIFEST] == backupRoot + [id, MANIFEST];
    LookupAppend(t, backupRoot, [id, MANIFEST]);
  }

  lemma InRunsAt(t: Node, backupRoot: Path, r: Run)
    ensures r in RunsAt(t, backupRoot) <==> RunAt(t, backupRoot, r.id) == Some(r.created)
  {
    RunIsListed(t, backupRoot, r.id);
  }

  /** A run depends on nothing but its own directory. */
  lemma RunAtDependsOnItsDir(t: Node, t': Node, backupRoot: Path, id: RunId)
    requires Lookup(t, backupRoot + [id]) == Lookup(t', backupRoot + [id])
    ensures RunAt(t, backupRoot, id) == RunAt(t', backupRoot, id)
  {
    LookupAppend(t, backupRoot + [id], [MANIFEST]);
    LookupAppend(t', backupRoot + [id], [MANIFEST]);
  }

  /** A partly removed run is still the same run or none. */
  lemma ShrunkRun(t: Node, t': Node, backupRoot: Path, id: RunId)
    requires Lookup(t', backupRoot + [id]).Some? ==>
               Lookup(t, backupRoot + [id]).Some? &&
               Shrunk(Lookup(t', backupRoot + [id]).value, Lookup(t, backupRoot + [id]).value)
    ensures RunAt(t', backupRoot, id) in {RunAt(t, backupRoot, id), None}
  {
    LookupAppend(t, backupRoot + [id], [MANIFEST]);
    LookupAppend(t', backupRoot + [id], [MANIFEST]);
    if Lookup(t', backupRoot + [id]).Some? {
      var now, then_ := Lookup(t', backupRoot + [id]).value, Lookup(t, backupRoot + [id]).value;
      if now.Dir? { LookupChild(now, MANIFEST); }
      if then_.Dir? { LookupChild(then_, MANIFEST); }
    }
  }

  // -------------------------------------------------------------- places

  /** Where a target goes in a run: its path below the base or, outside of it, its last name. */
  function RelativePath(base: Path, path: Path): (relative: Path)
    ensures base <= path ==> base + relative == path
    ensures !(base <= path) && path != [] ==> |relative| == 1 && relative[0] == path[|path| - 1]
  {
    if base <= path then path[|base|..]
    else if path == [] then [] else [path[|path| - 1]]
  }

  function FilesPath(dir: Path, relative: Path): Path {
    dir + [FILES] + relative
  }

  // ------------------------------------------------------------ pruning

  ghost function DirsOf(backupRoot: Path, runs: seq<Run>): set<Path> {
    set r | r in runs :: backupRoot + [r.id]
  }

  /** Lists runs in directory order; a run that cannot be read is missed. */
  method DiscoverRuns(disk: Disk, backupRoot: Path) returns (runs: seq<Run>, ghost missed: set<RunId>)
    requires disk.Valid()
    modifies disk`faults
    ensures disk.Valid() && old(disk.faults) <= disk.faults
    ensures |missed| <= disk.faults - old(disk.faults)
    ensures Distinct(runs)
    ensures forall r :: r in runs <==> r in RunsAt(disk.root, backupRoot) && r.id !in missed
    ensures disk.calm ==> missed == {} && disk.faults == old(disk.faults)
  {
    var names := disk.ReadDir(EntriesAt(disk.root, backupRoot));
    runs, missed := [], {};
    var i := 0;
    while i < |names|
      invariant 0 <= i <= |names|
      invariant ListedSoFar(disk.root, backupRoot, names[..i], runs, missed)
      invariant |missed| <= disk.faults - old(disk.faults)
      invariant disk.calm ==> disk.faults == old(disk.faults)
    {
      var unreadable := disk.Fault();
      var created := RunAt(disk.root, backupRoot, names[i]);
      ListNext(disk.root, backupRoot, names, i, runs, missed);
      if unreadable {
        missed := missed + {names[i]};
      } else if created.Some? {
        runs := runs + [Run(names[i], created.value)];
      }
      i := i + 1;
    }
    assert names[..i] == names;
    forall r ensures r in runs <==> r in RunsAt(disk.root, backupRoot) && r.id !in missed {
      InRunsAt(disk.root, backupRoot, r);
      RunIsListed(disk.root, backupRoot, r.id);
    }
  }

  /** Of the names looked at, exactly the readable runs are listed. */
  ghost predicate ListedSoFar(t: Node, backupRoot: Path, names: seq<Name>, runs: seq<Run>, missed: set<RunId>) {
    && Distinct(runs) && (forall id | id in missed :: id in names)
    && forall r :: r in runs <==>
                   r.id in names && r.id !in missed && RunAt(t, backupRoot, r.id) == Some(r.created)
  }

  lemma ListNext(t: Node, backupRoot: Path, names: seq<Name>, i: nat, runs: seq<Run>, missed: set<RunId>)
    requires i < |names| && Distinct(names) && ListedSoFar(t, backupRoot, names[..i], runs, missed)
    ensures ListedSoFar(t, backupRoot, names[..i + 1], runs, missed + {names[i]})
    ensures var created := RunAt(t, backupRoot, names[i]);
            ListedSoFar(t, backupRoot, names[..i + 1],
                        if created.Some? then runs + [Run(names[i], created.value)] else runs, missed)
  {
    assert names[i] !in names[..i];
    assert names[..i + 1] == names[..i] + [names[i]];
  }

  /** Nothing appears at `p`, and if a link is there it was before. */
  ghost predicate NameKept(t: Node, t': Node, p: Path) {
    Lookup(t', p).Some? ==>
      Lookup(t, p).Some? && (Lookup(t', p).value.Symlink? ==> Lookup(t, p) == Lookup(t', p))
  }

  /** What pruning may do to the runs: nothing outside the doomed ones, and it invents none. */
  ghost predicate Pruned(t: Node, t': Node, backupRoot: Path, doomed: seq<Run>) {
    && SameOutside(t, t', DirsOf(backupRoot, doomed))
    && (forall id :: RunAt(t', backupRoot, id) in {RunAt(t, backupRoot, id), None})
    && (forall id: RunId :: NameKept(t, t', backupRoot + [id]))
  }

  /**
   `full` says that no listing read and no removal failed: then the doomed
   runs are gone, and only they. Each refused step leaves one run too many at
   most.
   */
  method PruneBackupRuns(disk: Disk, backupRoot: Path, keep: nat, keepIds: set<RunId>)
    returns (ghost listing: seq<Run>, ghost full: bool)
    requires disk.Valid()
    modifies disk
    ensures disk.Valid()
    ensures Distinct(listing) && Members(listing) <= RunsAt(old(disk.root), backupRoot)
    ensures Evolved(old(disk.history), disk.history, DirsOf(backupRoot, Doomed(listing, keep, keepIds)))
    ensures Pruned(old(disk.root), disk.root, backupRoot, Doomed(listing, keep, keepIds))
    ensures full ==>
              && Members(listing) == RunsAt(old(disk.root), backupRoot)
              && RunsAt(disk.root, backupRoot) == Members(listing) - Members(Doomed(listing, keep, keepIds))
    ensures disk.calm ==> full
    ensures |RunsAt(disk.root, backupRoot)| <=
              |Members(listing) - Members(Doomed(listing, keep, keepIds))| + disk.faults - old(disk.faults)
    ensures old(disk.faults) <= disk.faults
  {
    ghost var before := disk.root;
    ghost var stuck: set<RunId> := {};
    var runs;
    ghost var missed;
    runs, missed := DiscoverRuns(disk, backupRoot);
    listing := runs;
    var doomed := Doomed(runs, keep, keepIds);
    DoomedDistinct(before, backupRoot, runs, keep, keepIds);
    var i := 0;
    while i < |doomed|
      invariant 0 <= i <= |doomed|
      invariant disk.Valid()
      invariant PrunedSoFar(old(disk.history), disk.history, backupRoot, doomed, i, stuck)
      invariant |missed| + |stuck| <= disk.faults - old(disk.faults)
      invariant disk.calm ==> disk.faults == old(disk.faults)
    {
      ghost var h, was := disk.history, stuck;
      var dir := backupRoot + [doomed[i].id];
      var removed := disk.RemoveNode(dir);
      if !removed {
        stuck := stuck + {doomed[i].id};
      }
      PruneNext(old(disk.history), h, disk.history, backupRoot, doomed, i, was, stuck);
      i := i + 1;
    }
    full := missed == {} && stuck == {};
    if full {
      AllDoomedGone(before, disk.root, backupRoot, listing, doomed);
    }
    TooManyByFaults(before, disk.root, backupRoot, listing, doomed, missed, stuck);
  }

  /** The first `i` doomed runs are gone or stuck, and the others still there. */
  ghost predicate PrunedSoFar(
    h0: seq<Node>, h1: seq<Node>, backupRoot: Path, doomed: seq<Run>, i: nat, stuck: set<RunId>
  ) {
    && Evolved(h0, h1, DirsOf(backupRoot, doomed)) && Pruned(Last(h0), Last(h1), backupRoot, doomed)
    && (forall j | 0 <= j < i && j < |doomed| && doomed[j].id !in stuck ::
          Lookup(Last(h1), backupRoot + [doomed[j].id]).None?)
    && forall j | i <= j < |doomed| :: Lookup(Last(h1), backupRoot + [doomed[j].id]).Some?
  }

  lemma PruneNext(
    h0: seq<Node>, h1: seq<Node>, h2: seq<Node>, backupRoot: Path, doomed: seq<Run>, i: nat,
    was: set<RunId>, stuck: set<RunId>
  )
    requires i < |doomed| && forall j, k | 0 <= j < k < |doomed| :: doomed[j].id != doomed[k].id
    requires PrunedSoFar(h0, h1, backupRoot, doomed, i, was) && was <= stuck
    requires Evolved(h1, h2, {backupRoot + [doomed[i].id]})
    requires var dir := backupRoot + [doomed[i].id];
             && (doomed[i].id in stuck || Lookup(Last(h2), dir).None?)
             && (Lookup(Last(h2), dir).Some? ==>
                   Lookup(Last(h1), dir).Some? && Shrunk(Lookup(Last(h2), dir).value, Lookup(Last(h1), dir).value))
    ensures PrunedSoFar(h0, h2, backupRoot, doomed, i + 1, stuck)
  {
    PruneStep(h0, h1, h2, backupRoot, doomed, i);
    OthersStay(h1, h2, backupRoot, doomed, i);
  }

  /** What is left beyond the survivors was missed by the listing or could not be removed. */
  lemma TooManyByFaults(
    t: Node, t': Node, backupRoot: Path, listing: seq<Run>, doomed: seq<Run>, missed: set<RunId>, stuck: set<RunId>
  )
    requires Pruned(t, t', backupRoot, doomed)
    requires forall r :: r in listing <==> r in RunsAt(t, backupRoot) && r.id !in missed
    requires forall d | d in doomed && d.id !in stuck :: Lookup(t', backupRoot + [d.id]).None?
    ensures |RunsAt(t', backupRoot)| <= |Members(listing) - Members(doomed)| + |missed| + |stuck|
  {
    var left, ids := RunsAt(t', backupRoot), missed + stuck;
    var others := left - (Members(listing) - Members(doomed));
    forall r | r in others ensures r.id in ids {
      InRunsAt(t', backupRoot, r);
      InRunsAt(t, backupRoot, r);
      assert RunAt(t', backupRoot, r.id) in {RunAt(t, backupRoot, r.id), None};
      if r in doomed && r.id !in stuck {
        LookupAppend(t', backupRoot + [r.id], [MANIFEST]);
      }
    }
    forall a, b | a in others && b in others && a.id == b.id ensures a == b {
      InRunsAt(t', backupRoot, a);
      InRunsAt(t', backupRoot, b);
    }
    FewerThanIds(others, ids);
    SubsetCount(left, (Members(listing) - Members(doomed)) + others);
  }

  lemma {:induction false} FewerThanIds(runs: set<Run>, ids: set<RunId>)
    requires forall r | r in runs :: r.id in ids
    requires forall a, b | a in runs && b in runs && a.id == b.id :: a == b
    ensures |runs| <= |ids|
    decreases |runs|
  {
    if runs != {} {
      var r :| r in runs;
      FewerThanIds(runs - {r}, ids - {r.id});
    }
  }

  /** The doomed runs are there, each in a directory of its own. */
  lemma DoomedDistinct(t: Node, backupRoot: Path, listing: seq<Run>, keep: nat, keepIds: set<RunId>)
    requires Distinct(listing) && forall r | r in listing :: r in RunsAt(t, backupRoot)
    ensures var doomed := Doomed(listing, keep, keepIds);
            && (forall i, j | 0 <= i < j < |doomed| :: doomed[i].id != doomed[j].id)
            && (forall d | d in doomed :: d in listing)
            && (forall i | 0 <= i < |doomed| :: Lookup(t, backupRoot + [doomed[i].id]).Some?)
  {
    var doomed := Doomed(listing, keep, keepIds);
    DoomedIsSafe(listing, keep, keepIds);
    if doomed != [] {
      var pin, prunable := PinAndPrunable(listing, keepIds);
      assert Distinct(doomed);
    }
    forall i | 0 <= i < |doomed|
      ensures RunAt(t, backupRoot, doomed[i].id) == Some(doomed[i].created)
      ensures Lookup(t, backupRoot + [doomed[i].id]).Some?
    {
      assert doomed[i] in listing;
      InRunsAt(t, backupRoot, doomed[i]);
      LookupAppend(t, backupRoot + [doomed[i].id], [MANIFEST]);
    }
  }

  /** Removing one doomed run leaves the directories of the others as they are. */
  lemma OthersStay(h0: seq<Node>, h1: seq<Node>, backupRoot: Path, doomed: seq<Run>, i: nat)
    requires i < |doomed| && forall j, k | 0 <= j < k < |doomed| :: doomed[j].id != doomed[k].id
    requires Evolved(h0, h1, {backupRoot + [doomed[i].id]})
    ensures forall j | 0 <= j < |doomed| && j != i ::
              Lookup(Last(h1), backupRoot + [doomed[j].id]) == Lookup(Last(h0), backupRoot + [doomed[j].id])
  {
    EvolvedTrans(h0, h1, h1, {backupRoot + [doomed[i].id]});
    forall j | 0 <= j < |doomed| && j != i ensures Apart(backupRoot + [doomed[j].id], {backupRoot + [doomed[i].id]}) {
      SiblingsDisjoint(backupRoot, doomed[i].id, doomed[j].id);
    }
  }

  lemma AllDoomedGone(t: Node, t': Node, backupRoot: Path, listing: seq<Run>, doomed: seq<Run>)
    requires Members(listing) == RunsAt(t, backupRoot) && Pruned(t, t', backupRoot, doomed)
    requires forall d | d in doomed :: d in listing
    requires forall j | 0 <= j < |doomed| :: Lookup(t', backupRoot + [doomed[j].id]).None?
    ensures RunsAt(t', backupRoot) == Members(listing) - Members(doomed)
  {
    forall r ensures r in RunsAt(t', backupRoot) <==> r in RunsAt(t, backupRoot) && r !in doomed {
      InRunsAt(t, backupRoot, r);
      InRunsAt(t', backupRoot, r);
      if exists d | d in doomed :: d.id == r.id {
        var d :| d in doomed && d.id == r.id;
        LookupAppend(t', backupRoot + [d.id], [MANIFEST]);
        assert d in Members(listing);
        InRunsAt(t, backupRoot, d);
      } else {
        UndoomedUntouched(t, t', backupRoot, doomed, r.id);
        RunAtDependsOnItsDir(t, t', backupRoot, r.id);
      }
    }
  }

  lemma PruneStep(h0: seq<Node>, h1: seq<Node>, h2: seq<Node>, backupRoot: Path, doomed: seq<Run>, i: nat)
    requires i < |doomed| && Evolved(h0, h1, DirsOf(backupRoot, doomed))
    requires Evolved(h1, h2, {backupRoot + [doomed[i].id]})
    requires Pruned(Last(h0), Last(h1), backupRoot, doomed)
    requires var dir := backupRoot + [doomed[i].id];
             Lookup(Last(h2), dir).Some? ==>
               Lookup(Last(h1), dir).Some? && Shrunk(Lookup(Last(h2), dir).value, Lookup(Last(h1), dir).value)
    ensures Evolved(h0, h2, DirsOf(backupRoot, doomed)) && Pruned(Last(h0), Last(h2), backupRoot, doomed)
  {
    var dir := backupRoot + [doomed[i].id];
    assert doomed[i] in doomed && dir in DirsOf(backupRoot, doomed);
    EvolvedTrans(h1, h2, h2, {dir});
    EvolvedSuperset(h1, h2, {dir}, DirsOf(backupRoot, doomed));
    EvolvedTrans(h0, h1, h2, DirsOf(backupRoot, doomed));
    forall id ensures RunAt(Last(h2), backupRoot, id) in {RunAt(Last(h0), backupRoot, id), None} {
      if id == doomed[i].id {
        ShrunkRun(Last(h1), Last(h2), backupRoot, id);
      } else {
        SiblingsDisjoint(backupRoot, doomed[i].id, id);
        assert Apart(backupRoot + [id], {dir});
        RunAtDependsOnItsDir(Last(h1), Last(h2), backupRoot, id);
      }
      assert RunAt(Last(h1), backupRoot, id) in {RunAt(Last(h0), backupRoot, id), None};
    }
    forall id: RunId ensures NameKept(Last(h0), Last(h2), backupRoot + [id]) {
      if id != doomed[i].id {
        SiblingsDisjoint(backupRoot, doomed[i].id, id);
        assert Apart(backupRoot + [id], {dir});
      }
      assert NameKept(Last(h0), Last(h1), backupRoot + [id]);
    }
  }

  lemma SiblingsDisjoint(p: Path, a: Name, b: Name)
    requires a != b
    ensures Disjoint(p + [a], p + [b])
  {
    DisjointUnder(p, [a], [b]);
    assert [a][0] != [b][0];
  }

  /** Pruning leaves every directory in the backup root alone that is not doomed. */
  lemma UndoomedUntouched(t: Node, t': Node, backupRoot: Path, doomed: seq<Run>, id: RunId)
    requires SameOutside(t, t', DirsOf(backupRoot, doomed))
    requires forall d | d in doomed :: d.id != id
    ensures Lookup(t', backupRoot + [id]) == Lookup(t, backupRoot + [id])
  {
    forall p | p in DirsOf(backupRoot, doomed) ensures Disjoint(p, backupRoot + [id]) {
      var d :| d in doomed && p == backupRoot + [d.id];
      SiblingsDisjoint(backupRoot, d.id, id);
    }
    assert Apart(backupRoot + [id], DirsOf(backupRoot, doomed));
  }

  // ------------------------------------------------------ writing a run

  /** Targets lie strictly below their base, apart from each other and from the runs. */
  ghost predicate WellPlaced(base: Path, backupRoot: Path, targets: seq<Path>) {
    && PairwiseDisjoint(targets)
    && forall i | 0 <= i < |targets| ::
         base <= targets[i] && |base| < |targets[i]| && Disjoint(backupRoot, targets[i])
  }

  function Row(t: Node, base: Path, target: Path): ManifestTarget {
    ManifestTarget(target, RelativePath(base, target), Exists(t, target))
  }

  ghost function Rows(t: Node, base: Path, targets: seq<Path>): seq<ManifestTarget> {
    seq(|targets|, i requires 0 <= i < |targets| => Row(t, base, targets[i]))
  }

  /** What a run says about one target is true of `before`, and its copy is exact. */
  ghost predicate RowHolds(t: Node, dir: Path, row: ManifestTarget, before: Node) {
    if row.existedBefore then
      && Exists(before, row.source)
      && SymlinkFree(Lookup(before, row.source).value)
      && Lookup(t, FilesPath(dir, row.relative)) == Lookup(before, row.source)
    else !Exists(before, row.source)
  }

  /** The run at `dir` is a faithful record of its targets as `before` had them. */
  ghost predicate RunComplete(t: Node, dir: Path, m: Manifest, before: Node) {
    && Lookup(t, dir + [MANIFEST]) == Some(File(ManifestText(m)))
    && forall i | 0 <= i < |m.targets| :: RowHolds(t, dir, m.targets[i], before)
  }

  lemma CopiesDisjoint(base: Path, dir: Path, a: Path, b: Path)
    requires base <= a && base <= b && Disjoint(a, b)
    ensures Disjoint(FilesPath(dir, RelativePath(base, a)), FilesPath(dir, RelativePath(base, b)))
  {
    assert a == base + a[|base|..] && b == base + b[|base|..];
    DisjointUnder(base, a[|base|..], b[|base|..]);
    DisjointUnder(dir + [FILES], a[|base|..], b[|base|..]);
  }

  function Place(dir: Path, base: Path, target: Path): Path {
    FilesPath(dir, RelativePath(base, target))
  }

  method CopyOneTarget(disk: Disk, dir: Path, base: Path, target: Path) returns (ok: bool, row: ManifestTarget)
    requires disk.Valid() && Disjoint(dir, target)
    modifies disk
    ensures old(disk.faults) <= disk.faults
    ensures disk.Valid() && Evolved(old(disk.history), disk.history, {dir + [FILES]})
    ensures SameOutside(old(disk.root), disk.root, {Place(dir, base, target)})
    ensures StillOpen(old(disk.root), disk.root, {Place(dir, base, target)})
    ensures disk.calm &&
            (Exists(old(disk.root), target) ==> CanCopy(old(disk.root), target, Place(dir, base, target))) ==>
              ok
    ensures ok ==> row == Row(old(disk.root), base, target)
    ensures ok && Lookup(old(disk.root), Place(dir, base, target)).None? ==>
              RowHolds(disk.root, dir, row, old(disk.root))
  {
    var relative := RelativePath(base, target);
    var dest := FilesPath(dir, relative);
    var existed := Exists(disk.root, target);
    ok := true;
    if existed {
      CopyIsInside(dir, relative, target);
      ok := disk.CopyForBackup(target, dest);
      EvolvedTrans(old(disk.history), disk.history, disk.history, {dest});
      EvolvedWiden(old(disk.history), disk.history, {dest}, {dir + [FILES]});
      if ok {
        CopyLands(old(disk.root), disk.root, target, dest);
      }
    }
    row := ManifestTarget(target, relative, existed);
  }

  /** Links are the only thing that can keep an existing target from being copied. */
  predicate CanBackUp(t: Node, targets: seq<Path>) {
    forall i | 0 <= i < |targets| :: Exists(t, targets[i]) ==> SymlinkFree(Lookup(t, targets[i]).value)
  }

  /** The place in the run for a target's copy is free, and nothing blocks the way to it. */
  ghost predicate PlaceOpen(t: Node, dir: Path, base: Path, target: Path) {
    var place := Place(dir, base, target);
    Lookup(t, place).None? && Reachable(t, place)
  }

  ghost predicate PlacesOpen(t: Node, dir: Path, base: Path, targets: seq<Path>, from: nat) {
    forall j | from <= j < |targets| :: PlaceOpen(t, dir, base, targets[j])
  }

  /** The first `i` targets are recorded and copied, and the places of the others are free. */
  ghost predicate CopiedSoFar(t: Node, before: Node, dir: Path, base: Path, targets: seq<Path>, i: nat) {
    && (forall j | 0 <= j < i && j < |targets| :: RowHolds(t, dir, Row(before, base, targets[j]), before))
    && (forall j | i <= j < |targets| :: Lookup(t, Place(dir, base, targets[j])).None?)
  }

  /** Copies each existing target into the run and records every one. */
  method CopyTargets(disk: Disk, dir: Path, base: Path, targets: seq<Path>)
    returns (ok: bool, rows: seq<ManifestTarget>)
    requires disk.Valid() && WellPlaced(base, dir, targets)
    modifies disk
    ensures old(disk.faults) <= disk.faults
    ensures disk.Valid() && Evolved(old(disk.history), disk.history, {dir + [FILES]})
    ensures ok ==> rows == Rows(old(disk.root), base, targets)
    ensures ok && Lookup(old(disk.root), dir + [FILES]).None? ==>
              CopiedSoFar(disk.root, old(disk.root), dir, base, targets, |targets|)
    ensures disk.calm && CanBackUp(old(disk.root), targets) && PlacesOpen(old(disk.root), dir, base, targets, 0) ==> ok
  {
    ghost var before := disk.root;
    ghost var free := Lookup(before, dir + [FILES]).None?;
    ghost var open := CanBackUp(before, targets) && PlacesOpen(before, dir, base, targets, 0);
    rows := [];
    var i := 0;
    if free {
      NothingCopied(before, dir, base, targets);
    }
    while i < |targets|
      invariant 0 <= i <= |targets|
      invariant disk.Valid() && Evolved(old(disk.history), disk.history, {dir + [FILES]})
      invariant old(disk.faults) <= disk.faults
      invariant rows == Rows(before, base, targets)[..i]
      invariant free ==> CopiedSoFar(disk.root, before, dir, base, targets, i)
      invariant open ==> PlacesOpen(disk.root, dir, base, targets, i)
    {
      ghost var h, now := disk.history, disk.root;
      TargetUntouched(old(disk.history), h, base, dir, targets, i);
      var row;
      ok, row := CopyOneTarget(disk, dir, base, targets[i]);
      EvolvedTrans(old(disk.history), h, disk.history, {dir + [FILES]});
      if !ok {
        return;
      }
      OtherPlacesStay(now, disk.root, base, dir, targets, i);
      if free {
        OneMoreCopied(before, now, disk.root, base, dir, targets, i);
      }
      RowsNext(before, base, targets, i);
      rows := rows + [row];
      i := i + 1;
    }
    ok := true;
  }

  lemma NothingCopied(t: Node, dir: Path, base: Path, targets: seq<Path>)
    requires Lookup(t, dir + [FILES]).None?
    ensures CopiedSoFar(t, t, dir, base, targets, 0)
  {
    forall j | 0 <= j < |targets| ensures Lookup(t, Place(dir, base, targets[j])).None? {
      LookupAppend(t, dir + [FILES], RelativePath(base, targets[j]));
    }
  }

  lemma RowsNext(t: Node, base: Path, targets: seq<Path>, i: nat)
    requires i < |targets|
    ensures Rows(t, base, targets)[..i + 1] == Rows(t, base, targets)[..i] + [Row(t, base, targets[i])]
  {
  }

  ghost predicate OthersStayInPlace(t: Node, t': Node, base: Path, dir: Path, targets: seq<Path>, i: nat) {
    forall j | 0 <= j < |targets| && j != i ::
      Lookup(t', Place(dir, base, targets[j])) == Lookup(t, Place(dir, base, targets[j]))
  }

  lemma OtherPlacesStay(t: Node, t': Node, base: Path, dir: Path, targets: seq<Path>, i: nat)
    requires WellPlaced(base, dir, targets) && i < |targets|
    requires SameOutside(t, t', {Place(dir, base, targets[i])}) && StillOpen(t, t', {Place(dir, base, targets[i])})
    ensures OthersStayInPlace(t, t', base, dir, targets, i)
    ensures PlacesOpen(t, dir, base, targets, i) ==> PlacesOpen(t', dir, base, targets, i + 1)
  {
    forall j | 0 <= j < |targets| && j != i
      ensures Lookup(t', Place(dir, base, targets[j])) == Lookup(t, Place(dir, base, targets[j]))
      ensures PlaceOpen(t, dir, base, targets[j]) ==> PlaceOpen(t', dir, base, targets[j])
    {
      CopiesDisjoint(base, dir, targets[i], targets[j]);
      assert Apart(Place(dir, base, targets[j]), {Place(dir, base, targets[i])});
      assert StillOpenAt(t, t', Place(dir, base, targets[j]));
    }
  }

  lemma OneMoreCopied(before: Node, now: Node, after: Node, base: Path, dir: Path, targets: seq<Path>, i: nat)
    requires i < |targets| && CopiedSoFar(now, before, dir, base, targets, i)
    requires OthersStayInPlace(now, after, base, dir, targets, i)
    requires Lookup(now, targets[i]) == Lookup(before, targets[i])
    requires RowHolds(after, dir, Row(now, base, targets[i]), now)
    ensures CopiedSoFar(after, before, dir, base, targets, i + 1)
  {
    forall j | 0 <= j < i + 1 ensures RowHolds(after, dir, Row(before, base, targets[j]), before) {
      if j < i {
        assert RowHolds(now, dir, Row(before, base, targets[j]), before);
      }
    }
  }

  lemma TargetUntouched(h0: seq<Node>, h1: seq<Node>, base: Path, dir: Path, targets: seq<Path>, i: nat)
    requires Evolved(h0, h1, {dir + [FILES]}) && WellPlaced(base, dir, targets) && i < |targets|
    ensures Lookup(Last(h1), targets[i]) == Lookup(Last(h0), targets[i])
    ensures Row(Last(h1), base, targets[i]) == Row(Last(h0), base, targets[i])
  {
    EvolvedTrans(h0, h1, h1, {dir + [FILES]});
    DisjointBelow(dir, [FILES], targets[i]);
    assert Apart(targets[i], {dir + [FILES]});
  }

  lemma CopyIsInside(dir: Path, relative: Path, target: Path)
    requires Disjoint(dir, target)
    ensures Disjoint(target, FilesPath(dir, relative))
    ensures dir + [FILES] <= FilesPath(dir, relative)
  {
  }

  lemma CopyLands(before: Node, after: Node, source: Path, dest: Path)
    requires Copied(before, after, source, dest)
    ensures Lookup(after, dest) == Some(Overlay(Lookup(before, dest), Lookup(before, source).value))
    ensures Lookup(before, dest).None? ==> Lookup(after, dest) == Lookup(before, source)
  {
    LookupPut(before, dest, Overlay(Lookup(before, dest), Lookup(before, source).value));
    OverlayNothing(Lookup(before, source).value);
  }

  /** Enough for a run to be written at `dir`: nothing is there or in the way, and targets hold no link. */
  ghost predicate CanWriteRun(t: Node, dir: Path, targets: seq<Path>) {
    Lookup(t, dir).None? && Reachable(t, dir) && CanBackUp(t, targets)
  }

  /**
   Everything a write does before it prunes. Whatever fails, the manifest is
   the old one or none until the run is finished, and then the new one.
   */
  method WriteRunFiles(
    disk: Disk, dir: Path, kind: BackupKind, base: Path, targets: seq<Path>, now: nat
  ) returns (ok: bool, ghost manifest: Manifest)
    requires disk.Valid() && dir != [] && WellPlaced(base, dir, targets)
    modifies disk
    ensures old(disk.faults) <= disk.faults
    ensures disk.Valid() && Evolved(old(disk.history), disk.history, {dir})
    ensures manifest == ManifestFor(old(disk.root), kind, base, targets, now)
    ensures var at := dir + [MANIFEST];
            && (forall k | |old(disk.history)| <= k < |disk.history| ::
                  Lookup(disk.history[k], at) in {Lookup(old(disk.root), at), Some(File(ManifestText(manifest)))})
            && Lookup(disk.root, at) == if ok then Some(File(ManifestText(manifest))) else Lookup(old(disk.root), at)
    ensures ok ==> Lookup(old(disk.root), dir).None? || Exists(old(disk.root), dir)
    ensures ok && Lookup(old(disk.root), dir).None? ==> RunComplete(disk.root, dir, manifest, old(disk.root))
    ensures disk.calm && CanWriteRun(old(disk.root), dir, targets) ==> ok
  {
    ghost var before := disk.root;
    manifest := ManifestFor(before, kind, base, targets, now);
    ok := disk.MakeDirs(dir);
    MadeAbove(old(disk.history), disk.history, dir, dir);
    ghost var h, made := disk.history, disk.root;
    ManifestBeforeFiles(old(disk.history), h, dir);
    if !ok {
      return;
    }
    DirMade(before, dir, base, targets);
    var rows;
    ok, rows := CopyTargets(disk, dir, base, targets);
    ghost var h', copied := disk.history, disk.root;
    EvolvedWiden(h, h', {dir + [FILES]}, {dir});
    EvolvedTrans(old(disk.history), h, h', {dir});
    ManifestBesideFiles(h, h', dir);
    if !ok {
      return;
    }
    if Lookup(before, dir).None? {
      RoomForManifest(h, h', dir);
    }
    ok := WriteManifest(disk, dir, Manifest(SUPPORTED_MANIFEST_SCHEMA_VERSION, kind, base, now, rows));
    EvolvedTrans(old(disk.history), h', disk.history, {dir});
    if ok && Lookup(before, dir).None? {
      RunIsComplete(before, made, copied, disk.root, dir, base, targets, manifest);
    }
  }

  ghost predicate RoomFor(t: Node, dir: Path, name: Name) {
    Disjoint(dir + [name], dir + [FILES]) ==> CanHoldFile(t, dir + [name])
  }

  /** Anything can be put in the run beside the copies. */
  ghost predicate RoomBeside(t: Node, dir: Path) {
    forall name: Name :: RoomFor(t, dir, name)
  }

  lemma RoomForEach(t: Node, dir: Path, name: Name)
    ensures RoomBeside(t, dir) && Disjoint(dir + [name], dir + [FILES]) ==> CanHoldFile(t, dir + [name])
  {
    if RoomBeside(t, dir) {
      var room := RoomFor(t, dir, name);
      assert room;
    }
  }

  /** Writes the manifest atomically, through a sibling with a name of its own. */
  method WriteManifest(disk: Disk, dir: Path, m: Manifest) returns (ok: bool)
    requires disk.Valid()
    modifies disk
    ensures old(disk.faults) <= disk.faults
    ensures disk.Valid() && Evolved(old(disk.history), disk.history, {dir})
    ensures Lookup(disk.root, dir + [FILES]) == Lookup(old(disk.root), dir + [FILES])
    ensures var at := dir + [MANIFEST];
            && (forall k | |old(disk.history)| <= k < |disk.history| ::
                  Lookup(disk.history[k], at) in {Lookup(old(disk.root), at), Some(File(ManifestText(m)))})
            && Lookup(disk.root, at) == if ok then Some(File(ManifestText(m))) else Lookup(old(disk.root), at)
    ensures disk.calm && RoomBeside(old(disk.root), dir) ==> ok
  {
    var tag: string := *;
    var tmp := "." + MANIFEST + ".tmp-" + tag;
    TmpIsNew(dir, tag);
    RoomForEach(disk.root, dir, tmp);
    RoomForEach(disk.root, dir, MANIFEST);
    ok := disk.WriteAtomic(dir + [tmp], dir + [MANIFEST], ManifestText(m));
    FilesBesideManifest(old(disk.history), disk.history, dir, tmp);
    EvolvedWiden(old(disk.history), disk.history, {dir + [tmp], dir + [MANIFEST]}, {dir});
  }

  /** The temporary sibling is neither the manifest nor the copies. */
  lemma TmpIsNew(dir: Path, tag: string)
    ensures var tmp := "." + MANIFEST + ".tmp-" + tag;
            && Disjoint(dir + [tmp], dir + [MANIFEST]) && Disjoint(dir + [tmp], dir + [FILES])
            && Disjoint(dir + [MANIFEST], dir + [FILES]) && tmp != MANIFEST && tmp != FILES
  {
    var tmp := "." + MANIFEST + ".tmp-" + tag;
    assert tmp[0] == '.' && MANIFEST[0] == 'm' && FILES[0] == 'f';
    SiblingsDisjoint(dir, tmp, MANIFEST);
    SiblingsDisjoint(dir, tmp, FILES);
    SiblingsDisjoint(dir, MANIFEST, FILES);
  }

  /** Making directories neither adds nor removes a manifest. */
  lemma ManifestBeforeFiles(h0: seq<Node>, h1: seq<Node>, dir: Path)
    requires h0 != [] && h0 <= h1 && forall k | |h0| <= k < |h1| :: OnlyMakes(Last(h0), h1[k], dir)
    ensures forall k | |h0| <= k < |h1| :: Lookup(h1[k], dir + [MANIFEST]) == Lookup(Last(h0), dir + [MANIFEST])
    ensures Lookup(Last(h1), dir + [MANIFEST]) == Lookup(Last(h0), dir + [MANIFEST])
  {
    assert !(dir + [MANIFEST] <= dir);
  }

  /** Neither does copying targets. */
  lemma ManifestBesideFiles(h0: seq<Node>, h1: seq<Node>, dir: Path)
    requires Evolved(h0, h1, {dir + [FILES]})
    ensures forall k | |h0| <= k < |h1| :: Lookup(h1[k], dir + [MANIFEST]) == Lookup(Last(h0), dir + [MANIFEST])
    ensures Lookup(Last(h1), dir + [MANIFEST]) == Lookup(Last(h0), dir + [MANIFEST])
  {
    SiblingsDisjoint(dir, FILES, MANIFEST);
    assert Apart(dir + [MANIFEST], {dir + [FILES]});
  }

  /** Into a fresh run with its copies made, the manifest can be written. */
  lemma RoomForManifest(h: seq<Node>, h': seq<Node>, dir: Path)
    requires Evolved(h, h', {dir + [FILES]}) && Lookup(Last(h), dir) == Some(EMPTY_DIR)
    ensures RoomBeside(Last(h'), dir)
  {
    forall name: Name ensures RoomFor(Last(h'), dir, name) {
      if Disjoint(dir + [name], dir + [FILES]) {
        LookupAppend(Last(h), dir, [name]);
        SiblingsShareParent(Last(h), dir, name, name);
        StaysOpen(h, h', {dir + [FILES]}, dir + [name]);
      }
    }
  }

  ghost function ManifestFor(t: Node, kind: BackupKind, base: Path, targets: seq<Path>, now: nat): Manifest {
    Manifest(SUPPORTED_MANIFEST_SCHEMA_VERSION, kind, base, now, Rows(t, base, targets))
  }

  /** A manifest has one row for each target, in order: its path below the base, and whether it was there. */
  lemma ManifestRecords(t: Node, kind: BackupKind, base: Path, backupRoot: Path, targets: seq<Path>, now: nat)
    requires WellPlaced(base, backupRoot, targets)
    ensures var m := ManifestFor(t, kind, base, targets, now);
            && m.schemaVersion == 1 && m.kind == kind && m.base == base && m.created == now
            && |m.targets| == |targets|
            && forall i | 0 <= i < |targets| ::
                 && m.targets[i].source == targets[i] && m.targets[i].existedBefore == Exists(t, targets[i])
                 && base + m.targets[i].relative == targets[i]
  {
  }

  /** Making the run's directory changes no target, and a fresh one takes every copy. */
  lemma DirMade(before: Node, dir: Path, base: Path, targets: seq<Path>)
    requires Reachable(before, dir) && WellPlaced(base, dir, targets)
    ensures var made := WithDir(before, dir);
            && (forall i | 0 <= i < |targets| :: Lookup(made, targets[i]) == Lookup(before, targets[i]))
            && Rows(made, base, targets) == Rows(before, base, targets)
            && (CanBackUp(before, targets) ==> CanBackUp(made, targets))
            && (Lookup(before, dir).None? ==>
                  && Lookup(made, dir) == Some(EMPTY_DIR) && Lookup(made, dir + [FILES]).None?
                  && PlacesOpen(made, dir, base, targets, 0))
  {
    var made := WithDir(before, dir);
    forall i | 0 <= i < |targets| ensures Lookup(made, targets[i]) == Lookup(before, targets[i]) {
      LookupWithDir(before, dir, targets[i]);
    }
    if Lookup(before, dir).None? {
      LookupPut(before, dir, EMPTY_DIR);
      LookupAppend(made, dir, [FILES]);
      SiblingsShareParent(made, dir, FILES, FILES);
      ParentReaches(made, dir + [FILES]);
      forall i | 0 <= i < |targets| ensures PlaceOpen(made, dir, base, targets[i]) {
        var relative := RelativePath(base, targets[i]);
        LookupAppend(made, dir + [FILES], relative);
        PutMissing(made, dir + [FILES], relative, EMPTY_DIR);
      }
    }
  }

  lemma FilesBesideManifest(h0: seq<Node>, h1: seq<Node>, dir: Path, tmp: Name)
    requires Evolved(h0, h1, {dir + [tmp], dir + [MANIFEST]})
    requires Disjoint(dir + [tmp], dir + [FILES]) && Disjoint(dir + [MANIFEST], dir + [FILES])
    ensures h1 != [] && Lookup(Last(h1), dir + [FILES]) == Lookup(Last(h0), dir + [FILES])
  {
    var touched := {dir + [tmp], dir + [MANIFEST]};
    EvolvedTrans(h0, h1, h1, touched);
    assert Apart(dir + [FILES], touched);
  }

  /** Copies made and manifest written: the run is a faithful record. */
  lemma RunIsComplete(
    before: Node, made: Node, copied: Node, after: Node, dir: Path, base: Path, targets: seq<Path>, m: Manifest
  )
    requires forall i | 0 <= i < |targets| :: Lookup(made, targets[i]) == Lookup(before, targets[i])
    requires CopiedSoFar(copied, made, dir, base, targets, |targets|)
    requires Lookup(after, dir + [FILES]) == Lookup(copied, dir + [FILES])
    requires m.targets == Rows(before, base, targets) && Lookup(after, dir + [MANIFEST]) == Some(File(ManifestText(m)))
    ensures RunComplete(after, dir, m, before)
  {
    forall j | 0 <= j < |m.targets| ensures RowHolds(after, dir, m.targets[j], before) {
      var relative := RelativePath(base, targets[j]);
      LookupAppend(copied, dir + [FILES], relative);
      LookupAppend(after, dir + [FILES], relative);
      assert RowHolds(copied, dir, Row(made, base, targets[j]), made);
    }
  }

  /** A run written now, under the name it would get, can neither clash nor be pruned at once. */
  ghost predicate NewRunIsSafe(
    t: Node, backupRoot: Path, now: nat, slug: string, keep: nat, keepIds: set<RunId>
  ) {
    var run := Run(UniqueRunId(t, backupRoot, now, slug), now);
    && !Exists(t, backupRoot + [run.id])
    && !CanBeLost(RunsAt(t, backupRoot) + {run}, run, keep, keepIds)
  }

  /**
   Writes a run, then prunes. Pruning may take the run just written; it never
   takes a protected one. A write that fails leaves the runs as they were.
   */
  method WriteBackupRunKeeping(
    disk: Disk, backupRoot: Path, kind: BackupKind, base: Path, targets: seq<Path>,
    keepIds: set<RunId>, now: nat, slug: string, keep: nat
  ) returns (r: Result<RunId, Failure>, ghost listing: seq<Run>, ghost full: bool)
    requires disk.Valid() && keep >= 1 && WellPlaced(base, backupRoot, targets)
    modifies disk
    ensures disk.Valid()
    ensures var id := UniqueRunId(old(disk.root), backupRoot, now, slug);
            && Evolved(old(disk.history), disk.history,
                       {backupRoot + [id]} + DirsOf(backupRoot, Doomed(listing, keep, keepIds)))
            && (forall d | d in Doomed(listing, keep, keepIds) :: d.id !in keepIds)
            && Distinct(listing) && Members(listing) <= RunsAt(old(disk.root), backupRoot) + {Run(id, now)}
            && RunsAt(disk.root, backupRoot) <= RunsAt(old(disk.root), backupRoot) + {Run(id, now)}
            && (forall name: RunId | name != id :: NameKept(old(disk.root), disk.root, backupRoot + [name]))
            && (if r.Ok? then r.value == id else r.error == StepFailed)
            && (r.Err? && !Exists(old(disk.root), backupRoot + [id]) ==>
                  listing == [] && RunsAt(disk.root, backupRoot) == RunsAt(old(disk.root), backupRoot))
    ensures r.Ok? && !Exists(old(disk.root), backupRoot + [r.value]) ==>
              var before, after := RunsAt(old(disk.root), backupRoot), RunsAt(disk.root, backupRoot);
              var run := Run(r.value, now);
              Writes(before, Write(run, listing, keep, keepIds, before + {run} - after), after)
    ensures old(disk.faults) <= disk.faults
    ensures r.Ok? ==> |RunsAt(disk.root, backupRoot)| <= keep + 1 + |keepIds| + disk.faults - old(disk.faults)
    ensures r.Ok? && full ==>
              && |RunsAt(disk.root, backupRoot)| <= keep + 1 + |keepIds|
              && RunsAt(disk.root, backupRoot) == Members(listing) - Members(Doomed(listing, keep, keepIds))
              && (!Exists(old(disk.root), backupRoot + [r.value]) ==>
                    Members(listing) == RunsAt(old(disk.root), backupRoot) + {Run(r.value, now)})
    ensures r.Ok? && NewRunIsSafe(old(disk.root), backupRoot, now, slug, keep, keepIds) ==>
              RunComplete(disk.root, backupRoot + [r.value],
                          ManifestFor(old(disk.root), kind, base, targets, now), old(disk.root))
    ensures var dir := backupRoot + [UniqueRunId(old(disk.root), backupRoot, now, slug)];
            disk.calm && CanWriteRun(old(disk.root), dir, targets) ==> r.Ok? && full
  {
    ghost var before := disk.root;
    var id := UniqueRunId(disk.root, backupRoot, now, slug);
    var dir := backupRoot + [id];
    listing, full := [], false;
    forall i | 0 <= i < |targets| ensures Disjoint(dir, targets[i]) {
      DisjointBelow(backupRoot, [id], targets[i]);
    }
    var ok;
    ghost var manifest;
    ok, manifest := WriteRunFiles(disk, dir, kind, base, targets, now);
    ghost var h, written := disk.history, disk.root;
    EvolvedTrans(old(disk.history), h, h, {dir});
    RunsWhileWriting(before, written, backupRoot, Run(id, now), manifest, ok);
    OtherNamesKept(before, written, backupRoot, id);
    EvolvedSuperset(old(disk.history), h, {dir}, {dir} + DirsOf(backupRoot, Doomed([], keep, keepIds)));
    if !ok {
      return Err(StepFailed), listing, full;
    }
    listing, full := PruneBackupRuns(disk, backupRoot, keep, keepIds);
    ghost var doomed := Doomed(listing, keep, keepIds);
    ghost var touched := {dir} + DirsOf(backupRoot, doomed);
    EvolvedSuperset(old(disk.history), h, {dir}, touched);
    EvolvedSuperset(h, disk.history, DirsOf(backupRoot, doomed), touched);
    EvolvedTrans(old(disk.history), h, disk.history, touched);
    r := Ok(id);
    DoomedIsSafe(listing, keep, keepIds);
    NoneInvented(written, disk.root, backupRoot);
    PassCount(written, backupRoot, listing, keep, keepIds);
    if full {
      FullPass(before, written, backupRoot, Run(id, now), listing);
    }
    if !Exists(before, dir) {
      WriteRefines(before, written, disk.root, backupRoot, Run(id, now), listing, keep, keepIds);
      if NewRunIsSafe(before, backupRoot, now, slug, keep, keepIds) {
        SafeRunStaysComplete(before, written, disk.root, backupRoot, manifest, id, listing, keep, keepIds);
      }
    }
  }

  /** What writing into one directory does to the runs: adds that one once its manifest is in place. */
  lemma RunsWhileWriting(t: Node, t': Node, backupRoot: Path, run: Run, m: Manifest, done: bool)
    requires SameOutside(t, t', {backupRoot + [run.id]}) && m.created == run.created
    requires var at := backupRoot + [run.id] + [MANIFEST];
             Lookup(t', at) == if done then Some(File(ManifestText(m))) else Lookup(t, at)
    ensures RunsAt(t', backupRoot) <= RunsAt(t, backupRoot) + {run}
    ensures !done ==> RunsAt(t', backupRoot) == RunsAt(t, backupRoot)
    ensures done ==> RunAt(t', backupRoot, run.id) == Some(run.created)
  {
    forall r ensures r in RunsAt(t', backupRoot) ==> r in RunsAt(t, backupRoot) + {run}
      ensures !done ==> (r in RunsAt(t', backupRoot) <==> r in RunsAt(t, backupRoot))
    {
      InRunsAt(t, backupRoot, r);
      InRunsAt(t', backupRoot, r);
      if r.id != run.id {
        SiblingsDisjoint(backupRoot, run.id, r.id);
        assert Apart(backupRoot + [r.id], {backupRoot + [run.id]});
        RunAtDependsOnItsDir(t, t', backupRoot, r.id);
      }
    }
  }

  lemma OtherNamesKept(t: Node, t': Node, backupRoot: Path, id: RunId)
    requires SameOutside(t, t', {backupRoot + [id]})
    ensures forall name: RunId | name != id :: NameKept(t, t', backupRoot + [name])
  {
    forall name: RunId | name != id ensures NameKept(t, t', backupRoot + [name]) {
      SiblingsDisjoint(backupRoot, id, name);
      assert Apart(backupRoot + [name], {backupRoot + [id]});
    }
  }

  /** There is a name for the write after this one, and no dead link poses as a free one. */
  ghost predicate RoomForNext(t: Node, backupRoot: Path, id: RunId, later: nat, slug: string) {
    && NoDeadLinks(t, backupRoot)
    && exists k | 0 <= k < 1000 ::
         RunName(later, slug, k) != id && Lookup(t, backupRoot + [RunName(later, slug, k)]).None?
  }

  /** Fewer than 999 entries in the backup root: a write and another after it both find free names. */
  ghost predicate FewEntries(t: Node, backupRoot: Path) {
    |EntriesAt(t, backupRoot)| < 999
  }

  /** No entry of the backup root is a link to nowhere. */
  ghost predicate NoDeadLinks(t: Node, backupRoot: Path) {
    forall name: RunId :: Lookup(t, backupRoot + [name]).Some? ==> Exists(t, backupRoot + [name])
  }

  lemma RoomWhenFew(t: Node, backupRoot: Path, id: RunId, later: nat, slug: string)
    requires FewEntries(t, backupRoot) && NoDeadLinks(t, backupRoot)
    ensures RoomForNext(t, backupRoot, id, later, slug)
  {
    var entries := EntriesAt(t, backupRoot);
    assert |entries.Keys| == |entries|;
    SubsetCount(entries.Keys - {id}, entries.Keys);
    var k := SomeNameFree(t, backupRoot, later, slug, id);
  }

  /** With a clock that has not gone back, a new run beside few others is safe. */
  lemma NewestIsSafe(t: Node, backupRoot: Path, now: nat, slug: string, keep: nat, keepIds: set<RunId>)
    requires |EntriesAt(t, backupRoot)| < 1000 && keep >= 1
    requires forall r | r in RunsAt(t, backupRoot) :: r.created < now
    ensures NewRunIsSafe(t, backupRoot, now, slug, keep, keepIds)
  {
    NameIsFree(t, backupRoot, now, slug);
    var run := Run(UniqueRunId(t, backupRoot, now, slug), now);
    StrictlyNewestSurvives(RunsAt(t, backupRoot) + {run}, run, keep, keepIds);
  }

  /** A write adds one entry at most. */
  lemma EntriesGrowByOne(t: Node, t': Node, backupRoot: Path, id: RunId)
    requires forall name: RunId | name != id :: NameKept(t, t', backupRoot + [name])
    ensures |EntriesAt(t', backupRoot)| <= |EntriesAt(t, backupRoot)| + 1
  {
    var then_, now := EntriesAt(t, backupRoot), EntriesAt(t', backupRoot);
    forall name | name in now.Keys ensures name in then_.Keys + {id} {
      EntryOfBackupRoot(t, backupRoot, name);
      EntryOfBackupRoot(t', backupRoot, name);
      assert name != id ==> NameKept(t, t', backupRoot + [name]);
    }
    SubsetCount(now.Keys, then_.Keys + {id});
    assert |then_.Keys| == |then_| && |now.Keys| == |now|;
  }

  /** So after a write to a root with few entries the next finds its name free. */
  lemma FreeAfterWrite(t: Node, t': Node, backupRoot: Path, id: RunId, later: nat, slug: string)
    requires FewEntries(t, backupRoot)
    requires forall name: RunId | name != id :: NameKept(t, t', backupRoot + [name])
    ensures !Exists(t', backupRoot + [UniqueRunId(t', backupRoot, later, slug)])
  {
    EntriesGrowByOne(t, t', backupRoot, id);
    NameIsFree(t', backupRoot, later, slug);
  }

  /** After one write the next finds its name free. */
  lemma NextNameFree(t: Node, t': Node, backupRoot: Path, id: RunId, later: nat, slug: string)
    requires RoomForNext(t, backupRoot, id, later, slug)
    requires forall name: RunId | name != id :: NameKept(t, t', backupRoot + [name])
    requires Lookup(t', backupRoot + [id]).Some? ==> Exists(t', backupRoot + [id])
    ensures Lookup(t', backupRoot + [UniqueRunId(t', backupRoot, later, slug)]).None?
  {
    var k :| 0 <= k < 1000 && RunName(later, slug, k) != id &&
             Lookup(t, backupRoot + [RunName(later, slug, k)]).None?;
    assert NameKept(t, t', backupRoot + [RunName(later, slug, k)]);
    var next := UniqueRunId(t', backupRoot, later, slug);
    assert !Exists(t', backupRoot + [next]);
    if next != id {
      assert NameKept(t, t', backupRoot + [next]);
    }
  }

  lemma NoneInvented(t: Node, t': Node, backupRoot: Path)
    requires forall id :: RunAt(t', backupRoot, id) in {RunAt(t, backupRoot, id), None}
    ensures RunsAt(t', backupRoot) <= RunsAt(t, backupRoot)
  {
    forall r | r in RunsAt(t', backupRoot) ensures r in RunsAt(t, backupRoot) {
      InRunsAt(t, backupRoot, r);
      InRunsAt(t', backupRoot, r);
      assert RunAt(t', backupRoot, r.id) in {RunAt(t, backupRoot, r.id), None};
    }
  }

  lemma PassCount(t: Node, backupRoot: Path, listing: seq<Run>, keep: nat, keepIds: set<RunId>)
    requires Distinct(listing) && Members(listing) <= RunsAt(t, backupRoot)
    ensures |Members(listing) - Members(Doomed(listing, keep, keepIds))| <= keep + 1 + |keepIds|
  {
    forall a, b | a in listing && b in listing && a.id == b.id ensures a == b {
      assert a in Members(listing) && b in Members(listing);
      InRunsAt(t, backupRoot, a);
      InRunsAt(t, backupRoot, b);
    }
    CountAfterPass(listing, keep, keepIds);
  }

  lemma FullPass(before: Node, written: Node, backupRoot: Path, run: Run, listing: seq<Run>)
    requires SameOutside(before, written, {backupRoot + [run.id]})
    requires RunAt(written, backupRoot, run.id) == Some(run.created)
    requires Distinct(listing) && Members(listing) == RunsAt(written, backupRoot)
    ensures Lookup(before, backupRoot + [run.id]).None? ==> Members(listing) == RunsAt(before, backupRoot) + {run}
  {
    if Lookup(before, backupRoot + [run.id]).None? {
      AddedRun(before, written, backupRoot, run);
    }
  }

  lemma RunAtDependsOnManifest(t: Node, backupRoot: Path, id: RunId, m: Manifest)
    requires Lookup(t, backupRoot + [id] + [MANIFEST]) == Some(File(ManifestText(m)))
    ensures RunAt(t, backupRoot, id) == Some(m.created)
  {
  }

  /** Writing into one directory adds at most that run. */
  lemma AddedRun(t: Node, t': Node, backupRoot: Path, run: Run)
    requires SameOutside(t, t', {backupRoot + [run.id]}) && Lookup(t, backupRoot + [run.id]).None?
    requires RunAt(t', backupRoot, run.id) == Some(run.created)
    ensures run !in RunsAt(t, backupRoot) && RunsAt(t', backupRoot) == RunsAt(t, backupRoot) + {run}
  {
    forall id: RunId ensures RunAt(t, backupRoot, id).Some? ==> id in EntriesAt(t, backupRoot)
      ensures RunAt(t', backupRoot, id).Some? ==> id in EntriesAt(t', backupRoot)
      ensures id != run.id ==> RunAt(t', backupRoot, id) == RunAt(t, backupRoot, id)
    {
      RunIsListed(t, backupRoot, id);
      RunIsListed(t', backupRoot, id);
      if id != run.id {
        SiblingsDisjoint(backupRoot, run.id, id);
        assert Apart(backupRoot + [id], {backupRoot + [run.id]});
        RunAtDependsOnItsDir(t, t', backupRoot, id);
      }
    }
    LookupAppend(t, backupRoot + [run.id], [MANIFEST]);
  }

  /** What pruning did to the disk is a step of the retention machine. */
  lemma WriteRefines(
    before: Node, written: Node, after: Node, backupRoot: Path, run: Run,
    listing: seq<Run>, keep: nat, keepIds: set<RunId>
  )
    requires SameOutside(before, written, {backupRoot + [run.id]}) && Lookup(before, backupRoot + [run.id]).None?
    requires RunAt(written, backupRoot, run.id) == Some(run.created)
    requires Distinct(listing) && Members(listing) <= RunsAt(written, backupRoot)
    requires Pruned(written, after, backupRoot, Doomed(listing, keep, keepIds))
    ensures var then_, now := RunsAt(before, backupRoot), RunsAt(after, backupRoot);
            Writes(then_, Write(run, listing, keep, keepIds, then_ + {run} - now), now)
  {
    AddedRun(before, written, backupRoot, run);
    var doomed := Doomed(listing, keep, keepIds);
    var mid, now := RunsAt(written, backupRoot), RunsAt(after, backupRoot);
    DoomedIsSafe(listing, keep, keepIds);
    forall id: RunId ensures RunAt(written, backupRoot, id).Some? ==> id in EntriesAt(written, backupRoot)
      ensures RunAt(after, backupRoot, id).Some? ==> id in EntriesAt(after, backupRoot)
    {
      RunIsListed(written, backupRoot, id);
      RunIsListed(after, backupRoot, id);
    }
    forall r | r in now ensures r in mid {
      assert RunAt(after, backupRoot, r.id) in {RunAt(written, backupRoot, r.id), None};
    }
    forall r | r in mid && r !in now ensures r in Members(doomed) {
      if forall d | d in doomed :: d.id != r.id {
        UndoomedUntouched(written, after, backupRoot, doomed, r.id);
        RunAtDependsOnItsDir(written, after, backupRoot, r.id);
      } else {
        var d :| d in doomed && d.id == r.id;
        assert d in Members(listing);
      }
    }
  }

  lemma SafeRunStaysComplete(
    before: Node, written: Node, after: Node, backupRoot: Path, m: Manifest, id: RunId,
    listing: seq<Run>, keep: nat, keepIds: set<RunId>
  )
    requires SameOutside(before, written, {backupRoot + [id]}) && Lookup(before, backupRoot + [id]).None?
    requires RunComplete(written, backupRoot + [id], m, before)
    requires Distinct(listing) && Members(listing) <= RunsAt(written, backupRoot) && keep >= 1
    requires SameOutside(written, after, DirsOf(backupRoot, Doomed(listing, keep, keepIds)))
    requires !CanBeLost(RunsAt(before, backupRoot) + {Run(id, m.created)}, Run(id, m.created), keep, keepIds)
    ensures RunComplete(after, backupRoot + [id], m, before)
  {
    var run, doomed := Run(id, m.created), Doomed(listing, keep, keepIds);
    RunAtDependsOnManifest(written, backupRoot, id, m);
    AddedRun(before, written, backupRoot, run);
    SafeRunSurvives(RunsAt(written, backupRoot), listing, run, keep, keepIds);
    DoomedIsSafe(listing, keep, keepIds);
    forall d | d in doomed ensures d.id != id {
      assert d in Members(listing);
    }
    UndoomedUntouched(written, after, backupRoot, doomed, id);
    CompleteDependsOnItsDir(written, after, backupRoot + [id], m, before);
  }

  lemma CompleteDependsOnItsDir(t: Node, t': Node, dir: Path, m: Manifest, before: Node)
    requires Lookup(t, dir) == Lookup(t', dir) && RunComplete(t, dir, m, before)
    ensures RunComplete(t', dir, m, before)
  {
    LookupAppend(t, dir, [MANIFEST]);
    LookupAppend(t', dir, [MANIFEST]);
    forall j | 0 <= j < |m.targets| ensures RowHolds(t', dir, m.targets[j], before) {
      assert RowHolds(t, dir, m.targets[j], before);
      assert FilesPath(dir, m.targets[j].relative) == dir + ([FILES] + m.targets[j].relative);
      LookupAppend(t, dir, [FILES] + m.targets[j].relative);
      LookupAppend(t', dir, [FILES] + m.targets[j].relative);
    }
  }
}
