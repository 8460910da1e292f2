/** Comparing trees, and the status a backup run is listed with. */
module Comparison {
  import opened Wrappers
  import opened FileTree
  import opened Sorting
  import opened DiskSteps
  import opened Backups
  import opened Restores

  /** Both exist, neither holds a link anywhere, and they are the same tree. */
  ghost predicate SameTree(a: Option<Node>, b: Option<Node>) {
    a.Some? && b.Some? && a.value == b.value && SymlinkFree(a.value)
  }

  /** `paths_equal` on a disk where every read succeeds: entries sorted by name, then pairwise. */
  method PathsEqual(disk: Disk, a: Path, b: Path) returns (equal: bool)
    requires disk.Valid()
    ensures equal <==> SameTree(Lookup(disk.root, a), Lookup(disk.root, b))
    decreases NodeAt(disk.root, a), 1
  {
    var na, nb := Lookup(disk.root, a), Lookup(disk.root, b);
    if na.None? || nb.None? || na.value.Symlink? || nb.value.Symlink? {
      return false;
    }
    if na.value.Dir? != nb.value.Dir? {
      return false;
    }
    if na.value.File? {
      return na.value.data == nb.value.data;
    }
    equal := EntriesEqual(disk, a, b, na.value.entries, nb.value.entries);
  }

  method EntriesEqual(disk: Disk, a: Path, b: Path, ea: map<Name, Node>, eb: map<Name, Node>) returns (equal: bool)
    requires disk.Valid() && Lookup(disk.root, a) == Some(Dir(ea)) && Lookup(disk.root, b) == Some(Dir(eb))
    ensures equal <==> ea == eb && forall k | k in ea :: SymlinkFree(ea[k])
    decreases NodeAt(disk.root, a), 0
  {
    var xs, ys := SortedListings(disk, ea, eb);
    if |xs| != |ys| {
      return false;
    }
    var i := 0;
    while i < |xs|
      invariant 0 <= i <= |xs|
      invariant forall k | 0 <= k < i :: xs[k] == ys[k] && SameEntry(ea, eb, xs[k])
    {
      if xs[i] != ys[i] {
        return false;
      }
      LookupEntry(disk.root, a, xs[i]);
      LookupEntry(disk.root, b, xs[i]);
      var same := PathsEqual(disk, a + [xs[i]], b + [xs[i]]);
      if !same {
        return false;
      }
      i := i + 1;
    }
    AllSame(ea, eb, xs, ys);
    equal := true;
  }

  lemma AllSame(ea: map<Name, Node>, eb: map<Name, Node>, xs: seq<Name>, ys: seq<Name>)
    requires (forall k :: k in xs <==> k in ea) && (ea.Keys == eb.Keys <==> xs == ys)
    requires |xs| == |ys| && forall k | 0 <= k < |xs| :: xs[k] == ys[k] && SameEntry(ea, eb, xs[k])
    ensures ea == eb && forall k | k in ea :: SymlinkFree(ea[k])
  {
  }

  method SortedListings(disk: Disk, ea: map<Name, Node>, eb: map<Name, Node>) returns (xs: seq<Name>, ys: seq<Name>)
    ensures (forall k :: k in xs <==> k in ea) && (forall k :: k in ys <==> k in eb)
    ensures ea.Keys == eb.Keys <==> xs == ys
  {
    var la := disk.ReadDir(ea);
    var lb := disk.ReadDir(eb);
    xs := SortNames(la);
    ys := SortNames(lb);
    ListingsAgree(ea, eb, xs, ys);
  }

  ghost predicate SameEntry(ea: map<Name, Node>, eb: map<Name, Node>, k: Name) {
    k in ea && k in eb && ea[k] == eb[k] && SymlinkFree(ea[k])
  }

  lemma LookupEntry(t: Node, p: Path, name: Name)
    requires Lookup(t, p).Some? && Lookup(t, p).value.Dir? && name in Lookup(t, p).value.entries
    ensures Lookup(t, p + [name]) == Some(Lookup(t, p).value.entries[name])
  {
    LookupAppend(t, p, [name]);
    LookupChild(Lookup(t, p).value, name);
  }

  /** Two directories hold the same names exactly when their sorted listings are equal. */
  lemma ListingsAgree(ea: map<Name, Node>, eb: map<Name, Node>, xs: seq<Name>, ys: seq<Name>)
    requires Distinct(xs) && Distinct(ys) && SortedBy(xs, NameLeq) && SortedBy(ys, NameLeq)
    requires (forall k :: k in xs <==> k in ea) && (forall k :: k in ys <==> k in eb)
    ensures ea.Keys == eb.Keys <==> xs == ys
  {
    NameOrder();
    if ea.Keys == eb.Keys {
      SameSetSameMultiset(xs, ys);
      SortedIsUnique(xs, ys, NameLeq);
    }
    if xs == ys {
      assert forall k :: k in ea.Keys <==> k in eb.Keys;
    }
  }

  // ------------------------------------------------------------- status

  datatype TargetState = Absent | Identical | Differs

  datatype Aggregate = EmptyRun | AllAbsent | AllIdentical | SomeDiffer | Mixed

  method TargetStateOf(disk: Disk, dir: Path, x: ManifestTarget) returns (state: TargetState)
    requires disk.Valid()
    ensures state == ClassifyTarget(disk.root, dir, x)
  {
    var exists_ := Exists(disk.root, x.source);
    if !x.existedBefore {
      return if exists_ then Differs else Absent;
    }
    if !exists_ {
      return Absent;
    }
    var same := PathsEqual(disk, FilesPath(dir, x.relative), x.source);
    state := if same then Identical else Differs;
  }

  ghost function ClassifyTarget(t: Node, dir: Path, x: ManifestTarget): TargetState {
    if !Exists(t, x.source) then Absent
    else if x.existedBefore && SameTree(Lookup(t, FilesPath(dir, x.relative)), Lookup(t, x.source)) then Identical
    else Differs
  }

  function AggregateState(states: seq<TargetState>): (a: Aggregate)
    ensures a == SomeDiffer <==> Differs in states
    ensures a == EmptyRun <==> states == []
  {
    if states == [] then EmptyRun
    else if Differs in states then SomeDiffer
    else if forall s | s in states :: s == Absent then AllAbsent
    else if forall s | s in states :: s == Identical then AllIdentical
    else Mixed
  }

  ghost function StatesOf(t: Node, dir: Path, targets: seq<ManifestTarget>): seq<TargetState> {
    seq(|targets|, i requires 0 <= i < |targets| => ClassifyTarget(t, dir, targets[i]))
  }

  /** The state a row is in once it is restored. */
  function Settled(x: ManifestTarget): TargetState {
    if x.existedBefore then Identical else Absent
  }

  /**
   A target restored with nothing harmful staged classifies as Identical if
   the backup had it and as Absent if not.
   */
  lemma RestoredClassifies(before: Node, after: Node, dir: Path, x: ManifestTarget, clean: bool)
    requires TargetRestored(before, after, dir, x, clean) && (clean || RowHarmless(before, dir, x))
    requires Lookup(after, dir) == Lookup(before, dir)
    ensures ClassifyTarget(after, dir, x) == Settled(x)
  {
    if x.existedBefore {
      RestoredExactly(before, after, dir, x, clean);
      assert FilesPath(dir, x.relative) == dir + ([FILES] + x.relative);
      LookupAppend(before, dir, [FILES] + x.relative);
      LookupAppend(after, dir, [FILES] + x.relative);
    }
  }

  /** What is at `p` is what was there, or nothing is and was. */
  ghost predicate UnchangedAt(before: Node, after: Node, p: Path) {
    if Exists(before, p) then Lookup(after, p) == Lookup(before, p) else !Exists(after, p)
  }

  /** The listed state tells whether a restore would change a target: it would not exactly when it is settled. */
  lemma SettledIffRestoreIsIdle(before: Node, after: Node, dir: Path, x: ManifestTarget, clean: bool)
    requires TargetRestored(before, after, dir, x, clean) && (clean || RowHarmless(before, dir, x))
    ensures ClassifyTarget(before, dir, x) == Settled(x) <==> UnchangedAt(before, after, x.source)
  {
    if x.existedBefore {
      RestoredExactly(before, after, dir, x, clean);
      SymlinkFreeExists(Lookup(before, FilesPath(dir, x.relative)).value);
    }
  }

  lemma SymlinkFreeExists(n: Node)
    requires SymlinkFree(n)
    ensures !n.Symlink?
  {
  }

  /** A run listed as identical is one whose restore would change nothing, and it recorded no absence. */
  lemma ListedIdenticalIsIdle(before: Node, after: Node, dir: Path, targets: seq<ManifestTarget>, clean: bool)
    requires targets != [] && AllRestored(before, after, dir, targets, clean)
    requires clean || forall i | 0 <= i < |targets| :: RowHarmless(before, dir, targets[i])
    ensures AggregateState(StatesOf(before, dir, targets)) == AllIdentical <==>
              forall i | 0 <= i < |targets| ::
                targets[i].existedBefore && UnchangedAt(before, after, targets[i].source)
  {
    var states := StatesOf(before, dir, targets);
    forall i | 0 <= i < |targets|
      ensures states[i] == Identical <==>
                targets[i].existedBefore && UnchangedAt(before, after, targets[i].source)
    {
      assert TargetRestored(before, after, dir, targets[i], clean);
      SettledIffRestoreIsIdle(before, after, dir, targets[i], clean);
    }
    assert states[0] in states;
    forall i | 0 <= i < |states| && AggregateState(states) == AllIdentical ensures states[i] == Identical {
      assert states[i] in states;
    }
  }

  /** After a full restore the run is never listed as differing, and the listing says what it recorded. */
  lemma RestoredNeverDiffers(before: Node, after: Node, dir: Path, targets: seq<ManifestTarget>, clean: bool)
    requires AllRestored(before, after, dir, targets, clean) && Lookup(after, dir) == Lookup(before, dir)
    requires clean || forall i | 0 <= i < |targets| :: RowHarmless(before, dir, targets[i])
    ensures AggregateState(StatesOf(after, dir, targets)) ==
              if targets == [] then EmptyRun
              else if forall i | 0 <= i < |targets| :: targets[i].existedBefore then AllIdentical
              else if forall i | 0 <= i < |targets| :: !targets[i].existedBefore then AllAbsent
              else Mixed
  {
    forall i | 0 <= i < |targets| ensures ClassifyTarget(after, dir, targets[i]) == Settled(targets[i]) {
      assert TargetRestored(before, after, dir, targets[i], clean);
      RestoredClassifies(before, after, dir, targets[i], clean);
    }
    SettledAggregate(targets, StatesOf(after, dir, targets));
  }

  lemma SettledAggregate(targets: seq<ManifestTarget>, states: seq<TargetState>)
    requires |states| == |targets| && forall i | 0 <= i < |targets| :: states[i] == Settled(targets[i])
    ensures AggregateState(states) ==
              if targets == [] then EmptyRun
              else if forall i | 0 <= i < |targets| :: targets[i].existedBefore then AllIdentical
              else if forall i | 0 <= i < |targets| :: !targets[i].existedBefore then AllAbsent
              else Mixed
  {
    if targets != [] {
      assert states[0] in states;
      forall i | 0 <= i < |targets| ensures states[i] in states && states[i] == Settled(targets[i]) {
      }
    }
  }
}
