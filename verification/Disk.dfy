/**
The disk as a mutable object. Every step may fail, a failed or interrupted
step may leave partial work behind, and every tree the disk ever held stays
in a ghost history, so that claims can be made about each moment of a run.
*/
module DiskSteps {
  import opened Wrappers
  import opened FileTree
  import opened Sorting

  function Last(h: seq<Node>): Node
    requires h != []
  {
    h[|h| - 1]
  }

  /** `h1` continues `h0`, and no tree it adds differs or closes a way outside `touched`. */
  ghost predicate Evolved(h0: seq<Node>, h1: seq<Node>, touched: set<Path>) {
    h0 != [] && h0 <= h1 &&
    forall k | |h0| <= k < |h1| ::
      SameOutside(Last(h0), h1[k], touched) && StillOpen(Last(h0), h1[k], touched)
  }

  lemma EvolvedTrans(h0: seq<Node>, h1: seq<Node>, h2: seq<Node>, touched: set<Path>)
    requires Evolved(h0, h1, touched) && Evolved(h1, h2, touched)
    ensures Evolved(h0, h2, touched)
    ensures SameOutside(Last(h0), Last(h2), touched) && StillOpen(Last(h0), Last(h2), touched)
  {
  }

  /** What is disjoint from the touched paths is as it was, and as easy to get to. */
  lemma StaysOpen(h0: seq<Node>, h1: seq<Node>, touched: set<Path>, q: Path)
    requires Evolved(h0, h1, touched) && Apart(q, touched)
    ensures Lookup(Last(h1), q) == Lookup(Last(h0), q) && StillOpenAt(Last(h0), Last(h1), q)
  {
    EvolvedTrans(h0, h1, h1, touched);
  }

  lemma EvolvedSuperset(h0: seq<Node>, h1: seq<Node>, inner: set<Path>, outer: set<Path>)
    requires Evolved(h0, h1, inner) && inner <= outer
    ensures Evolved(h0, h1, outer)
  {
  }

  lemma EvolvedWiden(h0: seq<Node>, h1: seq<Node>, inner: set<Path>, outer: set<Path>)
    requires Evolved(h0, h1, inner)
    requires forall p | p in inner :: exists o :: o in outer && o <= p
    ensures Evolved(h0, h1, outer)
  {
  }

  /** No tree the history gained differs at `p`. */
  ghost predicate Kept(h0: seq<Node>, h1: seq<Node>, p: Path) {
    h0 != [] && forall k | |h0| <= k < |h1| :: Lookup(h1[k], p) == Lookup(Last(h0), p)
  }

  lemma KeptElsewhere(h0: seq<Node>, h1: seq<Node>, touched: set<Path>, p: Path)
    requires Evolved(h0, h1, touched) && Apart(p, touched)
    ensures Kept(h0, h1, p) && Lookup(Last(h1), p) == Lookup(Last(h0), p)
  {
  }

  lemma KeptTrans(h0: seq<Node>, h1: seq<Node>, h2: seq<Node>, p: Path)
    requires Kept(h0, h1, p) && h0 <= h1 <= h2 && Kept(h1, h2, p)
    ensures Kept(h0, h2, p)
  {
  }

  /** Only where a file may stand: in a directory, and not in a directory's or a link's place. */
  predicate CanHoldFile(t: Node, p: Path) {
    HasParent(t, p) && (Lookup(t, p).None? || Lookup(t, p).value.File?)
  }

  class Disk {
    /** On a calm disk the operating system refuses no step. */
    const calm: bool
    var root: Node
    ghost var history: seq<Node>
    /** How many steps it has refused so far. */
    ghost var faults: nat

    ghost predicate Valid()
      reads this
    {
      history != [] && Last(history) == root
    }

    constructor (t: Node, calm: bool)
      ensures Valid() && root == t && history == [t] && this.calm == calm
    {
      this.calm := calm;
      root, history, faults := t, [t], 0;
    }

    method Commit(t: Node)
      requires Valid()
      modifies `root, `history
      ensures Valid() && root == t && history == old(history) + [t]
    {
      root := t;
      history := history + [t];
    }

    /** Whether the operating system refuses the next step. */
    method Fault() returns (refused: bool)
      modifies `faults
      ensures calm ==> !refused
      ensures faults == old(faults) + if refused then 1 else 0
    {
      refused := *;
      refused := refused && !calm;
      faults := faults + if refused then 1 else 0;
    }

    /** The names in a directory, in whatever order the directory gives them. */
    method ReadDir(entries: map<Name, Node>) returns (names: seq<Name>)
      ensures Distinct(names)
      ensures forall k :: k in names <==> k in entries
    {
      var rest := entries.Keys;
      names := [];
      while rest != {}
        invariant rest <= entries.Keys
        invariant Distinct(names)
        invariant forall k :: k in names <==> k in entries && k !in rest
        decreases |rest|
      {
        var k :| k in rest;
        names := names + [k];
        rest := rest - {k};
      }
    }

    /** `create_dir_all`. A failure may have created some of the ancestors. */
    method MakeDirs(p: Path) returns (ok: bool)
      requires Valid()
      modifies this
      ensures old(faults) <= faults && (calm ==> faults == old(faults))
      ensures Valid() && old(history) <= history
      ensures forall k | |old(history)| <= k < |history| :: OnlyMakes(old(root), history[k], p)
      ensures ok ==> Reachable(old(root), p) && root == WithDir(old(root), p)
      ensures ok ==> Lookup(root, p).Some? && Lookup(root, p).value.Dir?
      ensures Lookup(old(root), p).Some? ==> root == old(root)
      ensures faults == old(faults) && Reachable(old(root), p) &&
              (Lookup(old(root), p).Some? ==> Lookup(old(root), p).value.Dir?) ==>
                ok
    {
      var refused := Fault();
      if Lookup(root, p).Some? {
        PutSame(root, p);
        ok := !refused && Lookup(root, p).value.Dir?;
        return;
      }
      if !Reachable(root, p) {
        return false;
      }
      var made := |p|;
      if refused {
        made := *;
        if made < 0 || made > |p| || Lookup(root, p[..made]).Some? || !Reachable(root, p[..made]) {
          return false;
        }
      }
      assert p[..|p|] == p;
      LookupPut(root, p[..made], EMPTY_DIR);
      WithDirOnlyMakes(root, p[..made]);
      Commit(Put(root, p[..made], EMPTY_DIR));
      ok := !refused;
    }

    /** `fs::copy` onto a path: a failure may leave a torn file. */
    method WriteFile(p: Path, data: Data) returns (ok: bool)
      requires Valid()
      modifies this
      ensures old(faults) <= faults && (calm ==> faults == old(faults))
      ensures Valid() && Evolved(old(history), history, {p})
      ensures ok ==> CanHoldFile(old(root), p) && root == Put(old(root), p, File(data))
      ensures !CanHoldFile(old(root), p) ==> root == old(root)
      ensures faults == old(faults) && CanHoldFile(old(root), p) ==> ok
    {
      if !CanHoldFile(root, p) {
        return false;
      }
      ParentReaches(root, p);
      var torn := Fault();
      if torn {
        var part: Data := *;
        PutOutside(root, p, File(part));
        PutPut(root, p, File(part), File(data));
        Commit(Put(root, p, File(part)));
      }
      var refused := Fault();
      if refused {
        return false;
      }
      PutOutside(old(root), p, File(data));
      Commit(Put(root, p, File(data)));
      ok := true;
    }

    /**
     `write_atomic`: the content goes to a sibling first and is renamed over
     the path, so the path never holds anything but the old or the whole new
     content.
     */
    method WriteAtomic(tmp: Path, p: Path, data: Data) returns (ok: bool)
      requires Valid() && Disjoint(tmp, p)
      modifies this
      ensures old(faults) <= faults && (calm ==> faults == old(faults))
      ensures Valid() && Evolved(old(history), history, {tmp, p})
      ensures forall k | |old(history)| <= k < |history| ::
                Lookup(history[k], p) in {Lookup(old(root), p), Some(File(data))}
      ensures if ok then Lookup(root, p) == Some(File(data)) else Lookup(root, p) == Lookup(old(root), p)
      ensures faults == old(faults) && CanHoldFile(old(root), tmp) && CanHoldFile(old(root), p) ==> ok
      ensures ok ==> Lookup(root, tmp).None?
      ensures CanHoldFile(old(root), tmp) && CanHoldFile(old(root), p) && faults <= old(faults) + 1 ==>
                Lookup(root, tmp).None?
    {
      ok := WriteFile(tmp, data);
      ghost var h1 := history;
      EvolvedSuperset(old(history), h1, {tmp}, {tmp, p});
      EvolvedTrans(old(history), h1, h1, {tmp});
      assert Apart(p, {tmp}) && StillOpenAt(old(root), root, p);
      if ok {
        ParentReaches(old(root), tmp);
        LookupPut(old(root), tmp, File(data));
        ok := Rename(tmp, p);
        EvolvedTrans(old(history), h1, history, {tmp, p});
      }
      if !ok {
        ghost var h2 := history;
        var _ := RemoveNode(tmp);
        EvolvedTrans(h2, history, history, {tmp});
        EvolvedSuperset(h2, history, {tmp}, {tmp, p});
        EvolvedTrans(old(history), h2, history, {tmp, p});
      }
    }

    /**
     `remove_dir_all` on a directory, `remove_file` on anything else. Removing
     a directory passes through, and may stop at, any part of it.
     */
    method RemoveNode(p: Path) returns (ok: bool)
      requires Valid() && p != []
      modifies this
      ensures old(faults) <= faults && (calm ==> faults == old(faults))
      ensures Valid() && Evolved(old(history), history, {p})
      ensures ok ==> Lookup(old(root), p).Some? && Lookup(root, p).None? && root == Remove(old(root), p)
      ensures Lookup(old(root), p).None? ==> !ok && root == old(root) && history == old(history)
      ensures Lookup(root, p).Some? ==>
                Lookup(old(root), p).Some? && Shrunk(Lookup(root, p).value, Lookup(old(root), p).value)
      ensures faults == old(faults) && Lookup(old(root), p).Some? ==> ok
    {
      var target := Lookup(root, p);
      if target.None? {
        return false;
      }
      ShrunkReflexive(target.value);
      PutSame(root, p);
      ghost var before := root;
      var stops: nat := *;
      while stops > 0
        invariant Valid() && Evolved(old(history), history, {p})
        invariant Lookup(root, p).Some? && Shrunk(Lookup(root, p).value, target.value)
        invariant Reachable(root, p)
        invariant Remove(root, p) == Remove(before, p)
        invariant faults == old(faults)
      {
        var rest: Node := *;
        if target.value.Dir? && Shrunk(rest, target.value) {
          ghost var h := history;
          LookupPut(root, p, rest);
          RemovePut(root, p, rest);
          PutOutside(root, p, rest);
          Commit(Put(root, p, rest));
          EvolvedTrans(old(history), h, history, {p});
          PutSame(root, p);
        }
        stops := stops - 1;
      }
      var refused := Fault();
      if refused {
        return false;
      }
      ghost var h := history;
      RemoveOutside(root, p);
      LookupRemove(root, p);
      Commit(Remove(root, p));
      EvolvedTrans(old(history), h, history, {p});
      ok := true;
    }

    /** `fs::rename`: atomic, and only into an existing directory. */
    method Rename(source: Path, dest: Path) returns (ok: bool)
      requires Valid() && Disjoint(source, dest)
      modifies this
      ensures old(faults) <= faults && (calm ==> faults == old(faults))
      ensures Valid() && Evolved(old(history), history, {source, dest})
      ensures !ok ==> root == old(root) && history == old(history)
      ensures ok ==>
                && Lookup(old(root), source).Some?
                && Lookup(root, source).None?
                && Lookup(root, dest) == Lookup(old(root), source)
                && history == old(history) + [root]
      ensures faults == old(faults) && Lookup(old(root), source).Some? && CanHoldFile(old(root), dest) ==> ok
    {
      var refused := Fault();
      if refused || Lookup(root, source).None? || !CanHoldFile(root, dest) {
        return false;
      }
      RenameOutside(root, source, dest, Lookup(root, source).value);
      Commit(Put(Remove(root, source), dest, Lookup(root, source).value));
      ok := true;
    }

    /** Copies files and directories, refusing links; copying merges into what is already there. */
    method CopyForBackup(source: Path, dest: Path) returns (ok: bool)
      requires Valid() && Disjoint(source, dest)
      modifies this
      ensures old(faults) <= faults && (calm ==> faults == old(faults))
      ensures Valid() && Evolved(old(history), history, {dest})
      ensures ok ==> Copied(old(root), root, source, dest)
      ensures faults == old(faults) && CanCopy(old(root), source, dest) ==> ok
      decreases NodeAt(root, source), 1
    {
      var refused := Fault();
      var found := Lookup(root, source);
      if refused || found.None? || found.value.Symlink? {
        return false;
      }
      match found.value {
        case File(data) => ok := CopyFile(source, dest, data);
        case Dir(entries) => ok := CopyEntries(source, dest, entries);
      }
    }

    method CopyFile(source: Path, dest: Path, data: Data) returns (ok: bool)
      requires Valid() && Disjoint(source, dest) && Lookup(root, source) == Some(File(data))
      modifies this
      ensures old(faults) <= faults && (calm ==> faults == old(faults))
      ensures Valid() && Evolved(old(history), history, {dest})
      ensures ok ==> Copied(old(root), root, source, dest)
      ensures faults == old(faults) && CanCopy(old(root), source, dest) ==> ok
    {
      var parent, name := dest[..|dest| - 1], dest[|dest| - 1];
      assert dest == parent + [name];
      ghost var before := root;
      if CanCopy(before, source, dest) {
        ReachableAbove(before, parent, name);
      }
      ok := MakeDirs(parent);
      MadeAbove(old(history), history, parent, dest);
      if ok {
        ghost var h := history;
        PutAfterWithDir(before, parent, [name], File(data));
        SiblingsShareParent(root, parent, name, name);
        LookupWithDir(before, parent, dest);
        ok := WriteFile(dest, data);
        if ok {
          ParentReaches(WithDir(before, parent), dest);
        }
        EvolvedTrans(old(history), h, history, {dest});
      }
    }

    method CopyEntries(source: Path, dest: Path, entries: map<Name, Node>) returns (ok: bool)
      requires Valid() && Disjoint(source, dest) && Lookup(root, source) == Some(Dir(entries))
      modifies this
      ensures old(faults) <= faults && (calm ==> faults == old(faults))
      ensures Valid()
      ensures ok ==> Copied(old(root), root, source, dest)
      ensures faults == old(faults) && CanCopy(old(root), source, dest) ==> ok
      ensures Copying(old(history), history, dest, entries)
      decreases NodeAt(root, source), 0
    {
      ghost var before := root;
      ok := MakeDirs(dest);
      NoChildYet(old(history), history, dest, entries);
      if !ok {
        return;
      }
      CopyStart(before, dest, entries);
      var names := ReadDir(entries);
      names := SortNames(names);
      var i := 0;
      while i < |names|
        invariant 0 <= i <= |names|
        invariant Valid() && CopiedSoFar(old(history), history, dest, entries, names, i)
        invariant old(faults) <= faults && (calm ==> faults == old(faults))
      {
        ghost var h := history;
        ChildReady(old(history), h, source, dest, entries, names, i);
        ok := CopyChild(source, dest, names[i], entries[names[i]]);
        OneMoreCopied(old(history), h, history, dest, entries, names, i, ok);
        if !ok {
          return;
        }
        i := i + 1;
      }
      AllCopied(old(history), history, source, dest, entries, names);
    }

    method CopyChild(source: Path, dest: Path, name: Name, child: Node) returns (ok: bool)
      requires Valid() && Disjoint(source, dest)
      requires Lookup(root, source + [name]) == Some(child)
      modifies this
      ensures old(faults) <= faults && (calm ==> faults == old(faults))
      ensures Valid() && Evolved(old(history), history, {dest + [name]})
      ensures ok ==> SymlinkFree(child)
      ensures ok ==> root == Put(old(root), dest + [name], Overlay(Lookup(old(root), dest + [name]), child))
      ensures faults == old(faults) && CanCopy(old(root), source + [name], dest + [name]) ==> ok
      decreases child, 2
    {
      ChildApart(root, source, dest, name);
      ok := CopyForBackup(source + [name], dest + [name]);
    }
  }

  method SortNames(names: seq<Name>) returns (sorted: seq<Name>)
    requires Distinct(names)
    ensures Distinct(sorted) && SortedBy(sorted, NameLeq)
    ensures forall k :: k in sorted <==> k in names
  {
    NameOrder();
    SortSorts(names, NameLeq);
    sorted := Sort(names, NameLeq);
    SameMultisetDistinct(names, sorted);
  }

  /** A complete copy: link-free, and laid over whatever the destination held. */
  ghost predicate Copied(before: Node, after: Node, source: Path, dest: Path) {
    var copied := Lookup(before, source);
    && copied.Some? && SymlinkFree(copied.value)
    && Reachable(before, dest)
    && after == Put(before, dest, Overlay(Lookup(before, dest), copied.value))
  }

  /** Enough for a copy to go through: a link-free source, and nothing at or blocking the destination. */
  predicate CanCopy(t: Node, source: Path, dest: Path) {
    && Lookup(t, source).Some? && SymlinkFree(Lookup(t, source).value)
    && Lookup(t, dest).None? && Reachable(t, dest)
  }

  ghost function NodeAt(t: Node, p: Path): Node {
    if Lookup(t, p).Some? then Lookup(t, p).value else Symlink(false)
  }

  ghost function Under(kept: map<Name, Node>, k: Name): Option<Node> {
    if k in kept then Some(kept[k]) else None
  }

  /** The directory after the first names of `entries` were copied over `kept`. */
  ghost function Merged(kept: map<Name, Node>, entries: map<Name, Node>, names: seq<Name>): map<Name, Node>
    requires forall k | k in names :: k in entries
  {
    map k | k in kept.Keys + NamesIn(names) :: if k in names then Overlay(Under(kept, k), entries[k]) else kept[k]
  }

  ghost function NamesIn(names: seq<Name>): set<Name> {
    set k | k in names
  }

  function EntriesAt(t: Node, p: Path): map<Name, Node> {
    var n := Lookup(t, p);
    if n.Some? && n.value.Dir? then n.value.entries else map[]
  }

  lemma CopyStart(t: Node, dest: Path, entries: map<Name, Node>)
    requires Reachable(t, dest)
    requires Lookup(t, dest).Some? ==> Lookup(t, dest).value.Dir?
    ensures WithDir(t, dest) == Put(t, dest, Dir(Merged(EntriesAt(t, dest), entries, [])))
  {
  }

  lemma MergedStep(kept: map<Name, Node>, entries: map<Name, Node>, names: seq<Name>, i: nat)
    requires i < |names| && Distinct(names) && forall k | k in names :: k in entries
    ensures var here := Merged(kept, entries, names[..i]);
            Merged(kept, entries, names[..i + 1]) == here[names[i] := Overlay(Under(here, names[i]), entries[names[i]])]
  {
    var name, first := names[i], names[..i];
    var here := Merged(kept, entries, first);
    assert name !in first && names[..i + 1] == first + [name];
    var next, updated := Merged(kept, entries, names[..i + 1]), here[name := Overlay(Under(here, name), entries[name])];
    forall k ensures k in next <==> k in updated {
      assert k in names[..i + 1] <==> k in first || k == name;
    }
    forall k | k in next ensures next[k] == updated[k] {
      assert k in names[..i + 1] <==> k in first || k == name;
    }
  }

  lemma CopyOne(t: Node, dest: Path, kept: map<Name, Node>, entries: map<Name, Node>, names: seq<Name>, i: nat)
    requires Reachable(t, dest)
    requires i < |names| && Distinct(names) && forall k | k in names :: k in entries
    ensures var now := Put(t, dest, Dir(Merged(kept, entries, names[..i])));
            var target := dest + [names[i]];
            Put(now, target, Overlay(Lookup(now, target), entries[names[i]])) ==
            Put(t, dest, Dir(Merged(kept, entries, names[..i + 1])))
  {
    var name := names[i];
    var here := Merged(kept, entries, names[..i]);
    var now := Put(t, dest, Dir(here));
    LookupPut(t, dest, Dir(here));
    LookupAppend(now, dest, [name]);
    LookupChild(Dir(here), name);
    MergedStep(kept, entries, names, i);
    PutBelow(t, dest, Dir(here), [name], Overlay(Lookup(now, dest + [name]), entries[name]));
  }

  // ---------------------------------------------- the order of a copy

  ghost predicate ChildSame(before: Node, s: Node, dest: Path, name: Name) {
    Lookup(s, dest + [name]) == Lookup(before, dest + [name])
  }

  ghost predicate ChildCopied(before: Node, s: Node, dest: Path, entries: map<Name, Node>, name: Name) {
    name in entries && Lookup(s, dest + [name]) == Some(Overlay(Lookup(before, dest + [name]), entries[name]))
  }

  /** Entries are copied in the order of their names: before one is touched, all smaller ones are whole. */
  ghost predicate InNameOrder(before: Node, s: Node, dest: Path, entries: map<Name, Node>) {
    forall a, b | a in entries && b in entries && a != b && NameLeq(a, b) && !ChildSame(before, s, dest, b) ::
      ChildCopied(before, s, dest, entries, a)
  }

  ghost predicate Copying(h0: seq<Node>, h1: seq<Node>, dest: Path, entries: map<Name, Node>) {
    && Evolved(h0, h1, {dest})
    && forall k | |h0| <= k < |h1| :: InNameOrder(Last(h0), h1[k], dest, entries)
  }

  /** The first `i` entries are copied, in order and without links. */
  ghost predicate CopiedSoFar(
    h0: seq<Node>, h1: seq<Node>, dest: Path, entries: map<Name, Node>, names: seq<Name>, i: nat
  )
    requires forall k | k in names :: k in entries
  {
    && i <= |names| && Copying(h0, h1, dest, entries)
    && Last(h1) == Put(Last(h0), dest, Dir(Merged(EntriesAt(Last(h0), dest), entries, names[..i])))
    && forall k | k in names[..i] :: SymlinkFree(entries[k])
  }

  /** A directory can be made, or is, at `dest`. */
  ghost predicate OpenForDir(t: Node, dest: Path) {
    Reachable(t, dest) && (Lookup(t, dest).Some? ==> Lookup(t, dest).value.Dir?)
  }

  ghost predicate InOrder(names: seq<Name>, entries: map<Name, Node>) {
    Distinct(names) && SortedBy(names, NameLeq) && forall k :: k in names <==> k in entries
  }

  /** The next entry is still there to be copied, and in a fresh copy its place is free. */
  lemma ChildReady(
    h0: seq<Node>, h1: seq<Node>, source: Path, dest: Path, entries: map<Name, Node>, names: seq<Name>, i: nat
  )
    requires i < |names| && InOrder(names, entries) && Disjoint(source, dest)
    requires CopiedSoFar(h0, h1, dest, entries, names, i) && Lookup(Last(h0), source) == Some(Dir(entries))
    ensures Lookup(Last(h1), source + [names[i]]) == Some(entries[names[i]])
    ensures CanCopy(Last(h0), source, dest) ==> CanCopy(Last(h1), source + [names[i]], dest + [names[i]])
  {
    var before := Last(h0);
    SourceIntact(before, source, dest, names[i], Dir(Merged(EntriesAt(before, dest), entries, names[..i])));
    if CanCopy(before, source, dest) {
      ChildIsFree(before, dest, entries, names, i);
    }
  }

  lemma OneMoreCopied(
    h0: seq<Node>, h1: seq<Node>, h2: seq<Node>, dest: Path, entries: map<Name, Node>, names: seq<Name>, i: nat,
    ok: bool
  )
    requires i < |names| && InOrder(names, entries) && CopiedSoFar(h0, h1, dest, entries, names, i)
    requires OpenForDir(Last(h0), dest) && Evolved(h1, h2, {dest + [names[i]]})
    requires var target := dest + [names[i]];
             ok ==> && SymlinkFree(entries[names[i]])
                    && Last(h2) == Put(Last(h1), target, Overlay(Lookup(Last(h1), target), entries[names[i]]))
    ensures Copying(h0, h2, dest, entries)
    ensures ok ==> CopiedSoFar(h0, h2, dest, entries, names, i + 1)
  {
    ChildInOrder(h0, h1, h2, dest, entries, names, i);
    if ok {
      CopyOne(Last(h0), dest, EntriesAt(Last(h0), dest), entries, names, i);
    }
  }

  lemma AllCopied(
    h0: seq<Node>, h1: seq<Node>, source: Path, dest: Path, entries: map<Name, Node>, names: seq<Name>
  )
    requires InOrder(names, entries) && CopiedSoFar(h0, h1, dest, entries, names, |names|)
    requires Lookup(Last(h0), source) == Some(Dir(entries)) && OpenForDir(Last(h0), dest)
    ensures Copied(Last(h0), Last(h1), source, dest)
  {
    assert names[..|names|] == names;
    CopyEnd(Last(h0), Last(h1), source, dest, entries, names);
  }

  lemma NoChildYet(h0: seq<Node>, h1: seq<Node>, dest: Path, entries: map<Name, Node>)
    requires h0 != [] && h0 <= h1 && forall k | |h0| <= k < |h1| :: OnlyMakes(Last(h0), h1[k], dest)
    ensures Copying(h0, h1, dest, entries)
  {
    MadeAbove(h0, h1, dest, dest);
    forall k, b | |h0| <= k < |h1| && b in entries ensures ChildSame(Last(h0), h1[k], dest, b) {
      assert !(dest + [b] <= dest);
    }
  }

  /** With the first names copied, each of them is whole and the others are as they were. */
  lemma ChildrenSoFar(t: Node, dest: Path, entries: map<Name, Node>, names: seq<Name>, i: nat, name: Name)
    requires OpenForDir(t, dest)
    requires i <= |names| && forall k | k in names :: k in entries
    ensures var now := Put(t, dest, Dir(Merged(EntriesAt(t, dest), entries, names[..i])));
            if name in names[..i] then ChildCopied(t, now, dest, entries, name) else ChildSame(t, now, dest, name)
  {
    var here := Merged(EntriesAt(t, dest), entries, names[..i]);
    var now := Put(t, dest, Dir(here));
    LookupPut(t, dest, Dir(here));
    LookupAppend(now, dest, [name]);
    LookupChild(Dir(here), name);
    LookupAppend(t, dest, [name]);
    if Lookup(t, dest).Some? {
      LookupChild(Lookup(t, dest).value, name);
    }
  }

  lemma ChildInOrder(
    h0: seq<Node>, h1: seq<Node>, h2: seq<Node>, dest: Path, entries: map<Name, Node>, names: seq<Name>, i: nat
  )
    requires i < |names| && Copying(h0, h1, dest, entries) && Evolved(h1, h2, {dest + [names[i]]})
    requires OpenForDir(Last(h0), dest)
    requires SortedBy(names, NameLeq) && forall k :: k in names <==> k in entries
    requires Last(h1) == Put(Last(h0), dest, Dir(Merged(EntriesAt(Last(h0), dest), entries, names[..i])))
    ensures Copying(h0, h2, dest, entries)
  {
    EvolvedWiden(h1, h2, {dest + [names[i]]}, {dest});
    EvolvedTrans(h0, h1, h2, {dest});
    forall k | |h1| <= k < |h2| ensures InNameOrder(Last(h0), h2[k], dest, entries) {
      ChildAt(Last(h0), Last(h1), h2[k], dest, entries, names, i);
    }
  }

  /** While the `i`-th name is copied only it may be in between. */
  lemma ChildAt(
    before: Node, now: Node, s: Node, dest: Path, entries: map<Name, Node>, names: seq<Name>, i: nat
  )
    requires OpenForDir(before, dest)
    requires i < |names| && SortedBy(names, NameLeq) && forall k :: k in names <==> k in entries
    requires now == Put(before, dest, Dir(Merged(EntriesAt(before, dest), entries, names[..i])))
    requires SameOutside(now, s, {dest + [names[i]]})
    ensures InNameOrder(before, s, dest, entries)
  {
    forall name | name in entries && name != names[i]
      ensures if name in names[..i] then ChildCopied(before, s, dest, entries, name)
              else ChildSame(before, s, dest, name)
    {
      ChildrenSoFar(before, dest, entries, names, i, name);
      DisjointUnder(dest, [names[i]], [name]);
      assert [names[i]][0] != [name][0];
      assert Apart(dest + [name], {dest + [names[i]]});
    }
    forall a, b | a in entries && b in entries && a != b && NameLeq(a, b) && !ChildSame(before, s, dest, b)
      ensures ChildCopied(before, s, dest, entries, a)
    {
      SmallerIsEarlier(names, i, a, b);
    }
  }

  /** Among sorted names, what is smaller than one of the first `i + 1` is one of the first `i`. */
  lemma SmallerIsEarlier(names: seq<Name>, i: nat, a: Name, b: Name)
    requires i < |names| && SortedBy(names, NameLeq) && a in names && a != b && NameLeq(a, b)
    requires b in names[..i] || b == names[i]
    ensures a in names[..i] && a != names[i]
  {
    NameLeqTotal(a, b);
    var j :| 0 <= j < |names| && names[j] == a;
    var l :| 0 <= l <= i && names[l] == b;
    assert j < l;
    assert names[..i][j] == a;
    assert NameLeq(names[l], names[i]) || l == i;
  }

  lemma LookupChild(t: Node, name: Name)
    requires t.Dir?
    ensures Lookup(t, [name]) == if name in t.entries then Some(t.entries[name]) else None
    ensures forall x :: Put(t, [name], x) == Dir(t.entries[name := x])
  {
  }

  lemma CopyEnd(before: Node, after: Node, source: Path, dest: Path, entries: map<Name, Node>, names: seq<Name>)
    requires forall k :: k in names <==> k in entries
    requires forall k | k in names :: SymlinkFree(entries[k])
    requires Lookup(before, source) == Some(Dir(entries)) && Reachable(before, dest)
    requires Lookup(before, dest).Some? ==> Lookup(before, dest).value.Dir?
    requires after == Put(before, dest, Dir(Merged(EntriesAt(before, dest), entries, names)))
    ensures Copied(before, after, source, dest)
  {
    MergedAll(Lookup(before, dest), EntriesAt(before, dest), entries, names);
  }

  ghost function Laid(kept: map<Name, Node>, entries: map<Name, Node>): map<Name, Node> {
    kept + map k | k in entries :: Overlay(Under(kept, k), entries[k])
  }

  lemma OverlayLays(under: Option<Node>, kept: map<Name, Node>, entries: map<Name, Node>)
    requires kept == if under.Some? && under.value.Dir? then under.value.entries else map[]
    ensures Overlay(under, Dir(entries)) == Dir(Laid(kept, entries))
  {
    forall k | k in entries ensures Under(kept, k) == if k in kept then Some(kept[k]) else None {
    }
  }

  lemma MergedAll(under: Option<Node>, kept: map<Name, Node>, entries: map<Name, Node>, names: seq<Name>)
    requires kept == if under.Some? && under.value.Dir? then under.value.entries else map[]
    requires forall k :: k in names <==> k in entries
    ensures Dir(Merged(kept, entries, names)) == Overlay(under, Dir(entries))
  {
    OverlayLays(under, kept, entries);
    MergedIsLaid(kept, entries, names);
  }

  lemma MergedIsLaid(kept: map<Name, Node>, entries: map<Name, Node>, names: seq<Name>)
    requires forall k :: k in names <==> k in entries
    ensures Merged(kept, entries, names) == Laid(kept, entries)
  {
  }

  /** Copying never disturbs what is still to be copied. */
  lemma SourceIntact(before: Node, source: Path, dest: Path, name: Name, n: Node)
    requires Disjoint(source, dest)
    requires Lookup(before, source).Some? && Lookup(before, source).value.Dir?
    requires name in Lookup(before, source).value.entries
    ensures Lookup(Put(before, dest, n), source + [name]) == Some(Lookup(before, source).value.entries[name])
  {
    ChildApart(before, source, dest, name);
    LookupPutDisjoint(before, dest, n, source + [name]);
  }

  lemma ChildApart(t: Node, source: Path, dest: Path, name: Name)
    requires Disjoint(source, dest)
    ensures Disjoint(source + [name], dest + [name]) && Disjoint(dest, source + [name])
    ensures Lookup(t, source).Some? ==>
              Lookup(t, source + [name]) == Lookup(Lookup(t, source).value, [name])
    ensures Lookup(t, source).Some? && Lookup(t, source).value.Dir? && name in Lookup(t, source).value.entries ==>
              Lookup(t, source + [name]) == Some(Lookup(t, source).value.entries[name])
  {
    DisjointBelow(source, [name], dest);
    DisjointBelow(dest, [name], source + [name]);
    LookupAppend(t, source, [name]);
    if Lookup(t, source).Some? && Lookup(t, source).value.Dir? {
      LookupChild(Lookup(t, source).value, name);
    }
  }

  /** In a fresh copy the next name is still free. */
  lemma ChildIsFree(t: Node, dest: Path, entries: map<Name, Node>, names: seq<Name>, i: nat)
    requires Lookup(t, dest).None? && Reachable(t, dest) && SymlinkFree(Dir(entries))
    requires i < |names| && Distinct(names) && forall k | k in names :: k in entries
    ensures var now := Put(t, dest, Dir(Merged(EntriesAt(t, dest), entries, names[..i])));
            Lookup(now, dest + [names[i]]).None? && Reachable(now, dest + [names[i]])
    ensures SymlinkFree(entries[names[i]])
  {
    var name, here := names[i], Dir(Merged(EntriesAt(t, dest), entries, names[..i]));
    assert name !in names[..i];
    LookupPut(t, dest, here);
    LookupAppend(Put(t, dest, here), dest, [name]);
    LookupChild(here, name);
    ReachableBelow(t, dest, here, [name]);
  }

  /** Creating directories above or at `dest` touches nothing apart from `dest`. */
  lemma MadeAbove(h0: seq<Node>, h1: seq<Node>, p: Path, dest: Path)
    requires h0 != [] && h0 <= h1 && p <= dest
    requires forall k | |h0| <= k < |h1| :: OnlyMakes(Last(h0), h1[k], p)
    ensures Evolved(h0, h1, {dest})
  {
    forall k | |h0| <= k < |h1|
      ensures SameOutside(Last(h0), h1[k], {dest}) && StillOpen(Last(h0), h1[k], {dest})
    {
      assert OnlyMakes(Last(h0), h1[k], p);
      forall q: Path | Apart(q, {dest}) ensures !(q <= p) {
        assert Disjoint(dest, q);
      }
    }
  }

  lemma RenameOutside(t: Node, source: Path, dest: Path, moved: Node)
    requires Disjoint(source, dest) && Lookup(t, source).Some? && HasParent(t, dest)
    ensures var after := Put(Remove(t, source), dest, moved);
            && SameOutside(t, after, {source, dest}) && StillOpen(t, after, {source, dest})
            && Lookup(after, source).None? && Lookup(after, dest) == Some(moved)
  {
    var between := Remove(t, source);
    RemoveOutside(t, source);
    PutOutside(between, dest, moved);
    assert Apart(dest, {source}) && Apart(source, {dest});
    assert StillOpenAt(t, between, dest);
    ParentReaches(between, dest);
    LookupRemove(t, source);
    LookupPut(between, dest, moved);
    forall q: Path | Apart(q, {source, dest})
      ensures Lookup(Put(between, dest, moved), q) == Lookup(t, q) && StillOpenAt(t, Put(between, dest, moved), q)
    {
      assert Apart(q, {source}) && Apart(q, {dest});
      assert StillOpenAt(t, between, q) && StillOpenAt(between, Put(between, dest, moved), q);
    }
  }

  lemma {:induction false} RemovePut(t: Node, p: Path, n: Node)
    requires p != [] && Lookup(t, p).Some?
    ensures Remove(Put(t, p, n), p) == Remove(t, p)
    ensures Reachable(Put(t, p, n), p)
    decreases p
  {
    if |p| > 1 {
      RemovePut(t.entries[p[0]], p[1..], n);
    }
  }
}
