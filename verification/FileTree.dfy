/**
The disk as a value: a tree of files, directories and links, addressed by
name sequences, with the three tree edits every disk step reduces to.
*/
module FileTree {
  import opened Wrappers

  type Name = string
  type Path = seq<Name>
  type Bytes = seq<bv8>

  /** One row of a manifest: what was backed up, where in the run, and whether it existed. */
  datatype ManifestTarget = ManifestTarget(source: Path, relative: Path, existedBefore: bool)

  datatype BackupKind = ResetRun | ApplyRun | RestoreRun

  datatype Manifest = Manifest(
    schemaVersion: nat,
    kind: BackupKind,
    base: Path,
    created: nat,
    targets: seq<ManifestTarget>
  )

  /** File contents. A manifest's text stands for the manifest it parses to. */
  datatype Data = Raw(bytes: Bytes) | ManifestText(manifest: Manifest)

  /** `live` says whether a link leads to something that exists. */
  datatype Node =
    | File(data: Data)
    | Dir(entries: map<Name, Node>)
    | Symlink(live: bool)

  const EMPTY_DIR: Node := Dir(map[])

  // ---------------------------------------------------------------- paths

  /** Neither path lies at or below the other. */
  predicate Disjoint(p: Path, q: Path) {
    !(p <= q) && !(q <= p)
  }

  /** `q` is disjoint from every touched path. */
  ghost predicate Apart(q: Path, touched: set<Path>) {
    forall p | p in touched :: Disjoint(p, q)
  }

  ghost predicate PairwiseDisjoint(ps: seq<Path>) {
    forall i, j | 0 <= i < |ps| && 0 <= j < |ps| && i != j :: Disjoint(ps[i], ps[j])
  }

  lemma DisjointBelow(p: Path, r: Path, q: Path)
    requires Disjoint(p, q)
    ensures Disjoint(p + r, q) && Disjoint(q, p + r)
  {
  }

  /** Two names that first differ below a common parent lead to disjoint paths. */
  lemma DisjointUnder(p: Path, q: Path, r: Path)
    ensures Disjoint(p + q, p + r) <==> Disjoint(q, r)
  {
    assert (p + q)[|p|..] == q && (p + r)[|p|..] == r;
  }

  lemma DisjointTail(p: Path, q: Path)
    requires p != [] && q != [] && p[0] == q[0]
    ensures Disjoint(p, q) <==> Disjoint(p[1..], q[1..])
  {
  }

  // ----------------------------------------------------------- tree edits

  function Lookup(t: Node, p: Path): Option<Node> {
    if p == [] then Some(t)
    else if t.Dir? && p[0] in t.entries then Lookup(t.entries[p[0]], p[1..])
    else None
  }

  /** Whatever exists strictly above `p` is a directory. */
  predicate Reachable(t: Node, p: Path) {
    p == [] || (t.Dir? && (p[0] in t.entries ==> Reachable(t.entries[p[0]], p[1..])))
  }

  /** There is a directory for `p` to stand in. */
  predicate HasParent(t: Node, p: Path) {
    p != [] && t.Dir? && (|p| == 1 || (p[0] in t.entries && HasParent(t.entries[p[0]], p[1..])))
  }

  /** Puts `n` at `p`, creating the directories on the way. */
  function Put(t: Node, p: Path, n: Node): Node
    decreases p
  {
    if p == [] then n
    else if !t.Dir? then t
    else
      var child := if p[0] in t.entries then t.entries[p[0]] else EMPTY_DIR;
      Dir(t.entries[p[0] := Put(child, p[1..], n)])
  }

  function Remove(t: Node, p: Path): Node {
    if p == [] || !t.Dir? || p[0] !in t.entries then t
    else if |p| == 1 then Dir(t.entries - {p[0]})
    else Dir(t.entries[p[0] := Remove(t.entries[p[0]], p[1..])])
  }

  /** `create_dir_all`: the directory at `p`, if there is nothing yet. */
  function WithDir(t: Node, p: Path): Node {
    if Lookup(t, p).None? then Put(t, p, EMPTY_DIR) else t
  }

  /** `path.exists()`: follows a link, so a dead link does not exist. */
  predicate Exists(t: Node, p: Path) {
    var n := Lookup(t, p);
    n.Some? && (n.value.Symlink? ==> n.value.live)
  }

  predicate SymlinkFree(n: Node) {
    match n
    case File(_) => true
    case Symlink(_) => false
    case Dir(entries) => forall k | k in entries :: SymlinkFree(entries[k])
  }

  /** `a` is what an interrupted recursive removal can leave of `b`. */
  predicate Shrunk(a: Node, b: Node) {
    if a.Dir? && b.Dir? then
      a.entries.Keys <= b.entries.Keys &&
      forall k | k in a.entries :: k in b.entries && Shrunk(a.entries[k], b.entries[k])
    else a == b
  }

  lemma ShrunkReflexive(n: Node)
    ensures Shrunk(n, n)
  {
  }

  /** What copying `source` over whatever is at the destination leaves there. */
  function Overlay(under: Option<Node>, source: Node): Node
    decreases source
  {
    match source
    case Dir(entries) =>
      var kept := if under.Some? && under.value.Dir? then under.value.entries else map[];
      Dir(kept + map k | k in entries ::
          Overlay(if k in kept then Some(kept[k]) else None, entries[k]))
    case _ => source
  }

  lemma {:induction false} OverlayNothing(n: Node)
    ensures Overlay(None, n) == n
  {
    if n.Dir? {
      forall k | k in n.entries { OverlayNothing(n.entries[k]); }
    }
  }

  /** Every entry of `under` also occurs in `source`, directory for directory. */
  predicate Covered(under: Node, source: Node) {
    under.Dir? && source.Dir? ==>
      forall k | k in under.entries ::
        k in source.entries && Covered(under.entries[k], source.entries[k])
  }

  /**
   Copying over a leftover yields the source exactly when the leftover holds
   no entry that the source lacks.
   */
  lemma {:induction false} OverlayIsExact(under: Node, source: Node)
    ensures Overlay(Some(under), source) == source <==> Covered(under, source)
    decreases source
  {
    if under.Dir? && source.Dir? {
      var kept, entries := under.entries, source.entries;
      var result := Overlay(Some(under), source).entries;
      forall k | k in entries
        ensures k in kept ==> (Overlay(Some(kept[k]), entries[k]) == entries[k] <==> Covered(kept[k], entries[k]))
        ensures k !in kept ==> result[k] == entries[k]
      {
        if k in kept { OverlayIsExact(kept[k], entries[k]); } else { OverlayNothing(entries[k]); }
      }
      if Covered(under, source) {
        assert result.Keys == entries.Keys;
        assert result == entries;
      }
      if Overlay(Some(under), source) == source {
        forall k | k in kept ensures k in entries && Covered(kept[k], entries[k]) {
          assert k in result;
        }
      }
    } else if source.Dir? {
      forall k | k in source.entries { OverlayNothing(source.entries[k]); }
    }
  }

  /** Whatever an interrupted removal leaves of a covered tree is covered. */
  lemma {:induction false} ShrunkIsCovered(a: Node, b: Node, source: Node)
    requires Shrunk(a, b) && Covered(b, source)
    ensures Covered(a, source)
    decreases source
  {
    if a.Dir? && b.Dir? && source.Dir? {
      forall k | k in a.entries ensures k in source.entries && Covered(a.entries[k], source.entries[k]) {
        ShrunkIsCovered(a.entries[k], b.entries[k], source.entries[k]);
      }
    }
  }

  // ------------------------------------------------------- laws of edits

  lemma {:induction false} LookupAppend(t: Node, p: Path, q: Path)
    ensures Lookup(t, p + q) ==
            if Lookup(t, p).Some? then Lookup(Lookup(t, p).value, q) else None
  {
    if p == [] {
      assert p + q == q;
    } else if t.Dir? && p[0] in t.entries {
      assert (p + q)[1..] == p[1..] + q;
      LookupAppend(t.entries[p[0]], p[1..], q);
    }
  }

  lemma {:induction false} LookupPut(t: Node, p: Path, n: Node)
    requires Reachable(t, p)
    ensures Lookup(Put(t, p, n), p) == Some(n)
    decreases p
  {
    if p != [] {
      var child := if p[0] in t.entries then t.entries[p[0]] else EMPTY_DIR;
      LookupPut(child, p[1..], n);
    }
  }

  lemma {:induction false} LookupPutDisjoint(t: Node, p: Path, n: Node, q: Path)
    requires Disjoint(p, q)
    ensures Lookup(Put(t, p, n), q) == Lookup(t, q)
    decreases p
  {
    if t.Dir? && p[0] == q[0] {
      DisjointTail(p, q);
      var child := if p[0] in t.entries then t.entries[p[0]] else EMPTY_DIR;
      LookupPutDisjoint(child, p[1..], n, q[1..]);
    }
  }

  lemma {:induction false} LookupRemove(t: Node, p: Path)
    requires p != []
    ensures Lookup(Remove(t, p), p) == None
  {
    if t.Dir? && p[0] in t.entries && |p| > 1 {
      LookupRemove(t.entries[p[0]], p[1..]);
    }
  }

  lemma {:induction false} LookupRemoveDisjoint(t: Node, p: Path, q: Path)
    requires Disjoint(p, q)
    ensures Lookup(Remove(t, p), q) == Lookup(t, q)
  {
    if t.Dir? && p[0] in t.entries {
      if |p| > 1 && p[0] == q[0] {
        DisjointTail(p, q);
        LookupRemoveDisjoint(t.entries[p[0]], p[1..], q[1..]);
      }
    }
  }

  lemma {:induction false} PutSame(t: Node, p: Path)
    requires Lookup(t, p).Some?
    ensures Put(t, p, Lookup(t, p).value) == t && Reachable(t, p)
  {
    if p != [] {
      PutSame(t.entries[p[0]], p[1..]);
    }
  }

  lemma {:induction false} PutBelow(t: Node, p: Path, n: Node, q: Path, x: Node)
    requires Reachable(t, p)
    ensures Put(Put(t, p, n), p + q, x) == Put(t, p, Put(n, q, x))
    decreases p
  {
    if p == [] {
      assert p + q == q;
    } else {
      var name, rest := p[0], p[1..];
      assert (p + q)[0] == name && (p + q)[1..] == rest + q;
      var child := if name in t.entries then t.entries[name] else EMPTY_DIR;
      PutBelow(child, rest, n, q, x);
      var inner := Put(child, rest, n);
      var once := Put(t, p, n);
      assert once == Dir(t.entries[name := inner]);
      var below := Put(inner, rest + q, x);
      assert Put(once, p + q, x) == Dir(once.entries[name := below]);
      assert t.entries[name := inner][name := below] == t.entries[name := below];
    }
  }

  lemma {:induction false} ReachableBelow(t: Node, p: Path, n: Node, q: Path)
    requires Reachable(t, p)
    ensures Reachable(Put(t, p, n), p + q) <==> Reachable(n, q)
    decreases p
  {
    if p == [] {
      assert p + q == q;
    } else {
      assert (p + q)[1..] == p[1..] + q;
      var child := if p[0] in t.entries then t.entries[p[0]] else EMPTY_DIR;
      ReachableBelow(child, p[1..], n, q);
    }
  }

  lemma PutPut(t: Node, p: Path, a: Node, b: Node)
    requires Reachable(t, p)
    ensures Put(Put(t, p, a), p, b) == Put(t, p, b)
  {
    assert p + [] == p;
    PutBelow(t, p, a, [], b);
  }

  /** Creating a missing directory first makes no difference to a later `Put` below it. */
  lemma {:induction false} PutMissing(t: Node, p: Path, q: Path, x: Node)
    requires Lookup(t, p).None? && Reachable(t, p)
    ensures Put(t, p + q, x) == Put(t, p, Put(EMPTY_DIR, q, x))
    ensures Reachable(t, p + q)
  {
    if p != [] {
      assert (p + q)[1..] == p[1..] + q;
      if p[0] in t.entries {
        PutMissing(t.entries[p[0]], p[1..], q, x);
      } else {
        PutIntoEmpty(p[1..], q, x);
      }
    }
  }

  lemma {:induction false} PutIntoEmpty(p: Path, q: Path, x: Node)
    ensures Put(EMPTY_DIR, p + q, x) == Put(EMPTY_DIR, p, Put(EMPTY_DIR, q, x))
  {
    if p == [] {
      assert p + q == q;
    } else {
      assert (p + q)[1..] == p[1..] + q;
      PutIntoEmpty(p[1..], q, x);
    }
  }

  lemma PutAfterWithDir(t: Node, p: Path, q: Path, x: Node)
    requires Reachable(t, p)
    requires Lookup(t, p).None? || Lookup(t, p).value.Dir?
    ensures Put(WithDir(t, p), p + q, x) == Put(t, p + q, x)
    ensures Reachable(WithDir(t, p), p + q) ==> Reachable(t, p + q)
  {
    if Lookup(t, p).None? {
      ReachableBelow(t, p, EMPTY_DIR, q);
      PutBelow(t, p, EMPTY_DIR, q, x);
      PutMissing(t, p, q, x);
    }
  }

  /** A new empty directory shows up only at itself and above. */
  lemma {:induction false} LookupWithDir(t: Node, p: Path, q: Path)
    requires Reachable(t, p) && !(q <= p)
    ensures Lookup(WithDir(t, p), q) == Lookup(t, q)
  {
    if Lookup(t, p).None? {
      if p <= q {
        var r := q[|p|..];
        assert q == p + r && r != [];
        LookupPut(t, p, EMPTY_DIR);
        LookupAppend(Put(t, p, EMPTY_DIR), p, r);
        LookupAppend(t, p, r);
      } else {
        LookupPutDisjoint(t, p, EMPTY_DIR, q);
      }
    }
  }

  // ------------------------------------------------------------- framing

  /** Nothing disjoint from every touched path differs between the two trees. */
  ghost predicate SameOutside(t: Node, t': Node, touched: set<Path>) {
    forall q: Path | Apart(q, touched) :: Lookup(t', q) == Lookup(t, q)
  }

  ghost predicate StillOpenAt(t: Node, t': Node, q: Path) {
    && (Reachable(t, q) ==> Reachable(t', q))
    && (HasParent(t, q) ==> HasParent(t', q))
  }

  /** No way to a path disjoint from every touched one is blocked, and no directory it stands in is gone. */
  ghost predicate StillOpen(t: Node, t': Node, touched: set<Path>) {
    forall q: Path | Apart(q, touched) :: StillOpenAt(t, t', q)
  }

  lemma {:induction false} ParentReaches(t: Node, p: Path)
    requires HasParent(t, p)
    ensures Reachable(t, p)
  {
    if |p| > 1 {
      ParentReaches(t.entries[p[0]], p[1..]);
    }
  }

  /** What exists stands in a directory, and so does everything beside it. */
  lemma {:induction false} SiblingsShareParent(t: Node, p: Path, a: Name, b: Name)
    ensures HasParent(t, p + [a]) <==> HasParent(t, p + [b])
    ensures Reachable(t, p + [a]) <==> Reachable(t, p + [b])
    ensures Lookup(t, p + [a]).Some? ==> HasParent(t, p + [a])
    ensures HasParent(t, p + [a]) <==> Lookup(t, p).Some? && Lookup(t, p).value.Dir?
  {
    if p == [] {
      assert p + [a] == [a] && p + [b] == [b];
    } else {
      assert (p + [a])[1..] == p[1..] + [a] && (p + [b])[1..] == p[1..] + [b];
      if t.Dir? && p[0] in t.entries {
        SiblingsShareParent(t.entries[p[0]], p[1..], a, b);
      }
    }
  }

  /** Whatever exists above a reachable path is a directory that can be reached. */
  lemma {:induction false} ReachableAbove(t: Node, p: Path, name: Name)
    requires Reachable(t, p + [name])
    ensures Reachable(t, p)
    ensures Lookup(t, p).Some? ==> Lookup(t, p).value.Dir?
  {
    if p == [] {
      assert p + [name] == [name];
    } else {
      assert (p + [name])[1..] == p[1..] + [name];
      if p[0] in t.entries {
        ReachableAbove(t.entries[p[0]], p[1..], name);
      }
    }
  }

  lemma {:induction false} PutKeepsOpen(t: Node, p: Path, n: Node, q: Path)
    requires Disjoint(p, q)
    ensures StillOpenAt(t, Put(t, p, n), q)
    decreases p
  {
    if t.Dir? && p[0] == q[0] {
      DisjointTail(p, q);
      var child := if p[0] in t.entries then t.entries[p[0]] else EMPTY_DIR;
      PutKeepsOpen(child, p[1..], n, q[1..]);
    }
  }

  lemma {:induction false} RemoveKeepsOpen(t: Node, p: Path, q: Path)
    requires Disjoint(p, q)
    ensures StillOpenAt(t, Remove(t, p), q)
  {
    if t.Dir? && p[0] in t.entries && |p| > 1 && p[0] == q[0] {
      DisjointTail(p, q);
      RemoveKeepsOpen(t.entries[p[0]], p[1..], q[1..]);
    }
  }

  lemma PutOutside(t: Node, p: Path, n: Node)
    ensures SameOutside(t, Put(t, p, n), {p}) && StillOpen(t, Put(t, p, n), {p})
  {
    forall q: Path | Apart(q, {p})
      ensures Lookup(Put(t, p, n), q) == Lookup(t, q) && StillOpenAt(t, Put(t, p, n), q)
    {
      LookupPutDisjoint(t, p, n, q);
      PutKeepsOpen(t, p, n, q);
    }
  }

  lemma RemoveOutside(t: Node, p: Path)
    ensures SameOutside(t, Remove(t, p), {p}) && StillOpen(t, Remove(t, p), {p})
  {
    forall q: Path | Apart(q, {p})
      ensures Lookup(Remove(t, p), q) == Lookup(t, q) && StillOpenAt(t, Remove(t, p), q)
    {
      LookupRemoveDisjoint(t, p, q);
      RemoveKeepsOpen(t, p, q);
    }
  }

  /** A path can be reached again once what stood there is removed. */
  lemma {:induction false} RemovedIsReachable(t: Node, p: Path)
    requires Reachable(t, p)
    ensures Reachable(Remove(t, p), p)
  {
    if p != [] && p[0] in t.entries && |p| > 1 {
      RemovedIsReachable(t.entries[p[0]], p[1..]);
    }
  }

  /** Making directories down to `p` changes only what lies on the way, and blocks nothing else. */
  ghost predicate OnlyMakes(t: Node, t': Node, p: Path) {
    forall q: Path | !(q <= p) :: Lookup(t', q) == Lookup(t, q) && StillOpenAt(t, t', q)
  }

  lemma WithDirOnlyMakes(t: Node, p: Path)
    requires Reachable(t, p)
    ensures OnlyMakes(t, WithDir(t, p), p)
  {
    forall q: Path | !(q <= p)
      ensures Lookup(WithDir(t, p), q) == Lookup(t, q) && StillOpenAt(t, WithDir(t, p), q)
    {
      LookupWithDir(t, p, q);
      if Lookup(t, p).None? {
        if p <= q {
          var r := q[|p|..];
          assert q == p + r;
          ReachableBelow(t, p, EMPTY_DIR, r);
          NothingBelowMissing(t, p, r);
        } else {
          PutKeepsOpen(t, p, EMPTY_DIR, q);
        }
      }
    }
  }

  lemma {:induction false} NothingBelowMissing(t: Node, p: Path, r: Path)
    requires Lookup(t, p).None? && r != []
    ensures !HasParent(t, p + r)
  {
    if p != [] {
      assert (p + r)[0] == p[0] && (p + r)[1..] == p[1..] + r;
      if t.Dir? && p[0] in t.entries {
        NothingBelowMissing(t.entries[p[0]], p[1..], r);
      }
    }
  }
}
