/** The directory name of a new run: the second, a label, and a suffix when that is taken. */
module RunNames {
  import opened FileTree
  import opened Sorting
  import opened DiskSteps
  import opened Retention
  import opened Decimals

  function RunName(now: nat, slug: string, suffix: nat): RunId {
    Decimal(now) + "-" + slug +
    if suffix == 0 then "" else "-" + Padded(suffix, 3)
  }

  function OverflowName(now: nat, slug: string): RunId {
    Decimal(now) + "-" + slug + "-overflow"
  }

  /** The first of a thousand names not in use, or the overflow name. */
  function FirstFree(t: Node, backupRoot: Path, now: nat, slug: string, suffix: nat): (id: RunId)
    requires suffix <= 1000
    ensures !Exists(t, backupRoot + [id]) || id == OverflowName(now, slug)
    ensures Exists(t, backupRoot + [id]) ==>
              forall k | suffix <= k < 1000 :: Exists(t, backupRoot + [RunName(now, slug, k)])
    decreases 1000 - suffix
  {
    if suffix == 1000 then OverflowName(now, slug)
    else if !Exists(t, backupRoot + [RunName(now, slug, suffix)]) then RunName(now, slug, suffix)
    else FirstFree(t, backupRoot, now, slug, suffix + 1)
  }

  function UniqueRunId(t: Node, backupRoot: Path, now: nat, slug: string): RunId {
    FirstFree(t, backupRoot, now, slug, 0)
  }

  // ------------------------------------------------- the names all differ

  lemma DigitsThenDash(x: string, y: string, u: string, v: string)
    requires AllDigits(x) && AllDigits(y) && x + "-" + u == y + "-" + v
    ensures x == y && u == v
  {
    var a, b := x + "-" + u, y + "-" + v;
    assert forall i | 0 <= i < |x| :: IsDigit(a[i]);
    assert forall i | 0 <= i < |y| :: IsDigit(b[i]);
    assert a[|x|] == '-' && b[|y|] == '-';
    assert |x| == |y|;
    assert a[..|x|] == x && b[..|y|] == y;
    assert a[|x| + 1..] == u && b[|y| + 1..] == v;
  }

  function Suffixed(slug: string, suffix: nat): string {
    slug + if suffix == 0 then "" else "-" + Padded(suffix, 3)
  }

  lemma SuffixDetermines(slug: string, i: nat, j: nat)
    requires Suffixed(slug, i) == Suffixed(slug, j)
    ensures i == j
  {
    var a, b := Suffixed(slug, i)[|slug|..], Suffixed(slug, j)[|slug|..];
    assert a == if i == 0 then "" else "-" + Padded(i, 3);
    assert b == if j == 0 then "" else "-" + Padded(j, 3);
    if i != 0 && j != 0 {
      assert a[1..] == Padded(i, 3) && b[1..] == Padded(j, 3);
    }
  }

  lemma SuffixIsNoWord(slug: string, i: nat)
    ensures Suffixed(slug, i) != slug + "-overflow"
  {
    var a, b := Suffixed(slug, i), slug + "-overflow";
    assert |b| > |slug| + 1 && b[|slug| + 1] == 'o';
    assert i != 0 ==> a[|slug| + 1] == Padded(i, 3)[0] && IsDigit(Padded(i, 3)[0]);
  }

  /** A run's name tells its second and, for one label, its suffix; and it is never an overflow name. */
  lemma RunNameDetermines(a: nat, b: nat, slug: string, i: nat, j: nat)
    ensures RunName(a, slug, i) == RunName(b, slug, j) <==> a == b && i == j
    ensures RunName(a, slug, i) != OverflowName(b, slug)
    ensures OverflowName(a, slug) == OverflowName(b, slug) <==> a == b
  {
    var x, y := Decimal(a), Decimal(b);
    assert RunName(a, slug, i) == x + "-" + Suffixed(slug, i);
    assert RunName(b, slug, j) == y + "-" + Suffixed(slug, j);
    assert OverflowName(b, slug) == y + "-" + (slug + "-overflow");
    assert OverflowName(a, slug) == x + "-" + (slug + "-overflow");
    if RunName(a, slug, i) == RunName(b, slug, j) {
      DigitsThenDash(x, y, Suffixed(slug, i), Suffixed(slug, j));
      SuffixDetermines(slug, i, j);
    }
    if RunName(a, slug, i) == OverflowName(b, slug) {
      DigitsThenDash(x, y, Suffixed(slug, i), slug + "-overflow");
      SuffixIsNoWord(slug, i);
      assert false;
    }
    if OverflowName(a, slug) == OverflowName(b, slug) {
      DigitsThenDash(x, y, slug + "-overflow", slug + "-overflow");
    }
  }

  // ------------------------------------------------------- a free name

  lemma {:induction false} FirstFreeIs(t: Node, backupRoot: Path, now: nat, slug: string, from: nat, k: nat)
    requires from <= k < 1000 && !Exists(t, backupRoot + [RunName(now, slug, k)])
    requires forall i | from <= i < k :: Exists(t, backupRoot + [RunName(now, slug, i)])
    ensures FirstFree(t, backupRoot, now, slug, from) == RunName(now, slug, k)
    decreases k - from
  {
    if from < k {
      FirstFreeIs(t, backupRoot, now, slug, from + 1, k);
    }
  }

  /** Writes in one second take the names in order: the least suffix whose name is free. */
  lemma LeastFreeSuffix(t: Node, backupRoot: Path, now: nat, slug: string, k: nat)
    requires k < 1000
    ensures UniqueRunId(t, backupRoot, now, slug) == RunName(now, slug, k) <==>
            && !Exists(t, backupRoot + [RunName(now, slug, k)])
            && forall i | 0 <= i < k :: Exists(t, backupRoot + [RunName(now, slug, i)])
  {
    if j: nat :| j < 1000 && !Exists(t, backupRoot + [RunName(now, slug, j)]) {
      var least := LeastFree(t, backupRoot, now, slug, j);
      FirstFreeIs(t, backupRoot, now, slug, 0, least);
      RunNameDetermines(now, now, slug, least, k);
    } else {
      NoneFree(t, backupRoot, now, slug, 0);
      RunNameDetermines(now, now, slug, k, k);
    }
  }

  lemma LeastFree(t: Node, backupRoot: Path, now: nat, slug: string, j: nat) returns (least: nat)
    requires !Exists(t, backupRoot + [RunName(now, slug, j)])
    ensures least <= j && !Exists(t, backupRoot + [RunName(now, slug, least)])
    ensures forall i | 0 <= i < least :: Exists(t, backupRoot + [RunName(now, slug, i)])
  {
    if i: nat :| i < j && !Exists(t, backupRoot + [RunName(now, slug, i)]) {
      least := LeastFree(t, backupRoot, now, slug, i);
    } else {
      least := j;
    }
  }

  lemma {:induction false} NoneFree(t: Node, backupRoot: Path, now: nat, slug: string, from: nat)
    requires from <= 1000
    requires forall i | from <= i < 1000 :: Exists(t, backupRoot + [RunName(now, slug, i)])
    ensures FirstFree(t, backupRoot, now, slug, from) == OverflowName(now, slug)
    decreases 1000 - from
  {
    if from < 1000 {
      NoneFree(t, backupRoot, now, slug, from + 1);
    }
  }

  /** A new run clashes exactly when all thousand names of its second and the overflow name are taken. */
  lemma ClashIff(t: Node, backupRoot: Path, now: nat, slug: string)
    ensures Exists(t, backupRoot + [UniqueRunId(t, backupRoot, now, slug)]) <==>
            && (forall k | 0 <= k < 1000 :: Exists(t, backupRoot + [RunName(now, slug, k)]))
            && Exists(t, backupRoot + [OverflowName(now, slug)])
  {
    if forall k | 0 <= k < 1000 :: Exists(t, backupRoot + [RunName(now, slug, k)]) {
      NoneFree(t, backupRoot, now, slug, 0);
    }
  }

  ghost function FirstNames(now: nat, slug: string, n: nat): set<RunId> {
    set k | 0 <= k < n :: RunName(now, slug, k)
  }

  lemma {:induction false} NamesCount(now: nat, slug: string, n: nat)
    ensures |FirstNames(now, slug, n)| == n
  {
    if n == 0 {
      assert FirstNames(now, slug, n) == {};
    } else {
      NamesCount(now, slug, n - 1);
      OneMoreName(now, slug, n - 1);
    }
  }

  lemma OneMoreName(now: nat, slug: string, n: nat)
    ensures FirstNames(now, slug, n + 1) == FirstNames(now, slug, n) + {RunName(now, slug, n)}
    ensures RunName(now, slug, n) !in FirstNames(now, slug, n)
  {
    if RunName(now, slug, n) in FirstNames(now, slug, n) {
      var k :| 0 <= k < n && RunName(now, slug, n) == RunName(now, slug, k);
      RunNameDetermines(now, now, slug, k, n);
    }
    var last := {RunName(now, slug, n)};
    forall name ensures name in FirstNames(now, slug, n + 1) <==> name in FirstNames(now, slug, n) + last {
      if name in FirstNames(now, slug, n + 1) {
        var k :| 0 <= k < n + 1 && name == RunName(now, slug, k);
        assert k < n ==> name in FirstNames(now, slug, n);
      }
    }
  }

  lemma EntryOfBackupRoot(t: Node, backupRoot: Path, name: RunId)
    ensures Lookup(t, backupRoot + [name]).Some? <==> name in EntriesAt(t, backupRoot)
  {
    LookupAppend(t, backupRoot, [name]);
  }

  /** A backup root with all thousand names of a second, and the overflow name: the next run goes where one is. */
  lemma OverflowIsReused(now: nat, slug: string)
    ensures var names := FirstNames(now, slug, 1000) + {OverflowName(now, slug)};
            var t := Dir(map name | name in names :: EMPTY_DIR);
            UniqueRunId(t, [], now, slug) == OverflowName(now, slug) && Exists(t, [] + [OverflowName(now, slug)])
  {
    var names := FirstNames(now, slug, 1000) + {OverflowName(now, slug)};
    var t := Dir(map name | name in names :: EMPTY_DIR);
    forall name | name in names ensures Exists(t, [] + [name]) {
      assert ([] + [name])[0] == name && ([] + [name])[1..] == [];
    }
    forall k | 0 <= k < 1000 ensures Exists(t, [] + [RunName(now, slug, k)]) {
      assert RunName(now, slug, k) in names;
    }
    NoneFree(t, [], now, slug, 0);
  }

  /** By counting: beside fewer than a thousand entries other than `id` some name is free. */
  lemma SomeNameFree(t: Node, backupRoot: Path, now: nat, slug: string, id: RunId) returns (k: nat)
    requires |EntriesAt(t, backupRoot).Keys - {id}| < 999
    ensures k < 1000 && RunName(now, slug, k) != id && Lookup(t, backupRoot + [RunName(now, slug, k)]).None?
  {
    var names, taken := FirstNames(now, slug, 1000), EntriesAt(t, backupRoot).Keys - {id};
    NamesCount(now, slug, 1000);
    if names <= taken + {id} {
      SubsetCount(names, taken + {id});
      assert false;
    }
    var name :| name in names && name !in taken + {id};
    k :| 0 <= k < 1000 && name == RunName(now, slug, k);
    EntryOfBackupRoot(t, backupRoot, name);
  }

  /** A backup root with fewer than a thousand entries always has a free name for a new run. */
  lemma NameIsFree(t: Node, backupRoot: Path, now: nat, slug: string)
    requires |EntriesAt(t, backupRoot)| < 1000
    ensures !Exists(t, backupRoot + [UniqueRunId(t, backupRoot, now, slug)])
  {
    var names, taken := FirstNames(now, slug, 1000), EntriesAt(t, backupRoot).Keys;
    NamesCount(now, slug, 1000);
    assert |taken| == |EntriesAt(t, backupRoot)|;
    if names <= taken {
      SubsetCount(names, taken);
      assert false;
    }
    var name :| name in names && name !in taken;
    var k :| 0 <= k < 1000 && name == RunName(now, slug, k);
    EntryOfBackupRoot(t, backupRoot, name);
    ClashIff(t, backupRoot, now, slug);
  }
}
