/**
Which backup runs a write prunes, and what every sequence of writes keeps.
A run's listing order is the directory's, so it is arbitrary.
*/
module Retention {
  import opened Sorting

  type RunId = string

  datatype Run = Run(id: RunId, created: nat)

  const DEFAULT_BACKUP_RETENTION_RUNS := 20
  const MAX_CONFIGURED_BACKUP_RETENTION_RUNS := 500

  /** Zero or an unloadable configuration means the default, never "unlimited". */
  function ResolveRetention(loaded: bool, configured: nat): (keep: nat)
    ensures 1 <= keep <= MAX_CONFIGURED_BACKUP_RETENTION_RUNS
    ensures loaded && 1 <= configured <= 500 ==> keep == configured
    ensures loaded && configured > 500 ==> keep == 500
    ensures !loaded || configured == 0 ==> keep == 20
  {
    if !loaded || configured == 0 then DEFAULT_BACKUP_RETENTION_RUNS
    else if configured < MAX_CONFIGURED_BACKUP_RETENTION_RUNS then configured
    else MAX_CONFIGURED_BACKUP_RETENTION_RUNS
  }

  predicate CreatedLeq(a: Run, b: Run) {
    a.created <= b.created
  }

  lemma CreatedOrder()
    ensures TotalPreorder(CreatedLeq)
  {
  }

  function Unprotected(runs: seq<Run>, keepIds: set<RunId>): seq<Run> {
    if runs == [] then []
    else (if runs[0].id in keepIds then [] else [runs[0]]) + Unprotected(runs[1..], keepIds)
  }

  /** The runs a pruning pass removes, given what it listed. */
  function Doomed(runs: seq<Run>, keep: nat, keepIds: set<RunId>): seq<Run> {
    if |runs| <= 1 then []
    else
      SortLength(runs);
      var prunable := Unprotected(Sort(runs, CreatedLeq)[1..], keepIds);
      if |prunable| <= keep then [] else prunable[..|prunable| - keep]
  }

  // ------------------------------------------------------ list arithmetic

  lemma SortLength(runs: seq<Run>)
    ensures |Sort(runs, CreatedLeq)| == |runs|
  {
    CreatedOrder();
    SortSorts(runs, CreatedLeq);
  }

  lemma {:induction false} UnprotectedAppend(a: seq<Run>, b: seq<Run>, keepIds: set<RunId>)
    ensures Unprotected(a + b, keepIds) == Unprotected(a, keepIds) + Unprotected(b, keepIds)
  {
    if a == [] {
      assert a + b == b;
    } else {
      assert (a + b)[1..] == a[1..] + b;
      UnprotectedAppend(a[1..], b, keepIds);
    }
  }

  lemma {:induction false} UnprotectedSorted(runs: seq<Run>, keepIds: set<RunId>)
    requires SortedBy(runs, CreatedLeq)
    ensures SortedBy(Unprotected(runs, keepIds), CreatedLeq)
    ensures forall r | r in Unprotected(runs, keepIds) :: r in runs
  {
    if runs != [] {
      UnprotectedSorted(runs[1..], keepIds);
      assert runs == [runs[0]] + runs[1..];
      var rest := Unprotected(runs[1..], keepIds);
      forall j | 0 <= j < |rest| ensures CreatedLeq(runs[0], rest[j]) {
        assert rest[j] in runs[1..];
      }
    }
  }

  lemma {:induction false} UnprotectedDistinct(runs: seq<Run>, keepIds: set<RunId>)
    requires Distinct(runs)
    ensures Distinct(Unprotected(runs, keepIds))
    ensures forall r | r in Unprotected(runs, keepIds) :: r in runs
  {
    if runs != [] {
      UnprotectedDistinct(runs[1..], keepIds);
      assert runs == [runs[0]] + runs[1..];
      var rest := Unprotected(runs[1..], keepIds);
      forall j | 0 <= j < |rest| ensures runs[0] != rest[j] {
        assert rest[j] in runs[1..];
      }
    }
  }

  lemma {:induction false} UnprotectedMembers(runs: seq<Run>, keepIds: set<RunId>)
    ensures forall r :: r in Unprotected(runs, keepIds) <==> r in runs && r.id !in keepIds
    ensures Distinct(runs) ==> Distinct(Unprotected(runs, keepIds))
    ensures SortedBy(runs, CreatedLeq) ==> SortedBy(Unprotected(runs, keepIds), CreatedLeq)
  {
    if SortedBy(runs, CreatedLeq) {
      UnprotectedSorted(runs, keepIds);
    }
    if Distinct(runs) {
      UnprotectedDistinct(runs, keepIds);
    }
    UnprotectedAre(runs, keepIds);
  }

  lemma {:induction false} UnprotectedAre(runs: seq<Run>, keepIds: set<RunId>)
    ensures forall r :: r in Unprotected(runs, keepIds) <==> r in runs && r.id !in keepIds
  {
    if runs != [] {
      UnprotectedAre(runs[1..], keepIds);
      assert runs == [runs[0]] + runs[1..];
    }
  }

  ghost function Members(runs: seq<Run>): set<Run> {
    set r | r in runs
  }

  lemma {:induction false} MembersCount(runs: seq<Run>)
    ensures |Members(runs)| <= |runs|
    ensures Distinct(runs) ==> |Members(runs)| == |runs|
  {
    if runs != [] {
      MembersCount(runs[1..]);
      assert Members(runs) == {runs[0]} + Members(runs[1..]);
    }
  }

  /** The sorted listing: same runs, oldest first. */
  lemma SortedRuns(runs: seq<Run>)
    ensures var s := Sort(runs, CreatedLeq);
            && |s| == |runs| && SortedBy(s, CreatedLeq)
            && (forall r :: r in s <==> r in runs)
            && (Distinct(runs) ==> Distinct(s))
  {
    CreatedOrder();
    SortSorts(runs, CreatedLeq);
    if Distinct(runs) {
      SameMultisetDistinct(runs, Sort(runs, CreatedLeq));
    }
  }

  // ---------------------------------------------------- one pruning pass

  /** Pruning removes only listed runs, never a protected one, never every oldest one. */
  lemma DoomedIsSafe(runs: seq<Run>, keep: nat, keepIds: set<RunId>)
    requires Distinct(runs)
    ensures forall d | d in Doomed(runs, keep, keepIds) :: d in runs && d.id !in keepIds
    ensures runs != [] ==>
              exists pin :: pin in runs && pin !in Doomed(runs, keep, keepIds) &&
                            forall r | r in runs :: pin.created <= r.created
  {
    SortedRuns(runs);
    var s := Sort(runs, CreatedLeq);
    if runs != [] {
      UnprotectedMembers(s[1..], keepIds);
      assert s[0] in runs && s[0] !in s[1..];
      forall d | d in Doomed(runs, keep, keepIds) ensures d in s[1..] && d.id !in keepIds {
        assert d in Unprotected(s[1..], keepIds);
      }
      forall r | r in runs ensures s[0].created <= r.created {
        assert r in s;
      }
    }
  }

  /** Cutting a sorted listing separates older from newer. */
  lemma CutSeparates(xs: seq<Run>, cut: nat)
    requires Distinct(xs) && SortedBy(xs, CreatedLeq) && cut <= |xs|
    ensures Members(xs[..cut]) <= Members(xs)
    ensures |Members(xs[..cut])| == cut && |Members(xs) - Members(xs[..cut])| == |xs| - cut
    ensures forall d, r | d in Members(xs[..cut]) && r in Members(xs) - Members(xs[..cut]) :: d.created <= r.created
  {
    MembersCount(xs);
    MembersCount(xs[..cut]);
    var left := Members(xs[..cut]);
    forall d, r | d in left && r in Members(xs) - left ensures d.created <= r.created {
      var i :| 0 <= i < cut && xs[i] == d;
      var j :| 0 <= j < |xs| && xs[j] == r;
      assert j >= cut;
      assert CreatedLeq(xs[i], xs[j]);
    }
  }

  lemma PinAndPrunable(runs: seq<Run>, keepIds: set<RunId>) returns (pin: Run, prunable: seq<Run>)
    requires Distinct(runs) && runs != []
    ensures |Sort(runs, CreatedLeq)| == |runs|
    ensures pin == Sort(runs, CreatedLeq)[0] && prunable == Unprotected(Sort(runs, CreatedLeq)[1..], keepIds)
    ensures pin in runs && forall r | r in runs :: pin.created <= r.created
    ensures Distinct(prunable) && SortedBy(prunable, CreatedLeq)
    ensures Members(prunable) == set r | r in runs && r != pin && r.id !in keepIds
  {
    SortedRuns(runs);
    var s := Sort(runs, CreatedLeq);
    pin, prunable := s[0], Unprotected(s[1..], keepIds);
    assert s == [pin] + s[1..];
    assert pin !in s[1..];
    UnprotectedMembers(s[1..], keepIds);
    assert pin in s;
    forall r | r in runs ensures pin.created <= r.created {
      assert r in s;
    }
    forall r ensures r in prunable <==> r in runs && r != pin && r.id !in keepIds {
      assert r in runs <==> r in s;
    }
  }

  /**
   What a pass leaves of the runs that are neither the pinned oldest nor
   protected: exactly the newest `keep` of them (all, when there are fewer).
   */
  lemma SurvivorsAreTheNewest(runs: seq<Run>, keep: nat, keepIds: set<RunId>) returns (pin: Run)
    requires Distinct(runs) && runs != []
    ensures pin in runs && forall r | r in runs :: pin.created <= r.created
    ensures var others := set r | r in runs && r != pin && r.id !in keepIds;
            var doomed := Members(Doomed(runs, keep, keepIds));
            && doomed <= others
            && |others - doomed| == (if |others| <= keep then |others| else keep)
            && forall d, r | d in doomed && r in others - doomed :: d.created <= r.created
  {
    var prunable;
    pin, prunable := PinAndPrunable(runs, keepIds);
    MembersCount(prunable);
    var cut := if |prunable| <= keep then 0 else |prunable| - keep;
    CutSeparates(prunable, cut);
    assert prunable[..0] == [];
    if |runs| <= 1 {
      assert runs == [pin];
      assert Members(prunable) == {};
    }
    assert Doomed(runs, keep, keepIds) == prunable[..cut];
  }

  /** The bound a complete pass restores. */
  lemma CountAfterPass(runs: seq<Run>, keep: nat, keepIds: set<RunId>)
    requires Distinct(runs)
    requires forall a, b | a in runs && b in runs && a.id == b.id :: a == b
    ensures |Members(runs) - Members(Doomed(runs, keep, keepIds))| <= keep + 1 + |keepIds|
  {
    if runs == [] {
      assert Members(runs) == {};
      return;
    }
    var pin := SurvivorsAreTheNewest(runs, keep, keepIds);
    var doomed := Members(Doomed(runs, keep, keepIds));
    var others := set r | r in runs && r != pin && r.id !in keepIds;
    var guarded := set r | r in runs && r.id in keepIds;
    GuardedCount(guarded, keepIds);
    var left := Members(runs) - doomed;
    assert left <= {pin} + guarded + (others - doomed);
    SubsetCount(left, {pin} + guarded + (others - doomed));
    SubsetCount({pin} + guarded, {pin} + guarded);
  }

  lemma {:induction false} GuardedCount(guarded: set<Run>, ids: set<RunId>)
    requires forall r | r in guarded :: r.id in ids
    requires forall a, b | a in guarded && b in guarded && a.id == b.id :: a == b
    ensures |guarded| <= |ids|
    decreases |guarded|
  {
    if guarded != {} {
      var r :| r in guarded;
      GuardedCount(guarded - {r}, ids - {r.id});
    }
  }

  // ------------------------------------------- can a given run be pruned?

  /**
   Some run other than `x` can be pinned ahead of it, and at least `keep`
   unprotected runs besides those two are no older than `x`.
   */
  ghost predicate CanBeLost(runs: set<Run>, x: Run, keep: nat, keepIds: set<RunId>) {
    x.id !in keepIds &&
    exists pin | pin in runs ::
      && pin != x && pin.created <= x.created
      && (forall r | r in runs :: pin.created <= r.created)
      && |NoOlder(runs, x, pin, keepIds)| >= keep
  }

  ghost function NoOlder(runs: set<Run>, x: Run, pin: Run, keepIds: set<RunId>): set<Run> {
    set r | r in runs && r != x && r != pin && r.id !in keepIds && r.created >= x.created
  }

  /** A listed run is removed under some directory order exactly when it can be lost. */
  lemma LostInSomeOrderIff(runs: set<Run>, x: Run, keep: nat, keepIds: set<RunId>)
    requires x in runs && keep >= 1
    ensures CanBeLost(runs, x, keep, keepIds) <==>
            exists order: seq<Run> ::
              Distinct(order) && Members(order) == runs && x in Doomed(order, keep, keepIds)
  {
    if CanBeLost(runs, x, keep, keepIds) {
      var order := LosingOrder(runs, x, keep, keepIds);
    }
    forall order: seq<Run> | Distinct(order) && Members(order) == runs && x in Doomed(order, keep, keepIds)
      ensures CanBeLost(runs, x, keep, keepIds)
    {
      LostRunWasOutnumbered(order, x, keep, keepIds);
    }
  }

  lemma LosingOrder(runs: set<Run>, x: Run, keep: nat, keepIds: set<RunId>) returns (order: seq<Run>)
    requires x in runs && keep >= 1 && CanBeLost(runs, x, keep, keepIds)
    ensures Distinct(order) && Members(order) == runs && x in Doomed(order, keep, keepIds)
  {
    var pin :| pin in runs && pin != x && pin.created <= x.created &&
               (forall r | r in runs :: pin.created <= r.created) &&
               |NoOlder(runs, x, pin, keepIds)| >= keep;
    var rest := SomeListing(runs - {pin, x});
    order := [pin, x] + rest;
    assert forall r :: r in order <==> r in runs;
    assert Members(order) == runs;
    WorstOrder(pin, x, rest, keep, keepIds);
  }

  /** Missing some runs while listing never puts a run at risk. */
  lemma LostFromPartIsLostFromAll(part: set<Run>, all: set<Run>, x: Run, keep: nat, keepIds: set<RunId>)
    requires part <= all && CanBeLost(part, x, keep, keepIds)
    ensures CanBeLost(all, x, keep, keepIds)
  {
    var pin :| pin in part && pin != x && pin.created <= x.created &&
               (forall r | r in part :: pin.created <= r.created) &&
               |NoOlder(part, x, pin, keepIds)| >= keep;
    var order := SomeListing(all);
    var least, _ := PinAndPrunable(order, keepIds);
    var ahead := if least.created < x.created then least else pin;
    assert ahead in all && forall r | r in all :: ahead.created <= r.created;
    assert NoOlder(part, x, pin, keepIds) <= NoOlder(all, x, ahead, keepIds);
    SubsetCount(NoOlder(part, x, pin, keepIds), NoOlder(all, x, ahead, keepIds));
  }

  /** A run that cannot be lost survives every pass, whatever it listed. */
  lemma SafeRunSurvives(runs: set<Run>, listing: seq<Run>, x: Run, keep: nat, keepIds: set<RunId>)
    requires !CanBeLost(runs, x, keep, keepIds)
    requires Distinct(listing) && Members(listing) <= runs
    ensures x !in Doomed(listing, keep, keepIds)
  {
    if x in Doomed(listing, keep, keepIds) {
      LostRunWasOutnumbered(listing, x, keep, keepIds);
      LostFromPartIsLostFromAll(Members(listing), runs, x, keep, keepIds);
    }
  }

  lemma SomeListing(runs: set<Run>) returns (order: seq<Run>)
    ensures Distinct(order) && Members(order) == runs
    ensures forall r :: r in order <==> r in runs
    decreases |runs|
  {
    if runs == {} {
      order := [];
    } else {
      var r :| r in runs;
      var rest := SomeListing(runs - {r});
      order := [r] + rest;
    }
  }

  lemma BehindInOrder(xs: seq<Run>, i: nat)
    requires Distinct(xs) && SortedBy(xs, CreatedLeq) && i < |xs|
    ensures forall r | r in xs[i + 1..] :: r != xs[i] && xs[i].created <= r.created && r in Members(xs)
    ensures |Members(xs[i + 1..])| == |xs| - i - 1
  {
    MembersCount(xs[i + 1..]);
    forall r | r in xs[i + 1..] ensures r != xs[i] && xs[i].created <= r.created && r in Members(xs) {
      var j :| i < j < |xs| && xs[j] == r;
      assert CreatedLeq(xs[i], xs[j]);
    }
  }

  lemma LostRunWasOutnumbered(order: seq<Run>, x: Run, keep: nat, keepIds: set<RunId>)
    requires Distinct(order) && x in Doomed(order, keep, keepIds)
    ensures CanBeLost(Members(order), x, keep, keepIds)
  {
    var pin, prunable := PinAndPrunable(order, keepIds);
    var i :| 0 <= i < |prunable| - keep && prunable[i] == x;
    assert x in Members(prunable);
    BehindInOrder(prunable, i);
    assert Members(prunable[i + 1..]) <= NoOlder(Members(order), x, pin, keepIds);
    SubsetCount(Members(prunable[i + 1..]), NoOlder(Members(order), x, pin, keepIds));
    assert pin in Members(order);
  }

  /** Listed right behind the pinned run, `x` sorts in front of everything it ties with. */
  lemma SortWorstOrder(pin: Run, x: Run, rest: seq<Run>)
    requires pin.created <= x.created && forall r | r in rest :: pin.created <= r.created
    ensures Sort([pin, x] + rest, CreatedLeq) == [pin] + Insert(x, Sort(rest, CreatedLeq), CreatedLeq)
  {
    var order := [pin, x] + rest;
    assert order[1..] == [x] + rest && order[1..][1..] == rest;
    SortedRuns(rest);
    var tail := Sort(order[1..], CreatedLeq);
    SortedRuns(order[1..]);
    assert tail[0] in order[1..];
    assert order[0] == pin && CreatedLeq(pin, tail[0]);
  }

  /** How far from the end of the prunable runs `x` comes. */
  lemma UnprotectedBehind(older: seq<Run>, x: Run, newer: seq<Run>, keepIds: set<RunId>)
    requires x.id !in keepIds
    ensures var prunable := Unprotected(older + [x] + newer, keepIds);
            var at := |Unprotected(older, keepIds)|;
            at < |prunable| && prunable[at] == x && |prunable| - at - 1 == |Unprotected(newer, keepIds)|
  {
    UnprotectedAppend(older + [x], newer, keepIds);
    UnprotectedAppend(older, [x], keepIds);
  }

  lemma WorstOrder(pin: Run, x: Run, rest: seq<Run>, keep: nat, keepIds: set<RunId>)
    requires Distinct([pin, x] + rest) && x.id !in keepIds
    requires pin.created <= x.created && forall r | r in rest :: pin.created <= r.created
    requires |NoOlder(Members([pin, x] + rest), x, pin, keepIds)| >= keep >= 1
    ensures x in Doomed([pin, x] + rest, keep, keepIds)
  {
    var order := [pin, x] + rest;
    SortWorstOrder(pin, x, rest);
    SortedRuns(rest);
    var older, newer := InsertSplits(x, Sort(rest, CreatedLeq));
    UnprotectedBehind(older, x, newer, keepIds);
    var behind := Unprotected(newer, keepIds);
    UnprotectedMembers(newer, keepIds);
    MembersCount(behind);
    NoOlderAreBehind(pin, x, rest, older, newer, keepIds);
    SubsetCount(NoOlder(Members(order), x, pin, keepIds), Members(behind));
    SortLength(order);
    assert Sort(order, CreatedLeq)[1..] == older + [x] + newer;
  }

  lemma NoOlderAreBehind(pin: Run, x: Run, rest: seq<Run>, older: seq<Run>, newer: seq<Run>, keepIds: set<RunId>)
    requires forall r | r in rest :: r in older || r in newer
    requires forall r | r in older :: r.created < x.created
    ensures NoOlder(Members([pin, x] + rest), x, pin, keepIds) <= Members(Unprotected(newer, keepIds))
  {
    UnprotectedMembers(newer, keepIds);
  }

  lemma {:induction false} InsertSplits(x: Run, sorted: seq<Run>) returns (older: seq<Run>, newer: seq<Run>)
    requires SortedBy(sorted, CreatedLeq)
    ensures sorted == older + newer
    ensures Insert(x, sorted, CreatedLeq) == older + [x] + newer
    ensures forall r | r in older :: r.created < x.created
    ensures forall r | r in newer :: x.created <= r.created
  {
    if sorted == [] || CreatedLeq(x, sorted[0]) {
      older, newer := [], sorted;
      forall i | 0 <= i < |newer| ensures x.created <= newer[i].created {
        assert i > 0 ==> CreatedLeq(sorted[0], sorted[i]);
      }
      assert [x] + sorted == [] + [x] + sorted;
    } else {
      var rest;
      rest, newer := InsertSplits(x, sorted[1..]);
      older := [sorted[0]] + rest;
      assert Insert(x, sorted, CreatedLeq) == [sorted[0]] + (rest + [x] + newer);
      assert sorted == [sorted[0]] + (rest + newer);
    }
  }

  /** A clock that has moved on since every listed run makes the new run safe. */
  lemma StrictlyNewestSurvives(runs: set<Run>, x: Run, keep: nat, keepIds: set<RunId>)
    requires keep >= 1 && forall r | r in runs && r != x :: r.created < x.created
    ensures !CanBeLost(runs, x, keep, keepIds)
  {
  }

  /** With the clock set back, the run just written is the one pruned. */
  lemma ClockSetBackLosesTheNewRun()
    ensures Doomed([Run("a", 5), Run("b", 10), Run("new", 7)], 1, {}) == [Run("new", 7)]
  {
    var runs := [Run("a", 5), Run("b", 10), Run("new", 7)];
    assert runs[1..] == [Run("b", 10), Run("new", 7)] && runs[1..][1..] == [Run("new", 7)];
    assert Sort(runs[1..][1..], CreatedLeq) == [Run("new", 7)];
    assert Insert(Run("b", 10), [Run("new", 7)], CreatedLeq) == [Run("new", 7)] + Insert(Run("b", 10), [], CreatedLeq);
    assert Sort(runs[1..], CreatedLeq) == [Run("new", 7), Run("b", 10)];
    assert Sort(runs, CreatedLeq) == [Run("a", 5), Run("new", 7), Run("b", 10)];
    assert Unprotected([Run("b", 10)], {}) == [Run("b", 10)];
    assert Unprotected([Run("new", 7), Run("b", 10)], {}) == [Run("new", 7), Run("b", 10)];
  }

  // ------------------------------------------------- sequences of writes

  /**
   One backup write: the run it adds, what the pass after it happened to list
   (unreadable runs are missed), and which doomed runs it managed to remove.
   */
  datatype Write = Write(run: Run, listing: seq<Run>, keep: nat, keepIds: set<RunId>, removed: set<Run>)

  ghost predicate Writes(before: set<Run>, w: Write, after: set<Run>) {
    && w.run !in before
    && Distinct(w.listing) && Members(w.listing) <= before + {w.run}
    && w.removed <= Members(Doomed(w.listing, w.keep, w.keepIds))
    && after == before + {w.run} - w.removed
  }

  /** `states[k]` is what is on disk after the first `k` writes. */
  ghost predicate Chain(states: seq<set<Run>>, writes: seq<Write>) {
    && |states| == |writes| + 1
    && forall k | 0 <= k < |writes| :: Writes(states[k], writes[k], states[k + 1])
  }

  /** A chain whose first write finds nothing. */
  ghost predicate Behaviour(states: seq<set<Run>>, writes: seq<Write>) {
    Chain(states, writes) && states[0] == {}
  }

  /** No pass removes a run without leaving one at least as old. */
  lemma PassKeepsAnOldest(before: set<Run>, w: Write, after: set<Run>, r: Run) returns (kept: Run)
    requires Writes(before, w, after) && r in before + {w.run}
    ensures kept in after && kept.created <= r.created
  {
    kept := r;
    if r in w.removed {
      DoomedIsSafe(w.listing, w.keep, w.keepIds);
      assert r in w.listing;
      kept :| kept in w.listing && kept !in Doomed(w.listing, w.keep, w.keepIds) && kept.created <= r.created;
      assert kept in Members(w.listing);
    }
  }

  ghost predicate NoneOlder(run: Run, writes: seq<Write>, k: nat)
    requires k <= |writes|
  {
    forall i | 0 <= i < k :: run.created <= writes[i].run.created
  }

  /** After any writes a run with the smallest time ever written is still there. */
  lemma {:induction false} OldestTimeIsAlwaysPresent(states: seq<set<Run>>, writes: seq<Write>, k: nat)
    requires Behaviour(states, writes) && 1 <= k <= |writes|
    ensures exists oldest :: oldest in states[k] && NoneOlder(oldest, writes, k)
  {
    var w := writes[k - 1];
    assert Writes(states[k - 1], w, states[k]);
    var least := w.run;
    if k > 1 {
      OldestTimeIsAlwaysPresent(states, writes, k - 1);
      var m :| m in states[k - 1] && NoneOlder(m, writes, k - 1);
      if m.created <= w.run.created { least := m; }
    }
    assert NoneOlder(least, writes, k);
    var oldest := PassKeepsAnOldest(states[k - 1], w, states[k], least);
    assert NoneOlder(oldest, writes, k);
  }

  /** Some outcome of a write of `run` over `before` does without `x`. */
  ghost predicate CanEndWithout(before: set<Run>, run: Run, keep: nat, keepIds: set<RunId>, x: Run) {
    exists w: Write, after: set<Run> ::
      w.run == run && w.keep == keep && w.keepIds == keepIds && Writes(before, w, after) && x !in after
  }

  /** A run survives a write, whatever it lists and removes, exactly when it cannot be lost. */
  lemma SurvivesEveryWriteIff(before: set<Run>, run: Run, keep: nat, keepIds: set<RunId>, x: Run)
    requires run !in before && x in before + {run} && keep >= 1
    ensures CanEndWithout(before, run, keep, keepIds, x) <==> CanBeLost(before + {run}, x, keep, keepIds)
  {
    if CanBeLost(before + {run}, x, keep, keepIds) {
      LosingWrite(before, run, keep, keepIds, x);
    }
    if CanEndWithout(before, run, keep, keepIds, x) {
      var w: Write, after: set<Run> :|
        w.run == run && w.keep == keep && w.keepIds == keepIds && Writes(before, w, after) && x !in after;
      OnlyTheLosableGo(before, w, after, x);
    }
  }

  lemma LosingWrite(before: set<Run>, run: Run, keep: nat, keepIds: set<RunId>, x: Run)
    requires run !in before && x in before + {run} && keep >= 1
    requires CanBeLost(before + {run}, x, keep, keepIds)
    ensures CanEndWithout(before, run, keep, keepIds, x)
  {
    var all := before + {run};
    var order := LosingOrder(all, x, keep, keepIds);
    var w := Write(run, order, keep, keepIds, {x});
    assert Writes(before, w, all - {x});
  }

  lemma OnlyTheLosableGo(before: set<Run>, w: Write, after: set<Run>, x: Run)
    requires Writes(before, w, after) && x in before + {w.run} && x !in after
    ensures CanBeLost(before + {w.run}, x, w.keep, w.keepIds)
  {
    if !CanBeLost(before + {w.run}, x, w.keep, w.keepIds) {
      SafeRunSurvives(before + {w.run}, w.listing, x, w.keep, w.keepIds);
    }
  }

  ghost predicate SafeThrough(states: seq<set<Run>>, writes: seq<Write>, k: nat, x: Run)
    requires Chain(states, writes) && k <= |writes|
  {
    forall j | 0 <= j < k :: !CanBeLost(states[j] + {writes[j].run}, x, writes[j].keep, writes[j].keepIds)
  }

  /** The very first backup is there after `k` writes if none of them could lose it. */
  lemma {:induction false} FirstRunIsPinned(states: seq<set<Run>>, writes: seq<Write>, k: nat)
    requires Behaviour(states, writes) && 1 <= k <= |writes|
    requires SafeThrough(states, writes, k, writes[0].run)
    ensures writes[0].run in states[k]
  {
    var w, first := writes[k - 1], writes[0].run;
    assert Writes(states[k - 1], w, states[k]);
    if k > 1 {
      FirstRunIsPinned(states, writes, k - 1);
    }
    SafeRunSurvives(states[k - 1] + {w.run}, w.listing, first, w.keep, w.keepIds);
  }

  lemma OldestCannotBeLost(runs: set<Run>, x: Run, keep: nat, keepIds: set<RunId>)
    requires forall r | r in runs && r != x :: x.created < r.created
    ensures !CanBeLost(runs, x, keep, keepIds)
  {
  }

  /** It is safe throughout while every later one, up to then, is strictly newer. */
  lemma {:induction false} StrictlyOldestIsSafe(states: seq<set<Run>>, writes: seq<Write>, k: nat)
    requires Behaviour(states, writes) && 1 <= k <= |writes|
    requires forall i | 1 <= i < k :: writes[0].run.created < writes[i].run.created
    ensures SafeThrough(states, writes, k, writes[0].run) && writes[0].run in states[k]
    ensures forall r | r in states[k] :: r == writes[0].run || writes[0].run.created < r.created
  {
    if k > 1 {
      StrictlyOldestIsSafe(states, writes, k - 1);
    }
    var w, first := writes[k - 1], writes[0].run;
    assert Writes(states[k - 1], w, states[k]);
    OldestCannotBeLost(states[k - 1] + {w.run}, first, w.keep, w.keepIds);
    FirstRunIsPinned(states, writes, k);
  }

  /** Two first runs in one second: the directory order can cost the original its pin. */
  lemma TieCanCostTheFirstRun()
    ensures Doomed([Run("second", 5), Run("first", 5), Run("third", 6)], 1, {}) == [Run("first", 5)]
  {
    var runs := [Run("second", 5), Run("first", 5), Run("third", 6)];
    assert runs[1..] == [Run("first", 5), Run("third", 6)] && runs[1..][1..] == [Run("third", 6)];
    assert Sort(runs[1..][1..], CreatedLeq) == [Run("third", 6)];
    assert Sort(runs[1..], CreatedLeq) == runs[1..];
    assert Sort(runs, CreatedLeq) == runs;
    assert Unprotected([Run("third", 6)], {}) == [Run("third", 6)];
    assert Unprotected(runs[1..], {}) == runs[1..];
  }

  /** Each write keeps protected runs, and a complete pass restores the bound. */
  lemma WriteKeeps(before: set<Run>, w: Write, after: set<Run>)
    requires Writes(before, w, after)
    requires forall a, b | a in before + {w.run} && b in before + {w.run} && a.id == b.id :: a == b
    ensures forall r | r in before && r.id in w.keepIds :: r in after
    ensures w.keep >= 1 && (forall r | r in before :: r.created < w.run.created) ==> w.run in after
    ensures Members(w.listing) == before + {w.run} && w.removed == Members(Doomed(w.listing, w.keep, w.keepIds)) ==>
              |after| <= w.keep + 1 + |w.keepIds|
  {
    DoomedIsSafe(w.listing, w.keep, w.keepIds);
    forall a, b | a in w.listing && b in w.listing && a.id == b.id ensures a == b {
      assert a in Members(w.listing) && b in Members(w.listing);
    }
    CountAfterPass(w.listing, w.keep, w.keepIds);
    if w.keep >= 1 && forall r | r in before :: r.created < w.run.created {
      StrictlyNewestSurvives(before + {w.run}, w.run, w.keep, w.keepIds);
      SafeRunSurvives(before + {w.run}, w.listing, w.run, w.keep, w.keepIds);
    }
  }
}
