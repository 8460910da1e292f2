/** Whole sequences of backup writes on one disk. */
module Histories {
  import opened Wrappers
  import opened FileTree
  import opened Sorting
  import opened DiskSteps
  import opened Retention
  import opened RunNames
  import opened Backups

  datatype Request = Request(
    kind: BackupKind, base: Path, targets: seq<Path>, keepIds: set<RunId>, now: nat, slug: string, keep: nat
  )

  ghost predicate WellFormed(backupRoot: Path, requests: seq<Request>) {
    forall i | 0 <= i < |requests| ::
      requests[i].keep >= 1 && WellPlaced(requests[i].base, backupRoot, requests[i].targets)
  }

  /** `first` is on disk, everything else there is strictly newer, and its name is no overflow name to come. */
  ghost predicate StrictlyOldest(t: Node, backupRoot: Path, first: Run, requests: seq<Request>) {
    && first in RunsAt(t, backupRoot)
    && (forall r | r in RunsAt(t, backupRoot) && r != first :: first.created < r.created)
    && forall i | 0 <= i < |requests| ::
         first.created < requests[i].now && first.id != OverflowName(requests[i].now, requests[i].slug)
  }

  /** The name the next write would take at `t` is free. */
  ghost predicate NameFree(t: Node, backupRoot: Path, q: Request) {
    !Exists(t, backupRoot + [UniqueRunId(t, backupRoot, q.now, q.slug)])
  }

  ghost predicate AllFree(trees: seq<Node>, backupRoot: Path, requests: seq<Request>, n: nat) {
    n <= |requests| && n <= |trees| && forall i | 0 <= i < n :: NameFree(trees[i], backupRoot, requests[i])
  }

  lemma AllFreeNext(trees: seq<Node>, t: Node, backupRoot: Path, requests: seq<Request>, n: nat)
    requires |trees| == n + 1 && n < |requests|
    ensures AllFree(trees + [t], backupRoot, requests, n + 1) <==>
              AllFree(trees, backupRoot, requests, n) && NameFree(trees[n], backupRoot, requests[n])
  {
    var longer := trees + [t];
    assert forall i | 0 <= i <= n :: longer[i] == trees[i];
    if AllFree(longer, backupRoot, requests, n + 1) {
      assert NameFree(longer[n], backupRoot, requests[n]);
      forall i | 0 <= i < n ensures NameFree(trees[i], backupRoot, requests[i]) {
        assert NameFree(longer[i], backupRoot, requests[i]);
      }
    }
  }

  /** The directory of `first` is what it was in every tree since, and it is still strictly the oldest. */
  ghost predicate OldestKept(h0: seq<Node>, h1: seq<Node>, backupRoot: Path, first: Run, requests: seq<Request>) {
    var p := backupRoot + [first.id];
    && h0 != [] && h0 <= h1 && Kept(h0, h1, p) && Lookup(Last(h1), p) == Lookup(Last(h0), p)
    && StrictlyOldest(Last(h1), backupRoot, first, requests)
  }

  lemma OldestKeptTrans(
    h0: seq<Node>, h1: seq<Node>, h2: seq<Node>, backupRoot: Path, first: Run, requests: seq<Request>
  )
    requires OldestKept(h0, h1, backupRoot, first, requests)
    requires StrictlyOldest(Last(h1), backupRoot, first, requests) ==>
               OldestKept(h1, h2, backupRoot, first, requests)
    ensures OldestKept(h0, h2, backupRoot, first, requests)
  {
    KeptTrans(h0, h1, h2, backupRoot + [first.id]);
  }

  ghost predicate Stepped(before: set<Run>, step: Option<Write>, after: set<Run>) {
    if step.Some? then Writes(before, step.value, after) else after == before
  }

  /**
   How a request was met: by one step of the retention machine that writes its
   run or, on failure, by none. On a calm disk only a link or a blocked way
   can fail it, and afterwards the runs are within their bound.
   */
  ghost predicate Met(
    t: Node, t': Node, backupRoot: Path, q: Request, r: Result<RunId, Failure>, step: Option<Write>, calm: bool
  ) {
    var id := UniqueRunId(t, backupRoot, q.now, q.slug);
    && (r.Ok? <==> step.Some?)
    && (r.Ok? ==> r.value == id && step.value.(listing := [], removed := {}) ==
                                   Write(Run(id, q.now), [], q.keep, q.keepIds, {}))
    && |EntriesAt(t', backupRoot)| <= |EntriesAt(t, backupRoot)| + 1
    && (NameFree(t, backupRoot, q) ==> Stepped(RunsAt(t, backupRoot), step, RunsAt(t', backupRoot)))
    && (calm && CanWriteRun(t, backupRoot + [id], q.targets) ==>
          r.Ok? && |RunsAt(t', backupRoot)| <= q.keep + 1 + |q.keepIds|)
  }

  method WriteBackup(disk: Disk, backupRoot: Path, requests: seq<Request>, i: nat, ghost first: Run)
    returns (r: Result<RunId, Failure>, ghost step: Option<Write>)
    requires disk.Valid() && WellFormed(backupRoot, requests) && i < |requests|
    modifies disk
    ensures disk.Valid() && old(disk.history) <= disk.history
    ensures Met(old(disk.root), disk.root, backupRoot, requests[i], r, step, disk.calm)
    ensures StrictlyOldest(old(disk.root), backupRoot, first, requests) ==>
              OldestKept(old(disk.history), disk.history, backupRoot, first, requests)
  {
    var q := requests[i];
    ghost var h, before := disk.history, disk.root;
    ghost var listing, full;
    r, listing, full := WriteBackupRunKeeping(
      disk, backupRoot, q.kind, q.base, q.targets, q.keepIds, q.now, q.slug, q.keep);
    ghost var id := UniqueRunId(before, backupRoot, q.now, q.slug);
    if StrictlyOldest(before, backupRoot, first, requests) {
      OldestStays(h, disk.history, backupRoot, first, requests, i, id, listing);
    }
    EntriesGrowByOne(before, disk.root, backupRoot, id);
    step := None;
    if r.Ok? {
      ghost var then_, now := RunsAt(before, backupRoot), RunsAt(disk.root, backupRoot);
      step := Some(Write(Run(id, q.now), listing, q.keep, q.keepIds, then_ + {Run(id, q.now)} - now));
    }
  }

  /** What a list of requests did: the disk before each and after the last, the results, and the steps behind them. */
  datatype Record = Record(trees: seq<Node>, results: seq<Result<RunId, Failure>>, steps: seq<Option<Write>>)

  /** The writes that succeeded, in order. */
  ghost function Succeeded(steps: seq<Option<Write>>): seq<Write> {
    if steps == [] then []
    else
      var front, last := steps[..|steps| - 1], steps[|steps| - 1];
      if last.Some? then Succeeded(front) + [last.value] else Succeeded(front)
  }

  ghost predicate AllMet(rec: Record, backupRoot: Path, requests: seq<Request>, n: nat, calm: bool) {
    && |rec.trees| == n + 1 && |rec.results| == n && |rec.steps| == n && n <= |requests|
    && forall i | 0 <= i < n ::
         Met(rec.trees[i], rec.trees[i + 1], backupRoot, requests[i], rec.results[i], rec.steps[i], calm)
  }

  /** The successful writes lead, while names are free, from the runs of the first tree to those of the last. */
  ghost predicate Recorded(
    rec: Record, states: seq<set<Run>>, from: Node, to: Node, backupRoot: Path, requests: seq<Request>, n: nat,
    calm: bool
  ) {
    && AllMet(rec, backupRoot, requests, n, calm) && rec.trees[0] == from && rec.trees[n] == to
    && (AllFree(rec.trees, backupRoot, requests, n) ==>
          var writes := Succeeded(rec.steps);
          && Chain(states, writes) && states[0] == RunsAt(from, backupRoot)
          && states[|writes|] == RunsAt(to, backupRoot))
  }

  /** What holds between writes: the runs so far are recorded, and a strictly oldest one is untouched. */
  ghost predicate Upheld(
    h0: seq<Node>, h1: seq<Node>, rec: Record, states: seq<set<Run>>, backupRoot: Path, requests: seq<Request>,
    n: nat, calm: bool, first: Run
  ) {
    && h0 != [] && h0 <= h1
    && Recorded(rec, states, Last(h0), Last(h1), backupRoot, requests, n, calm)
    && (StrictlyOldest(Last(h0), backupRoot, first, requests) ==> OldestKept(h0, h1, backupRoot, first, requests))
  }

  /**
   Any number of writes, some of which may fail. While each finds its name
   free, the runs on disk go through a chain of the retention machine, with a
   step for each success. A strictly oldest run keeps its whole directory at
   every moment, whatever the listings miss and whichever steps fail.
   */
  method WriteBackups(disk: Disk, backupRoot: Path, requests: seq<Request>, ghost first: Run)
    returns (results: seq<Result<RunId, Failure>>, ghost rec: Record, ghost states: seq<set<Run>>)
    requires disk.Valid() && WellFormed(backupRoot, requests)
    modifies disk
    ensures disk.Valid() && rec.results == results
    ensures Recorded(rec, states, old(disk.root), disk.root, backupRoot, requests, |requests|, disk.calm)
    ensures |EntriesAt(old(disk.root), backupRoot)| + |requests| <= 1000 ==>
              AllFree(rec.trees, backupRoot, requests, |requests|)
    ensures StrictlyOldest(old(disk.root), backupRoot, first, requests) ==>
              Kept(old(disk.history), disk.history, backupRoot + [first.id])
  {
    results := [];
    rec, states := NothingYet(disk.history, backupRoot, requests, disk.calm, first);
    var i := 0;
    while i < |requests|
      invariant 0 <= i <= |requests|
      invariant disk.Valid() && rec.results == results
      invariant Upheld(old(disk.history), disk.history, rec, states, backupRoot, requests, i, disk.calm, first)
    {
      ghost var h := disk.history;
      var r;
      ghost var step;
      r, step := WriteBackup(disk, backupRoot, requests, i, first);
      rec, states := NextUpheld(
        old(disk.history), h, disk.history, rec, states, backupRoot, requests, i, disk.calm, first, r, step);
      results := results + [r];
      i := i + 1;
    }
    if |EntriesAt(old(disk.root), backupRoot)| + |requests| <= 1000 {
      AllMetIsSlow(rec, backupRoot, requests, |requests|, disk.calm);
      NamesStayFree(rec.trees, backupRoot, requests, |requests|);
    }
  }

  /** Each write adds at most one entry to the backup root. */
  ghost predicate Slow(trees: seq<Node>, backupRoot: Path) {
    forall i | 0 <= i < |trees| - 1 ::
      |EntriesAt(trees[i + 1], backupRoot)| <= |EntriesAt(trees[i], backupRoot)| + 1
  }

  lemma AllMetIsSlow(rec: Record, backupRoot: Path, requests: seq<Request>, n: nat, calm: bool)
    requires AllMet(rec, backupRoot, requests, n, calm)
    ensures Slow(rec.trees, backupRoot)
  {
    forall i | 0 <= i < n
      ensures |EntriesAt(rec.trees[i + 1], backupRoot)| <= |EntriesAt(rec.trees[i], backupRoot)| + 1
    {
      assert Met(rec.trees[i], rec.trees[i + 1], backupRoot, requests[i], rec.results[i], rec.steps[i], calm);
    }
  }

  /** While there is room for a run each, every write finds its name free. */
  lemma {:induction false} NamesStayFree(trees: seq<Node>, backupRoot: Path, requests: seq<Request>, n: nat)
    requires |trees| == |requests| + 1 && n <= |requests| && Slow(trees, backupRoot)
    requires |EntriesAt(trees[0], backupRoot)| + |requests| <= 1000
    ensures |EntriesAt(trees[n], backupRoot)| <= |EntriesAt(trees[0], backupRoot)| + n
    ensures AllFree(trees, backupRoot, requests, n)
  {
    if n > 0 {
      NamesStayFree(trees, backupRoot, requests, n - 1);
      NameIsFree(trees[n - 1], backupRoot, requests[n - 1].now, requests[n - 1].slug);
      var i := n - 1;
      assert |EntriesAt(trees[i + 1], backupRoot)| <= |EntriesAt(trees[i], backupRoot)| + 1;
    }
  }

  lemma NothingYet(h: seq<Node>, backupRoot: Path, requests: seq<Request>, calm: bool, first: Run)
    returns (rec: Record, states: seq<set<Run>>)
    requires h != []
    ensures Upheld(h, h, rec, states, backupRoot, requests, 0, calm, first) && rec.results == []
  {
    rec, states := Record([Last(h)], [], []), [RunsAt(Last(h), backupRoot)];
  }

  lemma NextUpheld(
    h0: seq<Node>, h1: seq<Node>, h2: seq<Node>, rec: Record, states: seq<set<Run>>, backupRoot: Path,
    requests: seq<Request>, n: nat, calm: bool, first: Run, r: Result<RunId, Failure>, step: Option<Write>
  ) returns (rec': Record, states': seq<set<Run>>)
    requires Upheld(h0, h1, rec, states, backupRoot, requests, n, calm, first) && n < |requests| && h1 <= h2
    requires Met(Last(h1), Last(h2), backupRoot, requests[n], r, step, calm)
    requires StrictlyOldest(Last(h1), backupRoot, first, requests) ==>
               OldestKept(h1, h2, backupRoot, first, requests)
    ensures Upheld(h0, h2, rec', states', backupRoot, requests, n + 1, calm, first)
    ensures rec'.results == rec.results + [r]
  {
    if StrictlyOldest(Last(h0), backupRoot, first, requests) {
      OldestKeptTrans(h0, h1, h2, backupRoot, first, requests);
    }
    rec', states' := NextRecorded(
      rec, states, Last(h0), Last(h1), Last(h2), backupRoot, requests, n, calm, r, step);
  }

  lemma NextRecorded(
    rec: Record, states: seq<set<Run>>, from: Node, to: Node, t: Node, backupRoot: Path, requests: seq<Request>,
    n: nat, calm: bool, r: Result<RunId, Failure>, step: Option<Write>
  ) returns (rec': Record, states': seq<set<Run>>)
    requires Recorded(rec, states, from, to, backupRoot, requests, n, calm) && n < |requests|
    requires Met(to, t, backupRoot, requests[n], r, step, calm)
    ensures Recorded(rec', states', from, t, backupRoot, requests, n + 1, calm)
    ensures rec'.results == rec.results + [r]
  {
    rec' := Record(rec.trees + [t], rec.results + [r], rec.steps + [step]);
    OneMoreMet(rec, t, r, step, backupRoot, requests, n, calm);
    AllFreeNext(rec.trees, t, backupRoot, requests, n);
    states' := states;
    if AllFree(rec'.trees, backupRoot, requests, n + 1) {
      assert rec'.steps[..n] == rec.steps;
      if step.Some? {
        OneMoreStep(states, Succeeded(rec.steps), step.value, RunsAt(t, backupRoot));
        states' := states + [RunsAt(t, backupRoot)];
      }
    }
  }

  lemma OneMoreMet(
    rec: Record, t: Node, r: Result<RunId, Failure>, step: Option<Write>, backupRoot: Path, requests: seq<Request>,
    n: nat, calm: bool
  )
    requires AllMet(rec, backupRoot, requests, n, calm) && n < |requests|
    requires Met(rec.trees[n], t, backupRoot, requests[n], r, step, calm)
    ensures AllMet(Record(rec.trees + [t], rec.results + [r], rec.steps + [step]), backupRoot, requests, n + 1, calm)
  {
    var trees, results, steps := rec.trees + [t], rec.results + [r], rec.steps + [step];
    forall i | 0 <= i <= n ensures Met(trees[i], trees[i + 1], backupRoot, requests[i], results[i], steps[i], calm) {
      if i < n {
        assert Met(rec.trees[i], rec.trees[i + 1], backupRoot, requests[i], rec.results[i], rec.steps[i], calm);
      }
    }
  }

  lemma OneMoreStep(states: seq<set<Run>>, writes: seq<Write>, w: Write, now: set<Run>)
    requires Chain(states, writes) && Writes(states[|writes|], w, now)
    ensures Chain(states + [now], writes + [w])
  {
    var longer, all := states + [now], writes + [w];
    forall k | 0 <= k < |all| ensures Writes(longer[k], all[k], longer[k + 1]) {
      assert k < |writes| ==> Writes(states[k], writes[k], states[k + 1]);
    }
  }

  /** One write touches neither the directory of the strictly oldest run nor its place as the oldest. */
  lemma OldestStays(
    h0: seq<Node>, h1: seq<Node>, backupRoot: Path, first: Run, requests: seq<Request>, i: nat,
    id: RunId, listing: seq<Run>
  )
    requires h0 != [] && i < |requests| && StrictlyOldest(Last(h0), backupRoot, first, requests)
    requires id == UniqueRunId(Last(h0), backupRoot, requests[i].now, requests[i].slug)
    requires var run, doomed := Run(id, requests[i].now), Doomed(listing, requests[i].keep, requests[i].keepIds);
             && Evolved(h0, h1, {backupRoot + [id]} + DirsOf(backupRoot, doomed))
             && Distinct(listing) && Members(listing) <= RunsAt(Last(h0), backupRoot) + {run}
             && RunsAt(Last(h1), backupRoot) <= RunsAt(Last(h0), backupRoot) + {run}
    ensures var p := backupRoot + [first.id]; Kept(h0, h1, p) && Lookup(Last(h1), p) == Lookup(Last(h0), p)
    ensures StrictlyOldest(Last(h1), backupRoot, first, requests)
  {
    var q := requests[i];
    var run, doomed := Run(id, q.now), Doomed(listing, q.keep, q.keepIds);
    InRunsAt(Last(h0), backupRoot, first);
    RunExists(Last(h0), backupRoot, first.id);
    OldestIsNotDoomed(RunsAt(Last(h0), backupRoot) + {run}, first, listing, q.keep, q.keepIds);
    forall d | d in doomed ensures d.id != first.id {
      assert d in Members(listing);
      InRunsAt(Last(h0), backupRoot, d);
    }
    var touched := {backupRoot + [id]} + DirsOf(backupRoot, doomed);
    forall p | p in touched ensures Disjoint(p, backupRoot + [first.id]) {
      var name :| p == backupRoot + [name] && name != first.id;
      SiblingsDisjoint(backupRoot, name, first.id);
    }
    KeptElsewhere(h0, h1, touched, backupRoot + [first.id]);
    RunAtDependsOnItsDir(Last(h0), Last(h1), backupRoot, first.id);
    InRunsAt(Last(h1), backupRoot, first);
  }

  lemma RunExists(t: Node, backupRoot: Path, id: RunId)
    requires RunAt(t, backupRoot, id).Some?
    ensures Exists(t, backupRoot + [id])
  {
    LookupAppend(t, backupRoot + [id], [MANIFEST]);
  }

  lemma OldestIsNotDoomed(runs: set<Run>, first: Run, listing: seq<Run>, keep: nat, keepIds: set<RunId>)
    requires forall r | r in runs && r != first :: first.created < r.created
    requires Distinct(listing) && Members(listing) <= runs
    ensures first !in Doomed(listing, keep, keepIds)
    ensures forall d | d in Doomed(listing, keep, keepIds) :: d in listing
  {
    DoomedIsSafe(listing, keep, keepIds);
    OldestCannotBeLost(runs, first, keep, keepIds);
    SafeRunSurvives(runs, listing, first, keep, keepIds);
  }
}
