/** The memory bootstrap: keys that never collide and bodies that never overrun. */
module Memory {
  import opened Wrappers
  import opened Sorting
  import opened Decimals
  import opened Text

  // ---------------------------------------------------------------- keys

  const VALIDATION_KEY := "project-validation"
  const TOOLCHAIN_KEY := "project-toolchain"

  /** The base key, then `base-2`, `base-3` and so on. */
  function Candidate(base: string, n: nat): string {
    if n < 2 then base else base + "-" + Decimal(n)
  }

  lemma CandidatesDiffer(base: string, m: nat, n: nat)
    requires 1 <= m < n
    ensures Candidate(base, m) != Candidate(base, n)
  {
    if m >= 2 {
      DecimalInjective(m, n);
      SuffixesDiffer(base, Decimal(m), Decimal(n));
    }
  }

  lemma SuffixesDiffer(base: string, x: string, y: string)
    requires x != y
    ensures base + "-" + x != base + "-" + y
  {
    var head := base + "-";
    assert (head + x)[|head|..] == x && (head + y)[|head|..] == y;
  }

  /** The keys produced so far in one run, shared by every page. */
  class SeenKeys {
    var seen: set<string>

    constructor ()
      ensures seen == {}
    {
      seen := {};
    }

    method Insert(key: string) returns (isNew: bool)
      modifies this
      ensures seen == old(seen) + {key} && (isNew <==> key !in old(seen))
    {
      isNew := key !in seen;
      seen := seen + {key};
    }

    /**
     The first candidate not yet seen. The loop ends because the candidates
     are pairwise different and only finitely many keys have been seen.
     */
    method MemorySectionKey(base: string) returns (key: string, ghost tries: nat)
      modifies this
      ensures key !in old(seen) && seen == old(seen) + {key}
      ensures 1 <= tries <= |old(seen)| + 1 && key == Candidate(base, tries)
      ensures forall n | 1 <= n < tries :: Candidate(base, n) in old(seen)
    {
      ghost var before := seen;
      ghost var tried: set<string> := {};
      key := base;
      var suffix := 2;
      var isNew := Insert(key);
      while !isNew
        invariant suffix >= 2 && key == Candidate(base, suffix - 1)
        invariant isNew <==> key !in before
        invariant seen == before + {key}
        invariant tried == set n | 1 <= n < suffix - 1 :: Candidate(base, n)
        invariant tried <= before && |tried| == suffix - 2
        decreases |before| - |tried|, !isNew
      {
        AnotherTried(base, tried, suffix - 1);
        SubsetCount(tried + {key}, before);
        tried := tried + {key};
        assert seen == before;
        key := base + "-" + Decimal(suffix);
        suffix := suffix + 1;
        isNew := Insert(key);
      }
      SubsetCount(tried, before);
      tries := suffix - 1;
      forall n | 1 <= n < tries ensures Candidate(base, n) in before {
        assert Candidate(base, n) in tried;
      }
    }
  }

  lemma AnotherTried(base: string, tried: set<string>, last: nat)
    requires last >= 1 && tried == set n | 1 <= n < last :: Candidate(base, n)
    ensures Candidate(base, last) !in tried
    ensures tried + {Candidate(base, last)} == set n | 1 <= n < last + 1 :: Candidate(base, n)
  {
    forall n | 1 <= n < last ensures Candidate(base, n) != Candidate(base, last) {
      CandidatesDiffer(base, n, last);
    }
  }

  /** The first of `base`, `base-2`, `base-3` and so on that is not an earlier key. */
  ghost predicate FirstNewKey(base: string, key: string, earlier: seq<string>) {
    && key !in earlier
    && (base !in earlier ==> key == base)
    && (base in earlier ==> exists n ::
          n >= 2 && key == base + "-" + Decimal(n) &&
          forall m | 2 <= m < n :: base + "-" + Decimal(m) in earlier)
  }

  lemma FirstCandidateIsNew(base: string, key: string, earlier: seq<string>, tries: nat)
    requires tries >= 1 && key == Candidate(base, tries) && key !in earlier
    requires forall n | 1 <= n < tries :: Candidate(base, n) in earlier
    ensures FirstNewKey(base, key, earlier)
  {
    assert tries > 1 ==> Candidate(base, 1) in earlier;
    if base in earlier {
      forall m | 2 <= m < tries ensures base + "-" + Decimal(m) in earlier {
        assert Candidate(base, m) in earlier;
      }
    }
  }

  /** All keys of one run, over every section of every page, are pairwise distinct. */
  method MemoryProposalKeys(hasValidation: bool, hasToolchain: bool, bases: seq<string>) returns (keys: seq<string>)
    ensures Distinct(keys)
    ensures |keys| == (if hasValidation then 1 else 0) + (if hasToolchain then 1 else 0) + |bases|
    ensures hasValidation ==> keys[0] == VALIDATION_KEY
    ensures hasToolchain ==> keys[|keys| - |bases| - 1] == TOOLCHAIN_KEY
    ensures var n := |keys| - |bases|;
            forall i | 0 <= i < |bases| :: FirstNewKey(bases[i], keys[n + i], keys[..n + i])
  {
    assert |VALIDATION_KEY| != |TOOLCHAIN_KEY|;
    var run := new SeenKeys();
    keys := [];
    if hasValidation {
      var _ := run.Insert(VALIDATION_KEY);
      keys := [VALIDATION_KEY];
    }
    if hasToolchain {
      var _ := run.Insert(TOOLCHAIN_KEY);
      keys := keys + [TOOLCHAIN_KEY];
    }
    keys := AddSectionKeys(run, keys, bases);
  }

  /** One key for each section, in page order, after the keys there already. */
  method AddSectionKeys(run: SeenKeys, first: seq<string>, bases: seq<string>) returns (keys: seq<string>)
    requires Distinct(first) && forall k :: k in first <==> k in run.seen
    modifies run
    ensures Distinct(keys) && |keys| == |first| + |bases|
    ensures first <= keys
    ensures forall i | 0 <= i < |bases| :: FirstNewKey(bases[i], keys[|first| + i], keys[..|first| + i])
  {
    keys := first;
    var i := 0;
    while i < |bases|
      invariant 0 <= i <= |bases|
      invariant |keys| == |first| + i && first <= keys
      invariant Distinct(keys) && forall k :: k in keys <==> k in run.seen
      invariant forall j | 0 <= j < i :: FirstNewKey(bases[j], keys[|first| + j], keys[..|first| + j])
    {
      var key;
      ghost var tries;
      key, tries := run.MemorySectionKey(bases[i]);
      FirstCandidateIsNew(bases[i], key, keys, tries);
      ghost var before := keys;
      keys := keys + [key];
      forall j | 0 <= j <= i ensures FirstNewKey(bases[j], keys[|first| + j], keys[..|first| + j]) {
        assert keys[..|first| + j] == before[..|first| + j];
      }
      i := i + 1;
    }
  }

  // -------------------------------------------------------------- budget

  datatype Proposal = Proposal(key: string, body: string)

  datatype Options = Options(dryRun: bool, merge: bool, maxEntries: nat, maxBytes: nat)

  datatype Report = Report(proposed: nat, written: nat, skippedExisting: nat, bodyBytes: nat)

  datatype MemoryError = AlreadyInitialized | WriteRefused

  function TotalBytes(entries: seq<Proposal>): nat {
    if entries == [] then 0 else Utf8Length(entries[0].body) + TotalBytes(entries[1..])
  }

  /** The accepted writes, oldest first; what the store makes of one is its own affair. */
  class MemoryStore {
    var upserts: seq<Proposal>
    /** A calm store refuses no write. */
    const calm: bool

    constructor (calm: bool)
      ensures upserts == [] && this.calm == calm
    {
      this.calm := calm;
      upserts := [];
    }

    method UpsertScoped(entry: Proposal) returns (ok: bool)
      modifies this
      ensures upserts == if ok then old(upserts) + [entry] else old(upserts)
      ensures calm ==> ok
    {
      ok := *;
      ok := ok || calm;
      if ok {
        upserts := upserts + [entry];
      }
    }
  }

  /** The characters of `body`, in order, while they fit. */
  function Cut(body: string, budget: nat): (r: string)
    ensures Utf8Length(r) <= budget
  {
    if body == [] || Utf8Size(body[0]) > budget then ""
    else
      var rest := Cut(body[1..], budget - Utf8Size(body[0]));
      assert ([body[0]] + rest)[1..] == rest;
      [body[0]] + rest
  }

  lemma {:induction false} CutIsLongest(body: string, budget: nat)
    ensures IsByteCut(body, budget, Cut(body, budget))
  {
    var r := Cut(body, budget);
    if r == "" {
      forall i | 0 < i <= |body| ensures Utf8Length(body[..i]) > budget {
        assert body[..i][0] == body[0];
      }
    } else {
      var b := budget - Utf8Size(body[0]);
      CutIsLongest(body[1..], b);
      assert body == [body[0]] + body[1..] && r == [body[0]] + r[1..];
      forall i | |r| < i <= |body| ensures Utf8Length(body[..i]) > budget {
        assert body[..i][1..] == body[1..][..i - 1];
      }
    }
  }

  /**
   What the budget lets through of the proposals so far: the entries to write,
   how many keys were there already, the bytes used, and whether it is full.
   */
  datatype Plan = Plan(entries: seq<Proposal>, skipped: nat, bytes: nat, full: bool)

  ghost function Next(plan: Plan, p: Proposal, existing: set<string>, maxBytes: nat): Plan {
    if plan.full then plan
    else if p.key in existing then plan.(skipped := plan.skipped + 1)
    else
      var body := if plan.bytes < maxBytes then Cut(p.body, maxBytes - plan.bytes) else "";
      Taken(plan, p.key, body)
  }

  ghost function Taken(plan: Plan, key: string, body: string): Plan {
    if body == "" then plan.(full := true)
    else plan.(entries := plan.entries + [Proposal(key, body)], bytes := plan.bytes + Utf8Length(body))
  }

  ghost function PlanOf(proposals: seq<Proposal>, existing: set<string>, maxBytes: nat): Plan {
    if proposals == [] then Plan([], 0, 0, false)
    else
      var last := |proposals| - 1;
      Next(PlanOf(proposals[..last], existing, maxBytes), proposals[last], existing, maxBytes)
  }

  ghost predicate Follows(plans: seq<Plan>, i: nat, p: Proposal, existing: set<string>, maxBytes: nat) {
    i + 1 < |plans| && plans[i + 1] == Next(plans[i], p, existing, maxBytes)
  }

  ghost predicate PlansFor(plans: seq<Plan>, proposals: seq<Proposal>, existing: set<string>, maxBytes: nat) {
    && |plans| == |proposals| + 1 && plans[0] == Plan([], 0, 0, false)
    && forall i | 0 <= i < |proposals| :: Follows(plans, i, proposals[i], existing, maxBytes)
  }

  /** The plan after each proposal. */
  lemma {:induction false} Progress(proposals: seq<Proposal>, existing: set<string>, maxBytes: nat)
    returns (plans: seq<Plan>)
    ensures PlansFor(plans, proposals, existing, maxBytes)
    ensures plans[|proposals|] == PlanOf(proposals, existing, maxBytes)
  {
    var plan := PlanOf(proposals, existing, maxBytes);
    if proposals == [] {
      plans := [plan];
    } else {
      var last := |proposals| - 1;
      var was := Progress(proposals[..last], existing, maxBytes);
      plans := was + [plan];
      forall i | 0 <= i < last ensures Follows(plans, i, proposals[i], existing, maxBytes) {
        assert Follows(was, i, proposals[..last][i], existing, maxBytes);
      }
    }
  }

  /** Entries are only added, and a full plan is final. */
  lemma {:induction false} PlansGrow(
    plans: seq<Plan>, proposals: seq<Proposal>, existing: set<string>, maxBytes: nat, i: nat
  )
    requires PlansFor(plans, proposals, existing, maxBytes) && i < |plans|
    ensures plans[i].entries <= plans[|proposals|].entries
    ensures plans[i].full ==> plans[i] == plans[|proposals|]
    decreases |plans| - i
  {
    if i < |proposals| {
      assert Follows(plans, i, proposals[i], existing, maxBytes);
      PlansGrow(plans, proposals, existing, maxBytes, i + 1);
    }
  }

  lemma {:induction false} OneMoreEntry(entries: seq<Proposal>, p: Proposal)
    ensures TotalBytes(entries + [p]) == TotalBytes(entries) + Utf8Length(p.body)
  {
    if entries == [] {
      assert ([p])[1..] == [] && entries + [p] == [p];
    } else {
      assert (entries + [p])[1..] == entries[1..] + [p];
      OneMoreEntry(entries[1..], p);
    }
  }

  /** The proposals whose keys are not there already. */
  function Fresh(proposals: seq<Proposal>, existing: set<string>): seq<Proposal> {
    if proposals == [] then []
    else
      var last := |proposals| - 1;
      Fresh(proposals[..last], existing) + if proposals[last].key in existing then [] else [proposals[last]]
  }

  /** Proposal `n` is the first left over, and not one of its characters fits. */
  ghost predicate FullAt(proposals: seq<Proposal>, existing: set<string>, left: nat, n: int) {
    && 0 <= n < |proposals| && proposals[n].key !in existing
    && (proposals[n].body != "" ==> Utf8Size(proposals[n].body[0]) > left)
  }

  ghost predicate InBudget(plan: Plan, proposals: seq<Proposal>, existing: set<string>, maxBytes: nat) {
    var n := |plan.entries| + plan.skipped;
    && plan.bytes == TotalBytes(plan.entries) <= maxBytes
    && n <= |proposals| && |plan.entries| == |Fresh(proposals[..n], existing)|
    && if plan.full then FullAt(proposals, existing, maxBytes - plan.bytes, n) else n == |proposals|
  }

  /** Within its bytes, skipping only keys already there, and full only where not one more character fits. */
  lemma {:induction false} PlanWithinBudget(proposals: seq<Proposal>, existing: set<string>, maxBytes: nat)
    ensures InBudget(PlanOf(proposals, existing, maxBytes), proposals, existing, maxBytes)
  {
    if proposals != [] {
      var last := |proposals| - 1;
      PlanWithinBudget(proposals[..last], existing, maxBytes);
      NextInBudget(PlanOf(proposals[..last], existing, maxBytes), proposals, existing, maxBytes);
    }
  }

  lemma NextInBudget(plan: Plan, proposals: seq<Proposal>, existing: set<string>, maxBytes: nat)
    requires proposals != [] && InBudget(plan, proposals[..|proposals| - 1], existing, maxBytes)
    ensures InBudget(Next(plan, proposals[|proposals| - 1], existing, maxBytes), proposals, existing, maxBytes)
  {
    var last := |proposals| - 1;
    var p, n := proposals[last], |plan.entries| + plan.skipped;
    assert proposals[..last][..n] == proposals[..n];
    if !plan.full {
      assert proposals[..n + 1] == proposals && proposals[..n] == proposals[..last];
      if p.key !in existing && plan.bytes < maxBytes {
        var body := Cut(p.body, maxBytes - plan.bytes);
        OneMoreEntry(plan.entries, Proposal(p.key, body));
      }
    }
  }

  /** Entry `j` is the `j`-th fresh proposal, cut to what the entries before it left. */
  ghost predicate KeptFrom(offered: seq<Proposal>, maxBytes: nat, entries: seq<Proposal>, j: nat)
    requires j < |entries|
  {
    && j < |offered| && entries[j].key == offered[j].key && TotalBytes(entries[..j]) <= maxBytes
    && entries[j].body != "" && IsByteCut(offered[j].body, maxBytes - TotalBytes(entries[..j]), entries[j].body)
  }

  /** The plan keeps the fresh proposals in order, each body the longest whole-character prefix there was room for. */
  lemma {:induction false} PlanIsGreedy(proposals: seq<Proposal>, existing: set<string>, maxBytes: nat, j: nat)
    requires j < |PlanOf(proposals, existing, maxBytes).entries|
    ensures KeptFrom(Fresh(proposals, existing), maxBytes, PlanOf(proposals, existing, maxBytes).entries, j)
  {
    var last := |proposals| - 1;
    var was := PlanOf(proposals[..last], existing, maxBytes);
    var entries := PlanOf(proposals, existing, maxBytes).entries;
    assert was.entries <= entries;
    if j < |was.entries| {
      PlanIsGreedy(proposals[..last], existing, maxBytes, j);
      assert entries[..j] == was.entries[..j];
      assert Fresh(proposals[..last], existing) <= Fresh(proposals, existing);
    } else {
      PlanWithinBudget(proposals[..last], existing, maxBytes);
      assert proposals[..last][..last] == proposals[..last];
      NewestIsKept(was, proposals, existing, maxBytes);
    }
  }

  lemma NewestIsKept(plan: Plan, proposals: seq<Proposal>, existing: set<string>, maxBytes: nat)
    requires proposals != [] && plan.bytes == TotalBytes(plan.entries) <= maxBytes
    requires !plan.full ==> |plan.entries| == |Fresh(proposals[..|proposals| - 1], existing)|
    ensures var entries := Next(plan, proposals[|proposals| - 1], existing, maxBytes).entries;
            |entries| > |plan.entries| ==> KeptFrom(Fresh(proposals, existing), maxBytes, entries, |plan.entries|)
  {
    var p := proposals[|proposals| - 1];
    if !plan.full && p.key !in existing && plan.bytes < maxBytes {
      var entries := Next(plan, p, existing, maxBytes).entries;
      if |entries| > |plan.entries| {
        assert entries[..|plan.entries|] == plan.entries;
        CutIsLongest(p.body, maxBytes - plan.bytes);
      }
    }
  }

  function Considered(proposals: seq<Proposal>, options: Options): (r: seq<Proposal>)
    ensures r <= proposals && |r| == if |proposals| <= options.maxEntries then |proposals| else options.maxEntries
  {
    if |proposals| <= options.maxEntries then proposals else proposals[..options.maxEntries]
  }

  method CutBody(body: string, room: nat) returns (r: string)
    ensures r == Cut(body, room)
  {
    r := TruncateBytes(body, Some(room));
    CutIs(body, room, r);
  }

  /** The loop's variables say what the plan so far says. */
  ghost predicate Matches(
    upserts: seq<Proposal>, before: seq<Proposal>, plan: Plan, report: Report, dryRun: bool
  ) {
    && !plan.full && report.bodyBytes == plan.bytes && report.skippedExisting == plan.skipped
    && report.written == (if dryRun then 0 else |plan.entries|)
    && upserts == before + if dryRun then [] else plan.entries
  }

  lemma MatchesTaken(
    upserts: seq<Proposal>, before: seq<Proposal>, plan: Plan, report: Report, dryRun: bool, entry: Proposal
  )
    requires Matches(upserts, before, plan, report, dryRun) && entry.body != ""
    ensures Matches(
              if dryRun then upserts else upserts + [entry], before, Taken(plan, entry.key, entry.body),
              report.(written := report.written + (if dryRun then 0 else 1),
                      bodyBytes := report.bodyBytes + Utf8Length(entry.body)), dryRun)
  {
    assert before + plan.entries + [entry] == before + (plan.entries + [entry]);
  }

  datatype Progression = GoesOn | Stops | Refused

  /** One turn of the loop: skips a known key, cuts the rest to what is left, or stops where nothing fits. */
  method TakeNext(
    store: MemoryStore, considered: seq<Proposal>, existing: set<string>, options: Options, i: nat, report: Report,
    ghost before: seq<Proposal>, ghost plans: seq<Plan>
  ) returns (how: Progression, now: Report)
    requires PlansFor(plans, considered, existing, options.maxBytes) && i < |considered|
    requires Matches(store.upserts, before, plans[i], report, options.dryRun)
    modifies store
    ensures now.proposed == report.proposed
    ensures how.GoesOn? ==> Matches(store.upserts, before, plans[i + 1], now, options.dryRun)
    ensures !how.GoesOn? ==> store.upserts == old(store.upserts) && now == report
    ensures how.Stops? ==> plans[i + 1] == plans[i].(full := true)
    ensures how.Refused? ==> !options.dryRun && !store.calm
  {
    var proposal := considered[i];
    NextSkips(plans, considered, existing, options.maxBytes, i);
    if proposal.key in existing {
      return GoesOn, report.(skippedExisting := report.skippedExisting + 1);
    }
    var remaining := if options.maxBytes < report.bodyBytes then 0 else options.maxBytes - report.bodyBytes;
    if remaining == 0 {
      return Stops, report;
    }
    var body := CutBody(proposal.body, remaining);
    NextTakes(plans, considered, existing, options.maxBytes, i, body);
    if body == "" {
      return Stops, report;
    }
    var entry := Proposal(proposal.key, body);
    MatchesTaken(store.upserts, before, plans[i], report, options.dryRun, entry);
    now := report.(bodyBytes := report.bodyBytes + Utf8Length(body));
    if !options.dryRun {
      var ok := store.UpsertScoped(entry);
      if !ok {
        return Refused, report;
      }
      now := now.(written := now.written + 1);
    }
    how := GoesOn;
  }

  /** The loop over the proposals considered. */
  method WriteWithinBudget(
    store: MemoryStore, considered: seq<Proposal>, existing: set<string>, options: Options, ghost plans: seq<Plan>
  ) returns (r: Result<Report, MemoryError>)
    requires PlansFor(plans, considered, existing, options.maxBytes)
    modifies store
    ensures options.dryRun ==> r.Ok? && store.upserts == old(store.upserts)
    ensures store.calm ==> r.Ok?
    ensures old(store.upserts) <= store.upserts <= old(store.upserts) + plans[|considered|].entries
    ensures r.Ok? ==>
              var plan := plans[|considered|];
              && r.value == Report(|considered|, if options.dryRun then 0 else |plan.entries|, plan.skipped, plan.bytes)
              && (!options.dryRun ==> store.upserts == old(store.upserts) + plan.entries)
    ensures r.Err? ==> r == Err(WriteRefused)
  {
    ghost var before := store.upserts;
    var report := Report(|considered|, 0, 0, 0);
    var i := 0;
    while i < |considered|
      invariant 0 <= i <= |considered| && report.proposed == |considered|
      invariant Matches(store.upserts, before, plans[i], report, options.dryRun)
    {
      var how;
      how, report := TakeNext(store, considered, existing, options, i, report, before, plans);
      if how.Refused? {
        PlansGrow(plans, considered, existing, options.maxBytes, i);
        PrefixAfter(before, plans[i].entries, plans[|considered|].entries);
        return Err(WriteRefused);
      }
      if how.Stops? {
        PlansGrow(plans, considered, existing, options.maxBytes, i + 1);
        break;
      }
      i := i + 1;
    }
    r := Ok(report);
  }

  /**
   Within the byte and entry budgets, and the same report counts whether or
   not it writes: they depend on the proposals, the keys there and the limits.
   */
  method InitializeMemory(
    store: MemoryStore, proposals: seq<Proposal>, existing: set<string>, options: Options
  ) returns (r: Result<Report, MemoryError>)
    modifies store
    ensures existing != {} && !options.merge <==> r == Err(AlreadyInitialized)
    ensures r == Err(AlreadyInitialized) || options.dryRun ==> store.upserts == old(store.upserts)
    ensures (options.dryRun || store.calm) && (existing == {} || options.merge) ==> r.Ok?
    ensures old(store.upserts) <= store.upserts
         <= old(store.upserts) + PlanOf(Considered(proposals, options), existing, options.maxBytes).entries
    ensures r.Ok? ==>
              var considered := Considered(proposals, options);
              var plan := PlanOf(considered, existing, options.maxBytes);
              && r.value == Report(|considered|, if options.dryRun then 0 else |plan.entries|, plan.skipped, plan.bytes)
              && (!options.dryRun ==> store.upserts == old(store.upserts) + plan.entries)
  {
    if existing != {} && !options.merge {
      return Err(AlreadyInitialized);
    }
    var considered := Considered(proposals, options);
    ghost var plans := Progress(considered, existing, options.maxBytes);
    r := WriteWithinBudget(store, considered, existing, options, plans);
  }

  lemma PrefixAfter(before: seq<Proposal>, a: seq<Proposal>, b: seq<Proposal>)
    requires a <= b
    ensures before + a <= before + b
  {
  }

  lemma NextSkips(plans: seq<Plan>, proposals: seq<Proposal>, existing: set<string>, maxBytes: nat, i: nat)
    requires PlansFor(plans, proposals, existing, maxBytes) && i < |proposals| && !plans[i].full
    ensures proposals[i].key in existing ==> plans[i + 1] == plans[i].(skipped := plans[i].skipped + 1)
    ensures proposals[i].key !in existing && plans[i].bytes >= maxBytes ==> plans[i + 1] == plans[i].(full := true)
  {
    assert Follows(plans, i, proposals[i], existing, maxBytes);
  }

  lemma NextTakes(
    plans: seq<Plan>, proposals: seq<Proposal>, existing: set<string>, maxBytes: nat, i: nat, body: string
  )
    requires PlansFor(plans, proposals, existing, maxBytes) && i < |proposals| && !plans[i].full
    requires proposals[i].key !in existing && plans[i].bytes < maxBytes
    requires body == Cut(proposals[i].body, maxBytes - plans[i].bytes)
    ensures plans[i + 1] == Taken(plans[i], proposals[i].key, body)
  {
    assert Follows(plans, i, proposals[i], existing, maxBytes);
  }

  lemma CutIs(body: string, budget: nat, r: string)
    requires IsByteCut(body, budget, r)
    ensures r == Cut(body, budget)
  {
    var cut := Cut(body, budget);
    CutIsLongest(body, budget);
    ByteCutIsUnique(body, budget, r, cut);
  }
}
