/** The whole merge: presence, idempotence and what survives it. */
module HookGuarantees {
  import opened Wrappers
  import opened Hooks
  import opened HookInstall
  import opened HookLaws

  function Required(toolFailure: bool): seq<Hook> {
    HARNESS_HOOKS + ClaudeOnlyHooks(toolFailure)
  }

  /** The document with the retired hooks taken out and nothing added. */
  function Stripped(settings: Json, toolFailure: bool): Json {
    Removed(MaybeRemoved(settings, CLAUDE_TOOL_FAILURE_HOOK, !toolFailure), CLAUDE_SAFETY_HOOK)
  }

  /** No hook the merge installs is one it takes out. */
  lemma RequiredAreNotRetired(toolFailure: bool)
    ensures CLAUDE_SAFETY_HOOK !in Required(toolFailure)
    ensures !toolFailure ==> CLAUDE_TOOL_FAILURE_HOOK !in Required(toolFailure)
    ensures CLAUDE_TOOL_FAILURE_HOOK.event != CLAUDE_SAFETY_HOOK.event
  {
  }

  /** The merged document is the stripped one plus some of the required hooks, in order. */
  lemma MergeShape(settings: Json, toolFailure: bool)
    requires Merge(settings, toolFailure).Done?
    ensures var r := Merge(settings, toolFailure);
            var base := Stripped(settings, toolFailure);
            && AllPushable(base, r.added) && PushAll(base, r.added).Obj?
            && r.root == WithStatusLine(PushAll(base, r.added))
            && Subsequence(r.added, Required(toolFailure))
            && forall h | h in r.added :: h in Required(toolFailure)
  {
    RequiredAreNotRetired(toolFailure);
    var e1 := EnsureAll(settings, HARNESS_HOOKS, false);
    var s1, first := e1.root, e1.added;
    EnsureAllPushes(settings, HARNESS_HOOKS, false);
    EnsureAllKeepsKeys(settings, HARNESS_HOOKS, false);
    var trimmed := MaybeRemoved(settings, CLAUDE_TOOL_FAILURE_HOOK, !toolFailure);
    if !toolFailure {
      RemovePastPushes(settings, first, CLAUDE_TOOL_FAILURE_HOOK);
    }
    RemovedKeepsKeys(settings, CLAUDE_TOOL_FAILURE_HOOK);
    var s2 := MaybeRemoved(s1, CLAUDE_TOOL_FAILURE_HOOK, !toolFailure);
    assert AllPushable(trimmed, first) && s2 == PushAll(trimmed, first);
    RemovedKeepsKeys(s1, CLAUDE_TOOL_FAILURE_HOOK);
    EnsureAllPushes(s2, ClaudeOnlyHooks(toolFailure), true);
    var second := EnsureAll(s2, ClaudeOnlyHooks(toolFailure), true).added;
    SubsequenceAppend(first, second, HARNESS_HOOKS, ClaudeOnlyHooks(toolFailure));
    PushAllAppend(trimmed, first, second);
    PushableThrough(trimmed, first, second);
    RemovePastPushes(trimmed, first + second, CLAUDE_SAFETY_HOOK);
    PushAllAppend(Stripped(settings, toolFailure), first + second, []);
  }

  lemma {:induction false} PushableThrough(s: Json, a: seq<Hook>, b: seq<Hook>)
    requires AllPushable(s, a) && PushAll(s, a).Obj? && AllPushable(PushAll(s, a), b)
    ensures AllPushable(s, a + b)
    decreases a
  {
    if a == [] {
      assert a + b == b;
    } else {
      PushableParts(s, a);
      PushableThrough(Pushed(s, a[0]), a[1..], b);
      forall h | h in a + b ensures Pushable(s, h.event) {
        if h !in a {
          assert h in a[1..] + b;
          PushableBackwards(s, a[0], h.event);
        }
      }
    }
  }

  // ------------------------------------------------------------ presence

  lemma StatusLineKeepsHooks(s: Json, event: string, c: string)
    requires s.Obj?
    ensures Entries(WithStatusLine(s), event) == Entries(s, event)
    ensures ContainsCommand(s, c) ==> ContainsCommand(WithStatusLine(s), c)
    ensures c != USAGE_TEE ==> (ContainsCommand(WithStatusLine(s), c) <==> ContainsCommand(s, c))
    ensures Pushable(s, event) <==> Pushable(WithStatusLine(s), event)
  {
    assert |"statusLine"| != |"hooks"| && |"type"| != |"command"|;
    if "statusLine" !in s.members {
      ContainsUpdate(s.members, "statusLine", ItemFor(USAGE_TEE), c);
      assert forall k | k in ItemFor(USAGE_TEE).members :: ItemFor(USAGE_TEE).members[k].Str?;
    }
  }

  /** Every Claude-only hook is live at its own slot afterwards. */
  lemma ClaudeHooksAreLive(settings: Json, toolFailure: bool, hook: Hook)
    requires Merge(settings, toolFailure).Done? && hook in ClaudeOnlyHooks(toolFailure)
    ensures CommandLiveAtSlot(Merge(settings, toolFailure).root, hook)
    ensures ContainsCommand(Merge(settings, toolFailure).root, hook.command)
  {
    RequiredAreNotRetired(toolFailure);
    var s1 := EnsureAll(settings, HARNESS_HOOKS, false).root;
    EnsureAllKeepsKeys(settings, HARNESS_HOOKS, false);
    RemovedKeepsKeys(s1, CLAUDE_TOOL_FAILURE_HOOK);
    var s2 := MaybeRemoved(s1, CLAUDE_TOOL_FAILURE_HOOK, !toolFailure);
    EnsureAllPushes(s2, ClaudeOnlyHooks(toolFailure), true);
    var s3 := EnsureAll(s2, ClaudeOnlyHooks(toolFailure), true).root;
    assert Present(s3, hook, true);
    assert hook in Required(toolFailure);
    LiveAfterRemoval(s3, CLAUDE_SAFETY_HOOK, hook);
    var s4 := Removed(s3, CLAUDE_SAFETY_HOOK);
    StatusLineKeepsHooks(s4, hook.event, hook.command);
    LiveIsContained(WithStatusLine(s4), hook);
  }

  predicate ClaudeInstalls(c: string, toolFailure: bool) {
    exists i | 0 <= i < |ClaudeOnlyHooks(toolFailure)| :: ClaudeOnlyHooks(toolFailure)[i].command == c
  }

  /** The shared hook is contained afterwards, or was only in what got stripped out. */
  predicate HookSurvives(settings: Json, toolFailure: bool, hook: Hook) {
    || ClaudeInstalls(hook.command, toolFailure)
    || !ContainsCommand(settings, hook.command)
    || ContainsCommand(Stripped(settings, toolFailure), hook.command)
  }

  lemma HarnessCommands()
    ensures forall h | h in HARNESS_HOOKS :: h.command != USAGE_TEE
    ensures forall g, h | g in HARNESS_HOOKS && h in HARNESS_HOOKS && g.command == h.command :: g == h
  {
  }

  /** A shared hook's command is in the merged document exactly when it survives. */
  lemma SharedHookContainedIff(settings: Json, toolFailure: bool, hook: Hook)
    requires Merge(settings, toolFailure).Done? && hook in HARNESS_HOOKS
    ensures ContainsCommand(Merge(settings, toolFailure).root, hook.command) <==>
            HookSurvives(settings, toolFailure, hook)
  {
    HarnessCommands();
    MergeShape(settings, toolFailure);
    var r, base, c := Merge(settings, toolFailure), Stripped(settings, toolFailure), hook.command;
    StatusLineKeepsHooks(PushAll(base, r.added), hook.event, c);
    ContainsPushAll(base, r.added, c);
    var first := EnsureAll(settings, HARNESS_HOOKS, false).added;
    EnsureAllPushes(settings, HARNESS_HOOKS, false);
    if ClaudeInstalls(c, toolFailure) {
      var i :| 0 <= i < |ClaudeOnlyHooks(toolFailure)| && ClaudeOnlyHooks(toolFailure)[i].command == c;
      ClaudeHooksAreLive(settings, toolFailure, ClaudeOnlyHooks(toolFailure)[i]);
    } else {
      AddedShared(settings, toolFailure, hook);
    }
  }

  /** A shared hook no Claude-only hook stands in for is pushed exactly when it was missing. */
  lemma AddedShared(settings: Json, toolFailure: bool, hook: Hook)
    requires Merge(settings, toolFailure).Done? && hook in HARNESS_HOOKS && !ClaudeInstalls(hook.command, toolFailure)
    ensures (exists h | h in Merge(settings, toolFailure).added :: h.command == hook.command) <==>
            !ContainsCommand(settings, hook.command)
  {
    HarnessCommands();
    var c := hook.command;
    var e1 := EnsureAll(settings, HARNESS_HOOKS, false);
    EnsureAllPushes(settings, HARNESS_HOOKS, false);
    EnsureAllKeepsKeys(settings, HARNESS_HOOKS, false);
    RemovedKeepsKeys(e1.root, CLAUDE_TOOL_FAILURE_HOOK);
    var s2 := MaybeRemoved(e1.root, CLAUDE_TOOL_FAILURE_HOOK, !toolFailure);
    EnsureAllPushes(s2, ClaudeOnlyHooks(toolFailure), true);
    var second := EnsureAll(s2, ClaudeOnlyHooks(toolFailure), true).added;
    forall h | h in second ensures h.command != c {
      assert h in ClaudeOnlyHooks(toolFailure);
    }
    ContainsPushAll(settings, e1.added, c);
    assert Present(e1.root, hook, false);
    forall h | h in e1.added && h.command == c ensures !ContainsCommand(settings, c) {
      assert !Present(settings, h, false);
    }
    if !ContainsCommand(settings, c) {
      var h :| h in e1.added && h.command == c;
      assert h in e1.added + second;
    }
  }

  // --------------------------------------------------------- idempotence

  lemma SlotCleanAfterPushes(s: Json, hooks: seq<Hook>, removed: Hook)
    requires AllPushable(s, hooks) && removed !in hooks && SlotClean(s, removed)
    ensures PushAll(s, hooks).Obj? && SlotClean(PushAll(s, hooks), removed)
  {
    RemovedCleansTheSlot(s, removed);
    RemovePastPushes(s, hooks, removed);
    PushAllAppend(s, hooks, []);
    RemovedCleansTheSlot(PushAll(s, hooks), removed);
  }

  lemma OtherSlotStaysClean(s: Json, removed: Hook, other: Hook)
    requires removed.event != other.event && SlotClean(s, other)
    ensures SlotClean(Removed(s, removed), other)
  {
  }

  /** The merged document has nothing left to remove. */
  lemma MergedSlotsAreClean(settings: Json, toolFailure: bool)
    requires Merge(settings, toolFailure).Done?
    ensures SlotClean(Merge(settings, toolFailure).root, CLAUDE_SAFETY_HOOK)
    ensures !toolFailure ==> SlotClean(Merge(settings, toolFailure).root, CLAUDE_TOOL_FAILURE_HOOK)
  {
    RequiredAreNotRetired(toolFailure);
    MergeShape(settings, toolFailure);
    var r, base := Merge(settings, toolFailure), Stripped(settings, toolFailure);
    var trimmed := MaybeRemoved(settings, CLAUDE_TOOL_FAILURE_HOOK, !toolFailure);
    RemovedCleansTheSlot(trimmed, CLAUDE_SAFETY_HOOK);
    SlotCleanAfterPushes(base, r.added, CLAUDE_SAFETY_HOOK);
    StatusLineKeepsHooks(PushAll(base, r.added), CLAUDE_SAFETY_HOOK.event, "");
    if !toolFailure {
      RemovedCleansTheSlot(settings, CLAUDE_TOOL_FAILURE_HOOK);
      OtherSlotStaysClean(trimmed, CLAUDE_SAFETY_HOOK, CLAUDE_TOOL_FAILURE_HOOK);
      SlotCleanAfterPushes(base, r.added, CLAUDE_TOOL_FAILURE_HOOK);
      StatusLineKeepsHooks(PushAll(base, r.added), CLAUDE_TOOL_FAILURE_HOOK.event, "");
    }
  }

  lemma CleanRemovesNothing(s: Json, hook: Hook)
    requires SlotClean(s, hook)
    ensures Removed(s, hook) == s && !RemovesAny(s, hook)
  {
    RemovedCleansTheSlot(s, hook);
    var entries := EntriesOrNone(s, hook.event);
    forall i | 0 <= i < |entries| ensures !EntryLive(entries[i], hook) {
      assert Untouched(entries[i], hook);
      if MatcherOf(entries[i]) == hook.matcher && HookItems(entries[i]).Some? {
        var items := HookItems(entries[i]).value;
        assert forall j | 0 <= j < |items| :: items[j] in items;
      }
    }
  }

  /** The tool-failure hook is live afterwards exactly when it is switched on; the safety hook never is. */
  lemma SwitchDecides(settings: Json, toolFailure: bool)
    requires Merge(settings, toolFailure).Done?
    ensures CommandLiveAtSlot(Merge(settings, toolFailure).root, CLAUDE_TOOL_FAILURE_HOOK) <==> toolFailure
    ensures !CommandLiveAtSlot(Merge(settings, toolFailure).root, CLAUDE_SAFETY_HOOK)
  {
    var root := Merge(settings, toolFailure).root;
    MergedSlotsAreClean(settings, toolFailure);
    CleanRemovesNothing(root, CLAUDE_SAFETY_HOOK);
    if toolFailure {
      assert ClaudeOnlyHooks(toolFailure)[|CLAUDE_ONLY_HOOKS|] == CLAUDE_TOOL_FAILURE_HOOK;
      ClaudeHooksAreLive(settings, toolFailure, CLAUDE_TOOL_FAILURE_HOOK);
    } else {
      CleanRemovesNothing(root, CLAUDE_TOOL_FAILURE_HOOK);
    }
  }

  /** A second merge has nothing to do exactly when every shared hook survived the first. */
  lemma MergeIsIdempotentIff(settings: Json, toolFailure: bool)
    requires Merge(settings, toolFailure).Done?
    ensures var once := Merge(settings, toolFailure).root;
            Merge(once, toolFailure) == Done(once, [], false, false) <==>
            forall h | h in HARNESS_HOOKS :: HookSurvives(settings, toolFailure, h)
  {
    var once := Merge(settings, toolFailure).root;
    forall h | h in HARNESS_HOOKS
      ensures HookSurvives(settings, toolFailure, h) <==> Present(once, h, false)
    {
      SharedHookContainedIff(settings, toolFailure, h);
    }
    NothingToAdd(once, HARNESS_HOOKS, false);
    MergeShape(settings, toolFailure);
    NothingElseToDo(settings, toolFailure);
    if Merge(once, toolFailure) == Done(once, [], false, false) {
      EnsureAllPushes(once, HARNESS_HOOKS, false);
      assert EnsureAll(once, HARNESS_HOOKS, false).added == [];
    }
  }

  /** After a merge only the shared hooks can give a second one anything to do. */
  lemma NothingElseToDo(settings: Json, toolFailure: bool)
    requires Merge(settings, toolFailure).Done?
    ensures var once := Merge(settings, toolFailure).root;
            EnsureAll(once, HARNESS_HOOKS, false) == Merged(once, []) ==>
              Merge(once, toolFailure) == Done(once, [], false, false)
  {
    var once := Merge(settings, toolFailure).root;
    MergeShape(settings, toolFailure);
    MergedSlotsAreClean(settings, toolFailure);
    CleanRemovesNothing(once, CLAUDE_SAFETY_HOOK);
    if !toolFailure {
      CleanRemovesNothing(once, CLAUDE_TOOL_FAILURE_HOOK);
    }
    forall h | h in ClaudeOnlyHooks(toolFailure) ensures Present(once, h, true) {
      ClaudeHooksAreLive(settings, toolFailure, h);
    }
    NothingToAdd(once, ClaudeOnlyHooks(toolFailure), true);
    if EnsureAll(once, HARNESS_HOOKS, false) == Merged(once, []) {
      IdleMerge(once, toolFailure);
    }
  }

  lemma IdleMerge(s: Json, toolFailure: bool)
    requires s.Obj? && "statusLine" in s.members
    requires EnsureAll(s, HARNESS_HOOKS, false) == Merged(s, [])
    requires EnsureAll(s, ClaudeOnlyHooks(toolFailure), true) == Merged(s, [])
    requires !toolFailure ==> Removed(s, CLAUDE_TOOL_FAILURE_HOOK) == s && !RemovesAny(s, CLAUDE_TOOL_FAILURE_HOOK)
    requires Removed(s, CLAUDE_SAFETY_HOOK) == s && !RemovesAny(s, CLAUDE_SAFETY_HOOK)
    ensures Merge(s, toolFailure) == Done(s, [], false, false)
  {
  }

  /** The matching entries of the slot carry `c` in no field and no hook of their own command. */
  predicate FlatSlot(settings: Json, hook: Hook, c: string) {
    forall e | e in EntriesOrNone(settings, hook.event) && MatcherOf(e) == hook.matcher && HookItems(e).Some? ::
      && Get(e, "command") != Some(Str(c))
      && (forall k | k in e.members && k != "hooks" :: !ContainsCommand(e.members[k], c))
      && forall x | x in HookItems(e).value && Runs(x, hook.command) :: !ContainsCommand(x, c)
  }

  lemma FlatEntryKeeps(e: Json, hook: Hook, c: string)
    requires ContainsCommand(e, c)
    requires MatcherOf(e) == hook.matcher && HookItems(e).Some? ==>
               && Get(e, "command") != Some(Str(c))
               && (forall k | k in e.members && k != "hooks" :: !ContainsCommand(e.members[k], c))
               && forall x | x in HookItems(e).value && Runs(x, hook.command) :: !ContainsCommand(x, c)
    ensures KeepEntry(e, hook).Some? && ContainsCommand(KeepEntry(e, hook).value, c)
  {
    if MatcherOf(e) == hook.matcher && HookItems(e).Some? {
      var items := HookItems(e).value;
      assert ContainsCommand(e.members["hooks"], c);
      FlatItemsKeep(items, hook.command, c);
      var left := KeepEntry(e, hook).value;
      assert left.members["hooks"] == Arr(KeepItems(items, hook.command));
    }
  }

  lemma FlatItemsKeep(items: seq<Json>, command: string, c: string)
    requires ContainsCommand(Arr(items), c)
    requires forall x | x in items && Runs(x, command) :: !ContainsCommand(x, c)
    ensures KeepItems(items, command) != [] && ContainsCommand(Arr(KeepItems(items, command)), c)
  {
    ContainsList(items, c);
    ContainsList(KeepItems(items, command), c);
    KeepItemsFacts(items, command);
    var i :| 0 <= i < |items| && ContainsCommand(items[i], c);
    assert items[i] in KeepItems(items, command);
  }

  lemma {:induction false} FlatEntriesKeep(entries: seq<Json>, hook: Hook, c: string)
    requires forall e | e in entries && ContainsCommand(e, c) ::
               KeepEntry(e, hook).Some? && ContainsCommand(KeepEntry(e, hook).value, c)
    ensures ContainsCommand(Arr(entries), c) ==> ContainsCommand(Arr(KeepEntries(entries, hook)), c)
  {
    if entries != [] {
      var first, rest := KeepEntry(entries[0], hook), KeepEntries(entries[1..], hook);
      FlatEntriesKeep(entries[1..], hook, c);
      assert entries == [entries[0]] + entries[1..];
      ContainsCons(entries[0], entries[1..], c);
      if first.Some? {
        ContainsCons(first.value, rest, c);
      } else {
        assert KeepEntries(entries, hook) == rest;
      }
    }
  }

  lemma ContainsCons(x: Json, rest: seq<Json>, c: string)
    ensures ContainsCommand(Arr([x] + rest), c) <==> ContainsCommand(x, c) || ContainsCommand(Arr(rest), c)
  {
    var all := [x] + rest;
    ContainsList(all, c);
    ContainsList(rest, c);
    assert all[0] == x && forall i | 0 <= i < |rest| :: all[i + 1] == rest[i];
    assert forall i | 1 <= i < |all| :: all[i] == rest[i - 1];
  }

  lemma FlatSlotKeeps(settings: Json, hook: Hook, c: string)
    requires FlatSlot(settings, hook, c) && ContainsCommand(settings, c)
    ensures ContainsCommand(Removed(settings, hook), c)
  {
    if Entries(settings, hook.event).Some? {
      var entries := Entries(settings, hook.event).value;
      forall e | e in entries && ContainsCommand(e, c)
        ensures KeepEntry(e, hook).Some? && ContainsCommand(KeepEntry(e, hook).value, c)
      {
        FlatEntryKeeps(e, hook, c);
      }
      FlatEntriesKeep(entries, hook, c);
      ContainsUnset(settings, hook.event, c);
      ContainsSetEntries(settings, hook.event, KeepEntries(entries, hook), c);
    }
  }

  /** On settings whose retired slots are flat a second merge adds and removes nothing. */
  lemma FlatSettingsAreIdempotent(settings: Json, toolFailure: bool)
    requires Merge(settings, toolFailure).Done?
    requires forall h | h in HARNESS_HOOKS ::
               && FlatSlot(settings, CLAUDE_SAFETY_HOOK, h.command)
               && FlatSlot(settings, CLAUDE_TOOL_FAILURE_HOOK, h.command)
    ensures var once := Merge(settings, toolFailure).root;
            Merge(once, toolFailure) == Done(once, [], false, false)
  {
    RequiredAreNotRetired(toolFailure);
    var trimmed := MaybeRemoved(settings, CLAUDE_TOOL_FAILURE_HOOK, !toolFailure);
    if Entries(settings, CLAUDE_TOOL_FAILURE_HOOK.event).Some? {
      EntriesAfterSet(settings, CLAUDE_TOOL_FAILURE_HOOK.event,
                      KeepEntries(Entries(settings, CLAUDE_TOOL_FAILURE_HOOK.event).value, CLAUDE_TOOL_FAILURE_HOOK),
                      CLAUDE_SAFETY_HOOK.event);
    }
    forall h | h in HARNESS_HOOKS ensures HookSurvives(settings, toolFailure, h) {
      if ContainsCommand(settings, h.command) {
        FlatSlotKeeps(settings, CLAUDE_TOOL_FAILURE_HOOK, h.command);
        assert FlatSlot(trimmed, CLAUDE_SAFETY_HOOK, h.command);
        FlatSlotKeeps(trimmed, CLAUDE_SAFETY_HOOK, h.command);
      }
    }
    MergeIsIdempotentIff(settings, toolFailure);
  }

  /** A document whose hook events are all arrays can be merged. */
  lemma WellShapedMerges(settings: Json, toolFailure: bool)
    requires AllPushable(settings, Required(toolFailure))
    ensures Merge(settings, toolFailure).Done?
  {
    RequiredAreNotRetired(toolFailure);
    PassesMerge(
      settings, HARNESS_HOOKS, ClaudeOnlyHooks(toolFailure), CLAUDE_TOOL_FAILURE_HOOK, toolFailure, CLAUDE_SAFETY_HOOK);
  }

  /** Two passes with a removal between them and one after, for any hooks. */
  lemma PassesMerge(s: Json, shared: seq<Hook>, only: seq<Hook>, first: Hook, skip: bool, last: Hook)
    requires AllPushable(s, shared + only) && (!skip ==> first !in shared + only)
    ensures var e1 := EnsureAll(s, shared, false);
            && e1.Merged?
            && var s2 := MaybeRemoved(e1.root, first, !skip);
               var e2 := EnsureAll(s2, only, true);
               e2.Merged? && Removed(e2.root, last).Obj?
  {
    var all := shared + only;
    EnsureAllMerges(s, shared, all, false);
    var s1 := EnsureAll(s, shared, false).root;
    if !skip {
      RemovePastPushes(s1, all, first);
    }
    var s2 := MaybeRemoved(s1, first, !skip);
    EnsureAllMerges(s2, only, all, true);
    RemovedKeepsKeys(EnsureAll(s2, only, true).root, last);
  }

  lemma {:induction false} EnsureAllMerges(s: Json, hooks: seq<Hook>, all: seq<Hook>, atSlot: bool)
    requires AllPushable(s, all) && forall h | h in hooks :: h in all
    ensures EnsureAll(s, hooks, atSlot).Merged? && AllPushable(EnsureAll(s, hooks, atSlot).root, all)
    decreases hooks
  {
    if hooks != [] {
      assert hooks[0] in all;
      StillPushable(s, hooks[0], all);
      if Present(s, hooks[0], atSlot) {
        EnsureAllMerges(s, hooks[1..], all, atSlot);
      } else {
        EnsureAllMerges(Pushed(s, hooks[0]), hooks[1..], all, atSlot);
      }
    }
  }

  /** A retired safety hook with another hook's command somewhere inside it. */
  function NestingItem(c: string): Json {
    Obj(ItemFor(CLAUDE_SAFETY_HOOK.command).members["note" := ItemFor(c)])
  }

  function NestingEntry(c: string): Json {
    Obj(EntryFor(CLAUDE_SAFETY_HOOK).members["hooks" := Arr([NestingItem(c)])])
  }

  function NestingSettings(c: string): Json {
    SetEntries(Obj(map[]), CLAUDE_SAFETY_HOOK.event, [NestingEntry(c)])
  }

  lemma NestedCommandIsStripped(c: string, toolFailure: bool)
    ensures ContainsCommand(NestingSettings(c), c)
    ensures !ContainsCommand(Stripped(NestingSettings(c), toolFailure), c)
  {
    NestingSettingsContain(c);
    NestingSettingsStripped(c, toolFailure);
    NothingContained(c);
  }

  lemma NestingSettingsContain(c: string)
    ensures ContainsCommand(NestingSettings(c), c)
  {
    var item, entry := NestingItem(c), NestingEntry(c);
    assert |"note"| == |"type"| && "note"[0] != "type"[0] && |"note"| != |"command"|;
    assert |"hooks"| != |"matcher"|;
    assert ContainsCommand(item.members["note"], c);
    assert ContainsCommand(item, c);
    ContainsList([item], c);
    assert [item][0] == item;
    assert entry.members["hooks"] == Arr([item]);
    assert ContainsCommand(entry, c);
    ContainsList([entry], c);
    assert [entry][0] == entry;
    ContainsSetEntries(Obj(map[]), CLAUDE_SAFETY_HOOK.event, [entry], c);
  }

  lemma NestingSettingsStripped(c: string, toolFailure: bool)
    ensures Stripped(NestingSettings(c), toolFailure) == SetEntries(Obj(map[]), CLAUDE_SAFETY_HOOK.event, [])
  {
    var bare, entry, settings := Obj(map[]), NestingEntry(c), NestingSettings(c);
    RequiredAreNotRetired(toolFailure);
    NestingEntryIsDropped(c);
    EntriesAfterSet(bare, CLAUDE_SAFETY_HOOK.event, [entry], CLAUDE_SAFETY_HOOK.event);
    EntriesAfterSet(bare, CLAUDE_SAFETY_HOOK.event, [entry], CLAUDE_TOOL_FAILURE_HOOK.event);
    assert Removed(settings, CLAUDE_TOOL_FAILURE_HOOK) == settings;
    SetOverwrites(bare, CLAUDE_SAFETY_HOOK.event, [entry], []);
  }

  lemma NothingContained(c: string)
    ensures !ContainsCommand(SetEntries(Obj(map[]), CLAUDE_SAFETY_HOOK.event, []), c)
  {
    ContainsList([], c);
    var none: map<string, Json> := map[];
    ContainsUpdate(none, CLAUDE_SAFETY_HOOK.event, Arr([]), c);
    ContainsUpdate(none, "hooks", Obj(none[CLAUDE_SAFETY_HOOK.event := Arr([])]), c);
    assert HooksOf(Obj(map[])) == none;
  }

  lemma NestingEntryIsDropped(c: string)
    ensures KeepEntries([NestingEntry(c)], CLAUDE_SAFETY_HOOK) == []
  {
    var item, entry := NestingItem(c), NestingEntry(c);
    assert |"note"| == |"type"| && "note"[0] != "type"[0] && |"note"| != |"command"| && |"type"| != |"command"|;
    assert |"hooks"| != |"matcher"|;
    assert Runs(item, CLAUDE_SAFETY_HOOK.command);
    assert HookItems(entry) == Some([item]) && MatcherOf(entry) == CLAUDE_SAFETY_HOOK.matcher;
    assert [item][1..] == [] && [entry][1..] == [];
    assert KeepItems([item], CLAUDE_SAFETY_HOOK.command) == [];
    assert KeepEntry(entry, CLAUDE_SAFETY_HOOK) == None;
  }

  /** A safety hook that mentions the stop command inside: the second merge adds a hook. */
  lemma NestedCommandBreaksIdempotence(toolFailure: bool)
    ensures var settings := NestingSettings(HARNESS_HOOKS[0].command);
            && Merge(settings, toolFailure).Done?
            && var once := Merge(settings, toolFailure).root;
               Merge(once, toolFailure) != Done(once, [], false, false)
  {
    var stop := HARNESS_HOOKS[0];
    var settings := NestingSettings(stop.command);
    var bare: Json := Obj(map[]);
    forall h | h in Required(toolFailure) ensures Pushable(settings, h.event) {
      EntriesAfterSet(bare, CLAUDE_SAFETY_HOOK.event, [NestingEntry(stop.command)], h.event);
      assert Pushable(bare, h.event);
    }
    WellShapedMerges(settings, toolFailure);
    MergeIsIdempotentIff(settings, toolFailure);
    NestedCommandIsStripped(stop.command, toolFailure);
    StopIsNotClaudeOnly(toolFailure);
    assert stop in HARNESS_HOOKS && !HookSurvives(settings, toolFailure, stop);
  }

  lemma StopIsNotClaudeOnly(toolFailure: bool)
    ensures !ClaudeInstalls("zirv ctx hook stop", toolFailure)
  {
  }

  // ---------------------------------------------------- what survives

  /** One hook of a document: the matcher of its entry and the hook itself. */
  datatype Placed = Placed(matcher: Option<string>, item: Json)

  function ItemsOf(matcher: Option<string>, items: seq<Json>): seq<Placed> {
    if items == [] then [] else [Placed(matcher, items[0])] + ItemsOf(matcher, items[1..])
  }

  /** The hooks of an event in document order. */
  function Listed(entries: seq<Json>): seq<Placed> {
    if entries == [] then []
    else
      (if HookItems(entries[0]).Some? then ItemsOf(MatcherOf(entries[0]), HookItems(entries[0]).value) else []) +
      Listed(entries[1..])
  }

  function HooksAt(settings: Json, event: string): seq<Placed> {
    Listed(EntriesOrNone(settings, event))
  }

  predicate Retires(hook: Hook, event: string, p: Placed) {
    event == hook.event && p.matcher == hook.matcher && Runs(p.item, hook.command)
  }

  function Without(ps: seq<Placed>, hook: Hook, event: string): seq<Placed> {
    if ps == [] then []
    else (if Retires(hook, event, ps[0]) then [] else [ps[0]]) + Without(ps[1..], hook, event)
  }

  lemma {:induction false} WithoutAppend(a: seq<Placed>, b: seq<Placed>, hook: Hook, event: string)
    ensures Without(a + b, hook, event) == Without(a, hook, event) + Without(b, hook, event)
  {
    if a == [] {
      assert a + b == b;
    } else {
      assert (a + b)[1..] == a[1..] + b;
      WithoutAppend(a[1..], b, hook, event);
    }
  }

  lemma {:induction false} WithoutNothing(ps: seq<Placed>, hook: Hook, event: string)
    requires forall p | p in ps :: !Retires(hook, event, p)
    ensures Without(ps, hook, event) == ps
  {
    if ps != [] {
      WithoutNothing(ps[1..], hook, event);
    }
  }

  lemma {:induction false} ItemsWithout(matcher: Option<string>, items: seq<Json>, hook: Hook)
    requires matcher == hook.matcher
    ensures ItemsOf(matcher, KeepItems(items, hook.command)) == Without(ItemsOf(matcher, items), hook, hook.event)
  {
    if items != [] {
      ItemsWithout(matcher, items[1..], hook);
      var kept := KeepItems(items[1..], hook.command);
      assert [] + kept == kept && ([items[0]] + kept)[1..] == kept;
      var placed := ItemsOf(matcher, items);
      assert placed[1..] == ItemsOf(matcher, items[1..]);
    }
  }

  lemma {:induction false} ItemsMembers(matcher: Option<string>, items: seq<Json>)
    ensures forall p | p in ItemsOf(matcher, items) :: p.matcher == matcher && p.item in items
  {
    if items != [] {
      ItemsMembers(matcher, items[1..]);
    }
  }

  lemma {:induction false} ListedAppend(a: seq<Json>, b: seq<Json>)
    ensures Listed(a + b) == Listed(a) + Listed(b)
  {
    if a == [] {
      assert a + b == b;
    } else {
      var all := a + b;
      assert all[0] == a[0] && all[1..] == a[1..] + b;
      ListedAppend(a[1..], b);
      ListedCons(all);
      ListedCons(a);
    }
  }

  lemma {:induction false} ListedCons(entries: seq<Json>)
    requires entries != []
    ensures Listed(entries) == Listed([entries[0]]) + Listed(entries[1..])
  {
    assert [entries[0]][1..] == [];
  }

  lemma EntryWithout(entry: Json, hook: Hook)
    ensures var left := KeepEntry(entry, hook);
            Listed(if left.Some? then [left.value] else []) == Without(Listed([entry]), hook, hook.event)
  {
    assert [entry][1..] == [];
    if HookItems(entry).Some? {
      var items, matcher := HookItems(entry).value, MatcherOf(entry);
      ItemsMembers(matcher, items);
      assert Listed([entry]) == ItemsOf(matcher, items);
      if matcher != hook.matcher {
        WithoutNothing(Listed([entry]), hook, hook.event);
      } else {
        ItemsWithout(matcher, items, hook);
        var kept := KeepItems(items, hook.command);
        if kept != [] {
          var trimmed := Obj(entry.members["hooks" := Arr(kept)]);
          assert "hooks" != "matcher" by { assert |"hooks"| != |"matcher"|; }
          assert [trimmed][1..] == [];
          assert HookItems(trimmed) == Some(kept) && MatcherOf(trimmed) == matcher;
        }
      }
    }
  }

  lemma {:induction false} EntriesWithout(entries: seq<Json>, hook: Hook)
    ensures Listed(KeepEntries(entries, hook)) == Without(Listed(entries), hook, hook.event)
  {
    if entries != [] {
      var first, rest := KeepEntry(entries[0], hook), entries[1..];
      assert entries == [entries[0]] + rest;
      EntriesWithout(rest, hook);
      EntryWithout(entries[0], hook);
      ListedAppend([entries[0]], rest);
      ListedAppend(if first.Some? then [first.value] else [], KeepEntries(rest, hook));
      WithoutAppend(Listed([entries[0]]), Listed(rest), hook, hook.event);
    }
  }

  /** Removing takes out the retired hook and leaves every other one in order. */
  lemma HooksAfterRemoval(settings: Json, hook: Hook, event: string)
    ensures HooksAt(Removed(settings, hook), event) == Without(HooksAt(settings, event), hook, event)
  {
    if Entries(settings, hook.event).Some? {
      var entries := Entries(settings, hook.event).value;
      EntriesAfterSet(settings, hook.event, KeepEntries(entries, hook), event);
      EntriesWithout(entries, hook);
    }
    if event != hook.event || Entries(settings, hook.event).None? {
      WithoutNothing(HooksAt(settings, event), hook, event);
    }
  }

  function PushedAt(hooks: seq<Hook>, event: string): seq<Placed> {
    if hooks == [] then []
    else
      (if hooks[0].event == event then [Placed(hooks[0].matcher, ItemFor(hooks[0].command))] else []) +
      PushedAt(hooks[1..], event)
  }

  lemma HooksAfterPush(settings: Json, hook: Hook, event: string)
    requires settings.Obj?
    ensures HooksAt(Pushed(settings, hook), event) == HooksAt(settings, event) + PushedAt([hook], event)
  {
    var entries := EntriesOrNone(settings, hook.event);
    EntriesAfterSet(settings, hook.event, entries + [EntryFor(hook)], event);
    assert [hook][1..] == [];
    if event == hook.event {
      NewEntryIsLive(hook);
      ListedAppend(entries, [EntryFor(hook)]);
      assert [EntryFor(hook)][1..] == [] && [ItemFor(hook.command)][1..] == [];
      var items := [ItemFor(hook.command)];
      assert ItemsOf(hook.matcher, items) == [Placed(hook.matcher, items[0])] + ItemsOf(hook.matcher, items[1..]);
      assert Listed([EntryFor(hook)]) == [Placed(hook.matcher, ItemFor(hook.command))];
    }
  }

  lemma {:induction false} HooksAfterPushes(settings: Json, hooks: seq<Hook>, event: string)
    requires settings.Obj?
    ensures HooksAt(PushAll(settings, hooks), event) == HooksAt(settings, event) + PushedAt(hooks, event)
    decreases hooks
  {
    if hooks != [] {
      HooksAfterPush(settings, hooks[0], event);
      HooksAfterPushes(Pushed(settings, hooks[0]), hooks[1..], event);
      assert [hooks[0]][1..] == [];
    }
  }

  /**
   For every event: the hooks that were there, in order and under their own
   matchers, less the retired ones at their exact slots, then the added ones.
   */
  lemma OtherHooksSurvive(settings: Json, toolFailure: bool, event: string)
    requires Merge(settings, toolFailure).Done?
    ensures var r := Merge(settings, toolFailure);
            var then_ := HooksAt(settings, event);
            var kept := if toolFailure then then_ else Without(then_, CLAUDE_TOOL_FAILURE_HOOK, event);
            HooksAt(r.root, event) == Without(kept, CLAUDE_SAFETY_HOOK, event) + PushedAt(r.added, event)
  {
    MergeShape(settings, toolFailure);
    var r, base := Merge(settings, toolFailure), Stripped(settings, toolFailure);
    var trimmed := MaybeRemoved(settings, CLAUDE_TOOL_FAILURE_HOOK, !toolFailure);
    HooksAfterRemoval(settings, CLAUDE_TOOL_FAILURE_HOOK, event);
    HooksAfterRemoval(trimmed, CLAUDE_SAFETY_HOOK, event);
    HooksAfterPushes(base, r.added, event);
    StatusLineKeepsHooks(PushAll(base, r.added), event, "");
  }

  /** Nothing outside the hooks and the status line is touched. */
  lemma OtherKeysSurvive(settings: Json, toolFailure: bool, k: string)
    requires Merge(settings, toolFailure).Done? && k != "hooks" && k != "statusLine"
    ensures Get(Merge(settings, toolFailure).root, k) == Get(settings, k)
  {
    MergeShape(settings, toolFailure);
    RemovedKeepsKeys(settings, CLAUDE_TOOL_FAILURE_HOOK);
    RemovedKeepsKeys(MaybeRemoved(settings, CLAUDE_TOOL_FAILURE_HOOK, !toolFailure), CLAUDE_SAFETY_HOOK);
    PushesKeepKeys(Stripped(settings, toolFailure), Merge(settings, toolFailure).added);
  }

  lemma {:induction false} PushesKeepKeys(s: Json, hooks: seq<Hook>)
    requires s.Obj?
    ensures PushAll(s, hooks).Obj?
    ensures forall k :: k != "hooks" ==> Get(PushAll(s, hooks), k) == Get(s, k)
    decreases hooks
  {
    if hooks != [] {
      PushesKeepKeys(Pushed(s, hooks[0]), hooks[1..]);
    }
  }
}
