/** What the merge reports about itself, against what it did to the document. */
module HookReports {
  import opened Wrappers
  import opened Hooks
  import opened HookInstall
  import opened HookLaws
  import opened HookGuarantees

  /** Some matching entry at the hook's slot has an empty hook list. */
  predicate HasEmptyEntry(settings: Json, hook: Hook) {
    exists e | e in EntriesOrNone(settings, hook.event) :: MatcherOf(e) == hook.matcher && HookItems(e) == Some([])
  }

  predicate HasEmptyRetired(settings: Json, toolFailure: bool) {
    HasEmptyEntry(settings, CLAUDE_SAFETY_HOOK) || (!toolFailure && HasEmptyEntry(settings, CLAUDE_TOOL_FAILURE_HOOK))
  }

  /** A slot is clean when its hook is not live there and no matching entry is empty. */
  lemma CleanIff(s: Json, hook: Hook)
    ensures SlotClean(s, hook) <==> !RemovesAny(s, hook) && !HasEmptyEntry(s, hook)
  {
    RemovedCleansTheSlot(s, hook);
    if RemovesAny(s, hook) {
      if SlotClean(s, hook) {
        CleanRemovesNothing(s, hook);
      }
    } else {
      FalseMeansUnchangedIff(s, hook);
    }
  }

  /** A push makes no other hook live. */
  lemma PushMakesOneLive(s: Json, pushed: Hook, other: Hook)
    requires s.Obj? && pushed != other
    ensures CommandLiveAtSlot(Pushed(s, pushed), other) <==> CommandLiveAtSlot(s, other)
  {
    var entries, t := EntriesOrNone(s, pushed.event), Pushed(s, pushed);
    var grown := entries + [EntryFor(pushed)];
    EntriesAfterSet(s, pushed.event, grown, other.event);
    assert EntriesOrNone(t, other.event) == if other.event == pushed.event then grown
                                            else EntriesOrNone(s, other.event);
    if pushed.event == other.event {
      NewEntryIsNotOther(pushed, other);
      LastIsNotLive(entries, EntryFor(pushed), other);
    }
    assert CommandLiveAtSlot(t, other) <==> AnyLive(EntriesOrNone(t, other.event), other);
    assert CommandLiveAtSlot(s, other) <==> AnyLive(EntriesOrNone(s, other.event), other);
  }

  lemma NewEntryIsNotOther(pushed: Hook, other: Hook)
    requires pushed != other && pushed.event == other.event
    ensures !EntryLive(EntryFor(pushed), other)
  {
    NewEntryIsLive(pushed);
  }

  lemma LastIsNotLive(entries: seq<Json>, last: Json, other: Hook)
    requires !EntryLive(last, other)
    ensures AnyLive(entries + [last], other) <==> AnyLive(entries, other)
  {
    var more := entries + [last];
    assert forall i | 0 <= i < |entries| :: more[i] == entries[i];
    assert more[|entries|] == last;
  }

  lemma {:induction false} PushesMakeNoOtherLive(s: Json, hooks: seq<Hook>, other: Hook)
    requires s.Obj? && other !in hooks
    ensures PushAll(s, hooks).Obj?
    ensures CommandLiveAtSlot(PushAll(s, hooks), other) <==> CommandLiveAtSlot(s, other)
    decreases hooks
  {
    if hooks != [] {
      PushMakesOneLive(s, hooks[0], other);
      PushesMakeNoOtherLive(Pushed(s, hooks[0]), hooks[1..], other);
    }
  }

  function CountAt(s: Json, event: string): nat {
    |EntriesOrNone(s, event)|
  }

  lemma {:induction false} PushesOnlyAdd(s: Json, hooks: seq<Hook>, event: string)
    requires s.Obj?
    ensures CountAt(PushAll(s, hooks), event) >= CountAt(s, event)
    ensures hooks != [] && hooks[0].event == event ==> CountAt(PushAll(s, hooks), event) > CountAt(s, event)
    decreases hooks
  {
    if hooks != [] {
      var grown := EntriesOrNone(s, hooks[0].event) + [EntryFor(hooks[0])];
      EntriesAfterSet(s, hooks[0].event, grown, event);
      PushesOnlyAdd(Pushed(s, hooks[0]), hooks[1..], event);
    }
  }

  /** A removal is reported exactly when a retired hook was live at its slot before. */
  lemma RemovalsReported(settings: Json, toolFailure: bool)
    requires Merge(settings, toolFailure).Done?
    ensures Merge(settings, toolFailure).removedAny <==>
              RemovesAny(settings, CLAUDE_SAFETY_HOOK) ||
              (!toolFailure && RemovesAny(settings, CLAUDE_TOOL_FAILURE_HOOK))
  {
    RequiredAreNotRetired(toolFailure);
    var s1, first := EnsureAll(settings, HARNESS_HOOKS, false).root, EnsureAll(settings, HARNESS_HOOKS, false).added;
    EnsureAllPushes(settings, HARNESS_HOOKS, false);
    EnsureAllKeepsKeys(settings, HARNESS_HOOKS, false);
    RemovedKeepsKeys(s1, CLAUDE_TOOL_FAILURE_HOOK);
    var s2 := MaybeRemoved(s1, CLAUDE_TOOL_FAILURE_HOOK, !toolFailure);
    var second := EnsureAll(s2, ClaudeOnlyHooks(toolFailure), true).added;
    EnsureAllPushes(s2, ClaudeOnlyHooks(toolFailure), true);
    PushesMakeNoOtherLive(settings, first, CLAUDE_SAFETY_HOOK);
    PushesMakeNoOtherLive(s2, second, CLAUDE_SAFETY_HOOK);
    OtherEventUntouched(s1, CLAUDE_TOOL_FAILURE_HOOK, CLAUDE_SAFETY_HOOK);
    if !toolFailure {
      PushesMakeNoOtherLive(settings, first, CLAUDE_TOOL_FAILURE_HOOK);
    }
  }

  lemma OtherEventUntouched(s: Json, removed: Hook, other: Hook)
    requires removed.event != other.event
    ensures EntriesOrNone(Removed(s, removed), other.event) == EntriesOrNone(s, other.event)
    ensures CommandLiveAtSlot(Removed(s, removed), other) <==> CommandLiveAtSlot(s, other)
  {
    if Entries(s, removed.event).Some? {
      EntriesAfterSet(s, removed.event, KeepEntries(Entries(s, removed.event).value, removed), other.event);
    }
  }

  /** A document without a status line gets one that runs the usage tee; an existing one is kept. */
  lemma StatusLineIsThere(settings: Json, toolFailure: bool)
    requires Merge(settings, toolFailure).Done?
    ensures var r := Merge(settings, toolFailure);
            var line := Get(r.root, "statusLine");
            && (r.statusLineAdded <==> Get(settings, "statusLine").None?)
            && line.Some?
            && (if r.statusLineAdded then Runs(line.value, "zirv ctx usage tee")
                else line == Get(settings, "statusLine"))
  {
    assert |"statusLine"| != |"hooks"| && |"type"| != |"command"|;
    EnsureAllKeepsKeys(settings, HARNESS_HOOKS, false);
    var s1 := EnsureAll(settings, HARNESS_HOOKS, false).root;
    RemovedKeepsKeys(s1, CLAUDE_TOOL_FAILURE_HOOK);
    var s2 := MaybeRemoved(s1, CLAUDE_TOOL_FAILURE_HOOK, !toolFailure);
    EnsureAllKeepsKeys(s2, ClaudeOnlyHooks(toolFailure), true);
    var s3 := EnsureAll(s2, ClaudeOnlyHooks(toolFailure), true).root;
    RemovedKeepsKeys(s3, CLAUDE_SAFETY_HOOK);
    assert Get(Removed(s3, CLAUDE_SAFETY_HOOK), "statusLine") == Get(settings, "statusLine");
  }

  /** The document changes exactly when a hook or the status line is added or a retired slot is not clean. */
  lemma ChangedIff(settings: Json, toolFailure: bool)
    requires Merge(settings, toolFailure).Done?
    ensures var r := Merge(settings, toolFailure);
            r.root != settings <==>
              || r.added != [] || r.statusLineAdded
              || !SlotClean(settings, CLAUDE_SAFETY_HOOK)
              || (!toolFailure && !SlotClean(settings, CLAUDE_TOOL_FAILURE_HOOK))
  {
    var r, base := Merge(settings, toolFailure), Stripped(settings, toolFailure);
    MergeShape(settings, toolFailure);
    StatusLineIsThere(settings, toolFailure);
    MergedSlotsAreClean(settings, toolFailure);
    if SlotClean(settings, CLAUDE_SAFETY_HOOK) && (!toolFailure ==> SlotClean(settings, CLAUDE_TOOL_FAILURE_HOOK)) {
      CleanRemovesNothing(settings, CLAUDE_SAFETY_HOOK);
      if !toolFailure {
        CleanRemovesNothing(settings, CLAUDE_TOOL_FAILURE_HOOK);
      }
      assert base == settings;
      if r.added != [] && !r.statusLineAdded {
        PushesOnlyAdd(settings, r.added, r.added[0].event);
      }
    }
  }

  /**
   Whatever the merge reports, it did. When it reports nothing, and so the file
   is not rewritten, the document is unchanged unless a retired slot has a
   matching entry with no hooks in it.
   */
  lemma ReportsWhatChanged(settings: Json, toolFailure: bool)
    requires Merge(settings, toolFailure).Done?
    ensures var r := Merge(settings, toolFailure);
            && (Reports(r) ==> r.root != settings)
            && (!Reports(r) ==> (r.root == settings <==> !HasEmptyRetired(settings, toolFailure)))
  {
    ChangedIff(settings, toolFailure);
    RemovalsReported(settings, toolFailure);
    CleanIff(settings, CLAUDE_SAFETY_HOOK);
    CleanIff(settings, CLAUDE_TOOL_FAILURE_HOOK);
  }

  // ------------------------------------------- changed and not written

  const EMPTY_SAFETY_ENTRY: Json := Obj(map["matcher" := Str("Bash|PowerShell"), "hooks" := Arr([])])

  /** The document with an entry for the old safety hook that has no hooks in it. */
  function WithEmptyEntry(s: Json): Json
    requires s.Obj?
  {
    SetEntries(s, "PreToolUse", EntriesOrNone(s, "PreToolUse") + [EMPTY_SAFETY_ENTRY])
  }

  lemma EmptyEntryShape()
    ensures MatcherOf(EMPTY_SAFETY_ENTRY) == CLAUDE_SAFETY_HOOK.matcher && HookItems(EMPTY_SAFETY_ENTRY) == Some([])
    ensures forall h: Hook :: !EntryLive(EMPTY_SAFETY_ENTRY, h)
  {
    assert |"matcher"| != |"hooks"|;
  }

  /** The empty entry makes no hook live, and no hook that was live less so. */
  lemma EmptyEntryIsInert(s: Json, h: Hook)
    requires s.Obj?
    ensures CommandLiveAtSlot(WithEmptyEntry(s), h) <==> CommandLiveAtSlot(s, h)
  {
    var entries := EntriesOrNone(s, "PreToolUse");
    var more := entries + [EMPTY_SAFETY_ENTRY];
    EmptyEntryShape();
    EntriesAfterSet(s, "PreToolUse", more, h.event);
    var t := WithEmptyEntry(s);
    assert EntriesOrNone(t, h.event) == if h.event == "PreToolUse" then more else EntriesOrNone(s, h.event);
    LastIsNotLive(entries, EMPTY_SAFETY_ENTRY, h);
    assert CommandLiveAtSlot(t, h) <==> AnyLive(EntriesOrNone(t, h.event), h);
    assert CommandLiveAtSlot(s, h) <==> AnyLive(EntriesOrNone(s, h.event), h);
  }

  /** The tool-failure slot is another event's, and stays as it was. */
  lemma ToolFailureSlotStays(s: Json)
    requires s.Obj? && SlotClean(s, CLAUDE_TOOL_FAILURE_HOOK)
    ensures var t := WithEmptyEntry(s);
            Removed(t, CLAUDE_TOOL_FAILURE_HOOK) == t && !RemovesAny(t, CLAUDE_TOOL_FAILURE_HOOK)
  {
    EntriesAfterSet(
      s, "PreToolUse", EntriesOrNone(s, "PreToolUse") + [EMPTY_SAFETY_ENTRY], CLAUDE_TOOL_FAILURE_HOOK.event);
    CleanRemovesNothing(WithEmptyEntry(s), CLAUDE_TOOL_FAILURE_HOOK);
  }

  /** Every hook stays in place, so there is nothing to add. */
  lemma NothingToAddStill(s: Json, toolFailure: bool)
    requires Pushable(s, "PreToolUse") && forall h | h in HARNESS_HOOKS :: Present(s, h, false)
    requires forall h | h in ClaudeOnlyHooks(toolFailure) :: Present(s, h, true)
    ensures var t := WithEmptyEntry(s);
            && EnsureAll(t, HARNESS_HOOKS, false) == Merged(t, [])
            && EnsureAll(t, ClaudeOnlyHooks(toolFailure), true) == Merged(t, [])
  {
    var t := WithEmptyEntry(s);
    forall h | h in HARNESS_HOOKS ensures Present(t, h, false) {
      EmptyEntryHidesNothing(s, h.command);
    }
    forall h | h in ClaudeOnlyHooks(toolFailure) ensures Present(t, h, true) {
      EmptyEntryIsInert(s, h);
    }
    NothingToAdd(t, HARNESS_HOOKS, false);
    NothingToAdd(t, ClaudeOnlyHooks(toolFailure), true);
  }

  lemma EmptyEntryHidesNothing(s: Json, c: string)
    requires Pushable(s, "PreToolUse") && ContainsCommand(s, c)
    ensures ContainsCommand(WithEmptyEntry(s), c)
  {
    var entries := EntriesOrNone(s, "PreToolUse");
    var more := entries + [EMPTY_SAFETY_ENTRY];
    ContainsUnset(s, "PreToolUse", c);
    ContainsSetEntries(s, "PreToolUse", more, c);
    ContainsList(entries, c);
    ContainsList(more, c);
    assert forall i | 0 <= i < |entries| :: more[i] == entries[i];
  }

  /** A document on which the merge is idle has every hook in place and both retired slots clean. */
  lemma IdleDocument(s: Json, toolFailure: bool)
    requires Merge(s, toolFailure) == Done(s, [], false, false)
    ensures s.Obj? && "statusLine" in s.members
    ensures forall h | h in HARNESS_HOOKS :: Present(s, h, false)
    ensures forall h | h in ClaudeOnlyHooks(toolFailure) :: Present(s, h, true)
    ensures !RemovesAny(s, CLAUDE_SAFETY_HOOK) && Pushable(s, "PreToolUse")
    ensures !toolFailure ==> SlotClean(s, CLAUDE_TOOL_FAILURE_HOOK)
  {
    MergedSlotsAreClean(s, toolFailure);
    CleanRemovesNothing(s, CLAUDE_SAFETY_HOOK);
    StatusLineIsThere(s, toolFailure);
    EnsureAllPushes(s, HARNESS_HOOKS, false);
    assert EnsureAll(s, HARNESS_HOOKS, false).added == [];
    forall h | h in ClaudeOnlyHooks(toolFailure) ensures Present(s, h, true) {
      ClaudeHooksAreLive(s, toolFailure, h);
    }
    assert ClaudeOnlyHooks(toolFailure)[0] == CLAUDE_ONLY_HOOKS[0];
    ClaudeHooksAreLive(s, toolFailure, CLAUDE_ONLY_HOOKS[0]);
  }

  /** An idle document with one empty retired entry: the merge drops the entry, and the file is not rewritten. */
  lemma ChangedAndNotWritten(s: Json, toolFailure: bool)
    requires Merge(s, toolFailure) == Done(s, [], false, false)
    ensures var r := Merge(WithEmptyEntry(s), toolFailure);
            r.Done? && !Reports(r) && r.root != WithEmptyEntry(s)
  {
    IdleDocument(s, toolFailure);
    var t := WithEmptyEntry(s);
    EmptyEntryShape();
    EntriesAfterSet(s, "PreToolUse", EntriesOrNone(s, "PreToolUse") + [EMPTY_SAFETY_ENTRY], "PreToolUse");
    NothingToAddStill(s, toolFailure);
    EmptyEntryIsInert(s, CLAUDE_SAFETY_HOOK);
    assert |"statusLine"| != |"hooks"|;
    if !toolFailure {
      ToolFailureSlotStays(s);
    }
    IdleButForSafety(t, toolFailure);
    assert EntriesOrNone(t, "PreToolUse")[|EntriesOrNone(s, "PreToolUse")|] == EMPTY_SAFETY_ENTRY;
    ReportsWhatChanged(t, toolFailure);
  }

  lemma IdleButForSafety(t: Json, toolFailure: bool)
    requires t.Obj? && "statusLine" in t.members
    requires EnsureAll(t, HARNESS_HOOKS, false) == Merged(t, [])
    requires EnsureAll(t, ClaudeOnlyHooks(toolFailure), true) == Merged(t, [])
    requires !toolFailure ==> Removed(t, CLAUDE_TOOL_FAILURE_HOOK) == t && !RemovesAny(t, CLAUDE_TOOL_FAILURE_HOOK)
    requires !RemovesAny(t, CLAUDE_SAFETY_HOOK)
    ensures Merge(t, toolFailure) == Done(Removed(t, CLAUDE_SAFETY_HOOK), [], false, false)
  {
    RemovedKeepsKeys(t, CLAUDE_SAFETY_HOOK);
  }

  /** Merging into the empty document gives one on which the merge is idle. */
  lemma EmptyDocumentSettles(toolFailure: bool)
    ensures Merge(Obj(map[]), toolFailure).Done?
    ensures var once := Merge(Obj(map[]), toolFailure).root;
            Merge(once, toolFailure) == Done(once, [], false, false)
  {
    WellShapedMerges(Obj(map[]), toolFailure);
    FlatSettingsAreIdempotent(Obj(map[]), toolFailure);
  }
}
