/** Merging harness hooks into a settings document, in place. */
module Hooks {
  import opened Wrappers

  datatype Json =
    | Null
    | Bool(b: bool)
    | Number(text: string)
    | Str(s: string)
    | Arr(items: seq<Json>)
    | Obj(members: map<string, Json>)

  /** Where a hook lives and what it runs: event, matcher, command. */
  datatype Hook = Hook(event: string, matcher: Option<string>, command: string)

  function Get(v: Json, key: string): Option<Json> {
    if v.Obj? && key in v.members then Some(v.members[key]) else None
  }

  /** `command` occurs as some object's "command" anywhere in the tree. */
  predicate ContainsCommand(v: Json, command: string) {
    match v
    case Obj(members) =>
      Get(v, "command") == Some(Str(command)) ||
      exists k | k in members :: ContainsCommand(members[k], command)
    case Arr(items) => exists i | 0 <= i < |items| :: ContainsCommand(items[i], command)
    case _ => false
  }

  /** The entries of one event, if the document has an array there. */
  function Entries(settings: Json, event: string): Option<seq<Json>> {
    var hooks := Get(settings, "hooks");
    if hooks.Some? && Get(hooks.value, event).Some? && Get(hooks.value, event).value.Arr?
    then Some(Get(hooks.value, event).value.items)
    else None
  }

  function EntriesOrNone(settings: Json, event: string): seq<Json> {
    if Entries(settings, event).Some? then Entries(settings, event).value else []
  }

  function MatcherOf(entry: Json): Option<string> {
    var m := Get(entry, "matcher");
    if m.Some? && m.value.Str? then Some(m.value.s) else None
  }

  function HookItems(entry: Json): Option<seq<Json>> {
    var hooks := Get(entry, "hooks");
    if hooks.Some? && hooks.value.Arr? then Some(hooks.value.items) else None
  }

  predicate Runs(item: Json, command: string) {
    Get(item, "type") == Some(Str("command")) && Get(item, "command") == Some(Str(command))
  }

  predicate EntryLive(entry: Json, hook: Hook) {
    && MatcherOf(entry) == hook.matcher && HookItems(entry).Some?
    && exists j | 0 <= j < |HookItems(entry).value| :: Runs(HookItems(entry).value[j], hook.command)
  }

  predicate CommandLiveAtSlot(settings: Json, hook: Hook) {
    var entries := EntriesOrNone(settings, hook.event);
    exists i | 0 <= i < |entries| :: EntryLive(entries[i], hook)
  }

  // ------------------------------------------------------------ pushing

  predicate Pushable(settings: Json, event: string) {
    && settings.Obj?
    && ("hooks" in settings.members ==>
          settings.members["hooks"].Obj? &&
          (event in settings.members["hooks"].members ==> settings.members["hooks"].members[event].Arr?))
  }

  function HooksOf(settings: Json): map<string, Json> {
    var hooks := Get(settings, "hooks");
    if hooks.Some? && hooks.value.Obj? then hooks.value.members else map[]
  }

  function SetEntries(settings: Json, event: string, entries: seq<Json>): Json
    requires settings.Obj?
  {
    Obj(settings.members["hooks" := Obj(HooksOf(settings)[event := Arr(entries)])])
  }

  function ItemFor(command: string): Json {
    Obj(map["type" := Str("command"), "command" := Str(command)])
  }

  function EntryFor(hook: Hook): Json {
    var bare := map["hooks" := Arr([ItemFor(hook.command)])];
    Obj(if hook.matcher.Some? then bare["matcher" := Str(hook.matcher.value)] else bare)
  }

  function Pushed(settings: Json, hook: Hook): Json
    requires settings.Obj?
  {
    SetEntries(settings, hook.event, EntriesOrNone(settings, hook.event) + [EntryFor(hook)])
  }

  lemma EntriesAfterSet(settings: Json, event: string, entries: seq<Json>, other: string)
    requires settings.Obj?
    ensures Entries(SetEntries(settings, event, entries), other) ==
            if other == event then Some(entries) else Entries(settings, other)
    ensures forall k :: k != "hooks" ==> Get(SetEntries(settings, event, entries), k) == Get(settings, k)
    ensures Pushable(settings, other) ==> Pushable(SetEntries(settings, event, entries), other)
  {
  }

  lemma NewEntryIsLive(hook: Hook)
    ensures MatcherOf(EntryFor(hook)) == hook.matcher
    ensures HookItems(EntryFor(hook)) == Some([ItemFor(hook.command)])
    ensures EntryLive(EntryFor(hook), hook)
    ensures forall c :: Runs(ItemFor(hook.command), c) <==> c == hook.command
  {
    var entry := EntryFor(hook);
    assert "matcher" != "hooks" by { assert |"matcher"| != |"hooks"|; }
    assert HookItems(entry) == Some([ItemFor(hook.command)]);
    var item := ItemFor(hook.command);
    assert "type" != "command" by { assert |"type"| != |"command"|; }
    assert Runs(HookItems(entry).value[0], hook.command);
  }

  lemma NewEntryContains(hook: Hook, command: string)
    ensures ContainsCommand(EntryFor(hook), command) <==> command == hook.command
  {
    var item, entry := ItemFor(hook.command), EntryFor(hook);
    assert |"type"| != |"command"| && |"matcher"| != |"hooks"| && |"hooks"| != |"command"|;
    assert |"matcher"| == |"command"| && "matcher"[0] != "command"[0];
    assert ContainsCommand(item, command) <==> command == hook.command;
    var list := Arr([item]);
    assert list.items[0] == item;
    assert ContainsCommand(list, command) <==> ContainsCommand(item, command);
    assert entry.members["hooks"] == list;
    assert forall k | k in entry.members :: k == "hooks" || k == "matcher";
    assert Get(entry, "command") == None;
  }

  // ----------------------------------------------------------- removing

  function KeepItems(items: seq<Json>, command: string): seq<Json> {
    if items == [] then []
    else (if Runs(items[0], command) then [] else [items[0]]) + KeepItems(items[1..], command)
  }

  /** What `retain_mut` makes of one entry; `None` when it drops it. */
  function KeepEntry(entry: Json, hook: Hook): Option<Json> {
    if MatcherOf(entry) != hook.matcher || HookItems(entry).None? then Some(entry)
    else
      var kept := KeepItems(HookItems(entry).value, hook.command);
      if kept == [] then None else Some(Obj(entry.members["hooks" := Arr(kept)]))
  }

  /** An entry with another hook list has that list, and the matcher it had. */
  lemma WithItems(entry: Json, items: seq<Json>)
    requires entry.Obj?
    ensures var trimmed := Obj(entry.members["hooks" := Arr(items)]);
            HookItems(trimmed) == Some(items) && MatcherOf(trimmed) == MatcherOf(entry)
  {
    assert "hooks" != "matcher" by { assert |"hooks"| != |"matcher"|; }
  }

  function KeepEntries(entries: seq<Json>, hook: Hook): seq<Json> {
    if entries == [] then []
    else
      var first := KeepEntry(entries[0], hook);
      (if first.Some? then [first.value] else []) + KeepEntries(entries[1..], hook)
  }

  function Removed(settings: Json, hook: Hook): Json {
    if Entries(settings, hook.event).None? then settings
    else SetEntries(settings, hook.event, KeepEntries(Entries(settings, hook.event).value, hook))
  }

  lemma {:induction false} KeepItemsFacts(items: seq<Json>, command: string)
    ensures forall x :: x in KeepItems(items, command) <==> x in items && !Runs(x, command)
    ensures |KeepItems(items, command)| <= |items|
    ensures KeepItems(items, command) == items <==> |KeepItems(items, command)| == |items|
    ensures KeepItems(items, command) == items <==> forall x | x in items :: !Runs(x, command)
  {
    if items != [] {
      KeepItemsFacts(items[1..], command);
      assert items == [items[0]] + items[1..];
    }
  }

  /** Only command hooks that run the very command are cut; whatever else is in the list stays. */
  lemma OnlyOwnCommandsAreCut(items: seq<Json>, command: string, x: Json)
    requires x in items
    ensures x !in KeepItems(items, command) <==>
              Get(x, "type") == Some(Str("command")) && Get(x, "command") == Some(Str(command))
  {
    KeepItemsFacts(items, command);
  }

  lemma {:induction false} KeepItemsAppend(a: seq<Json>, b: seq<Json>, command: string)
    ensures KeepItems(a + b, command) == KeepItems(a, command) + KeepItems(b, command)
  {
    if a == [] {
      assert a + b == b;
    } else {
      assert (a + b)[1..] == a[1..] + b;
      KeepItemsAppend(a[1..], b, command);
    }
  }

  lemma {:induction false} KeepEntriesAppend(a: seq<Json>, b: seq<Json>, hook: Hook)
    ensures KeepEntries(a + b, hook) == KeepEntries(a, hook) + KeepEntries(b, hook)
  {
    if a == [] {
      assert a + b == b;
    } else {
      assert (a + b)[1..] == a[1..] + b;
      KeepEntriesAppend(a[1..], b, hook);
    }
  }

  /** An entry left alone: another slot, no hook list, or a list that holds only other hooks. */
  predicate Untouched(entry: Json, hook: Hook) {
    MatcherOf(entry) == hook.matcher && HookItems(entry).Some? ==>
      HookItems(entry).value != [] && forall x | x in HookItems(entry).value :: !Runs(x, hook.command)
  }

  lemma KeptEntryIsUntouched(entry: Json, hook: Hook)
    ensures KeepEntry(entry, hook) == Some(entry) <==> Untouched(entry, hook)
    ensures KeepEntry(entry, hook).Some? ==> Untouched(KeepEntry(entry, hook).value, hook)
  {
    if MatcherOf(entry) == hook.matcher && HookItems(entry).Some? {
      var items := HookItems(entry).value;
      KeepItemsFacts(items, hook.command);
      var kept := KeepItems(items, hook.command);
      if kept != [] {
        var trimmed := Obj(entry.members["hooks" := Arr(kept)]);
        assert "hooks" != "matcher" by { assert |"hooks"| != |"matcher"|; }
        assert HookItems(trimmed) == Some(kept) && MatcherOf(trimmed) == MatcherOf(entry);
        if kept == items {
          assert trimmed.members == entry.members;
        }
      }
    }
  }

  lemma {:induction false} KeepEntriesUntouched(entries: seq<Json>, hook: Hook)
    ensures |KeepEntries(entries, hook)| <= |entries|
    ensures KeepEntries(entries, hook) == entries <==> forall e | e in entries :: Untouched(e, hook)
    ensures forall e | e in KeepEntries(entries, hook) :: Untouched(e, hook)
  {
    if entries != [] {
      KeepEntriesUntouched(entries[1..], hook);
      KeptEntryIsUntouched(entries[0], hook);
      assert entries == [entries[0]] + entries[1..];
    }
  }

  lemma SetSame(settings: Json, event: string)
    requires Entries(settings, event).Some?
    ensures SetEntries(settings, event, Entries(settings, event).value) == settings
  {
    var hooks := HooksOf(settings);
    assert hooks[event := Arr(Entries(settings, event).value)] == hooks;
    assert settings.members["hooks" := Obj(hooks)] == settings.members;
  }

  /** The slot holds neither the command nor a matching entry without hooks. */
  ghost predicate SlotClean(settings: Json, hook: Hook) {
    forall e | e in EntriesOrNone(settings, hook.event) :: Untouched(e, hook)
  }

  /** Removing cleans the slot, and changes nothing exactly when it was clean. */
  lemma RemovedCleansTheSlot(settings: Json, hook: Hook)
    ensures SlotClean(Removed(settings, hook), hook)
    ensures Removed(settings, hook) == settings <==> SlotClean(settings, hook)
  {
    if Entries(settings, hook.event).Some? {
      var entries := Entries(settings, hook.event).value;
      KeepEntriesUntouched(entries, hook);
      EntriesAfterSet(settings, hook.event, KeepEntries(entries, hook), hook.event);
      SetSame(settings, hook.event);
    }
  }

  /** Whether the removal reports that it removed something. */
  predicate RemovesAny(settings: Json, hook: Hook) {
    CommandLiveAtSlot(settings, hook)
  }

  /**
   "Nothing removed" means "nothing changed" exactly when the slot has no
   matching entry whose hook list is already empty.
   */
  lemma FalseMeansUnchangedIff(settings: Json, hook: Hook)
    requires !RemovesAny(settings, hook)
    ensures Removed(settings, hook) == settings <==>
            forall e | e in EntriesOrNone(settings, hook.event) ::
              !(MatcherOf(e) == hook.matcher && HookItems(e) == Some([]))
  {
    RemovedCleansTheSlot(settings, hook);
    var entries := EntriesOrNone(settings, hook.event);
    forall e | e in entries
      ensures Untouched(e, hook) <==> !(MatcherOf(e) == hook.matcher && HookItems(e) == Some([]))
    {
      var i :| 0 <= i < |entries| && entries[i] == e;
      assert !EntryLive(entries[i], hook);
    }
  }

  /** A matching entry without hooks goes although the removal reports nothing. */
  lemma EmptyEntryIsDroppedSilently(hook: Hook)
    ensures var empty := Obj(map["hooks" := Arr([])]);
            var entry := if hook.matcher.Some? then Obj(empty.members["matcher" := Str(hook.matcher.value)]) else empty;
            var settings := SetEntries(Obj(map[]), hook.event, [entry]);
            !RemovesAny(settings, hook) && EntriesOrNone(Removed(settings, hook), hook.event) == []
  {
    var empty := Obj(map["hooks" := Arr([])]);
    var entry := if hook.matcher.Some? then Obj(empty.members["matcher" := Str(hook.matcher.value)]) else empty;
    assert "hooks" != "matcher" by { assert |"hooks"| != |"matcher"|; }
    assert HookItems(entry) == Some([]) && MatcherOf(entry) == hook.matcher;
    assert KeepEntry(entry, hook) == None;
    assert [entry][1..] == [];
    assert KeepEntries([entry], hook) == [];
    EntriesAfterSet(Obj(map[]), hook.event, [entry], hook.event);
    var settings := SetEntries(Obj(map[]), hook.event, [entry]);
    EntriesAfterSet(settings, hook.event, [], hook.event);
  }
}
