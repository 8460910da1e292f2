/** What merging the Claude hooks guarantees, for every settings document. */
module HookLaws {
  import opened Wrappers
  import opened Hooks
  import opened HookInstall

  // ------------------------------------------- commands under an update

  lemma ContainsUpdate(m: map<string, Json>, k: string, v: Json, c: string)
    requires !v.Str?
    ensures ContainsCommand(Obj(m[k := v]), c) <==> ContainsCommand(Obj(m[k := Null]), c) || ContainsCommand(v, c)
    ensures k !in m ==>
              (ContainsCommand(Obj(m[k := v]), c) <==> ContainsCommand(Obj(m), c) || ContainsCommand(v, c))
  {
    var x, y, z := m[k := v], m[k := Null], m;
    assert x[k] == v && y[k] == Null;
    assert forall j | j in x && j != k :: j in y && j in z && x[j] == y[j] == z[j];
    assert forall j | j in y && j != k :: j in x && x[j] == y[j];
    assert k !in m ==> forall j | j in z :: j in x && x[j] == z[j];
  }

  lemma ContainsList(entries: seq<Json>, c: string)
    ensures ContainsCommand(Arr(entries), c) <==> exists i | 0 <= i < |entries| :: ContainsCommand(entries[i], c)
    ensures !ContainsCommand(Arr([]), c)
  {
  }

  /** The command occurs somewhere other than among the entries of `event`. */
  ghost predicate Elsewhere(settings: Json, event: string, c: string)
    requires settings.Obj?
  {
    ContainsCommand(SetEntries(settings, event, []), c)
  }

  lemma ContainsSetEntries(settings: Json, event: string, entries: seq<Json>, c: string)
    requires settings.Obj?
    ensures ContainsCommand(SetEntries(settings, event, entries), c) <==>
            Elsewhere(settings, event, c) || ContainsCommand(Arr(entries), c)
  {
    var m, h := settings.members, HooksOf(settings);
    ContainsList([], c);
    ContainsUpdate(h, event, Arr(entries), c);
    ContainsUpdate(h, event, Arr([]), c);
    ContainsUpdate(m, "hooks", Obj(h[event := Arr(entries)]), c);
    ContainsUpdate(m, "hooks", Obj(h[event := Arr([])]), c);
  }

  lemma ContainsUnset(settings: Json, event: string, c: string)
    requires Pushable(settings, event)
    ensures ContainsCommand(settings, c) <==>
            Elsewhere(settings, event, c) || ContainsCommand(Arr(EntriesOrNone(settings, event)), c)
  {
    var m, h := settings.members, HooksOf(settings);
    if Entries(settings, event).Some? {
      SetSame(settings, event);
      ContainsSetEntries(settings, event, EntriesOrNone(settings, event), c);
    } else {
      ContainsList([], c);
      ContainsUpdate(h, event, Arr([]), c);
      ContainsUpdate(m, "hooks", Obj(h[event := Arr([])]), c);
      if "hooks" in m {
        assert m == m["hooks" := Obj(h)];
        ContainsUpdate(m, "hooks", Obj(h), c);
      } else {
        assert h == map[];
        assert !ContainsCommand(Obj(h), c);
      }
    }
  }

  lemma ContainsPushed(settings: Json, hook: Hook, c: string)
    requires Pushable(settings, hook.event)
    ensures ContainsCommand(Pushed(settings, hook), c) <==> ContainsCommand(settings, c) || c == hook.command
  {
    var entries, entry := EntriesOrNone(settings, hook.event), EntryFor(hook);
    ContainsUnset(settings, hook.event, c);
    ContainsSetEntries(settings, hook.event, entries + [entry], c);
    ContainsList(entries, c);
    ContainsList(entries + [entry], c);
    NewEntryContains(hook, c);
    assert (entries + [entry])[|entries|] == entry;
    assert forall i | 0 <= i < |entries| :: (entries + [entry])[i] == entries[i];
  }

  lemma LivePushed(settings: Json, hook: Hook, other: Hook)
    requires settings.Obj?
    ensures CommandLiveAtSlot(settings, other) ==> CommandLiveAtSlot(Pushed(settings, hook), other)
    ensures CommandLiveAtSlot(Pushed(settings, hook), hook)
  {
    var entries := EntriesOrNone(settings, hook.event);
    var grown := entries + [EntryFor(hook)];
    EntriesAfterSet(settings, hook.event, grown, other.event);
    EntriesAfterSet(settings, hook.event, grown, hook.event);
    NewEntryIsLive(hook);
    assert grown[|entries|] == EntryFor(hook);
    assert EntriesOrNone(Pushed(settings, hook), hook.event) == grown;
    if CommandLiveAtSlot(settings, other) && other.event == hook.event {
      var i :| 0 <= i < |entries| && EntryLive(entries[i], other);
      assert grown[i] == entries[i];
    }
  }

  /** A live hook is contained. */
  lemma LiveIsContained(settings: Json, hook: Hook)
    requires CommandLiveAtSlot(settings, hook)
    ensures ContainsCommand(settings, hook.command)
  {
    var entries := EntriesOrNone(settings, hook.event);
    var i :| 0 <= i < |entries| && EntryLive(entries[i], hook);
    var items := HookItems(entries[i]).value;
    var j :| 0 <= j < |items| && Runs(items[j], hook.command);
    assert ContainsCommand(items[j], hook.command);
    assert ContainsCommand(Arr(items), hook.command);
    assert entries[i].members["hooks"] == Arr(items);
    assert ContainsCommand(entries[i], hook.command);
    assert ContainsCommand(Arr(entries), hook.command);
    var hooks := settings.members["hooks"];
    assert hooks.members[hook.event] == Arr(entries);
    assert ContainsCommand(hooks, hook.command);
  }

  // ----------------------------------------------- removal versus pushes

  lemma SetTwice(s: Json, e1: string, a: seq<Json>, e2: string, b: seq<Json>)
    requires s.Obj?
    ensures SetEntries(SetEntries(s, e1, a), e2, b) ==
            Obj(s.members["hooks" := Obj(HooksOf(s)[e1 := Arr(a)][e2 := Arr(b)])])
  {
  }

  lemma SetCommutes(s: Json, e1: string, a: seq<Json>, e2: string, b: seq<Json>)
    requires s.Obj? && e1 != e2
    ensures SetEntries(SetEntries(s, e1, a), e2, b) == SetEntries(SetEntries(s, e2, b), e1, a)
  {
    SetTwice(s, e1, a, e2, b);
    SetTwice(s, e2, b, e1, a);
    var h := HooksOf(s);
    assert h[e1 := Arr(a)][e2 := Arr(b)] == h[e2 := Arr(b)][e1 := Arr(a)];
  }

  lemma SetOverwrites(s: Json, e: string, a: seq<Json>, b: seq<Json>)
    requires s.Obj?
    ensures SetEntries(SetEntries(s, e, a), e, b) == SetEntries(s, e, b)
  {
    SetTwice(s, e, a, e, b);
    var h := HooksOf(s);
    assert h[e := Arr(a)][e := Arr(b)] == h[e := Arr(b)];
  }

  /** Taking one hook out and pushing another can be done in either order. */
  lemma RemoveCommutes(s: Json, pushed: Hook, removed: Hook)
    requires Pushable(s, pushed.event) && pushed != removed
    ensures Pushable(Removed(s, removed), pushed.event)
    ensures Removed(Pushed(s, pushed), removed) == Pushed(Removed(s, removed), pushed)
  {
    var entry := EntryFor(pushed);
    var mine := EntriesOrNone(s, pushed.event);
    EntriesAfterSet(s, pushed.event, mine + [entry], removed.event);
    if Entries(s, removed.event).Some? {
      var theirs := KeepEntries(Entries(s, removed.event).value, removed);
      EntriesAfterSet(s, removed.event, theirs, pushed.event);
    }
    if pushed.event != removed.event {
      if Entries(s, removed.event).Some? {
        var kept := KeepEntries(Entries(s, removed.event).value, removed);
        SetCommutes(s, pushed.event, mine + [entry], removed.event, kept);
      }
    } else {
      NewEntryIsLive(pushed);
      assert Untouched(entry, removed);
      KeptEntryIsUntouched(entry, removed);
      KeepEntriesAppend(mine, [entry], removed);
      assert [entry][1..] == [];
      assert KeepEntries([entry], removed) == [entry];
      assert KeepEntries(mine + [entry], removed) == KeepEntries(mine, removed) + [entry];
      SetOverwrites(s, pushed.event, mine + [entry], KeepEntries(mine, removed) + [entry]);
      SetOverwrites(s, pushed.event, KeepEntries(mine, removed), KeepEntries(mine, removed) + [entry]);
    }
  }

  /** Removing one hook leaves every other hook live. */
  lemma LiveAfterRemoval(s: Json, removed: Hook, other: Hook)
    requires other != removed && CommandLiveAtSlot(s, other)
    ensures CommandLiveAtSlot(Removed(s, removed), other)
  {
    if Entries(s, removed.event).Some? {
      var entries := Entries(s, removed.event).value;
      EntriesAfterSet(s, removed.event, KeepEntries(entries, removed), other.event);
      if other.event == removed.event {
        assert AnyLive(entries, other);
        LiveAfterKeep(entries, removed, other);
        assert EntriesOrNone(Removed(s, removed), other.event) == KeepEntries(entries, removed);
      }
    }
  }

  ghost predicate AnyLive(entries: seq<Json>, hook: Hook) {
    exists i | 0 <= i < |entries| :: EntryLive(entries[i], hook)
  }

  lemma AnyLiveCons(first: seq<Json>, rest: seq<Json>, hook: Hook)
    requires |first| <= 1
    ensures AnyLive(first + rest, hook) <==> (first != [] && EntryLive(first[0], hook)) || AnyLive(rest, hook)
  {
    var all := first + rest;
    assert forall i | 0 <= i < |rest| :: all[|first| + i] == rest[i];
    if first != [] {
      assert all[0] == first[0];
    }
    if AnyLive(all, hook) {
      var i :| 0 <= i < |all| && EntryLive(all[i], hook);
      assert i >= |first| ==> all[i] == rest[i - |first|];
    }
    if AnyLive(rest, hook) {
      var i :| 0 <= i < |rest| && EntryLive(rest[i], hook);
      assert EntryLive(all[|first| + i], hook);
    }
  }

  lemma {:induction false} LiveAfterKeep(entries: seq<Json>, removed: Hook, other: Hook)
    requires other != removed && other.event == removed.event && AnyLive(entries, other)
    ensures AnyLive(KeepEntries(entries, removed), other)
  {
    var first, rest := entries[0], entries[1..];
    var left := KeepEntry(first, removed);
    assert entries == [first] + rest;
    AnyLiveCons([first], rest, other);
    AnyLiveCons(if left.Some? then [left.value] else [], KeepEntries(rest, removed), other);
    if EntryLive(first, other) {
      EntryLiveAfterKeep(first, removed, other);
    } else {
      LiveAfterKeep(rest, removed, other);
    }
  }

  lemma EntryLiveAfterKeep(entry: Json, removed: Hook, other: Hook)
    requires other != removed && other.event == removed.event && EntryLive(entry, other)
    ensures KeepEntry(entry, removed).Some? && EntryLive(KeepEntry(entry, removed).value, other)
  {
    if MatcherOf(entry) == removed.matcher {
      var items := HookItems(entry).value;
      var kept := KeepItems(items, removed.command);
      StillRuns(items, removed.command, other.command);
      WithItems(entry, kept);
    }
  }

  lemma StillRuns(items: seq<Json>, removed: string, other: string)
    requires removed != other && exists j | 0 <= j < |items| :: Runs(items[j], other)
    ensures exists j | 0 <= j < |KeepItems(items, removed)| :: Runs(KeepItems(items, removed)[j], other)
  {
    var j :| 0 <= j < |items| && Runs(items[j], other);
    KeepItemsFacts(items, removed);
    assert items[j] in KeepItems(items, removed);
  }

  // ------------------------------------------------------- many pushes

  ghost predicate AllPushable(s: Json, hooks: seq<Hook>) {
    s.Obj? && forall h | h in hooks :: Pushable(s, h.event)
  }

  function PushAll(s: Json, hooks: seq<Hook>): Json
    requires s.Obj?
    decreases hooks
  {
    if hooks == [] then s else PushAll(Pushed(s, hooks[0]), hooks[1..])
  }

  lemma StillPushable(s: Json, hook: Hook, hooks: seq<Hook>)
    requires AllPushable(s, hooks)
    ensures AllPushable(Pushed(s, hook), hooks)
  {
  }

  lemma PushableParts(s: Json, hooks: seq<Hook>)
    requires AllPushable(s, hooks) && hooks != []
    ensures Pushable(s, hooks[0].event) && AllPushable(Pushed(s, hooks[0]), hooks[1..])
  {
  }

  lemma {:induction false} ContainsPushAll(s: Json, hooks: seq<Hook>, c: string)
    requires AllPushable(s, hooks)
    ensures ContainsCommand(PushAll(s, hooks), c) <==>
            ContainsCommand(s, c) || exists h | h in hooks :: h.command == c
    decreases hooks
  {
    if hooks != [] {
      PushableParts(s, hooks);
      ContainsPushed(s, hooks[0], c);
      ContainsPushAll(Pushed(s, hooks[0]), hooks[1..], c);
      assert forall h :: h in hooks <==> h == hooks[0] || h in hooks[1..];
    }
  }

  lemma {:induction false} LivePushAll(s: Json, hooks: seq<Hook>, other: Hook)
    requires s.Obj? && CommandLiveAtSlot(s, other)
    ensures CommandLiveAtSlot(PushAll(s, hooks), other)
    decreases hooks
  {
    if hooks != [] {
      LivePushed(s, hooks[0], other);
      LivePushAll(Pushed(s, hooks[0]), hooks[1..], other);
    }
  }

  lemma {:induction false} RemovePastPushes(s: Json, hooks: seq<Hook>, removed: Hook)
    requires AllPushable(s, hooks) && removed !in hooks
    ensures AllPushable(Removed(s, removed), hooks)
    ensures Removed(PushAll(s, hooks), removed) == PushAll(Removed(s, removed), hooks)
    decreases hooks
  {
    forall h | h in hooks ensures Pushable(Removed(s, removed), h.event) {
      RemoveCommutes(s, h, removed);
    }
    RemovedKeepsKeys(s, removed);
    if hooks != [] {
      PushableParts(s, hooks);
      RemoveCommutes(s, hooks[0], removed);
      RemovePastPushes(Pushed(s, hooks[0]), hooks[1..], removed);
    }
  }

  lemma {:induction false} PushAllAppend(s: Json, a: seq<Hook>, b: seq<Hook>)
    requires s.Obj?
    ensures PushAll(s, a).Obj? && PushAll(PushAll(s, a), b) == PushAll(s, a + b)
    decreases a
  {
    if a == [] {
      assert a + b == b;
    } else {
      assert (a + b)[1..] == a[1..] + b;
      PushAllAppend(Pushed(s, a[0]), a[1..], b);
    }
  }

  // ------------------------------------------------- one ensuring pass

  /** `xs` is what is left of `ys` when some of it is skipped. */
  ghost predicate Subsequence(xs: seq<Hook>, ys: seq<Hook>)
    decreases ys
  {
    || xs == []
    || (ys != [] && ((xs[0] == ys[0] && Subsequence(xs[1..], ys[1..])) || Subsequence(xs, ys[1..])))
  }

  lemma {:induction false} SubsequenceAppend(a: seq<Hook>, b: seq<Hook>, x: seq<Hook>, y: seq<Hook>)
    requires Subsequence(a, x) && Subsequence(b, y)
    ensures Subsequence(a + b, x + y)
    decreases x
  {
    if x == [] {
      assert a + b == b && x + y == y;
    } else {
      assert (x + y)[1..] == x[1..] + y;
      if a != [] && a[0] == x[0] && Subsequence(a[1..], x[1..]) {
        assert (a + b)[1..] == a[1..] + b;
        SubsequenceAppend(a[1..], b, x[1..], y);
      } else {
        SubsequenceAppend(a, b, x[1..], y);
      }
    }
  }

  /** A pass pushes missing hooks, each once and in order, after which every hook is there. */
  lemma {:induction false} EnsureAllPushes(s: Json, hooks: seq<Hook>, atSlot: bool)
    requires s.Obj? && EnsureAll(s, hooks, atSlot).Merged?
    ensures var r := EnsureAll(s, hooks, atSlot);
            && AllPushable(s, r.added) && r.root == PushAll(s, r.added)
            && (forall h | h in r.added :: h in hooks && !Present(s, h, atSlot))
            && Subsequence(r.added, hooks)
            && (forall h | h in hooks :: Present(r.root, h, atSlot))
    decreases hooks
  {
    if hooks != [] {
      var first, rest := hooks[0], hooks[1..];
      assert hooks == [first] + rest;
      if Present(s, first, atSlot) {
        EnsureAllPushes(s, rest, atSlot);
        var r := EnsureAll(s, hooks, atSlot);
        StaysPresent(s, r.added, first, atSlot);
      } else {
        var next := Pushed(s, first);
        EnsureAllPushes(next, rest, atSlot);
        var tail := EnsureAll(next, rest, atSlot);
        NowPresent(s, first, atSlot);
        StaysPresent(next, tail.added, first, atSlot);
        forall h | h in tail.added ensures !Present(s, h, atSlot) && Pushable(s, h.event) {
          StaysPresentOnce(s, first, h, atSlot);
          PushableBackwards(s, first, h.event);
        }
        assert ([first] + tail.added)[1..] == tail.added;
      }
    }
  }

  lemma PushableBackwards(s: Json, hook: Hook, event: string)
    requires Pushable(s, hook.event) && Pushable(Pushed(s, hook), event)
    ensures Pushable(s, event)
  {
  }

  lemma NowPresent(s: Json, hook: Hook, atSlot: bool)
    requires Pushable(s, hook.event)
    ensures Present(Pushed(s, hook), hook, atSlot)
  {
    ContainsPushed(s, hook, hook.command);
    LivePushed(s, hook, hook);
  }

  lemma StaysPresentOnce(s: Json, pushed: Hook, hook: Hook, atSlot: bool)
    requires Pushable(s, pushed.event)
    ensures Present(s, hook, atSlot) ==> Present(Pushed(s, pushed), hook, atSlot)
  {
    ContainsPushed(s, pushed, hook.command);
    LivePushed(s, pushed, hook);
  }

  lemma StaysPresent(s: Json, hooks: seq<Hook>, hook: Hook, atSlot: bool)
    requires AllPushable(s, hooks) && Present(s, hook, atSlot)
    ensures Present(PushAll(s, hooks), hook, atSlot)
  {
    if atSlot {
      LivePushAll(s, hooks, hook);
    } else {
      ContainsPushAll(s, hooks, hook.command);
    }
  }

  /** A pass adds nothing exactly when every hook is there already. */
  lemma {:induction false} NothingToAdd(s: Json, hooks: seq<Hook>, atSlot: bool)
    ensures EnsureAll(s, hooks, atSlot) == Merged(s, []) <==> forall h | h in hooks :: Present(s, h, atSlot)
    decreases hooks
  {
    if hooks != [] {
      assert hooks == [hooks[0]] + hooks[1..];
      NothingToAdd(s, hooks[1..], atSlot);
    }
  }
}
