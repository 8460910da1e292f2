/** Installing the Claude hooks: what a merge adds, removes and leaves alone. */
module HookInstall {
  import opened Wrappers
  import opened Hooks

  const HARNESS_HOOKS: seq<Hook> := [
    Hook("Stop", None, "zirv ctx hook stop"),
    Hook("UserPromptSubmit", None, "zirv ctx hook prompt"),
    Hook("PreCompact", None, "zirv ctx hook pre-compact"),
    Hook("PreToolUse", Some("Agent|Task"), "zirv ctx hook pretool")
  ]

  const CLAUDE_SAFETY_HOOK := Hook("PreToolUse", Some("Bash|PowerShell"), "zirv ctx safety check")

  const CLAUDE_TOOL_FAILURE_HOOK := Hook("PostToolUseFailure", None, "zirv ctx hook tool-failure")

  const CLAUDE_ONLY_HOOKS: seq<Hook> := [
    Hook("PreToolUse", Some("Bash|PowerShell|Edit|Write|MultiEdit|NotebookEdit"), "zirv ctx hook pretool"),
    Hook("SessionStart", Some("resume|clear"), "zirv ctx hook session-start"),
    Hook("PostToolUse", Some(".*"), "zirv ctx hook posttool"),
    Hook("PermissionRequest", None, "zirv ctx hook permission"),
    Hook("PermissionDenied", None, "zirv ctx hook permission"),
    Hook("Notification", Some("permission_prompt"), "zirv ctx hook permission"),
    Hook("SubagentStop", None, "zirv ctx hook subagent-stop"),
    Hook("SubagentStart", None, "zirv ctx hook subagent-start")
  ]

  const USAGE_TEE := "zirv ctx usage tee"

  function ClaudeOnlyHooks(toolFailure: bool): seq<Hook> {
    CLAUDE_ONLY_HOOKS + if toolFailure then [CLAUDE_TOOL_FAILURE_HOOK] else []
  }

  // -------------------------------------------------------- one document

  /** A document that cannot take the hook, or the merged one and the hooks pushed. */
  datatype Outcome = Failed | Merged(root: Json, added: seq<Hook>)

  /** How a hook counts as already there: at its own slot, or anywhere in the tree. */
  predicate Present(settings: Json, hook: Hook, atSlot: bool) {
    if atSlot then CommandLiveAtSlot(settings, hook) else ContainsCommand(settings, hook.command)
  }

  function EnsureAll(settings: Json, hooks: seq<Hook>, atSlot: bool): Outcome
    decreases hooks
  {
    if hooks == [] then Merged(settings, [])
    else if Present(settings, hooks[0], atSlot) then EnsureAll(settings, hooks[1..], atSlot)
    else if !Pushable(settings, hooks[0].event) then Failed
    else
      match EnsureAll(Pushed(settings, hooks[0]), hooks[1..], atSlot)
      case Failed => Failed
      case Merged(root, added) => Merged(root, [hooks[0]] + added)
  }

  function WithStatusLine(settings: Json): Json
    requires settings.Obj?
  {
    if "statusLine" in settings.members then settings
    else Obj(settings.members["statusLine" := ItemFor(USAGE_TEE)])
  }

  function MaybeRemoved(settings: Json, hook: Hook, really: bool): Json {
    if really then Removed(settings, hook) else settings
  }

  datatype MergeResult =
    | Refused
    | Done(root: Json, added: seq<Hook>, removedAny: bool, statusLineAdded: bool)

  /** The whole merge: what it makes of the document, and what it reports. */
  function Merge(settings: Json, toolFailure: bool): MergeResult {
    if !settings.Obj? then Refused
    else
      match EnsureAll(settings, HARNESS_HOOKS, false)
      case Failed => Refused
      case Merged(s1, first) =>
        var s2 := MaybeRemoved(s1, CLAUDE_TOOL_FAILURE_HOOK, !toolFailure);
        match EnsureAll(s2, ClaudeOnlyHooks(toolFailure), true)
        case Failed => Refused
        case Merged(s3, second) =>
          var s4 := Removed(s3, CLAUDE_SAFETY_HOOK);
          if !s4.Obj? then Refused
          else
            Done(WithStatusLine(s4), first + second,
                 (!toolFailure && RemovesAny(s1, CLAUDE_TOOL_FAILURE_HOOK)) || RemovesAny(s3, CLAUDE_SAFETY_HOOK),
                 "statusLine" !in s4.members)
  }

  /** Whether the merge reports any work, which is when the file is rewritten. */
  predicate Reports(r: MergeResult) {
    r.Done? && (r.added != [] || r.statusLineAdded || r.removedAny)
  }

  // ----------------------------------------------------- in-place edits

  class Settings {
    var root: Json

    constructor (settings: Json)
      ensures root == settings
    {
      root := settings;
    }

    method PushHarnessHookEntry(hook: Hook) returns (ok: bool)
      modifies this
      ensures ok <==> Pushable(old(root), hook.event)
      ensures root == if ok then Pushed(old(root), hook) else old(root)
    {
      if !root.Obj? {
        return false;
      }
      var hooks := if "hooks" in root.members then root.members["hooks"] else Obj(map[]);
      if !hooks.Obj? {
        return false;
      }
      var entries := if hook.event in hooks.members then hooks.members[hook.event] else Arr([]);
      if !entries.Arr? {
        return false;
      }
      hooks := Obj(hooks.members[hook.event := Arr(entries.items + [EntryFor(hook)])]);
      root := Obj(root.members["hooks" := hooks]);
      ok := true;
    }

    method EnsureHarnessHook(hook: Hook, atSlot: bool) returns (r: Result<bool, string>)
      modifies this
      ensures r.Ok? <==> Present(old(root), hook, atSlot) || Pushable(old(root), hook.event)
      ensures r.Ok? ==> r.value == !Present(old(root), hook, atSlot)
      ensures root == if r == Ok(true) then Pushed(old(root), hook) else old(root)
    {
      if Present(root, hook, atSlot) {
        return Ok(false);
      }
      var ok := PushHarnessHookEntry(hook);
      r := if ok then Ok(true) else Err(hook.event);
    }

    method EnsureHooks(hooks: seq<Hook>, atSlot: bool) returns (r: Result<nat, string>)
      modifies this
      ensures r.Ok? <==> EnsureAll(old(root), hooks, atSlot).Merged?
      ensures r.Ok? ==> Merged(root, EnsureAll(old(root), hooks, atSlot).added) == EnsureAll(old(root), hooks, atSlot)
      ensures r.Ok? ==> r.value == |EnsureAll(old(root), hooks, atSlot).added|
    {
      ghost var goal := EnsureAll(root, hooks, atSlot);
      var count := 0;
      var i := 0;
      while i < |hooks|
        invariant 0 <= i <= |hooks|
        invariant EnsureAll(root, hooks[i..], atSlot).Merged? <==> goal.Merged?
        invariant goal.Merged? ==> goal.root == EnsureAll(root, hooks[i..], atSlot).root
        invariant goal.Merged? ==> |goal.added| == count + |EnsureAll(root, hooks[i..], atSlot).added|
      {
        assert hooks[i..][0] == hooks[i] && hooks[i..][1..] == hooks[i + 1..];
        var added := EnsureHarnessHook(hooks[i], atSlot);
        if added.Err? {
          return Err(added.error);
        }
        if added.value {
          count := count + 1;
        }
        i := i + 1;
      }
      r := Ok(count);
    }

    /** `retain` on the hook lists, dropping entries whose list ends up empty. */
    method RemoveHarnessHookAtSlot(hook: Hook) returns (removed: bool)
      modifies this
      ensures root == Removed(old(root), hook)
      ensures removed <==> RemovesAny(old(root), hook)
    {
      removed := false;
      if Entries(root, hook.event).None? {
        return;
      }
      var entries := Entries(root, hook.event).value;
      var kept: seq<Json> := [];
      var i := 0;
      while i < |entries|
        invariant 0 <= i <= |entries|
        invariant root == old(root)
        invariant kept == KeepEntries(entries[..i], hook)
        invariant removed <==> LiveAmong(entries, hook, i)
      {
        OneMoreEntry(entries, i, hook);
        var left, cut := RetainInEntry(entries[i], hook);
        removed := removed || cut;
        if left.Some? {
          kept := kept + [left.value];
        }
        i := i + 1;
      }
      assert entries[..|entries|] == entries;
      assert entries == EntriesOrNone(root, hook.event);
      root := SetEntries(root, hook.event, kept);
    }

    /** The merge part of the installation; `written` says whether the file is rewritten. */
    method InstallClaudeIntegration(toolFailure: bool, dryRun: bool)
      returns (r: Result<nat, string>, statusLineAdded: bool, written: bool)
      modifies this
      ensures var merged := Merge(old(root), toolFailure);
              && (r.Ok? <==> merged.Done?)
              && (r.Ok? ==> root == merged.root && r.value == |merged.added|)
              && (r.Ok? ==> statusLineAdded == merged.statusLineAdded)
              && (written <==> r.Ok? && !dryRun && Reports(merged))
    {
      statusLineAdded, written := false, false;
      if !root.Obj? {
        return Err("must contain a JSON object"), false, false;
      }
      ghost var before := root;
      var first := EnsureHooks(HARNESS_HOOKS, false);
      if first.Err? {
        return first, false, false;
      }
      EnsureAllKeepsKeys(before, HARNESS_HOOKS, false);
      var toolFailureRemoved := false;
      if !toolFailure {
        toolFailureRemoved := RemoveHarnessHookAtSlot(CLAUDE_TOOL_FAILURE_HOOK);
      }
      ghost var middle := root;
      RemovedKeepsKeys(EnsureAll(before, HARNESS_HOOKS, false).root, CLAUDE_TOOL_FAILURE_HOOK);
      var second := EnsureHooks(ClaudeOnlyHooks(toolFailure), true);
      if second.Err? {
        return second, false, false;
      }
      EnsureAllKeepsKeys(middle, ClaudeOnlyHooks(toolFailure), true);
      RemovedKeepsKeys(root, CLAUDE_SAFETY_HOOK);
      var legacyRemoved := RemoveHarnessHookAtSlot(CLAUDE_SAFETY_HOOK);
      if "statusLine" !in root.members {
        root := Obj(root.members["statusLine" := ItemFor(USAGE_TEE)]);
        statusLineAdded := true;
      }
      r := Ok(first.value + second.value);
      written := !dryRun && (r.value > 0 || statusLineAdded || legacyRemoved || toolFailureRemoved);
    }
  }

  ghost predicate LiveAmong(entries: seq<Json>, hook: Hook, n: nat) {
    exists j | 0 <= j < n && j < |entries| :: EntryLive(entries[j], hook)
  }

  lemma OneMoreEntry(entries: seq<Json>, i: nat, hook: Hook)
    requires i < |entries|
    ensures var left := KeepEntry(entries[i], hook);
            KeepEntries(entries[..i + 1], hook) ==
            KeepEntries(entries[..i], hook) + if left.Some? then [left.value] else []
  {
    assert entries[..i + 1] == entries[..i] + [entries[i]];
    KeepEntriesAppend(entries[..i], [entries[i]], hook);
    assert [entries[i]][1..] == [];
  }

  /** What the removal makes of one entry, and whether it cut a hook out of it. */
  method RetainInEntry(entry: Json, hook: Hook) returns (left: Option<Json>, cut: bool)
    ensures left == KeepEntry(entry, hook)
    ensures cut <==> EntryLive(entry, hook)
  {
    if MatcherOf(entry) != hook.matcher || HookItems(entry).None? {
      return Some(entry), false;
    }
    var items := HookItems(entry).value;
    var others := RetainOthers(items, hook.command);
    KeepItemsFacts(items, hook.command);
    assert forall x :: x in items <==> exists j :: 0 <= j < |items| && items[j] == x;
    cut := |others| != |items|;
    left := if others == [] then None else Some(Obj(entry.members["hooks" := Arr(others)]));
  }

  method RetainOthers(items: seq<Json>, command: string) returns (left: seq<Json>)
    ensures left == KeepItems(items, command)
  {
    left := [];
    var i := 0;
    while i < |items|
      invariant 0 <= i <= |items|
      invariant left == KeepItems(items[..i], command)
    {
      assert items[..i + 1] == items[..i] + [items[i]];
      KeepItemsAppend(items[..i], [items[i]], command);
      assert [items[i]][1..] == [];
      if !Runs(items[i], command) {
        left := left + [items[i]];
      }
      i := i + 1;
    }
    assert items[..|items|] == items;
  }

  lemma RemovedKeepsKeys(settings: Json, hook: Hook)
    ensures Removed(settings, hook).Obj? <==> settings.Obj?
    ensures forall k :: k != "hooks" ==> Get(Removed(settings, hook), k) == Get(settings, k)
  {
  }

  lemma {:induction false} EnsureAllKeepsKeys(settings: Json, hooks: seq<Hook>, atSlot: bool)
    requires settings.Obj? && EnsureAll(settings, hooks, atSlot).Merged?
    ensures EnsureAll(settings, hooks, atSlot).root.Obj?
    ensures forall k :: k != "hooks" ==> Get(EnsureAll(settings, hooks, atSlot).root, k) == Get(settings, k)
    decreases hooks
  {
    if hooks != [] {
      if Present(settings, hooks[0], atSlot) {
        EnsureAllKeepsKeys(settings, hooks[1..], atSlot);
      } else {
        EnsureAllKeepsKeys(Pushed(settings, hooks[0]), hooks[1..], atSlot);
      }
    }
  }
}
