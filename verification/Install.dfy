/**
Replacing the installed binary: write beside it, check the written file, swap
by renames, and roll back when the second rename fails. Every step may fail.
*/
module Install {
  import opened Wrappers

  type Bytes = seq<bv8>

  /** The three files the replacement touches; absent files are `None`. */
  datatype Files = Files(target: Option<Bytes>, staged: Option<Bytes>, saved: Option<Bytes>)

  datatype InstallError = WriteFailed | CheckFailed | RenameFailed | RollbackFailed

  /** The previous bytes are in place or saved, or checked new bytes are in place. */
  ghost predicate Recoverable(s: Files, previous: Option<Bytes>, binary: Bytes, passes: Bytes -> bool) {
    || s.target == previous
    || s.saved == previous
    || (s.target == Some(binary) && passes(binary))
  }

  /** Nothing but the previous or checked new bytes is ever at the target. */
  ghost predicate NeverWrong(s: Files, previous: Option<Bytes>, binary: Bytes, passes: Bytes -> bool) {
    s.target.Some? ==> s.target == previous || (s.target == Some(binary) && passes(binary))
  }

  ghost predicate AlwaysRecoverable(
    h: seq<Files>, from: nat, previous: Option<Bytes>, binary: Bytes, passes: Bytes -> bool
  ) {
    forall k | from <= k < |h| ::
      Recoverable(h[k], previous, binary, passes) && NeverWrong(h[k], previous, binary, passes)
  }

  class Installation {
    var files: Files
    ghost var history: seq<Files>
    /** How many steps have been refused; on a calm machine none is. */
    ghost var refusals: nat
    const calm: bool

    ghost predicate Valid()
      reads this
    {
      history != [] && history[|history| - 1] == files
    }

    constructor (initial: Files, calm: bool)
      ensures Valid() && files == initial && history == [initial] && this.calm == calm
    {
      files, history, refusals := initial, [initial], 0;
      this.calm := calm;
    }

    method Commit(next: Files)
      requires Valid()
      modifies `files, `history
      ensures Valid() && files == next && history == old(history) + [next]
    {
      files := next;
      history := history + [next];
    }

    method Refused() returns (refused: bool)
      modifies `refusals
      ensures calm ==> !refused
      ensures refusals == old(refusals) + if refused then 1 else 0
    {
      refused := *;
      refused := refused && !calm;
      refusals := refusals + if refused then 1 else 0;
    }

    /** Creates or truncates the staged file, then writes, syncs and marks it executable. */
    method WriteStaged(bytes: Bytes) returns (ok: bool)
      requires Valid()
      modifies this
      ensures Valid() && old(history) <= history
      ensures files.target == old(files).target && files.saved == old(files).saved
      ensures forall k | |old(history)| <= k < |history| ::
                history[k].target == old(files).target && history[k].saved == old(files).saved
      ensures ok ==> files.staged == Some(bytes)
      ensures refusals == old(refusals) + if ok then 0 else 1
      ensures calm ==> ok
    {
      var refused := Refused();
      if refused {
        return false;
      }
      var part: Bytes := *;
      Commit(files.(staged := Some(part)));
      refused := Refused();
      if refused {
        return false;
      }
      Commit(files.(staged := Some(bytes)));
      ok := true;
    }

    /** Runs the staged file; success means its bytes pass the version check. */
    method SanityCheck(passes: Bytes -> bool) returns (ok: bool)
      requires Valid()
      modifies `refusals
      ensures Valid() && old(refusals) <= refusals <= old(refusals) + 1
      ensures ok ==> refusals == old(refusals)
      ensures ok ==> files.staged.Some? && passes(files.staged.value)
      ensures !ok && files.staged.Some? && passes(files.staged.value) ==> refusals == old(refusals) + 1
      ensures calm ==> refusals == old(refusals)
    {
      var refused := Refused();
      ok := !refused && files.staged.Some? && passes(files.staged.value);
    }

    /** Best-effort `remove_file` on the staged or the saved file. */
    method RemoveStaged()
      requires Valid()
      modifies this
      ensures Valid() && old(history) <= history
      ensures files == old(files) || files == old(files).(staged := None)
      ensures files.staged.None? || refusals == old(refusals) + 1
      ensures old(refusals) <= refusals <= old(refusals) + 1 && (calm ==> refusals == old(refusals))
      ensures history == old(history) || history == old(history) + [files]
    {
      var refused := Refused();
      if !refused && files.staged.Some? {
        Commit(files.(staged := None));
      }
    }

    method RemoveSaved()
      requires Valid()
      modifies this
      ensures Valid() && old(history) <= history
      ensures files == old(files) || files == old(files).(saved := None)
      ensures files.saved.None? || refusals == old(refusals) + 1
      ensures old(refusals) <= refusals <= old(refusals) + 1 && (calm ==> refusals == old(refusals))
      ensures history == old(history) || history == old(history) + [files]
    {
      var refused := Refused();
      if !refused && files.saved.Some? {
        Commit(files.(saved := None));
      }
    }

    /** One rename: from `before` to `after` in a single step, or nothing. */
    method Rename(after: Files, sourceExists: bool) returns (ok: bool)
      requires Valid()
      modifies this
      ensures Valid()
      ensures ok ==> sourceExists && files == after && history == old(history) + [after]
      ensures !ok ==> files == old(files) && history == old(history)
      ensures refusals == old(refusals) + if ok || !sourceExists then 0 else 1
      ensures calm && sourceExists ==> ok
    {
      if !sourceExists {
        return false;
      }
      var refused := Refused();
      if refused {
        return false;
      }
      Commit(after);
      ok := true;
    }

    /**
     The Unix variant: one rename puts the checked file over the target. When
     nothing is refused it installs exactly what passes the check. It fails to
     install what passes, or to clean up, only for a refusal each.
     */
    method ReplaceBinaryUnix(binary: Bytes, passes: Bytes -> bool) returns (r: Result<(), InstallError>)
      requires Valid()
      modifies this
      ensures Valid() && old(history) <= history
      ensures forall k | |old(history)| <= k < |history| ::
                history[k].target == old(files).target || (history[k].target == Some(binary) && passes(binary))
      ensures forall k | |old(history)| <= k < |history| :: history[k].saved == old(files).saved
      ensures r.Ok? ==> files.target == Some(binary) && passes(binary) && files.staged.None?
      ensures r.Err? ==> files.target == old(files).target
      ensures !passes(binary) ==> r.Err?
      ensures refusals == old(refusals) ==>
                && files == Files(if passes(binary) then Some(binary) else old(files).target, None, old(files).saved)
                && if passes(binary) then r.Ok? else r == Err(CheckFailed)
      ensures r.Err? && files.staged.Some? ==> refusals >= old(refusals) + if passes(binary) then 2 else 1
      ensures calm ==> refusals == old(refusals)
    {
      var written := WriteStaged(binary);
      if !written {
        RemoveStaged();
        return Err(WriteFailed);
      }
      var checked := SanityCheck(passes);
      if !checked {
        RemoveStaged();
        return Err(CheckFailed);
      }
      var moved := Rename(Files(files.staged, None, files.saved), files.staged.Some?);
      if !moved {
        RemoveStaged();
        return Err(RenameFailed);
      }
      r := Ok(());
    }

    /** The swap of the Windows variant: save the target, move the new file in, or roll back. */
    method SwapIn(binary: Bytes, passes: Bytes -> bool) returns (r: Result<(), InstallError>)
      requires Valid() && files.staged == Some(binary) && passes(binary)
      modifies this
      ensures Valid() && old(history) <= history
      ensures AlwaysRecoverable(history, |old(history)|, old(files).target, binary, passes)
      ensures r.Ok? ==> files.target == Some(binary)
      ensures r == Err(RollbackFailed) ==>
                files.target.None? && files.saved == old(files).target && old(files).target.Some?
      ensures r.Err? && r.error != RollbackFailed ==> files.target == old(files).target
      ensures refusals == old(refusals) && old(files).target.Some? ==> r.Ok? && files.saved.None?
      ensures r.Ok? ==> files.staged.None? && (files.saved.None? || refusals > old(refusals))
      ensures old(refusals) <= refusals && (calm ==> refusals == old(refusals))
      ensures r.Err? && old(files).target.Some? ==>
                refusals >= old(refusals) + if r.error == RollbackFailed then 2 else 1
      ensures old(files).target.None? ==> r == Err(RenameFailed) && files == old(files)
    {
      var previous := files.target;
      var away := Rename(Files(None, files.staged, previous), previous.Some?);
      if !away {
        return Err(RenameFailed);
      }
      var moved := Rename(Files(files.staged, None, files.saved), files.staged.Some?);
      if !moved {
        var back := Rename(Files(files.saved, files.staged, None), files.saved.Some?);
        return Err(if back then RenameFailed else RollbackFailed);
      }
      RemoveSaved();
      r := Ok(());
    }

    /**
     The Windows variant. At every moment the previous bytes are at the target
     or saved, or checked new ones are at the target; a failure leaves the
     previous bytes installed unless the rollback failed too. When nothing is
     refused and there is a target, it installs exactly what passes the check
     and clears the other two files. Each thing left undone costs a refusal.
     */
    method ReplaceBinaryWindows(binary: Bytes, passes: Bytes -> bool) returns (r: Result<(), InstallError>)
      requires Valid()
      modifies this
      ensures Valid() && old(history) <= history
      ensures AlwaysRecoverable(history, |old(history)|, old(files).target, binary, passes)
      ensures r.Ok? ==> files.target == Some(binary) && passes(binary)
      ensures r == Err(RollbackFailed) ==> files.target.None? && files.saved == old(files).target
      ensures r.Err? && r.error != RollbackFailed ==> files.target == old(files).target
      ensures !passes(binary) ==> r.Err? && files.target == old(files).target
      ensures var installs := passes(binary) && old(files).target.Some?;
              && (refusals == old(refusals) ==>
                    && files == Files(if installs then Some(binary) else old(files).target, None, None)
                    && if installs then r.Ok? else r == Err(if passes(binary) then RenameFailed else CheckFailed))
              && (r.Err? && files.staged.Some? ==>
                    refusals >= old(refusals) + if r.error == RollbackFailed then 3 else if installs then 2 else 1)
      ensures r.Ok? && files.saved.Some? ==> refusals > old(refusals)
      ensures r == Err(RollbackFailed) ==> refusals >= old(refusals) + 2
      ensures calm ==> refusals == old(refusals)
    {
      RemoveSaved();
      var written := WriteStaged(binary);
      if !written {
        RemoveStaged();
        return Err(WriteFailed);
      }
      var checked := SanityCheck(passes);
      if !checked {
        RemoveStaged();
        return Err(CheckFailed);
      }
      r := SwapIn(binary, passes);
      if r.Err? {
        RemoveStaged();
      }
    }
  }
}
