# zirv, as a Dafny model

A model of the state-changing core of the `zirv` command line, with proofs of what it promises.

**Backups of AI settings.** `Disk` is a mutable tree of files, directories and links. Every copy, directory
creation, removal and rename is a step that may fail part-way, and a ghost history records every tree the
disk ever held. On a `calm` disk the operating system refuses nothing, and there each operation is proved to
go through, a link or a blocked path aside; on any other it counts what it refused, and what an operation
leaves undone is bounded by that count. On the disk stand the three operations as the program performs
them: writing a run and pruning old ones (`Backups`, `Retention`), resetting (`Resets`) and restoring through
staging siblings (`Restores`). The results are about all of these together: restoring and undoing give back
what was there (`RoundTrips`), nothing is lost at any step, and over any list of writes, failed ones included,
the set of runs on disk goes through a small state machine while a strictly oldest run is never touched
(`Histories`).
`Comparison` is the read-only side, and `Candidates` shows that the real lists of settings files meet the
layout the other theorems ask for. `RunNames` is the naming of runs.

**Arithmetic with an independent meaning.** `EditDistance` proves the two-row table equal to the length of
the shortest chain of single edits. `Suggestions` states the suggestion list without its shortcut.
`Calendar` and `Timestamps` prove the date conversion a bijection with the proleptic Gregorian calendar
(section 3.2.1 of ISO 8601:2004). `Versions` relates comparison of decimal texts to comparison of the
numbers they denote (section 11 of Semantic Versioning 2.0.0).

**Documents and text.** `Hooks`, `HookInstall`, `HookLaws` and `HookGuarantees` treat the merge of hooks into
a JSON document, and `HookReports` what that merge says of itself; `Text` the cutting of text by columns and by
UTF-8 bytes (section 3 of RFC 3629); `Memory` the memory bootstrap that uses it; `Install` the replacement of
the installed binary.

Parameters of the model, with only the facts the program relies on: the clock and the label in a run's
name; the order a directory lists its entries in; the table of character widths (a joiner is 0 wide, the
ellipsis 1); the lowercase table; and which bytes pass the version check of a downloaded binary.

## What turned out not to hold

Seven plausible statements are false of the code. Each has a lemma with a concrete input and an exact condition.

- *The run just written survives its own pruning.* It can be the one removed, before a reset deletes the
  originals, when at least `keep` other runs carry the same or a later time (a clock set back, or ties).
  `Retention.ClockSetBackLosesTheNewRun` gives an input. `Retention.LostInSomeOrderIff` gives the exact
  condition over all directory orders; the no-loss results assume its negation and a free name.
- *The first run is pinned for good.* Two runs in one second are told apart by directory order only, and the
  first can go (`Retention.TieCanCostTheFirstRun`). The exact condition at each write is the one of
  `Retention.LostInSomeOrderIff`: every outcome of the write keeps a run if and only if the run cannot be lost
  there (`Retention.SurvivesEveryWriteIff`). Under it at each write the first run stays
  (`Retention.FirstRunIsPinned`), in particular while every later one is strictly newer. The smallest time is
  always present all the same.
- *Every run gets a directory of its own.* When a thousand runs of one second and the overflow run are there, the
  next is written over the overflow run (`RunNames.OverflowIsReused`). `RunNames.ClashIff` has the exact
  condition; fewer than a thousand entries in the backup root rule it out (`RunNames.NameIsFree`).
- *A restored tree is exactly the backed-up one.* A staging sibling that cannot be cleared leaks into it
  (`Restores.StaleStagingLeaksIn`). `Restores.NoLeftoverIsExact` has the exact condition on the tree before the
  call: nothing is staged there, or all that is staged is also in the backup.
- *A removal that reports nothing changed nothing.* A matching entry whose hook list was already empty is
  dropped (`Hooks.EmptyEntryIsDroppedSilently`). `Hooks.FalseMeansUnchangedIff` has the condition.
- *The settings file is rewritten when the merge changed it.* By the same dropped entry it may not be
  (`HookReports.ChangedAndNotWritten`). `HookReports.ReportsWhatChanged` has the condition.
- *Installing hooks twice is installing them once.* Not when a retired hook holds another hook's command
  somewhere inside it (`HookGuarantees.NestedCommandBreaksIdempotence`).
  `HookGuarantees.MergeIsIdempotentIff` has the condition.

One corner of cutting with an ellipsis is of the same kind. A second cut to a single column keeps zero-width
characters that one cut would have dropped (`Text.EllipsisCorner`). `Text.EllipsisComposesIff` has the exact
condition: the text, too wide for the first budget of two columns or more, begins with characters of no width,
not all of them joiners, and the next character fills that budget.

## Model

| member | source | states |
|---|---|---|
| DiskSteps.Disk.CopyForBackup | src/commands/setup.rs:2833-2854 | a completed copy lays the link-free source over what is at the destination; whatever fails, only the destination is touched |
| DiskSteps.Disk.CopyEntries | src/commands/setup.rs:2838-2844 | in every tree on the way, before an entry is touched all entries with smaller names are copied whole |
| DiskSteps.Disk.WriteAtomic | src/commands/ctx/state.rs:708-760 | in every tree the path holds its old content or the whole new one, success tells which, and the temporary file is gone unless two steps were refused |
| FileTree.OverlayIsExact | src/commands/setup.rs:2833-2854 | copying over something gives exactly the source if and only if everything in the way is covered by it |
| RunNames.RunNameDetermines | src/commands/setup.rs:2895-2904 | for one label a name tells its second and its suffix, and is never an overflow name |
| RunNames.LeastFreeSuffix | src/commands/setup.rs:2895-2904 | a run gets a suffix if and only if that name is free and all smaller suffixes are taken |
| RunNames.ClashIff | src/commands/setup.rs:2895-2904 | a new run clashes with something there if and only if all thousand names of its second and the overflow name are taken |
| RunNames.OverflowIsReused | src/commands/setup.rs:2895-2904 | a backup root where the next run is given the directory of the overflow run |
| RunNames.NameIsFree | src/commands/setup.rs:2895-2904 | by counting, fewer than a thousand entries leave a free name |
| Backups.NewestIsSafe | src/commands/setup.rs:2937-3023 | with fewer than a thousand entries and a clock past every run there, a new run can neither clash nor be pruned at once |
| Backups.RoomWhenFew | src/commands/setup.rs:2895-2904 | beside few entries, none a dead link, the write after a write finds a free name too |
| Backups.ManifestRecords | src/commands/setup.rs:2949-2971 | a manifest has one row for each target in order, with its path below the base and whether it was there |
| Backups.DiscoverRuns | src/commands/setup.rs:4205-4225 | lists, without repeats and in any order, exactly the runs whose manifest is on disk, less those it failed to read; it misses no more than there were refused reads |
| Backups.WriteManifest | src/commands/setup.rs:2962-2976 | in every tree the manifest is the old one or the whole new one; success tells which |
| Backups.PruneBackupRuns | src/commands/setup.rs:3004-3023 | touches the doomed run directories only, in every tree; when nothing was refused, what is left is the full listing less exactly the doomed runs, and otherwise at most one run more for each refused step |
| Backups.WriteBackupRunKeeping | src/commands/setup.rs:2937-2987 | touches its own directory and doomed ones only; its effect is a step of the retention machine, or none if it fails under a fresh name; afterwards at most `keep` + 1 + protected runs are on disk, and one for each refused step; a run safe from pruning is a faithful record of its targets; on a calm disk it goes through |
| Backups.WriteRefines | src/commands/setup.rs:2937-2987 | writing one directory and then pruning, complete or not, is one `Writes` step on the set of runs |
| Backups.SafeRunStaysComplete | src/commands/setup.rs:2985 | a complete run that cannot be lost is still complete after the pruning |
| Retention.ResolveRetention | src/commands/setup.rs:3025-3042 | a loaded count from 1 to 500 is honoured, a larger one is 500, and zero or none is 20 |
| Retention.DoomedIsSafe | src/commands/setup.rs:3004-3023 | pruning removes listed runs only, never a protected one, and never every run with the oldest time |
| Retention.SurvivorsAreTheNewest | src/commands/setup.rs:3004-3023 | beside one oldest run and the protected ones, exactly the newest `keep` survive, or all if there are fewer |
| Retention.CountAfterPass | src/commands/setup.rs:3004-3023 | a complete pass leaves at most `keep` + 1 + protected runs |
| Sorting.SortIsStable | src/commands/setup.rs:3009 | sorting leaves runs of one second in the order the directory listed them |
| Retention.LostInSomeOrderIff | src/commands/setup.rs:3004-3023 | a run is removed under some directory order if and only if it is unprotected, another oldest run exists, and at least `keep` unprotected others are no older |
| Retention.LostFromPartIsLostFromAll | src/commands/setup.rs:3004-3023 | missing some runs while listing never puts a run at risk that a full listing would not |
| Retention.SafeRunSurvives | src/commands/setup.rs:3004-3023 | a run that cannot be lost survives every pass, in any order and from any partial listing |
| Retention.StrictlyNewestSurvives | src/commands/setup.rs:2985 | a run newer than all others cannot be lost when at least one run is kept |
| Retention.ClockSetBackLosesTheNewRun | src/commands/setup.rs:2985 | with the clock set back the run just written is removed |
| Retention.OldestTimeIsAlwaysPresent | src/commands/setup.rs:2989-3023 | over any sequence of writes, a run at least as old as every one ever written is present after each |
| Retention.FirstRunIsPinned | src/commands/setup.rs:2989-3023 | the first run is present after `k` writes if at none of them it could be lost |
| Retention.SurvivesEveryWriteIff | src/commands/setup.rs:2937-3023 | some outcome of a write ends without a given run if and only if the run can be lost at it |
| Retention.StrictlyOldestIsSafe | src/commands/setup.rs:2989-3023 | while every later run so far is strictly newer, the first cannot be lost and is the strictly oldest on disk |
| Retention.TieCanCostTheFirstRun | src/commands/setup.rs:3004-3023 | two first runs of one second: a third write can remove the original |
| Retention.WriteKeeps | src/commands/setup.rs:2937-3023 | one write keeps the protected runs, keeps the new one if it is strictly newest, and after a complete pass respects the bound |
| Histories.WriteBackups | src/commands/setup.rs:2937-3023 | over any list of writes on one disk, some failing: while names are free the runs on disk go through a chain of the retention machine with a step for each success, and they are free while there is room for a run each below a thousand entries; on a calm disk a write with a free way succeeds and respects the bound; a strictly oldest run keeps its whole directory in every tree |
| Resets.RemoveTargets | src/commands/setup.rs:3088-3090 | the deletions touch nothing but the targets, at every step; success means every target is gone |
| Resets.ResetOne | src/commands/setup.rs:3044-3099 | refuses links before it writes; nothing to reset, or a dry run, changes nothing; success removes every target; with a safe run nothing is lost in any tree it passes through, whichever step fails; on a calm disk with link-free, reachable targets it succeeds |
| Restores.RestoreTarget | src/commands/setup.rs:4439-4470 | copy, then swap: until a whole copy is staged the destination is untouched, and success puts the backup there with no sibling left; what can be restored fails only for a refused step, and a stray copy stays only for another |
| Restores.NoLeftoverIsExact | src/commands/setup.rs:4420-4470 | however the cleanup of the staging sibling goes, the restored tree is the backed-up one, if and only if nothing was staged before the call or all of it is covered by the backup |
| Restores.StaleStagingLeaksIn | src/commands/setup.rs:4420-4430 | a tree with a stale file at the staging sibling of `rules`, and a restore of it that ends with that file among the rules |
| Restores.RestoreAll | src/commands/setup.rs:4631-4646 | goes on after a failure: every row not reported as failed is restored, and of the rows that could be restored no more fail than steps were refused; nothing but targets and their siblings is touched, at any step |
| Restores.ValidateRestore | src/commands/setup.rs:4572-4580 | passing means every backed-up source is there, and neither it nor a present destination holds a link; on a calm disk it passes then |
| Restores.RestoreBackup | src/commands/setup.rs:4503-4680 | does nothing unconfirmed, on a dry run, for an unknown manifest version, or when a link is in the way; never touches skipped credentials; keeps the run it restores; with a safe safety run, loses nothing at any step; a partial restore restores every row whose source it does not name; on a calm disk it succeeds, a link or a blocked path aside |
| Restores.RestoredExactly | src/commands/setup.rs:4439-4470 | on a calm disk, or with nothing harmful staged beforehand, a restored target equals its backup |
| RoundTrips.RestoringGivesBack | src/commands/setup.rs:4631-4646 | restoring rows of a faithful run gives back, at each source, the recorded tree or its absence |
| RoundTrips.RestoreThenUndo | src/commands/setup.rs:4610-4646 | restoring, then restoring the safety run that wrote, gives back every target acted on; on a calm disk both are proved to succeed |
| RoundTrips.ResetThenRestore | src/commands/setup.rs:3076-3099 | resetting, then restoring the run that wrote, is the identity on every target, and on everything else but the runs and the staging siblings; on a calm disk both are proved to succeed |
| Candidates.ProjectLayout | src/commands/setup.rs:2742-2776 | a project's candidates never overlap one another, the runs, or any staging sibling |
| Candidates.GlobalLayout | src/commands/setup.rs:2778-2831 | the same for a user's candidates, extra profiles and credentials included, when the runs are elsewhere |
| Candidates.CredentialsOnlyWhenAsked | src/commands/setup.rs:2819-2829 | without being asked for no candidate is a credential; when asked, exactly one comes last after the same others |
| Candidates.ResetProjectThenRestore | src/commands/setup.rs:3472-3481 | resetting a real project and restoring gives back every candidate; on a calm disk both are proved to succeed |
| Comparison.PathsEqual | src/commands/setup.rs:4133-4163 | the sorted pairwise walk answers yes if and only if both trees are equal and free of links |
| Comparison.ListingsAgree | src/commands/setup.rs:4146-4154 | two directories hold the same names if and only if their sorted listings are equal |
| Comparison.TargetStateOf | src/commands/setup.rs:4165-4183 | classifies by presence and by tree equality with the backup |
| Comparison.RestoredClassifies | src/commands/setup.rs:4165-4183 | a restored target is Identical if the backup had it, and Absent otherwise |
| Comparison.RestoredNeverDiffers | src/commands/setup.rs:4185-4198 | after a full restore a run is listed as identical if it recorded trees only, absent if absences only, else mixed, and never as differing |
| Comparison.SettledIffRestoreIsIdle | src/commands/setup.rs:4165-4183 | the listed state of a target is the one a restore would leave if and only if the restore would not change it |
| Comparison.ListedIdenticalIsIdle | src/commands/setup.rs:4185-4198 | a run is listed as identical if and only if it recorded trees only and restoring it would change none of its targets |
| EditDistance.RowIsDistance | src/utils.rs:183-208 | the last entry of the last row is the distance |
| EditDistance.FillRow | src/utils.rs:195-203 | the inner loop overwrites the row with the next one |
| EditDistance.Levenshtein | src/utils.rs:183-208 | the loop over two swapped rows returns the distance |
| EditDistance.NoShorterChain | src/utils.rs:183-208 | no chain of single insertions, deletions or substitutions is shorter than the distance |
| EditDistance.DistanceIsShortest | src/utils.rs:183-208 | the distance is `n` if and only if some chain of `n` edits exists and no shorter one does |
| EditDistance.ZeroOnlyOnEqual | src/utils.rs:183-208 | the distance is zero exactly on equal strings |
| EditDistance.Symmetric | src/utils.rs:183-208 | the distance is symmetric |
| EditDistance.Triangle | src/utils.rs:183-208 | the triangle inequality |
| EditDistance.Bounds | src/utils.rs:183-208 | between the difference of the lengths and the longer length |
| Suggestions.SuggestMatches | src/utils.rs:223-260 | the single pass with shortcut, seen set and sort returns a function of the set of candidates |
| Suggestions.ShortcutIsSafe | src/utils.rs:244-251 | a candidate the length shortcut skips is out of reach |
| Suggestions.RankingIsUnique | src/utils.rs:252-259 | a set of candidates has one ranking, whatever order they come in |
| Suggestions.SuggestionsAreTheBest | src/utils.rs:212-260 | at most three names, all in reach, each nearer than the next or as near and earlier by name; one in reach is left out only for three that are so before it |
| Suggestions.QualifiesInReach | src/utils.rs:210-218 | in reach is one edit for any name, two from four letters on, three from six on |
| Sorting.NameLeqIsLexicographic | src/utils.rs:252-259 | the order on names is prefix first, then the first differing character |
| Calendar.CivilFromDays | src/commands/setup.rs:4107-4119 | the result is a valid date and the independent day count maps it back, for every integer |
| Calendar.EraIsFloor | src/commands/setup.rs:4109 | the truncating division with its bias is the floor of a division by 146097 |
| Calendar.EarlierIsFewerDays | src/commands/setup.rs:4107-4119 | the day count orders valid dates as the calendar does |
| Calendar.CivilIsABijection | src/commands/setup.rs:4107-4119 | day numbers and valid dates correspond one to one, both ways |
| Calendar.NextDayIsNextDate | src/commands/setup.rs:4107-4119 | the next day number is the next date of the calendar |
| Calendar.DatesAdvance | src/commands/setup.rs:4107-4119 | dates increase strictly with the days |
| Calendar.EpochDay | src/commands/setup.rs:4104-4119 | day zero is 1 January 1970 |
| Timestamps.StampDenotesItsSeconds | src/commands/setup.rs:4121-4127 | the fields are a valid date and time of day that add up to the seconds |
| Timestamps.PrintedFields | src/commands/setup.rs:4121-4127 | what is printed is each field as digits in its place, two wide or at least four for the year, with its separators |
| Timestamps.TextDeterminesSeconds | src/commands/setup.rs:4121-4127 | equal texts mean equal seconds |
| Timestamps.TextOrderIsTimeOrder | src/commands/setup.rs:4121-4127 | up to the year 9999 text order is time order |
| Versions.NormalizeAccepts | src/commands/update.rs:115-129 | accepts exactly three digit groups joined by dots, after at most one leading `v` |
| Versions.ComponentIsNumeric | src/commands/update.rs:167-177 | comparing two digit strings without parsing is comparing the numbers they denote |
| Versions.CompareIsNumericPrecedence | src/commands/update.rs:167-177 | comparing versions is comparing their three numbers lexicographically |
| Versions.VersionsAreOrdered | src/commands/update.rs:167-177 | a total preorder, whose ties are versions with equal numbers |
| Versions.UpdatesOnlyUpwards | src/commands/update.rs:179-190 | an implicit update goes ahead exactly when the current version is the smaller |
| Versions.LeadingZerosTie | src/commands/update.rs:167-177 | a leading zero gives another accepted text, with the same numbers, that compares as equal |
| Install.Installation.ReplaceBinaryUnix | src/commands/update.rs:509-527 | the target always holds the previous or checked new bytes; success means new ones, failure the previous ones; when nothing is refused it installs exactly what passes, and a staged file stays only if its removal was refused too |
| Install.Installation.SwapIn | src/commands/update.rs:544-560 | previous bytes are at the target or saved until the new ones are in; with a target it fails only for a refused step, and only a second one leaves no target |
| Install.Installation.ReplaceBinaryWindows | src/commands/update.rs:530-562 | the same over the whole replacement, under any pattern of failures; when nothing is refused and there is a target, it installs exactly what passes and clears the other two files |
| Hooks.RemovedCleansTheSlot | src/commands/setup.rs:1048-1081 | afterwards nothing at the slot matches; and the document is unchanged if and only if nothing did |
| Hooks.FalseMeansUnchangedIff | src/commands/setup.rs:1062-1080 | a removal that reports nothing left the document alone if and only if no matching entry had an empty hook list |
| Hooks.EmptyEntryIsDroppedSilently | src/commands/setup.rs:1062-1080 | an input where it reports nothing and still drops an entry |
| Hooks.OnlyOwnCommandsAreCut | src/commands/setup.rs:1048-1081 | from a hook list goes an item if and only if it is a command hook that runs the very command |
| HookInstall.Settings.PushHarnessHookEntry | src/commands/setup.rs:996-1021 | appends the entry to its event's list in place, or refuses a document of the wrong shape |
| HookInstall.Settings.RemoveHarnessHookAtSlot | src/commands/setup.rs:1048-1081 | the in-place removal yields the specified document and reports whether a hook was cut |
| HookInstall.Settings.EnsureHooks | src/commands/setup.rs:954-990 | the pass adds exactly the missing hooks, in order |
| HookInstall.Settings.InstallClaudeIntegration | src/commands/setup.rs:1329-1437 | the document becomes the merged one, the count is that of the hooks added, and it is written only when something changed |
| HookLaws.ContainsPushed | src/commands/setup.rs:821-830 | after a push the document contains what it did and the new hook's commands |
| HookLaws.RemoveCommutes | src/commands/setup.rs:996-1081 | pushing one hook and removing another can be done in either order |
| HookLaws.LiveAfterRemoval | src/commands/setup.rs:846-873 | removing one hook leaves every other one live at its slot |
| HookLaws.EnsureAllPushes | src/commands/setup.rs:954-1021 | a pass pushes missing hooks, each once and in order, after which every hook is present |
| HookGuarantees.MergeShape | src/commands/setup.rs:1336-1382 | the merged document is the old one without retired hooks, plus some of the required ones in order, plus the status line |
| HookGuarantees.ClaudeHooksAreLive | src/commands/setup.rs:1336-1382 | every Claude-only hook is live at its exact slot afterwards |
| HookGuarantees.SharedHookContainedIff | src/commands/setup.rs:1336-1382 | a shared hook's command is there afterwards if and only if it survived the removals |
| HookGuarantees.MergedSlotsAreClean | src/commands/setup.rs:1048-1081 | no retired hook is left at its slot |
| HookGuarantees.SwitchDecides | src/commands/setup.rs:1345-1382 | the tool-failure hook is live afterwards if and only if it is switched on, and the old safety hook never |
| HookGuarantees.OtherHooksSurvive | src/commands/setup.rs:1336-1382 | for every event: the hooks that were there, in order and under their own matchers, less the retired ones, then the added ones |
| HookGuarantees.OtherKeysSurvive | src/commands/setup.rs:1336-1382 | no other key of the document changes |
| HookGuarantees.MergeIsIdempotentIff | src/commands/setup.rs:1336-1382 | a second merge does nothing if and only if no shared hook was lost with a retired one |
| HookGuarantees.FlatSettingsAreIdempotent | src/commands/setup.rs:1336-1382 | on settings whose retired slots are flat the second merge does nothing |
| HookGuarantees.WellShapedMerges | src/commands/setup.rs:996-1021 | a document whose events are arrays is never refused |
| HookGuarantees.NestedCommandBreaksIdempotence | src/commands/setup.rs:821-830 | an input on which the second merge adds a hook |
| HookReports.RemovalsReported | src/commands/setup.rs:1345-1376 | a removal is reported if and only if a retired hook was live at its slot before |
| HookReports.StatusLineIsThere | src/commands/setup.rs:1373-1382 | a document without a status line gets one that runs the usage tee, and is reported so; an existing one is kept |
| HookReports.ChangedIff | src/commands/setup.rs:1336-1382 | the document changes if and only if a hook or the status line is added or a retired slot was not clean |
| HookReports.ChangedAndNotWritten | src/commands/setup.rs:1361-1399 | a settled document with one empty entry at the safety hook's slot: the merge drops the entry and the file is not written |
| HookReports.EmptyDocumentSettles | src/commands/setup.rs:1336-1382 | merging into the empty document gives one on which a second merge does nothing |
| HookReports.ReportsWhatChanged | src/commands/setup.rs:1361-1399 | a merge that is written changed the document; one that is not left it alone if and only if no retired slot had a matching entry with an empty hook list |
| Text.LeftmostFitEnd | src/style.rs:114-140 | the end of the longest prefix within the columns, less trailing joiners |
| Text.LeftFitIsUnique | src/style.rs:128-140 | that description fits one position only |
| Text.RightmostFitStart | src/style.rs:148-166 | the start of the longest suffix within the columns, less leading joiners |
| Text.ShortenedIsClean | src/style.rs:174-179 | a shortened text is the longest prefix within budget less trailing joiners, and a text is shortened only when too wide |
| Text.TruncationComposes | src/style.rs:174-179 | cutting to `a` and then to `b` is cutting once to the smaller |
| Text.EllipsisFits | src/style.rs:186-198 | the ellipsis is within budget and marks exactly the shortened texts, whose head is the longest that leaves it a column |
| Text.EllipsisComposesIff | src/style.rs:186-198 | the exact condition on the text and the budgets under which two cuts with an ellipsis agree with one |
| Text.EllipsisCorner | src/style.rs:186-198 | an accent before two wide characters: cut to two columns and then to one it stays, cut to one it goes |
| Text.MiddleTruncate | src/style.rs:207-226 | head and tail are a true prefix and suffix, do not overlap, are at least two columns apart, and fit with the ellipsis |
| Text.TruncateBytes | src/utils.rs:167-179 | the longest prefix of whole characters within the bytes |
| Text.ByteCutIsUnique | src/utils.rs:167-179 | there is one such prefix |
| Text.Utf8Size | src/utils.rs:171-177 | a character takes as few bytes as can carry its number |
| Memory.SeenKeys.MemorySectionKey | src/commands/setup.rs:2474-2486 | ends after at most one try more than there are seen keys, with the first candidate not seen |
| Memory.CandidatesDiffer | src/commands/setup.rs:2474-2486 | the base key and its suffixed forms are pairwise different |
| Memory.MemoryProposalKeys | src/commands/setup.rs:2621-2641 | all keys of one run are pairwise distinct, across pages, and each is the first of its base, base-2, base-3 and so on that no earlier one is |
| Memory.CutIsLongest | src/utils.rs:167-179 | taking characters while they fit gives the longest prefix within the bytes |
| Memory.PlanWithinBudget | src/commands/setup.rs:2682-2731 | the bodies kept add up to the bytes counted and stay within the limit; exactly the keys there already are skipped; it stops early only where not one more character fits |
| Memory.PlanIsGreedy | src/commands/setup.rs:2682-2692 | the entries are the first proposals with new keys, in order, each body the longest prefix there was room for |
| Memory.WriteWithinBudget | src/commands/setup.rs:2683-2725 | the loop over proposals ends with the counts and the writes of the plan |
| Memory.InitializeMemory | src/commands/setup.rs:2660-2731 | the loop carries out the plan; a dry run writes nothing and reports the same proposed, skipped and byte counts; a refused write leaves a prefix of the plan, and only that stops it |

## Left out

- Restores.RestoreTarget: when removing the old destination fails part-way, the destination may be partly gone; what is proved is that a whole copy is staged by then, and that the safety run holds the old tree.
- Resets.ResetOne: the no-loss clause assumes that the new run's name is free and that pruning cannot take it; the first section above names the inputs where it can.
- RoundTrips.ResetThenRestore: on a disk that may fail, assumes that what is staged beside a target, if anything, is also in the target, since a stale rest that cannot be cleared leaks in. The first run must be safe from pruning and the name of the second step's safety run free; both hold beside fewer than 999 entries with a clock past every run there, and the first section above names the inputs where they do not.
- RoundTrips.RestoreThenUndo: the same, but only beside a target the run did not have, since restoring one it had clears the sibling; and its conclusion is about the targets, because parent directories a restore creates stay.
- Histories.WriteBackups: the chain ends where a write finds no free name; for a strictly oldest run, its own name must not be the one a write falls back on when a thousand names of one second are taken.
- Retention.OldestTimeIsAlwaysPresent: starts from an empty backup root, so runs nobody wrote through this code are not in it.
- Backups.WriteBackupRunKeeping: when the name it falls back on is taken and the write fails, only that no other run appears or changes is promised. A write reads the clock once here; in the program the name and the manifest may fall in adjacent seconds. A manifest's text is represented by the manifest it parses to.
- Calendar.CivilFromDays: over unbounded integers, so the overflow of `i64` near its extremes is not in it; `format_epoch` never comes near them.
- Install.Installation.ReplaceBinaryWindows: the three files have three distinct names, and each rename is atomic.
- Memory.MemoryProposalKeys: the base key of a section, its sanitising and its byte cap are given; only the disambiguation is modelled.
- Paths are sequences of names: canonicalisation, `..`, the confinement of restore destinations and the provider check are assumed to have passed. Links above a target are not followed, and whether a link leads anywhere does not change.
- A failed metadata or directory read counts as a failure of the step that needed it. File modes and times are not modelled.
- JSON numbers are kept as their text; parsing, printing and the final atomic write of settings are not part of this model.
- Codex hooks and the status line wrapping: the same push and a prefix strip, so easy members only.
- Downloads, checksums, archives and the child process of the version check.
- Status, listing and dry-run printing, prompts, the first-run wizard and profiles: text and plumbing.
- Finding Markdown files and splitting them into sections: their results are the inputs of the bootstrap.
