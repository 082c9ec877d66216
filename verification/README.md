# Models of the Dockge backend and proofs about them

A Dafny project beside the repository. It models the parts of the backend that keep state and
three transformations of plain data whose correctness is not obvious, and proves what they are
for. `dafny verify dfyconfig.toml` checks everything.

## What is modelled

**Saving a set of stack files with crash recovery** (`Utf8`, `StackJournal`, `StackTrace`,
`StackWrite`, `StackLeftover`). `StackWrite.StackDirectory` is one stack directory with its
selections and journals. Its methods are the phases of a save and of the start-up recovery; every
change they make is one entry of a ghost trace, and every entry is a point at which the process
may die. Between any two of their steps others may edit files, and every operation of the panel
may fail, the reading of a journal included. `Utf8` decodes and encodes the bytes of a file. `StackJournal` holds the disk as a value, the
recovery as a function on it, and the theorems about crash points; `StackTrace` connects traces
with them, and says what holds of whole runs of saves, recoveries, crashes and outside edits: in
a run every step of the panel is a step of one save, or of a recovery whose journal was opened
by an earlier save of the run or found at its start. `StackLeftover` is about journals that are
settled again after later saves, and about a marker that a start fails to see.

**The lock around a stack directory** (`StackLock`): a chain of promises, with nested calls.
Operations that wait inside for each other's directory block each other
(`StackLock.CrossedOperationsBlock`). Callers avoid it by taking nested directories in one order
(`StackLock.SomebodyCanMove`); those of this repository nest none.

**Applying a Git result** (`GitBatch`, `GitApply`, `GitWrite`): the reader of printed objects,
the resolution of choices, and the replacement of files, index and branch with its undo.

**Recorded statuses and availability** (`Availability`, `Timeline`, `Readers`,
`ObservationTable`, `Recording`, `Observations`, `Stability`). The reference is pointwise: an
instant has the status of the earlier of two close samples around it. The rows are the merged
form, the two readers cut them, pruning shortens them, and a sweep adds them up. `Past` is what
a recorder that kept every sample would know; the recorders are proved to stay in step with it,
and what they answer is `Readers.RawAnswer`, which looks at the samples alone.

**The structural Compose edit** (`ComposeTree`, `ComposeEdit`, `ComposeDocument`,
`LegacyOctal`): `Edited` says by recursion on the tree what every node becomes; the document's
methods go key by key and item by item through paths and are proved to arrive there.

**Prepared operations of machine keys** (`McpKeys`, `McpState`, `McpPolicies`, `McpOperations`):
rows, claims and calls as a machine whose steps interleave in any order, with reductions of keys
that read and write in different steps.

**Smaller machines**: the `docker run` reader (`DockerRun`), the bounded cache (`BoundedCache`),
the shared reading (`SharedReading`) and the bounded shutdown (`ResourceOwner`).

## What is assumed

- The hash is collision free, and a hash is taken for the bytes it was computed from.
- An operation of the file system or the database that reports failure has changed nothing.
- Only processes crash: what a completed operation wrote is there after a crash.
- Deleting a journal or a recovery directory is one step. A deletion cut short after the marker
  was removed but not the manifest would look like a save without a marker.
- Re-checking a file and replacing it is one step towards others
  (`backend/stack-write.ts:409-414`, `backend/stack-git.ts:739-742`).
- Calls nested in a locked operation are awaited by it.
- The statements about one restart are about a directory with one live journal. With several, as
  a clean-up that failed leaves them, `StackJournal.RecoverAll` is what a start does, and
  `StackLeftover.LaterSaveSurvivesExactlyWhen` says what an older one does to a newer save.
- A journal's file list names each file once, which every journal written here does.

## Where the code does not do what it promises

Each of these is proved, with the exact condition where there is one.

- A save puts originals back from text (`backend/stack-write.ts:530`, `:601`). It can be rolled
  back exactly from all its crash points if and only if every original is well formed UTF-8:
  `StackJournal.CrashSafeExactlyForText`, `StackJournal.UndoIsExact`. For another original the
  journal, which holds the only exact copy, is deleted with the rollback
  (`StackJournal.JournalGoesOnlyWhenSettled`), and a start that is cut short and repeated may
  stop for the user where one start would have finished (`StackJournal.RecoveryRepeats`).
- A journal that an earlier save could not clean up is tried again at the next start
  (`backend/stack-write.ts:706`), whatever was saved since
  (`StackLeftover.LaterSaveSurvivesExactlyWhen`). Without a marker it takes a file back exactly
  if the later save wrote the text that the earlier one had tried, over another
  (`StackLeftover.LeftoverJournalUndoesLaterSave`). With a marker it does exactly if the later
  save went back to the earlier one's original (`StackLeftover.FinishedJournalUndoesLaterSave`).
  And it stores its own selection over the later one, also if the two saves share no file
  (`StackLeftover.LeftoverJournalRevertsSelection`), unless it has none, or the same one, or one
  of its files holds neither of its versions.
- A commit marker that cannot be looked for counts as none (`backend/stack-write.ts:658`): a
  save that had reached its marker is rolled back, selection included, and its journal deleted.
  Such a save, when it is recovered, keeps its files if and only if the look succeeds, or every
  original reads as the new text: `StackLeftover.MarkedSaveStaysExactlyWhen`. A manifest that
  cannot be read (`backend/stack-write.ts:556-560`) only leaves everything as it is
  (`StackWrite.StackDirectory.RecoverJournal`).
- An apply of a Git result that is rolled back leaves a replaced file with the read and write
  bits it was compared with. If they were changed in between, such as from 0644 to 0600, they
  are not restored, because only executable bits are compared (`backend/stack-git.ts:209`). The
  rollback is exact if and only if no replaced file is such a one: `GitWrite.NothingIsLost`. The
  same goes for a file that was applied: it keeps its own read and write bits if and only if they
  are those it was compared with (`GitWrite.AppliedKeepsBitsExactlyWhen`).
- A rollback renames the kept index over the present one without a look at it
  (`backend/stack-git.ts:764-766`); only Git's lock file keeps others from writing it.
- Two exits of a save are neither "saved" nor "undone with the journal gone": the journal could
  not be opened, and the journal could not be deleted. They are outcomes of their own in
  `StackTrace.SaveOutcome`, and `StackTrace.JournalAfter` says what each leaves.
- The batch reader loses the current state of a stack for windows shorter than 90 seconds:
  `Readers.BatchReaderAgreesExactlyWhen`, `Readers.ReadersDifferOnShortWindows`.
- A Compose edit between two different values that JSON prints as null is lost:
  `ComposeEdit.ScalarEditIsExactUnless`.
- A key that is taken out of a mapping stays if every object inherits its name, as with a
  service called `constructor`, because `key in next` finds that too
  (`common/compose-editor.ts:315`), or if another key reads the same, such as 80 and "80". It goes
  if and only if neither is so: `ComposeDocument.KeyIsDroppedExactlyWhen`. A whole edit arrives at
  the wanted value if and only if no key that is to go has such a name:
  `ComposeEdit.EditReachesNext`, `ComposeEdit.InheritedNameLingers`.
- A legacy octal number is put back if and only if it is remembered under its own path and no
  later one left another text there: `LegacyOctal.OctalReturnsExactlyWhen`. Below a list of
  mappings it is printed as decimal (`LegacyOctal.ListOfMappingsLosesOctal`). In nested lists
  its path is another number's: `x-a: [0644, [0755]]` loses 0644, and `x-a: [1777, [01777]]`
  turns the decimal 1777 into 01777 (`LegacyOctal.NestedListsMisplace`,
  `LegacyOctal.OthersAreRewrittenExactlyWhen`). Every one of a document comes back if and only
  if the keys above each are strings and no list lies further up:
  `LegacyOctal.AllReturnExactlyWhen`.
- Overlapping reductions of a key can give back authority and an old policy version:
  `McpKeys.OverlappingReductionsRestoreAuthority`. A reduction takes away if and only if its
  check still holds of the row it overwrites and the lifetime does not grow:
  `McpKeys.ReductionTakesAwayExactlyWhen`. While no two of a key overlap, each takes away and
  raises the version (`McpOperations.McpServer.FinishReduce`), and no operation confirmed before
  one is executed on a check after it (`McpPolicies.ReducedPolicyIsNotExecuted`).

## Model

| member | source | states |
|---|---|---|
| Utf8.RereadKeepsExactlyText | backend/stack-write.ts:530 | Bytes survive being decoded as UTF-8 and encoded again if and only if they are well formed by the grammar of RFC 3629 |
| Utf8.PartIsReplaced | backend/stack-write.ts:530 | Where no character stands one U+FFFD is read, for the longest part that still begins one or for a single byte |
| Utf8.WellFormedExactlyEncodings | backend/stack-write.ts:239 | The well formed byte strings are exactly what texts are written as |
| StackJournal.JournalHoldsBothVersions | backend/stack-write.ts:377-383 | A finished journal holds the new text of every file and the original bytes of every file that existed |
| StackJournal.SettleEach | backend/stack-write.ts:575-612 | Recovering a set of files is recovering each of them by itself, in whatever order |
| StackJournal.SettleTwice | backend/stack-write.ts:587-595 | A file that was settled once is not changed by settling it again |
| StackJournal.RollbackIsExact | backend/stack-write.ts:572-637 | From any crash point before the marker the next start brings back all files exactly when each file that was replaced is restorable, and then selection and journals too |
| StackJournal.RollForwardIsExact | backend/stack-write.ts:572-675 | From any crash point after the marker the next start ends with every file and the selection at the new version and the journal gone |
| StackJournal.CrashSafeExactlyForText | backend/stack-write.ts:363-432 | All crash points before the marker roll back exactly if and only if every original is well formed text |
| StackJournal.RestartAfterCrash | backend/stack-write.ts:649-675 | With restorable originals everything ends at the old version if the crash came before the marker and at the new one if it came after, a crash before a readable manifest included |
| StackJournal.UndoIsExact | backend/stack-write.ts:515-536 | Undoing the first m replacements restores the files exactly if and only if each of those originals is restorable |
| StackJournal.RecoveryCanBeRepeated | backend/stack-write.ts:572-615 | A recovery of files that was cut short anywhere and started again ends with the files one uninterrupted recovery gives |
| StackJournal.RecoveryRepeats | backend/stack-write.ts:649-675 | A start after a crash anywhere inside the recovery ends exactly as one uninterrupted start, if and only if no file has to be put back whose text is neither of its two versions, or some other file stops the recovery anyway |
| StackJournal.JournalGoesOnlyWhenSettled | backend/stack-write.ts:572-675 | A journal is deleted exactly when every file held one of its two versions; a file then holds the wanted one exactly if it did before or that version is text; a third text stays and keeps the journal |
| StackJournal.LeftoverJournalChangesExactly | backend/stack-write.ts:703-711 | What a start does to a file of a leftover journal: one that holds the version the journal is to be rid of gets the text it kept of the wanted one, and every other stays the same |
| StackTrace.CrashPointsRestart | backend/stack-write.ts:450-501 | For every step of an undisturbed save, the start after a crash there finds the old version before the marker's step and the new one from it on |
| StackTrace.NoSilentOverwrite | backend/stack-write.ts:324-351 | No step of a save, forward or back, replaces a text other than the one its caller had hashed or the save's own |
| StackTrace.SavesFormOneChain | backend/stack-write.ts:324-612 | Over any run of saves, undone saves, recoveries, crashes and outside edits: when a text a file held is gone, the first step that took it away was an outside edit, or a save's whose target names that text, no baseline or the text itself, or a recovery's of a journal that an earlier save of the run opened, which had written that text or, behind a marker, replaced it, or that the run found at its start |
| StackTrace.JournalsAreOfSaves | backend/stack-write.ts:363-383 | Every journal with a manifest at any point of a run was opened with that manifest by an earlier save of the run or was there at its start |
| StackTrace.CrashLeavesRun | backend/stack-write.ts:450-501 | A process that dies between any two steps leaves a run |
| StackTrace.RunsContinue | backend/stack-write.ts:687-714 | What the next process does from the disk a run left continues that run, so that the chain goes on across restarts |
| StackTrace.FailedSaveIsUndone | backend/stack-write.ts:465-544 | An undone save left the disk as it was exactly when the replaced originals are restorable; one that was not undone still has every original in its journal |
| StackTrace.SafeNameIsPlain | common/stack-files.ts:29-45 | A name is accepted if and only if it is neither empty nor a dot nor too long and has no separator, colon, control character or two dots in a row |
| StackTrace.PlanErrorNames | backend/stack-write.ts:324-351 | A plan is made if and only if every file can be read and holds its baseline; otherwise the error is that of the first that cannot |
| StackTrace.SavedMeans | backend/stack-write.ts:404-431 | With every pending file replaced, each target holds the text asked for, with the permissions it had or else those asked for or the usual ones; no other file differs, and the selection is the new one |
| StackLeftover.LaterSaveSurvivesExactlyWhen | backend/stack-write.ts:659-675 | The journal of a first save stayed, with or without its marker, and a later save succeeded: the next start keeps a text saved last if and only if the leftover had not tried to write that same text over another, or, with a marker, had not replaced that text; the selections are those stored last if and only if the leftover has none, or the same one to store, or a file of it holds neither version |
| StackLeftover.SelectionSurvives | backend/stack-write.ts:661-668 | On any disk with such a journal: which selections a start changes, and to what |
| StackLeftover.SavedTextSurvives | backend/stack-write.ts:575-612 | On any disk with such a journal: a text that a file holds is kept if and only if the journal does not take it back |
| StackLeftover.LeftoverJournalUndoesLaterSave | backend/stack-write.ts:542-543 | A save is put back and its journal stays, the same text is saved again successfully, and the next start takes it back |
| StackLeftover.LeftoverJournalRevertsSelection | backend/stack-write.ts:661-663 | A save is put back and its journal stays, another file and a selection are saved successfully, and the next start takes the selection back |
| StackLeftover.FinishedJournalUndoesLaterSave | backend/stack-write.ts:495-496 | A save is complete but its journal stays, the original is saved again successfully, and the next start writes the first save's text |
| StackLeftover.MarkedSaveStaysExactlyWhen | backend/stack-write.ts:658-674 | A save with its marker written ends with its files at the new version if and only if the start sees the marker or every original reads as the new text; otherwise everything goes back and the journal is deleted |
| StackWrite.StackDirectory.ReadFile | backend/stack-write.ts:181-218 | Hash, bytes and mode of what the file holds, a refusal for links and oversized files, or a failed read |
| StackWrite.StackDirectory.PlanOne | backend/stack-write.ts:329-346 | A conflict only if the file does not hold the expected hash; otherwise the pending write records what was read, and none is made for a file that already holds the text |
| StackWrite.StackDirectory.PlanWrite | backend/stack-write.ts:324-351 | Nothing is written; the plan covers exactly the files that have to change, with distinct names, and the hashes of all targets; undisturbed it is refused exactly for the first file that cannot be read or has another baseline |
| StackWrite.StackDirectory.OpenJournal | backend/stack-write.ts:363-387 | The journal is complete before any file changes, and every step on the way has no readable manifest |
| StackWrite.StackDirectory.CommitOne | backend/stack-write.ts:404-421 | One file is replaced only if it holds what the plan read, by a step from that text to the new one, and taken as written only if it reads back as the new text |
| StackWrite.StackDirectory.CommitWrite | backend/stack-write.ts:403-432 | Files in order, selection, marker: the progress says exactly what was done, and undisturbed steps are crash points the recovery understands |
| StackWrite.StackDirectory.CommitSelection | backend/stack-write.ts:423-431 | The selection is stored before the marker, as long as the files can go back |
| StackWrite.StackDirectory.UndoOne | backend/stack-write.ts:518-535 | A file is put back, by a step from this save's text to what its original reads as, only if it still holds that text; otherwise nothing is touched |
| StackWrite.StackDirectory.UndoWrite | backend/stack-write.ts:515-544 | Files go back newest first; the journal is deleted only when each of them, others' edits or not, was put back by a step of this save, and no other file is touched |
| StackWrite.StackDirectory.FailSave | backend/stack-write.ts:483-493 | The selection is reverted before the files; failing that, the journal is kept with every original; an undone save has put back each file it had replaced |
| StackWrite.StackDirectory.SavePending | backend/stack-write.ts:477-499 | Every outcome of a save with something to write, what it leaves of the journal, that all its steps are its own, and that one called undone has put back exactly what it had replaced |
| StackWrite.StackDirectory.CheckRequest | backend/stack-write.ts:451-463 | A request is let through if and only if each name is safe, each text fits the limit and no name comes twice; otherwise the error is that of the first unfit file, or of the repetition |
| StackWrite.StackDirectory.WriteStackFiles | backend/stack-write.ts:450-501 | The whole save: refusals change nothing; undisturbed and without a fault it succeeds if and only if each name is safe, each text fits, no name comes twice, and each file is readable and holds its baseline, and it names the reason otherwise; undisturbed, a success leaves each target with its text and permissions, no other file changed and the new selection. A success means that each file went by a step of this save, others' edits or not, from the text it was planned from to the new one, and an undone save that each file it touched went back; an undisturbed run ends as its outcome says and all its steps are crash points of the recovery; the new causes of the run are this save, and every step stays accounted for |
| StackWrite.StackDirectory.SaveSelection | backend/stack-write.ts:468-475 | With no file to change the selection alone is stored or nothing is |
| StackWrite.StackDirectory.RestoreOne | backend/stack-write.ts:575-612 | One file is left, brought to the wanted version, or reported, as the recovery function says |
| StackWrite.StackDirectory.RestoreJournalFiles | backend/stack-write.ts:572-615 | Each file is settled as the recovery function says unless it is reported, and reported only for a third text or an operation of its own that failed, so that one does not stop the others |
| StackWrite.StackDirectory.RestoreJournalMetadata | backend/stack-write.ts:626-637 | The selection becomes the one that belongs to the version of the files, or stays |
| StackWrite.StackDirectory.RecoverJournal | backend/stack-write.ts:649-675 | A fault may hide the manifest, which leaves everything as it is, or the marker, which takes a finished save for an unfinished one. Otherwise a journal is deleted only after every file was seen resolved, outside edits or not, and the selection stored, and is set aside when not; undisturbed the disk is the one recovered from what the start took the journal to be |
| StackWrite.StackDirectory.RecoverStackWrites | backend/stack-write.ts:687-714 | Every journal found is counted once: as finished exactly if it was taken with a marker and is deleted, as undone exactly if without one and deleted, as unresolved exactly if it is left or set aside as it was; without a fault each is taken as it is. Others are left as they were; undisturbed the disk is all of them recovered in turn; a listing that fails stops everything before it began |
| StackLock.StackLocks.StackLockBusy | backend/stack-lock.ts:38-40 | True exactly while some operation holds the directory or waits for it |
| StackLock.StackLocks.Enter | backend/stack-lock.ts:51-71 | A call under a held directory runs at once; any other waits behind the newest one and is registered before the call returns |
| StackLock.StackLocks.Resume | backend/stack-lock.ts:71-77 | An operation whose promise was awaited starts, and everyone who asked before it has left |
| StackLock.StackLocks.Leave | backend/stack-lock.ts:76-85 | An operation leaves whether it succeeded or not, and only the last one clears the entry |
| StackLock.ResolvedMeansAllLeft | backend/stack-lock.ts:59-69 | The chained promise of an operation has ended exactly when it and everyone before it in the queue have left |
| StackLock.RunsWhenFirst | backend/stack-lock.ts:66-71 | An operation may start exactly when everyone who asked for the directory before it has left |
| StackLock.OneAtATime | backend/stack-lock.ts:51-86 | At most one operation that queued for a directory runs in it |
| StackLock.InOrderOfArrival | backend/stack-lock.ts:51-86 | An operation has started only if all that asked before it have left, even by failing |
| StackLock.RunsUnderItsHolder | backend/stack-lock.ts:52-57 | Whatever runs in a directory, nested or not, runs within the one operation that queued for it and still runs |
| StackLock.NobodyWaitsForItself | backend/stack-lock.ts:52-57 | No operation waits for a directory that it or its callers hold |
| StackLock.QueueHasAHead | backend/stack-lock.ts:80-84 | Behind every waiting operation's queue there is one that runs or may start |
| StackLock.SomebodyCanMove | backend/stack-lock.ts:51-86 | While nested directories are taken in one order, and in particular while none are nested, some operation can start or leave |
| StackLock.AskingInOrder | backend/stack-lock.ts:51-57 | A caller keeps to the order by asking only for a directory it holds or one above all it holds |
| StackLock.CrossedOperationsBlock | backend/stack-lock.ts:51-86 | A run of calls after which two operations wait inside for each other's directory and nobody can move |
| GitBatch.ReadObjects | backend/stack-git.ts:451-470 | The reading succeeds if and only if the batch starts with the printing of some contents for the entries; then its names are exactly those of the entries, and each name has the bytes that stand after the header of its last entry |
| GitBatch.ReadObject | backend/stack-git.ts:459-464 | One object is read exactly where its header line, its bytes and a newline stand |
| GitBatch.DigitsReadBack | backend/stack-git.ts:459-462 | The size in a header reads back, digit by digit, as the size of the entry |
| GitBatch.HeaderEndsAtNewline | backend/stack-git.ts:459-462 | Comparing up to the first newline is comparing the whole header line, whatever the contents hold |
| GitApply.SameTreeIsPointwise | backend/stack-git.ts:208-214 | Comparing sizes and one side's files is the same as comparing every name on both sides |
| GitApply.EqualFileMeans | backend/stack-git.ts:208-210 | Two files compare equal if and only if both are missing, or their bytes and each of their three executable bits are the same |
| GitApply.ResolveResult | backend/stack-git.ts:309-339 | Exactly the files chosen `git` or `edited` change, in order and once each. An edited one holds the edited text with the mode it had, or the target's if it is new; one chosen `git` is gone exactly if the target has none, and else has the target's bytes and executable bits with its own read and write bits, or the whole mode if it is new |
| GitApply.WantedKeepsPermissions | backend/stack-git.ts:325-329 | A chosen Git version has Git's bytes and executable bits and the directory's other bits |
| GitApply.WantedIsAsChosen | backend/stack-git.ts:317-334 | Case by case, what each choice makes of a file |
| GitWrite.GitDirectory.KeepOriginals | backend/stack-git.ts:795-805 | When it succeeds every original of a file to change and the index are kept aside |
| GitWrite.GitDirectory.ReplaceOne | backend/stack-git.ts:737-744 | A file is replaced only if it still is what the comparison showed; undisturbed and without a fault, exactly if so |
| GitWrite.GitDirectory.SwitchIndex | backend/stack-git.ts:745-750 | The index is switched only at a moment when the whole tree was the result and the index untouched; undisturbed and without a fault, exactly if so |
| GitWrite.GitDirectory.MoveBranch | backend/stack-git.ts:751 | The branch moves only from the commit that was compared; undisturbed and without a fault, exactly if it is there |
| GitWrite.GitDirectory.RestoreOne | backend/stack-git.ts:754-763 | A file is put back only if it still holds what this apply wrote |
| GitWrite.GitDirectory.Rollback | backend/stack-git.ts:752-771 | Either nothing of this apply is left in place, or the recovery directory is there and something is |
| GitWrite.GitDirectory.Write | backend/stack-git.ts:717-783 | Three ends: the result with the target's index and branch; every file as it was or, if it was replaced, as compared, which is exact if and only if no replaced file had other permissions; or a backup that holds every original not put back. At every moment originals are safe, and no step overwrote an edit. Undisturbed and without a fault it applies if and only if branch, commit, files and index are as compared, and otherwise leaves everything as it was |
| GitWrite.ResultIsInPlace | backend/stack-git.ts:745-751 | With all files and the index switched the directory holds the result, and untouched files are the same |
| GitWrite.NothingIsLost | backend/stack-git.ts:753-770 | What is no longer touched is as it was, or was replaced and is as it was compared, and the two are the same if and only if it was compared with its own permissions; what is touched has its original in the backup |
| GitWrite.AppliedKeepsBitsExactlyWhen | backend/stack-git.ts:208-210 | An applied file keeps its own read and write bits if and only if they were not changed after the comparison |
| GitWrite.ReplacingKeepsSound | backend/stack-git.ts:739-743 | Replacing a compared file keeps every original safe and every overwritten state accounted for |
| GitWrite.RestoringKeepsSound | backend/stack-git.ts:754-762 | Putting a file back does the same |
| Availability.SortedIsSorted | common/availability.ts:115-116 | Sorting orders the changes by start and keeps each of them |
| Availability.SortingKeepsLatest | common/availability.ts:115-116 | Sorting and dropping later starts changes the answer for no instant up to now |
| Availability.Measure | common/availability.ts:63-95 | Covered, healthy and stopped time of the sweep are the numbers of instants of each kind, and incidents those of alert entries that do not carry on the one before |
| Availability.ComputeAvailability | common/availability.ts:102-135 | For any list, unsorted and overlapping, the answer is the one counted instant by instant: covered time, ratio and verdict by the instants of each kind, incidents by the alert entries that do not carry on the one before, status and duration by the latest change if it is fresh |
| Availability.KindsAreDisjoint | common/availability.ts:78-84 | Healthy, stopped and alert time are disjoint parts of the covered time, which never exceeds the window |
| Availability.SweepIsPointwise | common/availability.ts:112-123 | The sweep over the sorted entries counts what the list as it came says of each instant |
| Availability.IncidentsAreRises | common/availability.ts:85-91 | Incidents are the beginnings of alerts plus the alerts that go on across an entry that took no time |
| Availability.KnownStatusesArePartitioned | common/availability.ts:23-30 | Every known status is covered and is exactly one of healthy, stopped and alert |
| Timeline.RunIsWellFormed | backend/observations.ts:46-80 | Recorded intervals start in order, end before the next starts, and the last is open at the last sample |
| Timeline.RecordingIsPointwise | backend/observations.ts:46-80 | The recorded intervals say of every instant what the raw samples say: covered exactly between two samples close enough, with the status of the earlier |
| Timeline.RecordingIsCompact | backend/observations.ts:53-58 | A stretch of equal samples is one interval: neighbours that touch differ in status |
| Timeline.NewestIsLastStretch | backend/observations.ts:46-80 | The newest row is the newest stretch of close samples that agree, also after a break |
| Timeline.NothingSpansABreak | backend/stability.ts:215-226 | Between the last sample before a failed reading and the first after it nothing is covered |
| Readers.SingleReaderIsExact | backend/observations.ts:150-182 | The single-stack reader answers every window as the whole history would |
| Readers.BatchReaderAgreesExactlyWhen | backend/observations.ts:198-215 | The batch reader gives the same answer if and only if the newest row is not a known, still fresh state that ended before the window |
| Readers.ReadersAgreeOnLongWindows | backend/observations.ts:150-215 | For windows of at least 90 seconds both readers answer as the whole history |
| Readers.ReadersDifferOnShortWindows | backend/observations.ts:198-215 | For every shorter window some recorded history makes them differ |
| Readers.PruningChangesNoAnswer | backend/observations.ts:125-136 | Pruning changes no answer for a window up to the retention length, by either reader |
| Readers.AnswerCountsTheSamples | common/availability.ts:102-135 | From raw samples to the answer, field by field: covered time is the number of instants between close samples of a known status, the ratio its healthy share, stopped means all of it, the incidents are the beginnings of alerts, and status and duration are those of the newest sample if it is fresh |
| Readers.AnswerIsOfTheSamples | common/availability.ts:102-135 | The recorded rows answer exactly as the raw samples: covered time, ratio and verdict, the beginnings of alerts, the status of the newest sample and since when it has held |
| Readers.RawAnswerSays | common/availability.ts:102-135 | What the answer looked up in the samples alone says in each of its fields |
| Readers.RecordedIncidents | common/availability.ts:85-91 | On recorded rows the incidents are exactly the beginnings of alerts |
| Readers.RecordedCurrent | common/availability.ts:45-54 | The current state is that of the newest sample, if it is fresh, held since the first of the close samples that agree with it |
| ObservationTable.RecordSample | backend/observations.ts:46-80 | One sample confirms the last interval or opens a new one, also when the row is gone |
| ObservationTable.RecordingFollows | backend/observations.ts:51-70 | Recording a sample keeps the rows of its key equal to the merged samples less what was pruned |
| ObservationTable.RecordingLeavesOthers | backend/observations.ts:54-65 | and leaves every other key as it was |
| ObservationTable.PruningFollows | backend/observations.ts:125-136 | Pruning removes exactly the rows that ended before, of every key |
| ObservationTable.BreakingFollows | backend/observations.ts:218-220 | Forgetting a key changes no row and breaks its run of samples |
| Recording.SampleKeepsStep | backend/observations.ts:46-80 | A sample of one key keeps all keys in step with their raw samples |
| Recording.ScanAddsOneEach | backend/observations.ts:99-110 | A scan gives each of its keys one sample with its status, and no other key anything |
| Recording.BreakingKeepsStep | backend/stability.ts:220-226 | Losing track of some keys keeps all in step |
| Recording.PruningKeepsStep | backend/stability.ts:269 | So does pruning in the same transaction |
| Recording.RowsAnswerAsSamples | backend/observations.ts:192-215 | Both readers, on the rows that are left after merging and pruning, answer exactly as the raw samples do |
| Observations.StackObservations.RecordStatus | backend/observations.ts:46-80 | The rows, the remembered interval and the number of insertions are those of one sample, and the recorder stays in step |
| Observations.StackObservations.DropStale | backend/observations.ts:95-99 | Exactly the intervals too old to be joined are forgotten |
| Observations.StackObservations.RecordScan | backend/observations.ts:89-119 | A scan gives each stack, up to the one it was called off at, one sample with its status and no other stack anything, prunes when due, and keeps every stack in step |
| Observations.StackObservations.PruneOldObservations | backend/observations.ts:125-136 | Exactly the rows that ended before the retention window go |
| Observations.StackObservations.ForgetObservation | backend/observations.ts:218-220 | A disappeared stack is forgotten and its rows stay |
| Observations.StackObservations.Reset | backend/observations.ts:226-229 | A restart breaks every run of samples and changes no row |
| Observations.StackObservations.ReadAvailability | backend/observations.ts:192-195 | For a window up to the retention length the answer is exactly that of the raw samples, incidents and current state included |
| Observations.StackObservations.ReadAvailabilityBatch | backend/observations.ts:198-215 | The same for every selected stack and windows of at least 90 seconds |
| Stability.StabilityCollector.Begin | backend/stability.ts:176-181 | At most one reading a minute, failed ones included, and none while one is under way |
| Stability.StabilityCollector.WriteObservations | backend/stability.ts:243-275 | All containers are recorded and old rows pruned, or nothing at all changes |
| Stability.StabilityCollector.Finish | backend/stability.ts:182-228 | A failed reading forgets every container and changes no row, a cancelled one changes nothing, a written one adds to each container one sample with its status and to every other a break; the records stay in step |
| Stability.ObservedAreAllButOwn | backend/stability.ts:200 | A container is recorded, as often as it was read, if and only if its project is not the panel's own |
| Stability.ObservedInOrder | backend/stability.ts:200 | in the order they were read |
| Stability.StabilityCollector.Read | backend/stability.ts:104-121 | The containers of the last reading, each answered exactly as its raw samples say, also by a process that started on the records of another; an overview is stale unless this process read recently, and then says nothing of the present |
| ComposeTree.OneStepDown | common/compose-editor.ts:326 | Replacing one step further down a path is replacing a child at the path |
| ComposeEdit.EditReachesNext | common/compose-editor.ts:313-389 | After an edit from a tree's own value the tree says what was wanted, up to key order and numbers JSON prints as null, if and only if no key that is to go has a name every object inherits |
| ComposeEdit.FiniteEditIsExact | common/compose-editor.ts:313-389 | With finite numbers alone it says exactly what was wanted, under the same condition and no other |
| ComposeEdit.InheritedNameLingers | common/compose-editor.ts:314-318 | A service with such a name, taken out by the user, stays in the tree as it was |
| ComposeEdit.EqualValuesKeepTheNode | common/compose-editor.ts:343-346 | A node whose value is wanted as it is stays the same node with everything below it |
| ComposeEdit.UntouchedNodesStay | common/compose-editor.ts:313-389 | At every path the recursion reaches, an unchanged value keeps its node with its notes, and a changed scalar keeps its note |
| ComposeEdit.KeysKeepTheirOrder | common/compose-editor.ts:313-348 | An edited mapping keeps its note and its keys with their notes in their order, but for those neither wanted nor inherited; new keys follow in the order they are wanted in |
| ComposeEdit.ItemsKeepTheirPlaces | common/compose-editor.ts:359-389 | An edited sequence keeps its note and has one item for each wanted; an equal item stays, a scalar keeps its note, a mapping that stays one is edited inside |
| ComposeEdit.ScalarEditIsExactUnless | common/compose-editor.ts:344 | A scalar edit is lost exactly between two different values that both print as null |
| ComposeDocument.Document.ApplyDiff | common/compose-editor.ts:313-348 | Key by key in place, the mapping at a path becomes exactly the edited one and nothing else in the document changes |
| ComposeDocument.Document.DeleteKeys | common/compose-editor.ts:314-318 | The keys not wanted are gone, numeric keys included, except those whose names every object inherits, and the others untouched |
| ComposeDocument.Document.ApplyKey | common/compose-editor.ts:320-347 | One wanted key is appended, edited or left, and the others stay |
| ComposeDocument.Document.ApplyArrayDiff | common/compose-editor.ts:359-389 | Item by item in place, the sequence at a path becomes exactly the edited one |
| ComposeDocument.Document.DeleteItems | common/compose-editor.ts:364-367 | Deleting surplus items from the end leaves exactly the wanted number of first ones |
| ComposeDocument.Document.ResolveMapKey | common/compose-editor.ts:399-413 | The key used for a text is the one that is no string, if there is one |
| ComposeDocument.KeyIsDroppedExactlyWhen | common/compose-editor.ts:314-318 | A key that is not wanted goes if and only if its name is not inherited and no second key reads the same |
| ComposeDocument.EditingOneKey | common/compose-editor.ts:326-346 | The resolved key leads to the original node of the text, and editing it changes that pair alone |
| LegacyOctal.ApplyEdits | common/compose-editor.ts:259-266 | Cutting the edits out from the last to the first replaces all of them at once, in whatever order they were found |
| LegacyOctal.EditedReads | common/compose-editor.ts:264-266 | In the result every edited range reads as the text of its edit |
| LegacyOctal.OthersRead | common/compose-editor.ts:264-266 | and every other character is there, moved by what the edits before it added |
| LegacyOctal.ToNodePath | common/compose-editor.ts:277-295 | The remembered path has the keys of the pairs above a node and its own index, and none for a key that is no string |
| LegacyOctal.RememberedExactlyWhen | common/compose-editor.ts:277-295 | The remembered path is the number's own address if and only if its keys are strings and no list lies above, except the one it is an item of |
| LegacyOctal.ListOfMappingsLosesOctal | common/compose-editor.ts:247-257 | Below a list of mappings the remembered path leads nowhere |
| LegacyOctal.CollectLegacyOctal | common/compose-editor.ts:210-231 | The map holds, for each remembered path, the text of the last number under it |
| LegacyOctal.EditCarriesTheText | common/compose-editor.ts:247-256 | The edit of a path is at the number found there and carries exactly the remembered text, if the number still is that text |
| LegacyOctal.ChosenCarryTheTexts | common/compose-editor.ts:247-256 | The edits made are exactly these, one for each number under a remembered path |
| LegacyOctal.RestoreLegacyOctal | common/compose-editor.ts:239-266 | In the printed text exactly those numbers are replaced whose address is remembered and whose value the remembered text has |
| LegacyOctal.OctalReturnsExactlyWhen | common/compose-editor.ts:213-256 | A number that was not edited is put back if and only if it is remembered under its own address and no later number left another text under it |
| LegacyOctal.OthersAreRewrittenExactlyWhen | common/compose-editor.ts:247-256 | A number that was not octal is rewritten if and only if it equals the last octal number remembered under its address, which is one from elsewhere |
| LegacyOctal.AllReturnExactlyWhen | common/compose-editor.ts:210-266 | All octal numbers come back if and only if the keys above each are strings and no list lies above any but the one it is an item of; then no other number is touched |
| LegacyOctal.MisplacedOnlyFromNestedLists | common/compose-editor.ts:277-295 | A path that is not the number's own leads to a node only out of nested lists: it drops all indexes but the last |
| LegacyOctal.NestedListsMisplace | common/compose-editor.ts:213-256 | Two documents: one octal number is lost, and one decimal number becomes octal |
| McpKeys.AccessExactlyWhen | backend/mcp-keys.ts:181-211 | A key is granted an action if and only if it is valid now and both it and its active owner may operate on exactly that stack |
| McpKeys.ReductionShrinks | backend/mcp-keys.ts:93-113 | A reduction with nothing in between takes away in every respect and raises the policy version by one |
| McpKeys.AcceptedExactlyWhenItTakesAway | backend/mcp-keys.ts:93-113 | The check accepts a reduction of a key in force if and only if what it would write takes away in every respect and leaves a viewer nothing to act with |
| McpKeys.NoMoreMeansNoMoreAccess | backend/mcp-keys.ts:181-211 | A reduced key is granted nothing the key was not granted before, and stays in approval mode |
| McpKeys.ReductionTakesAwayExactlyWhen | backend/mcp-keys.ts:93-113 | A reduction checked against the row it read takes only away from the row it overwrites if and only if the check holds of that row, too, and the lifetime does not grow |
| McpKeys.OverlappingReductionsRestoreAuthority | backend/mcp-keys.ts:95-113 | Three overlapping reductions after which removed authority and an old version are back |
| McpOperations.McpServer.BeginPrepare | backend/mcp-operations.ts:175-181 | A request goes on if and only if the key may act now, for this account and as an operator who does not only read, and has the permission; nothing else changes |
| McpOperations.McpServer.LookUp | backend/mcp-operations.ts:185-195 | A request stored before is taken up again; a new one goes on if and only if the key that was read has access |
| McpOperations.McpServer.AnswerRepeat | backend/mcp-operations.ts:187-193 | A stored request is answered with its row if and only if the key, read anew, has the policy of the row and access, and the arguments are the same |
| McpOperations.McpServer.AskAtOnce | backend/mcp-operations.ts:175-195 | With nothing between these steps the answer is the one that key, row and arguments give at that moment |
| McpOperations.McpServer.ConfirmPrepare | backend/mcp-operations.ts:196-200 | Preparation goes on if and only if the key, read anew, has the same account and policy version and still access, and goes on with what was read |
| McpOperations.McpServer.Insert | backend/mcp-operations.ts:212-237 | One row per key and request. It has the key, policy version and mode of the identity confirmed last and the arguments of the request, waits for approval if and only if that identity is in approval mode, and expires ten minutes later |
| McpOperations.McpServer.Refresh | backend/mcp-operations.ts:114-120 | Each check uses the authority found at that step, or the call ends; a call that ends after its claim leaves its row failed |
| McpOperations.McpServer.Look | backend/mcp-operations.ts:250-280 | A call goes on from a check exactly when the row's key, policy, access, files and, at first, hash, state, expiry and approval allow it: from the first check to the second, to the claim, and after the claim to the effect; a refused call changes nothing, but after the claim its row has failed |
| McpOperations.McpServer.Claim | backend/mcp-operations.ts:271-275 | The claim succeeds exactly if the row is prepared and not expired, and then the row runs and the authority is read once more |
| McpOperations.McpServer.Execute | backend/mcp-operations.ts:276-283 | The effect is recorded with the authority found after the claim, and it is the first of its operation |
| McpOperations.McpServer.Finish | backend/mcp-operations.ts:286-293 | The outcome is stored by the call that claimed and executed, on that row alone, and the prepared contents are dropped |
| McpOperations.McpServer.GiveUp | backend/mcp-operations.ts:288-290 | A refused call changes no row, unless it held a claim: then its row has failed |
| McpOperations.McpServer.Approve | backend/mcp-operations.ts:316-329 | Only an active administrator approves, only a waiting operation, only before it expires |
| McpOperations.McpServer.Restart | backend/mcp-operations.ts:62-63 | A restart forgets prepared contents and calls, and every invariant still holds |
| McpOperations.McpServer.BeginReduce | backend/mcp-keys.ts:93-104 | A reduction begins exactly if its check holds of the row it reads |
| McpOperations.McpServer.FinishReduce | backend/mcp-keys.ts:105-113 | Its writing, any number of steps later, keeps every invariant; it takes away exactly if its check holds of the row it overwrites, and without overlaps it always does and raises the version by one; what it writes is what was asked for, with the earlier of two ends |
| McpOperations.McpServer.Revoke | backend/mcp-keys.ts:156-157 | So does a revocation |
| McpState.CarriedOutOnceAndRightly | backend/mcp-operations.ts:263-283 | In every state an operation was carried out at most once, after a claim and a later check of the same policy version, and with the approval it waited for |
| McpState.SucceededWasCarriedOut | backend/mcp-operations.ts:281-287 | An operation that ended well was carried out |
| McpState.ApprovalIsNeverSkipped | backend/mcp-operations.ts:223-265 | In any run of steps, an operation stored to wait for approval and carried out by the end was approved in a step before which it was waiting and had not been carried out |
| McpPolicies.ReducedPolicyIsNotExecuted | backend/mcp-operations.ts:121-132 | While no two reductions of a key overlap, an operation confirmed before one of them is never carried out on a check that came after it |
| McpPolicies.WritingKeeps | backend/mcp-keys.ts:105-113 | A written reduction has a greater version than every identity found before, while none of its key overlap |
| McpState.ExecutingStep | backend/mcp-operations.ts:276-283 | An execution is the only one of its operation, follows a claim and a later check of the same policy, and was approved if the operation was prepared in approval mode |
| McpState.ClaimStep | backend/mcp-operations.ts:271-272 | A claim is the only one on its operation, which has not been executed |
| McpState.EndingStep | backend/mcp-operations.ts:286-293 | Only the call that holds the claim ends an operation, and well only after it was executed; no row goes back to an earlier state |
| DockerRun.TokeniseCommand | common/docker-run-flags.ts:172-219 | The loop over characters gives the tokens as defined on the rest of the command |
| DockerRun.TokensOfJoined | common/docker-run-flags.ts:172-219 | Any list of tokens can be quoted so that the command reads back as exactly that list |
| DockerRun.TokensOfLine | common/docker-run-flags.ts:178-216 | Tokens written bare, quoted, broken over lines or in any mixture of these, with any spaces between them, read back as what was written; a word without characters and quotes is none |
| DockerRun.ReadTokens | common/docker-run-flags.ts:263-342 | One reading gives the flags, image and arguments of the groups after `run`, and the last guess if there is no image |
| DockerRun.ReadLetters | common/docker-run-flags.ts:304-336 | The flags of a token of short ones, and whether the last takes the next token |
| DockerRun.LongFlagMeans | common/docker-run-flags.ts:284-299 | A long flag has the value after its first `=`; without one it takes the next token exactly if it is known to have a value, or, unknown and no switch, if that token looks like one, which is a guess |
| DockerRun.ShortFlagsMean | common/docker-run-flags.ts:308-332 | Short flags are switches up to the first that is followed by `=` and more or has a value; that one has what follows, or, standing last, the next token |
| DockerRun.ReadingSplitsTokens | common/docker-run-flags.ts:263-342 | The tokens after `run` are exactly the groups of flags, the image and the arguments, and each group's flags say its tokens |
| DockerRun.FlagsInOrder | common/docker-run-flags.ts:264-331 | The flags of a reading are those of its groups in order |
| DockerRun.ShortFlagsSpellOut | common/docker-run-flags.ts:308-332 | The flags of a short token spell out all of its letters |
| DockerRun.GuessIsNew | common/docker-run-flags.ts:290-293 | A guess is an unknown flag that was not a switch yet |
| DockerRun.GuessIsLatest | common/docker-run-flags.ts:290-293 | The guess reported is the position of the last unknown flag that took the next token |
| DockerRun.WithoutGuessesAllAreSwitches | common/docker-run-flags.ts:154-162 | A reading without guesses is the reading with every unknown flag as a switch |
| DockerRun.Switches | common/docker-run-flags.ts:246-254 | Giving up the latest guess again and again ends, with an image or without a guess |
| DockerRun.ParseDockerRun | common/docker-run-flags.ts:242-255 | Reading again gives up the latest guess each time, ends, splits the tokens without loss, and finds an image whenever the reading with every unknown flag as a switch has one |
| BoundedCache.BoundedCache.Get | backend/bounded-cache.ts:27-39 | A live entry is returned and becomes the most recent one; an expired one is removed and never returned |
| BoundedCache.BoundedCache.Put | backend/bounded-cache.ts:42-60 | The shortest run of least recently used entries that makes room is evicted; a value not admitted leaves its key absent; both bounds and the byte count hold |
| BoundedCache.BoundedCache.MakeRoom | backend/bounded-cache.ts:47-53 | The eviction loop ends with room for the value unless no entry is allowed at all |
| BoundedCache.BoundedCache.Delete | backend/bounded-cache.ts:70-80 | Exactly one entry goes and its bytes are given back |
| BoundedCache.BoundedCache.Sweep | backend/bounded-cache.ts:90-106 | The sweep leaves exactly the live entries and is due again exactly when the first of them expires |
| BoundedCache.WithoutFreesItsBytes | backend/bounded-cache.ts:71-75 | Taking out an entry lowers the sum by exactly its bytes |
| BoundedCache.WithoutOneOfThem | backend/bounded-cache.ts:70-75 | Taking out an entry leaves all others in their order |
| BoundedCache.LiveOfParts | backend/bounded-cache.ts:96-103 | The live entries keep their order |
| SharedReading.SharedReading.Get | backend/shared-reading.ts:30-53 | What is handed out comes from a reading of the current generation, and a new reading starts only if none of that generation is running |
| SharedReading.SharedReading.Resolve | backend/shared-reading.ts:40-45 | A value is kept only if nothing was invalidated since its reading began |
| SharedReading.SharedReading.Reject | backend/shared-reading.ts:40-50 | A failed reading leaves the kept value and everything else as it was |
| SharedReading.SharedReading.Invalidate | backend/shared-reading.ts:59-64 | No reading begun before counts any more |
| ResourceOwner.ResourceOwner.StopAll | backend/resource-owner.ts:114-149 | Every resource registered when the shutdown began is stopped exactly once, newest first, whatever the others do and whoever registers or leaves meanwhile; within shares the whole stays within the budget, and a budget of 500 ms each leaves nobody with less |
| ResourceOwner.ResourceOwner.Stop | backend/resource-owner.ts:99-107 | The first call begins the one shutdown with what is registered; every other, while it runs or later, changes nothing and gets its report |
| ResourceOwner.ResourceOwner.StopNext | backend/resource-owner.ts:121-145 | One step of the shutdown calls the next handler of the list, and no other, with its share of the time left, and reports it by how it ended |
| ResourceOwner.ResourceOwner.Remove | backend/resource-owner.ts:66-71 | The given resource is taken out of the list, and no other |
| ResourceOwner.SharesLeaveRoom | backend/resource-owner.ts:130-134 | With room for the minimum of all, each share is at least that and leaves as much for the others |
| ResourceOwner.ShareExactly | backend/resource-owner.ts:130-134 | A share is nothing of no time, all of less than the minimum, the even share where that is enough, and the minimum in between |

## Left out

- Docker, Git, SSH and terminal processes, HTTP, sockets and the text of SQL queries: calls whose results are parameters or open choices here.
- The YAML parser and printer: a document is an annotated tree with get, set, delete and append; anchors, aliases and tags, for which the editor refuses a structural edit, do not occur in it.
- Documents without any content and documents that are no mapping: the edit starts at a mapping.
- Keys of mappings that are collections, and values that are `undefined`, have no counterpart in the tree.
- ComposeDocument.Document.ResolveMapKey: takes one text per key for the editor and for the lookup; a null or NaN key, which reads as the empty text or another one in the plain value than in the comparison, does not fit that.
- ComposeEdit.EditReachesNext: asks for mappings without two keys of one text where the edit reaches, because `ComposeDocument.DeletionNeedsDistinctTexts` shows what happens otherwise.
- ComposeDocument.Document.ApplyKey: a new key `__proto__` with a mapping is written entry by entry in the code, and not at all if the mapping is empty; here it is appended like any other.
- StackWrite.StackDirectory.RecoverJournal: what is said of a crash inside a recovery is about a journal taken as it is, not about one whose marker was missed.
- Ownership of files, inode checks, fsync and loss of power.
- The name patterns of stack files and the order of directory listings.
- The settings object that all stacks share is one cell per stack (`backend/stack-config.ts:204-208`).
- StackLock: work that escapes an operation and still inherits its held directories is not modelled.
- GitWrite.GitDirectory.Write: says nothing about the lock and recovery directories when their removal at the end fails, and takes file paths as plain names without parent directories.
- GitWrite: a process that dies during an apply leaves the index lock behind, after which applies are refused until someone removes it; only the safety of originals at every moment is stated.
- GitApply: checks of the browser's answer, size limits, previews and validation of the staged result.
- LegacyOctal.RestoreLegacyOctal: takes the numbers of the printed document with their addresses and ranges as given; numbers are exact, octal numbers that are keys do not occur, and a key that reads as a number is no index of a list.
- GitBatch.ReadObjects: the modes of files and the listing that names the entries are not part of it.
- Observations: a failed database write, after which rows and samples may part for a stack, and rows from before interval ends were recorded.
- Observations.StackObservations.ReadAvailabilityBatch: one query per stack instead of one per 400 names.
- Stability: matching containers with stacks, the grouping and sorting of the answer, and the state, uptime and restart count of each container, which a stale overview withholds as well.
- McpOperations.McpServer.Refresh: reads the key and its account in one step, and so do the other steps that find an identity (`backend/mcp-keys.ts:182-188`); a repeated request reads its row and its authority together.
- McpOperations: the limit of 500 prepared operations, the guard handed to handlers, the wording of summaries and the details of requests; approval reads the owner and writes the row in one step, and one process serves at a time.
- McpKeys: issuing and reissuing keys, secrets, and the check that stored scopes are well formed. A reissue also writes a lifetime it has read before.
- DockerRun: the tables of flags are a parameter, so the statements hold for any table; characters are whole code points.
- BoundedCache: sizes are whole numbers, and the time handed to `get` and `set` is also the time of the sweep.
- SharedReading: a reader that throws before it returns a promise.
- ResourceOwner.ResourceOwner.StopAll: resources registered while a shutdown runs stay registered and are not stopped by it, as in the code; time is measured in whole milliseconds.
- ResourceOwner.ResourceOwner.Stop: a handler that asks for a shutdown before it first waits, while the first call has not returned, gets a report of nothing at once (`backend/resource-owner.ts:104-105`); here every call finds the promise stored.
- `backend/panel-update.ts`, `backend/mcp-delegation.ts`, `backend/mcp-server.ts` and the sign-in code: wiring around foreign calls.
- `common/compose-status.ts`, `common/compose-progress.ts`, `common/docker-time.ts` and `common/image-source.ts`: tables of cases that would only add easy members.
