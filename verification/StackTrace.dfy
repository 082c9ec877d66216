/**
 What the steps of a save and of a recovery say about the disks they go through.

 A trace is the sequence of steps made so far, the panel's and those of other processes.
 Every disk in it is a possible crash point. A run is a trace in which every step of the panel
 has its cause; what is said of runs holds of any saves, recoveries, crashes and edits.
 */
module StackTrace {
  import opened Results
  import opened Utf8
  import opened StackJournal

  datatype Actor = Panel | Outsider

  /** One change of the disk: who made it, what it started from and what it left */
  datatype Step = Step(actor: Actor, from: Disk, disk: Disk)

  /** What a save has done so far, which the compensation needs exactly when the save fails */
  datatype Progress = Progress(written: seq<Name>, metadataApplied: bool)

  datatype SaveOutcome =
    | Saved(hashes: map<Name, Hash>, changed: seq<Name>)
    | Refused(error: Error)            // nothing was written, not even a journal
    | JournalNotOpened                 // the journal could not be completed, no file was touched
    | Undone(error: Error)             // the save failed and its files were put back
    | KeptForRecovery(backup: JournalId)  // it could not be undone and the journal stays
    | CleanupFailed(committed: bool)   // everything else was done, but the journal could not be deleted

  // ---------------------------------------------------------------- what a trace may say

  /** Each step starts from the disk the one before it left. */
  ghost predicate Chained(trace: seq<Step>, start: Disk, end: Disk) {
    if |trace| == 0 then start == end
    else trace[|trace| - 1].disk == end && Chained(trace[..|trace| - 1], start, trace[|trace| - 1].from)
  }

  lemma ChainedMore(trace: seq<Step>, start: Disk, step: Step)
    requires Chained(trace, start, step.from)
    ensures Chained(trace + [step], start, step.disk)
  {
    assert (trace + [step])[..|trace|] == trace;
  }

  /** The panel moves a file only between the two texts of its own save. */
  predicate OwnChange(node: Option<Node>, after: Option<Node>, p: PendingWrite) {
    || (HoldsText(node, HashOf(p.before)) && after == AfterNode(p))
    || (HoldsText(node, Some(Sha256(p.after))) && after == RestoredNode(p))
  }

  ghost predicate OwnStep(disk: Disk, next: Disk, pending: seq<PendingWrite>) {
    forall name | At(next.files, name) != At(disk.files, name) ::
      exists k :: 0 <= k < |pending| && pending[k].name == name && OwnChange(At(disk.files, name), At(next.files, name), pending[k])
  }

  ghost predicate OwnSteps(trace: seq<Step>, from: nat, pending: seq<PendingWrite>) {
    forall i | from <= i < |trace| && trace[i].actor == Panel :: OwnStep(trace[i].from, trace[i].disk, pending)
  }

  ghost predicate AllMixed(trace: seq<Step>, from: nat, to: int, base: Disk, id: JournalId, pending: seq<PendingWrite>, metadata: Option<Metadata>) {
    forall i | from <= i < to && i < |trace| :: Mixed(trace[i].disk, base, id, pending, metadata)
  }

  /** While the journal is written, nothing but the journal changes. */
  ghost predicate OpeningSteps(trace: seq<Step>, from: nat, to: int, base: Disk, id: JournalId) {
    forall i | from <= i < to && i < |trace| :: Opening(trace[i].from, base, id) && Opening(trace[i].disk, base, id)
  }

  /** How the recovery of one journal ends; a rename or deletion that fails stops the whole recovery. */
  datatype JournalOutcome = Finished | RolledBack | Unresolved | Stopped

  ghost predicate RecoverySteps(trace: seq<Step>, from: nat, start: Disk, id: JournalId)
    requires id in start.journals && start.journals[id].manifest.Some?
  {
    forall i | from <= i < |trace| :: InRecovery(trace[i].disk, start, id)
  }

  /** The first i entries are dealt with: those reported are as they were, the others settled. */
  ghost predicate SettledUpTo(files: Files, start: Files, entries: seq<JournalFile>, journal: Journal, i: nat, reported: set<Name>) {
    && (forall k | 0 <= k < |entries| :: ReportedOrSettled(files, start, entries[k], journal, k < i, reported))
    && (forall name | !Mentions(entries, name) :: At(files, name) == At(start, name))
    && (forall name | name in reported :: Mentions(entries, name))
  }

  predicate ReportedOrSettled(files: Files, start: Files, entry: JournalFile, journal: Journal, visited: bool, reported: set<Name>) {
    var s := SettleFile(At(start, entry.name), entry, journal);
    if !visited || entry.name in reported then At(files, entry.name) == At(start, entry.name) && (!visited ==> entry.name !in reported)
    else At(files, entry.name) == s.node && !s.unresolved
  }

  /** Only a third text or a fault of its own keeps a file from being brought over. */
  predicate Excused(start: Files, entries: seq<JournalFile>, journal: Journal, reported: set<Name>, faulty: set<Name>) {
    forall k | 0 <= k < |entries| && entries[k].name in reported ::
      entries[k].name in faulty || SettleFile(At(start, entries[k].name), entries[k], journal).unresolved
  }

  /** What the restoration of one file may leave. */
  predicate OneRestored(files: Files, next: Files, entry: JournalFile, journal: Journal, left: bool, fault: bool) {
    var s := SettleFile(At(files, entry.name), entry, journal);
    if left then next == files && (s.unresolved || fault)
    else next in {files, Put(files, entry.name, s.node)} && At(next, entry.name) == s.node && !s.unresolved
  }

  lemma SettledOneMore(files: Files, next: Files, start: Files, entries: seq<JournalFile>, journal: Journal, i: nat, reported: set<Name>, left: bool, fault: bool)
    requires DistinctEntries(entries) && i < |entries| && SettledUpTo(files, start, entries, journal, i, reported)
    requires OneRestored(files, next, entries[i], journal, left, fault)
    ensures SettledUpTo(next, start, entries, journal, i + 1, if left then reported + {entries[i].name} else reported)
  {
    hide SettleFile;
    assert ReportedOrSettled(files, start, entries[i], journal, false, reported);
    var now := if left then reported + {entries[i].name} else reported;
    forall k | 0 <= k < |entries| ensures ReportedOrSettled(next, start, entries[k], journal, k < i + 1, now) {
      assert ReportedOrSettled(files, start, entries[k], journal, k < i, reported);
      assert k != i ==> entries[k].name != entries[i].name;
    }
    forall name | !Mentions(entries, name) ensures At(next, name) == At(files, name) {
      assert entries[i].name != name;
    }
  }

  lemma ExcusedOneMore(files: Files, next: Files, start: Files, entries: seq<JournalFile>, journal: Journal, i: nat, reported: set<Name>, faulty: set<Name>, left: bool, fault: bool)
    requires DistinctEntries(entries) && i < |entries| && SettledUpTo(files, start, entries, journal, i, reported)
    requires Excused(start, entries, journal, reported, faulty) && OneRestored(files, next, entries[i], journal, left, fault)
    ensures Excused(start, entries, journal, if left then reported + {entries[i].name} else reported, if fault then faulty + {entries[i].name} else faulty)
  {
    hide SettleFile;
    assert ReportedOrSettled(files, start, entries[i], journal, false, reported);
    assert forall k | 0 <= k < |entries| && k != i :: entries[k].name != entries[i].name;
  }

  lemma SettledToTheEnd(files: Files, start: Files, entries: seq<JournalFile>, journal: Journal, reported: set<Name>, faulty: set<Name>)
    requires DistinctEntries(entries) && SettledUpTo(files, start, entries, journal, |entries|, reported)
    requires Excused(start, entries, journal, reported, faulty)
    ensures PartlySettled(files, start, entries, journal)
    ensures var settled := SettleFiles(start, entries, journal);
            && (reported == {} ==> !settled.unresolved)
            && (reported == {} || faulty == {} ==> files == settled.files && (settled.unresolved <==> reported != {}))
  {
    hide SettleFile, SettleFiles, Excused;
    var settled := SettleFiles(start, entries, journal);
    forall k | 0 <= k < |entries| ensures ReportedOrSettled(files, start, entries[k], journal, true, reported) {
      assert ReportedOrSettled(files, start, entries[k], journal, k < |entries|, reported);
    }
    if settled.unresolved {
      var k := SettleBlame(start, entries, journal);
      assert ReportedOrSettled(files, start, entries[k], journal, true, reported);
    }
    if reported == {} || faulty == {} {
      AllExcused(files, start, entries, journal, reported, faulty);
    }
  }

  lemma AllExcused(files: Files, start: Files, entries: seq<JournalFile>, journal: Journal, reported: set<Name>, faulty: set<Name>)
    requires DistinctEntries(entries) && SettledUpTo(files, start, entries, journal, |entries|, reported)
    requires Excused(start, entries, journal, reported, faulty) && (reported == {} || faulty == {})
    ensures files == SettleFiles(start, entries, journal).files
    ensures reported != {} ==> SettleFiles(start, entries, journal).unresolved
  {
    hide SettleFile, SettleFiles;
    var settled := SettleFiles(start, entries, journal);
    forall name ensures At(files, name) == At(settled.files, name) {
      if Mentions(entries, name) {
        var k :| 0 <= k < |entries| && entries[k].name == name;
        assert ReportedOrSettled(files, start, entries[k], journal, k < |entries|, reported);
        SettleEach(start, entries, journal, k);
        if name in reported {
          UnresolvedStays(At(start, name), entries[k], journal);
        }
      } else {
        SettleLeavesOthers(start, entries, journal, name);
      }
    }
    SameFiles(files, settled.files);
    if name :| name in reported {
      var k :| 0 <= k < |entries| && entries[k].name == name;
      SettleEach(start, entries, journal, k);
    }
  }

  /** The file holds the wanted version, or the text the journal kept of it. */
  predicate Resolved(node: Option<Node>, entry: JournalFile, journal: Journal) {
    || HoldsText(node, Wanted(entry, journal.committed))
    || (Wanted(entry, journal.committed).Some? && KeptText(journal, entry.name).Some? && HoldsText(node, HashOf(KeptText(journal, entry.name))))
  }

  /** At some moment since then the file was resolved, whatever others did to it later. */
  ghost predicate WasResolved(start: Disk, trace: seq<Step>, from: nat, entry: JournalFile, journal: Journal) {
    || Resolved(At(start.files, entry.name), entry, journal)
    || exists i :: from <= i < |trace| && Resolved(At(trace[i].disk.files, entry.name), entry, journal)
  }

  ghost predicate WereResolved(start: Disk, trace: seq<Step>, from: nat, entries: seq<JournalFile>, n: nat, journal: Journal)
    requires n <= |entries|
  {
    forall k | 0 <= k < n :: WasResolved(start, trace, from, entries[k], journal)
  }

  lemma ResolvedStays(start: Disk, first: seq<Step>, all: seq<Step>, from: nat, entries: seq<JournalFile>, n: nat, journal: Journal)
    requires first <= all && n <= |entries| && WereResolved(start, first, from, entries, n, journal)
    ensures WereResolved(start, all, from, entries, n, journal)
  {
    hide Resolved;
    forall k | 0 <= k < n ensures WasResolved(start, all, from, entries[k], journal) {
      assert WasResolved(start, first, from, entries[k], journal);
      if i :| from <= i < |first| && Resolved(At(first[i].disk.files, entries[k].name), entries[k], journal) {
        assert all[i] == first[i];
      }
    }
  }

  lemma ResolvedOneMore(start: Disk, first: seq<Step>, all: seq<Step>, from: nat, disk: Disk, entries: seq<JournalFile>, n: nat, journal: Journal)
    requires first <= all && from <= |all| && n < |entries| && WereResolved(start, first, from, entries, n, journal)
    requires if |all| == from then disk == start else all[|all| - 1].disk == disk
    requires Resolved(At(disk.files, entries[n].name), entries[n], journal)
    ensures WereResolved(start, all, from, entries, n + 1, journal)
  {
    hide Resolved;
    ResolvedStays(start, first, all, from, entries, n, journal);
    assert WasResolved(start, all, from, entries[n], journal);
  }

  lemma RestoringNothing(trace: seq<Step>, start: Disk, id: JournalId, entries: seq<JournalFile>, journal: Journal)
    requires id in start.journals && start.journals[id].manifest.Some?
    ensures RestoringSteps(trace, |trace|, id, entries, journal) && RecoverySteps(trace, |trace|, start, id)
    ensures SettledUpTo(start.files, start.files, entries, journal, 0, {}) && Excused(start.files, entries, journal, {}, {})
    ensures WereResolved(start, trace, |trace|, entries, 0, journal)
  {
  }

  lemma RestoringJoin(first: seq<Step>, all: seq<Step>, from: nat, id: JournalId, entries: seq<JournalFile>, k: nat, journal: Journal)
    requires first <= all && from <= |first| && k < |entries|
    requires RestoringSteps(first, from, id, entries, journal) && RestoringSteps(all, |first|, id, [entries[k]], journal)
    ensures RestoringSteps(all, from, id, entries, journal)
  {
    forall i | from <= i < |all| && all[i].actor == Panel ensures RestoringStep(all[i].from, all[i].disk, id, entries, journal) {
      if i < |first| {
        assert all[i] == first[i];
      } else {
        assert RestoringStep(all[i].from, all[i].disk, id, [entries[k]], journal);
      }
    }
  }

  lemma RestoringKeeps(first: seq<Step>, all: seq<Step>, from: nat, id: JournalId, entries: seq<JournalFile>, journal: Journal)
    requires first <= all && from <= |first| && RestoringSteps(first, from, id, entries, journal)
    requires |all| <= |first| + 1
    requires |all| > |first| ==> all[|first|].from.files == all[|first|].disk.files && IsTaken(all[|first|].from, id, journal)
    ensures RestoringSteps(all, from, id, entries, journal)
  {
    forall i | from <= i < |all| && all[i].actor == Panel ensures RestoringStep(all[i].from, all[i].disk, id, entries, journal) {
      if i < |first| {
        assert all[i] == first[i];
      }
    }
  }

  lemma RecoveryStepsJoin(first: seq<Step>, all: seq<Step>, from: nat, disk: Disk, start: Disk, id: JournalId, i: nat, reported: set<Name>)
    requires id in start.journals && start.journals[id].manifest.Some?
    requires first <= all && from <= |first| && |all| <= |first| + 1 && RecoverySteps(first, from, start, id)
    requires |all| > |first| ==> all[|first|].disk == disk
    requires disk == start.(files := disk.files)
    requires SettledUpTo(disk.files, start.files, start.journals[id].manifest.value.files, start.journals[id], i, reported)
    ensures RecoverySteps(all, from, start, id)
  {
    var entries, journal := start.journals[id].manifest.value.files, start.journals[id];
    SettledIsPartly(disk.files, start.files, entries, journal, i, reported);
    hide SettledUpTo, PartlySettled;
    forall k | from <= k < |all| ensures InRecovery(all[k].disk, start, id) {
      if k < |first| {
        assert all[k] == first[k];
      }
    }
  }

  lemma SettledIsPartly(files: Files, start: Files, entries: seq<JournalFile>, journal: Journal, i: nat, reported: set<Name>)
    requires SettledUpTo(files, start, entries, journal, i, reported)
    ensures PartlySettled(files, start, entries, journal)
  {
    hide SettleFile;
    forall k | 0 <= k < |entries|
      ensures At(files, entries[k].name) in {At(start, entries[k].name), SettleFile(At(start, entries[k].name), entries[k], journal).node}
    {
      assert ReportedOrSettled(files, start, entries[k], journal, k < i, reported);
    }
  }

  lemma RestartFromSteps(trace: seq<Step>, from: nat, start: Disk, id: JournalId)
    requires id in start.journals && start.journals[id].manifest.Some? && RecoverySteps(trace, from, start, id)
    ensures CanRepeat(start, id) ==> RestartsAlike(trace, from, |trace|, start, id)
  {
    hide SoundJournal, Repeatable, InRecovery, Recover;
    if CanRepeat(start, id) {
      forall i | from <= i < |trace| ensures Restart(trace[i].disk, id) == Recover(start, id) {
        RepeatedStart(trace[i].disk, start, id);
      }
    }
  }

  /** The journal holds what it says and its recovery may be cut short. */
  ghost predicate CanRepeat(start: Disk, id: JournalId)
    requires id in start.journals && start.journals[id].manifest.Some?
  {
    SoundJournal(start.journals[id]) && Repeatable(start, id)
  }

  lemma RestartFromSelection(disk: Disk, start: Disk, id: JournalId)
    requires id in start.journals && start.journals[id].manifest.Some? && CanRepeat(start, id)
    requires var journal := start.journals[id];
             var settled := SettleFiles(start.files, journal.manifest.value.files, journal);
             && !settled.unresolved && PartlySettled(disk.files, start.files, journal.manifest.value.files, journal)
             && disk == start.(files := settled.files, selections := SettledSelection(start.selections, journal))
    ensures Restart(disk, id) == Recover(start, id)
  {
    hide SoundJournal, Repeatable, Recover, SettleFiles, PartlySettled;
    RepeatedStart(disk, start, id);
  }

  /** The journal is on the disk; a start may have missed its marker. */
  predicate IsTaken(disk: Disk, id: JournalId, journal: Journal) {
    id in disk.journals && TakenAs(disk.journals[id], journal.committed) == journal && (journal.committed ==> disk.journals[id].committed)
  }

  /** Recovery moves a file only from the version the journal wants to be rid of to the wanted one. */
  ghost predicate RestoringStep(disk: Disk, next: Disk, id: JournalId, entries: seq<JournalFile>, journal: Journal) {
    && IsTaken(disk, id, journal)
    && forall name | At(next.files, name) != At(disk.files, name) ::
         exists k :: 0 <= k < |entries| && entries[k].name == name
                  && HoldsText(At(disk.files, name), Other(entries[k], journal.committed))
                  && At(next.files, name) == SettleFile(At(disk.files, name), entries[k], journal).node
  }

  ghost predicate RestoringSteps(trace: seq<Step>, from: nat, id: JournalId, entries: seq<JournalFile>, journal: Journal) {
    forall i | from <= i < |trace| && trace[i].actor == Panel :: RestoringStep(trace[i].from, trace[i].disk, id, entries, journal)
  }

  /** Every change of a recovery is one its journal asks for, and when it is through each file was brought over. */
  ghost predicate FilesFollow(start: Disk, trace: seq<Step>, from: nat, id: JournalId, journal: Journal, outcome: JournalOutcome)
    requires journal.manifest.Some?
  {
    var entries := journal.manifest.value.files;
    && RestoringSteps(trace, from, id, entries, journal)
    && (outcome in {Finished, RolledBack} ==> WereResolved(start, trace, from, entries, |entries|, journal))
  }

  /** A start after a crash at any of these steps ends as an undisturbed recovery from the beginning. */
  ghost predicate RestartsAlike(trace: seq<Step>, from: nat, to: int, start: Disk, id: JournalId)
    requires id in start.journals
  {
    forall i | from <= i < to && i < |trace| :: Restart(trace[i].disk, id) == Recover(start, id)
  }

  /** How a start found a journal: it could not read the plan, or took it with a marker or without. */
  datatype Look = Unread | Taken(committed: bool)

  /** Only an operation that failed makes a start miss a manifest or a marker. */
  predicate MayLook(journal: Journal, look: Look, fault: bool) {
    match look
    case Unread => journal.manifest.None? || fault
    case Taken(committed) => journal.manifest.Some? && (committed ==> journal.committed) && (committed == journal.committed || fault)
  }

  /** What becomes of the journal and the selection, whatever others do to the files meanwhile. */
  ghost predicate Recovered(start: Disk, disk: Disk, id: JournalId, committed: bool, outcome: JournalOutcome)
    requires id in start.journals && start.journals[id].manifest.Some?
  {
    var journal := start.journals[id];
    var settled := SettledSelection(start.selections, TakenAs(journal, committed));
    match outcome
    case Finished => id !in disk.journals && disk.kept == start.kept && disk.selections == settled && committed
    case RolledBack => id !in disk.journals && disk.kept == start.kept && disk.selections == settled && !committed
    case Unresolved => id !in disk.journals && disk.kept == start.kept[id := journal] && disk.selections == start.selections
    case Stopped => disk.journals == start.journals && disk.kept == start.kept && disk.selections in {start.selections, settled}
  }

  /** The journal is set aside or deleted once files and selection are where they should be. */
  ghost predicate Closed(before: Disk, disk: Disk, id: JournalId, unresolved: bool, committed: bool, outcome: JournalOutcome)
    requires id in before.journals
  {
    && outcome in (if unresolved then {Unresolved, Stopped} else if committed then {Finished, Stopped} else {RolledBack, Stopped})
    && disk == if outcome.Stopped? then before
               else if unresolved then before.(journals := before.journals - {id}, kept := before.kept[id := before.journals[id]])
               else before.(journals := before.journals - {id})
  }

  lemma ClosedIsRecovered(start: Disk, before: Disk, disk: Disk, id: JournalId, journal: Journal, unresolved: bool, outcome: JournalOutcome)
    requires id in start.journals && start.journals[id].manifest.Some? && journal == TakenAs(start.journals[id], journal.committed)
    requires before == start.(files := before.files, selections := if unresolved then start.selections else SettledSelection(start.selections, journal))
    requires Closed(before, disk, id, unresolved, journal.committed, outcome)
    ensures disk.journals - {id} == start.journals - {id} && Recovered(start, disk, id, journal.committed, outcome)
    ensures !outcome.Stopped? ==> Restart(disk, id) == disk
    ensures var settled := SettleFiles(start.files, journal.manifest.value.files, journal);
            before.files == settled.files && (unresolved <==> settled.unresolved) && !outcome.Stopped? ==> disk == RecoverAs(start, id, journal.committed)
  {
    hide SettleFiles, SettledSelection;
  }

  lemma NothingToRecover(disk: Disk, id: JournalId)
    requires id in disk.journals && disk.journals[id].manifest.None?
    ensures Recover(disk, id) == disk
  {
  }

  /** All journals but those are there as before. */
  ghost predicate OthersLeft(now: map<JournalId, Journal>, before: map<JournalId, Journal>, done: seq<JournalId>) {
    forall id | id !in done :: (id in now <==> id in before) && (id in now ==> now[id] == before[id])
  }

  lemma NothingRecovered(found: Disk, ids: seq<JournalId>, calm: bool, clean: bool)
    ensures InTurn(found, found, ids, [], calm, clean)
  {
  }

  lemma StillThere(now: map<JournalId, Journal>, before: map<JournalId, Journal>, ids: seq<JournalId>, i: nat)
    requires i < |ids| && Distinct(ids) && OthersLeft(now, before, ids[..i]) && ids[i] in before
    ensures ids[i] in now && now[ids[i]] == before[ids[i]]
  {
    assert ids[i] !in ids[..i];
  }

  lemma OneMoreLeft(before: Disk, disk: Disk, found: Disk, ids: seq<JournalId>, i: nat)
    requires i < |ids| && OthersLeft(before.journals, found.journals, ids[..i])
    requires disk.journals - {ids[i]} == before.journals - {ids[i]}
    ensures OthersLeft(disk.journals, found.journals, ids[..i + 1])
  {
    forall id | id !in ids[..i + 1]
      ensures (id in disk.journals <==> id in found.journals) && (id in disk.journals ==> disk.journals[id] == found.journals[id])
    {
      assert ids[..i + 1] == ids[..i] + [ids[i]];
      assert id != ids[i] && id !in ids[..i];
      assert id in disk.journals - {ids[i]} <==> id in before.journals - {ids[i]};
      assert id in disk.journals ==> (disk.journals - {ids[i]})[id] == disk.journals[id];
    }
  }

  lemma StoppedLeavesOthers(now: map<JournalId, Journal>, before: map<JournalId, Journal>, ids: seq<JournalId>, i: nat)
    requires i <= |ids| && OthersLeft(now, before, ids[..i])
    ensures OthersLeft(now, before, ids)
  {
    forall id | id !in ids ensures id !in ids[..i] {
    }
  }

  /** A start that repairs several journals one after the other, each as it was found. */
  function RecoverAllAs(disk: Disk, ids: seq<JournalId>, looks: seq<Look>): Disk
    requires |looks| == |ids|
  {
    if |ids| == 0 then disk else
      var n := |ids| - 1;
      var before := RecoverAllAs(disk, ids[..n], looks[..n]);
      if looks[n].Unread? || ids[n] !in before.journals then before else RecoverAs(before, ids[n], looks[n].committed)
  }

  lemma RecoverAllOneMore(found: Disk, ids: seq<JournalId>, looks: seq<Look>, i: nat, look: Look)
    requires i < |ids| && |looks| == i
    ensures var before := RecoverAllAs(found, ids[..i], looks);
            RecoverAllAs(found, ids[..i + 1], looks + [look])
            == if look.Unread? || ids[i] !in before.journals then before else RecoverAs(before, ids[i], look.committed)
  {
    assert ids[..i + 1][..i] == ids[..i] && (looks + [look])[..i] == looks;
  }

  /** Every journal was taken as it is. */
  ghost predicate LooksRight(journals: map<JournalId, Journal>, ids: seq<JournalId>, looks: seq<Look>)
    requires |looks| <= |ids|
  {
    forall i | 0 <= i < |looks| :: ids[i] in journals && MayLook(journals[ids[i]], looks[i], false)
  }

  lemma LookedRight(journals: map<JournalId, Journal>, ids: seq<JournalId>, looks: seq<Look>, look: Look)
    requires |looks| < |ids| && ids[|looks|] in journals && MayLook(journals[ids[|looks|]], look, false)
    ensures LooksRight(journals, ids, looks) ==> LooksRight(journals, ids, looks + [look])
  {
    hide MayLook;
  }

  /** The first journals are dealt with, in turn and as they were found; without a fault as they are. */
  ghost predicate InTurn(disk: Disk, found: Disk, ids: seq<JournalId>, looks: seq<Look>, calm: bool, clean: bool)
    requires |looks| <= |ids|
  {
    && OthersLeft(disk.journals, found.journals, ids[..|looks|])
    && (calm ==> disk == RecoverAllAs(found, ids[..|looks|], looks))
    && (clean ==> LooksRight(found.journals, ids, looks))
  }

  lemma StillWaiting(disk: Disk, found: Disk, ids: seq<JournalId>, looks: seq<Look>, calm: bool, clean: bool)
    requires |looks| < |ids| && Distinct(ids) && InTurn(disk, found, ids, looks, calm, clean) && ids[|looks|] in found.journals
    ensures ids[|looks|] in disk.journals && disk.journals[ids[|looks|]] == found.journals[ids[|looks|]]
  {
    StillThere(disk.journals, found.journals, ids, |looks|);
  }

  lemma TakesTurn(before: Disk, disk: Disk, found: Disk, ids: seq<JournalId>, looks: seq<Look>, look: Look,
                  calm: bool, stillCalm: bool, clean: bool, stillClean: bool)
    requires |looks| < |ids| && InTurn(before, found, ids, looks, calm, clean) && ids[|looks|] in before.journals && ids[|looks|] in found.journals
    requires before.journals[ids[|looks|]] == found.journals[ids[|looks|]]
    requires disk.journals - {ids[|looks|]} == before.journals - {ids[|looks|]}
    requires stillCalm ==> calm && disk == if look.Unread? then before else RecoverAs(before, ids[|looks|], look.committed)
    requires stillClean ==> clean && MayLook(before.journals[ids[|looks|]], look, false)
    ensures InTurn(disk, found, ids, looks + [look], stillCalm, stillClean)
  {
    hide OthersLeft, RecoverAs, RecoverAllAs, LooksRight, MayLook;
    OneMoreLeft(before, disk, found, ids, |looks|);
    RecoverAllOneMore(found, ids, looks, |looks|, look);
    if stillClean {
      LookedRight(found.journals, ids, looks, look);
    }
  }

  /**
   Where a journal ended: deleted behind a marker, deleted without one, or left, be it in its
   place unread or set aside as it was.
   */
  ghost predicate Became(disk: Disk, found: Disk, id: JournalId, look: Look, outcome: JournalOutcome)
    requires id in found.journals
  {
    match outcome
    case Finished => look == Taken(true) && id !in disk.journals && SameKept(disk, found, id)
    case RolledBack => look == Taken(false) && id !in disk.journals && SameKept(disk, found, id)
    case Unresolved =>
      if look.Unread? then id in disk.journals && disk.journals[id] == found.journals[id] && SameKept(disk, found, id)
      else id !in disk.journals && id in disk.kept && disk.kept[id] == found.journals[id]
    case Stopped => false
  }

  ghost predicate SameKept(disk: Disk, found: Disk, id: JournalId) {
    (id in disk.kept <==> id in found.kept) && (id in disk.kept ==> disk.kept[id] == found.kept[id])
  }

  function Ending(outcomes: seq<JournalOutcome>, outcome: JournalOutcome): set<nat> {
    set i: nat | i < |outcomes| && outcomes[i] == outcome
  }

  /** The journals taken up so far ended so, the others are as they were, and each count counts one end. */
  ghost predicate Tallied(disk: Disk, found: Disk, ids: seq<JournalId>, looks: seq<Look>, outcomes: seq<JournalOutcome>,
                          finished: nat, undone: nat, unresolved: nat)
  {
    && |outcomes| <= |looks| && |outcomes| <= |ids|
    && (forall i | 0 <= i < |outcomes| :: ids[i] in found.journals && Became(disk, found, ids[i], looks[i], outcomes[i]))
    && (forall i | |outcomes| <= i < |ids| :: SameKept(disk, found, ids[i]))
    && finished == |Ending(outcomes, Finished)| && undone == |Ending(outcomes, RolledBack)| && unresolved == |Ending(outcomes, Unresolved)|
  }

  lemma NothingTallied(found: Disk, ids: seq<JournalId>)
    ensures Tallied(found, found, ids, [], [], 0, 0, 0)
  {
    assert forall outcome :: Ending([], outcome) == {};
  }

  lemma OneMoreEnding(outcomes: seq<JournalOutcome>, outcome: JournalOutcome, which: JournalOutcome)
    ensures |Ending(outcomes + [outcome], which)| == |Ending(outcomes, which)| + if outcome == which then 1 else 0
  {
    var n: nat, more := |outcomes|, outcomes + [outcome];
    forall i: nat ensures i in Ending(more, which) <==> i in Ending(outcomes, which) || (i == n && outcome == which) {
      if i < n {
        assert more[i] == outcomes[i];
      }
    }
    if outcome == which {
      assert Ending(more, which) == Ending(outcomes, which) + {n};
    } else {
      assert Ending(more, which) == Ending(outcomes, which);
    }
  }

  lemma TalliesOneMore(before: Disk, disk: Disk, found: Disk, ids: seq<JournalId>, looks: seq<Look>, outcomes: seq<JournalOutcome>,
                       finished: nat, undone: nat, unresolved: nat, look: Look, fault: bool, outcome: JournalOutcome)
    requires Tallied(before, found, ids, looks, outcomes, finished, undone, unresolved) && |looks| == |outcomes| < |ids| && Distinct(ids)
    requires var id := ids[|looks|];
             && id in before.journals && id in found.journals && before.journals[id] == found.journals[id]
             && disk.journals - {id} == before.journals - {id}
             && (look.Unread? ==> outcome.Unresolved? && disk == before)
             && MayLook(before.journals[id], look, fault) && (look.Taken? ==> Recovered(before, disk, id, look.committed, outcome))
    ensures outcome.Stopped? ==> Tallied(disk, found, ids, looks + [look], outcomes, finished, undone, unresolved)
    ensures !outcome.Stopped? ==>
              Tallied(disk, found, ids, looks + [look], outcomes + [outcome],
                      finished + (if outcome.Finished? then 1 else 0), undone + (if outcome.RolledBack? then 1 else 0),
                      unresolved + (if outcome.Unresolved? then 1 else 0))
  {
    var n := |looks|;
    OneMoreEnding(outcomes, outcome, Finished);
    OneMoreEnding(outcomes, outcome, RolledBack);
    OneMoreEnding(outcomes, outcome, Unresolved);
    hide Ending, SettledSelection, TakenAs;
    forall i | 0 <= i < |ids| && i != n ensures SameKept(disk, before, ids[i]) {
    }
    forall i | 0 <= i < n ensures Became(disk, found, ids[i], looks[i], outcomes[i]) {
      OthersEndingStays(before, disk, found, ids[n], ids[i], looks[i], outcomes[i]);
    }
    assert SameKept(before, found, ids[n]);
  }

  lemma OthersEndingStays(before: Disk, disk: Disk, found: Disk, id: JournalId, other: JournalId, look: Look, outcome: JournalOutcome)
    requires id != other && other in found.journals && Became(before, found, other, look, outcome) && SameKept(disk, before, other)
    requires disk.journals - {id} == before.journals - {id}
    ensures Became(disk, found, other, look, outcome)
  {
    assert other in disk.journals - {id} <==> other in before.journals - {id};
    assert other in disk.journals ==> (disk.journals - {id})[other] == disk.journals[other];
  }

  /** What the tally says of each journal and each count. */
  lemma TallyMeans(disk: Disk, found: Disk, ids: seq<JournalId>, looks: seq<Look>, outcomes: seq<JournalOutcome>,
                   finished: nat, undone: nat, unresolved: nat)
    requires Tallied(disk, found, ids, looks, outcomes, finished, undone, unresolved)
    ensures |outcomes| <= |ids| && |outcomes| <= |looks|
    ensures finished == |set i: nat | i < |outcomes| && outcomes[i] == Finished|
    ensures undone == |set i: nat | i < |outcomes| && outcomes[i] == RolledBack|
    ensures unresolved == |set i: nat | i < |outcomes| && outcomes[i] == Unresolved|
    ensures forall i | 0 <= i < |outcomes| ::
              && ids[i] in found.journals && outcomes[i] in {Finished, RolledBack, Unresolved}
              && (outcomes[i].Finished? ==> looks[i] == Taken(true) && ids[i] !in disk.journals)
              && (outcomes[i].RolledBack? ==> looks[i] == Taken(false) && ids[i] !in disk.journals)
              && (outcomes[i].Unresolved? && looks[i].Unread? ==> ids[i] in disk.journals && disk.journals[ids[i]] == found.journals[ids[i]])
              && (outcomes[i].Unresolved? && looks[i].Taken? ==>
                    ids[i] !in disk.journals && ids[i] in disk.kept && disk.kept[ids[i]] == found.journals[ids[i]])
  {
    hide SameKept;
    assert Ending(outcomes, Finished) == set i: nat | i < |outcomes| && outcomes[i] == Finished;
    assert Ending(outcomes, RolledBack) == set i: nat | i < |outcomes| && outcomes[i] == RolledBack;
    assert Ending(outcomes, Unresolved) == set i: nat | i < |outcomes| && outcomes[i] == Unresolved;
  }

  /** Without a fault every journal was seen as it is. */
  lemma SeenRight(disk: Disk, found: Disk, ids: seq<JournalId>, looks: seq<Look>, calm: bool, clean: bool)
    requires |looks| <= |ids| && InTurn(disk, found, ids, looks, calm, clean) && forall id | id in ids :: id in found.journals
    ensures clean ==> forall i | 0 <= i < |looks| ::
              var journal := found.journals[ids[i]];
              looks[i] == if journal.manifest.None? then Unread else Taken(journal.committed)
  {
    hide OthersLeft, RecoverAllAs;
    if clean {
      forall i | 0 <= i < |looks|
        ensures var journal := found.journals[ids[i]];
                looks[i] == if journal.manifest.None? then Unread else Taken(journal.committed)
      {
        assert MayLook(found.journals[ids[i]], looks[i], false);
      }
    }
  }

  lemma OthersStayed(disk: Disk, found: Disk, ids: seq<JournalId>, looks: seq<Look>, calm: bool, clean: bool)
    requires |looks| <= |ids| && InTurn(disk, found, ids, looks, calm, clean)
    ensures OthersLeft(disk.journals, found.journals, ids)
  {
    StoppedLeavesOthers(disk.journals, found.journals, ids, |looks|);
  }

  lemma AllInTurn(disk: Disk, found: Disk, ids: seq<JournalId>, looks: seq<Look>, calm: bool, clean: bool)
    requires |looks| == |ids| && Distinct(ids) && InTurn(disk, found, ids, looks, calm, clean)
    ensures OthersLeft(disk.journals, found.journals, ids)
    ensures calm ==> disk == RecoverAllAs(found, ids, looks)
    ensures calm && clean ==> disk == RecoverAll(found, ids)
  {
    assert ids[..|looks|] == ids;
    if clean {
      SeenRightIsRecoverAll(found, ids, looks);
    }
  }

  /** Without a fault this is the recovery of all. */
  lemma {:induction false} SeenRightIsRecoverAll(disk: Disk, ids: seq<JournalId>, looks: seq<Look>)
    requires |looks| == |ids| && Distinct(ids) && LooksRight(disk.journals, ids, looks)
    ensures RecoverAllAs(disk, ids, looks) == RecoverAll(disk, ids)
    ensures OthersLeft(RecoverAll(disk, ids).journals, disk.journals, ids)
  {
    if |ids| == 0 {
    } else {
      var n := |ids| - 1;
      var id := ids[n];
      assert forall i | 0 <= i < n :: ids[..n][i] == ids[i] && looks[..n][i] == looks[i];
      assert MayLook(disk.journals[id], looks[n], false);
      hide Recover, RecoverAs, OthersLeft;
      SeenRightIsRecoverAll(disk, ids[..n], looks[..n]);
      var before := RecoverAll(disk, ids[..n]);
      StillThere(before.journals, disk.journals, ids, n);
      RecoverAsFound(before, id);
      RecoveryLeavesOthers(before, id);
      OneMoreLeft(before, RecoverAll(disk, ids), disk, ids, n);
      assert ids[..n + 1] == ids;
    }
  }

  lemma RecoveryLeavesOthers(disk: Disk, id: JournalId)
    requires id in disk.journals
    ensures Recover(disk, id).journals - {id} == disk.journals - {id}
    ensures disk.journals[id].manifest.None? ==> Recover(disk, id) == disk
  {
  }

  lemma RestoringOne(disk: Disk, id: JournalId, entry: JournalFile, journal: Journal)
    requires IsTaken(disk, id, journal) && HoldsText(At(disk.files, entry.name), Other(entry, journal.committed))
    ensures var s := SettleFile(At(disk.files, entry.name), entry, journal);
            RestoringStep(disk, disk.(files := Put(disk.files, entry.name, s.node)), id, [entry], journal)
  {
    assert [entry][0].name == entry.name;
  }

  /** A plain file name: short, without separators, drive letters or traversal. */
  predicate SafeName(name: Name) {
    && 0 < |name| <= 255 && name != "."
    && (forall i | 0 <= i < |name| :: name[i] !in "/\\:" && ' ' <= name[i] && name[i] != '\U{7f}')
    && (forall i | 0 <= i < |name| - 1 :: !(name[i] == '.' && name[i + 1] == '.'))
  }

  /** A safe name stays one entry of its directory however it is cut, and every other name is refused for a reason. */
  lemma SafeNameIsPlain(name: Name)
    ensures SafeName(name) <==>
              && name != "" && name != "." && |name| <= 255
              && !(exists a, b :: name == a + ".." + b)
              && forall c | c in name :: c != '/' && c != '\\' && c != ':' && c >= ' ' && c != '\U{7f}'
  {
    assert forall i | 0 <= i < |name| :: name[i] in name;
    if a, b :| name == a + ".." + b {
      assert name[|a|] == '.' && name[|a| + 1] == '.';
    }
    if i :| 0 <= i < |name| - 1 && name[i] == '.' && name[i + 1] == '.' {
      var a, b := name[..i], name[i + 2..];
      assert name == a + ".." + b;
    }
    forall c ensures c in "/\\:" <==> c == '/' || c == '\\' || c == ':' {
      var separators := "/\\:";
      assert separators[0] == '/' && separators[1] == '\\' && separators[2] == ':' && |separators| == 3;
    }
  }

  /** The request alone gives no reason to refuse this file. */
  predicate Fits(t: FileTarget) {
    SafeName(t.name) && |t.content| <= MAX_FILE_BYTES
  }

  /** The file can be read and holds the baseline of the request, if it names one. */
  predicate Startable(files: Files, t: FileTarget) {
    var node := At(files, t.name);
    && node != Some(Irregular) && (node.Some? ==> |node.value.bytes| <= MAX_FILE_BYTES)
    && (t.expectedHash.Some? ==> HoldsText(node, t.expectedHash.value))
  }

  /** The request names a file twice. */
  predicate Repeats(targets: seq<FileTarget>) {
    exists i, j :: 0 <= i < j < |targets| && targets[i].name == targets[j].name
  }

  /** The request is refused for its first unfit file, or else for a repeated name. */
  predicate RequestRefusal(targets: seq<FileTarget>, error: Error) {
    || (error == FileNameInvalid && exists k :: 0 <= k < |targets| && !SafeName(targets[k].name) && forall j | 0 <= j < k :: Fits(targets[j]))
    || (error == FileTooLarge && exists k :: 0 <= k < |targets| && SafeName(targets[k].name) && |targets[k].content| > MAX_FILE_BYTES
                                          && forall j | 0 <= j < k :: Fits(targets[j]))
    || (error == FileDuplicate && (forall t | t in targets :: Fits(t)) && Repeats(targets))
  }

  /** A fit request is refused for its first file that cannot be read or holds another text. */
  predicate PlanRefusal(files: Files, targets: seq<FileTarget>, error: Error) {
    exists k :: 0 <= k < |targets| && !Startable(files, targets[k]) && (forall j | 0 <= j < k :: Startable(files, targets[j]))
             && error == ReasonFor(At(files, targets[k].name))
  }

  /** Why a file cannot be started from: no regular file, too large, or another text. */
  function ReasonFor(node: Option<Node>): Error {
    match node
    case Some(Irregular) => FileNameInvalid
    case Some(Regular(bytes, _)) => if |bytes| > MAX_FILE_BYTES then FileTooLarge else FileChangedElsewhere
    case None => FileChangedElsewhere
  }

  /** Why one file cannot be planned, if so. */
  function TargetError(files: Files, target: FileTarget): Option<Error> {
    match ReadNode(At(files, target.name))
    case Failure(error) => Some(error)
    case Success(state) =>
      if target.expectedHash.Some? && target.expectedHash.value != state.hash then Some(FileChangedElsewhere) else None
  }

  /** The first file that cannot be planned decides. */
  function PlanError(files: Files, targets: seq<FileTarget>): Option<Error> {
    if |targets| == 0 then None else
      var front := PlanError(files, targets[..|targets| - 1]);
      if front.Some? then front else TargetError(files, targets[|targets| - 1])
  }

  lemma {:induction false} PlanErrorStays(files: Files, targets: seq<FileTarget>, i: nat)
    requires i <= |targets| && PlanError(files, targets[..i]).Some?
    ensures PlanError(files, targets) == PlanError(files, targets[..i])
  {
    var n := |targets| - 1;
    if i <= n {
      assert targets[..n][..i] == targets[..i];
      PlanErrorStays(files, targets[..n], i);
    } else {
      assert targets[..i] == targets;
    }
  }

  lemma PlanErrorNext(files: Files, targets: seq<FileTarget>, i: nat)
    requires i < |targets| && PlanError(files, targets[..i]).None?
    ensures PlanError(files, targets[..i + 1]) == TargetError(files, targets[i])
    ensures TargetError(files, targets[i]).Some? ==> PlanError(files, targets) == TargetError(files, targets[i])
  {
    assert targets[..i + 1][..i] == targets[..i];
    if TargetError(files, targets[i]).Some? {
      PlanErrorStays(files, targets, i + 1);
    }
  }

  /** One file can be planned if and only if it can be read and holds its baseline; what is refused says why. */
  lemma TargetErrorNames(files: Files, t: FileTarget)
    ensures TargetError(files, t).None? <==> Startable(files, t)
    ensures TargetError(files, t).Some? ==> TargetError(files, t).value == ReasonFor(At(files, t.name))
  {
  }

  /** The plan fails with the error of its first file that has one. */
  lemma {:induction false} FirstPlanError(files: Files, targets: seq<FileTarget>) returns (k: nat)
    ensures k <= |targets| && (k == |targets| <==> PlanError(files, targets).None?)
    ensures forall j | 0 <= j < k :: TargetError(files, targets[j]).None?
    ensures k < |targets| ==> TargetError(files, targets[k]) == PlanError(files, targets)
  {
    hide TargetError;
    k := 0;
    if |targets| > 0 {
      var n := |targets| - 1;
      k := FirstPlanError(files, targets[..n]);
      assert forall j | 0 <= j < n :: targets[..n][j] == targets[j];
      if k == n && TargetError(files, targets[n]).None? {
        k := n + 1;
      }
    }
  }

  /** A plan is made if and only if every file can start, and refused for the first that cannot. */
  lemma PlanErrorNames(files: Files, targets: seq<FileTarget>)
    ensures PlanError(files, targets).None? <==> forall t | t in targets :: Startable(files, t)
    ensures PlanError(files, targets).Some? ==> PlanRefusal(files, targets, PlanError(files, targets).value)
  {
    hide PlanError, Startable, TargetError, ReasonFor;
    var k := FirstPlanError(files, targets);
    forall j | 0 <= j < |targets|
      ensures TargetError(files, targets[j]).None? <==> Startable(files, targets[j])
      ensures TargetError(files, targets[j]).Some? ==> TargetError(files, targets[j]).value == ReasonFor(At(files, targets[j].name))
    {
      TargetErrorNames(files, targets[j]);
    }
    assert k < |targets| ==> targets[k] in targets;
  }

  lemma UnfoldedRequest(files: Files, targets: seq<FileTarget>)
    ensures (forall t | t in targets :: Fits(t)) <==> forall t | t in targets :: SafeName(t.name) && |t.content| <= MAX_FILE_BYTES
    ensures Repeats(targets) <==> !(forall i, j | 0 <= i < j < |targets| :: targets[i].name != targets[j].name)
    ensures (forall t | t in targets :: Startable(files, t)) <==>
              forall t | t in targets ::
                var node := At(files, t.name);
                && node != Some(Irregular) && (node.Some? ==> |node.value.bytes| <= MAX_FILE_BYTES)
                && (t.expectedHash.Some? ==> HoldsText(node, t.expectedHash.value))
  {
    hide SafeName, HoldsText;
  }

  lemma AcceptedTargets(targets: seq<FileTarget>)
    requires (forall t | t in targets :: Fits(t)) && !Repeats(targets)
    ensures ValidTargets(targets)
  {
    assert forall i | 0 <= i < |targets| :: targets[i] in targets;
  }

  /** The new text of every file is in place; at most the journal could not be deleted. */
  predicate Succeeded(outcome: SaveOutcome) {
    outcome.Saved? || outcome == CleanupFailed(true)
  }

  /** After a crash at any of these steps the next start finds the version the marker says. */
  ghost predicate RestartsByMarker(trace: seq<Step>, from: nat, marked: nat, base: Disk, id: JournalId, pending: seq<PendingWrite>, metadata: Option<Metadata>) {
    forall i | from <= i < |trace| ::
      var restarted := Restart(trace[i].disk, id);
      if i < marked then AllBefore(restarted, base) else AllAfter(restarted, base, pending, metadata)
  }

  lemma NoSaveYet(trace: seq<Step>, base: Disk, id: JournalId, targets: seq<FileTarget>, metadata: Option<Metadata>)
    ensures OwnSteps(trace, |trace|, [][..0]) && Planned([], targets, |targets|) && WroteAll(trace, |trace|, [], 0)
    ensures forall e :: QuietEnd(base, base, [], metadata, Refused(e), 0) && JournalAfter(base, base, id, [], metadata, Refused(e))
    ensures RestartsByMarker(trace, |trace|, |trace|, base, id, [], metadata)
  {
  }

  lemma NothingSaved(disk: Disk, base: Disk, trace: seq<Step>, from: nat, id: JournalId, targets: seq<FileTarget>, metadata: Option<Metadata>, error: Error)
    requires disk == base.(files := disk.files)
    ensures Planned([], targets, |targets|) && JournalAfter(disk, base, id, [], metadata, Refused(error))
    ensures disk == base ==> QuietEnd(disk, base, [], metadata, Refused(error), 0)
    ensures |trace| == from ==> RestartsByMarker(trace, from, from, base, id, [], metadata)
  {
  }

  lemma NothingPending(before: Disk, disk: Disk, base: Disk, id: JournalId, metadata: Option<Metadata>, hashes: map<Name, Hash>, trace: seq<Step>, from: nat)
    requires before == base.(files := before.files) && id !in base.journals
    requires disk == before.(selections := Applied(before.selections, metadata))
    ensures JournalAfter(disk, base, id, [], metadata, Saved(hashes, [])) && WroteAll(trace, from, [], 0)
    ensures before == base ==> QuietEnd(disk, base, [], metadata, Saved(hashes, []), 0)
    ensures before == base && from <= |trace| <= from + 1 && (|trace| > from ==> trace[from].disk == disk) ==>
      RestartsByMarker(trace, from, from, base, id, [], metadata)
  {
  }

  lemma JournalOfMovedFiles(disk: Disk, moved: Disk, base: Disk, id: JournalId, pending: seq<PendingWrite>, metadata: Option<Metadata>, outcome: SaveOutcome)
    requires moved == base.(files := moved.files) && JournalAfter(disk, moved, id, pending, metadata, outcome)
    ensures JournalAfter(disk, base, id, pending, metadata, outcome)
  {
  }

  /** What the crash points of an undisturbed save mean for the next start. */
  lemma CrashPointsRestart(trace: seq<Step>, from: nat, marked: nat, base: Disk, id: JournalId, pending: seq<PendingWrite>, metadata: Option<Metadata>)
    requires ValidPlan(pending) && MatchesPlan(base.files, pending) && id !in base.journals
    requires CrashPoints(trace, from, marked, base, id, pending, metadata)
    ensures MetadataMatches(base.selections, metadata) && (forall p | p in pending :: Restorable(p)) ==>
      RestartsByMarker(trace, from, marked, base, id, pending, metadata)
  {
    hide Mixed, Opening, BackAgain, Marked, Unmarked, MarkedOrDone, ValidPlan, MatchesPlan, Restart, AllBefore, AllAfter;
    if MetadataMatches(base.selections, metadata) && (forall p | p in pending :: Restorable(p)) {
      forall i | from <= i < |trace|
        ensures var restarted := Restart(trace[i].disk, id);
                if i < marked then AllBefore(restarted, base) else AllAfter(restarted, base, pending, metadata)
      {
        RestartAfterCrash(trace[i].disk, base, id, pending, metadata);
      }
    }
  }

  predicate OutsidersFrom(trace: seq<Step>, from: nat) {
    forall i | from <= i < |trace| :: trace[i].actor.Outsider?
  }

  lemma OutsidersJoin(first: seq<Step>, all: seq<Step>, from: nat)
    requires first <= all && OutsidersFrom(first, from) && OutsidersFrom(all, |first|)
    ensures OutsidersFrom(all, from)
  {
    forall i | from <= i < |first| ensures all[i] == first[i] {
    }
  }

  /** The answer names the hash of each target so far. */
  predicate Hashed(hashes: map<Name, Hash>, targets: seq<FileTarget>, i: nat)
    requires i <= |targets|
  {
    forall k | 0 <= k < i :: targets[k].name in hashes && hashes[targets[k].name] == Sha256(targets[k].content)
  }

  lemma HashedOneMore(hashes: map<Name, Hash>, targets: seq<FileTarget>, i: nat)
    requires i < |targets| && Hashed(hashes, targets, i) && ValidTargets(targets)
    ensures Hashed(hashes[targets[i].name := Sha256(targets[i].content)], targets, i + 1)
  {
  }

  lemma OutsidersOnly(trace: seq<Step>, from: nat, pending: seq<PendingWrite>)
    requires OutsidersFrom(trace, from)
    ensures OwnSteps(trace, from, pending)
  {
  }

  lemma PlanMatches(files: Files, pending: seq<PendingWrite>, targets: seq<FileTarget>)
    requires Planned(pending, targets, |targets|)
    ensures ValidPlan(pending)
    ensures PlannedExactly(files, pending, targets, |targets|) ==> MatchesPlan(files, pending)
  {
  }

  lemma ReplacedNone(files: Files, pending: seq<PendingWrite>)
    ensures Replaced(files, pending, 0) == files
  {
  }

  lemma NothingUnmarkedYet(trace: seq<Step>, base: Disk, id: JournalId, pending: seq<PendingWrite>, metadata: Option<Metadata>)
    ensures AllUnmarked(trace, |trace|, |trace|, base, id, pending, metadata)
  {
  }

  lemma CrashPointsJoin(first: seq<Step>, all: seq<Step>, from: nat, marked: nat, base: Disk, id: JournalId, pending: seq<PendingWrite>, metadata: Option<Metadata>)
    requires first <= all && |first| <= marked && AllUnmarked(first, from, |first|, base, id, pending, metadata)
    requires CrashPoints(all, |first|, marked, base, id, pending, metadata)
    ensures CrashPoints(all, from, marked, base, id, pending, metadata)
  {
    hide Unmarked, MarkedOrDone;
    forall i | from <= i < |first| ensures all[i] == first[i] {
    }
  }

  ghost predicate AllUnmarked(trace: seq<Step>, from: nat, to: int, base: Disk, id: JournalId, pending: seq<PendingWrite>, metadata: Option<Metadata>) {
    forall i | from <= i < to && i < |trace| :: Unmarked(trace[i].disk, base, id, pending, metadata)
  }

  lemma UnmarkedOneMore(trace: seq<Step>, from: nat, to: nat, base: Disk, id: JournalId, pending: seq<PendingWrite>, metadata: Option<Metadata>)
    requires to < |trace| && AllUnmarked(trace, from, to, base, id, pending, metadata)
    requires Mixed(trace[to].disk, base, id, pending, metadata) || BackAgain(trace[to].disk, base, pending, metadata)
    ensures AllUnmarked(trace, from, to + 1, base, id, pending, metadata)
  {
  }

  lemma UnmarkedJoin(first: seq<Step>, all: seq<Step>, from: nat, to: nat, base: Disk, id: JournalId, pending: seq<PendingWrite>, metadata: Option<Metadata>)
    requires first <= all && to <= |all| && AllUnmarked(first, from, |first|, base, id, pending, metadata)
    requires AllMixed(all, |first|, to, base, id, pending, metadata)
    ensures AllUnmarked(all, from, to, base, id, pending, metadata)
  {
    hide Mixed, BackAgain, Opening;
    forall i | from <= i < to ensures Unmarked(all[i].disk, base, id, pending, metadata) {
      if i < |first| {
        assert all[i] == first[i];
      }
    }
  }

  lemma UnmarkedThroughout(trace: seq<Step>, from: nat, base: Disk, id: JournalId, pending: seq<PendingWrite>, metadata: Option<Metadata>)
    requires AllUnmarked(trace, from, |trace|, base, id, pending, metadata)
    ensures CrashPoints(trace, from, |trace|, base, id, pending, metadata)
  {
  }

  /** A failed save goes only through crash points without a marker. */
  lemma FailureIsUnmarked(first: seq<Step>, all: seq<Step>, from: nat, disk: Disk, undone: bool, base: Disk, id: JournalId, pending: seq<PendingWrite>, metadata: Option<Metadata>, m: nat)
    requires ValidPlan(pending) && MatchesPlan(base.files, pending) && m <= |pending| && first <= all
    requires AllUnmarked(first, from, |first|, base, id, pending, metadata)
    requires AllMixed(all, |first|, if undone then |all| - 1 else |all|, base, id, pending, metadata)
    requires undone ==>
               && |all| > |first| && all[|all| - 1].disk == disk && disk.files == Unwound(base.files, pending, m, 0)
               && disk.journals == base.journals && disk.kept == base.kept
               && disk.selections in {base.selections, Reverted(Applied(base.selections, metadata), metadata)}
    ensures CrashPoints(all, from, |all|, base, id, pending, metadata)
  {
    hide ValidPlan, MatchesPlan, AllUnmarked, AllMixed, CrashPoints, BackAgain, Mixed, Unwound, Applied, Reverted;
    UnmarkedJoin(first, all, from, if undone then |all| - 1 else |all|, base, id, pending, metadata);
    if undone {
      UnwoundIsBack(disk, base, pending, metadata, m);
      UnmarkedOneMore(all, from, |all| - 1, base, id, pending, metadata);
    }
    UnmarkedThroughout(all, from, base, id, pending, metadata);
  }

  lemma JournaledIsMixed(base: Disk, id: JournalId, pending: seq<PendingWrite>, metadata: Option<Metadata>)
    requires ValidPlan(pending) && MatchesPlan(base.files, pending)
    ensures Mixed(Journaled(base, id, pending, metadata, false), base, id, pending, metadata)
  {
    UnwoundIsMixed(Journaled(base, id, pending, metadata, false), base, id, pending, metadata, 0, 0);
  }

  /** What a part of a plan does, the plan does. */
  lemma OwnStepsMore(trace: seq<Step>, from: nat, part: seq<PendingWrite>, pending: seq<PendingWrite>)
    requires part <= pending && OwnSteps(trace, from, part)
    ensures OwnSteps(trace, from, pending)
  {
    forall i | from <= i < |trace| && trace[i].actor == Panel ensures OwnStep(trace[i].from, trace[i].disk, pending) {
      assert OwnStep(trace[i].from, trace[i].disk, part);
      assert forall k | 0 <= k < |part| :: part[k] == pending[k];
    }
  }

  lemma DeletionIsOwn(first: seq<Step>, all: seq<Step>, from: nat, pending: seq<PendingWrite>)
    requires from <= |first| && first <= all && |all| <= |first| + 1 && OwnSteps(first, from, pending)
    requires |all| > |first| ==> all[|first|].from.files == all[|first|].disk.files
    ensures OwnSteps(all, from, pending)
  {
    UntouchedIsOwn(first, all, from, pending);
  }

  lemma OpeningEnds(disk: Disk, base: Disk, id: JournalId, pending: seq<PendingWrite>, metadata: Option<Metadata>)
    requires Opening(disk, base, id)
    ensures JournalAfter(disk, base, id, pending, metadata, JournalNotOpened)
    ensures QuietEnd(disk, base, pending, metadata, JournalNotOpened, 0)
  {
  }

  /** The marker and the deletion of the journal are the last steps of a save that succeeds. */
  lemma AfterMarker(first: seq<Step>, all: seq<Step>, from: nat, base: Disk, id: JournalId, pending: seq<PendingWrite>, metadata: Option<Metadata>)
    requires 0 < |first| && first <= all && |all| <= |first| + 1
    requires AllUnmarked(first, from, |first| - 1, base, id, pending, metadata)
    requires AllAfter(first[|first| - 1].disk, base, pending, metadata) && first[|first| - 1].disk.kept == base.kept
    requires first[|first| - 1].disk.journals == base.journals[id := JournalOf(pending, metadata, true)]
    requires |all| > |first| ==> all[|first|].disk == first[|first| - 1].disk.(journals := base.journals)
    ensures CrashPoints(all, from, |first| - 1, base, id, pending, metadata)
  {
    forall i | from <= i < |all|
      ensures if i < |first| - 1 then Unmarked(all[i].disk, base, id, pending, metadata) else MarkedOrDone(all[i].disk, base, id, pending, metadata)
    {
      if i < |first| {
        assert all[i] == first[i];
      }
    }
  }

  /** The journal of the save holds every original for as long as the save is not settled. */
  ghost predicate JournalAfter(disk: Disk, base: Disk, id: JournalId, pending: seq<PendingWrite>, metadata: Option<Metadata>, outcome: SaveOutcome) {
    && disk.kept == base.kept
    && match outcome
       case Saved(_, _) => disk.journals == base.journals
       case Refused(_) => disk.journals == base.journals
       case Undone(_) => disk.journals == base.journals
       case JournalNotOpened => disk.journals - {id} == base.journals - {id} && (id in disk.journals ==> disk.journals[id].manifest.None?)
       case KeptForRecovery(backup) => backup == id && disk.journals == base.journals[id := JournalOf(pending, metadata, false)]
       case CleanupFailed(committed) => disk.journals == base.journals[id := JournalOf(pending, metadata, committed)]
  }

  /** How an undisturbed save ends, by its outcome. */
  ghost predicate QuietEnd(disk: Disk, base: Disk, pending: seq<PendingWrite>, metadata: Option<Metadata>, outcome: SaveOutcome, written: nat)
    requires written <= |pending|
  {
    match outcome
    case Saved(_, _) => AllAfter(disk, base, pending, metadata)
    case CleanupFailed(committed) => if committed then AllAfter(disk, base, pending, metadata) else BackTo(disk, base, pending, metadata, written)
    case Undone(_) => BackTo(disk, base, pending, metadata, written)
    case Refused(_) => AllBefore(disk, base)
    case JournalNotOpened => AllBefore(disk, base)
    case KeptForRecovery(_) => true
  }

  ghost predicate BackTo(disk: Disk, base: Disk, pending: seq<PendingWrite>, metadata: Option<Metadata>, written: nat)
    requires written <= |pending|
  {
    && disk.files == Unwound(base.files, pending, written, 0)
    && disk.selections in {base.selections, Reverted(Applied(base.selections, metadata), metadata)}
  }

  /** Every step before the marker leaves a disk that rolls back, every later one a disk that rolls forward. */
  ghost predicate CrashPoints(trace: seq<Step>, from: nat, marked: nat, base: Disk, id: JournalId, pending: seq<PendingWrite>, metadata: Option<Metadata>) {
    forall i | from <= i < |trace| ::
      if i < marked then Unmarked(trace[i].disk, base, id, pending, metadata) else MarkedOrDone(trace[i].disk, base, id, pending, metadata)
  }

  lemma OwnStepsAppend(first: seq<Step>, all: seq<Step>, from: nat, pending: seq<PendingWrite>)
    requires from <= |first| && first <= all
    requires OwnSteps(first, from, pending) && OwnSteps(all, |first|, pending)
    ensures OwnSteps(all, from, pending)
  {
    forall i | from <= i < |all| && all[i].actor == Panel ensures OwnStep(all[i].from, all[i].disk, pending) {
      if i < |first| {
        assert all[i] == first[i];
      }
    }
  }

  lemma OpeningIsOwn(trace: seq<Step>, from: nat, to: nat, base: Disk, id: JournalId, pending: seq<PendingWrite>, metadata: Option<Metadata>)
    requires from <= to <= |trace| <= to + 1 && OpeningSteps(trace, from, to, base, id)
    requires to < |trace| ==> trace[to].from.files == trace[to].disk.files
    ensures OwnSteps(trace, from, pending[..0])
    ensures AllUnmarked(trace, from, to, base, id, pending, metadata)
  {
  }

  /** How undoing a failed save ended: done, stopped half way, or done with the journal still there */
  datatype UndoResult = UndoDone | UndoStuck | UndoNotCleaned

  /** The disk an undisturbed failed save hands to the undo. */
  ghost predicate UndoStart(disk: Disk, base: Disk, pending: seq<PendingWrite>, m: nat, metadata: Option<Metadata>)
    requires m <= |pending|
  {
    && MatchesPlan(base.files, pending) && disk.files == Replaced(base.files, pending, m) && disk.kept == base.kept
    && disk.selections in {base.selections, Reverted(Applied(base.selections, metadata), metadata)}
  }

  lemma JournalKeepsOriginal(pending: seq<PendingWrite>, k: nat, metadata: Option<Metadata>)
    requires ValidPlan(pending) && k < |pending|
    ensures var p, j := pending[k], JournalOf(pending, metadata, false);
            p.before.Some? ==> p.name in j.before && j.before[p.name] == p.before.value
  {
    JournalHoldsBothVersions(pending, k);
  }

  lemma NoStepsYet(trace: seq<Step>, base: Disk, id: JournalId, pending: seq<PendingWrite>, metadata: Option<Metadata>)
    ensures OwnSteps(trace, |trace|, pending) && AllMixed(trace, |trace|, |trace|, base, id, pending, metadata)
  {
  }

  lemma MixedOneMore(first: seq<Step>, all: seq<Step>, from: nat, base: Disk, id: JournalId, pending: seq<PendingWrite>, metadata: Option<Metadata>)
    requires first <= all && |all| == |first| + 1 && AllMixed(first, from, |first|, base, id, pending, metadata)
    requires Mixed(all[|first|].disk, base, id, pending, metadata)
    ensures AllMixed(all, from, |all|, base, id, pending, metadata)
  {
    hide Mixed;
    forall i | from <= i < |first| ensures all[i] == first[i] {
    }
  }

  /** The first step of a failed save's undoing, when the selection had been stored. */
  lemma RevertedIsMixed(first: seq<Step>, all: seq<Step>, disk: Disk, base: Disk, id: JournalId, pending: seq<PendingWrite>, metadata: Option<Metadata>, m: nat)
    requires ValidPlan(pending) && MatchesPlan(base.files, pending) && m <= |pending|
    requires first <= all && |all| == |first| + 1 && all[|first|].disk == disk && disk.files == Replaced(base.files, pending, m)
    requires disk.journals == base.journals[id := JournalOf(pending, metadata, false)] && disk.kept == base.kept
    requires disk.selections == Reverted(Applied(base.selections, metadata), metadata)
    ensures AllMixed(all, |first|, |all|, base, id, pending, metadata)
  {
    hide ValidPlan, MatchesPlan, Mixed, Applied, Reverted, JournalOf;
    UnwoundFromHere(base.files, pending, m);
    UnwoundIsMixed(disk, base, id, pending, metadata, m, m);
  }

  lemma MixedJoin(first: seq<Step>, all: seq<Step>, from: nat, to: int, base: Disk, id: JournalId, pending: seq<PendingWrite>, metadata: Option<Metadata>)
    requires first <= all && AllMixed(first, from, |first|, base, id, pending, metadata) && AllMixed(all, |first|, to, base, id, pending, metadata)
    ensures AllMixed(all, from, to, base, id, pending, metadata)
  {
    hide Mixed;
    forall i | from <= i < |first| ensures all[i] == first[i] {
    }
  }

  /** The steps after the last file: the selection, if there is one, and the marker. */
  function SelectionSteps(found: Disk, disk: Disk, applied: bool, marked: bool): seq<Step> {
    var stored := found.(selections := disk.selections);
    (if applied then [Step(Panel, found, stored)] else []) + (if marked then [Step(Panel, stored, disk)] else [])
  }

  lemma NoSelectionSteps(trace: seq<Step>, found: Disk)
    ensures trace + SelectionSteps(found, found, false, false) == trace
  {
  }

  lemma SelectionStepsJoin(first: seq<Step>, middle: seq<Step>, all: seq<Step>, found: Disk, disk: Disk, applied: bool, marked: bool)
    requires middle == if applied then first + [Step(Panel, found, found.(selections := disk.selections))] else first
    requires all == if marked then middle + [Step(Panel, found.(selections := disk.selections), disk)] else middle
    ensures all == first + SelectionSteps(found, disk, applied, marked)
  {
  }

  lemma SelectionStepsAreMixed(first: seq<Step>, all: seq<Step>, from: nat, found: Disk, disk: Disk, applied: bool, marked: bool,
                               base: Disk, id: JournalId, pending: seq<PendingWrite>, metadata: Option<Metadata>)
    requires from <= |first| && AllMixed(first, from, |first|, base, id, pending, metadata) && Mixed(found, base, id, pending, metadata)
    requires all == first + SelectionSteps(found, disk, applied, marked)
    requires applied ==> disk.selections == Applied(base.selections, metadata)
    ensures AllMixed(all, from, if marked then |all| - 1 else |all|, base, id, pending, metadata)
  {
    SelectionIsMixed(found, base, id, pending, metadata);
    hide Mixed, Applied;
    forall i | from <= i < |first| ensures all[i] == first[i] {
    }
  }

  lemma MixedKept(first: seq<Step>, all: seq<Step>, from: nat, base: Disk, id: JournalId, pending: seq<PendingWrite>, metadata: Option<Metadata>)
    requires first <= all && AllMixed(first, from, |first|, base, id, pending, metadata)
    ensures AllMixed(all, from, |first|, base, id, pending, metadata)
  {
    hide Mixed;
    forall i | from <= i < |first| ensures all[i] == first[i] {
    }
  }

  lemma OwnRestoration(disk: Disk, p: PendingWrite)
    requires HoldsText(At(disk.files, p.name), Some(Sha256(p.after)))
    ensures OwnStep(disk, disk.(files := Put(disk.files, p.name, RestoredNode(p))), [p])
  {
    assert [p][0].name == p.name;
  }

  /** The disk with the journal of a save added. */
  function Journaled(base: Disk, id: JournalId, pending: seq<PendingWrite>, metadata: Option<Metadata>, committed: bool): Disk {
    base.(journals := base.journals[id := JournalOf(pending, metadata, committed)])
  }

  lemma OwnReplacement(disk: Disk, p: PendingWrite)
    requires ReadNode(At(disk.files, p.name)).Success? && ReadNode(At(disk.files, p.name)).value.hash == HashOf(p.before)
    ensures OwnStep(disk, disk.(files := disk.files[p.name := Regular(p.after, p.mode)]), [p])
  {
    assert [p][0].name == p.name;
  }

  function PartialJournal(pending: seq<PendingWrite>, i: nat): Journal
    requires i <= |pending|
  {
    Journal(BeforeTexts(pending[..i]), AfterTexts(pending[..i]), None, false)
  }

  /** Both versions are of an accepted size. */
  predicate FitsLimit(p: PendingWrite) {
    |p.after| <= MAX_FILE_BYTES && (p.before.Some? ==> |p.before.value| <= MAX_FILE_BYTES)
  }

  lemma NotYetReplaced(files: Files, pending: seq<PendingWrite>, i: nat)
    requires ValidPlan(pending) && MatchesPlan(files, pending) && i < |pending|
    ensures At(Replaced(files, pending, i), pending[i].name) == BeforeNode(pending[i]) && FitsLimit(pending[i])
  {
    assert pending[i] in pending;
    ReplacedAt(files, pending, i, pending[i].name);
    forall j | 0 <= j < i ensures pending[j].name != pending[i].name {
      assert Names(pending)[j] != Names(pending)[i];
    }
  }

  lemma JournalCompleted(pending: seq<PendingWrite>, metadata: Option<Metadata>)
    ensures PartialJournal(pending, |pending|).(manifest := Some(Manifest(Entries(pending), metadata))) == JournalOf(pending, metadata, false)
  {
    assert pending[..|pending|] == pending;
  }

  lemma NoManifestYet(pending: seq<PendingWrite>)
    ensures forall i | 0 <= i <= |pending| :: PartialJournal(pending, i).manifest.None?
  {
  }

  lemma PartialJournalGrows(pending: seq<PendingWrite>, i: nat)
    requires i < |pending|
    ensures var p, j := pending[i], PartialJournal(pending, i);
            PartialJournal(pending, i + 1)
            == j.(before := if p.before.Some? then j.before[p.name := p.before.value] else j.before, after := j.after[p.name := p.after])
  {
    assert pending[..i + 1][..i] == pending[..i];
  }

  lemma OpeningStart(trace: seq<Step>, base: Disk, id: JournalId)
    requires id !in base.journals
    ensures Opening(base, base, id) && OpeningSteps(trace, |trace|, |trace|, base, id)
  {
  }

  lemma OpeningKept(first: seq<Step>, all: seq<Step>, n0: nat, base: Disk, id: JournalId)
    requires first <= all && OpeningSteps(first, n0, |first|, base, id)
    ensures OpeningSteps(all, n0, |first|, base, id)
  {
    forall i | n0 <= i < |first| ensures all[i] == first[i] {
    }
  }

  lemma OpeningDisk(base: Disk, id: JournalId, journal: Journal)
    requires id !in base.journals && journal.manifest.None?
    ensures Opening(base.(journals := base.journals[id := journal]), base, id)
  {
  }

  /** Steps of one file's commit are steps of the whole save. */
  lemma OwnStepsJoin(first: seq<Step>, all: seq<Step>, from: nat, pending: seq<PendingWrite>, k: nat)
    requires from <= |first| && first <= all && k < |pending|
    requires OwnSteps(first, from, pending) && OwnSteps(all, |first|, [pending[k]])
    ensures OwnSteps(all, from, pending)
  {
    forall i | from <= i < |all| && all[i].actor == Panel ensures OwnStep(all[i].from, all[i].disk, pending) {
      if i < |first| {
        assert all[i] == first[i];
      } else {
        assert OwnStep(all[i].from, all[i].disk, [pending[k]]);
      }
    }
  }

  /** One file more of the plan was dealt with. */
  lemma OwnStepsNext(first: seq<Step>, all: seq<Step>, from: nat, pending: seq<PendingWrite>, k: nat)
    requires from <= |first| && first <= all && k < |pending|
    requires OwnSteps(first, from, pending[..k]) && OwnSteps(all, |first|, [pending[k]])
    ensures OwnSteps(all, from, pending[..k + 1])
  {
    assert pending[..k + 1][k] == pending[k];
    OwnStepsMore(first, from, pending[..k], pending[..k + 1]);
    OwnStepsJoin(first, all, from, pending[..k + 1], k);
  }

  lemma SelectionIsMixed(disk: Disk, base: Disk, id: JournalId, pending: seq<PendingWrite>, metadata: Option<Metadata>)
    requires Mixed(disk, base, id, pending, metadata)
    ensures Mixed(disk.(selections := Applied(base.selections, metadata)), base, id, pending, metadata)
  {
  }

  /** The panel changed no file in these steps. */
  ghost predicate FilesUntouched(trace: seq<Step>, from: nat) {
    forall i | from <= i < |trace| && trace[i].actor == Panel :: trace[i].disk.files == trace[i].from.files
  }

  lemma OutsidersTouchNothing(trace: seq<Step>, from: nat)
    requires OutsidersFrom(trace, from)
    ensures FilesUntouched(trace, from)
  {
  }

  lemma UntouchedOneMore(first: seq<Step>, all: seq<Step>, from: nat)
    requires first <= all && |all| == |first| + 1 && FilesUntouched(first, from)
    requires all[|first|].disk.files == all[|first|].from.files
    ensures FilesUntouched(all, from)
  {
    forall i | from <= i < |first| ensures all[i] == first[i] {
    }
  }

  lemma UntouchedJoin(first: seq<Step>, all: seq<Step>, from: nat)
    requires first <= all && FilesUntouched(first, from) && FilesUntouched(all, |first|)
    ensures FilesUntouched(all, from)
  {
    forall i | from <= i < |first| ensures all[i] == first[i] {
    }
  }

  lemma UnwoundFromHere(files: Files, pending: seq<PendingWrite>, m: nat)
    requires m <= |pending|
    ensures Unwound(files, pending, m, m) == Replaced(files, pending, m)
  {
  }

  lemma UntouchedIsOwn(first: seq<Step>, all: seq<Step>, from: nat, pending: seq<PendingWrite>)
    requires from <= |first| && first <= all
    requires OwnSteps(first, from, pending) && FilesUntouched(all, |first|)
    ensures OwnSteps(all, from, pending)
  {
    forall i | from <= i < |all| && all[i].actor == Panel ensures OwnStep(all[i].from, all[i].disk, pending) {
      if i < |first| {
        assert all[i] == first[i];
      }
    }
  }

  /** Names are distinct and no text is too large. */
  predicate ValidTargets(targets: seq<FileTarget>) {
    && (forall i | 0 <= i < |targets| :: |targets[i].content| <= MAX_FILE_BYTES)
    && (forall i, j | 0 <= i < j < |targets| :: targets[i].name != targets[j].name)
  }

  /** A pending write carries out one target, from the baseline its caller named. */
  predicate PlansFor(p: PendingWrite, t: FileTarget) {
    && p.name == t.name && p.after == t.content
    && (t.expectedHash.Some? ==> HashOf(p.before) == t.expectedHash.value)
    && (p.before.None? ==> p.mode == if t.mode.Some? then t.mode.value else DEFAULT_FILE_MODE)
  }

  /** A pending write that records what its file holds right now. */
  predicate FreshPlan(files: Files, p: PendingWrite, t: FileTarget) {
    && PlansFor(p, t) && At(files, p.name) == BeforeNode(p) && !HoldsText(At(files, p.name), Some(Sha256(p.after)))
    && (p.before.Some? ==> |p.before.value| <= MAX_FILE_BYTES)
    && (t.expectedHash.Some? ==> HoldsText(At(files, t.name), t.expectedHash.value))
  }

  ghost predicate Planned(pending: seq<PendingWrite>, targets: seq<FileTarget>, i: nat)
    requires i <= |targets|
  {
    ValidPlan(pending) && forall k | 0 <= k < |pending| :: exists t :: 0 <= t < i && PlansFor(pending[k], targets[t])
  }

  /** Each target meets its baseline and is pending exactly when its file holds another text. */
  ghost predicate PlannedExactly(files: Files, pending: seq<PendingWrite>, targets: seq<FileTarget>, i: nat)
    requires i <= |targets|
  {
    && MatchesPlan(files, pending)
    && forall k | 0 <= k < i ::
         && (targets[k].expectedHash.Some? ==> HoldsText(At(files, targets[k].name), targets[k].expectedHash.value))
         && (Pends(pending, targets[k].name) <==> !HoldsText(At(files, targets[k].name), Some(Sha256(targets[k].content))))
  }

  lemma NotYetPending(pending: seq<PendingWrite>, targets: seq<FileTarget>, i: nat)
    requires ValidTargets(targets) && i < |targets| && Planned(pending, targets, i)
    ensures !Pends(pending, targets[i].name)
  {
    forall k | 0 <= k < |pending| ensures pending[k].name != targets[i].name {
      var t :| 0 <= t < i && PlansFor(pending[k], targets[t]);
      assert targets[t].name != targets[i].name;
    }
  }

  lemma PlanSkips(files: Files, pending: seq<PendingWrite>, targets: seq<FileTarget>, i: nat)
    requires ValidTargets(targets) && i < |targets| && Planned(pending, targets, i)
    requires HoldsText(At(files, targets[i].name), Some(Sha256(targets[i].content)))
    requires targets[i].expectedHash.Some? ==> HoldsText(At(files, targets[i].name), targets[i].expectedHash.value)
    ensures Planned(pending, targets, i + 1)
    ensures PlannedExactly(files, pending, targets, i) ==> PlannedExactly(files, pending, targets, i + 1)
  {
    NotYetPending(pending, targets, i);
  }

  lemma PlanAdds(files: Files, pending: seq<PendingWrite>, targets: seq<FileTarget>, i: nat, p: PendingWrite)
    requires ValidTargets(targets) && i < |targets| && Planned(pending, targets, i)
    requires FreshPlan(files, p, targets[i])
    ensures Planned(pending + [p], targets, i + 1)
    ensures PlannedExactly(files, pending, targets, i) ==> PlannedExactly(files, pending + [p], targets, i + 1)
  {
    var all := pending + [p];
    NotYetPending(pending, targets, i);
    forall a, b | 0 <= a < b < |all| ensures Names(all)[a] != Names(all)[b] {
      if b == |pending| {
        assert pending[a].name != p.name;
      } else {
        assert Names(pending)[a] != Names(pending)[b];
      }
    }
    forall name ensures Pends(all, name) <==> Pends(pending, name) || p.name == name {
      assert all[|pending|] == p;
      if k :| 0 <= k < |pending| && pending[k].name == name {
        assert all[k].name == name;
      }
    }
    forall k | 0 <= k < |all| ensures exists t :: 0 <= t < i + 1 && PlansFor(all[k], targets[t]) {
      if k < |pending| {
        var t :| 0 <= t < i && PlansFor(pending[k], targets[t]);
        assert PlansFor(all[k], targets[t]);
      }
    }
    if PlannedExactly(files, pending, targets, i) {
      forall k | 0 <= k < i ensures targets[k].name != p.name {
      }
    }
  }

  // ---------------------------------------------------------------- many saves

  /** The text is the save's own, or the one its caller started from. */
  predicate MayReplace(node: Option<Node>, t: FileTarget) {
    HoldsText(node, Some(Sha256(t.content))) || (t.expectedHash.Some? ==> HoldsText(node, t.expectedHash.value))
  }

  /**
   What a save leaves behind: each file it was asked for holds the text asked for, with the
   permissions it had, or else those asked for, or else the usual ones. No other file changes.
   */
  lemma SavedMeans(disk: Disk, base: Disk, pending: seq<PendingWrite>, targets: seq<FileTarget>, metadata: Option<Metadata>)
    requires ValidTargets(targets) && Planned(pending, targets, |targets|)
    requires PlannedExactly(base.files, pending, targets, |targets|) && AllAfter(disk, base, pending, metadata)
    ensures forall t | t in targets ::
              && t.name in disk.files
              && disk.files[t.name] == Regular(t.content, if t.name in base.files && base.files[t.name].Regular? then base.files[t.name].mode
                                                          else if t.mode.Some? then t.mode.value else 420)
    ensures forall name | (forall t | t in targets :: t.name != name) :: At(disk.files, name) == At(base.files, name)
    ensures disk.selections == match metadata case None => base.selections case Some(m) => base.selections[m.stack := m.after]
  {
    assert ValidPlan(pending);
    hide Replaced;
    forall t | t in targets
      ensures t.name in disk.files
      ensures disk.files[t.name] == Regular(t.content, if t.name in base.files && base.files[t.name].Regular? then base.files[t.name].mode
                                                       else if t.mode.Some? then t.mode.value else 420)
    {
      var k :| 0 <= k < |targets| && targets[k] == t;
      TargetIsSaved(disk.files, base.files, pending, targets, k);
    }
    forall name | forall t | t in targets :: t.name != name ensures At(disk.files, name) == At(base.files, name) {
      ReplacedAt(base.files, pending, |pending|, name);
      forall i | 0 <= i < |pending| ensures pending[i].name != name {
        var j :| 0 <= j < |targets| && PlansFor(pending[i], targets[j]);
        assert targets[j] in targets;
      }
    }
  }

  lemma QuietSuccess(disk: Disk, base: Disk, pending: seq<PendingWrite>, targets: seq<FileTarget>, metadata: Option<Metadata>,
                     outcome: SaveOutcome, written: nat)
    requires written <= |pending| && ValidTargets(targets) && Planned(pending, targets, |targets|)
    requires PlannedExactly(base.files, pending, targets, |targets|) && QuietEnd(disk, base, pending, metadata, outcome, written) && Succeeded(outcome)
    ensures forall t | t in targets ::
              && t.name in disk.files
              && disk.files[t.name] == Regular(t.content, if t.name in base.files && base.files[t.name].Regular? then base.files[t.name].mode
                                                          else if t.mode.Some? then t.mode.value else 420)
    ensures forall name | (forall t | t in targets :: t.name != name) :: At(disk.files, name) == At(base.files, name)
    ensures disk.selections == match metadata case None => base.selections case Some(m) => base.selections[m.stack := m.after]
  {
    assert AllAfter(disk, base, pending, metadata);
    hide *;
    SavedMeans(disk, base, pending, targets, metadata);
  }

  lemma TargetIsSaved(files: Files, base: Files, pending: seq<PendingWrite>, targets: seq<FileTarget>, k: nat)
    requires k < |targets| && Planned(pending, targets, |targets|) && PlannedExactly(base, pending, targets, |targets|)
    requires files == Replaced(base, pending, |pending|) && Distinct(Names(pending)) && ValidTargets(targets)
    ensures var t := targets[k];
            At(files, t.name) == Some(Regular(t.content, if t.name in base && base[t.name].Regular? then base[t.name].mode
                                                         else if t.mode.Some? then t.mode.value else 420))
  {
    var t := targets[k];
    assert MatchesPlan(base, pending) && (!Pends(pending, t.name) ==> HoldsText(At(base, t.name), Some(Sha256(t.content))));
    hide Replaced, Planned, PlannedExactly, AfterNode, BeforeNode, ValidTargets, PlansFor, Distinct;
    ReplacedAt(base, pending, |pending|, t.name);
    if Pends(pending, t.name) {
      var i := OwnPending(pending, targets, k);
      assert At(base, t.name) == BeforeNode(pending[i]);
      hide *;
      PlannedIsSaved(base, pending[i], t);
    } else {
      assert forall i | 0 <= i < |pending| :: pending[i].name != t.name;
    }
  }

  lemma OwnPending(pending: seq<PendingWrite>, targets: seq<FileTarget>, k: nat) returns (i: nat)
    requires k < |targets| && Planned(pending, targets, |targets|) && ValidTargets(targets) && Pends(pending, targets[k].name)
    ensures i < |pending| && pending[i].name == targets[k].name && PlansFor(pending[i], targets[k])
  {
    hide ValidPlan;
    i :| 0 <= i < |pending| && pending[i].name == targets[k].name;
    var j :| 0 <= j < |targets| && PlansFor(pending[i], targets[j]);
    assert !(j < k) && !(k < j);
  }

  lemma PlannedIsSaved(base: Files, p: PendingWrite, t: FileTarget)
    requires PlansFor(p, t) && At(base, t.name) == BeforeNode(p)
    ensures AfterNode(p) == Some(Regular(t.content, if t.name in base && base[t.name].Regular? then base[t.name].mode
                                                    else if t.mode.Some? then t.mode.value else 420))
  {
  }

  /** No step of a save replaces a text its caller had not seen, unless it is the save's own. */
  lemma NoSilentOverwrite(trace: seq<Step>, from: nat, pending: seq<PendingWrite>, targets: seq<FileTarget>, i: nat, name: Name)
    requires OwnSteps(trace, from, pending) && Planned(pending, targets, |targets|)
    requires from <= i < |trace| && trace[i].actor == Panel && At(trace[i].disk.files, name) != At(trace[i].from.files, name)
    ensures exists t :: t in targets && t.name == name && MayReplace(At(trace[i].from.files, name), t)
  {
    assert OwnStep(trace[i].from, trace[i].disk, pending);
    var k :| 0 <= k < |pending| && pending[k].name == name && OwnChange(At(trace[i].from.files, name), At(trace[i].disk.files, name), pending[k]);
    var t :| 0 <= t < |targets| && PlansFor(pending[k], targets[t]);
    assert targets[t] in targets;
  }

  /** Others edit files and nothing else. */
  predicate EditsFiles(step: Step) {
    step.disk == step.from.(files := step.disk.files)
  }

  /** The panel deals with one journal at a time, whose manifest is the given one once it has any. */
  predicate JournalStep(step: Step, id: JournalId, manifest: Option<Manifest>) {
    if step.actor.Outsider? then EditsFiles(step)
    else
      || step.disk.journals == step.from.journals
      || (step.disk.journals - {id} == step.from.journals - {id}
          && (id in step.disk.journals ==> step.disk.journals[id].manifest in {None, manifest}))
  }

  ghost predicate JournalSteps(trace: seq<Step>, from: nat, id: JournalId, manifest: Option<Manifest>) {
    forall i | from <= i < |trace| :: JournalStep(trace[i], id, manifest)
  }

  /** The operation under way: its first step, its journal and the manifest of that. */
  datatype Doing = Doing(since: nat, id: JournalId, manifest: Option<Manifest>)

  /** The steps are consecutive, and those of the operation under way deal with its journal alone. */
  ghost predicate Going(trace: seq<Step>, start: Disk, disk: Disk, doing: Doing) {
    Chained(trace, start, disk) && doing.since <= |trace| && JournalSteps(trace, doing.since, doing.id, doing.manifest)
  }

  lemma GoingOn(trace: seq<Step>, start: Disk, doing: Doing, step: Step)
    requires Going(trace, start, step.from, doing) && JournalStep(step, doing.id, doing.manifest)
    ensures Going(trace + [step], start, step.disk, doing)
  {
    ChainedMore(trace, start, step);
  }

  /** From now on the journal has its manifest. */
  lemma GoingWithManifest(trace: seq<Step>, start: Disk, disk: Disk, doing: Doing, manifest: Manifest)
    requires Going(trace, start, disk, doing) && doing.manifest.None?
    ensures Going(trace, start, disk, doing.(manifest := Some(manifest)))
  {
    assert forall i | doing.since <= i < |trace| :: JournalStep(trace[i], doing.id, doing.manifest);
  }

  /** A run is at an end, and an operation may begin. */
  lemma RunStarts(trace: seq<Step>, causes: seq<Cause>, start: Disk, disk: Disk, id: JournalId)
    requires IsRun(trace, causes, start, disk)
    ensures Going(trace, start, disk, Doing(|trace|, id, None))
  {
  }

  /** What the panel is doing when it makes a step */
  datatype Cause =
    | Saving(id: JournalId, targets: seq<FileTarget>, pending: seq<PendingWrite>, metadata: Option<Metadata>)
    | Recovering(id: JournalId, committed: bool)

  /** A step of a save is its own; one of a recovery follows a journal that is on the disk. */
  ghost predicate Caused(step: Step, cause: Cause) {
    match cause
    case Saving(id, targets, pending, metadata) =>
      && Planned(pending, targets, |targets|) && OwnStep(step.from, step.disk, pending)
      && JournalStep(step, id, Some(Manifest(Entries(pending), metadata)))
    case Recovering(id, committed) =>
      && id in step.from.journals && step.from.journals[id].manifest.Some? && (committed ==> step.from.journals[id].committed)
      && RestoringStep(step.from, step.disk, id, step.from.journals[id].manifest.value.files, TakenAs(step.from.journals[id], committed))
      && JournalStep(step, id, None)
  }

  ghost predicate Accountable(trace: seq<Step>, causes: seq<Cause>, i: nat)
    requires i < |trace|
  {
    if trace[i].actor.Outsider? then EditsFiles(trace[i]) else i < |causes| && Caused(trace[i], causes[i])
  }

  /**
   A run of the panel on one directory: consecutive steps, every one of the panel's with its
   cause. It may be cut off at any step, and a run from the disk it left there continues it.
   */
  ghost predicate IsRun(trace: seq<Step>, causes: seq<Cause>, start: Disk, end: Disk) {
    && Chained(trace, start, end) && |causes| <= |trace|
    && forall i | 0 <= i < |trace| :: Accountable(trace, causes, i)
  }

  lemma {:induction false} ChainedAt(trace: seq<Step>, start: Disk, end: Disk, i: nat)
    requires Chained(trace, start, end) && i < |trace|
    ensures trace[i].from == if i == 0 then start else trace[i - 1].disk
    ensures Chained(trace[..i], start, trace[i].from)
  {
    var n := |trace| - 1;
    if i < n {
      ChainedAt(trace[..n], start, trace[n].from, i);
      assert trace[..n][..i] == trace[..i];
    } else if i > 0 {
      assert trace[..n][n - 1] == trace[n - 1];
    }
  }

  lemma {:induction false} ChainedJoin(a: seq<Step>, b: seq<Step>, start: Disk, middle: Disk, end: Disk)
    requires Chained(a, start, middle) && Chained(b, middle, end)
    ensures Chained(a + b, start, end)
  {
    if |b| == 0 {
      assert a + b == a;
    } else {
      var n := |b| - 1;
      ChainedJoin(a, b[..n], start, middle, b[n].from);
      assert (a + b)[..|a + b| - 1] == a + b[..n];
    }
  }

  /** A process that dies between two steps leaves a run. */
  lemma CrashLeavesRun(trace: seq<Step>, causes: seq<Cause>, start: Disk, end: Disk, i: nat)
    requires IsRun(trace, causes, start, end) && i < |trace|
    ensures IsRun(trace[..i], if i < |causes| then causes[..i] else causes, start, trace[i].from)
  {
    ChainedAt(trace, start, end, i);
    hide Caused;
    var least := if i < |causes| then causes[..i] else causes;
    forall j | 0 <= j < i ensures Accountable(trace[..i], least, j) {
      assert Accountable(trace, causes, j);
    }
  }

  /** Outside edits need no cause; any will do to fill their places. */
  function Padded(causes: seq<Cause>, n: nat): (all: seq<Cause>)
    requires |causes| <= n
    ensures |all| == n && causes <= all
  {
    causes + seq(n - |causes|, i => Saving("", [], [], None))
  }

  /** The next process continues it. */
  lemma RunsContinue(a: seq<Step>, causes: seq<Cause>, b: seq<Step>, more: seq<Cause>, start: Disk, middle: Disk, end: Disk)
    requires IsRun(a, causes, start, middle) && IsRun(b, more, middle, end)
    ensures IsRun(a + b, Padded(causes, |a|) + more, start, end)
  {
    ChainedJoin(a, b, start, middle, end);
    hide Caused;
    var all := Padded(causes, |a|) + more;
    forall i | 0 <= i < |a + b| ensures Accountable(a + b, all, i) {
      if i >= |a| {
        assert (a + b)[i] == b[i - |a|] && Accountable(b, more, i - |a|);
      } else {
        assert Accountable(a, causes, i);
      }
    }
  }

  lemma SavingIsCause(trace: seq<Step>, from: nat, id: JournalId, targets: seq<FileTarget>, pending: seq<PendingWrite>, metadata: Option<Metadata>, manifest: Option<Manifest>)
    requires Planned(pending, targets, |targets|) && OwnSteps(trace, from, pending) && JournalSteps(trace, from, id, manifest)
    requires manifest in {None, Some(Manifest(Entries(pending), metadata))}
    ensures forall i | from <= i < |trace| ::
              if trace[i].actor.Panel? then Caused(trace[i], Saving(id, targets, pending, metadata)) else EditsFiles(trace[i])
  {
    hide Planned, OwnStep, Entries;
    assert forall i | from <= i < |trace| :: JournalStep(trace[i], id, manifest);
  }

  lemma RecoveringIsCause(trace: seq<Step>, from: nat, id: JournalId, manifest: Manifest, journal: Journal)
    requires RestoringSteps(trace, from, id, manifest.files, journal) && journal.manifest == Some(manifest) && JournalSteps(trace, from, id, None)
    ensures forall i | from <= i < |trace| ::
              if trace[i].actor.Panel? then Caused(trace[i], Recovering(id, journal.committed)) else EditsFiles(trace[i])
  {
    forall i | from <= i < |trace|
      ensures if trace[i].actor.Panel? then Caused(trace[i], Recovering(id, journal.committed)) else EditsFiles(trace[i])
    {
      assert JournalStep(trace[i], id, None);
      if trace[i].actor.Panel? {
        assert RestoringStep(trace[i].from, trace[i].disk, id, manifest.files, journal);
        assert TakenAs(trace[i].from.journals[id], journal.committed) == journal;
      }
    }
  }

  /** The new steps of a run have one cause. */
  function Extended(causes: seq<Cause>, n: nat, cause: Cause): (all: seq<Cause>)
    ensures |all| == if |causes| <= n then n else |causes|
    ensures causes <= all && forall i | |causes| <= i < |all| :: all[i] == cause
  {
    if |causes| <= n then causes + seq(n - |causes|, i => cause) else causes
  }

  /** All causes since then are recoveries. */
  ghost predicate Recoveries(before: seq<Cause>, now: seq<Cause>) {
    before <= now && forall i | |before| <= i < |now| :: now[i].Recovering?
  }

  lemma NoRecoveries(causes: seq<Cause>)
    ensures Recoveries(causes, causes)
  {
  }

  lemma MoreRecoveries(before: seq<Cause>, found: seq<Cause>, now: seq<Cause>, length: nat, id: JournalId, look: Look)
    requires Recoveries(before, found) && now == if look.Taken? then Extended(found, length, Recovering(id, look.committed)) else found
    ensures Recoveries(before, now)
  {
    assert forall i | 0 <= i < |found| :: now[i] == found[i];
  }

  lemma RunGrows(first: seq<Step>, all: seq<Step>, causes: seq<Cause>, cause: Cause, start: Disk, middle: Disk, end: Disk)
    requires IsRun(first, causes, start, middle) && first <= all && Chained(all, start, end)
    requires forall i | |first| <= i < |all| :: if all[i].actor.Panel? then Caused(all[i], cause) else EditsFiles(all[i])
    ensures IsRun(all, Extended(causes, |all|, cause), start, end)
  {
    hide Caused, Chained;
    forall i | 0 <= i < |all| ensures Accountable(all, Extended(causes, |all|, cause), i) {
      if i < |first| {
        assert all[i] == first[i] && Accountable(first, causes, i);
      }
    }
  }

  /** The save opened this journal with this manifest. */
  predicate Opened(cause: Cause, id: JournalId, manifest: Manifest) {
    cause.Saving? && cause.id == id && manifest == Manifest(Entries(cause.pending), cause.metadata)
  }

  /** A save before step i opened the journal, or the run found it at its start. */
  ghost predicate OpenedBefore(causes: seq<Cause>, i: nat, start: Disk, id: JournalId, manifest: Manifest) {
    || (id in start.journals && start.journals[id].manifest == Some(manifest))
    || exists j :: 0 <= j < i && j < |causes| && Opened(causes[j], id, manifest)
  }

  /** The journals a run goes through are those of its own saves and those it started with. */
  lemma {:induction false} JournalsAreOfSaves(trace: seq<Step>, causes: seq<Cause>, start: Disk, end: Disk, i: nat, id: JournalId)
    requires IsRun(trace, causes, start, end) && i <= |trace|
    requires var disk := if i < |trace| then trace[i].from else end;
             id in disk.journals && disk.journals[id].manifest.Some?
    ensures var disk := if i < |trace| then trace[i].from else end;
            OpenedBefore(causes, i, start, id, disk.journals[id].manifest.value)
  {
    if i < |trace| {
      ChainedAt(trace, start, end, i);
    }
    if i > 0 {
      var step := trace[i - 1];
      assert Accountable(trace, causes, i - 1);
      hide IsRun, Chained, OwnStep, RestoringStep, Planned;
      if id in step.from.journals && step.from.journals[id].manifest == step.disk.journals[id].manifest {
        JournalsAreOfSaves(trace, causes, start, end, i - 1, id);
      } else {
        OpeningIsASave(step, causes[i - 1], id);
      }
    }
  }

  lemma OpeningIsASave(step: Step, cause: Cause, id: JournalId)
    requires step.actor.Panel? && Caused(step, cause) && id in step.disk.journals && step.disk.journals[id].manifest.Some?
    requires id in step.from.journals ==> step.from.journals[id].manifest != step.disk.journals[id].manifest
    ensures Opened(cause, id, step.disk.journals[id].manifest.value)
  {
    hide Planned, OwnStep, RestoringStep, Entries;
    assert id in step.disk.journals - {cause.id} <==> id != cause.id;
  }

  /** Recovering this save may take away its new text, or behind a marker the original. */
  predicate RecoveryTakes(cause: Cause, id: JournalId, committed: bool, name: Name, hash: Option<Hash>) {
    cause.Saving? && cause.id == id
    && exists p :: p in cause.pending && p.name == name && hash == if committed then HashOf(p.before) else Some(Sha256(p.after))
  }

  /**
   Whose step may take away a text that a file holds, or its absence: a save's whose caller
   named that text or none, or whose own text it is; a recovery's if an earlier save of the
   run wrote that text, or replaced it and is finished, or if the run found such a journal.
   */
  ghost predicate MayTakeAway(causes: seq<Cause>, i: nat, start: Disk, name: Name, hash: Option<Hash>)
    requires i < |causes|
  {
    match causes[i]
    case Saving(_, targets, _, _) =>
      exists t :: t in targets && t.name == name && (hash == Some(Sha256(t.content)) || (t.expectedHash.Some? ==> hash == t.expectedHash.value))
    case Recovering(id, committed) =>
      || (exists j :: 0 <= j < i && RecoveryTakes(causes[j], id, committed, name, hash))
      || (id in start.journals && start.journals[id].manifest.Some?
          && exists e :: e in start.journals[id].manifest.value.files && e.name == name && hash == Other(e, committed))
  }

  lemma TakingAway(trace: seq<Step>, causes: seq<Cause>, start: Disk, end: Disk, i: nat, name: Name, hash: Option<Hash>)
    requires IsRun(trace, causes, start, end) && i < |trace| && trace[i].actor.Panel?
    requires HoldsText(At(trace[i].from.files, name), hash) && !HoldsText(At(trace[i].disk.files, name), hash)
    ensures i < |causes| && MayTakeAway(causes, i, start, name, hash)
  {
    assert Accountable(trace, causes, i);
    var step := trace[i];
    match causes[i] {
      case Saving(id, targets, pending, metadata) =>
        hide IsRun, Planned, OwnStep, JournalStep;
        NoSilentOverwrite([step], 0, pending, targets, 0, name);
      case Recovering(id, committed) =>
        JournalsAreOfSaves(trace, causes, start, end, i, id);
        hide IsRun, JournalStep;
        var manifest := step.from.journals[id].manifest.value;
        var k :| 0 <= k < |manifest.files| && manifest.files[k].name == name && HoldsText(At(step.from.files, name), Other(manifest.files[k], committed));
        EntryTakes(causes, i, start, id, manifest, k, committed, hash);
    }
  }

  lemma EntryTakes(causes: seq<Cause>, i: nat, start: Disk, id: JournalId, manifest: Manifest, k: nat, committed: bool, hash: Option<Hash>)
    requires i < |causes| && causes[i] == Recovering(id, committed) && OpenedBefore(causes, i, start, id, manifest)
    requires k < |manifest.files| && hash == Other(manifest.files[k], committed)
    ensures MayTakeAway(causes, i, start, manifest.files[k].name, hash)
  {
    assert manifest.files[k] in manifest.files;
    if !(id in start.journals && start.journals[id].manifest == Some(manifest)) {
      var j :| 0 <= j < i && j < |causes| && Opened(causes[j], id, manifest);
      assert causes[j].pending[k] in causes[j].pending;
      assert RecoveryTakes(causes[j], id, committed, manifest.files[k].name, hash);
    }
  }

  /**
   All saves, undone saves, recoveries, crashes and outside edits of a run form one chain in
   which no text is lost silently: when a text that a file held after step k is gone, the
   first step that took it away was somebody's who was entitled to.
   */
  lemma {:induction false} SavesFormOneChain(trace: seq<Step>, causes: seq<Cause>, start: Disk, end: Disk, k: nat, name: Name, hash: Option<Hash>)
    returns (i: nat)
    requires IsRun(trace, causes, start, end) && k < |trace|
    requires HoldsText(At(trace[k].disk.files, name), hash) && !HoldsText(At(end.files, name), hash)
    ensures k < i < |trace| && forall j | k < j <= i :: HoldsText(At(trace[j].from.files, name), hash)
    ensures !HoldsText(At(trace[i].disk.files, name), hash)
    ensures trace[i].actor.Panel? ==> i < |causes| && MayTakeAway(causes, i, start, name, hash)
    decreases |trace| - k
  {
    hide Accountable, HoldsText, MayTakeAway;
    if k == |trace| - 1 {
      assert false;
    }
    ChainedAt(trace, start, end, k + 1);
    if HoldsText(At(trace[k + 1].disk.files, name), hash) {
      i := SavesFormOneChain(trace, causes, start, end, k + 1, name, hash);
    } else {
      i := k + 1;
      if trace[i].actor.Panel? {
        TakingAway(trace, causes, start, end, i, name, hash);
      }
    }
  }

  /** A step of the save replaced the text the file was planned from by the new one. */
  ghost predicate Wrote(trace: seq<Step>, from: nat, p: PendingWrite) {
    exists i :: from <= i < |trace| && trace[i].actor.Panel?
             && HoldsText(At(trace[i].from.files, p.name), HashOf(p.before)) && At(trace[i].disk.files, p.name) == AfterNode(p)
  }

  ghost predicate WroteAll(trace: seq<Step>, from: nat, pending: seq<PendingWrite>, n: nat)
    requires n <= |pending|
  {
    forall k | 0 <= k < n :: Wrote(trace, from, pending[k])
  }

  lemma WroteStays(first: seq<Step>, all: seq<Step>, from: nat, pending: seq<PendingWrite>, n: nat)
    requires first <= all && n <= |pending| && WroteAll(first, from, pending, n)
    ensures WroteAll(all, from, pending, n)
  {
    forall k | 0 <= k < n ensures Wrote(all, from, pending[k]) {
      WroteOneStays(first, all, from, from, pending[k]);
    }
  }

  lemma WroteOneStays(first: seq<Step>, all: seq<Step>, from: nat, to: nat, p: PendingWrite)
    requires first <= all && to <= from && Wrote(first, from, p)
    ensures Wrote(all, to, p)
  {
    var i :| from <= i < |first| && first[i].actor.Panel?
          && HoldsText(At(first[i].from.files, p.name), HashOf(p.before)) && At(first[i].disk.files, p.name) == AfterNode(p);
    assert all[i] == first[i];
  }

  /** The replacement of one file, with edits of others before and after it. */
  lemma OneReplacement(before: seq<Step>, until: seq<Step>, all: seq<Step>, step: Step, p: PendingWrite)
    requires before <= until && until + [step] <= all && OutsidersFrom(until, |before|) && OutsidersFrom(all, |until| + 1)
    requires step.actor.Panel? && step.disk == step.from.(files := step.from.files[p.name := Regular(p.after, p.mode)])
    requires ReadNode(At(step.from.files, p.name)).Success? && ReadNode(At(step.from.files, p.name)).value.hash == HashOf(p.before)
    ensures OwnSteps(all, |before|, [p]) && Wrote(all, |before|, p)
  {
    OwnReplacement(step.from, p);
    assert all[|until|] == (until + [step])[|until|] == step;
    hide OwnStep;
    assert forall i | 0 <= i < |until| :: all[i] == until[i];
  }

  lemma NothingWritten(trace: seq<Step>, pending: seq<PendingWrite>)
    ensures WroteAll(trace, |trace|, pending, 0)
  {
  }

  lemma WroteEarlier(trace: seq<Step>, from: nat, to: nat, pending: seq<PendingWrite>)
    requires to <= from && WroteAll(trace, from, pending, |pending|)
    ensures WroteAll(trace, to, pending, |pending|)
  {
    forall k | 0 <= k < |pending| ensures Wrote(trace, to, pending[k]) {
      WroteOneStays(trace, trace, from, to, pending[k]);
    }
  }

  lemma WroteOneMore(first: seq<Step>, all: seq<Step>, from: nat, pending: seq<PendingWrite>, n: nat)
    requires first <= all && from <= |first| && n < |pending| && WroteAll(first, from, pending, n)
    requires Wrote(all, |first|, pending[n])
    ensures WroteAll(all, from, pending, n + 1)
  {
    hide Wrote;
    WroteStays(first, all, from, pending, n);
    WroteOneStays(all, all, |first|, from, pending[n]);
  }

  /** A step of the save took the file from the save's text to what its original reads as. */
  ghost predicate PutBack(trace: seq<Step>, from: nat, p: PendingWrite) {
    exists i :: from <= i < |trace| && trace[i].actor.Panel?
             && HoldsText(At(trace[i].from.files, p.name), Some(Sha256(p.after))) && At(trace[i].disk.files, p.name) == RestoredNode(p)
  }

  ghost predicate AllPutBack(trace: seq<Step>, from: nat, pending: seq<PendingWrite>) {
    forall p | p in pending :: PutBack(trace, from, p)
  }

  lemma PutBackStays(first: seq<Step>, all: seq<Step>, from: nat, to: nat, pending: seq<PendingWrite>)
    requires first <= all && to <= from && AllPutBack(first, from, pending)
    ensures AllPutBack(all, to, pending)
  {
    forall p | p in pending ensures PutBack(all, to, p) {
      assert PutBack(first, from, p);
      var i :| from <= i < |first| && first[i].actor.Panel?
            && HoldsText(At(first[i].from.files, p.name), Some(Sha256(p.after))) && At(first[i].disk.files, p.name) == RestoredNode(p);
      assert all[i] == first[i];
    }
  }

  lemma PutBackOneMore(first: seq<Step>, all: seq<Step>, from: nat, pending: seq<PendingWrite>, k: nat, m: nat)
    requires first <= all && from <= |first| && k < m <= |pending|
    requires AllPutBack(first, from, pending[k + 1..m]) && PutBack(all, |first|, pending[k])
    ensures AllPutBack(all, from, pending[k..m])
  {
    PutBackStays(first, all, from, from, pending[k + 1..m]);
    PutBackStays(all, all, |first|, from, [pending[k]]);
    hide PutBack;
    assert pending[k..m] == [pending[k]] + pending[k + 1..m];
  }

  lemma NothingPutBack(trace: seq<Step>, pending: seq<PendingWrite>, m: nat)
    requires m <= |pending|
    ensures AllPutBack(trace, |trace|, pending[m..m]) && OwnSteps(trace, |trace|, pending[..m])
  {
  }

  /** The files of the save were put back, though the journal may have stayed. */
  predicate Reversed(outcome: SaveOutcome) {
    outcome.Undone? || outcome == CleanupFailed(false)
  }

  /** Whatever the save replaced, it put back itself if it says so. */
  ghost predicate PutBackIfUndone(trace: seq<Step>, from: nat, replaced: seq<PendingWrite>, outcome: SaveOutcome) {
    Reversed(outcome) ==> AllPutBack(trace, from, replaced)
  }

  /** The return of one file, with edits of others before it. */
  lemma OneReturn(before: seq<Step>, until: seq<Step>, step: Step, p: PendingWrite)
    requires before <= until && OutsidersFrom(until, |before|) && step.actor.Panel?
    requires HoldsText(At(step.from.files, p.name), Some(Sha256(p.after)))
    requires step.disk == step.from.(files := Put(step.from.files, p.name, RestoredNode(p)))
    ensures OwnSteps(until + [step], |before|, [p]) && PutBack(until + [step], |before|, p)
  {
    OwnRestoration(step.from, p);
    var all := until + [step];
    assert all[|until|] == step;
    hide OwnStep;
    assert forall i | 0 <= i < |until| :: all[i] == until[i];
  }

  // ---------------------------------------------------------------- a save that failed

  /**
   A failed save that was undone left the disk exactly as it was if and only if each file it
   had replaced held well formed text; one that could not be undone still has every original.
   */
  lemma FailedSaveIsUndone(disk: Disk, base: Disk, id: JournalId, pending: seq<PendingWrite>, metadata: Option<Metadata>, outcome: SaveOutcome, written: nat)
    requires ValidPlan(pending) && MatchesPlan(base.files, pending) && MetadataMatches(base.selections, metadata) && written <= |pending|
    requires QuietEnd(disk, base, pending, metadata, outcome, written) && JournalAfter(disk, base, id, pending, metadata, outcome)
    ensures outcome.Undone? ==> (disk == base <==> forall k | 0 <= k < written :: Restorable(pending[k]))
    ensures outcome.KeptForRecovery? || outcome == CleanupFailed(false) ==>
      id in disk.journals && forall k | 0 <= k < |pending| && pending[k].before.Some? ::
        pending[k].name in disk.journals[id].before && disk.journals[id].before[pending[k].name] == pending[k].before.value
  {
    if outcome.Undone? {
      UndoIsExact(base.files, pending, written);
      RevertingTwice(base.selections, metadata);
    } else if outcome.KeptForRecovery? || outcome == CleanupFailed(false) {
      forall k | 0 <= k < |pending| && pending[k].before.Some?
        ensures pending[k].name in disk.journals[id].before && disk.journals[id].before[pending[k].name] == pending[k].before.value
      {
        JournalHoldsBothVersions(pending, k);
      }
    }
  }
}
