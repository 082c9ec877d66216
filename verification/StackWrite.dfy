/**
 The phases of a save under a journal and of the recovery at a start, as methods.

 The disk is changed one step at a time and every disk it goes through is appended to a
 ghost trace, so a statement about the trace is a statement about every crash point. Between
 the steps other processes may edit the files, and any step may fail without an effect; both
 are counted, so that a contract can say what holds when neither happened.
 */
module StackWrite {
  import opened Results
  import opened Utf8
  import opened StackJournal
  import opened StackTrace

  /** One stack directory with the selection store and the journals that belong to it */
  class StackDirectory {
    var disk: Disk
    ghost const start: Disk       // what this process found
    ghost var trace: seq<Step>
    ghost var edits: nat          // how often another process edited the files
    ghost var faults: nat         // how many operations failed
    ghost var causes: seq<Cause>  // what the panel was doing, step by step
    ghost var doing: Doing        // what it is doing now

    constructor (disk: Disk)
      ensures this.disk == start == disk && trace == [] && Accounted()
    {
      this.disk, this.start := disk, disk;
      trace, edits, faults, causes, doing := [], 0, 0, [], Doing(0, "", None);
    }

    /** The steps are consecutive, end where the directory is now, and touch one journal alone. */
    ghost predicate Continuous()
      reads this`trace, this`disk, this`doing
    {
      Going(trace, start, disk, doing)
    }

    /** The operation under way is a save with this journal. */
    ghost predicate Serves(id: JournalId, pending: seq<PendingWrite>, metadata: Option<Metadata>)
      reads this`doing
    {
      doing.id == id && doing.manifest == Some(Manifest(Entries(pending), metadata))
    }

    /** Between two operations every step of the panel has its cause. */
    ghost predicate Accounted()
      reads this`trace, this`disk, this`causes
    {
      IsRun(trace, causes, start, disk)
    }

    // -------------------------------------------------------------- single steps

    /** Other processes may have edited any file since the last step. */
    method Outside()
      requires Continuous()
      modifies this`disk, this`trace, this`edits
      ensures Continuous()
      ensures if edits == old(edits) then disk == old(disk) && trace == old(trace)
              else edits == old(edits) + 1 && disk == old(disk).(files := disk.files) && trace == old(trace) + [Step(Outsider, old(disk), disk)]
    {
      var happened: bool := *;
      if happened {
        var files: Files := *;
        ghost var step := Step(Outsider, disk, disk.(files := files));
        GoingOn(trace, start, doing, step);
        trace := trace + [step];
        disk := disk.(files := files);
        edits := edits + 1;
      }
    }

    /** Whether a hook or an access error interrupts the operation here. */
    method Interrupted() returns (fails: bool)
      modifies this`faults
      ensures faults == old(faults) + if fails then 1 else 0
    {
      fails := *;
      if fails {
        faults := faults + 1;
      }
    }

    method ReadFile(name: Name) returns (r: Result<FileState, Error>)
      modifies this`faults
      ensures if faults == old(faults) then r == ReadNode(At(disk.files, name)) else r == Failure(Io) && faults == old(faults) + 1
    {
      var fails := Interrupted();
      r := if fails then Failure(Io) else ReadNode(At(disk.files, name));
    }

    /** One change of the panel: a rename, a deletion, a store. It happens whole or not at all. */
    method Attempt(next: Disk) returns (ok: bool)
      requires Continuous() && JournalStep(Step(Panel, disk, next), doing.id, doing.manifest)
      modifies this`disk, this`trace, this`faults
      ensures Continuous() && faults == old(faults) + if ok then 0 else 1
      ensures if ok then disk == next && trace == old(trace) + [Step(Panel, old(disk), next)]
              else disk == old(disk) && trace == old(trace)
    {
      var fails := Interrupted();
      ok := !fails;
      if ok {
        ghost var step := Step(Panel, disk, next);
        GoingOn(trace, start, doing, step);
        trace := trace + [step];
        disk := next;
      }
    }

    method ReplaceFile(name: Name, content: Bytes, mode: nat) returns (ok: bool)
      requires Continuous()
      modifies this`disk, this`trace, this`faults
      ensures Continuous() && faults == old(faults) + if ok then 0 else 1
      ensures if ok then disk == old(disk).(files := old(disk).files[name := Regular(content, mode)]) && trace == old(trace) + [Step(Panel, old(disk), disk)]
              else disk == old(disk) && trace == old(trace)
    {
      ok := Attempt(disk.(files := disk.files[name := Regular(content, mode)]));
    }

    method RemoveFile(name: Name) returns (ok: bool)
      requires Continuous()
      modifies this`disk, this`trace, this`faults
      ensures Continuous() && faults == old(faults) + if ok then 0 else 1
      ensures if ok then disk == old(disk).(files := old(disk).files - {name}) && trace == old(trace) + [Step(Panel, old(disk), disk)]
              else disk == old(disk) && trace == old(trace)
    {
      ok := Attempt(disk.(files := disk.files - {name}));
    }

    method StoreSelection(stack: string, selection: Option<Selection>) returns (ok: bool)
      requires Continuous()
      modifies this`disk, this`trace, this`faults
      ensures Continuous() && faults == old(faults) + if ok then 0 else 1
      ensures if ok then disk == old(disk).(selections := Select(old(disk).selections, stack, selection)) && trace == old(trace) + [Step(Panel, old(disk), disk)]
              else disk == old(disk) && trace == old(trace)
    {
      ok := Attempt(disk.(selections := Select(disk.selections, stack, selection)));
    }

    method WriteJournal(id: JournalId, journal: Journal) returns (ok: bool)
      requires Continuous() && id == doing.id && (journal.manifest.None? || journal.manifest == doing.manifest)
      modifies this`disk, this`trace, this`faults
      ensures Continuous() && faults == old(faults) + if ok then 0 else 1
      ensures if ok then disk == old(disk).(journals := old(disk).journals[id := journal]) && trace == old(trace) + [Step(Panel, old(disk), disk)]
              else disk == old(disk) && trace == old(trace)
    {
      assert disk.journals[id := journal] - {id} == disk.journals - {id};
      ok := Attempt(disk.(journals := disk.journals[id := journal]));
    }

    method DeleteJournal(id: JournalId) returns (ok: bool)
      requires Continuous() && id == doing.id
      modifies this`disk, this`trace, this`faults
      ensures Continuous() && faults == old(faults) + if ok then 0 else 1
      ensures if ok then disk == old(disk).(journals := old(disk).journals - {id}) && trace == old(trace) + [Step(Panel, old(disk), disk)]
              else disk == old(disk) && trace == old(trace)
    {
      assert disk.journals - {id} - {id} == disk.journals - {id};
      ok := Attempt(disk.(journals := disk.journals - {id}));
    }

    // -------------------------------------------------------------- phase one: the plan

    /** One file of the plan: refused, left as it is, or to be written. */
    method PlanOne(target: FileTarget) returns (r: Result<Option<PendingWrite>, Error>)
      requires Continuous()
      modifies this`disk, this`trace, this`edits, this`faults
      ensures Continuous() && old(faults) <= faults
      ensures old(trace) <= trace && old(edits) <= edits && disk == old(disk).(files := disk.files)
      ensures OutsidersFrom(trace, |old(trace)|)
      ensures edits == old(edits) ==> trace == old(trace) && disk == old(disk)
      ensures r.Success? ==> target.expectedHash.Some? ==> HoldsText(At(disk.files, target.name), target.expectedHash.value)
      ensures r.Success? && r.value.None? ==> HoldsText(At(disk.files, target.name), Some(Sha256(target.content)))
      ensures r.Success? && r.value.Some? ==> FreshPlan(disk.files, r.value.value, target)
      ensures r == Failure(FileChangedElsewhere) ==> target.expectedHash.Some? && !HoldsText(At(disk.files, target.name), target.expectedHash.value)
      ensures faults == old(faults) ==> TargetError(disk.files, target) == if r.Failure? then Some(r.error) else None
    {
      hide Continuous;
      Outside();
      var read := ReadFile(target.name);
      if read.Failure? {
        return Failure(read.error);
      }
      var state := read.value;
      if target.expectedHash.Some? && target.expectedHash.value != state.hash {
        return Failure(FileChangedElsewhere);
      }
      var mode := match state.mode
                  case Some(own) => own
                  case None => if target.mode.Some? then target.mode.value else DEFAULT_FILE_MODE;
      if Some(Sha256(target.content)) != state.hash {
        return Success(Some(PendingWrite(target.name, state.bytes, target.content, mode)));
      }
      return Success(None);
    }

    /** The files are read in turn and held against the baselines of the request, without a change. */
    method PlanWrite(targets: seq<FileTarget>) returns (r: Result<seq<PendingWrite>, Error>, hashes: map<Name, Hash>)
      requires ValidTargets(targets)
      requires Continuous()
      modifies this`disk, this`trace, this`edits, this`faults
      ensures Continuous() && old(faults) <= faults
      ensures old(trace) <= trace && old(edits) <= edits && disk == old(disk).(files := disk.files)
      ensures OutsidersFrom(trace, |old(trace)|)
      ensures edits == old(edits) ==> trace == old(trace) && disk == old(disk)
      ensures r.Success? ==> Planned(r.value, targets, |targets|)
      ensures r.Success? ==> forall t | t in targets :: t.name in hashes && hashes[t.name] == Sha256(t.content)
      ensures r.Success? && edits == old(edits) ==> PlannedExactly(disk.files, r.value, targets, |targets|)
      ensures edits == old(edits) && faults == old(faults) ==> PlanError(disk.files, targets) == if r.Failure? then Some(r.error) else None
    {
      hashes := map[];
      var pending: seq<PendingWrite> := [];
      var i := 0;
      while i < |targets|
        invariant 0 <= i <= |targets|
        invariant Continuous() && old(faults) <= faults
        invariant old(trace) <= trace && old(edits) <= edits && disk == old(disk).(files := disk.files)
        invariant OutsidersFrom(trace, |old(trace)|)
        invariant edits == old(edits) ==> trace == old(trace) && disk == old(disk)
        invariant Hashed(hashes, targets, i)
        invariant Planned(pending, targets, i)
        invariant edits == old(edits) ==> PlannedExactly(disk.files, pending, targets, i)
        invariant edits == old(edits) && faults == old(faults) ==> PlanError(disk.files, targets[..i]).None?
      {
        hide Continuous, Planned, PlannedExactly, PlansFor, ReadNode, HoldsText, ValidTargets, TargetError, PlanError, FreshPlan;
        hide Hashed, OutsidersFrom;
        var target := targets[i];
        ghost var t0 := trace;
        var one := PlanOne(target);
        OutsidersJoin(t0, trace, |old(trace)|);
        HashedOneMore(hashes, targets, i);
        if edits == old(edits) && faults == old(faults) {
          PlanErrorNext(disk.files, targets, i);
        }
        if one.Failure? {
          return Failure(one.error), hashes;
        }
        hashes := hashes[target.name := Sha256(target.content)];
        if one.value.Some? {
          PlanAdds(disk.files, pending, targets, i, one.value.value);
          pending := pending + [one.value.value];
        } else {
          PlanSkips(disk.files, pending, targets, i);
        }
        i := i + 1;
      }
      assert targets[..i] == targets;
      return Success(pending), hashes;
    }

    // -------------------------------------------------------------- phase two: the journal

    /**
     The journal is filled, the manifest last. Edits other
     processes make meanwhile concern files only, so they are taken up by the next phase.
     */
    method OpenJournal(id: JournalId, pending: seq<PendingWrite>, metadata: Option<Metadata>) returns (ok: bool)
      requires id !in disk.journals && Serves(id, pending, metadata)
      requires Continuous()
      modifies this`disk, this`trace, this`faults
      ensures Continuous() && old(faults) <= faults
      ensures old(trace) <= trace
      ensures ok ==> |trace| > |old(trace)| && trace[|trace| - 1].disk == disk == Journaled(old(disk), id, pending, metadata, false)
      ensures ok ==> trace[|trace| - 1].from.files == disk.files
      ensures !ok ==> Opening(disk, old(disk), id) && faults > old(faults)
      ensures OpeningSteps(trace, |old(trace)|, if ok then |trace| - 1 else |trace|, old(disk), id)
    {
      hide Continuous, Opening, OpeningSteps, PartialJournal, JournalOf, Entries;
      assert doing.id == id && doing.manifest == Some(Manifest(Entries(pending), metadata));
      hide Serves;
      ghost var base, n0 := disk, |trace|;
      JournalCompleted(pending, metadata);
      ok := JournalTexts(id, pending);
      if !ok {
        return;
      }
      ghost var t1 := trace;
      ok := WriteJournal(id, disk.journals[id].(manifest := Some(Manifest(Entries(pending), metadata))));
      if ok {
        assert disk == Journaled(base, id, pending, metadata, false);
        OpeningKept(t1, trace, n0, base, id);
      }
    }

    /** The journal without its manifest. */
    method JournalTexts(id: JournalId, pending: seq<PendingWrite>) returns (ok: bool)
      requires id !in disk.journals && id == doing.id
      requires Continuous()
      modifies this`disk, this`trace, this`faults
      ensures Continuous() && old(faults) <= faults
      ensures old(trace) <= trace && Opening(disk, old(disk), id) && OpeningSteps(trace, |old(trace)|, |trace|, old(disk), id)
      ensures if ok then disk == old(disk).(journals := old(disk).journals[id := PartialJournal(pending, |pending|)]) else faults > old(faults)
    {
      hide Continuous, Opening, OpeningSteps, PartialJournal;
      ghost var base, n0 := disk, |trace|;
      OpeningStart(trace, base, id);
      NoManifestYet(pending);
      ok := JournalPart(id, PartialJournal(pending, 0), base, n0);
      if !ok {
        return;
      }
      var i := 0;
      while i < |pending|
        invariant 0 <= i <= |pending|
        invariant Continuous() && old(faults) <= faults && old(trace) <= trace
        invariant disk == base.(journals := base.journals[id := PartialJournal(pending, i)]) && Opening(disk, base, id)
        invariant OpeningSteps(trace, n0, |trace|, base, id)
      {
        PartialJournalGrows(pending, i);
        ok := JournalOne(id, pending[i], base, n0);
        if !ok {
          return;
        }
        i := i + 1;
      }
    }

    /** One write below the journal directory, before there is a manifest. */
    method JournalPart(id: JournalId, journal: Journal, ghost base: Disk, ghost n0: nat) returns (ok: bool)
      requires id == doing.id && id !in base.journals && Opening(disk, base, id) && journal.manifest.None? && disk == base.(journals := disk.journals)
      requires disk.journals == base.journals || (id in disk.journals && disk.journals == base.journals[id := disk.journals[id]])
      requires OpeningSteps(trace, n0, |trace|, base, id)
      requires Continuous()
      modifies this`disk, this`trace, this`faults
      ensures Continuous() && old(faults) <= faults
      ensures old(trace) <= trace && Opening(disk, base, id) && OpeningSteps(trace, n0, |trace|, base, id)
      ensures disk == if ok then base.(journals := base.journals[id := journal]) else old(disk)
      ensures !ok ==> faults > old(faults)
    {
      ok := WriteJournal(id, journal);
      if ok {
        OpeningDisk(base, id, journal);
        assert disk == base.(journals := base.journals[id := journal]);
      }
    }

    /** The two texts of one file. */
    method JournalOne(id: JournalId, p: PendingWrite, ghost base: Disk, ghost n0: nat) returns (ok: bool)
      requires id == doing.id && id !in base.journals && id in disk.journals && disk.journals[id].manifest.None?
      requires disk == base.(journals := base.journals[id := disk.journals[id]])
      requires Opening(disk, base, id) && OpeningSteps(trace, n0, |trace|, base, id)
      requires Continuous()
      modifies this`disk, this`trace, this`faults
      ensures Continuous() && old(faults) <= faults
      ensures old(trace) <= trace && Opening(disk, base, id) && OpeningSteps(trace, n0, |trace|, base, id)
      ensures !ok ==> faults > old(faults)
      ensures var j := old(disk).journals[id];
              ok ==> disk == base.(journals := base.journals[id :=
                j.(before := if p.before.Some? then j.before[p.name := p.before.value] else j.before, after := j.after[p.name := p.after])])
    {
      hide Continuous, Opening, OpeningSteps;
      if p.before.Some? {
        ok := JournalPart(id, disk.journals[id].(before := disk.journals[id].before[p.name := p.before.value]), base, n0);
        if !ok {
          return;
        }
      }
      ok := JournalPart(id, disk.journals[id].(after := disk.journals[id].after[p.name := p.after]), base, n0);
    }

    // -------------------------------------------------------------- phase three: the commit

    /** Re-check one file, replace it and read it back; re-check and replacement are one step towards others. */
    method CommitOne(p: PendingWrite) returns (written: bool, error: Option<Error>)
      requires Continuous()
      modifies this`disk, this`trace, this`edits, this`faults
      ensures Continuous() && old(faults) <= faults
      ensures old(trace) <= trace && old(edits) <= edits && disk == old(disk).(files := disk.files)
      ensures error.None? ==> written && HoldsText(At(disk.files, p.name), Some(Sha256(p.after))) && Wrote(trace, |old(trace)|, p)
      ensures OwnSteps(trace, |old(trace)|, [p]) && (!written ==> FilesUntouched(trace, |old(trace)|))
      ensures edits == old(edits) ==>
        && disk.files == (if written then Put(old(disk).files, p.name, AfterNode(p)) else old(disk).files)
        && trace == if written then old(trace) + [Step(Panel, old(disk), disk)] else old(trace)
      ensures edits == old(edits) && faults == old(faults) && At(old(disk).files, p.name) == BeforeNode(p) && FitsLimit(p) ==> error.None?
    {
      hide Continuous, OwnStep, OwnSteps, Wrote, FilesUntouched;
      ghost var t0 := trace;
      Outside();
      var hookFails := Interrupted();
      OutsidersOnly(trace, |t0|, [p]);
      OutsidersTouchNothing(trace, |t0|);
      if hookFails {
        return false, Some(Io);
      }
      var current := ReadFile(p.name);
      if current.Failure? {
        return false, Some(current.error);
      }
      if current.value.hash != HashOf(p.before) {
        return false, Some(FileChangedElsewhere);
      }
      ghost var t1, found := trace, disk;
      var ok := ReplaceFile(p.name, p.after, p.mode);
      if !ok {
        return false, Some(Io);
      }
      ghost var step := Step(Panel, found, disk);
      Outside();
      OneReplacement(t0, t1, trace, step, p);
      var verified := ReadFile(p.name);
      if verified.Failure? {
        return true, Some(verified.error);
      }
      if verified.value.hash != Some(Sha256(p.after)) {
        return true, Some(FileChangedElsewhere);
      }
      return true, None;
    }

    /** The files are replaced in turn, until one cannot be. */
    method ReplaceFiles(id: JournalId, pending: seq<PendingWrite>, ghost metadata: Option<Metadata>, ghost base: Disk)
      returns (progress: Progress, error: Option<Error>)
      requires ValidPlan(pending) && id !in base.journals
      requires disk == Journaled(base, id, pending, metadata, false).(files := disk.files)
      requires Continuous()
      modifies this`disk, this`trace, this`edits, this`faults
      ensures Continuous() && old(faults) <= faults
      ensures old(trace) <= trace && old(edits) <= edits && disk == old(disk).(files := disk.files)
      ensures |progress.written| <= |pending| && progress == Progress(Names(pending)[..|progress.written|], false)
      ensures OwnSteps(trace, |old(trace)|, pending[..|progress.written|])
      ensures error.None? ==> |progress.written| == |pending| && WroteAll(trace, |old(trace)|, pending, |pending|)
      ensures edits == old(edits) && old(disk).files == base.files && MatchesPlan(base.files, pending) ==>
        && disk.files == Replaced(base.files, pending, |progress.written|)
        && AllMixed(trace, |old(trace)|, |trace|, base, id, pending, metadata)
        && (faults == old(faults) ==> error.None?)
    {
      hide Continuous, Mixed, Entries, BeforeTexts, AfterTexts, ValidPlan, MatchesPlan, OwnStep, OwnSteps, Wrote, WroteAll;
      hide BeforeNode, FitsLimit, HoldsText, AllMixed, FilesUntouched;
      ghost var n0 := |trace|;
      ghost var clean := disk.files == base.files && MatchesPlan(base.files, pending);
      NothingPutBack(trace, pending, 0);
      NoStepsYet(trace, base, id, pending, metadata);
      NothingWritten(trace, pending);
      progress := Progress([], false);
      var i := 0;
      while i < |pending|
        invariant 0 <= i <= |pending|
        invariant Continuous() && old(faults) <= faults
        invariant old(trace) <= trace && old(edits) <= edits
        invariant disk == old(disk).(files := disk.files)
        invariant progress == Progress(Names(pending)[..i], false)
        invariant OwnSteps(trace, n0, pending[..i]) && WroteAll(trace, n0, pending, i)
        invariant edits == old(edits) && clean ==> disk.files == Replaced(base.files, pending, i) && AllMixed(trace, n0, |trace|, base, id, pending, metadata)
      {
        ghost var t0 := trace;
        if clean {
          NotYetReplaced(base.files, pending, i);
        }
        var written, failure := CommitOne(pending[i]);
        if !written {
          UntouchedIsOwn(t0, trace, n0, pending[..i]);
        } else {
          OwnStepsNext(t0, trace, n0, pending, i);
          progress := progress.(written := progress.written + [pending[i].name]);
          assert Names(pending)[..i + 1] == Names(pending)[..i] + [pending[i].name];
          if edits == old(edits) && clean {
            UnwoundIsMixed(disk, base, id, pending, metadata, i + 1, i + 1);
            MixedOneMore(t0, trace, n0, base, id, pending, metadata);
          }
        }
        if failure.Some? {
          return progress, failure;
        }
        WroteOneMore(t0, trace, n0, pending, i);
        i := i + 1;
      }
      error := None;
    }

    /**
     Replace the files one by one, store the selection, write the marker. `base` is the disk
     the save started from; what is said about it holds when nobody else edits the files.
     */
    method CommitWrite(id: JournalId, pending: seq<PendingWrite>, metadata: Option<Metadata>, ghost base: Disk)
      returns (progress: Progress, error: Option<Error>)
      requires ValidPlan(pending) && id !in base.journals && Serves(id, pending, metadata)
      requires disk == Journaled(base, id, pending, metadata, false).(files := disk.files)
      requires Continuous()
      modifies this`disk, this`trace, this`edits, this`faults
      ensures Continuous() && old(faults) <= faults
      ensures old(trace) <= trace && old(edits) <= edits
      ensures |progress.written| <= |pending| && progress.written == Names(pending)[..|progress.written|]
      ensures progress.metadataApplied ==> metadata.Some?
      ensures error.None? ==> |progress.written| == |pending| && progress.metadataApplied == metadata.Some?
      ensures error.None? ==> |trace| > |old(trace)| && trace[|trace| - 1].disk == disk
      ensures disk == Journaled(base, id, pending, metadata, error.None?).(
                        files := disk.files, selections := if progress.metadataApplied then Applied(base.selections, metadata) else base.selections)
      ensures OwnSteps(trace, |old(trace)|, pending[..|progress.written|])
      ensures edits == old(edits) && old(disk).files == base.files && MatchesPlan(base.files, pending) ==>
        && disk.files == Replaced(base.files, pending, |progress.written|)
        && AllMixed(trace, |old(trace)|, if error.None? then |trace| - 1 else |trace|, base, id, pending, metadata)
        && (faults == old(faults) ==> error.None?)
      ensures error.None? ==> WroteAll(trace, |old(trace)|, pending, |pending|)
    {
      hide Continuous, Mixed, Entries, BeforeTexts, AfterTexts, ValidPlan, MatchesPlan, OwnStep, OwnSteps, Wrote, WroteAll;
      hide AllMixed, FilesUntouched, Serves, JournalOf, Applied, SelectionSteps;
      ghost var n0, t0 := |trace|, trace;
      ghost var clean := disk.files == base.files && MatchesPlan(base.files, pending);
      progress, error := ReplaceFiles(id, pending, metadata, base);
      if error.Some? {
        return;
      }
      var m := |pending|;
      if edits == old(edits) && clean {
        UnwoundIsMixed(disk, base, id, pending, metadata, m, m);
      }
      ghost var t1, replaced := trace, disk;
      progress, error := CommitSelection(id, pending, metadata, base, progress);
      UntouchedIsOwn(t1, trace, n0, pending[..m]);
      WroteStays(t1, trace, n0, pending, m);
      if edits == old(edits) && clean {
        SelectionStepsAreMixed(t1, trace, n0, replaced, disk, progress.metadataApplied, error.None?, base, id, pending, metadata);
      }
    }

    /** The two last steps of a commit: the selection is stored, and the marker makes the save final. */
    method CommitSelection(id: JournalId, pending: seq<PendingWrite>, metadata: Option<Metadata>, ghost base: Disk, done: Progress)
      returns (progress: Progress, error: Option<Error>)
      requires !done.metadataApplied && Serves(id, pending, metadata)
      requires disk == Journaled(base, id, pending, metadata, false).(files := disk.files)
      requires Continuous()
      modifies this`disk, this`trace, this`edits, this`faults
      ensures Continuous() && old(faults) <= faults
      ensures old(trace) <= trace && old(edits) <= edits
      ensures progress == done.(metadataApplied := progress.metadataApplied) && (progress.metadataApplied ==> metadata.Some?)
      ensures error.None? ==> progress.metadataApplied == metadata.Some?
      ensures error.None? ==> |trace| > |old(trace)| && trace[|trace| - 1].disk == disk
      ensures disk == Journaled(base, id, pending, metadata, error.None?).(
                        files := disk.files, selections := if progress.metadataApplied then Applied(base.selections, metadata) else base.selections)
      ensures FilesUntouched(trace, |old(trace)|) && (faults == old(faults) ==> error.None?)
      ensures edits == old(edits) ==>
        && disk.files == old(disk).files
        && trace == old(trace) + SelectionSteps(old(disk), disk, progress.metadataApplied, error.None?)
    {
      hide Continuous, JournalOf, FilesUntouched, Applied, SelectionSteps, Serves;
      ghost var n0, t0, found := |trace|, trace, disk;
      progress := done;
      Outside();
      OutsidersTouchNothing(trace, n0);
      ghost var t1 := trace;
      NoSelectionSteps(t0, found);
      var hookFails := Interrupted();
      if hookFails {
        return progress, Some(Io);
      }
      if metadata.Some? {
        var stored := StoreApplied(metadata.value);
        if !stored {
          return progress, Some(SelectionNotStored);
        }
        progress := progress.(metadataApplied := true);
        UntouchedOneMore(t1, trace, n0);
      }
      ghost var t2 := trace;
      error := WriteMarker(id, pending, metadata, base);
      UntouchedJoin(t2, trace, n0);
      if edits == old(edits) {
        SelectionStepsJoin(t0, t2, trace, found, disk, progress.metadataApplied, error.None?);
      }
    }

    /** The selection of the save replaces the one from before. */
    method StoreApplied(metadata: Metadata) returns (ok: bool)
      requires Continuous()
      modifies this`disk, this`trace, this`faults
      ensures Continuous() && faults == old(faults) + if ok then 0 else 1
      ensures disk == if ok then old(disk).(selections := Applied(old(disk).selections, Some(metadata))) else old(disk)
      ensures trace == if ok then old(trace) + [Step(Panel, old(disk), disk)] else old(trace)
    {
      hide Continuous;
      ok := StoreSelection(metadata.stack, Some(metadata.after));
    }

    /** And the one from before is stored again. */
    method StoreReverted(metadata: Metadata) returns (ok: bool)
      requires Continuous()
      modifies this`disk, this`trace, this`faults
      ensures Continuous() && faults == old(faults) + if ok then 0 else 1
      ensures disk == if ok then old(disk).(selections := Reverted(old(disk).selections, Some(metadata))) else old(disk)
      ensures trace == if ok then old(trace) + [Step(Panel, old(disk), disk)] else old(trace)
    {
      hide Continuous;
      ok := StoreSelection(metadata.stack, metadata.before);
    }

    method WriteMarker(id: JournalId, pending: seq<PendingWrite>, metadata: Option<Metadata>, ghost base: Disk) returns (error: Option<Error>)
      requires id in disk.journals && disk.journals == base.journals[id := JournalOf(pending, metadata, false)]
      requires Continuous() && Serves(id, pending, metadata)
      modifies this`disk, this`trace, this`edits, this`faults
      ensures Continuous() && old(faults) <= faults
      ensures old(trace) <= trace && old(edits) <= edits && FilesUntouched(trace, |old(trace)|)
      ensures disk == old(disk).(files := disk.files, journals := base.journals[id := JournalOf(pending, metadata, error.None?)])
      ensures error.None? ==> |trace| > |old(trace)| && trace[|trace| - 1].disk == disk
      ensures error.Some? ==> faults > old(faults)
      ensures edits == old(edits) ==>
        disk.files == old(disk).files && trace == if error.None? then old(trace) + [Step(Panel, old(disk), disk)] else old(trace)
    {
      hide Continuous;
      Outside();
      var marked := WriteJournal(id, disk.journals[id].(committed := true));
      assert marked ==> disk.journals == base.journals[id := JournalOf(pending, metadata, true)];
      error := if marked then None else Some(Io);
    }

    // -------------------------------------------------------------- undoing a failed save

    /** Put one file back, unless it no longer holds this save's text. */
    method UndoOne(id: JournalId, p: PendingWrite) returns (ok: bool)
      requires id in disk.journals
      requires p.before.Some? ==> p.name in disk.journals[id].before && disk.journals[id].before[p.name] == p.before.value
      requires Continuous()
      modifies this`disk, this`trace, this`edits, this`faults
      ensures Continuous() && old(faults) <= faults
      ensures old(trace) <= trace && old(edits) <= edits && disk == old(disk).(files := disk.files)
      ensures if ok then OwnSteps(trace, |old(trace)|, [p]) && PutBack(trace, |old(trace)|, p) else FilesUntouched(trace, |old(trace)|)
      ensures edits == old(edits) ==>
        && disk.files == (if ok then Put(old(disk).files, p.name, RestoredNode(p)) else old(disk).files)
        && trace == if ok then old(trace) + [Step(Panel, old(disk), disk)] else old(trace)
    {
      hide Continuous, OwnStep, OwnSteps, PutBack, FilesUntouched;
      ghost var t0 := trace;
      Outside();
      OutsidersTouchNothing(trace, |t0|);
      var current := ReadFile(p.name);
      if current.Failure? || current.value.hash != Some(Sha256(p.after)) {
        return false;
      }
      ghost var t1, found := trace, disk;
      if p.before.None? {
        ok := RemoveFile(p.name);
      } else {
        var unreadable := Interrupted();
        if unreadable {
          return false;
        }
        ok := ReplaceFile(p.name, Reread(disk.journals[id].before[p.name]), p.mode);
      }
      if ok {
        OneReturn(t0, t1, Step(Panel, found, disk), p);
      }
    }

    /** Put back what the first m files held, newest first, then delete the journal. */
    method UndoWrite(id: JournalId, pending: seq<PendingWrite>, m: nat, metadata: Option<Metadata>, ghost base: Disk) returns (r: UndoResult)
      requires ValidPlan(pending) && m <= |pending| && id !in base.journals
      requires disk.journals == base.journals[id := JournalOf(pending, metadata, false)]
      requires Continuous() && Serves(id, pending, metadata)
      modifies this`disk, this`trace, this`edits, this`faults
      ensures Continuous() && old(faults) <= faults
      ensures old(trace) <= trace && old(edits) <= edits
      ensures !r.UndoStuck? ==> AllPutBack(trace, |old(trace)|, pending[..m])
      ensures disk == old(disk).(files := disk.files, journals := if r.UndoDone? then base.journals else old(disk).journals)
      ensures OwnSteps(trace, |old(trace)|, pending[..m])
      ensures r.UndoDone? ==> |trace| > |old(trace)| && trace[|trace| - 1].disk == disk
      ensures edits == old(edits) && UndoStart(old(disk), base, pending, m, metadata) ==>
        && (!r.UndoStuck? ==> disk.files == Unwound(base.files, pending, m, 0))
        && AllMixed(trace, |old(trace)|, if r.UndoDone? then |trace| - 1 else |trace|, base, id, pending, metadata)
    {
      hide Continuous, Mixed, JournalOf, ValidPlan, OwnStep, OwnSteps, AllMixed, FilesUntouched, MatchesPlan, PutBack, AllPutBack;
      ghost var n0, first := |trace|, pending[..m];
      ghost var clean := UndoStart(disk, base, pending, m, metadata);
      NothingPutBack(trace, pending, m);
      NoStepsYet(trace, base, id, pending, metadata);
      var k := m;
      while k > 0
        invariant 0 <= k <= m
        invariant Continuous() && old(faults) <= faults
        invariant old(trace) <= trace && old(edits) <= edits
        invariant disk == old(disk).(files := disk.files)
        invariant OwnSteps(trace, n0, first) && AllPutBack(trace, n0, pending[k..m])
        invariant edits == old(edits) && clean ==> disk.files == Unwound(base.files, pending, m, k) && AllMixed(trace, n0, |trace|, base, id, pending, metadata)
      {
        k := k - 1;
        JournalKeepsOriginal(pending, k, metadata);
        ghost var t0 := trace;
        var ok := UndoOne(id, pending[k]);
        if !ok {
          UntouchedIsOwn(t0, trace, n0, first);
          return UndoStuck;
        }
        assert first[k] == pending[k];
        OwnStepsJoin(t0, trace, n0, first, k);
        PutBackOneMore(t0, trace, n0, pending, k, m);
        if edits == old(edits) && clean {
          UnwoundIsMixed(disk, base, id, pending, metadata, m, k);
          MixedOneMore(t0, trace, n0, base, id, pending, metadata);
        }
      }
      ghost var t1 := trace;
      var gone := DeleteJournal(id);
      assert pending[0..m] == first;
      PutBackStays(t1, trace, n0, n0, first);
      DeletionIsOwn(t1, trace, n0, first);
      if edits == old(edits) && clean {
        MixedKept(t1, trace, n0, base, id, pending, metadata);
      }
      assert base.journals[id := JournalOf(pending, metadata, false)] - {id} == base.journals;
      r := if gone then UndoDone else UndoNotCleaned;
    }

    // -------------------------------------------------------------- the save as a whole

    /** The selection goes back first, if it had been stored at all. */
    method RevertSelection(id: JournalId, pending: seq<PendingWrite>, metadata: Option<Metadata>, progress: Progress, ghost base: Disk)
      returns (ok: bool)
      requires ValidPlan(pending) && |progress.written| <= |pending| && (progress.metadataApplied ==> metadata.Some?)
      requires disk.journals == base.journals[id := JournalOf(pending, metadata, false)] && disk.kept == base.kept
      requires disk.selections == if progress.metadataApplied then Applied(base.selections, metadata) else base.selections
      requires Continuous()
      modifies this`disk, this`trace, this`faults
      ensures Continuous() && old(faults) <= faults && old(trace) <= trace && OwnSteps(trace, |old(trace)|, pending[..|progress.written|])
      ensures disk == if ok && progress.metadataApplied then old(disk).(selections := Reverted(Applied(base.selections, metadata), metadata)) else old(disk)
      ensures MatchesPlan(base.files, pending) && disk.files == Replaced(base.files, pending, |progress.written|) ==>
                AllMixed(trace, |old(trace)|, |trace|, base, id, pending, metadata)
    {
      hide Continuous, Mixed, Entries, ValidPlan, MatchesPlan, OwnStep, OwnSteps, AllMixed, FilesUntouched, Replaced, JournalOf, Applied, Reverted;
      ghost var t0, m := trace, |progress.written|;
      NoStepsYet(trace, base, id, pending, metadata);
      NothingPutBack(trace, pending, m);
      ok := true;
      if progress.metadataApplied {
        ok := StoreReverted(metadata.value);
        DeletionIsOwn(t0, trace, |t0|, pending[..m]);
        if ok && MatchesPlan(base.files, pending) && disk.files == Replaced(base.files, pending, m) {
          RevertedIsMixed(t0, trace, disk, base, id, pending, metadata, m);
        }
      }
    }

    /** Undo a commit that failed: the selection first, then the files. */
    method FailSave(id: JournalId, pending: seq<PendingWrite>, metadata: Option<Metadata>, progress: Progress, error: Error, ghost base: Disk)
      returns (outcome: SaveOutcome)
      requires ValidPlan(pending) && id !in base.journals && |progress.written| <= |pending|
      requires progress.metadataApplied ==> metadata.Some?
      requires disk == Journaled(base, id, pending, metadata, false).(
                         files := disk.files, selections := if progress.metadataApplied then Applied(base.selections, metadata) else base.selections)
      requires Continuous() && Serves(id, pending, metadata)
      modifies this`disk, this`trace, this`edits, this`faults
      ensures Continuous() && old(faults) <= faults
      ensures old(trace) <= trace && old(edits) <= edits
      ensures outcome in {Undone(error), CleanupFailed(false), KeptForRecovery(id)}
      ensures disk.journals == if outcome.Undone? then base.journals else old(disk).journals
      ensures disk.kept == base.kept
      ensures disk.selections in {base.selections, Applied(base.selections, metadata), Reverted(Applied(base.selections, metadata), metadata)}
      ensures OwnSteps(trace, |old(trace)|, pending[..|progress.written|])
      ensures !outcome.KeptForRecovery? ==> AllPutBack(trace, |old(trace)|, pending[..|progress.written|])
      ensures outcome.Undone? ==> |trace| > |old(trace)| && trace[|trace| - 1].disk == disk
      ensures edits == old(edits) && MatchesPlan(base.files, pending) && old(disk).files == Replaced(base.files, pending, |progress.written|) ==>
        && (!outcome.KeptForRecovery? ==>
              && disk.files == Unwound(base.files, pending, |progress.written|, 0)
              && disk.selections in {base.selections, Reverted(Applied(base.selections, metadata), metadata)})
        && AllMixed(trace, |old(trace)|, if outcome.Undone? then |trace| - 1 else |trace|, base, id, pending, metadata)
    {
      hide Continuous, Mixed, Entries, BeforeTexts, AfterTexts, ValidPlan, MatchesPlan, OwnStep, OwnSteps, AllMixed, FilesUntouched, Replaced, Unwound, AllPutBack;
      hide Serves, JournalOf, Applied, Reverted;
      ghost var n0, first := |trace|, pending[..|progress.written|];
      ghost var clean := MatchesPlan(base.files, pending) && disk.files == Replaced(base.files, pending, |progress.written|);
      var reverted := RevertSelection(id, pending, metadata, progress, base);
      if !reverted {
        return KeptForRecovery(id);
      }
      ghost var t1 := trace;
      var m := |progress.written|;
      assert clean ==> UndoStart(disk, base, pending, m, metadata);
      hide UndoStart;
      var undo := UndoWrite(id, pending, m, metadata, base);
      OwnStepsAppend(t1, trace, n0, first);
      if !undo.UndoStuck? {
        PutBackStays(trace, trace, |t1|, n0, first);
      }
      if edits == old(edits) && clean {
        MixedJoin(t1, trace, n0, if undo.UndoDone? then |trace| - 1 else |trace|, base, id, pending, metadata);
      }
      match undo
      case UndoDone => outcome := Undone(error);
      case UndoStuck => outcome := KeptForRecovery(id);
      case UndoNotCleaned => outcome := CleanupFailed(false);
    }

    /**
     Carry out a plan that has something to change. `marked` is the step that wrote the
     commit marker, or the length of the trace when none did.
     */
    method SavePending(id: JournalId, pending: seq<PendingWrite>, hashes: map<Name, Hash>, metadata: Option<Metadata>)
      returns (outcome: SaveOutcome, ghost written: nat, ghost marked: nat)
      requires ValidPlan(pending) && |pending| > 0 && id !in disk.journals
      requires Continuous() && doing.id == id && doing.manifest.None?
      modifies this`disk, this`trace, this`edits, this`faults, this`doing
      ensures Continuous() && old(faults) <= faults && doing == old(doing).(manifest := Some(Manifest(Entries(pending), metadata)))
      ensures old(trace) <= trace && old(edits) <= edits && written <= |pending| && |old(trace)| <= marked <= |trace|
      ensures OwnSteps(trace, |old(trace)|, pending[..written])
      ensures PutBackIfUndone(trace, |old(trace)|, pending[..written], outcome)
      ensures outcome.Saved? ==> outcome == Saved(hashes, Names(pending))
      ensures !outcome.Refused?
      ensures JournalAfter(disk, old(disk), id, pending, metadata, outcome)
      ensures Succeeded(outcome) ==> WroteAll(trace, |old(trace)|, pending, |pending|)
      ensures edits == old(edits) && MatchesPlan(old(disk).files, pending) ==>
        && (faults == old(faults) ==> outcome.Saved?)
        && QuietEnd(disk, old(disk), pending, metadata, outcome, written)
        && CrashPoints(trace, |old(trace)|, marked, old(disk), id, pending, metadata)
    {
      GoingWithManifest(trace, start, disk, doing, Manifest(Entries(pending), metadata));
      doing := doing.(manifest := Some(Manifest(Entries(pending), metadata)));
      assert Continuous();
      hide Continuous, Mixed, Marked, Opening, BackAgain, Unmarked, JournalOf, ValidPlan, MatchesPlan, Wrote, WroteAll;
      hide OwnStep, OwnSteps, FilesUntouched, OpeningSteps, AllUnmarked, CrashPoints, Replaced, Unwound, QuietEnd, Entries, Going, AllPutBack;
      ghost var base, n0 := disk, |trace|;
      written, marked := 0, |trace|;
      var journalReady := OpenJournal(id, pending, metadata);
      OpeningIsOwn(trace, n0, if journalReady then |trace| - 1 else |trace|, base, id, pending, metadata);
      NothingPutBack(trace, pending, 0);
      if !journalReady {
        OpeningEnds(disk, base, id, pending, metadata);
        UnmarkedThroughout(trace, n0, base, id, pending, metadata);
        return JournalNotOpened, 0, |trace|;
      }
      ghost var t1 := trace;
      if MatchesPlan(base.files, pending) {
        JournaledIsMixed(base, id, pending, metadata);
        UnmarkedOneMore(t1, n0, |t1| - 1, base, id, pending, metadata);
      }
      outcome, written, marked := CommitJournaled(id, pending, hashes, metadata, base);
      OwnStepsMore(t1, n0, pending[..0], pending[..written]);
      OwnStepsAppend(t1, trace, n0, pending[..written]);
      if Reversed(outcome) {
        PutBackStays(trace, trace, |t1|, n0, pending[..written]);
      }
      if Succeeded(outcome) {
        WroteEarlier(trace, |t1|, n0, pending);
      }
      if edits == old(edits) && MatchesPlan(base.files, pending) {
        CrashPointsJoin(t1, trace, n0, marked, base, id, pending, metadata);
      }
    }

    /** Commit a save whose journal is complete, and clean up or compensate. */
    method CommitJournaled(id: JournalId, pending: seq<PendingWrite>, hashes: map<Name, Hash>, metadata: Option<Metadata>, ghost base: Disk)
      returns (outcome: SaveOutcome, ghost written: nat, ghost marked: nat)
      requires ValidPlan(pending) && id !in base.journals && disk == Journaled(base, id, pending, metadata, false)
      requires Continuous() && Serves(id, pending, metadata)
      modifies this`disk, this`trace, this`edits, this`faults
      ensures Continuous() && old(faults) <= faults
      ensures old(trace) <= trace && old(edits) <= edits && written <= |pending| && |old(trace)| <= marked <= |trace|
      ensures OwnSteps(trace, |old(trace)|, pending[..written])
      ensures PutBackIfUndone(trace, |old(trace)|, pending[..written], outcome)
      ensures outcome.Saved? ==> outcome == Saved(hashes, Names(pending))
      ensures !outcome.Refused? && !outcome.JournalNotOpened?
      ensures JournalAfter(disk, base, id, pending, metadata, outcome)
      ensures Succeeded(outcome) ==> WroteAll(trace, |old(trace)|, pending, |pending|)
      ensures edits == old(edits) && MatchesPlan(base.files, pending) ==>
        && (faults == old(faults) ==> outcome.Saved?)
        && QuietEnd(disk, base, pending, metadata, outcome, written)
        && CrashPoints(trace, |old(trace)|, marked, base, id, pending, metadata)
    {
      hide Continuous, Mixed, Marked, BackAgain, Unmarked, JournalOf, ValidPlan, MatchesPlan, Wrote, WroteAll;
      hide OwnStep, OwnSteps, FilesUntouched, AllMixed, AllUnmarked, CrashPoints, Replaced, Unwound, Entries, AllPutBack, Serves;
      ghost var clean, n0, t1 := MatchesPlan(base.files, pending), |trace|, trace;
      ReplacedNone(base.files, pending);
      NothingUnmarkedYet(trace, base, id, pending, metadata);
      var progress, error := CommitWrite(id, pending, metadata, base);
      written := |progress.written|;
      ghost var t2 := trace;
      if edits == old(edits) && clean {
        UnmarkedJoin(t1, t2, n0, if error.None? then |t2| - 1 else |t2|, base, id, pending, metadata);
      }
      if error.Some? {
        outcome := FailSave(id, pending, metadata, progress, error.value, base);
        OwnStepsAppend(t2, trace, n0, pending[..written]);
        if Reversed(outcome) {
          PutBackStays(trace, trace, |t2|, n0, pending[..written]);
        }
        marked := |trace|;
        if edits == old(edits) && clean {
          FailureIsUnmarked(t2, trace, n0, disk, outcome.Undone?, base, id, pending, metadata, written);
        }
        return;
      }
      marked := |trace| - 1;
      assert pending[..written] == pending;
      outcome := FinishSave(id, pending, hashes, metadata, base, n0);
      WroteStays(t2, trace, n0, pending, |pending|);
    }

    /** The marker is written: only the journal is left to delete. */
    method FinishSave(id: JournalId, pending: seq<PendingWrite>, hashes: map<Name, Hash>, metadata: Option<Metadata>, ghost base: Disk, ghost n0: nat)
      returns (outcome: SaveOutcome)
      requires id !in base.journals && n0 < |trace| && trace[|trace| - 1].disk == disk
      requires disk.journals == base.journals[id := JournalOf(pending, metadata, true)] && disk.kept == base.kept
      requires disk.selections == Applied(base.selections, metadata) && OwnSteps(trace, n0, pending)
      requires Continuous() && Serves(id, pending, metadata)
      modifies this`disk, this`trace, this`faults
      ensures Continuous() && old(faults) <= faults
      ensures old(trace) <= trace && OwnSteps(trace, n0, pending)
      ensures outcome == if faults == old(faults) then Saved(hashes, Names(pending)) else CleanupFailed(true)
      ensures JournalAfter(disk, base, id, pending, metadata, outcome) && disk == old(disk).(journals := disk.journals)
      ensures old(disk).files == Replaced(base.files, pending, |pending|) ==> QuietEnd(disk, base, pending, metadata, outcome, |pending|)
      ensures old(disk).files == Replaced(base.files, pending, |pending|) && AllUnmarked(old(trace), n0, |old(trace)| - 1, base, id, pending, metadata)
        ==> CrashPoints(trace, n0, |old(trace)| - 1, base, id, pending, metadata)
    {
      hide Continuous, OwnStep, OwnSteps, FilesUntouched, AllUnmarked, CrashPoints, Replaced, JournalOf;
      ghost var t2 := trace;
      var gone := DeleteJournal(id);
      DeletionIsOwn(t2, trace, n0, pending);
      assert base.journals[id := JournalOf(pending, metadata, true)] - {id} == base.journals;
      outcome := if gone then Saved(hashes, Names(pending)) else CleanupFailed(true);
      if old(disk).files == Replaced(base.files, pending, |pending|) && AllUnmarked(t2, n0, |t2| - 1, base, id, pending, metadata) {
        AfterMarker(t2, trace, n0, base, id, pending, metadata);
      }
    }

    /**
     Save a set of files: all of them or none, as far as the journal can promise it.

     `pending` are the files that had to change and `marked` is the step that made the save
     final. Names, sizes and duplicates are checked first, then the plan is made under the
     lock; a save that changes no file only stores its selection.
     */
    method WriteStackFiles(targets: seq<FileTarget>, id: JournalId, metadata: Option<Metadata>)
      returns (outcome: SaveOutcome, ghost pending: seq<PendingWrite>, ghost written: nat, ghost marked: nat)
      requires id !in disk.journals && Accounted()
      modifies this`disk, this`trace, this`edits, this`faults, this`causes, this`doing
      ensures Accounted() && old(trace) <= trace && |old(trace)| <= marked <= |trace| && written <= |pending|
      ensures causes == Extended(old(causes), |trace|, Saving(id, targets, pending, metadata))
      ensures !(forall t | t in targets :: SafeName(t.name) && |t.content| <= MAX_FILE_BYTES)
              || (exists i, j :: 0 <= i < j < |targets| && targets[i].name == targets[j].name) ==>
                outcome.Refused? && RequestRefusal(targets, outcome.error) && disk == old(disk) && trace == old(trace)
      ensures OwnSteps(trace, |old(trace)|, pending[..written])
      ensures PutBackIfUndone(trace, |old(trace)|, pending[..written], outcome)
      ensures JournalAfter(disk, old(disk), id, pending, metadata, outcome)
      ensures Planned(pending, targets, |targets|)
      ensures outcome.Saved? ==> outcome.changed == Names(pending)
      ensures outcome.Saved? ==> forall t | t in targets :: t.name in outcome.hashes && outcome.hashes[t.name] == Sha256(t.content)
      ensures Succeeded(outcome) ==> WroteAll(trace, |old(trace)|, pending, |pending|)
      ensures edits == old(edits) && faults == old(faults) ==>
        (outcome.Saved? <==>
           && (forall t | t in targets :: SafeName(t.name) && |t.content| <= MAX_FILE_BYTES)
           && (forall i, j | 0 <= i < j < |targets| :: targets[i].name != targets[j].name)
           && (forall t | t in targets ::
                 var node := At(old(disk).files, t.name);
                 && node != Some(Irregular) && (node.Some? ==> |node.value.bytes| <= MAX_FILE_BYTES)
                 && (t.expectedHash.Some? ==> HoldsText(node, t.expectedHash.value))))
      ensures edits == old(edits) && faults == old(faults) && !outcome.Saved? ==>
        outcome.Refused? && (RequestRefusal(targets, outcome.error) || PlanRefusal(old(disk).files, targets, outcome.error))
      ensures edits == old(edits) && (outcome.Saved? || outcome == CleanupFailed(true)) ==>
        && (forall t | t in targets ::
              && t.name in disk.files
              && disk.files[t.name] == Regular(t.content, if t.name in old(disk).files && old(disk).files[t.name].Regular? then old(disk).files[t.name].mode
                                                          else if t.mode.Some? then t.mode.value else 420))
        && (forall name | (forall t | t in targets :: t.name != name) :: At(disk.files, name) == At(old(disk).files, name))
        && disk.selections == match metadata case None => old(disk).selections case Some(m) => old(disk).selections[m.stack := m.after]
      ensures edits == old(edits) ==>
        && (outcome.Refused? || PlannedExactly(old(disk).files, pending, targets, |targets|))
        && QuietEnd(disk, old(disk), pending, metadata, outcome, written)
        && (MetadataMatches(old(disk).selections, metadata) && (forall p | p in pending :: Restorable(p)) ==>
              RestartsByMarker(trace, |old(trace)|, marked, old(disk), id, pending, metadata))
    {
      hide Chained, OwnStep, OwnSteps, JournalAfter, Planned, PlannedExactly, QuietEnd, Wrote, WroteAll, RestartsByMarker, PlanError, Caused;
      hide Startable, Fits, Repeats, RequestRefusal, PlanRefusal, AllPutBack, JournalSteps, IsRun, Entries;
      ghost var n0, t0, d0 := |trace|, trace, disk;
      NoSaveYet(trace, disk, id, targets, metadata);
      RunStarts(trace, causes, start, disk, id);
      doing := Doing(|trace|, id, None);
      PlanErrorNames(disk.files, targets);
      UnfoldedRequest(disk.files, targets);
      var invalid := CheckRequest(targets);
      if invalid.Some? {
        RunGrows(t0, trace, causes, Saving(id, targets, [], metadata), start, d0, disk);
        causes := Extended(causes, |trace|, Saving(id, targets, [], metadata));
        return Refused(invalid.value), [], 0, |trace|;
      }
      AcceptedTargets(targets);
      assert Continuous();
      outcome, pending, written, marked := SaveUnderLock(targets, id, metadata);
      OwnStepsMore(trace, n0, pending[..written], pending);
      if edits == old(edits) && Succeeded(outcome) {
        QuietSuccess(disk, d0, pending, targets, metadata, outcome, written);
      }
      assert Going(trace, start, disk, doing);
      SavingIsCause(trace, n0, id, targets, pending, metadata, doing.manifest);
      RunGrows(t0, trace, causes, Saving(id, targets, pending, metadata), start, d0, disk);
      causes := Extended(causes, |trace|, Saving(id, targets, pending, metadata));
    }

    /** Names and sizes are checked file by file, then the names against each other. */
    method CheckRequest(targets: seq<FileTarget>) returns (error: Option<Error>)
      ensures error.None? <==>
                && (forall t | t in targets :: SafeName(t.name) && |t.content| <= MAX_FILE_BYTES)
                && (forall i, j | 0 <= i < j < |targets| :: targets[i].name != targets[j].name)
      ensures error.None? <==> (forall t | t in targets :: Fits(t)) && !Repeats(targets)
      ensures error.Some? ==> RequestRefusal(targets, error.value)
    {
      hide SafeName;
      var index := 0;
      while index < |targets|
        invariant 0 <= index <= |targets|
        invariant forall j | 0 <= j < index :: Fits(targets[j])
      {
        var t := targets[index];
        if !SafeName(t.name) {
          return Some(FileNameInvalid);
        }
        if |t.content| > MAX_FILE_BYTES {
          return Some(FileTooLarge);
        }
        index := index + 1;
      }
      if exists i, j | 0 <= i < j < |targets| :: targets[i].name == targets[j].name {
        return Some(FileDuplicate);
      }
      return None;
    }

    /** The plan and what comes of it, once the request was accepted. */
    method SaveUnderLock(targets: seq<FileTarget>, id: JournalId, metadata: Option<Metadata>)
      returns (outcome: SaveOutcome, ghost pending: seq<PendingWrite>, ghost written: nat, ghost marked: nat)
      requires id !in disk.journals && ValidTargets(targets) && Continuous() && doing == Doing(|trace|, id, None)
      modifies this`disk, this`trace, this`edits, this`faults, this`doing
      ensures doing == old(doing).(manifest := doing.manifest) && doing.manifest in {None, Some(Manifest(Entries(pending), metadata))}
      ensures Continuous() && old(trace) <= trace && |old(trace)| <= marked <= |trace| && written <= |pending|
      ensures OwnSteps(trace, |old(trace)|, pending[..written])
      ensures PutBackIfUndone(trace, |old(trace)|, pending[..written], outcome)
      ensures JournalAfter(disk, old(disk), id, pending, metadata, outcome)
      ensures Planned(pending, targets, |targets|)
      ensures outcome.Saved? ==> outcome.changed == Names(pending)
      ensures outcome.Saved? ==> forall t | t in targets :: t.name in outcome.hashes && outcome.hashes[t.name] == Sha256(t.content)
      ensures Succeeded(outcome) ==> WroteAll(trace, |old(trace)|, pending, |pending|)
      ensures edits == old(edits) && faults == old(faults) ==>
        match PlanError(old(disk).files, targets)
        case Some(error) => outcome == Refused(error)
        case None => outcome.Saved?
      ensures edits == old(edits) ==>
        && (outcome.Refused? || PlannedExactly(old(disk).files, pending, targets, |targets|))
        && QuietEnd(disk, old(disk), pending, metadata, outcome, written)
        && (MetadataMatches(old(disk).selections, metadata) && (forall p | p in pending :: Restorable(p)) ==>
              RestartsByMarker(trace, |old(trace)|, marked, old(disk), id, pending, metadata))
    {
      hide Continuous, Mixed, Marked, BackAgain, Unmarked, MarkedOrDone, JournalOf, ValidPlan, MatchesPlan, ValidTargets, Planned, PlannedExactly;
      hide OwnStep, OwnSteps, CrashPoints, Unwound, JournalAfter, QuietEnd, Recover, Wrote, WroteAll, RestartsByMarker, PlanError, AllPutBack, Entries;
      ghost var base, n0 := disk, |trace|;
      var plan, hashes := PlanWrite(targets);
      if plan.Failure? {
        pending, written, marked := [], 0, |trace|;
        OutsidersOnly(trace, n0, pending[..0]);
        NothingSaved(disk, base, trace, n0, id, targets, metadata, plan.error);
        return Refused(plan.error), [], 0, |trace|;
      }
      pending := plan.value;
      OutsidersOnly(trace, n0, pending[..0]);
      PlanMatches(base.files, pending, targets);
      ghost var d1, t1 := disk, trace;
      if |plan.value| == 0 {
        written, marked := 0, |t1|;
        outcome := SaveSelection(hashes, metadata);
        DeletionIsOwn(t1, trace, n0, pending[..0]);
        if outcome.Saved? {
          NothingPending(d1, disk, base, id, metadata, hashes, trace, n0);
        } else {
          NothingSaved(disk, base, trace, n0, id, targets, metadata, SelectionNotStored);
        }
        return;
      }
      outcome, written, marked := SavePending(id, plan.value, hashes, metadata);
      OwnStepsMore(t1, n0, pending[..0], pending[..written]);
      OwnStepsAppend(t1, trace, n0, pending[..written]);
      if Reversed(outcome) {
        PutBackStays(trace, trace, |t1|, n0, pending[..written]);
      }
      JournalOfMovedFiles(disk, d1, base, id, pending, metadata, outcome);
      if Succeeded(outcome) {
        WroteEarlier(trace, |t1|, n0, pending);
      }
      if edits == old(edits) {
        CrashPointsRestart(trace, n0, marked, base, id, pending, metadata);
      }
    }

    /** A save whose files already hold their text stores the selection alone. */
    method SaveSelection(hashes: map<Name, Hash>, metadata: Option<Metadata>) returns (outcome: SaveOutcome)
      requires Continuous()
      modifies this`disk, this`trace, this`faults
      ensures Continuous() && old(faults) <= faults
      ensures outcome == if faults == old(faults) then Saved(hashes, []) else Refused(SelectionNotStored)
      ensures disk == if outcome.Saved? then old(disk).(selections := Applied(old(disk).selections, metadata)) else old(disk)
      ensures trace == if outcome.Saved? && metadata.Some? then old(trace) + [Step(Panel, old(disk), disk)] else old(trace)
    {
      if metadata.Some? {
        var stored := StoreApplied(metadata.value);
        if !stored {
          return Refused(SelectionNotStored);
        }
      }
      outcome := Saved(hashes, []);
    }

    // -------------------------------------------------------------- recovery at the next start

    /** Bring one file to the version its journal wants, or report it as unresolved. */
    method RestoreOne(id: JournalId, entry: JournalFile, journal: Journal) returns (unresolved: bool)
      requires IsTaken(disk, id, journal) && Continuous()
      modifies this`disk, this`trace, this`edits, this`faults
      ensures Continuous() && old(faults) <= faults
      ensures old(trace) <= trace && old(edits) <= edits && disk == old(disk).(files := disk.files)
      ensures if |trace| == |old(trace)| then disk == old(disk) else trace[|trace| - 1].disk == disk
      ensures RestoringSteps(trace, |old(trace)|, id, [entry], journal)
      ensures !unresolved ==> Resolved(At(disk.files, entry.name), entry, journal)
      ensures edits == old(edits) ==>
        && OneRestored(old(disk).files, disk.files, entry, journal, unresolved, faults > old(faults))
        && |trace| <= |old(trace)| + 1
    {
      hide Continuous, SoundJournal;
      Outside();
      var current := ReadFile(entry.name);
      if current.Failure? {
        return true;
      }
      if current.value.hash == Wanted(entry, journal.committed) {
        return false;
      }
      if current.value.hash != Other(entry, journal.committed) {
        return true;   // a third text: somebody edited the file after the crash
      }
      var ok := false;
      RestoringOne(disk, id, entry, journal);
      if Wanted(entry, journal.committed).None? {
        ok := RemoveFile(entry.name);
      } else {
        var text := KeptText(journal, entry.name);
        if text.Some? {
          ok := ReplaceFile(entry.name, text.value, entry.mode);
        }
      }
      return !ok;
    }

    /**
     Every file of the plan in turn; what cannot be brought over is reported and does not
     stop the others: only a third text or an operation that failed keeps a file back.
     */
    method RestoreJournalFiles(id: JournalId, manifest: Manifest, journal: Journal) returns (unresolved: bool, ghost reported: set<Name>, ghost faulty: set<Name>)
      requires IsTaken(disk, id, journal) && journal.manifest == Some(manifest) && DistinctEntries(manifest.files) && Continuous()
      modifies this`disk, this`trace, this`edits, this`faults
      ensures Continuous() && |faulty| <= faults - old(faults) && (unresolved <==> reported != {})
      ensures old(trace) <= trace && old(edits) <= edits && disk == old(disk).(files := disk.files)
      ensures RestoringSteps(trace, |old(trace)|, id, manifest.files, journal)
      ensures !unresolved ==> WereResolved(old(disk), trace, |old(trace)|, manifest.files, |manifest.files|, journal)
      ensures edits == old(edits) ==>
        && SettledUpTo(disk.files, old(disk).files, manifest.files, journal, |manifest.files|, reported)
        && Excused(old(disk).files, manifest.files, journal, reported, faulty)
        && PartlySettled(disk.files, old(disk).files, manifest.files, journal)
        && (journal == old(disk).journals[id] ==> RecoverySteps(trace, |old(trace)|, old(disk), id))
        && var settled := SettleFiles(old(disk).files, manifest.files, journal);
           && (!unresolved ==> !settled.unresolved)
           && (!unresolved || faults == old(faults) ==> disk.files == settled.files && (unresolved <==> settled.unresolved))
    {
      hide Continuous, RestoringStep, RestoringSteps, RecoverySteps, InRecovery, SettleFile, SettleFiles, PartlySettled, SettledUpTo, Excused;
      hide OneRestored, Resolved, WereResolved;
      ghost var found, n0 := disk, |trace|;
      var entries := manifest.files;
      RestoringNothing(trace, found, id, entries, journal);
      unresolved, reported, faulty := false, {}, {};
      var i := 0;
      while i < |entries|
        invariant 0 <= i <= |entries| && Continuous() && |faulty| <= faults - old(faults) && (unresolved <==> reported != {})
        invariant old(trace) <= trace && old(edits) <= edits && disk == found.(files := disk.files)
        invariant if |trace| == n0 then disk == found else trace[|trace| - 1].disk == disk
        invariant RestoringSteps(trace, n0, id, entries, journal)
        invariant !unresolved ==> WereResolved(found, trace, n0, entries, i, journal)
        invariant edits == old(edits) ==>
          && SettledUpTo(disk.files, found.files, entries, journal, i, reported)
          && Excused(found.files, entries, journal, reported, faulty) && (journal == found.journals[id] ==> RecoverySteps(trace, n0, found, id))
      {
        ghost var t0, files, f0 := trace, disk.files, faults;
        var left := RestoreOne(id, entries[i], journal);
        RestoringJoin(t0, trace, n0, id, entries, i, journal);
        ghost var now := if left then reported + {entries[i].name} else reported;
        if edits == old(edits) {
          SettledOneMore(files, disk.files, found.files, entries, journal, i, reported, left, faults > f0);
          ExcusedOneMore(files, disk.files, found.files, entries, journal, i, reported, faulty, left, faults > f0);
          if journal == found.journals[id] {
            RecoveryStepsJoin(t0, trace, n0, disk, found, id, i + 1, now);
          }
        }
        if !unresolved && !left {
          ResolvedOneMore(found, t0, trace, n0, disk, entries, i, journal);
        }
        if left {
          unresolved := true;
        }
        reported, faulty := now, if faults > f0 then faulty + {entries[i].name} else faulty;
        i := i + 1;
      }
      if edits == old(edits) {
        SettledToTheEnd(disk.files, found.files, entries, journal, reported, faulty);
      }
    }

    /** The selection of the version the journal went for is stored. */
    method RestoreJournalMetadata(metadata: Metadata, committed: bool) returns (stored: bool)
      requires Continuous()
      modifies this`disk, this`trace, this`faults
      ensures Continuous() && faults == old(faults) + if stored then 0 else 1
      ensures if stored
              then disk == old(disk).(selections := Select(old(disk).selections, metadata.stack, if committed then Some(metadata.after) else metadata.before))
                   && trace == old(trace) + [Step(Panel, old(disk), disk)]
              else disk == old(disk) && trace == old(trace)
    {
      hide Continuous;
      stored := StoreSelection(metadata.stack, if committed then Some(metadata.after) else metadata.before);
    }

    /** Rename a journal to `unresolved-…`, where no later start looks. */
    method SetAside(id: JournalId) returns (ok: bool)
      requires id in disk.journals && Continuous() && id == doing.id
      modifies this`disk, this`trace, this`faults
      ensures Continuous() && faults == old(faults) + if ok then 0 else 1
      ensures if ok then disk == old(disk).(journals := old(disk).journals - {id}, kept := old(disk).kept[id := old(disk).journals[id]])
                         && trace == old(trace) + [Step(Panel, old(disk), disk)]
              else disk == old(disk) && trace == old(trace)
    {
      hide Continuous;
      assert disk.journals - {id} - {id} == disk.journals - {id};
      ok := Attempt(disk.(journals := disk.journals - {id}, kept := disk.kept[id := disk.journals[id]]));
    }

    /**
     The recovery of one journal: forward behind a marker, back without one, and not at all
     without a manifest. A manifest that cannot be read counts as none, and so does a marker
     that cannot be looked for.
     */
    method RecoverJournal(id: JournalId) returns (outcome: JournalOutcome, ghost look: Look)
      requires id in disk.journals && Accounted()
      requires disk.journals[id].manifest.Some? ==> DistinctEntries(disk.journals[id].manifest.value.files)
      modifies this`disk, this`trace, this`edits, this`faults, this`causes, this`doing
      ensures Accounted() && old(trace) <= trace && old(edits) <= edits && old(faults) <= faults
      ensures MayLook(old(disk).journals[id], look, faults > old(faults))
      ensures causes == if look.Taken? then Extended(old(causes), |trace|, Recovering(id, look.committed)) else old(causes)
      ensures disk.journals - {id} == old(disk).journals - {id}
      ensures look.Unread? ==> outcome.Unresolved? && disk == old(disk) && trace == old(trace)
      ensures look.Taken? ==> Recovered(old(disk), disk, id, look.committed, outcome)
      ensures look.Taken? ==> FilesFollow(old(disk), trace, |old(trace)|, id, TakenAs(old(disk).journals[id], look.committed), outcome)
      ensures edits == old(edits) && look.Taken? && (outcome in {Finished, RolledBack} || faults == old(faults)) ==>
                disk == RecoverAs(old(disk), id, look.committed)
      ensures edits == old(edits) && faults == old(faults) ==> disk == Recover(old(disk), id) && !outcome.Stopped?
      ensures edits == old(edits) && look == Taken(old(disk).journals[id].committed) && CanRepeat(old(disk), id) ==>
                RestartsAlike(trace, |old(trace)|, if outcome.Unresolved? then |trace| - 1 else |trace|, old(disk), id)
    {
      hide Chained, RestoringStep, RestoringSteps, InRecovery, SettleFiles, PartlySettled, CanRepeat, DistinctEntries, WereResolved, Recover, Recovered, Caused;
      hide IsRun, JournalSteps, RecoverAs, Restart;
      ghost var n0, t0, d0 := |trace|, trace, disk;
      var journal := disk.journals[id];
      var unreadable := Interrupted();
      if journal.manifest.None? || unreadable {
        if journal.manifest.None? {
          NothingToRecover(disk, id);
        }
        return Unresolved, Unread;
      }
      var manifest := journal.manifest.value;
      var unseen := Interrupted();
      journal := TakenAs(journal, journal.committed && !unseen);
      look := Taken(journal.committed);
      RunStarts(trace, causes, start, disk, id);
      doing := Doing(|trace|, id, None);
      assert Continuous();
      outcome := SettleJournal(id, manifest, journal);
      RecoverAsFound(d0, id);
      assert Going(trace, start, disk, doing);
      RecoveringIsCause(trace, n0, id, manifest, journal);
      RunGrows(t0, trace, causes, Recovering(id, journal.committed), start, d0, disk);
      causes := Extended(causes, |trace|, Recovering(id, journal.committed));
    }

    /**
     The order of a recovery: files, selection, journal. The journal is deleted only after both
     others; every step leaves a disk from which another start that takes the journal in the
     same way ends as this one would have.
     */
    method SettleJournal(id: JournalId, manifest: Manifest, journal: Journal) returns (outcome: JournalOutcome)
      requires IsTaken(disk, id, journal) && journal.manifest == Some(manifest) && DistinctEntries(manifest.files)
      requires Continuous() && doing == Doing(|trace|, id, None)
      modifies this`disk, this`trace, this`edits, this`faults
      ensures Continuous() && old(trace) <= trace && old(edits) <= edits && old(faults) <= faults
      ensures disk.journals - {id} == old(disk).journals - {id} && Recovered(old(disk), disk, id, journal.committed, outcome)
      ensures FilesFollow(old(disk), trace, |old(trace)|, id, journal, outcome)
      ensures edits == old(edits) && (outcome in {Finished, RolledBack} || faults == old(faults)) ==>
                disk == RecoverAs(old(disk), id, journal.committed) && !outcome.Stopped?
      ensures edits == old(edits) && journal == old(disk).journals[id] && CanRepeat(old(disk), id) ==>
                RestartsAlike(trace, |old(trace)|, if outcome.Unresolved? then |trace| - 1 else |trace|, old(disk), id)
    {
      hide Continuous, RestoringStep, RestoringSteps, SettleFiles, CanRepeat, DistinctEntries;
      hide WereResolved, Recover, RecoverAs, Recovered, Closed, SettledSelection, Restart;
      ghost var found, n0 := disk, |trace|;
      var unresolved := SettleContents(id, manifest, journal);
      ghost var open, t1 := disk, trace;
      outcome := CloseJournal(id, unresolved, journal.committed);
      ClosedIsRecovered(found, open, disk, id, journal, unresolved, outcome);
      RecoverAsFound(found, id);
      RestoringKeeps(t1, trace, n0, id, manifest.files, journal);
      if outcome in {Finished, RolledBack} {
        ResolvedStays(found, t1, trace, n0, manifest.files, |manifest.files|, journal);
      }
    }

    /** Files and selection, with the journal still there. */
    method SettleContents(id: JournalId, manifest: Manifest, journal: Journal) returns (unresolved: bool)
      requires IsTaken(disk, id, journal) && journal.manifest == Some(manifest) && DistinctEntries(manifest.files) && Continuous()
      modifies this`disk, this`trace, this`edits, this`faults
      ensures Continuous() && old(trace) <= trace && old(edits) <= edits && old(faults) <= faults
      ensures disk == old(disk).(files := disk.files, selections := if unresolved then old(disk).selections else SettledSelection(old(disk).selections, journal))
      ensures RestoringSteps(trace, |old(trace)|, id, manifest.files, journal)
      ensures !unresolved ==> WereResolved(old(disk), trace, |old(trace)|, manifest.files, |manifest.files|, journal)
      ensures edits == old(edits) && (!unresolved || faults == old(faults)) ==>
                var settled := SettleFiles(old(disk).files, manifest.files, journal);
                disk.files == settled.files && (unresolved <==> settled.unresolved)
      ensures edits == old(edits) && journal == old(disk).journals[id] && CanRepeat(old(disk), id) ==>
                RestartsAlike(trace, |old(trace)|, |trace|, old(disk), id)
    {
      hide Continuous, RestoringStep, RestoringSteps, RecoverySteps, InRecovery, SettleFiles, PartlySettled, CanRepeat, DistinctEntries, SettledUpTo, Excused;
      hide WereResolved, Recover, SettledSelection, Restart;
      ghost var found, n0 := disk, |trace|;
      ghost var asFound := journal == disk.journals[id];
      var left, _, _ := RestoreJournalFiles(id, manifest, journal);
      ghost var t1 := trace;
      if edits == old(edits) && asFound {
        RestartFromSteps(trace, n0, found, id);
      }
      unresolved := FollowFiles(journal, manifest, left);
      RestoringKeeps(t1, trace, n0, id, manifest.files, journal);
      if !unresolved {
        ResolvedStays(found, t1, trace, n0, manifest.files, |manifest.files|, journal);
        if edits == old(edits) && asFound && CanRepeat(found, id) {
          RestartFromSelection(disk, found, id);
        }
      }
    }

    /** The selection follows the files, if all of them arrived. */
    method FollowFiles(journal: Journal, manifest: Manifest, unresolved: bool) returns (left: bool)
      requires journal.manifest == Some(manifest) && Continuous()
      modifies this`disk, this`trace, this`faults
      ensures Continuous() && old(faults) <= faults && (left <==> unresolved || faults > old(faults))
      ensures disk == old(disk).(selections := if left then old(disk).selections else SettledSelection(old(disk).selections, journal))
      ensures trace == if left || manifest.metadata.None? then old(trace) else old(trace) + [Step(Panel, old(disk), disk)]
    {
      hide Continuous;
      left := unresolved;
      if !unresolved && manifest.metadata.Some? {
        var stored := RestoreJournalMetadata(manifest.metadata.value, journal.committed);
        left := !stored;
      }
    }

    /** Keep the journal for the user, or delete it. */
    method CloseJournal(id: JournalId, unresolved: bool, committed: bool) returns (outcome: JournalOutcome)
      requires id in disk.journals && Continuous() && id == doing.id
      modifies this`disk, this`trace, this`faults
      ensures Continuous() && (outcome.Stopped? <==> faults > old(faults)) && old(faults) <= faults
      ensures Closed(old(disk), disk, id, unresolved, committed, outcome) && disk.files == old(disk).files
      ensures !outcome.Stopped? ==> (outcome.Unresolved? <==> unresolved)
      ensures trace == if outcome.Stopped? then old(trace) else old(trace) + [Step(Panel, old(disk), disk)]
    {
      hide Continuous;
      if unresolved {
        var aside := SetAside(id);
        return if aside then Unresolved else Stopped;
      }
      var gone := DeleteJournal(id);
      outcome := if !gone then Stopped else if committed then Finished else RolledBack;
    }

    /** The journals the previous process left behind, one after the other. */
    method RecoverStackWrites(ids: seq<JournalId>) returns (finished: nat, undone: nat, unresolved: nat, stopped: bool,
                                                           ghost looks: seq<Look>, ghost outcomes: seq<JournalOutcome>)
      requires Distinct(ids) && Accounted() && forall id | id in ids :: id in disk.journals
      requires forall id | id in ids :: disk.journals[id].manifest.Some? ==> DistinctEntries(disk.journals[id].manifest.value.files)
      modifies this`disk, this`trace, this`edits, this`faults, this`causes, this`doing
      ensures Accounted() && old(trace) <= trace && old(edits) <= edits && old(faults) <= faults
      ensures Recoveries(old(causes), causes)
      ensures !stopped ==> finished + undone + unresolved == |ids| == |looks|
      ensures |outcomes| <= |ids| && |outcomes| <= |looks| && (!stopped ==> |outcomes| == |ids|)
      ensures finished == |set i: nat | i < |outcomes| && outcomes[i] == Finished|
      ensures undone == |set i: nat | i < |outcomes| && outcomes[i] == RolledBack|
      ensures unresolved == |set i: nat | i < |outcomes| && outcomes[i] == Unresolved|
      ensures forall i | 0 <= i < |outcomes| ::
                && outcomes[i] in {Finished, RolledBack, Unresolved}
                && (outcomes[i].Finished? ==> looks[i] == Taken(true) && ids[i] !in disk.journals)
                && (outcomes[i].RolledBack? ==> looks[i] == Taken(false) && ids[i] !in disk.journals)
                && (outcomes[i].Unresolved? && looks[i].Unread? ==> ids[i] in disk.journals && disk.journals[ids[i]] == old(disk).journals[ids[i]])
                && (outcomes[i].Unresolved? && looks[i].Taken? ==>
                      ids[i] !in disk.journals && ids[i] in disk.kept && disk.kept[ids[i]] == old(disk).journals[ids[i]])
      ensures faults == old(faults) ==> forall i | 0 <= i < |outcomes| ::
                var journal := old(disk).journals[ids[i]];
                looks[i] == if journal.manifest.None? then Unread else Taken(journal.committed)
      ensures OthersLeft(disk.journals, old(disk).journals, ids)
      ensures edits == old(edits) && !stopped && (unresolved == 0 || faults == old(faults)) ==> disk == RecoverAllAs(old(disk), ids, looks)
      ensures edits == old(edits) && faults == old(faults) ==> !stopped && disk == RecoverAll(old(disk), ids)
    {
      ghost var found := disk;
      hide *;
      var unlisted := Interrupted();
      NoRecoveries(causes);
      NothingTallied(found, ids);
      NothingRecovered(found, ids, false, false);
      finished, undone, unresolved, stopped, looks, outcomes := 0, 0, 0, unlisted, [], [];
      if !stopped {
        finished, undone, unresolved, stopped, looks, outcomes := RecoverEach(ids);
      }
      ghost var calm := edits == old(edits) && !stopped && (unresolved == 0 || faults == old(faults));
      OthersStayed(disk, found, ids, looks, calm, faults == old(faults));
      SeenRight(disk, found, ids, looks, calm, faults == old(faults));
      TallyMeans(disk, found, ids, looks, outcomes, finished, undone, unresolved);
      if !stopped {
        AllInTurn(disk, found, ids, looks, calm, faults == old(faults));
      }
    }

    /** One journal after the other, until one cannot be dealt with. */
    method RecoverEach(ids: seq<JournalId>) returns (finished: nat, undone: nat, unresolved: nat, stopped: bool,
                                                    ghost looks: seq<Look>, ghost outcomes: seq<JournalOutcome>)
      requires Distinct(ids) && Accounted() && forall id | id in ids :: id in disk.journals
      requires forall id | id in ids :: disk.journals[id].manifest.Some? ==> DistinctEntries(disk.journals[id].manifest.value.files)
      modifies this`disk, this`trace, this`edits, this`faults, this`causes, this`doing
      ensures Accounted() && old(trace) <= trace && old(edits) <= edits && old(faults) <= faults
      ensures Recoveries(old(causes), causes)
      ensures |looks| <= |ids| && finished + undone + unresolved == |outcomes| && (!stopped ==> |outcomes| == |looks| == |ids|)
      ensures edits == old(edits) && faults == old(faults) ==> !stopped
      ensures Tallied(disk, old(disk), ids, looks, outcomes, finished, undone, unresolved)
      ensures InTurn(disk, old(disk), ids, looks, edits == old(edits) && !stopped && (unresolved == 0 || faults == old(faults)), faults == old(faults))
    {
      hide *;
      ghost var found := disk;
      finished, undone, unresolved, stopped, looks, outcomes := 0, 0, 0, false, [], [];
      NoRecoveries(causes);
      NothingTallied(found, ids);
      NothingRecovered(found, ids, true, true);
      ghost var calm := true;
      var i := 0;
      while i < |ids|
        invariant 0 <= i <= |ids| && !stopped && finished + undone + unresolved == i == |looks| == |outcomes|
        invariant Tallied(disk, found, ids, looks, outcomes, finished, undone, unresolved)
        invariant Accounted() && old(trace) <= trace && old(edits) <= edits && old(faults) <= faults
        invariant Recoveries(old(causes), causes)
        invariant calm == (edits == old(edits) && (unresolved == 0 || faults == old(faults)))
        invariant InTurn(disk, found, ids, looks, calm, faults == old(faults))
      {
        assert ids[i] in ids;
        StillWaiting(disk, found, ids, looks, calm, faults == old(faults));
        ghost var before, c0, f0 := disk, causes, faults;
        var outcome, look := RecoverJournal(ids[i]);
        MoreRecoveries(old(causes), c0, causes, |trace|, ids[i], look);
        TalliesOneMore(before, disk, found, ids, looks, outcomes, finished, undone, unresolved, look, faults > f0, outcome);
        ghost var still := edits == old(edits) && !outcome.Stopped? && ((unresolved == 0 && !outcome.Unresolved?) || faults == old(faults));
        TakesTurn(before, disk, found, ids, looks, look, calm, still, f0 == old(faults), faults == old(faults));
        looks, calm := looks + [look], still;
        match outcome {
          case Finished => finished := finished + 1;
          case RolledBack => undone := undone + 1;
          case Unresolved => unresolved := unresolved + 1;
          case Stopped =>
            stopped := true;
            return;
        }
        outcomes := outcomes + [outcome];
        i := i + 1;
      }
    }
  }
}
