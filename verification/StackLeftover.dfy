/**
 What a journal that an earlier save could not clean up does to a save that comes after it.

 Every start settles the journals it finds. One without a marker goes back to the version from
 before its save and one with a marker forward to that save's own, whatever was saved since.
 */
module StackLeftover {
  import opened Results
  import opened Utf8
  import opened StackJournal
  import opened StackTrace

  lemma JournalIsSound(pending: seq<PendingWrite>, metadata: Option<Metadata>, committed: bool)
    requires ValidPlan(pending)
    ensures SoundJournal(JournalOf(pending, metadata, committed))
  {
    var journal := JournalOf(pending, metadata, committed);
    EntriesMirrorPlan(pending);
    forall e | e in Entries(pending)
      ensures e.name in journal.after && AreBytesOf(journal.after[e.name], Some(e.afterHash)) && WellFormed(journal.after[e.name])
      ensures e.beforeHash.Some? ==> e.name in journal.before && AreBytesOf(journal.before[e.name], e.beforeHash)
    {
      var k :| 0 <= k < |pending| && Entries(pending)[k] == e;
      assert pending[k] in pending;
      JournalHoldsBothVersions(pending, k);
    }
  }

  /**
   Settling a leftover journal takes a text saved later away: without a marker if its save had
   tried to write that text over another one, with a marker if that text was its original.
   */
  predicate TakesBack(left: PendingWrite, committed: bool, saved: PendingWrite) {
    left.name == saved.name
    && if committed then HashOf(left.before) == Some(Sha256(saved.after))
       else left.after == saved.after && !HoldsText(RestoredNode(left), Some(Sha256(left.after)))
  }

  function Chosen(selections: map<string, Selection>, stack: string): Option<Selection> {
    if stack in selections then Some(selections[stack]) else None
  }

  /** The selection that settling a journal stores. */
  function Goal(metadata: Metadata, committed: bool): Option<Selection> {
    if committed then Some(metadata.after) else metadata.before
  }

  /** A file of the plan holds a third text, so that settling the journal stores no selection. */
  predicate Disputed(files: Files, left: seq<PendingWrite>) {
    exists q :: q in left && !HoldsOwnText(files, EntryOf(q))
  }

  /**
   The journal of a first save stayed, with or without its marker; a later save succeeded.
   After the next start a file holds the text saved last if and only if the leftover does not
   take it back: one without a marker what it had itself tried to write over another text, one
   with a marker its own original. The selections are those stored last if and only if the
   leftover has none, or the same one to store, or a file of it holds neither of its versions.
   */
  lemma LaterSaveSurvivesExactlyWhen(base: Disk, first: Disk, later: Disk, id: JournalId, left: seq<PendingWrite>, leftMetadata: Option<Metadata>,
                                     outcome: SaveOutcome, laterId: JournalId, saved: seq<PendingWrite>, metadata: Option<Metadata>, answer: SaveOutcome)
    requires ValidPlan(left) && id !in base.journals && outcome in {KeptForRecovery(id), CleanupFailed(false), CleanupFailed(true)}
    requires JournalAfter(first, base, id, left, leftMetadata, outcome)
    requires ValidPlan(saved) && laterId !in first.journals && answer.Saved?
    requires JournalAfter(later, first, laterId, saved, metadata, answer) && QuietEnd(later, first, saved, metadata, answer, |saved|)
    ensures forall k | 0 <= k < |saved| ::
              HoldsText(At(Restart(later, id).files, saved[k].name), Some(Sha256(saved[k].after)))
              <==> !exists q :: q in left && TakesBack(q, Succeeded(outcome), saved[k])
    ensures Restart(later, id).selections == later.selections
            <==> leftMetadata.None? || Goal(leftMetadata.value, Succeeded(outcome)) == Chosen(later.selections, leftMetadata.value.stack) || Disputed(later.files, left)
    ensures metadata.Some? ==>
              (Chosen(Restart(later, id).selections, metadata.value.stack) == Some(metadata.value.after)
               <==> leftMetadata.None? || leftMetadata.value.stack != metadata.value.stack
                    || Goal(leftMetadata.value, Succeeded(outcome)) == Some(metadata.value.after) || Disputed(later.files, left))
  {
    var committed := Succeeded(outcome);
    assert later.journals[id] == JournalOf(left, leftMetadata, committed);
    assert later.files == Replaced(first.files, saved, |saved|) && later.selections == Applied(first.selections, metadata);
    assert forall k | 0 <= k < |saved| :: saved[k] in saved && |saved[k].after| <= MAX_FILE_BYTES;
    forall k | 0 <= k < |saved|
      ensures HoldsText(At(Restart(later, id).files, saved[k].name), Some(Sha256(saved[k].after)))
              <==> !exists q :: q in left && TakesBack(q, committed, saved[k])
    {
      ReplacedAt(first.files, saved, |saved|, saved[k].name);
      hide *;
      SavedTextSurvives(later, id, left, leftMetadata, committed, saved[k]);
    }
    SelectionSurvives(later, id, left, leftMetadata, committed);
  }

  /** A leftover journal stores its selection over whatever was stored since, unless it is disputed. */
  lemma SelectionSurvives(disk: Disk, id: JournalId, left: seq<PendingWrite>, metadata: Option<Metadata>, committed: bool)
    requires ValidPlan(left) && id in disk.journals && disk.journals[id] == JournalOf(left, metadata, committed)
    ensures var now := Restart(disk, id).selections;
            && (now == disk.selections
                <==> metadata.None? || Goal(metadata.value, committed) == Chosen(disk.selections, metadata.value.stack) || Disputed(disk.files, left))
            && forall stack :: Chosen(now, stack)
                 == if metadata.None? || stack != metadata.value.stack || Disputed(disk.files, left) then Chosen(disk.selections, stack)
                    else Goal(metadata.value, committed)
  {
    JournalIsSound(left, metadata, committed);
    DisputedEntries(disk.files, left);
    assert Restart(disk, id) == Recover(disk, id);
    hide HoldsOwnText, Recover, SoundJournal, Disputed, Restart, Wanted, Returnable, HoldsText;
    JournalGoesOnlyWhenSettled(disk, id);
    assert Recover(disk, id).selections == if Disputed(disk.files, left) then disk.selections else SettledSelection(disk.selections, disk.journals[id]);
    SelectingChanges(disk.selections, disk.journals[id], metadata, committed);
  }

  lemma SelectingChanges(selections: map<string, Selection>, journal: Journal, metadata: Option<Metadata>, committed: bool)
    requires journal.manifest.Some? && journal.manifest.value.metadata == metadata && journal.committed == committed
    ensures var now := SettledSelection(selections, journal);
            && (now == selections <==> metadata.None? || Goal(metadata.value, committed) == Chosen(selections, metadata.value.stack))
            && forall stack :: Chosen(now, stack)
                 == if metadata.None? || stack != metadata.value.stack then Chosen(selections, stack) else Goal(metadata.value, committed)
  {
  }

  lemma DisputedEntries(files: Files, left: seq<PendingWrite>)
    ensures Disputed(files, left) <==> exists e :: e in Entries(left) && !HoldsOwnText(files, e)
  {
    hide HoldsOwnText, EntryOf;
    var entries := Entries(left);
    if Disputed(files, left) {
      var q :| q in left && !HoldsOwnText(files, EntryOf(q));
      var k :| 0 <= k < |left| && left[k] == q;
      assert entries[k] == EntryOf(q) && entries[k] in entries;
    }
    if e :| e in entries && !HoldsOwnText(files, e) {
      var k :| 0 <= k < |entries| && entries[k] == e;
      assert left[k] in left && e == EntryOf(left[k]);
    }
  }

  lemma SavedTextSurvives(disk: Disk, id: JournalId, left: seq<PendingWrite>, metadata: Option<Metadata>, committed: bool, p: PendingWrite)
    requires ValidPlan(left) && |p.after| <= MAX_FILE_BYTES && At(disk.files, p.name) == AfterNode(p)
    requires id in disk.journals && disk.journals[id] == JournalOf(left, metadata, committed)
    ensures HoldsText(At(Restart(disk, id).files, p.name), Some(Sha256(p.after))) <==> !exists q :: q in left && TakesBack(q, committed, p)
  {
    assert Distinct(Names(left)) && HoldsText(AfterNode(p), Some(Sha256(p.after)));
    assert Restart(disk, id) == Recover(disk, id);
    JournalIsSound(left, metadata, committed);
    if i :| 0 <= i < |left| && left[i].name == p.name {
      LeftoverOfSaved(disk, id, left, metadata, committed, i, p);
      OnlyOneOfName(left, i);
      assert left[i] in left;
    } else {
      LeftoverOfOthers(disk, id, left, metadata, committed, p.name);
    }
  }

  lemma OnlyOneOfName(left: seq<PendingWrite>, i: nat)
    requires Distinct(Names(left)) && i < |left|
    ensures forall q | q in left && q.name == left[i].name :: q == left[i]
  {
    forall q | q in left && q.name == left[i].name ensures q == left[i] {
      var j :| 0 <= j < |left| && left[j] == q;
      assert Names(left)[i] == Names(left)[j];
    }
  }

  lemma LeftoverOfOthers(disk: Disk, id: JournalId, left: seq<PendingWrite>, metadata: Option<Metadata>, committed: bool, name: Name)
    requires ValidPlan(left) && id in disk.journals && disk.journals[id] == JournalOf(left, metadata, committed)
    requires forall i | 0 <= i < |left| :: left[i].name != name
    ensures At(Recover(disk, id).files, name) == At(disk.files, name)
  {
    EntriesMirrorPlan(left);
    SettleLeavesOthers(disk.files, Entries(left), disk.journals[id], name);
  }

  lemma LeftoverOfSaved(disk: Disk, id: JournalId, left: seq<PendingWrite>, metadata: Option<Metadata>, committed: bool, i: nat, p: PendingWrite)
    requires ValidPlan(left) && i < |left| && left[i].name == p.name && |p.after| <= MAX_FILE_BYTES
    requires id in disk.journals && disk.journals[id] == JournalOf(left, metadata, committed) && SoundJournal(disk.journals[id])
    requires At(disk.files, p.name) == AfterNode(p)
    ensures HoldsText(At(Recover(disk, id).files, p.name), Some(Sha256(p.after))) <==> !TakesBack(left[i], committed, p)
  {
    var q, j := left[i], disk.journals[id];
    hide Recover, SoundJournal, RestoredNode;
    JournalHoldsBothVersions(left, i);
    LeftoverJournalChangesExactly(disk, id, i);
    assert q in left && Entries(left)[i] == EntryOf(q);
    assert NeedsReturn(disk.files, EntryOf(q), j) <==> Some(Sha256(p.after)) == Other(EntryOf(q), committed);
    if committed {
      RereadKeepsExactlyText(q.after);
      assert HashOf(KeptText(j, q.name)) == Some(Sha256(q.after)) != HashOf(q.before);
    } else {
      assert HashOf(if q.before.None? then None else KeptText(j, q.name)) == HashOf(if q.before.None? then None else Some(Reread(q.before.value)));
      RestoredHash(q);
    }
  }

  lemma RestoredHash(q: PendingWrite)
    ensures forall h :: HoldsText(RestoredNode(q), h) <==> h == HashOf(if q.before.None? then None else Some(Reread(q.before.value)))
  {
  }

  lemma ReplacedOne(files: Files, p: PendingWrite)
    requires files.Keys <= {p.name}
    ensures Replaced(files, [p], 1) == map[p.name := Regular(p.after, p.mode)]
  {
    assert Replaced(files, [p], 0) == files && [p][0] == p;
  }

  /** A disk with one file. */
  function OneFile(name: Name, bytes: Bytes, selections: map<string, Selection>, journals: map<JournalId, Journal>): Disk {
    Disk(map[name := Regular(bytes, DEFAULT_FILE_MODE)], selections, journals, map[])
  }

  /**
   Saving again what a failed save had tried is undone: the first save is put back to "1" but
   its journal cannot be deleted, the second one saves "2" and succeeds, and the next start
   takes the file back to "1".
   */
  lemma LeftoverJournalUndoesLaterSave()
    ensures var p := PendingWrite("one.yaml", Some([0x31]), [0x32], DEFAULT_FILE_MODE);
            var base, left := OneFile("one.yaml", [0x31], map[], map[]), map["left" := JournalOf([p], None, false)];
            var first, later := base.(journals := left), OneFile("one.yaml", [0x32], map[], left);
            var answer := Saved(map["one.yaml" := Sha256([0x32])], ["one.yaml"]);
            && ValidPlan([p]) && MatchesPlan(base.files, [p]) && MatchesPlan(first.files, [p])
            && QuietEnd(first, base, [p], None, CleanupFailed(false), 1) && JournalAfter(first, base, "left", [p], None, CleanupFailed(false))
            && QuietEnd(later, first, [p], None, answer, 1) && JournalAfter(later, first, "later", [p], None, answer)
            && Restart(later, "left").files == base.files
  {
    var p := PendingWrite("one.yaml", Some([0x31]), [0x32], DEFAULT_FILE_MODE);
    var base, left := OneFile("one.yaml", [0x31], map[], map[]), map["left" := JournalOf([p], None, false)];
    var later := OneFile("one.yaml", [0x32], map[], left);
    assert Sha256([0x31]).bytes[0] != Sha256([0x32]).bytes[0];
    assert ValidPlan([p]) && MatchesPlan(base.files, [p]) && Restorable(p);
    ReplacedOne(base.files, p);
    UndoIsExact(base.files, [p], 1);
    forall name | !Pends([p], name) ensures At(later.files, name) == At(base.files, name) {
      assert [p][0].name != name;
    }
    RollbackIsExact(later, base, "left", [p], None);
  }

  /**
   A first save is put back and its journal cannot be deleted; a second one writes another file
   and stores a selection. The next start takes the selection back, though the saves share no file.
   */
  lemma LeftoverJournalRevertsSelection(a: Selection, b: Selection, c: Selection)
    requires a != c
    ensures var p, q := PendingWrite("one.yaml", None, [0x31], DEFAULT_FILE_MODE), PendingWrite("two.yaml", None, [0x32], DEFAULT_FILE_MODE);
            var m, n := Metadata("web", Some(a), b), Metadata("web", Some(a), c);
            var base, left := Disk(map[], map["web" := a], map[], map[]), map["left" := JournalOf([p], Some(m), false)];
            var first, later := base.(journals := left), OneFile("two.yaml", [0x32], map["web" := c], left);
            var answer := Saved(map["two.yaml" := Sha256([0x32])], ["two.yaml"]);
            && ValidPlan([p]) && MatchesPlan(base.files, [p]) && MetadataMatches(base.selections, Some(m))
            && ValidPlan([q]) && MatchesPlan(first.files, [q]) && MetadataMatches(first.selections, Some(n))
            && QuietEnd(first, base, [p], Some(m), CleanupFailed(false), 1) && JournalAfter(first, base, "left", [p], Some(m), CleanupFailed(false))
            && QuietEnd(later, first, [q], Some(n), answer, 1) && JournalAfter(later, first, "later", [q], Some(n), answer)
            && Restart(later, "left").selections == map["web" := a]
  {
    var p, q := PendingWrite("one.yaml", None, [0x31], DEFAULT_FILE_MODE), PendingWrite("two.yaml", None, [0x32], DEFAULT_FILE_MODE);
    var m, n := Metadata("web", Some(a), b), Metadata("web", Some(a), c);
    var base, left := Disk(map[], map["web" := a], map[], map[]), map["left" := JournalOf([p], Some(m), false)];
    var first, later := base.(journals := left), OneFile("two.yaml", [0x32], map["web" := c], left);
    SavedAndPutBack(base, first, p, m, a);
    SavedNext(first, later, q, n, a, Saved(map["two.yaml" := Sha256([0x32])], ["two.yaml"]));
    assert p.name !in later.files;
    hide *;
    SelectionTakenBack(later, p, m, a);
  }

  lemma SavedAndPutBack(base: Disk, first: Disk, p: PendingWrite, m: Metadata, a: Selection)
    requires p.before.None? && |p.after| == 1 && m.before == Some(a) && base == Disk(map[], map[m.stack := a], map[], map[])
    requires first == base.(journals := map["left" := JournalOf([p], Some(m), false)])
    ensures ValidPlan([p]) && MatchesPlan(base.files, [p]) && MetadataMatches(base.selections, Some(m))
    ensures QuietEnd(first, base, [p], Some(m), CleanupFailed(false), 1) && JournalAfter(first, base, "left", [p], Some(m), CleanupFailed(false))
  {
    assert ValidPlan([p]) && MatchesPlan(base.files, [p]) && Restorable(p);
    hide JournalOf, Replaced, Unwound;
    UndoIsExact(base.files, [p], 1);
  }

  lemma SavedNext(first: Disk, later: Disk, q: PendingWrite, n: Metadata, a: Selection, answer: SaveOutcome)
    requires q.before.None? && |q.after| == 1 && n.before == Some(a) && first.files == map[] && first.selections == map[n.stack := a] && first.kept == map[]
    requires later == first.(files := map[q.name := Regular(q.after, q.mode)], selections := map[n.stack := n.after]) && answer.Saved?
    ensures ValidPlan([q]) && MatchesPlan(first.files, [q]) && MetadataMatches(first.selections, Some(n))
    ensures QuietEnd(later, first, [q], Some(n), answer, 1) && JournalAfter(later, first, "later", [q], Some(n), answer)
  {
    ReplacedOne(first.files, q);
    hide Replaced;
  }

  lemma SelectionTakenBack(later: Disk, p: PendingWrite, m: Metadata, a: Selection)
    requires ValidPlan([p]) && p.before.None? && p.name !in later.files && m.before == Some(a)
    requires "left" in later.journals && later.journals["left"] == JournalOf([p], Some(m), false) && later.selections.Keys == {m.stack}
    ensures Restart(later, "left").selections == map[m.stack := a]
  {
    assert HoldsOwnText(later.files, EntryOf(p)) && !Disputed(later.files, [p]);
    hide Restart, JournalOf, ValidPlan, Disputed, HoldsOwnText;
    SelectionSurvives(later, "left", [p], Some(m), false);
    assert Chosen(Restart(later, "left").selections, m.stack) == Some(a);
    SelectedAlone(Restart(later, "left").selections, later.selections, m.stack, a);
  }

  lemma SelectedAlone(now: map<string, Selection>, before: map<string, Selection>, stack: string, selection: Selection)
    requires before.Keys == {stack} && Chosen(now, stack) == Some(selection)
    requires forall other | other != stack :: Chosen(now, other) == Chosen(before, other)
    ensures now == map[stack := selection]
  {
    forall other | other != stack ensures other !in now {
      assert Chosen(now, other) == Chosen(before, other);
    }
  }

  lemma FinishedAgain(p: PendingWrite, disk: Disk, journal: Journal)
    requires ValidPlan([p]) && p.before.Some? && disk.files == map[p.name := Regular(p.before.value, DEFAULT_FILE_MODE)]
    requires disk.journals == map["left" := journal] && journal == JournalOf([p], None, true)
    ensures Restart(disk, "left").files == map[p.name := Regular(p.after, p.mode)]
  {
    assert p in [p] && Entries([p]) == [EntryOf(p)];
    JournalHoldsBothVersions([p], 0);
    RereadKeepsExactlyText(p.after);
    assert [p][0] == p;
    assert SettleFile(At(disk.files, p.name), EntryOf(p), journal) == Settled(AfterNode(p), false);
    assert SettleFiles(disk.files, [], journal) == SettledFiles(disk.files, false);
    assert [EntryOf(p)][..0] == [];
  }

  /**
   A first save writes "2" over "1" and only its clean-up fails; a second one goes back to "1"
   and succeeds. The next start finishes the first one again: the file holds "2".
   */
  lemma FinishedJournalUndoesLaterSave()
    ensures var p, q := PendingWrite("one.yaml", Some([0x31]), [0x32], DEFAULT_FILE_MODE), PendingWrite("one.yaml", Some([0x32]), [0x31], DEFAULT_FILE_MODE);
            var base, left := OneFile("one.yaml", [0x31], map[], map[]), map["left" := JournalOf([p], None, true)];
            var first, later := OneFile("one.yaml", [0x32], map[], left), OneFile("one.yaml", [0x31], map[], left);
            var answer := Saved(map["one.yaml" := Sha256([0x31])], ["one.yaml"]);
            && ValidPlan([p]) && MatchesPlan(base.files, [p]) && ValidPlan([q]) && MatchesPlan(first.files, [q])
            && QuietEnd(first, base, [p], None, CleanupFailed(true), 1) && JournalAfter(first, base, "left", [p], None, CleanupFailed(true))
            && QuietEnd(later, first, [q], None, answer, 1) && JournalAfter(later, first, "later", [q], None, answer)
            && !HoldsText(At(Restart(later, "left").files, "one.yaml"), Some(Sha256([0x31])))
            && Restart(later, "left").files == first.files
  {
    var p, q := PendingWrite("one.yaml", Some([0x31]), [0x32], DEFAULT_FILE_MODE), PendingWrite("one.yaml", Some([0x32]), [0x31], DEFAULT_FILE_MODE);
    var left := map["left" := JournalOf([p], None, true)];
    var first, later := OneFile("one.yaml", [0x32], map[], left), OneFile("one.yaml", [0x31], map[], left);
    assert Sha256([0x31]).bytes[0] != Sha256([0x32]).bytes[0];
    assert ValidPlan([p]) && ValidPlan([q]);
    ReplacedOne(OneFile("one.yaml", [0x31], map[], map[]).files, p);
    ReplacedOne(first.files, q);
    FinishedAgain(p, later, left["left"]);
  }

  // ---------------------------------------------------------------- a marker that cannot be looked for

  /**
   A save that wrote its marker ends at its new version if and only if the start finds the
   marker, or every original reads as the new text anyway. A start whose look for the marker
   fails takes everything back and deletes the journal, the selection included.
   */
  lemma {:induction false} MarkedSaveStaysExactlyWhen(disk: Disk, base: Disk, id: JournalId, pending: seq<PendingWrite>, metadata: Option<Metadata>, found: bool)
    requires ValidPlan(pending) && id !in base.journals && Marked(disk, base, id, pending, metadata)
    ensures var r := RecoverAs(disk, id, found);
            && r.journals == base.journals && r.kept == base.kept
            && (r.files == Replaced(base.files, pending, |pending|) <==> found || forall p | p in pending :: RestoredNode(p) == AfterNode(p))
            && (found ==> r.selections == Applied(base.selections, metadata))
            && (!found ==> r.files == Unwound(base.files, pending, |pending|, 0)
                           && r.selections == Reverted(Applied(base.selections, metadata), metadata))
  {
    RecoverAsFound(disk, id);
    if found {
      hide RecoverAs, Marked;
      RollForwardIsExact(disk, base, id, pending, metadata);
      MarkedRecovers(disk, base, id, pending, metadata);
    } else {
      MissedMarker(disk, base, id, pending, metadata);
      hide RecoverAs, Marked, ValidPlan, RestoredNode;
      AllReadAsNew(base.files, pending);
    }
  }

  lemma MarkedRecovers(disk: Disk, base: Disk, id: JournalId, pending: seq<PendingWrite>, metadata: Option<Metadata>)
    requires Marked(disk, base, id, pending, metadata) && Restart(disk, id).journals == base.journals && id !in base.journals
    requires ValidPlan(pending)
    ensures id in disk.journals && disk.journals[id].committed && Restart(disk, id) == Recover(disk, id) && Recover(disk, id).kept == base.kept
  {
    var journal, entries := disk.journals[id], Entries(pending);
    EntriesMirrorPlan(pending);
    if SettleFiles(disk.files, entries, journal).unresolved {
      var k := SettleBlame(disk.files, entries, journal);
      assert pending[k] in pending;
      ReplacedAt(base.files, pending, |pending|, pending[k].name);
      assert false;
    }
  }

  lemma {:induction false} MissedMarker(disk: Disk, base: Disk, id: JournalId, pending: seq<PendingWrite>, metadata: Option<Metadata>)
    requires ValidPlan(pending) && id !in base.journals && Marked(disk, base, id, pending, metadata)
    ensures var r := RecoverAs(disk, id, false);
            && r.files == Unwound(base.files, pending, |pending|, 0) && r.journals == base.journals && r.kept == base.kept
            && r.selections == Reverted(Applied(base.selections, metadata), metadata)
  {
    var journal, entries := TakenAs(disk.journals[id], false), Entries(pending);
    var settled, undone := SettleFiles(disk.files, entries, journal), Unwound(base.files, pending, |pending|, 0);
    assert base.journals[id := disk.journals[id]] - {id} == base.journals;
    EntriesMirrorPlan(pending);
    assert disk.files == Replaced(base.files, pending, |pending|) && journal == JournalOf(pending, metadata, false);
    hide SettleFile, SettleFiles, JournalOf, Replaced, Unwound, RestoredNode;
    forall k | 0 <= k < |pending|
      ensures SettleFile(At(disk.files, entries[k].name), entries[k], journal) == Settled(RestoredNode(pending[k]), false)
    {
      ReplacedAt(base.files, pending, |pending|, pending[k].name);
      OneTakenBack(pending, k, metadata);
    }
    if settled.unresolved {
      var k := SettleBlame(disk.files, entries, journal);
      assert false;
    }
    forall name ensures At(settled.files, name) == At(undone, name) {
      UnwoundAt(base.files, pending, |pending|, 0, name);
      ReplacedAt(base.files, pending, |pending|, name);
      if k :| 0 <= k < |pending| && pending[k].name == name {
        SettleEach(disk.files, entries, journal, k);
      } else {
        SettleLeavesOthers(disk.files, entries, journal, name);
      }
    }
    SameFiles(settled.files, undone);
  }

  lemma OneTakenBack(pending: seq<PendingWrite>, k: nat, metadata: Option<Metadata>)
    requires ValidPlan(pending) && k < |pending|
    ensures SettleFile(AfterNode(pending[k]), EntryOf(pending[k]), JournalOf(pending, metadata, false)) == Settled(RestoredNode(pending[k]), false)
  {
    assert pending[k] in pending;
    JournalHoldsBothVersions(pending, k);
  }

  lemma AllReadAsNew(files: Files, pending: seq<PendingWrite>)
    requires Distinct(Names(pending))
    ensures Unwound(files, pending, |pending|, 0) == Replaced(files, pending, |pending|) <==> forall p | p in pending :: RestoredNode(p) == AfterNode(p)
  {
    hide RestoredNode, AfterNode;
    var back, wanted := Unwound(files, pending, |pending|, 0), Replaced(files, pending, |pending|);
    forall name
      ensures forall k | 0 <= k < |pending| && pending[k].name == name ::
                At(back, name) == RestoredNode(pending[k]) && At(wanted, name) == AfterNode(pending[k])
      ensures (forall k | 0 <= k < |pending| :: pending[k].name != name) ==> At(back, name) == At(wanted, name)
    {
      UnwoundAt(files, pending, |pending|, 0, name);
      ReplacedAt(files, pending, |pending|, name);
    }
    if forall p | p in pending :: RestoredNode(p) == AfterNode(p) {
      forall name ensures At(back, name) == At(wanted, name) {
        if k :| 0 <= k < |pending| && pending[k].name == name {
          assert pending[k] in pending;
        }
      }
      SameFiles(back, wanted);
    } else {
      var p :| p in pending && RestoredNode(p) != AfterNode(p);
      var k :| 0 <= k < |pending| && pending[k] == p;
      assert At(back, p.name) != At(wanted, p.name);
    }
  }
}
