/**
 The disk a stack save works on, and what the start-up recovery makes of a journal.

 Everything here is a value: a disk as it would be found after a crash, and the function
 the recovery computes on it when nothing fails and nobody interferes.
 */
module StackJournal {
  import opened Results
  import opened Utf8

  type Name = string
  type JournalId = string

  /** The limit on the bytes of a file, for reading and for saving. */
  const MAX_FILE_BYTES := 1024 * 1024

  /** The mode of new files, 0o644. */
  const DEFAULT_FILE_MODE := 420

  datatype Node =
    | Regular(bytes: Bytes, mode: nat)
    | Irregular   // a symlink or a directory: never read, never replaced

  type Files = map<Name, Node>

  /** sha256 taken as collision free */
  datatype Hash = Sha256(bytes: Bytes)

  datatype Selection = Selection(composeFileName: string, envFileNames: seq<string>, activeEnvFileName: string)

  /** The selection of a stack from before and after one save. */
  datatype Metadata = Metadata(stack: string, before: Option<Selection>, after: Selection)

  /** One requested text; the hash is None if the request names no baseline. */
  datatype FileTarget = FileTarget(name: Name, content: Text, expectedHash: Option<Option<Hash>>, mode: Option<nat>)

  /** One file of a save that is going to change something, with what it held when it was read */
  datatype PendingWrite = PendingWrite(name: Name, before: Option<Bytes>, after: Text, mode: nat)

  datatype JournalFile = JournalFile(name: Name, beforeHash: Option<Hash>, afterHash: Hash, mode: nat)

  datatype Manifest = Manifest(files: seq<JournalFile>, metadata: Option<Metadata>)

  /** A journal directory. No manifest stands for one that is missing or cannot be read. */
  datatype Journal = Journal(before: map<Name, Bytes>, after: map<Name, Bytes>, manifest: Option<Manifest>, committed: bool)

  /** Everything that survives a crash. `kept` holds the journals renamed to `unresolved-…`. */
  datatype Disk = Disk(files: Files, selections: map<string, Selection>, journals: map<JournalId, Journal>, kept: map<JournalId, Journal>)

  datatype Error =
    | FileNameInvalid | FileTooLarge | FileDuplicate | FileChangedElsewhere
    | SelectionNotStored | Io

  datatype FileState = FileState(hash: Option<Hash>, bytes: Option<Bytes>, mode: Option<nat>)

  // ---------------------------------------------------------------- reading and changing files

  function At(files: Files, name: Name): Option<Node> {
    if name in files then Some(files[name]) else None
  }

  function Put(files: Files, name: Name, node: Option<Node>): Files {
    match node
    case Some(n) => files[name := n]
    case None => files - {name}
  }

  function HashOf(bytes: Option<Bytes>): Option<Hash> {
    match bytes case Some(b) => Some(Sha256(b)) case None => None
  }

  predicate HoldsText(node: Option<Node>, hash: Option<Hash>) {
    match node
    case None => hash.None?
    case Some(Irregular) => false
    case Some(Regular(bytes, _)) => hash == Some(Sha256(bytes))
  }

  /** What reading one directory entry gives; a symlink and an oversized file are refused. */
  function ReadNode(node: Option<Node>): (r: Result<FileState, Error>)
    ensures r.Success? ==> r.value.hash == HashOf(r.value.bytes) && HoldsText(node, r.value.hash) && (r.value.mode.Some? <==> node.Some?)
  {
    match node
    case None => Success(FileState(None, None, None))
    case Some(Irregular) => Failure(FileNameInvalid)
    case Some(Regular(bytes, mode)) =>
      if |bytes| > MAX_FILE_BYTES then Failure(FileTooLarge)
      else Success(FileState(Some(Sha256(bytes)), Some(bytes), Some(mode)))
  }

  function Select(selections: map<string, Selection>, stack: string, selection: Option<Selection>): map<string, Selection> {
    match selection
    case Some(s) => selections[stack := s]
    case None => selections - {stack}
  }

  predicate Distinct(names: seq<Name>) {
    forall i, j | 0 <= i < j < |names| :: names[i] != names[j]
  }

  function Names(pending: seq<PendingWrite>): (names: seq<Name>)
    ensures |names| == |pending|
  {
    seq(|pending|, i requires 0 <= i < |pending| => pending[i].name)
  }

  // ---------------------------------------------------------------- the journal of one save

  function EntryOf(p: PendingWrite): JournalFile {
    JournalFile(p.name, HashOf(p.before), Sha256(p.after), p.mode)
  }

  function Entries(pending: seq<PendingWrite>): (entries: seq<JournalFile>)
    ensures |entries| == |pending|
  {
    seq(|pending|, i requires 0 <= i < |pending| => EntryOf(pending[i]))
  }

  function BeforeTexts(pending: seq<PendingWrite>): map<Name, Bytes> {
    if |pending| == 0 then map[] else
      var p := pending[|pending| - 1];
      var rest := BeforeTexts(pending[..|pending| - 1]);
      if p.before.Some? then rest[p.name := p.before.value] else rest
  }

  function AfterTexts(pending: seq<PendingWrite>): map<Name, Bytes> {
    if |pending| == 0 then map[] else
      var p := pending[|pending| - 1];
      AfterTexts(pending[..|pending| - 1])[p.name := p.after]
  }

  /** The finished journal of a save, before or after its commit marker. */
  function JournalOf(pending: seq<PendingWrite>, metadata: Option<Metadata>, committed: bool): Journal {
    Journal(BeforeTexts(pending), AfterTexts(pending), Some(Manifest(Entries(pending), metadata)), committed)
  }

  /** Once the manifest is written nothing is missing: each new text is there, and each original byte for byte. */
  lemma {:induction false} JournalHoldsBothVersions(pending: seq<PendingWrite>, k: nat)
    requires Distinct(Names(pending)) && k < |pending|
    ensures pending[k].name in AfterTexts(pending) && AfterTexts(pending)[pending[k].name] == pending[k].after
    ensures pending[k].name in BeforeTexts(pending) <==> pending[k].before.Some?
    ensures pending[k].before.Some? ==> BeforeTexts(pending)[pending[k].name] == pending[k].before.value
  {
    var n := |pending| - 1;
    var front := pending[..n];
    forall i, j | 0 <= i < j < n ensures Names(front)[i] != Names(front)[j] {
      assert Names(pending)[i] != Names(pending)[j];
    }
    if k < n {
      JournalHoldsBothVersions(front, k);
      assert front[k] == pending[k];
      assert Names(pending)[k] != Names(pending)[n];
    } else {
      TextsOnlyOfNames(front, pending[n].name);
      forall i | 0 <= i < n ensures front[i].name != pending[n].name {
        assert Names(pending)[i] != Names(pending)[n];
      }
    }
  }

  lemma {:induction false} TextsOnlyOfNames(pending: seq<PendingWrite>, name: Name)
    ensures name in BeforeTexts(pending) || name in AfterTexts(pending) ==> exists k :: 0 <= k < |pending| && pending[k].name == name
  {
    if |pending| > 0 {
      var front := pending[..|pending| - 1];
      TextsOnlyOfNames(front, name);
      if k :| 0 <= k < |front| && front[k].name == name {
        assert pending[k].name == name;
      }
    }
  }

  // ---------------------------------------------------------------- recovery of one journal

  function Wanted(entry: JournalFile, committed: bool): Option<Hash> {
    if committed then Some(entry.afterHash) else entry.beforeHash
  }

  function Other(entry: JournalFile, committed: bool): Option<Hash> {
    if committed then entry.beforeHash else Some(entry.afterHash)
  }

  /** The text the journal kept of one file, read as text. */
  function KeptText(journal: Journal, name: Name): Option<Text> {
    var texts := if journal.committed then journal.after else journal.before;
    if name in texts then Some(Reread(texts[name])) else None
  }

  datatype Settled = Settled(node: Option<Node>, unresolved: bool)

  /** Recovery of one file: leave it, put the wanted version back, or leave a third text alone. */
  function SettleFile(node: Option<Node>, entry: JournalFile, journal: Journal): Settled {
    match ReadNode(node)
    case Failure(_) => Settled(node, true)
    case Success(current) =>
      if current.hash == Wanted(entry, journal.committed) then Settled(node, false)
      else if current.hash != Other(entry, journal.committed) then Settled(node, true)
      else if Wanted(entry, journal.committed).None? then Settled(None, false)
      else match KeptText(journal, entry.name)
        case None => Settled(node, true)
        case Some(text) => Settled(Some(Regular(text, entry.mode)), false)
  }

  datatype SettledFiles = SettledFiles(files: Files, unresolved: bool)

  function SettleFiles(files: Files, entries: seq<JournalFile>, journal: Journal): SettledFiles {
    if |entries| == 0 then SettledFiles(files, false) else
      var entry := entries[|entries| - 1];
      var front := SettleFiles(files, entries[..|entries| - 1], journal);
      var one := SettleFile(At(front.files, entry.name), entry, journal);
      SettledFiles(Put(front.files, entry.name, one.node), front.unresolved || one.unresolved)
  }

  function SettledSelection(selections: map<string, Selection>, journal: Journal): map<string, Selection>
    requires journal.manifest.Some?
  {
    match journal.manifest.value.metadata
    case None => selections
    case Some(m) => Select(selections, m.stack, if journal.committed then Some(m.after) else m.before)
  }

  /** A start of the panel that finds this journal and is left alone while it repairs it. */
  function Recover(disk: Disk, id: JournalId): Disk
    requires id in disk.journals
  {
    var journal := disk.journals[id];
    match journal.manifest
    case None => disk
    case Some(manifest) =>
      var settled := SettleFiles(disk.files, manifest.files, journal);
      if settled.unresolved then
        disk.(files := settled.files, journals := disk.journals - {id}, kept := disk.kept[id := journal])
      else
        disk.(files := settled.files, journals := disk.journals - {id},
              selections := SettledSelection(disk.selections, journal))
  }

  /** The journal as it is taken by a start that found its marker, or found none. */
  function TakenAs(journal: Journal, committed: bool): Journal {
    journal.(committed := committed)
  }

  /** The same, for a start that takes the save to be committed or not, whatever the journal says. */
  function RecoverAs(disk: Disk, id: JournalId, committed: bool): Disk
    requires id in disk.journals
  {
    var journal := disk.journals[id];
    match journal.manifest
    case None => disk
    case Some(manifest) =>
      var settled := SettleFiles(disk.files, manifest.files, TakenAs(journal, committed));
      if settled.unresolved then
        disk.(files := settled.files, journals := disk.journals - {id}, kept := disk.kept[id := journal])
      else
        disk.(files := settled.files, journals := disk.journals - {id},
              selections := SettledSelection(disk.selections, TakenAs(journal, committed)))
  }

  lemma RecoverAsFound(disk: Disk, id: JournalId)
    requires id in disk.journals
    ensures RecoverAs(disk, id, disk.journals[id].committed) == Recover(disk, id)
  {
    assert TakenAs(disk.journals[id], disk.journals[id].committed) == disk.journals[id];
  }

  /** The next start after a crash that left this disk. */
  function Restart(disk: Disk, id: JournalId): Disk {
    if id in disk.journals then Recover(disk, id) else disk
  }

  predicate DistinctEntries(entries: seq<JournalFile>) {
    forall i, j | 0 <= i < j < |entries| :: entries[i].name != entries[j].name
  }

  predicate Mentions(entries: seq<JournalFile>, name: Name) {
    exists k :: 0 <= k < |entries| && entries[k].name == name
  }

  lemma {:induction false} SettleLeavesOthers(files: Files, entries: seq<JournalFile>, journal: Journal, name: Name)
    requires !Mentions(entries, name)
    ensures At(SettleFiles(files, entries, journal).files, name) == At(files, name)
  {
    if |entries| > 0 {
      var n := |entries| - 1;
      assert entries[n].name != name;
      forall k | 0 <= k < n ensures entries[..n][k].name != name {
        assert entries[k].name != name;
      }
      SettleLeavesOthers(files, entries[..n], journal, name);
    }
  }

  /** Recovery of a set of files is recovery of each of them, whatever the order. */
  lemma {:induction false} SettleEach(files: Files, entries: seq<JournalFile>, journal: Journal, k: nat)
    requires DistinctEntries(entries) && k < |entries|
    ensures var all, one := SettleFiles(files, entries, journal), SettleFile(At(files, entries[k].name), entries[k], journal);
            At(all.files, entries[k].name) == one.node && (one.unresolved ==> all.unresolved)
  {
    var n := |entries| - 1;
    if k < n {
      SettleEach(files, entries[..n], journal, k);
      assert entries[k].name != entries[n].name;
    } else {
      SettleLeavesOthers(files, entries[..n], journal, entries[n].name);
    }
  }

  lemma {:induction false} SettleBlame(files: Files, entries: seq<JournalFile>, journal: Journal) returns (k: nat)
    requires DistinctEntries(entries) && SettleFiles(files, entries, journal).unresolved
    ensures k < |entries| && SettleFile(At(files, entries[k].name), entries[k], journal).unresolved
  {
    var n := |entries| - 1;
    if SettleFiles(files, entries[..n], journal).unresolved {
      k := SettleBlame(files, entries[..n], journal);
    } else {
      k := n;
      SettleLeavesOthers(files, entries[..n], journal, entries[n].name);
    }
  }

  /** Settling a settled file changes nothing: recovery of one file may be repeated freely. */
  lemma SettleTwice(node: Option<Node>, entry: JournalFile, journal: Journal)
    ensures SettleFile(SettleFile(node, entry, journal).node, entry, journal).node == SettleFile(node, entry, journal).node
  {
  }

  // ---------------------------------------------------------------- crash points of one save

  function BeforeNode(p: PendingWrite): Option<Node> {
    if p.before.Some? then Some(Regular(p.before.value, p.mode)) else None
  }

  function AfterNode(p: PendingWrite): Option<Node> {
    Some(Regular(p.after, p.mode))
  }

  /** What undoing one replaced file leaves: its original, read as text. */
  function RestoredNode(p: PendingWrite): Option<Node> {
    if p.before.Some? then Some(Regular(Reread(p.before.value), p.mode)) else None
  }

  /** The original can be put back: it did not exist, or its bytes are well formed UTF-8. */
  predicate Restorable(p: PendingWrite) {
    p.before.Some? ==> WellFormed(p.before.value)
  }

  predicate Pends(pending: seq<PendingWrite>, name: Name) {
    exists k :: 0 <= k < |pending| && pending[k].name == name
  }

  /** Every file holds what the plan read, its permissions included. */
  predicate MatchesPlan(files: Files, pending: seq<PendingWrite>) {
    forall k | 0 <= k < |pending| :: At(files, pending[k].name) == BeforeNode(pending[k])
  }

  /** What the plan guarantees: distinct names, sizes that were accepted, and a real change. */
  predicate ValidPlan(pending: seq<PendingWrite>) {
    && Distinct(Names(pending))
    && forall p | p in pending ::
         && |p.after| <= MAX_FILE_BYTES
         && (p.before.Some? ==> |p.before.value| <= MAX_FILE_BYTES)
         && HashOf(p.before) != Some(Sha256(p.after))
  }

  /** The files once the first k are replaced. */
  function Replaced(files: Files, pending: seq<PendingWrite>, k: nat): Files
    requires k <= |pending|
  {
    if k == 0 then files else Put(Replaced(files, pending, k - 1), pending[k - 1].name, AfterNode(pending[k - 1]))
  }

  function Applied(selections: map<string, Selection>, metadata: Option<Metadata>): map<string, Selection> {
    match metadata case None => selections case Some(m) => Select(selections, m.stack, Some(m.after))
  }

  function Reverted(selections: map<string, Selection>, metadata: Option<Metadata>): map<string, Selection> {
    match metadata case None => selections case Some(m) => Select(selections, m.stack, m.before)
  }

  /** The caller named the selection that is really stored. */
  predicate MetadataMatches(selections: map<string, Selection>, metadata: Option<Metadata>) {
    Reverted(selections, metadata) == selections
  }

  /** The disk as it was, or as the save wants it. */
  predicate AllBefore(disk: Disk, base: Disk) {
    disk.files == base.files && disk.selections == base.selections
  }

  predicate AllAfter(disk: Disk, base: Disk, pending: seq<PendingWrite>, metadata: Option<Metadata>) {
    disk.files == Replaced(base.files, pending, |pending|) && disk.selections == Applied(base.selections, metadata)
  }

  /** While the journal is written: nothing is touched and no manifest can be read. */
  ghost predicate Opening(disk: Disk, base: Disk, id: JournalId) {
    && AllBefore(disk, base) && disk.kept == base.kept
    && (id in disk.journals ==> disk.journals[id].manifest.None?)
    && disk.journals - {id} == base.journals - {id}
  }

  /** While files are replaced or put back: each holds one of its versions, no marker is written. */
  ghost predicate Mixed(disk: Disk, base: Disk, id: JournalId, pending: seq<PendingWrite>, metadata: Option<Metadata>) {
    && disk.journals == base.journals[id := JournalOf(pending, metadata, false)] && disk.kept == base.kept
    && (forall k | 0 <= k < |pending| ::
          At(disk.files, pending[k].name) in {BeforeNode(pending[k]), AfterNode(pending[k]), RestoredNode(pending[k])})
    && (forall name | !Pends(pending, name) :: At(disk.files, name) == At(base.files, name))
    && (disk.selections == base.selections || disk.selections == Applied(base.selections, metadata)
        || disk.selections == Reverted(Applied(base.selections, metadata), metadata))
  }

  /** From the marker on: everything holds the new version. */
  ghost predicate Marked(disk: Disk, base: Disk, id: JournalId, pending: seq<PendingWrite>, metadata: Option<Metadata>) {
    && disk.journals == base.journals[id := JournalOf(pending, metadata, true)] && disk.kept == base.kept
    && AllAfter(disk, base, pending, metadata)
  }

  /** After an undone save: each file holds its original as text, and the journal is gone. */
  ghost predicate BackAgain(disk: Disk, base: Disk, pending: seq<PendingWrite>, metadata: Option<Metadata>) {
    && disk.journals == base.journals && disk.kept == base.kept
    && (forall k | 0 <= k < |pending| :: At(disk.files, pending[k].name) in {BeforeNode(pending[k]), RestoredNode(pending[k])})
    && (forall name | !Pends(pending, name) :: At(disk.files, name) == At(base.files, name))
    && (disk.selections == base.selections || disk.selections == Reverted(Applied(base.selections, metadata), metadata))
  }

  /** A crash point of a save before its marker is written, or of its undoing. */
  ghost predicate Unmarked(disk: Disk, base: Disk, id: JournalId, pending: seq<PendingWrite>, metadata: Option<Metadata>) {
    Opening(disk, base, id) || Mixed(disk, base, id, pending, metadata) || BackAgain(disk, base, pending, metadata)
  }

  /** A crash point from the marker on, the deletion of the journal included. */
  ghost predicate MarkedOrDone(disk: Disk, base: Disk, id: JournalId, pending: seq<PendingWrite>, metadata: Option<Metadata>) {
    || Marked(disk, base, id, pending, metadata)
    || (disk.journals == base.journals && disk.kept == base.kept && AllAfter(disk, base, pending, metadata))
  }

  /** The name of a pending write is the name of its journal entry. */
  lemma EntriesMirrorPlan(pending: seq<PendingWrite>)
    requires Distinct(Names(pending))
    ensures DistinctEntries(Entries(pending))
    ensures forall name :: Mentions(Entries(pending), name) <==> Pends(pending, name)
  {
    forall i, j | 0 <= i < j < |pending| ensures Entries(pending)[i].name != Entries(pending)[j].name {
      assert Names(pending)[i] != Names(pending)[j];
    }
    forall name ensures Mentions(Entries(pending), name) <==> Pends(pending, name) {
      if Pends(pending, name) {
        var k :| 0 <= k < |pending| && pending[k].name == name;
        assert Entries(pending)[k].name == name;
      }
      if k :| 0 <= k < |pending| && Entries(pending)[k].name == name {
        assert pending[k].name == name;
      }
    }
  }

  lemma {:induction false} ReplacedAt(files: Files, pending: seq<PendingWrite>, k: nat, name: Name)
    requires Distinct(Names(pending)) && k <= |pending|
    ensures (forall i | 0 <= i < k :: pending[i].name != name) ==> At(Replaced(files, pending, k), name) == At(files, name)
    ensures forall i | 0 <= i < k && pending[i].name == name :: At(Replaced(files, pending, k), name) == AfterNode(pending[i])
  {
    if k > 0 {
      ReplacedAt(files, pending, k - 1, name);
      forall i | 0 <= i < k - 1 ensures pending[i].name != pending[k - 1].name {
        assert Names(pending)[i] != Names(pending)[k - 1];
      }
    }
  }

  lemma SameFiles(a: Files, b: Files)
    requires forall name :: At(a, name) == At(b, name)
    ensures a == b
  {
    forall name ensures name in a <==> name in b {
      assert At(a, name) == At(b, name);
    }
    forall name | name in a ensures a[name] == b[name] {
      assert At(a, name) == At(b, name);
    }
  }

  /** One file of an unfinished save, as recovery finds and leaves it. */
  lemma SettleUnmarked(p: PendingWrite, journal: Journal, node: Option<Node>)
    requires !journal.committed
    requires |p.after| <= MAX_FILE_BYTES && (p.before.Some? ==> |p.before.value| <= MAX_FILE_BYTES)
    requires HashOf(p.before) != Some(Sha256(p.after))
    requires p.before.Some? ==> p.name in journal.before && journal.before[p.name] == p.before.value
    requires node in {BeforeNode(p), AfterNode(p), RestoredNode(p)}
    ensures var s := SettleFile(node, EntryOf(p), journal);
            && (s.node == BeforeNode(p) <==> node == BeforeNode(p) || Restorable(p))
            && (node == BeforeNode(p) || Restorable(p) ==> !s.unresolved)
  {
    if p.before.Some? {
      RereadKeepsExactlyText(p.before.value);
    }
  }

  /**
   Rolling an unfinished save back restores everything exactly when every file that was
   touched had well formed text before the save.
   */
  lemma RollbackIsExact(disk: Disk, base: Disk, id: JournalId, pending: seq<PendingWrite>, metadata: Option<Metadata>)
    requires ValidPlan(pending) && MatchesPlan(base.files, pending) && MetadataMatches(base.selections, metadata)
    requires id !in base.journals && Mixed(disk, base, id, pending, metadata)
    ensures Restart(disk, id).files == base.files
            <==> forall p | p in pending :: At(disk.files, p.name) == BeforeNode(p) || Restorable(p)
    ensures Restart(disk, id).files == base.files ==> Restart(disk, id).selections == base.selections && Restart(disk, id).journals == base.journals
  {
    hide SettleFiles, SettleFile, BeforeTexts, AfterTexts, Reread, ReadNode;
    var journal := disk.journals[id];
    var entries := Entries(pending);
    var settled := SettleFiles(disk.files, entries, journal);
    EntriesMirrorPlan(pending);
    forall k | 0 <= k < |pending|
      ensures var p := pending[k];
              var fine := At(disk.files, p.name) == BeforeNode(p) || Restorable(p);
              && (At(settled.files, p.name) == BeforeNode(p) <==> fine)
              && (fine ==> !SettleFile(At(disk.files, entries[k].name), entries[k], journal).unresolved)
    {
      assert pending[k] in pending;
      JournalHoldsBothVersions(pending, k);
      SettleUnmarked(pending[k], journal, At(disk.files, pending[k].name));
      SettleEach(disk.files, entries, journal, k);
    }
    forall name | !Pends(pending, name) ensures At(settled.files, name) == At(base.files, name) {
      SettleLeavesOthers(disk.files, entries, journal, name);
    }
    if forall p | p in pending :: At(disk.files, p.name) == BeforeNode(p) || Restorable(p) {
      forall k | 0 <= k < |pending| ensures At(disk.files, pending[k].name) == BeforeNode(pending[k]) || Restorable(pending[k]) {
        assert pending[k] in pending;
      }
      RollbackFiles(settled.files, base.files, pending);
      if settled.unresolved {
        var k := SettleBlame(disk.files, entries, journal);
        assert false;
      }
      RevertingTwice(base.selections, metadata);
      assert base.journals[id := journal] - {id} == base.journals;
    } else {
      var p :| p in pending && At(disk.files, p.name) != BeforeNode(p) && !Restorable(p);
      var k :| 0 <= k < |pending| && pending[k] == p;
      assert At(settled.files, p.name) != BeforeNode(p);
      assert At(base.files, pending[k].name) == BeforeNode(p);
    }
  }

  lemma RollbackFiles(files: Files, base: Files, pending: seq<PendingWrite>)
    requires MatchesPlan(base, pending) && MatchesPlan(files, pending)
    requires forall name | !Pends(pending, name) :: At(files, name) == At(base, name)
    ensures files == base
  {
    forall name ensures At(files, name) == At(base, name) {
      if Pends(pending, name) {
        var k :| 0 <= k < |pending| && pending[k].name == name;
        assert At(files, pending[k].name) == At(base, pending[k].name);
      }
    }
    SameFiles(files, base);
  }

  lemma RevertingTwice(selections: map<string, Selection>, metadata: Option<Metadata>)
    requires MetadataMatches(selections, metadata)
    ensures Reverted(Applied(selections, metadata), metadata) == selections
    ensures Reverted(Reverted(Applied(selections, metadata), metadata), metadata) == selections
  {
    if metadata.Some? {
      var m := metadata.value;
      var there := Select(selections, m.stack, Some(m.after));
      assert Select(there, m.stack, m.before) == Select(selections, m.stack, m.before);
      assert Select(Select(there, m.stack, m.before), m.stack, m.before) == Select(there, m.stack, m.before);
    }
  }

  /** Rolling a marked save forward ends with the new version of everything. */
  lemma RollForwardIsExact(disk: Disk, base: Disk, id: JournalId, pending: seq<PendingWrite>, metadata: Option<Metadata>)
    requires ValidPlan(pending) && id !in base.journals && Marked(disk, base, id, pending, metadata)
    ensures AllAfter(Restart(disk, id), base, pending, metadata) && Restart(disk, id).journals == base.journals
  {
    var journal := disk.journals[id];
    var entries := Entries(pending);
    var settled := SettleFiles(disk.files, entries, journal);
    EntriesMirrorPlan(pending);
    forall k | 0 <= k < |pending|
      ensures SettleFile(At(disk.files, entries[k].name), entries[k], journal) == Settled(At(disk.files, entries[k].name), false)
    {
      assert pending[k] in pending;
      ReplacedAt(base.files, pending, |pending|, pending[k].name);
    }
    if settled.unresolved {
      var k := SettleBlame(disk.files, entries, journal);
      assert false;
    }
    forall name ensures At(settled.files, name) == At(disk.files, name) {
      if Mentions(entries, name) {
        var k :| 0 <= k < |entries| && entries[k].name == name;
        SettleEach(disk.files, entries, journal, k);
      } else {
        SettleLeavesOthers(disk.files, entries, journal, name);
      }
    }
    SameFiles(settled.files, disk.files);
    assert base.journals[id := journal] - {id} == base.journals;
    if metadata.Some? {
      var m := metadata.value;
      assert Select(Select(base.selections, m.stack, Some(m.after)), m.stack, Some(m.after)) == Select(base.selections, m.stack, Some(m.after));
    }
  }

  /**
   A save can be rolled back exactly from every crash point before its marker if and only if
   each existing file it replaces holds well formed UTF-8.
   */
  lemma CrashSafeExactlyForText(base: Disk, id: JournalId, pending: seq<PendingWrite>, metadata: Option<Metadata>)
    requires ValidPlan(pending) && MatchesPlan(base.files, pending) && MetadataMatches(base.selections, metadata)
    requires id !in base.journals
    ensures (forall disk | Mixed(disk, base, id, pending, metadata) :: AllBefore(Restart(disk, id), base))
            <==> forall p | p in pending :: Restorable(p)
  {
    hide SettleFiles, SettleFile, BeforeTexts, AfterTexts, Recover, Mixed;
    if forall p | p in pending :: Restorable(p) {
      forall disk | Mixed(disk, base, id, pending, metadata) ensures AllBefore(Restart(disk, id), base) {
        RollbackIsExact(disk, base, id, pending, metadata);
      }
    } else {
      var p :| p in pending && !Restorable(p);
      var disk := base.(files := Replaced(base.files, pending, |pending|), journals := base.journals[id := JournalOf(pending, metadata, false)]);
      AllReplacedIsMixed(base, id, pending, metadata);
      RollbackIsExact(disk, base, id, pending, metadata);
      var k :| 0 <= k < |pending| && pending[k] == p;
      ReplacedAt(base.files, pending, |pending|, p.name);
    }
  }

  /** The crash point right before the marker is one of those a save goes through. */
  lemma AllReplacedIsMixed(base: Disk, id: JournalId, pending: seq<PendingWrite>, metadata: Option<Metadata>)
    requires ValidPlan(pending)
    ensures Mixed(base.(files := Replaced(base.files, pending, |pending|), journals := base.journals[id := JournalOf(pending, metadata, false)]),
                  base, id, pending, metadata)
  {
    forall name ensures Pends(pending, name) || At(Replaced(base.files, pending, |pending|), name) == At(base.files, name) {
      ReplacedAt(base.files, pending, |pending|, name);
    }
    forall k | 0 <= k < |pending| ensures At(Replaced(base.files, pending, |pending|), pending[k].name) == AfterNode(pending[k]) {
      ReplacedAt(base.files, pending, |pending|, pending[k].name);
    }
  }

  /** The files once m were replaced and all of them from the k-th on were put back. */
  function Unwound(files: Files, pending: seq<PendingWrite>, m: nat, k: nat): Files
    requires k <= m <= |pending|
    decreases m - k
  {
    if k == m then Replaced(files, pending, m) else Put(Unwound(files, pending, m, k + 1), pending[k].name, RestoredNode(pending[k]))
  }

  lemma {:induction false} UnwoundAt(files: Files, pending: seq<PendingWrite>, m: nat, k: nat, name: Name)
    requires Distinct(Names(pending)) && k <= m <= |pending|
    ensures (forall i | 0 <= i < m :: pending[i].name != name) ==> At(Unwound(files, pending, m, k), name) == At(files, name)
    ensures forall i | 0 <= i < m && pending[i].name == name ::
      At(Unwound(files, pending, m, k), name) == if i < k then AfterNode(pending[i]) else RestoredNode(pending[i])
    decreases m - k
  {
    ReplacedAt(files, pending, m, name);
    if k < m {
      UnwoundAt(files, pending, m, k + 1, name);
      forall i | 0 <= i < m && i != k ensures pending[i].name != pending[k].name {
        assert Names(pending)[i] != Names(pending)[k];
      }
    }
  }

  /** Every disk on the way forward and on the way back is a crash point the recovery understands. */
  lemma UnwoundIsMixed(disk: Disk, base: Disk, id: JournalId, pending: seq<PendingWrite>, metadata: Option<Metadata>, m: nat, k: nat)
    requires ValidPlan(pending) && MatchesPlan(base.files, pending) && k <= m <= |pending|
    requires disk.files == Unwound(base.files, pending, m, k)
    requires disk.journals == base.journals[id := JournalOf(pending, metadata, false)] && disk.kept == base.kept
    requires disk.selections in {base.selections, Applied(base.selections, metadata), Reverted(Applied(base.selections, metadata), metadata)}
    ensures Mixed(disk, base, id, pending, metadata)
  {
    forall i | 0 <= i < |pending|
      ensures At(disk.files, pending[i].name) in {BeforeNode(pending[i]), AfterNode(pending[i]), RestoredNode(pending[i])}
    {
      UnwoundAt(base.files, pending, m, k, pending[i].name);
      if i >= m {
        forall j | 0 <= j < m ensures pending[j].name != pending[i].name {
          assert Names(pending)[j] != Names(pending)[i];
        }
      }
    }
    forall name | !Pends(pending, name) ensures At(disk.files, name) == At(base.files, name) {
      UnwoundAt(base.files, pending, m, k, name);
    }
  }

  /** Undoing what was replaced restores the files exactly when each original was well formed text. */
  lemma UndoIsExact(files: Files, pending: seq<PendingWrite>, m: nat)
    requires ValidPlan(pending) && MatchesPlan(files, pending) && m <= |pending|
    ensures Unwound(files, pending, m, 0) == files <==> forall k | 0 <= k < m :: Restorable(pending[k])
  {
    var undone := Unwound(files, pending, m, 0);
    forall k | 0 <= k < m ensures At(undone, pending[k].name) == RestoredNode(pending[k])
                          ensures RestoredNode(pending[k]) == BeforeNode(pending[k]) <==> Restorable(pending[k])
    {
      UnwoundAt(files, pending, m, 0, pending[k].name);
      if pending[k].before.Some? {
        RereadKeepsExactlyText(pending[k].before.value);
      }
    }
    if forall k | 0 <= k < m :: Restorable(pending[k]) {
      forall name ensures At(undone, name) == At(files, name) {
        UnwoundAt(files, pending, m, 0, name);
        if i :| 0 <= i < m && pending[i].name == name {
          assert At(undone, pending[i].name) == At(files, pending[i].name);
        }
      }
      SameFiles(undone, files);
    }
  }

  lemma UnwoundIsBack(disk: Disk, base: Disk, pending: seq<PendingWrite>, metadata: Option<Metadata>, m: nat)
    requires ValidPlan(pending) && MatchesPlan(base.files, pending) && m <= |pending|
    requires disk.files == Unwound(base.files, pending, m, 0)
    requires disk.journals == base.journals && disk.kept == base.kept
    requires disk.selections in {base.selections, Reverted(Applied(base.selections, metadata), metadata)}
    ensures BackAgain(disk, base, pending, metadata)
  {
    forall i | 0 <= i < |pending| ensures At(disk.files, pending[i].name) in {BeforeNode(pending[i]), RestoredNode(pending[i])} {
      UnwoundAt(base.files, pending, m, 0, pending[i].name);
      if i >= m {
        forall j | 0 <= j < m ensures pending[j].name != pending[i].name {
          assert Names(pending)[j] != Names(pending)[i];
        }
      }
    }
    forall name | !Pends(pending, name) ensures At(disk.files, name) == At(base.files, name) {
      UnwoundAt(base.files, pending, m, 0, name);
    }
  }

  /**
   The start after a crash: everything is at the version from before the save when the crash
   came before the marker, and at the version the save wanted when it came after it.
   */
  lemma RestartAfterCrash(disk: Disk, base: Disk, id: JournalId, pending: seq<PendingWrite>, metadata: Option<Metadata>)
    requires ValidPlan(pending) && MatchesPlan(base.files, pending) && MetadataMatches(base.selections, metadata)
    requires id !in base.journals && forall p | p in pending :: Restorable(p)
    ensures Unmarked(disk, base, id, pending, metadata) ==> AllBefore(Restart(disk, id), base)
    ensures MarkedOrDone(disk, base, id, pending, metadata) ==> AllAfter(Restart(disk, id), base, pending, metadata)
  {
    if Mixed(disk, base, id, pending, metadata) {
      RollbackIsExact(disk, base, id, pending, metadata);
    } else if BackAgain(disk, base, pending, metadata) {
      forall k | 0 <= k < |pending| ensures At(disk.files, pending[k].name) == BeforeNode(pending[k]) {
        assert pending[k] in pending;
        if pending[k].before.Some? {
          RereadKeepsExactlyText(pending[k].before.value);
        }
      }
      RollbackFiles(disk.files, base.files, pending);
      RevertingTwice(base.selections, metadata);
    }
    if Marked(disk, base, id, pending, metadata) {
      RollForwardIsExact(disk, base, id, pending, metadata);
    }
  }

  // ---------------------------------------------------------------- repeating the recovery, third texts

  /** Files a recovery that was cut short may leave: each entry still as found, or already settled. */
  ghost predicate PartlySettled(files: Files, start: Files, entries: seq<JournalFile>, journal: Journal) {
    && (forall k | 0 <= k < |entries| ::
          At(files, entries[k].name) in {At(start, entries[k].name), SettleFile(At(start, entries[k].name), entries[k], journal).node})
    && (forall name | !Mentions(entries, name) :: At(files, name) == At(start, name))
  }

  /** Recovery started again after a crash inside it ends with the same files. */
  lemma RecoveryCanBeRepeated(files: Files, start: Files, entries: seq<JournalFile>, journal: Journal)
    requires DistinctEntries(entries) && PartlySettled(files, start, entries, journal)
    ensures SettleFiles(files, entries, journal).files == SettleFiles(start, entries, journal).files
  {
    var again, once := SettleFiles(files, entries, journal).files, SettleFiles(start, entries, journal).files;
    forall name ensures At(again, name) == At(once, name) {
      if Mentions(entries, name) {
        var k :| 0 <= k < |entries| && entries[k].name == name;
        SettleEach(files, entries, journal, k);
        SettleEach(start, entries, journal, k);
        SettleTwice(At(start, name), entries[k], journal);
      } else {
        SettleLeavesOthers(files, entries, journal, name);
        SettleLeavesOthers(start, entries, journal, name);
      }
    }
    SameFiles(again, once);
  }

  predicate AreBytesOf(bytes: Bytes, hash: Option<Hash>) {
    |bytes| <= MAX_FILE_BYTES && Some(Sha256(bytes)) == hash
  }

  /** The journal holds what its hashes say: the new texts, and originals that need not be text. */
  predicate SoundJournal(journal: Journal) {
    journal.manifest.Some?
    && var entries := journal.manifest.value.files;
       && DistinctEntries(entries)
       && forall e | e in entries ::
            && e.name in journal.after && AreBytesOf(journal.after[e.name], Some(e.afterHash)) && WellFormed(journal.after[e.name])
            && (e.beforeHash.Some? ==> e.name in journal.before && AreBytesOf(journal.before[e.name], e.beforeHash))
  }

  predicate HoldsOwnText(files: Files, entry: JournalFile) {
    ReadNode(At(files, entry.name)).Success?
    && ReadNode(At(files, entry.name)).value.hash in {entry.beforeHash, Some(entry.afterHash)}
  }

  /** The wanted version is one the journal can bring back: no file at all, or well formed text. */
  predicate Returnable(journal: Journal, entry: JournalFile) {
    var texts := if journal.committed then journal.after else journal.before;
    Wanted(entry, journal.committed).None? || (entry.name in texts && WellFormed(texts[entry.name]))
  }

  lemma SoundText(journal: Journal, entry: JournalFile)
    requires SoundJournal(journal) && entry in journal.manifest.value.files && Wanted(entry, journal.committed).Some?
    ensures KeptText(journal, entry.name).Some?
    ensures Returnable(journal, entry) <==> Some(Sha256(KeptText(journal, entry.name).value)) == Wanted(entry, journal.committed)
    ensures Returnable(journal, entry) ==> |KeptText(journal, entry.name).value| <= MAX_FILE_BYTES
  {
    RereadKeepsExactlyText((if journal.committed then journal.after else journal.before)[entry.name]);
  }

  /** What recovery does to one file of a sound journal. */
  lemma SettleSound(node: Option<Node>, entry: JournalFile, journal: Journal)
    requires SoundJournal(journal) && entry in journal.manifest.value.files
    ensures var s, read := SettleFile(node, entry, journal), ReadNode(node);
            && (s.unresolved <==> !(read.Success? && read.value.hash in {entry.beforeHash, Some(entry.afterHash)}))
            && (s.unresolved ==> s.node == node)
            && (!s.unresolved ==>
                  (HoldsText(s.node, Wanted(entry, journal.committed)) <==> HoldsText(node, Wanted(entry, journal.committed)) || Returnable(journal, entry)))
  {
    if Wanted(entry, journal.committed).Some? {
      SoundText(journal, entry);
    }
  }

  /**
   A journal leaves its place exactly as follows. If every file held one of its two versions
   it is deleted, and a file then holds the wanted version exactly when it did so before or
   that version is text; otherwise the journal is kept, the selection stays, and a file that
   held a third text keeps it.
   */
  lemma JournalGoesOnlyWhenSettled(disk: Disk, id: JournalId)
    requires id in disk.journals && SoundJournal(disk.journals[id])
    ensures var j, r := disk.journals[id], Recover(disk, id);
            var entries := j.manifest.value.files;
            && id !in r.journals
            && (if forall e | e in entries :: HoldsOwnText(disk.files, e)
                then r.kept == disk.kept && r.selections == SettledSelection(disk.selections, j)
                else r.kept == disk.kept[id := j] && r.selections == disk.selections)
            && (forall e | e in entries ::
                  if HoldsOwnText(disk.files, e)
                  then HoldsText(At(r.files, e.name), Wanted(e, j.committed)) <==> HoldsText(At(disk.files, e.name), Wanted(e, j.committed)) || Returnable(j, e)
                  else At(r.files, e.name) == At(disk.files, e.name))
  {
    hide SettleFile, SettleFiles, Returnable, Wanted, HoldsText;
    var j := disk.journals[id];
    var entries := j.manifest.value.files;
    forall e | e in entries
      ensures var s := SettleFile(At(disk.files, e.name), e, j);
              && At(Recover(disk, id).files, e.name) == s.node
              && (s.unresolved <==> !HoldsOwnText(disk.files, e))
              && (s.unresolved ==> SettleFiles(disk.files, entries, j).unresolved && s.node == At(disk.files, e.name))
              && (!s.unresolved ==>
                    (HoldsText(s.node, Wanted(e, j.committed)) <==> HoldsText(At(disk.files, e.name), Wanted(e, j.committed)) || Returnable(j, e)))
    {
      var k :| 0 <= k < |entries| && entries[k] == e;
      SettleEach(disk.files, entries, j, k);
      SettleSound(At(disk.files, e.name), e, j);
    }
    if SettleFiles(disk.files, entries, j).unresolved {
      var k := SettleBlame(disk.files, entries, j);
      assert entries[k] in entries;
    }
  }

  /** A start that repairs several journals one after the other. */
  function RecoverAll(disk: Disk, ids: seq<JournalId>): Disk {
    if |ids| == 0 then disk else Restart(RecoverAll(disk, ids[..|ids| - 1]), ids[|ids| - 1])
  }

  /** What is put back for a file is neither of its versions, so a second start would not know it. */
  predicate Unrecognised(journal: Journal, entry: JournalFile) {
    && Wanted(entry, journal.committed).Some? && KeptText(journal, entry.name).Some?
    && Some(Sha256(KeptText(journal, entry.name).value)) !in {entry.beforeHash, Some(entry.afterHash)}
  }

  /** The file holds the version the journal is rid of, so recovery replaces it. */
  predicate NeedsReturn(files: Files, entry: JournalFile, journal: Journal) {
    var read := ReadNode(At(files, entry.name));
    read.Success? && read.value.hash == Other(entry, journal.committed) != Wanted(entry, journal.committed)
  }

  /** Recovery of this journal may be cut short and repeated. */
  ghost predicate Repeatable(start: Disk, id: JournalId)
    requires id in start.journals && start.journals[id].manifest.Some?
  {
    var journal := start.journals[id];
    || SettleFiles(start.files, journal.manifest.value.files, journal).unresolved
    || forall e | e in journal.manifest.value.files && NeedsReturn(start.files, e, journal) :: !Unrecognised(journal, e)
  }

  /** A second look at a settled file reports it exactly when what was put back is not recognised. */
  lemma SettleAgain(node: Option<Node>, entry: JournalFile, journal: Journal)
    requires SoundJournal(journal) && entry in journal.manifest.value.files
    requires !SettleFile(node, entry, journal).unresolved
    ensures var read := ReadNode(node);
            SettleFile(SettleFile(node, entry, journal).node, entry, journal).unresolved
            <==> read.Success? && read.value.hash == Other(entry, journal.committed) != Wanted(entry, journal.committed) && Unrecognised(journal, entry)
  {
    if Wanted(entry, journal.committed).Some? {
      SoundText(journal, entry);
      var text := KeptText(journal, entry.name).value;
      if Some(Sha256(text)) == Some(entry.afterHash) {
        assert text == journal.after[entry.name];
      }
      if Some(Sha256(text)) == entry.beforeHash {
        assert text == journal.before[entry.name];
      }
    }
  }

  /**
   Another start after a crash anywhere inside the recovery ends exactly where one start would
   have, if and only if no file has to be put back whose text is neither of its two versions,
   or some other file stops the recovery anyway.
   */
  lemma RecoveryRepeats(start: Disk, id: JournalId)
    requires id in start.journals && SoundJournal(start.journals[id]) && id !in start.kept
    ensures (forall disk | InRecovery(disk, start, id) :: Restart(disk, id) == Recover(start, id)) <==> Repeatable(start, id)
  {
    if Repeatable(start, id) {
      forall disk | InRecovery(disk, start, id) ensures Restart(disk, id) == Recover(start, id) {
        RepeatedStart(disk, start, id);
      }
    } else {
      var disk := CutShort(start, id);
    }
  }

  /** A crash right after such a file was put back: the next start no longer knows its text and keeps the journal. */
  lemma CutShort(start: Disk, id: JournalId) returns (disk: Disk)
    requires id in start.journals && SoundJournal(start.journals[id]) && id !in start.kept && !Repeatable(start, id)
    ensures InRecovery(disk, start, id) && Restart(disk, id) != Recover(start, id)
  {
    var journal := start.journals[id];
    var entries := journal.manifest.value.files;
    var k := ReturnedUnrecognised(start.files, entries, journal);
    hide SettleFile, SettleFiles, SoundJournal, PartlySettled;
    disk := start.(files := Put(start.files, entries[k].name, SettleFile(At(start.files, entries[k].name), entries[k], journal).node));
    SettleEach(disk.files, entries, journal, k);
    assert id in Restart(disk, id).kept && id !in Recover(start, id).kept;
  }

  lemma ReturnedUnrecognised(files: Files, entries: seq<JournalFile>, journal: Journal) returns (k: nat)
    requires SoundJournal(journal) && entries == journal.manifest.value.files
    requires exists e :: e in entries && NeedsReturn(files, e, journal) && Unrecognised(journal, e)
    ensures DistinctEntries(entries) && k < |entries|
    ensures var s := SettleFile(At(files, entries[k].name), entries[k], journal);
            && PartlySettled(Put(files, entries[k].name, s.node), files, entries, journal)
            && SettleFile(At(Put(files, entries[k].name, s.node), entries[k].name), entries[k], journal).unresolved
  {
    var e :| e in entries && NeedsReturn(files, e, journal) && Unrecognised(journal, e);
    k :| 0 <= k < |entries| && entries[k] == e;
    SettleSound(At(files, e.name), e, journal);
    SettleAgain(At(files, e.name), e, journal);
    SoundIsDistinct(journal);
    hide SettleFile, NeedsReturn, Unrecognised, SoundJournal;
    OneIsPartlySettled(files, entries, journal, k);
  }

  lemma OneIsPartlySettled(files: Files, entries: seq<JournalFile>, journal: Journal, k: nat)
    requires DistinctEntries(entries) && k < |entries|
    ensures PartlySettled(Put(files, entries[k].name, SettleFile(At(files, entries[k].name), entries[k], journal).node), files, entries, journal)
  {
    hide SettleFile;
    forall i | 0 <= i < |entries| && i != k ensures entries[i].name != entries[k].name {
    }
    forall name | !Mentions(entries, name) ensures name != entries[k].name {
    }
  }

  lemma RepeatedStart(disk: Disk, start: Disk, id: JournalId)
    requires id in start.journals && SoundJournal(start.journals[id]) && Repeatable(start, id) && InRecovery(disk, start, id)
    ensures Restart(disk, id) == Recover(start, id)
  {
    hide SettleFile, SettleFiles, SettledSelection, NeedsReturn, Unrecognised;
    var journal := start.journals[id];
    var entries := journal.manifest.value.files;
    if id in disk.journals {
      assert DistinctEntries(entries);
      RecoveryCanBeRepeated(disk.files, start.files, entries, journal);
      SameVerdict(disk.files, start.files, entries, journal);
      SettledSelectionTwice(start.selections, journal);
    }
  }

  lemma SettledSelectionTwice(selections: map<string, Selection>, journal: Journal)
    requires journal.manifest.Some?
    ensures SettledSelection(SettledSelection(selections, journal), journal) == SettledSelection(selections, journal)
  {
  }

  lemma SameVerdict(files: Files, start: Files, entries: seq<JournalFile>, journal: Journal)
    requires SoundJournal(journal) && entries == journal.manifest.value.files && PartlySettled(files, start, entries, journal)
    requires || SettleFiles(start, entries, journal).unresolved
             || forall e | e in entries && NeedsReturn(start, e, journal) :: !Unrecognised(journal, e)
    ensures SettleFiles(files, entries, journal).unresolved <==> SettleFiles(start, entries, journal).unresolved
  {
    hide SettleFile, SettleFiles, Unrecognised, SoundJournal;
    assert DistinctEntries(entries) by { SoundIsDistinct(journal); }
    if SettleFiles(start, entries, journal).unresolved {
      var k := SettleBlame(start, entries, journal);
      UnresolvedStays(At(start, entries[k].name), entries[k], journal);
      SettleEach(files, entries, journal, k);
    } else if SettleFiles(files, entries, journal).unresolved {
      var k := SettleBlame(files, entries, journal);
      SettleEach(start, entries, journal, k);
      assert entries[k] in entries;
      SettleAgain(At(start, entries[k].name), entries[k], journal);
      assert false;
    }
  }

  lemma SoundIsDistinct(journal: Journal)
    requires SoundJournal(journal)
    ensures DistinctEntries(journal.manifest.value.files)
  {
  }

  lemma UnresolvedStays(node: Option<Node>, entry: JournalFile, journal: Journal)
    requires SettleFile(node, entry, journal).unresolved
    ensures SettleFile(node, entry, journal).node == node
  {
  }

  /** A disk the recovery of one journal goes through. */
  ghost predicate InRecovery(disk: Disk, start: Disk, id: JournalId)
    requires id in start.journals && start.journals[id].manifest.Some?
  {
    var journal := start.journals[id];
    var entries := journal.manifest.value.files;
    || (disk == start.(files := disk.files, selections := disk.selections)
        && PartlySettled(disk.files, start.files, entries, journal)
        && (disk.selections == start.selections
            || (!SettleFiles(start.files, entries, journal).unresolved && disk.selections == SettledSelection(start.selections, journal))))
    || disk == Recover(start, id)
  }

  /**
   Every start tries the journals it finds, those of saves that ended long ago included, whatever
   was saved since. Such a journal changes a file exactly when the file happens
   to hold the version that journal wants to be rid of.
   */
  lemma LeftoverJournalChangesExactly(disk: Disk, id: JournalId, k: nat)
    requires id in disk.journals && SoundJournal(disk.journals[id]) && k < |disk.journals[id].manifest.value.files|
    ensures var j := disk.journals[id];
            var e := j.manifest.value.files[k];
            if NeedsReturn(disk.files, e, j)
            then HoldsText(At(Recover(disk, id).files, e.name), HashOf(if Wanted(e, j.committed).None? then None else KeptText(j, e.name)))
            else At(Recover(disk, id).files, e.name) == At(disk.files, e.name)
  {
    var j := disk.journals[id];
    var e := j.manifest.value.files[k];
    SettleEach(disk.files, j.manifest.value.files, j, k);
    assert e in j.manifest.value.files;
    if Wanted(e, j.committed).Some? {
      SoundText(j, e);
    }
  }
}
