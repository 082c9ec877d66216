/**
 Reading the objects that `git cat-file --batch` prints one after another.

 Each object comes as a header line, its bytes and a newline. The bytes may hold newlines
 and text that looks like a header; the sizes asked for say where each object ends.
 */
module GitBatch {
  import opened Results

  newtype byte = i: int | 0 <= i < 0x100

  type Bytes = seq<byte>

  const NEWLINE: byte := 10
  const BLOB: Bytes := [32, 98, 108, 111, 98, 32]

  /** One object asked for; ids are hexadecimal. */
  datatype Entry = Entry(name: string, id: Bytes, size: nat)

  function Digits(n: nat): (digits: Bytes)
    ensures NEWLINE !in digits
  {
    if n < 10 then [48 + n as byte] else Digits(n / 10) + [48 + (n % 10) as byte]
  }

  function ReadDigits(digits: Bytes): int {
    if |digits| == 0 then 0 else 10 * ReadDigits(digits[..|digits| - 1]) + (digits[|digits| - 1] as int - 48)
  }

  /** The size is written in decimal, as short as it can be. */
  lemma {:induction false} DigitsReadBack(n: nat)
    ensures ReadDigits(Digits(n)) == n && |Digits(n)| > 0
    ensures forall d | d in Digits(n) :: 48 <= d <= 57
    ensures n > 0 ==> Digits(n)[0] != 48
  {
    if n >= 10 {
      DigitsReadBack(n / 10);
      assert (Digits(n / 10) + [48 + (n % 10) as byte])[..|Digits(n / 10)|] == Digits(n / 10);
    } else {
      assert [48 + n as byte][..0] == [];
      assert ReadDigits([]) == 0;
    }
  }

  /** The middle of a header is the word `blob` between two spaces. */
  lemma BlobSpells()
    ensures |BLOB| == |" blob "| && forall i | 0 <= i < |BLOB| :: BLOB[i] as int == " blob "[i] as int
  {
  }

  function Header(entry: Entry): Bytes {
    entry.id + BLOB + Digits(entry.size)
  }

  predicate HexId(entry: Entry) {
    NEWLINE !in entry.id
  }

  function PrintedObject(entry: Entry, content: Bytes): Bytes {
    Header(entry) + [NEWLINE] + content + [NEWLINE]
  }

  function Printed(entries: seq<Entry>, contents: seq<Bytes>): Bytes
    requires |contents| == |entries|
  {
    if |entries| == 0 then [] else PrintedObject(entries[0], contents[0]) + Printed(entries[1..], contents[1..])
  }

  /** The batch starts with exactly these objects, printed. */
  predicate StartsWith(batch: Bytes, entries: seq<Entry>, contents: seq<Bytes>) {
    && |contents| == |entries|
    && (forall i | 0 <= i < |entries| :: |contents[i]| == entries[i].size)
    && Printed(entries, contents) <= batch
  }

  /** The files read, by name; a later entry of the same name wins. */
  function TreeOf(entries: seq<Entry>, contents: seq<Bytes>): map<string, Bytes>
    requires |contents| == |entries|
  {
    if |entries| == 0 then map[]
    else TreeOf(entries[..|entries| - 1], contents[..|entries| - 1])[entries[|entries| - 1].name := contents[|entries| - 1]]
  }

  /** Exactly the names of the entries are there. */
  lemma {:induction false} TreeNames(entries: seq<Entry>, contents: seq<Bytes>)
    requires |contents| == |entries|
    ensures forall name :: name in TreeOf(entries, contents) <==> exists i :: 0 <= i < |entries| && entries[i].name == name
  {
    if |entries| > 0 {
      var n := |entries| - 1;
      TreeNames(entries[..n], contents[..n]);
      forall name ensures name in TreeOf(entries, contents) <==> exists i :: 0 <= i < |entries| && entries[i].name == name {
        if i :| 0 <= i < n && entries[..n][i].name == name {
          assert entries[i].name == name;
        }
        if i :| 0 <= i < |entries| && entries[i].name == name {
          assert i < n ==> entries[..n][i].name == name;
        }
      }
    }
  }

  /** And each leads to the contents of its last entry. */
  lemma {:induction false} TreeHolds(entries: seq<Entry>, contents: seq<Bytes>, i: nat)
    requires |contents| == |entries| && i < |entries| && LastOfName(entries, i)
    ensures entries[i].name in TreeOf(entries, contents) && TreeOf(entries, contents)[entries[i].name] == contents[i]
  {
    var n := |entries| - 1;
    if i < n {
      assert entries[n].name != entries[i].name && entries[..n][i] == entries[i];
      TreeHolds(entries[..n], contents[..n], i);
    }
  }

  predicate LastOfName(entries: seq<Entry>, i: nat)
    requires i < |entries|
  {
    forall j | i < j < |entries| :: entries[j].name != entries[i].name
  }

  /** Where the printing of an entry begins: after those of all entries before it. */
  function PlaceOf(entries: seq<Entry>, i: nat): nat
    requires i <= |entries|
  {
    if i == 0 then 0 else PlaceOf(entries, i - 1) + |Header(entries[i - 1])| + 1 + entries[i - 1].size + 1
  }

  /** The bytes that stand behind the header of an entry. */
  predicate Holds(batch: Bytes, entries: seq<Entry>, i: nat, content: Bytes)
    requires i < |entries|
  {
    var start := PlaceOf(entries, i) + |Header(entries[i])| + 1;
    StandsAt(batch, PlaceOf(entries, i), entries[i]) && content == batch[start..start + entries[i].size]
  }

  /** The first newline from an offset on. */
  method IndexOf(batch: Bytes, offset: nat) returns (found: Option<nat>)
    requires offset <= |batch|
    ensures found.Some? ==> offset <= found.value < |batch| && batch[found.value] == NEWLINE && NEWLINE !in batch[offset..found.value]
    ensures found.None? ==> NEWLINE !in batch[offset..]
  {
    var index := offset;
    while index < |batch|
      invariant offset <= index <= |batch| && NEWLINE !in batch[offset..index]
    {
      if batch[index] == NEWLINE {
        return Some(index);
      }
      index := index + 1;
    }
    return None;
  }

  /** One object is read where its header line, its bytes and a newline stand. */
  predicate StandsAt(batch: Bytes, offset: nat, entry: Entry) {
    var start := offset + |Header(entry)| + 1;
    && start + entry.size < |batch|
    && batch[offset..start - 1] == Header(entry) && batch[start - 1] == NEWLINE && batch[start + entry.size] == NEWLINE
  }

  /** The line up to the first newline is the header, with the bytes and a newline after it. */
  predicate LineStands(batch: Bytes, offset: nat, headerEnd: Option<nat>, entry: Entry) {
    && headerEnd.Some? && offset <= headerEnd.value && headerEnd.value + 1 + entry.size < |batch|
    && batch[offset..headerEnd.value] == Header(entry)
    && batch[headerEnd.value + 1 + entry.size] == NEWLINE
  }

  /** The first newline ends the header, so comparing up to it is comparing the whole line. */
  lemma HeaderEndsAtNewline(batch: Bytes, offset: nat, entry: Entry, headerEnd: Option<nat>)
    requires HexId(entry) && offset <= |batch|
    requires headerEnd.Some? ==>
               offset <= headerEnd.value < |batch| && batch[headerEnd.value] == NEWLINE && NEWLINE !in batch[offset..headerEnd.value]
    requires headerEnd.None? ==> NEWLINE !in batch[offset..]
    ensures LineStands(batch, offset, headerEnd, entry) <==> StandsAt(batch, offset, entry)
  {
    var line, end := offset + |Header(entry)|, if headerEnd.Some? then headerEnd.value else |batch|;
    assert forall k | offset <= k < end :: batch[offset..end][k - offset] == batch[k];
    assert batch[offset..] == batch[offset..|batch|];
    if StandsAt(batch, offset, entry) {
      assert NEWLINE !in batch[offset..line];
      assert forall k | offset <= k < line :: batch[offset..line][k - offset] == batch[k];
      assert end == line;
    }
  }

  /** A batch starts with some objects if the first stands there and the others follow it. */
  lemma StartsWithOne(batch: Bytes, entries: seq<Entry>, contents: seq<Bytes>)
    requires |entries| > 0 && |contents| == |entries| && |contents[0]| == entries[0].size
    ensures StartsWith(batch, entries, contents)
      <==> && PrintedObject(entries[0], contents[0]) <= batch
           && StartsWith(batch[|PrintedObject(entries[0], contents[0])|..], entries[1..], contents[1..])
  {
    var first, rest := PrintedObject(entries[0], contents[0]), Printed(entries[1..], contents[1..]);
    assert Printed(entries, contents) == first + rest;
    if first <= batch {
      PrefixOfConcat(batch, first, rest);
    }
    assert (forall i | 0 <= i < |entries| :: |contents[i]| == entries[i].size)
      <==> (forall i | 0 <= i < |entries[1..]| :: |contents[1..][i]| == entries[1..][i].size) by {
      if forall i | 0 <= i < |entries[1..]| :: |contents[1..][i]| == entries[1..][i].size {
        forall i | 0 <= i < |entries| ensures |contents[i]| == entries[i].size {
          assert i > 0 ==> contents[i] == contents[1..][i - 1] && entries[i] == entries[1..][i - 1];
        }
      }
    }
  }

  lemma PrefixOfConcat(batch: Bytes, first: Bytes, rest: Bytes)
    requires first <= batch
    ensures first + rest <= batch <==> rest <= batch[|first|..]
  {
    if rest <= batch[|first|..] {
      assert batch == first + batch[|first|..];
    }
    if first + rest <= batch {
      assert batch[|first|..][..|rest|] == (first + rest)[|first|..];
    }
  }

  lemma PrintedStands(batch: Bytes, offset: nat, entry: Entry, content: Bytes)
    requires offset <= |batch| && |content| == entry.size
    ensures PrintedObject(entry, content) <= batch[offset..]
      <==> StandsAt(batch, offset, entry)
           && content == batch[offset + |Header(entry)| + 1..offset + |Header(entry)| + 1 + entry.size]
  {
    var h := Header(entry);
    var printed, n := PrintedObject(entry, content), |h| + 1;
    assert |printed| == n + |content| + 1;
    if printed <= batch[offset..] {
      assert forall k | 0 <= k < |printed| :: batch[offset + k] == printed[k];
      assert printed[..|h|] == h && printed[|h|] == NEWLINE && printed[n..n + |content|] == content && printed[n + |content|] == NEWLINE;
      assert batch[offset..offset + |h|] == h;
      assert batch[offset + n..offset + n + |content|] == content;
    }
    if StandsAt(batch, offset, entry) && content == batch[offset + n..offset + n + entry.size] {
      assert batch[offset..offset + |printed|] == batch[offset..offset + |h|] + [batch[offset + |h|]] + content + [batch[offset + n + entry.size]];
      assert batch[offset..][..|printed|] == batch[offset..offset + |printed|];
    }
  }

  /** Reading one more object at an offset goes on with the objects after it. */
  lemma OneMoreObject(batch: Bytes, entries: seq<Entry>, index: nat, offset: nat, contents: seq<Bytes>)
    requires index < |entries| == |contents| && offset <= |batch|
    ensures var start := offset + |Header(entries[index])| + 1;
            StartsWith(batch[offset..], entries[index..], contents[index..])
            <==> && StandsAt(batch, offset, entries[index])
                 && contents[index] == batch[start..start + entries[index].size]
                 && StartsWith(batch[start + entries[index].size + 1..], entries[index + 1..], contents[index + 1..])
  {
    var entry, content := entries[index], contents[index];
    assert entries[index..][1..] == entries[index + 1..] && contents[index..][1..] == contents[index + 1..];
    assert entries[index..][0] == entry && contents[index..][0] == content;
    if |content| == entry.size {
      StartsWithOne(batch[offset..], entries[index..], contents[index..]);
      PrintedStands(batch, offset, entry, content);
      var n := |PrintedObject(entry, content)|;
      assert n == |Header(entry)| + 1 + entry.size + 1;
      if offset + n <= |batch| {
        assert batch[offset..][n..] == batch[offset + n..];
      }
    }
  }

  lemma NothingLeft(batch: Bytes)
    ensures StartsWith(batch, [], [])
  {
  }

  /** Whatever the batch prints begins with what was read, and goes on at the offset. */
  ghost predicate ReadSoFar(batch: Bytes, entries: seq<Entry>, index: nat, offset: nat, contents: seq<Bytes>) {
    && index <= |entries| && offset <= |batch| && |contents| == index
    && forall other: seq<Bytes> | |other| == |entries| ::
         StartsWith(batch, entries, other) <==> other[..index] == contents && StartsWith(batch[offset..], entries[index..], other[index..])
  }

  /** An object that stands at the offset is part of them all; if it does not, there are none. */
  lemma NextObject(batch: Bytes, entries: seq<Entry>, index: nat, offset: nat, contents: seq<Bytes>)
    requires ReadSoFar(batch, entries, index, offset, contents) && index < |entries|
    ensures var start := offset + |Header(entries[index])| + 1;
            if StandsAt(batch, offset, entries[index])
            then ReadSoFar(batch, entries, index + 1, start + entries[index].size + 1, contents + [batch[start..start + entries[index].size]])
            else forall other: seq<Bytes> :: !StartsWith(batch, entries, other)
  {
    var start := offset + |Header(entries[index])| + 1;
    assert StandsAt(batch, offset, entries[index]) ==> start + entries[index].size < |batch|;
    ObjectsNeedTheNext(batch, entries, index, offset, contents);
    hide StandsAt, Header, StartsWith;
    if StandsAt(batch, offset, entries[index]) {
      var content := batch[start..start + entries[index].size];
      forall other: seq<Bytes> | |other| == |entries|
        ensures StartsWith(batch, entries, other) <==>
                  other[..index + 1] == contents + [content] && StartsWith(batch[start + entries[index].size + 1..], entries[index + 1..], other[index + 1..])
      {
        GoesOnAt(batch, entries, index, offset, contents, other, start);
      }
    }
  }

  lemma GoesOnAt(batch: Bytes, entries: seq<Entry>, index: nat, offset: nat, contents: seq<Bytes>, other: seq<Bytes>, start: nat)
    requires |other| == |entries| && index < |entries| && offset <= |batch| && |contents| == index
    requires StartsWith(batch, entries, other) <==> other[..index] == contents && StartsWith(batch[offset..], entries[index..], other[index..])
    requires start == offset + |Header(entries[index])| + 1 && start + entries[index].size < |batch| && StandsAt(batch, offset, entries[index])
    ensures StartsWith(batch, entries, other) <==>
              && other[..index + 1] == contents + [batch[start..start + entries[index].size]]
              && StartsWith(batch[start + entries[index].size + 1..], entries[index + 1..], other[index + 1..])
  {
    hide *;
    OneMoreObject(batch, entries, index, offset, other);
    OneLonger(other, index, contents, batch[start..start + entries[index].size]);
  }

  lemma ObjectsNeedTheNext(batch: Bytes, entries: seq<Entry>, index: nat, offset: nat, contents: seq<Bytes>)
    requires ReadSoFar(batch, entries, index, offset, contents) && index < |entries|
    ensures forall other | StartsWith(batch, entries, other) :: StandsAt(batch, offset, entries[index])
  {
    forall other | StartsWith(batch, entries, other) ensures StandsAt(batch, offset, entries[index]) {
      assert |other| == |entries|;
      hide StartsWith, StandsAt;
      OneMoreObject(batch, entries, index, offset, other);
    }
  }

  lemma OneLonger(other: seq<Bytes>, index: nat, contents: seq<Bytes>, content: Bytes)
    requires index < |other| && |contents| == index
    ensures other[..index + 1] == contents + [content] <==> other[..index] == contents && other[index] == content
  {
    assert other[..index + 1] == other[..index] + [other[index]];
    assert (contents + [content])[..index] == contents && other[..index + 1][..index] == other[..index];
    assert (contents + [content])[index] == content;
  }

  lemma NothingRead(batch: Bytes, entries: seq<Entry>)
    ensures ReadSoFar(batch, entries, 0, 0, [])
  {
    assert batch[0..] == batch && entries[0..] == entries;
    forall other: seq<Bytes> ensures other[..0] == [] && other[0..] == other {
    }
    hide StartsWith;
  }

  lemma AllRead(batch: Bytes, entries: seq<Entry>, offset: nat, contents: seq<Bytes>)
    requires ReadSoFar(batch, entries, |entries|, offset, contents)
    ensures StartsWith(batch, entries, contents)
    ensures forall other | StartsWith(batch, entries, other) :: other == contents
  {
    assert contents[..|entries|] == contents && contents[|entries|..] == [] && entries[|entries|..] == [];
    NothingLeft(batch[offset..]);
    forall other | StartsWith(batch, entries, other) ensures other == contents {
      assert other[..|entries|] == other;
    }
  }

  /** The bytes of one object, if its header line, its bytes and a newline stand at the offset. */
  method ReadObject(batch: Bytes, entry: Entry, offset: nat) returns (content: Option<Bytes>)
    requires HexId(entry) && offset <= |batch|
    ensures content.Some? <==> StandsAt(batch, offset, entry)
    ensures content.Some? ==>
              var start := offset + |Header(entry)| + 1;
              start + entry.size + 1 <= |batch| && content.value == batch[start..start + entry.size]
  {
    var headerEnd := IndexOf(batch, offset);
    HeaderEndsAtNewline(batch, offset, entry, headerEnd);
    if headerEnd.None? || batch[offset..headerEnd.value] != Header(entry)
       || headerEnd.value + 1 + entry.size >= |batch| || batch[headerEnd.value + 1 + entry.size] != NEWLINE {
      return None;
    }
    var start := headerEnd.value + 1;
    return Some(batch[start..start + entry.size]);
  }

  predicate AllHold(batch: Bytes, entries: seq<Entry>, contents: seq<Bytes>) {
    |contents| <= |entries| && forall i | 0 <= i < |contents| :: Holds(batch, entries, i, contents[i])
  }

  lemma ItHolds(batch: Bytes, entries: seq<Entry>, contents: seq<Bytes>, content: Bytes)
    requires AllHold(batch, entries, contents) && |contents| < |entries| && Holds(batch, entries, |contents|, content)
    ensures AllHold(batch, entries, contents + [content])
  {
    var all := contents + [content];
    hide Holds;
    forall j | 0 <= j < |all| ensures Holds(batch, entries, j, all[j]) {
    }
  }

  lemma OneHolds(batch: Bytes, entries: seq<Entry>, i: nat, start: nat, content: Bytes)
    requires i < |entries| && StandsAt(batch, PlaceOf(entries, i), entries[i]) && start == PlaceOf(entries, i) + |Header(entries[i])| + 1
    requires start + entries[i].size <= |batch| && content == batch[start..start + entries[i].size]
    ensures Holds(batch, entries, i, content)
  {
    hide StandsAt, Header, PlaceOf;
  }

  lemma PlaceAfter(entries: seq<Entry>, i: nat)
    requires i < |entries|
    ensures PlaceOf(entries, i + 1) == PlaceOf(entries, i) + |Header(entries[i])| + 1 + entries[i].size + 1
  {
  }

  lemma ReadTree(batch: Bytes, entries: seq<Entry>, contents: seq<Bytes>)
    requires |contents| == |entries| && AllHold(batch, entries, contents)
    ensures forall name :: name in TreeOf(entries, contents) <==> exists i :: 0 <= i < |entries| && entries[i].name == name
    ensures forall i | 0 <= i < |entries| && (forall j | i < j < |entries| :: entries[j].name != entries[i].name) ::
              entries[i].name in TreeOf(entries, contents) && Holds(batch, entries, i, TreeOf(entries, contents)[entries[i].name])
  {
    hide Holds, TreeOf;
    TreeNames(entries, contents);
    forall i | 0 <= i < |entries| && (forall j | i < j < |entries| :: entries[j].name != entries[i].name)
      ensures entries[i].name in TreeOf(entries, contents) && TreeOf(entries, contents)[entries[i].name] == contents[i]
    {
      assert LastOfName(entries, i);
      TreeHolds(entries, contents, i);
    }
  }

  lemma TreeOfOneMore(entries: seq<Entry>, contents: seq<Bytes>, i: nat, content: Bytes)
    requires i < |entries| && |contents| == i
    ensures TreeOf(entries[..i + 1], contents + [content]) == TreeOf(entries[..i], contents)[entries[i].name := content]
  {
    assert entries[..i + 1][..i] == entries[..i] && (contents + [content])[..i] == contents;
  }

  /**
   The reading succeeds exactly when the batch starts with the printing of some contents for
   the entries, and then it is those contents.
   */
  method ReadObjects(batch: Bytes, entries: seq<Entry>) returns (result: Option<map<string, Bytes>>, ghost contents: seq<Bytes>)
    requires forall i | 0 <= i < |entries| :: HexId(entries[i])
    ensures result.Some? ==> StartsWith(batch, entries, contents) && result.value == TreeOf(entries, contents)
    ensures result.Some? ==> forall name :: name in result.value <==> exists i :: 0 <= i < |entries| && entries[i].name == name
    ensures result.Some? ==> forall i | 0 <= i < |entries| && (forall j | i < j < |entries| :: entries[j].name != entries[i].name) ::
                               entries[i].name in result.value && Holds(batch, entries, i, result.value[entries[i].name])
    ensures forall other | StartsWith(batch, entries, other) :: result.Some? && other == contents
  {
    var tree: map<string, Bytes> := map[];
    var index, offset := 0, 0;
    contents := [];
    ReadingStarts(batch, entries);
    hide *;
    while index < |entries|
      invariant 0 <= index <= |entries| && 0 <= offset <= |batch|
      invariant Reading(batch, entries, index, offset, contents, tree)
    {
      var entry := entries[index];
      var read := ReadObject(batch, entry, offset);
      ReadingGoesOn(batch, entries, index, offset, contents, tree, read);
      if read.None? {
        return None, contents;
      }
      var content := read.value;
      tree := tree[entry.name := content];
      contents := contents + [content];
      offset := offset + |Header(entry)| + 1 + entry.size + 1;
      index := index + 1;
    }
    ReadingEnds(batch, entries, offset, contents, tree);
    return Some(tree), contents;
  }

  /** What is known of the batch once the first entries were read. */
  ghost predicate Reading(batch: Bytes, entries: seq<Entry>, index: nat, offset: nat, contents: seq<Bytes>, tree: map<string, Bytes>) {
    && ReadSoFar(batch, entries, index, offset, contents) && tree == TreeOf(entries[..index], contents)
    && offset == PlaceOf(entries, index) && AllHold(batch, entries, contents)
  }

  lemma ReadingStarts(batch: Bytes, entries: seq<Entry>)
    ensures Reading(batch, entries, 0, 0, [], map[])
  {
    NothingRead(batch, entries);
  }

  lemma ReadingGoesOn(batch: Bytes, entries: seq<Entry>, index: nat, offset: nat, contents: seq<Bytes>, tree: map<string, Bytes>, read: Option<Bytes>)
    requires index < |entries| && Reading(batch, entries, index, offset, contents, tree)
    requires read.Some? <==> StandsAt(batch, offset, entries[index])
    requires read.Some? ==>
               var start := offset + |Header(entries[index])| + 1;
               start + entries[index].size + 1 <= |batch| && read.value == batch[start..start + entries[index].size]
    ensures if read.None? then forall other: seq<Bytes> :: !StartsWith(batch, entries, other)
            else Reading(batch, entries, index + 1, offset + |Header(entries[index])| + 1 + entries[index].size + 1,
                         contents + [read.value], tree[entries[index].name := read.value])
  {
    assert |contents| == index;
    hide StartsWith, StandsAt, ReadSoFar, Printed, Header, Digits, TreeOf, Holds, AllHold, PlaceOf;
    NextObject(batch, entries, index, offset, contents);
    if read.Some? {
      OneHolds(batch, entries, index, offset + |Header(entries[index])| + 1, read.value);
      ItHolds(batch, entries, contents, read.value);
      PlaceAfter(entries, index);
      TreeOfOneMore(entries, contents, index, read.value);
    }
  }

  lemma ReadingEnds(batch: Bytes, entries: seq<Entry>, offset: nat, contents: seq<Bytes>, tree: map<string, Bytes>)
    requires Reading(batch, entries, |entries|, offset, contents, tree)
    ensures StartsWith(batch, entries, contents) && tree == TreeOf(entries, contents)
    ensures forall name :: name in tree <==> exists i :: 0 <= i < |entries| && entries[i].name == name
    ensures forall i | 0 <= i < |entries| && (forall j | i < j < |entries| :: entries[j].name != entries[i].name) ::
              entries[i].name in tree && Holds(batch, entries, i, tree[entries[i].name])
    ensures forall other | StartsWith(batch, entries, other) :: other == contents
  {
    assert |contents| == |entries| && entries[..|entries|] == entries;
    hide StartsWith, ReadSoFar, TreeOf, Holds, AllHold;
    AllRead(batch, entries, offset, contents);
    ReadTree(batch, entries, contents);
  }
}
