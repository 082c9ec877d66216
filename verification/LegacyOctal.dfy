/**
 Putting legacy octal numbers back into a printed document.

 Each number is remembered under a path, the last one under a path counts, and the path is
 looked up in the printed document. It leads back to the number unless a list lies further
 up. The places are cut out from the last to the first, so that the offsets of the earlier
 ones stay valid; that is the same as replacing them all at once.
 */
module LegacyOctal {
  import opened Results
  import opened ComposeTree

  /** Replace output[start..end] by the text. */
  datatype Edit = Edit(start: nat, end: nat, text: string)

  /** Edits from the front to the back, none touching the next. */
  predicate Apart(output: string, edits: seq<Edit>) {
    && (forall i | 0 <= i < |edits| :: edits[i].start < edits[i].end <= |output|)
    && (forall i, j | 0 <= i < j < |edits| :: edits[i].end <= edits[j].start)
  }

  /** All edits at once: the text between them, and their own. */
  function ReplacedAll(output: string, edits: seq<Edit>): string
    requires Apart(output, edits)
  {
    if |edits| == 0 then output
    else
      var last := edits[|edits| - 1];
      ReplacedAll(output[..last.start], edits[..|edits| - 1]) + last.text + output[last.end..]
  }

  /** How far a character behind the first k edits has moved. */
  function Moved(edits: seq<Edit>, k: nat): int
    requires k <= |edits|
  {
    if k == 0 then 0 else Moved(edits, k - 1) + |edits[k - 1].text| - (edits[k - 1].end - edits[k - 1].start)
  }

  lemma {:induction false} MovedByFront(edits: seq<Edit>, k: nat)
    requires k < |edits|
    ensures Moved(edits[..|edits| - 1], k) == Moved(edits, k)
  {
    if k > 0 {
      MovedByFront(edits, k - 1);
    }
  }

  lemma {:induction false} ReplacedLength(output: string, edits: seq<Edit>)
    requires Apart(output, edits)
    ensures |ReplacedAll(output, edits)| == |output| + Moved(edits, |edits|)
  {
    if |edits| > 0 {
      var last := edits[|edits| - 1];
      ReplacedLength(output[..last.start], edits[..|edits| - 1]);
      MovedByFront(edits, |edits| - 1);
    }
  }

  /** A text in three parts, read by place. */
  lemma PartsRead(before: string, text: string, tail: string)
    ensures var all := before + text + tail;
            && all[|before|..|before| + |text|] == text
            && (forall a, b | 0 <= a <= b <= |before| :: all[a..b] == before[a..b])
  {
    var all := before + text + tail;
    forall a, b | 0 <= a <= b <= |before| ensures all[a..b] == before[a..b] {
    }
  }

  /** and character by character, outside the middle. */
  lemma PartReads(before: string, text: string, tail: string, p: nat)
    ensures p < |before| ==> (before + text + tail)[p] == before[p]
    ensures p < |tail| ==> (before + text + tail)[|before| + |text| + p] == tail[p]
  {
  }

  /** The last edit is made at the end of the result of the others. */
  lemma LastEditIsMade(output: string, edits: seq<Edit>)
    requires Apart(output, edits) && |edits| > 0
    ensures var n := |edits| - 1;
            var before := ReplacedAll(output[..edits[n].start], edits[..n]);
            && ReplacedAll(output, edits) == before + edits[n].text + output[edits[n].end..]
            && |before| == edits[n].start + Moved(edits, n)
            && Moved(edits, n + 1) == |before| + |edits[n].text| - edits[n].end
  {
    ReplacedLength(output[..edits[|edits| - 1].start], edits[..|edits| - 1]);
    MovedByFront(edits, |edits| - 1);
  }

  /** The edited range now reads as the text of its edit. */
  lemma {:induction false} EditedReads(output: string, edits: seq<Edit>, k: nat)
    requires Apart(output, edits) && k < |edits|
    ensures var result, at := ReplacedAll(output, edits), edits[k].start + Moved(edits, k);
            0 <= at <= at + |edits[k].text| <= |result| && result[at..at + |edits[k].text|] == edits[k].text
  {
    var n := |edits| - 1;
    var front, last := edits[..n], edits[n];
    LastEditIsMade(output, edits);
    assert Apart(output[..last.start], front);
    hide ReplacedAll, Moved, Apart;
    PartsRead(ReplacedAll(output[..last.start], front), last.text, output[last.end..]);
    if k < n {
      MovedByFront(edits, k);
      EditedReads(output[..last.start], front, k);
    }
  }

  /** Every other character is still there, moved by what the edits before it added or took away. */
  lemma {:induction false} OthersRead(output: string, edits: seq<Edit>, k: nat, p: nat)
    requires Apart(output, edits) && k <= |edits| && p < |output|
    requires k > 0 ==> edits[k - 1].end <= p
    requires k < |edits| ==> p < edits[k].start
    ensures var result := ReplacedAll(output, edits);
            0 <= p + Moved(edits, k) < |result| && result[p + Moved(edits, k)] == output[p]
  {
    hide *;
    if k == |edits| {
      BehindAllReads(output, edits, p);
    } else {
      var n := |edits| - 1;
      LastIsBehind(output, edits, k, p);
      MovedByFront(edits, k);
      OthersRead(output[..edits[n].start], edits[..n], k, p);
      InFrontReads(output, edits, p, Moved(edits, k));
    }
  }

  lemma InFrontReads(output: string, edits: seq<Edit>, p: nat, moved: int)
    requires Apart(output, edits) && |edits| > 0 && p < edits[|edits| - 1].start <= |output|
    requires Apart(output[..edits[|edits| - 1].start], edits[..|edits| - 1])
    requires var start := edits[|edits| - 1].start;
             var before := ReplacedAll(output[..start], edits[..|edits| - 1]);
             0 <= p + moved < |before| && before[p + moved] == output[..start][p]
    ensures var result := ReplacedAll(output, edits);
            0 <= p + moved < |result| && result[p + moved] == output[p]
  {
    var n := |edits| - 1;
    assert edits[n].start < edits[n].end <= |output|;
    hide Apart, Moved;
    var before := ReplacedAll(output[..edits[n].start], edits[..n]);
    LastEditIsMade(output, edits);
    hide ReplacedAll;
    PartReads(before, edits[n].text, output[edits[n].end..], p + moved);
  }

  lemma LastIsBehind(output: string, edits: seq<Edit>, k: nat, p: nat)
    requires Apart(output, edits) && k < |edits| && p < edits[k].start
    ensures var n := |edits| - 1;
            && Apart(output[..edits[n].start], edits[..n]) && p < edits[n].start < edits[n].end <= |output|
            && (k < n ==> edits[..n][k] == edits[k]) && (k > 0 ==> edits[..n][k - 1] == edits[k - 1])
  {
  }

  lemma BehindAllReads(output: string, edits: seq<Edit>, p: nat)
    requires Apart(output, edits) && p < |output| && (|edits| > 0 ==> edits[|edits| - 1].end <= p)
    ensures var result, at := ReplacedAll(output, edits), p + Moved(edits, |edits|);
            0 <= at < |result| && result[at] == output[p]
  {
    if |edits| > 0 {
      var n := |edits| - 1;
      var last := edits[n];
      assert last.start < last.end <= |output|;
      LastEditIsMade(output, edits);
      var before := ReplacedAll(output[..last.start], edits[..n]);
      PartReads(before, last.text, output[last.end..], p - last.end);
    }
  }

  predicate Descending(edits: seq<Edit>) {
    forall i, j | 0 <= i < j < |edits| :: edits[j].start <= edits[i].start
  }

  function InsertDescending(sorted: seq<Edit>, edit: Edit): seq<Edit> {
    if |sorted| == 0 then [edit]
    else if sorted[|sorted| - 1].start >= edit.start then sorted + [edit]
    else InsertDescending(sorted[..|sorted| - 1], edit) + [sorted[|sorted| - 1]]
  }

  /** Later edits first. */
  function SortDescending(edits: seq<Edit>): seq<Edit> {
    if |edits| == 0 then [] else InsertDescending(SortDescending(edits[..|edits| - 1]), edits[|edits| - 1])
  }

  lemma {:induction false} InsertPermutes(sorted: seq<Edit>, edit: Edit)
    ensures multiset(InsertDescending(sorted, edit)) == multiset(sorted) + multiset{edit}
  {
    if |sorted| > 0 && sorted[|sorted| - 1].start < edit.start {
      InsertPermutes(sorted[..|sorted| - 1], edit);
      assert sorted == sorted[..|sorted| - 1] + [sorted[|sorted| - 1]];
    }
  }

  lemma DescendingAppend(front: seq<Edit>, last: Edit)
    requires Descending(front) && (|front| > 0 ==> last.start <= front[|front| - 1].start)
    ensures Descending(front + [last])
  {
  }

  lemma {:induction false} InsertSorts(sorted: seq<Edit>, edit: Edit)
    requires Descending(sorted)
    ensures Descending(InsertDescending(sorted, edit)) && |InsertDescending(sorted, edit)| == |sorted| + 1
    ensures InsertDescending(sorted, edit)[|sorted|] in (if |sorted| > 0 then {edit, sorted[|sorted| - 1]} else {edit})
  {
    if |sorted| > 0 {
      var front, last := sorted[..|sorted| - 1], sorted[|sorted| - 1];
      if last.start < edit.start {
        InsertSorts(front, edit);
        DescendingAppend(InsertDescending(front, edit), last);
      } else {
        DescendingAppend(sorted, edit);
      }
    }
  }

  lemma InsertSortsAll(sorted: seq<Edit>, front: seq<Edit>, last: Edit)
    requires Descending(sorted) && multiset(sorted) == multiset(front)
    ensures Descending(InsertDescending(sorted, last)) && multiset(InsertDescending(sorted, last)) == multiset(front + [last])
  {
    hide *;
    InsertSorts(sorted, last);
    InsertPermutes(sorted, last);
  }

  lemma {:induction false} SortSorts(edits: seq<Edit>)
    ensures Descending(SortDescending(edits)) && multiset(SortDescending(edits)) == multiset(edits)
  {
    if |edits| > 0 {
      var front, last := edits[..|edits| - 1], edits[|edits| - 1];
      SortSorts(front);
      assert edits == front + [last];
      InsertSortsAll(SortDescending(front), front, last);
    }
  }

  /** Where the text ends that the first k edits are still to be made in. */
  function End(output: string, edits: seq<Edit>, k: nat): nat
    requires k <= |edits|
  {
    if k < |edits| then edits[k].start else |output|
  }

  lemma FrontIsApart(output: string, edits: seq<Edit>, k: nat)
    requires Apart(output, edits) && k <= |edits|
    ensures End(output, edits, k) <= |output| && Apart(output[..End(output, edits, k)], edits[..k])
  {
  }

  /** The edit at the back of a text is its end; the others are made before it. */
  lemma ReplacedFromTheBack(output: string, edits: seq<Edit>, k: nat)
    requires Apart(output, edits) && 0 < k <= |edits|
    requires Apart(output[..End(output, edits, k)], edits[..k]) && Apart(output[..edits[k - 1].start], edits[..k - 1])
    ensures edits[k - 1].end <= End(output, edits, k)
    ensures ReplacedAll(output[..End(output, edits, k)], edits[..k])
            == ReplacedAll(output[..edits[k - 1].start], edits[..k - 1]) + edits[k - 1].text + output[edits[k - 1].end..End(output, edits, k)]
  {
    var edit, end := edits[k - 1], End(output, edits, k);
    assert edits[..k][..k - 1] == edits[..k - 1] && edits[..k][k - 1] == edit;
    assert output[..end][..edit.start] == output[..edit.start];
    assert output[..end][edit.end..] == output[edit.end..end];
  }

  /**
   Cutting the edits out one after the other, the last in the text first, replaces them all
   at once, in whatever order they were found.
   */
  method ApplyEdits(output: string, edits: seq<Edit>, ghost places: seq<Edit>) returns (result: string)
    requires Apart(output, places) && multiset(edits) == multiset(places)
    ensures result == ReplacedAll(output, places)
  {
    var sorted := SortDescending(edits);
    SortSorts(edits);
    DescendingIsBackwards(sorted, places, output);
    result := output;
    ghost var tail, k := "", |places|;
    FrontIsApart(output, places, k);
    hide SortDescending, Descending, ReplacedAll, Apart, End;
    NoneCut(output, places);
    var index := 0;
    while index < |sorted|
      invariant 0 <= index <= |sorted| && k == |places| - index
      invariant End(output, places, k) <= |output| && Apart(output[..End(output, places, k)], places[..k])
      invariant result == output[..End(output, places, k)] + tail
      invariant ReplacedAll(output, places) == ReplacedAll(output[..End(output, places, k)], places[..k]) + tail
    {
      var edit := sorted[index];
      FrontIsApart(output, places, k - 1);
      EndOfNext(output, places, k);
      ReplacedFromTheBack(output, places, k);
      CutOut(output, edit, End(output, places, k), tail, ReplacedAll(output[..edit.start], places[..k - 1]));
      tail := edit.text + output[edit.end..End(output, places, k)] + tail;
      result := result[..edit.start] + edit.text + result[edit.end..];
      index, k := index + 1, k - 1;
    }
    AllCut(output[..End(output, places, k)], places);
  }

  lemma NoneCut(output: string, places: seq<Edit>)
    ensures places[..|places|] == places && output[..End(output, places, |places|)] == output && output + "" == output
    ensures Apart(output, places) ==> ReplacedAll(output, places) == ReplacedAll(output, places) + ""
  {
  }

  lemma AllCut(output: string, places: seq<Edit>)
    ensures places[..0] == [] && Apart(output, []) && ReplacedAll(output, []) == output
  {
  }

  lemma EndOfNext(output: string, places: seq<Edit>, k: nat)
    requires 0 < k <= |places| && Apart(output, places)
    ensures End(output, places, k - 1) == places[k - 1].start <= places[k - 1].end <= End(output, places, k) <= |output|
  {
  }

  lemma CutOut(output: string, edit: Edit, end: nat, tail: string, front: string)
    requires edit.start <= edit.end <= end <= |output|
    ensures var result, next := output[..end] + tail, edit.text + output[edit.end..end] + tail;
            && result[..edit.start] + edit.text + result[edit.end..] == output[..edit.start] + next
            && front + edit.text + output[edit.end..end] + tail == front + next
  {
    assert (output[..end] + tail)[edit.end..] == output[edit.end..end] + tail;
    assert (output[..end] + tail)[..edit.start] == output[..edit.start];
  }

  lemma FirstIsLast(sorted: seq<Edit>, places: seq<Edit>, output: string)
    requires Descending(sorted) && Apart(output, places) && multiset(sorted) == multiset(places) && |sorted| > 0
    ensures |places| > 0 && sorted[0] == places[|places| - 1]
  {
    assert sorted[0] in multiset(places) && |multiset(places)| == |places|;
    var last := places[|places| - 1];
    assert last in multiset(sorted);
    var i :| 0 <= i < |places| && places[i] == sorted[0];
    var j :| 0 <= j < |sorted| && sorted[j] == last;
    if i < |places| - 1 {
      assert false;
    }
  }

  lemma SameButOne(edit: Edit, a: seq<Edit>, b: seq<Edit>)
    requires multiset([edit] + a) == multiset(b + [edit])
    ensures multiset(a) == multiset(b)
  {
    assert multiset(a) == multiset([edit] + a) - multiset{edit};
    assert multiset(b) == multiset(b + [edit]) - multiset{edit};
  }

  lemma RestHasTheSame(sorted: seq<Edit>, places: seq<Edit>)
    requires |sorted| > 0 && |places| > 0 && multiset(sorted) == multiset(places) && sorted[0] == places[|places| - 1]
    ensures multiset(sorted[1..]) == multiset(places[..|places| - 1])
  {
    assert sorted == [sorted[0]] + sorted[1..] && places == places[..|places| - 1] + [sorted[0]];
    SameButOne(sorted[0], sorted[1..], places[..|places| - 1]);
  }

  /** Sorted edits that are apart are the places backwards. */
  lemma {:induction false} DescendingIsBackwards(sorted: seq<Edit>, places: seq<Edit>, output: string)
    requires Descending(sorted) && Apart(output, places) && multiset(sorted) == multiset(places)
    ensures |sorted| == |places| && forall i | 0 <= i < |sorted| :: sorted[i] == places[|places| - 1 - i]
  {
    hide Descending, Apart;
    assert |sorted| == |multiset(sorted)| == |multiset(places)| == |places|;
    if |sorted| > 0 {
      FirstIsLast(sorted, places, output);
      TailsKeepOrder(sorted, places, output);
      var rest, front := sorted[1..], places[..|places| - 1];
      RestHasTheSame(sorted, places);
      DescendingIsBackwards(rest, front, output);
      forall k | 0 < k < |sorted| ensures sorted[k] == places[|places| - 1 - k] {
        assert sorted[k] == rest[k - 1];
      }
    }
  }

  lemma TailsKeepOrder(sorted: seq<Edit>, places: seq<Edit>, output: string)
    requires Descending(sorted) && Apart(output, places) && |sorted| > 0 && |places| > 0
    ensures Descending(sorted[1..]) && Apart(output, places[..|places| - 1])
  {
  }

  // ---------------------------------------------------------------- the path back to a number

  /** What a visitor passes on its way down: collections, and pairs with their keys. */
  datatype Ancestor = Collection | PairOf(key: Key)

  function AncestorsOf(address: seq<Step>): seq<Ancestor> {
    if |address| == 0 then []
    else AncestorsOf(address[..|address| - 1])
         + match address[|address| - 1]
           case KeyStep(key) => [Collection, PairOf(key)]
           case IndexStep(_) => [Collection]
  }

  /** The steps of an address that a pair stands for. */
  function KeySteps(address: seq<Step>): seq<Step> {
    if |address| == 0 then []
    else KeySteps(address[..|address| - 1]) + if address[|address| - 1].KeyStep? then [address[|address| - 1]] else []
  }

  predicate TextKeys(address: seq<Step>) {
    forall i | 0 <= i < |address| && address[i].KeyStep? :: address[i].key.TextKey?
  }

  function LastIndex(address: seq<Step>): Option<nat> {
    if |address| > 0 && address[|address| - 1].IndexStep? then Some(address[|address| - 1].index) else None
  }

  /** The path under which a node is remembered: the keys of its pairs, and its own index. */
  method ToNodePath(index: Option<nat>, ancestors: seq<Ancestor>, ghost address: seq<Step>) returns (path: Option<seq<Step>>)
    requires ancestors == AncestorsOf(address) && index == LastIndex(address)
    ensures path == Remembered(address)
  {
    var result: seq<Step> := [];
    var i := 0;
    while i < |ancestors|
      invariant 0 <= i <= |ancestors|
      invariant result == PairSteps(ancestors[..i])
      invariant forall j | 0 <= j < i && ancestors[j].PairOf? :: ancestors[j].key.TextKey?
    {
      assert ancestors[..i + 1][..i] == ancestors[..i];
      if ancestors[i].PairOf? {
        if !ancestors[i].key.TextKey? {
          PairsAreKeys(address);
          return None;
        }
        result := result + [KeyStep(ancestors[i].key)];
      }
      i := i + 1;
    }
    assert ancestors[..i] == ancestors;
    PairsAreKeys(address);
    return Some(result + if index.Some? then [IndexStep(index.value)] else []);
  }

  function PairSteps(ancestors: seq<Ancestor>): seq<Step> {
    if |ancestors| == 0 then []
    else PairSteps(ancestors[..|ancestors| - 1])
         + if ancestors[|ancestors| - 1].PairOf? then [KeyStep(ancestors[|ancestors| - 1].key)] else []
  }

  function Remembered(address: seq<Step>): Option<seq<Step>> {
    if !TextKeys(address) then None
    else Some(KeySteps(address) + if LastIndex(address).Some? then [IndexStep(LastIndex(address).value)] else [])
  }

  lemma {:induction false} PairsAreKeys(address: seq<Step>)
    ensures PairSteps(AncestorsOf(address)) == KeySteps(address)
    ensures TextKeys(address) <==> forall j | 0 <= j < |AncestorsOf(address)| && AncestorsOf(address)[j].PairOf? :: AncestorsOf(address)[j].key.TextKey?
  {
    if |address| > 0 {
      var front, last := address[..|address| - 1], address[|address| - 1];
      PairsAreKeys(front);
      var above := AncestorsOf(front);
      assert (above + [Collection])[..|above|] == above;
      assert PairSteps(above + [Collection]) == PairSteps(above);
      if last.KeyStep? {
        var all := above + [Collection, PairOf(last.key)];
        assert all[..|all| - 1] == above + [Collection];
        assert all[|above| + 1].PairOf?;
        assert TextKeys(address) <==> TextKeys(front) && last.key.TextKey?;
      } else {
        assert TextKeys(address) <==> TextKeys(front);
      }
    }
  }

  /** No list lies above the node, except the one it is an item of. */
  predicate NoListAbove(address: seq<Step>) {
    forall i | 0 <= i < |address| - 1 :: address[i].KeyStep?
  }

  lemma {:induction false} KeyStepsOnly(address: seq<Step>)
    ensures |KeySteps(address)| <= |address|
    ensures KeySteps(address) == address <==> forall i | 0 <= i < |address| :: address[i].KeyStep?
    ensures |KeySteps(address)| == |address| <==> KeySteps(address) == address
  {
    if |address| > 0 {
      KeyStepsOnly(address[..|address| - 1]);
      assert address == address[..|address| - 1] + [address[|address| - 1]];
    }
  }

  /** A number is remembered under its own address exactly when its keys are strings and no list lies above. */
  lemma RememberedExactlyWhen(address: seq<Step>)
    ensures Remembered(address) == Some(address) <==> TextKeys(address) && NoListAbove(address)
  {
    if |address| > 0 {
      var front, last := address[..|address| - 1], address[|address| - 1];
      assert address == front + [last];
      KeyStepsOnly(front);
      KeyStepsOnly(address);
      assert KeySteps(address) + [] == KeySteps(address);
      if last.IndexStep? {
        assert KeySteps(address) == KeySteps(front);
        assert TextKeys(address) ==> Remembered(address).value[..|KeySteps(front)|] == KeySteps(front);
        assert |address| == |front| + 1;
      } else {
        assert TextKeys(address) ==> Remembered(address).value == KeySteps(address);
        assert forall i | 0 <= i < |address| :: address[i].KeyStep? <==> i == |address| - 1 || front[i].KeyStep?;
      }
    }
  }

  /** Under a list of mappings the remembered path leads nowhere, and the octal is printed as decimal. */
  lemma ListOfMappingsLosesOctal(tree: Node, above: seq<Step>, index: nat, key: Key)
    requires key.TextKey? && TextKeys(above) && (forall i | 0 <= i < |above| :: above[i].KeyStep?)
    requires GetIn(tree, above).Some? && GetIn(tree, above).value.Seq?
    ensures Remembered(above + [IndexStep(index), KeyStep(key)]) == Some(above + [KeyStep(key)])
    ensures GetIn(tree, above + [KeyStep(key)]).None?
  {
    var address := above + [IndexStep(index), KeyStep(key)];
    assert address[..|address| - 1] == above + [IndexStep(index)];
    assert (above + [IndexStep(index)])[..|above|] == above;
    KeyStepsOnly(above);
    assert KeySteps(above + [IndexStep(index)]) == above;
    assert forall i | 0 <= i < |address| && address[i].KeyStep? :: i < |above| ==> address[i] == above[i];
    assert KeySteps(address) == above + [KeyStep(key)];
    assert KeySteps(address) + [] == KeySteps(address);
    NoKeyInSequence(tree, above, key);
  }

  lemma {:induction false} NoKeyInSequence(tree: Node, path: seq<Step>, key: Key)
    requires GetIn(tree, path).Some? && GetIn(tree, path).value.Seq?
    ensures GetIn(tree, path + [KeyStep(key)]).None?
  {
    if |path| == 0 {
      assert path + [KeyStep(key)] == [KeyStep(key)];
    } else {
      assert (path + [KeyStep(key)])[1..] == path[1..] + [KeyStep(key)];
      NoKeyInSequence(Child(tree, path[0]).value, path[1..], key);
    }
  }

  // ---------------------------------------------------------------- remembering and looking up

  /** A number of the source that was written as octal, in the order the document is visited */
  datatype Octal = Octal(address: seq<Step>, text: string)

  /** What the numbers leave in the map from paths to texts: the last one under a path counts. */
  function Collected(octals: seq<Octal>): map<seq<Step>, string> {
    if |octals| == 0 then map[]
    else
      var rest, last := Collected(octals[..|octals| - 1]), octals[|octals| - 1];
      var path := Remembered(last.address);
      if path.Some? then rest[path.value := last.text] else rest
  }

  method CollectLegacyOctal(octals: seq<Octal>) returns (result: map<seq<Step>, string>)
    ensures result == Collected(octals)
  {
    result := map[];
    var i := 0;
    while i < |octals|
      invariant 0 <= i <= |octals| && result == Collected(octals[..i])
    {
      assert octals[..i + 1][..i] == octals[..i];
      var path := ToNodePath(LastIndex(octals[i].address), AncestorsOf(octals[i].address), octals[i].address);
      if path.Some? {
        result := result[path.value := octals[i].text];
      }
      i := i + 1;
    }
    assert octals[..i] == octals;
  }

  /** The text of the last number that was remembered under a path. */
  function LastUnder(octals: seq<Octal>, path: seq<Step>): Option<string> {
    if |octals| == 0 then None
    else if Remembered(octals[|octals| - 1].address) == Some(path) then Some(octals[|octals| - 1].text)
    else LastUnder(octals[..|octals| - 1], path)
  }

  lemma {:induction false} LastOneCounts(octals: seq<Octal>, path: seq<Step>)
    ensures path in Collected(octals) <==> LastUnder(octals, path).Some?
    ensures path in Collected(octals) ==> Some(Collected(octals)[path]) == LastUnder(octals, path)
  {
    if |octals| > 0 {
      LastOneCounts(octals[..|octals| - 1], path);
    }
  }

  lemma {:induction false} LastIsOneOfThem(octals: seq<Octal>, path: seq<Step>) returns (k: nat)
    requires LastUnder(octals, path).Some?
    ensures k < |octals| && Remembered(octals[k].address) == Some(path) && Some(octals[k].text) == LastUnder(octals, path)
    ensures forall j | k < j < |octals| :: Remembered(octals[j].address) != Some(path)
  {
    var n := |octals| - 1;
    if Remembered(octals[n].address) == Some(path) {
      k := n;
    } else {
      k := LastIsOneOfThem(octals[..n], path);
    }
  }

  lemma {:induction false} OneIsRemembered(octals: seq<Octal>, k: nat, path: seq<Step>)
    requires k < |octals| && Remembered(octals[k].address) == Some(path)
    ensures LastUnder(octals, path).Some?
  {
    if k < |octals| - 1 {
      OneIsRemembered(octals[..|octals| - 1], k, path);
    }
  }

  /** The decimal reading of the digits. */
  function Decimal(text: string): int {
    if |text| == 0 then 0 else Decimal(text[..|text| - 1]) * 10 + (text[|text| - 1] as int - '0' as int)
  }

  /** A number of the printed document: where it is in the tree, its value and its range in the text */
  datatype Place = Place(address: seq<Step>, value: real, start: nat, end: nat)

  /** The numbers of the printed document in the order of the text. */
  predicate Printing(output: string, places: seq<Place>) {
    && (forall i | 0 <= i < |places| :: places[i].start < places[i].end <= |output|)
    && (forall i, j | 0 <= i < j < |places| :: places[i].end <= places[j].start && places[i].address != places[j].address)
  }

  /** What a printed number is rewritten to: the text remembered under its address, if it still is that number. */
  function NewText(place: Place, octals: map<seq<Step>, string>): Option<string> {
    if place.address in octals && place.value == Decimal(octals[place.address]) as real then Some(octals[place.address]) else None
  }

  function Chosen(places: seq<Place>, octals: map<seq<Step>, string>): seq<Edit> {
    if |places| == 0 then []
    else
      var last := places[|places| - 1];
      Chosen(places[..|places| - 1], octals)
      + if NewText(last, octals).Some? then [Edit(last.start, last.end, NewText(last, octals).value)] else []
  }

  /** The number at an address, as looking up a path finds it. */
  function PlaceAt(places: seq<Place>, address: seq<Step>): (found: Option<Place>)
    ensures found.Some? ==> found.value in places && found.value.address == address
    ensures found.None? ==> forall p | p in places :: p.address != address
  {
    if |places| == 0 then None
    else if places[|places| - 1].address == address then Some(places[|places| - 1])
    else PlaceAt(places[..|places| - 1], address)
  }

  lemma ApartAppend(output: string, edits: seq<Edit>, last: Edit)
    requires Apart(output, edits) && last.start < last.end <= |output| && forall e | e in edits :: e.end <= last.start
    ensures Apart(output, edits + [last])
  {
    assert forall i | 0 <= i < |edits| :: edits[i] in edits;
  }

  lemma {:induction false} ChosenAreApart(output: string, places: seq<Place>, octals: map<seq<Step>, string>)
    requires Printing(output, places)
    ensures Apart(output, Chosen(places, octals))
    ensures forall e | e in Chosen(places, octals) :: |places| > 0 && e.end <= places[|places| - 1].end
  {
    if |places| > 0 {
      var front, last := places[..|places| - 1], places[|places| - 1];
      assert |front| > 0 ==> front[|front| - 1].end <= last.start;
      assert last.start < last.end <= |output|;
      ChosenAreApart(output, front, octals);
      var edits, text := Chosen(front, octals), NewText(last, octals);
      assert Chosen(places, octals) == edits + if text.Some? then [Edit(last.start, last.end, text.value)] else [];
      hide Apart, Chosen, NewText, Printing;
      if text.Some? {
        ApartAppend(output, edits, Edit(last.start, last.end, text.value));
      } else {
        assert edits + [] == edits;
      }
    }
  }

  /** What one path adds to the edits. */
  function EditOf(places: seq<Place>, path: seq<Step>, text: string): seq<Edit> {
    var found := PlaceAt(places, path);
    if found.Some? && found.value.value == Decimal(text) as real then [Edit(found.value.start, found.value.end, text)] else []
  }

  /** The edit of a path is at the number found there and carries the remembered text, if the number still is that text. */
  lemma EditCarriesTheText(output: string, places: seq<Place>, path: seq<Step>, text: string)
    requires Printing(output, places)
    ensures forall p | p in places && p.address == path ::
              EditOf(places, path, text) == if p.value == Decimal(text) as real then [Edit(p.start, p.end, text)] else []
    ensures (forall p | p in places :: p.address != path) ==> EditOf(places, path, text) == []
  {
    forall p | p in places && p.address == path ensures PlaceAt(places, path) == Some(p) {
      var q := PlaceAt(places, path).value;
      var i :| 0 <= i < |places| && places[i] == p;
      var j :| 0 <= j < |places| && places[j] == q;
      if i < j {
        assert places[i].address != places[j].address;
      } else if j < i {
        assert places[j].address != places[i].address;
      }
    }
  }

  /** The edits chosen are, for each number that still is the text remembered under its address, that text in its place. */
  lemma {:induction false} ChosenCarryTheTexts(places: seq<Place>, octals: map<seq<Step>, string>)
    ensures forall e :: e in Chosen(places, octals) <==>
              exists p :: p in places && p.address in octals && p.value == Decimal(octals[p.address]) as real
                          && e == Edit(p.start, p.end, octals[p.address])
  {
    if |places| > 0 {
      var front, last := places[..|places| - 1], places[|places| - 1];
      ChosenCarryTheTexts(front, octals);
      assert places == front + [last];
      hide Decimal;
      forall e ensures e in Chosen(places, octals) <==>
              exists p :: p in places && p.address in octals && p.value == Decimal(octals[p.address]) as real
                          && e == Edit(p.start, p.end, octals[p.address])
      {
        assert e in Chosen(places, octals) <==> e in Chosen(front, octals) || (NewText(last, octals).Some? && e == Edit(last.start, last.end, NewText(last, octals).value));
      }
    }
  }

  lemma {:induction false} ChosenWithout(places: seq<Place>, octals: map<seq<Step>, string>, path: seq<Step>)
    requires forall p | p in places :: p.address != path
    ensures Chosen(places, octals) == Chosen(places, octals - {path})
  {
    if |places| > 0 {
      var last := places[|places| - 1];
      assert last in places;
      ChosenWithout(places[..|places| - 1], octals, path);
    }
  }

  lemma ChosenNext(places: seq<Place>, octals: map<seq<Step>, string>, path: seq<Step>)
    requires |places| > 0 && places[|places| - 1].address != path && path in octals
    requires var front := places[..|places| - 1];
             multiset(Chosen(front, octals)) == multiset(Chosen(front, octals - {path})) + multiset(EditOf(front, path, octals[path]))
    ensures multiset(Chosen(places, octals)) == multiset(Chosen(places, octals - {path})) + multiset(EditOf(places, path, octals[path]))
  {
    var front, last := places[..|places| - 1], places[|places| - 1];
    assert NewText(last, octals) == NewText(last, octals - {path});
    assert EditOf(places, path, octals[path]) == EditOf(front, path, octals[path]);
    hide NewText, EditOf;
  }

  lemma {:induction false} ChosenOneMore(output: string, places: seq<Place>, octals: map<seq<Step>, string>, path: seq<Step>)
    requires Printing(output, places) && path in octals
    ensures multiset(Chosen(places, octals)) == multiset(Chosen(places, octals - {path})) + multiset(EditOf(places, path, octals[path]))
  {
    if |places| > 0 {
      var front, last := places[..|places| - 1], places[|places| - 1];
      if last.address == path {
        forall p | p in front ensures p.address != path {
          var i :| 0 <= i < |front| && front[i] == p;
          assert places[i].address != last.address;
        }
        ChosenWithout(front, octals, path);
      } else {
        assert Printing(output, front);
        hide Printing, Chosen, EditOf;
        ChosenOneMore(output, front, octals, path);
        ChosenNext(places, octals, path);
      }
    }
  }

  lemma {:induction false} NothingChosen(places: seq<Place>)
    ensures Chosen(places, map[]) == []
  {
    if |places| > 0 {
      NothingChosen(places[..|places| - 1]);
    }
  }

  /** Look every path up and replace the numbers found, all at once as it comes out. */
  method RestoreLegacyOctal(output: string, places: seq<Place>, octals: map<seq<Step>, string>) returns (result: string)
    requires Printing(output, places)
    ensures Apart(output, Chosen(places, octals)) && result == ReplacedAll(output, Chosen(places, octals))
    ensures forall e :: e in Chosen(places, octals) <==>
              exists p :: p in places && p.address in octals && p.value == Decimal(octals[p.address]) as real
                          && e == Edit(p.start, p.end, octals[p.address])
  {
    ChosenAreApart(output, places, octals);
    ChosenCarryTheTexts(places, octals);
    if octals == map[] {
      NothingChosen(places);
      return output;
    }
    hide Printing, Apart, Chosen, EditOf, ReplacedAll;
    var edits: seq<Edit> := [];
    var left := octals.Keys;
    assert octals - left == map[];
    NothingChosen(places);
    while left != {}
      invariant left <= octals.Keys && multiset(edits) == multiset(Chosen(places, octals - left))
    {
      var path :| path in left;
      ghost var more := octals - (left - {path});
      assert more - {path} == octals - left && path in more && more[path] == octals[path];
      ChosenOneMore(output, places, more, path);
      left := left - {path};
      edits := edits + EditOf(places, path, octals[path]);
    }
    assert octals - left == octals;
    result := ApplyEdits(output, edits, Chosen(places, octals));
  }

  // ---------------------------------------------------------------- which numbers are put back

  /** What a number is remembered under is its own path of what is found there. */
  lemma RememberedIsOwn(address: seq<Step>)
    requires Remembered(address).Some?
    ensures TextKeys(Remembered(address).value) && NoListAbove(Remembered(address).value)
  {
    KeyStepsAreText(address);
  }

  lemma {:induction false} KeyStepsAreText(address: seq<Step>)
    requires TextKeys(address)
    ensures forall s | s in KeySteps(address) :: s.KeyStep? && s.key.TextKey?
  {
    if |address| > 0 {
      KeyStepsAreText(address[..|address| - 1]);
    }
  }

  /**
   A number that was not edited is put back if and only if it is remembered under its own
   address and no later number under the same path left another text there.
   */
  lemma {:induction false} OctalReturnsExactlyWhen(octals: seq<Octal>, k: nat, place: Place)
    requires k < |octals| && IsStill(place, octals[k])
    ensures NewText(place, Collected(octals)) == Some(octals[k].text)
            <==> TextKeys(place.address) && NoListAbove(place.address) && LastUnder(octals, place.address) == Some(octals[k].text)
  {
    LastOneCounts(octals, place.address);
    RememberedExactlyWhen(place.address);
    if LastUnder(octals, place.address).Some? {
      var j := LastIsOneOfThem(octals, place.address);
      RememberedIsOwn(octals[j].address);
    }
  }

  /**
   A number that was not octal is rewritten if and only if it equals the last octal number
   remembered under its address, which is one from somewhere else.
   */
  lemma {:induction false} OthersAreRewrittenExactlyWhen(octals: seq<Octal>, place: Place)
    requires forall k | 0 <= k < |octals| :: octals[k].address != place.address
    ensures NewText(place, Collected(octals)).Some?
            <==> exists k | 0 <= k < |octals| ::
                   && Remembered(octals[k].address) == Some(place.address) != Some(octals[k].address)
                   && (forall j | k < j < |octals| :: Remembered(octals[j].address) != Some(place.address))
                   && place.value == Decimal(octals[k].text) as real
  {
    LastOneCounts(octals, place.address);
    if LastUnder(octals, place.address).Some? {
      var k := LastIsOneOfThem(octals, place.address);
    }
    forall k | 0 <= k < |octals| && Remembered(octals[k].address) == Some(place.address)
               && (forall j | k < j < |octals| :: Remembered(octals[j].address) != Some(place.address))
      ensures LastUnder(octals, place.address) == Some(octals[k].text)
    {
      TheLastOne(octals, k, place.address);
    }
  }

  lemma {:induction false} TheLastOne(octals: seq<Octal>, k: nat, path: seq<Step>)
    requires k < |octals| && Remembered(octals[k].address) == Some(path)
    requires forall j | k < j < |octals| :: Remembered(octals[j].address) != Some(path)
    ensures LastUnder(octals, path) == Some(octals[k].text)
  {
    if k < |octals| - 1 {
      TheLastOne(octals[..|octals| - 1], k, path);
    }
  }

  /** The printed number is the octal one, unedited. */
  predicate IsStill(place: Place, octal: Octal) {
    place.address == octal.address && place.value == Decimal(octal.text) as real
  }

  /** Every octal number of the source is still there, unedited. */
  ghost predicate AllStillThere(octals: seq<Octal>, places: seq<Place>) {
    && (forall i, j | 0 <= i < j < |octals| :: octals[i].address != octals[j].address)
    && forall k | 0 <= k < |octals| :: exists p :: p in places && IsStill(p, octals[k])
  }

  ghost predicate AllReturn(octals: seq<Octal>, places: seq<Place>) {
    forall k, p | 0 <= k < |octals| && p in places && p.address == octals[k].address :: NewText(p, Collected(octals)) == Some(octals[k].text)
  }

  /** Nobody's path is anybody else's, so each number is the last one under its own. */
  lemma OwnPathsDoNotMeet(octals: seq<Octal>, k: nat)
    requires k < |octals| && forall i, j | 0 <= i < j < |octals| :: octals[i].address != octals[j].address
    requires forall i | 0 <= i < |octals| :: Remembered(octals[i].address) == Some(octals[i].address)
    ensures LastUnder(octals, octals[k].address) == Some(octals[k].text)
  {
    OneIsRemembered(octals, k, octals[k].address);
    var j := LastIsOneOfThem(octals, octals[k].address);
    assert j == k;
  }

  lemma StillThere(octals: seq<Octal>, places: seq<Place>, k: nat) returns (p: Place)
    requires AllStillThere(octals, places) && k < |octals|
    ensures p in places && IsStill(p, octals[k])
  {
    var octal := octals[k];
    p :| p in places && IsStill(p, octal);
  }

  /** A number that is still there comes back exactly under its own path, if it is the last one there. */
  lemma EachReturnsExactlyWhen(octals: seq<Octal>, places: seq<Place>, k: nat, p: Place)
    requires AllStillThere(octals, places) && forall i, j | 0 <= i < j < |places| :: places[i].address != places[j].address
    requires k < |octals| && p in places && p.address == octals[k].address
    ensures NewText(p, Collected(octals)) == Some(octals[k].text)
            <==> TextKeys(octals[k].address) && NoListAbove(octals[k].address) && LastUnder(octals, octals[k].address) == Some(octals[k].text)
  {
    var q := StillThere(octals, places, k);
    hide NewText, Collected, Remembered, TextKeys, NoListAbove, LastUnder, Decimal;
    OctalReturnsExactlyWhen(octals, k, q);
  }

  /**
   All octal numbers of a document come back if and only if the keys above each are strings
   and no list lies above any, except the one it is an item of; and then no other number is
   touched.
   */
  lemma AllReturnExactlyWhen(octals: seq<Octal>, places: seq<Place>)
    requires AllStillThere(octals, places) && forall i, j | 0 <= i < j < |places| :: places[i].address != places[j].address
    ensures AllReturn(octals, places) <==> forall k | 0 <= k < |octals| :: TextKeys(octals[k].address) && NoListAbove(octals[k].address)
    ensures AllReturn(octals, places) ==>
      forall p | p in places && (forall k | 0 <= k < |octals| :: octals[k].address != p.address) :: NewText(p, Collected(octals)).None?
  {
    hide NewText, Collected, Remembered, TextKeys, NoListAbove, LastUnder, Decimal;
    if forall k | 0 <= k < |octals| :: TextKeys(octals[k].address) && NoListAbove(octals[k].address) {
      OwnPathsReturn(octals, places);
    }
    if AllReturn(octals, places) {
      forall k | 0 <= k < |octals| ensures TextKeys(octals[k].address) && NoListAbove(octals[k].address) {
        var q := StillThere(octals, places, k);
        EachReturnsExactlyWhen(octals, places, k, q);
      }
      OwnPathsReturn(octals, places);
    }
  }

  lemma OwnPathsReturn(octals: seq<Octal>, places: seq<Place>)
    requires AllStillThere(octals, places) && forall i, j | 0 <= i < j < |places| :: places[i].address != places[j].address
    requires forall k | 0 <= k < |octals| :: TextKeys(octals[k].address) && NoListAbove(octals[k].address)
    ensures AllReturn(octals, places)
    ensures forall p | p in places && (forall k | 0 <= k < |octals| :: octals[k].address != p.address) :: NewText(p, Collected(octals)).None?
  {
    hide NewText, Collected, Remembered, TextKeys, NoListAbove, LastUnder, Decimal;
    forall k | 0 <= k < |octals| ensures Remembered(octals[k].address) == Some(octals[k].address) {
      RememberedExactlyWhen(octals[k].address);
    }
    forall k, p | 0 <= k < |octals| && p in places && p.address == octals[k].address
      ensures NewText(p, Collected(octals)) == Some(octals[k].text)
    {
      OwnPathsDoNotMeet(octals, k);
      EachReturnsExactlyWhen(octals, places, k, p);
    }
    forall p | p in places && (forall k | 0 <= k < |octals| :: octals[k].address != p.address) ensures NewText(p, Collected(octals)).None? {
      OthersAreRewrittenExactlyWhen(octals, p);
    }
  }

  /**
   A path that is not the number's own leads to a node of the same document only out of
   nested lists: it drops all indexes but the last.
   */
  lemma MisplacedOnlyFromNestedLists(tree: Node, address: seq<Step>) returns (n: nat)
    requires Remembered(address).Some? && Remembered(address).value != address
    requires GetIn(tree, address).Some? && GetIn(tree, Remembered(address).value).Some?
    ensures n + 2 <= |address| && (forall i | 0 <= i < n :: address[i].KeyStep?) && (forall i | n <= i < |address| :: address[i].IndexStep?)
    ensures Remembered(address).value == address[..n] + [address[|address| - 1]]
  {
    RememberedExactlyWhen(address);
    n := FirstIndex(address);
    SequenceAt(tree, address, n);
    KeyStepsOnly(address[..n]);
    KeyStepsFrom(address, n);
    if i :| n <= i < |address| && address[i].KeyStep? {
      NextKey(address, n, i);
      var path, key := Remembered(address).value, KeySteps(address)[n];
      assert path[..n + 1] == address[..n] + [key];
      KeyBelowSequence(tree, path, address[..n], key);
      assert false;
    }
    OnlyIndexes(address, n);
  }

  lemma KeyBelowSequence(tree: Node, path: seq<Step>, above: seq<Step>, key: Step)
    requires key.KeyStep? && GetIn(tree, above).Some? && GetIn(tree, above).value.Seq?
    requires |above| < |path| && path[..|above| + 1] == above + [key]
    ensures GetIn(tree, path).None?
  {
    NoKeyInSequence(tree, above, key.key);
    if GetIn(tree, path).Some? {
      PrefixIsThere(tree, path, |above| + 1);
    }
  }

  lemma {:induction false} FirstIndex(address: seq<Step>) returns (n: nat)
    requires exists i :: 0 <= i < |address| - 1 && address[i].IndexStep?
    ensures n < |address| - 1 && address[n].IndexStep? && forall i | 0 <= i < n :: address[i].KeyStep?
  {
    if i :| 0 <= i < |address| - 2 && address[i].IndexStep? {
      assert address[..|address| - 1][i].IndexStep?;
      n := FirstIndex(address[..|address| - 1]);
    } else {
      n := |address| - 2;
    }
  }

  lemma {:induction false} SequenceAt(tree: Node, address: seq<Step>, n: nat)
    requires n < |address| && GetIn(tree, address).Some? && address[n].IndexStep?
    ensures GetIn(tree, address[..n]).Some? && GetIn(tree, address[..n]).value.Seq?
  {
    if n > 0 {
      SequenceAt(Child(tree, address[0]).value, address[1..], n - 1);
      assert address[..n][1..] == address[1..][..n - 1];
    }
  }

  lemma {:induction false} PrefixIsThere(tree: Node, path: seq<Step>, n: nat)
    requires n <= |path| && GetIn(tree, path).Some?
    ensures GetIn(tree, path[..n]).Some?
  {
    if n > 0 {
      PrefixIsThere(Child(tree, path[0]).value, path[1..], n - 1);
      assert path[..n][1..] == path[1..][..n - 1];
    }
  }

  /** The keys of an address that starts with keys. */
  lemma {:induction false} KeyStepsFrom(address: seq<Step>, n: nat)
    requires n <= |address| && forall i | 0 <= i < n :: address[i].KeyStep?
    ensures |KeySteps(address)| >= n && KeySteps(address)[..n] == address[..n]
  {
    if |address| > n {
      KeyStepsFrom(address[..|address| - 1], n);
      assert address[..|address| - 1][..n] == address[..n];
    } else {
      KeyStepsOnly(address);
      assert address[..n] == address;
    }
  }

  lemma {:induction false} AllAreKeys(address: seq<Step>)
    ensures forall i | 0 <= i < |KeySteps(address)| :: KeySteps(address)[i].KeyStep?
  {
    if |address| > 0 {
      AllAreKeys(address[..|address| - 1]);
    }
  }

  lemma {:induction false} NextKey(address: seq<Step>, n: nat, i: nat)
    requires n <= i < |address| && address[i].KeyStep? && forall j | 0 <= j < n :: address[j].KeyStep?
    ensures |KeySteps(address)| > n && KeySteps(address)[n].KeyStep?
  {
    AllAreKeys(address);
    KeyStepsFrom(address[..|address| - 1], n);
    if i < |address| - 1 {
      NextKey(address[..|address| - 1], n, i);
    }
  }

  lemma {:induction false} OnlyIndexes(address: seq<Step>, n: nat)
    requires n <= |address| && (forall i | 0 <= i < n :: address[i].KeyStep?) && forall i | n <= i < |address| :: address[i].IndexStep?
    ensures KeySteps(address) == address[..n]
  {
    if |address| > n {
      OnlyIndexes(address[..|address| - 1], n);
      assert address[..|address| - 1][..n] == address[..n];
    } else {
      KeyStepsOnly(address);
      assert address[..n] == address;
    }
  }

  /**
   Two inputs. In `x-a: [0644, [0755]]` both numbers have the path of the first: the second
   overwrites its text, is not that number, and 0644 stays decimal. In `x-a: [1777, [01777]]`
   the decimal 1777 is rewritten as the octal.
   */
  lemma NestedListsMisplace()
    ensures var a := KeyStep(TextKey("x-a"));
            var first := [Octal([a, IndexStep(0)], "0644"), Octal([a, IndexStep(1), IndexStep(0)], "0755")];
            var second := [Octal([a, IndexStep(1), IndexStep(0)], "01777")];
            && TextKeys(first[0].address) && NoListAbove(first[0].address)
            && (forall start: nat, end: nat :: NewText(Place([a, IndexStep(0)], 644.0, start, end), Collected(first)).None?)
            && (forall start: nat, end: nat :: NewText(Place([a, IndexStep(0)], 1777.0, start, end), Collected(second)) == Some("01777"))
  {
    var a := KeyStep(TextKey("x-a"));
    var first := [Octal([a, IndexStep(0)], "0644"), Octal([a, IndexStep(1), IndexStep(0)], "0755")];
    var second := [Octal([a, IndexStep(1), IndexStep(0)], "01777")];
    NestedPath(a, 1, 0);
    FourDigits("0755");
    FourDigits("0177");
    assert "01777"[..4] == "0177";
    LastOneCounts(first, [a, IndexStep(0)]);
    LastOneCounts(second, [a, IndexStep(0)]);
  }

  lemma NestedPath(key: Step, outer: nat, inner: nat)
    requires key.KeyStep? && key.key.TextKey?
    ensures Remembered([key, IndexStep(outer), IndexStep(inner)]) == Some([key, IndexStep(inner)])
  {
    var address := [key, IndexStep(outer), IndexStep(inner)];
    OnlyIndexes(address, 1);
    assert address[..1] == [key] && [key] + [IndexStep(inner)] == [key, IndexStep(inner)];
  }

  lemma FourDigits(text: string)
    requires |text| == 4
    ensures Decimal(text) == (text[0] as int - '0' as int) * 1000 + (text[1] as int - '0' as int) * 100
                             + (text[2] as int - '0' as int) * 10 + (text[3] as int - '0' as int)
  {
    assert Decimal(text[..0]) == 0 && text[..1][..0] == text[..0];
    assert Decimal(text[..1]) == text[0] as int - '0' as int;
    assert text[..2][..1] == text[..1];
    assert Decimal(text[..2]) == (text[0] as int - '0' as int) * 10 + (text[1] as int - '0' as int);
    assert text[..3][..2] == text[..2];
  }
}
