/**
 The document that is edited in place, one path at a time.

 `ApplyDiff` and `ApplyArrayDiff` loop over keys and items and change one place after the
 other; each is proved to leave exactly the tree that `Edited` describes.
 */
module ComposeDocument {
  import opened Results
  import opened ComposeTree
  import opened ComposeEdit

  // ---------------------------------------------------------------- changes of one collection

  function Deleted(node: Node, step: Step): Node {
    match (node, step)
    case (Map(pairs, note), KeyStep(key)) =>
      var found := Find(pairs, key);
      if found.Some? then Map(pairs[..found.value] + pairs[found.value + 1..], note) else node
    case (Seq(items, note), IndexStep(index)) =>
      if index < |items| then Seq(items[..index] + items[index + 1..], note) else node
    case _ => node
  }

  function SetAt(node: Node, step: Step, value: Value): Node {
    match (node, step)
    case (Map(pairs, note), KeyStep(key)) =>
      var found := Find(pairs, key);
      if found.Some? then Map(pairs[found.value := pairs[found.value].(value := SetValue(pairs[found.value].value, value))], note)
      else Map(pairs + [Pair(key, "", Raw(value))], note)
    case (Seq(items, note), IndexStep(index)) =>
      if index < |items| then Seq(items[index := SetValue(items[index], value)], note) else node
    case _ => node
  }

  function Added(node: Node, value: Value): Node {
    if node.Seq? then Seq(node.items + [Raw(value)], node.note) else node
  }

  /** The key the tree really uses for a text: one that is no string comes first. */
  function ResolvedKey(pairs: seq<Pair>, text: string): Key {
    if Find(pairs, OtherKey(text)).Some? then OtherKey(text) else TextKey(text)
  }

  lemma KeyOfPair(pairs: seq<Pair>, i: nat)
    requires DistinctTexts(pairs) && i < |pairs|
    ensures ResolvedKey(pairs, pairs[i].key.text) == pairs[i].key && Find(pairs, pairs[i].key) == Some(i)
  {
    assert Find(pairs, OtherKey(pairs[i].key.text)).Some? ==> Find(pairs, OtherKey(pairs[i].key.text)).value == i;
    assert Find(pairs, pairs[i].key).Some?;
    hide Find;
  }

  lemma KeyOfNone(pairs: seq<Pair>, text: string)
    requires !HasText(pairs, text)
    ensures ResolvedKey(pairs, text) == TextKey(text) && Find(pairs, TextKey(text)).None?
  {
    assert forall i | 0 <= i < |pairs| :: pairs[i].key.text != text;
    hide HasText;
  }

  predicate Twins(pairs: seq<Pair>, text: string) {
    exists i, j :: 0 <= i < j < |pairs| && pairs[i].key.text == text == pairs[j].key.text
  }

  /** What the editor does to a text of the mapping that is not wanted: a name every object has is taken for wanted. */
  function Dropped(pairs: seq<Pair>, note: string, next: Value, text: string): Node
    requires next.Obj?
  {
    if Present(next, text) then Map(pairs, note) else Deleted(Map(pairs, note), KeyStep(ResolvedKey(pairs, text)))
  }

  /** A key that is not wanted goes if and only if its name is not inherited and no other key reads the same. */
  lemma KeyIsDroppedExactlyWhen(pairs: seq<Pair>, note: string, next: Value, text: string)
    requires next.Obj? && HasText(pairs, text) && text !in next.fields
    ensures Dropped(pairs, note, next, text).Map?
    ensures text !in FieldsOf(Dropped(pairs, note, next, text).pairs) <==> !Inherited(text) && !Twins(pairs, text)
  {
    FieldsHaveTexts(pairs);
    DeletionNeedsDistinctTexts(pairs, note, text);
    hide FieldsOf, Inherited, HasText, Twins, Find, ResolvedKey;
  }

  /** Deleting a text removes it exactly when no other key reads the same. */
  lemma DeletionNeedsDistinctTexts(pairs: seq<Pair>, note: string, text: string)
    requires HasText(pairs, text)
    ensures text !in FieldsOf(Deleted(Map(pairs, note), KeyStep(ResolvedKey(pairs, text))).pairs) <==> !Twins(pairs, text)
  {
    var key := ResolvedKey(pairs, text);
    var k :| 0 <= k < |pairs| && pairs[k].key.text == text;
    assert pairs[k].key == OtherKey(text) || pairs[k].key == TextKey(text);
    assert Find(pairs, key).Some? && key.text == text;
    var i := Find(pairs, key).value;
    var rest := pairs[..i] + pairs[i + 1..];
    assert Deleted(Map(pairs, note), KeyStep(key)).pairs == rest;
    FieldsHaveTexts(rest);
    RestHasText(pairs, i, text);
  }

  lemma RestHasText(pairs: seq<Pair>, i: nat, text: string)
    requires i < |pairs| && pairs[i].key.text == text
    ensures HasText(pairs[..i] + pairs[i + 1..], text) <==> Twins(pairs, text)
  {
    var rest := pairs[..i] + pairs[i + 1..];
    if Twins(pairs, text) {
      var a, b :| 0 <= a < b < |pairs| && pairs[a].key.text == text == pairs[b].key.text;
      var other := if a == i then b else a;
      assert rest[if other < i then other else other - 1] == pairs[other];
    }
    if HasText(rest, text) {
      var j :| 0 <= j < |rest| && rest[j].key.text == text;
      assert pairs[if j < i then j else j + 1] == rest[j];
    }
  }

  // ---------------------------------------------------------------- one key at a time

  lemma {:induction false} NothingDone(pairs: seq<Pair>, current: Value, next: Value)
    requires current.Obj? && next.Obj?
    ensures EditedPairs(pairs, current, next, {}, {}) == pairs
  {
    if |pairs| > 0 {
      NothingDone(pairs[..|pairs| - 1], current, next);
    }
  }

  /** The texts that remain are the ones that are not gone. */
  lemma {:induction false} RemainingTexts(pairs: seq<Pair>, current: Value, next: Value, gone: set<string>, done: set<string>)
    requires current.Obj? && next.Obj?
    ensures forall pair | pair in EditedPairs(pairs, current, next, gone, done) :: HasText(pairs, pair.key.text) && pair.key.text !in gone
    ensures DistinctTexts(pairs) ==> DistinctTexts(EditedPairs(pairs, current, next, gone, done))
  {
    if |pairs| > 0 {
      var front, last := pairs[..|pairs| - 1], pairs[|pairs| - 1];
      RemainingTexts(front, current, next, gone, done);
      var edited := EditedPairs(front, current, next, gone, done);
      forall pair | pair in edited ensures HasText(pairs, pair.key.text) && (DistinctTexts(pairs) ==> pair.key.text != last.key.text) {
        var i :| 0 <= i < |front| && front[i].key.text == pair.key.text;
        assert pairs[i].key.text == pair.key.text;
      }
      assert HasText(pairs, last.key.text) by {
        assert pairs[|pairs| - 1].key.text == last.key.text;
      }
      if DistinctTexts(pairs) {
        assert forall i | 0 <= i < |edited| :: edited[i] in edited;
      }
    }
  }

  /** One more key gone is one pair less. */
  lemma {:induction false} OneMoreGone(pairs: seq<Pair>, current: Value, next: Value, gone: set<string>, key: string) returns (i: nat)
    requires current.Obj? && next.Obj? && DistinctTexts(pairs) && HasText(pairs, key) && key !in gone
    ensures var before, after := EditedPairs(pairs, current, next, gone, {}), EditedPairs(pairs, current, next, gone + {key}, {});
            i < |before| && before[i].key.text == key && after == before[..i] + before[i + 1..]
  {
    var front, last := pairs[..|pairs| - 1], pairs[|pairs| - 1];
    var before := EditedPairs(front, current, next, gone, {});
    if last.key.text == key {
      i := |before|;
      KeyElsewhere(front, current, next, gone, {}, key);
      assert (before + [last])[..i] == before;
    } else {
      var k :| 0 <= k < |pairs| && pairs[k].key.text == key;
      assert front[k].key.text == key;
      i := OneMoreGone(front, current, next, gone, key);
      if last.key.text !in gone {
        assert (before + [last])[..i] + (before + [last])[i + 1..] == before[..i] + before[i + 1..] + [last];
      }
    }
  }

  /** A key that no pair has changes nothing when it is gone or done. */
  lemma {:induction false} KeyElsewhere(pairs: seq<Pair>, current: Value, next: Value, gone: set<string>, done: set<string>, key: string)
    requires current.Obj? && next.Obj? && forall i | 0 <= i < |pairs| :: pairs[i].key.text != key
    ensures EditedPairs(pairs, current, next, gone + {key}, done) == EditedPairs(pairs, current, next, gone, done)
    ensures EditedPairs(pairs, current, next, gone, done + {key}) == EditedPairs(pairs, current, next, gone, done)
  {
    if |pairs| > 0 {
      KeyElsewhere(pairs[..|pairs| - 1], current, next, gone, done, key);
    }
  }

  /** One more key done is one value edited, at its own place. */
  lemma {:induction false} OneMoreDone(pairs: seq<Pair>, current: Value, next: Value, gone: set<string>, done: set<string>, key: string) returns (i: nat, k: nat)
    requires current.Obj? && next.Obj? && DistinctTexts(pairs) && HasText(pairs, key)
    requires key !in gone && key !in done && key in current.fields && key in next.fields
    ensures var before, after := EditedPairs(pairs, current, next, gone, done), EditedPairs(pairs, current, next, gone, done + {key});
            && i < |before| && k < |pairs| && pairs[k].key.text == key && before[i] == pairs[k]
            && after == before[i := before[i].(value := Edited(before[i].value, current.fields[key], next.fields[key]))]
  {
    var front, last := pairs[..|pairs| - 1], pairs[|pairs| - 1];
    var before := EditedPairs(front, current, next, gone, done);
    if last.key.text == key {
      i, k := |before|, |pairs| - 1;
      KeyElsewhere(front, current, next, gone, done, key);
    } else {
      k :| 0 <= k < |pairs| && pairs[k].key.text == key;
      assert front[k].key.text == key;
      i, k := OneMoreDone(front, current, next, gone, done, key);
    }
  }

  lemma {:induction false} NewPairsOfOneMore(current: Value, next: Value, order: seq<string>, j: nat)
    requires current.Obj? && next.Obj? && j < |order|
    ensures NewPairs(current, next, order[..j + 1])
            == NewPairs(current, next, order[..j])
               + if order[j] in next.fields && order[j] !in current.fields then [Pair(TextKey(order[j]), "", Raw(next.fields[order[j]]))] else []
  {
    assert order[..j + 1][..j] == order[..j];
  }

  lemma {:induction false} NewTexts(current: Value, next: Value, order: seq<string>)
    requires current.Obj? && next.Obj?
    requires forall i, j | 0 <= i < j < |order| :: order[i] != order[j]
    ensures DistinctTexts(NewPairs(current, next, order))
    ensures forall i | 0 <= i < |NewPairs(current, next, order)| ::
              var text := NewPairs(current, next, order)[i].key.text; text in order && text !in current.fields
  {
    if |order| > 0 {
      NewTexts(current, next, order[..|order| - 1]);
      assert forall text | text in order[..|order| - 1] :: text in order;
    }
  }

  function Seen(order: seq<string>): set<string> {
    set key | key in order
  }

  lemma SeenOneMore(order: seq<string>, j: nat)
    requires j < |order|
    ensures Seen(order[..j + 1]) == Seen(order[..j]) + {order[j]}
  {
    assert order[..j + 1] == order[..j] + [order[j]];
  }

  /** A mapping after some keys were deleted and some of the wanted ones were written. */
  function Midway(node: Node, current: Value, next: Value, gone: set<string>, order: seq<string>): Node
    requires node.Map? && current.Obj? && next.Obj?
  {
    Map(EditedPairs(node.pairs, current, next, gone, Seen(order)) + NewPairs(current, next, order), node.note)
  }

  /** What the editing of one mapping is given. */
  ghost predicate MappingGiven(node: Node, current: Value, next: Value) {
    && node.Map? && current.Obj? && next.Obj?
    && Parsed(node) && Unambiguous(node) && Views(node, current) && Ordered(current) && Ordered(next)
  }

  lemma MidwayTexts(node: Node, current: Value, next: Value, gone: set<string>, order: seq<string>)
    requires node.Map? && current.Obj? && next.Obj? && MappingGiven(node, current, next)
    requires forall i, j | 0 <= i < j < |order| :: order[i] != order[j]
    ensures DistinctTexts(node.pairs) && DistinctTexts(Midway(node, current, next, gone, order).pairs)
    ensures forall key | key in current.fields :: HasText(node.pairs, key)
    ensures forall key | key !in current.fields && key !in order :: !HasText(Midway(node, current, next, gone, order).pairs, key)
  {
    ViewOfPairs(node, current);
    RemainingTexts(node.pairs, current, next, gone, Seen(order));
    NewTexts(current, next, order);
    forall key | key !in current.fields && key !in order ensures !HasText(Midway(node, current, next, gone, order).pairs, key) {
      assert !HasText(node.pairs, key);
    }
  }

  lemma OrderIsDistinct(next: Value, j: nat)
    requires next.Obj? && Ordered(next) && j < |next.order|
    ensures next.order[j] in next.fields && next.order[j] !in next.order[..j] && next.order[j] !in Seen(next.order[..j])
    ensures forall i, k | 0 <= i < k < j :: next.order[..j][i] != next.order[..j][k]
  {
    assert next.order[j] in next.order;
  }

  lemma SettingAChild(node: Node, step: Step, value: Value)
    requires Child(node, step).Some?
    ensures SetAt(node, step, value) == WithChild(node, step, SetValue(Child(node, step).value, value))
  {
  }

  lemma ChangesOfPair(pairs: seq<Pair>, note: string, i: nat)
    requires DistinctTexts(pairs) && i < |pairs|
    ensures var node, step := Map(pairs, note), KeyStep(ResolvedKey(pairs, pairs[i].key.text));
            && Deleted(node, step) == Map(pairs[..i] + pairs[i + 1..], note)
            && Child(node, step) == Some(pairs[i].value)
            && (forall child :: WithChild(node, step, child) == Map(pairs[i := pairs[i].(value := child)], note))
  {
    KeyOfPair(pairs, i);
    hide DistinctTexts, Find, ResolvedKey;
  }

  /** Deleting the key that the tree uses for a text is one more key gone. */
  lemma DeletingOneKey(node: Node, current: Value, next: Value, gone: set<string>, key: string)
    requires node.Map? && current.Obj? && next.Obj? && MappingGiven(node, current, next) && key in current.fields && key !in gone
    ensures var before := Midway(node, current, next, gone, []);
            Deleted(before, KeyStep(ResolvedKey(before.pairs, key))) == Midway(node, current, next, gone + {key}, [])
  {
    MidwayTexts(node, current, next, gone, []);
    assert Seen([]) == {} && NewPairs(current, next, []) == [];
    hide MappingGiven, EditedPairs, NewPairs, HasText, DistinctTexts, Deleted, ResolvedKey, Seen;
    var before := EditedPairs(node.pairs, current, next, gone, {});
    assert before + [] == before;
    var i := OneMoreGone(node.pairs, current, next, gone, key);
    ChangesOfPair(before, node.note, i);
  }

  /** A wanted key that is not there yet is appended. */
  lemma AppendingOneKey(node: Node, current: Value, next: Value, gone: set<string>, j: nat)
    requires node.Map? && current.Obj? && next.Obj? && MappingGiven(node, current, next) && j < |next.order| && next.order[j] !in current.fields
    ensures next.order[j] in next.fields
    ensures var before, key := Midway(node, current, next, gone, next.order[..j]), next.order[j];
            SetAt(before, KeyStep(ResolvedKey(before.pairs, key)), next.fields[key]) == Midway(node, current, next, gone, next.order[..j + 1])
  {
    var key, order := next.order[j], next.order[..j];
    GivenOrder(node, current, next, j);
    hide MappingGiven, EditedPairs, NewPairs, HasText, DistinctTexts, ResolvedKey, Seen, Find;
    MidwayTexts(node, current, next, gone, order);
    NoPairHas(node, current, next, key);
    KeyOfNone(Midway(node, current, next, gone, order).pairs, key);
    SeenOneMore(next.order, j);
    NewPairsOfOneMore(current, next, next.order, j);
    KeyElsewhere(node.pairs, current, next, gone, Seen(order), key);
    var kept, added := EditedPairs(node.pairs, current, next, gone, Seen(order)), NewPairs(current, next, order);
    var pair := Pair(TextKey(key), "", Raw(next.fields[key]));
    assert kept + added + [pair] == kept + (added + [pair]);
  }

  /** A wanted key that is there has its original pair still, and editing that is one more key done. */
  lemma PlaceOfKey(node: Node, current: Value, next: Value, gone: set<string>, j: nat) returns (i: nat, k: nat)
    requires node.Map? && current.Obj? && next.Obj? && MappingGiven(node, current, next) && j < |next.order| && next.order[j] in current.fields
    requires gone == Gone(current, next)
    ensures next.order[j] in next.fields
    ensures var before, key := Midway(node, current, next, gone, next.order[..j]), next.order[j];
            && i < |before.pairs| && k < |node.pairs| && before.pairs[i] == node.pairs[k] && node.pairs[k].key.text == key
            && Midway(node, current, next, gone, next.order[..j + 1])
               == Map(before.pairs[i := before.pairs[i].(value := Edited(before.pairs[i].value, current.fields[key], next.fields[key]))], node.note)
  {
    var key, order := next.order[j], next.order[..j];
    GivenOrder(node, current, next, j);
    hide MappingGiven, EditedPairs, NewPairs, HasText, DistinctTexts, Seen, Find, Edited;
    MidwayTexts(node, current, next, gone, order);
    SeenOneMore(next.order, j);
    NewPairsOfOneMore(current, next, next.order, j);
    i, k := OneMoreDone(node.pairs, current, next, gone, Seen(order), key);
    var kept, added := EditedPairs(node.pairs, current, next, gone, Seen(order)), NewPairs(current, next, order);
    PutIntoFront(kept, added, i, kept[i].(value := Edited(kept[i].value, current.fields[key], next.fields[key])));
  }

  lemma PutIntoFront(front: seq<Pair>, back: seq<Pair>, i: nat, pair: Pair)
    requires i < |front|
    ensures (front + back)[i] == front[i] && (front + back)[i := pair] == front[i := pair] + back && back + [] == back
  {
  }

  lemma EditingOneKey(node: Node, current: Value, next: Value, gone: set<string>, j: nat) returns (child: Node)
    requires node.Map? && current.Obj? && next.Obj? && MappingGiven(node, current, next) && j < |next.order| && next.order[j] in current.fields
    requires gone == Gone(current, next)
    ensures next.order[j] in next.fields
    ensures Parsed(child) && Unambiguous(child) && Views(child, current.fields[next.order[j]])
    ensures var before, key := Midway(node, current, next, gone, next.order[..j]), next.order[j];
            var step := KeyStep(ResolvedKey(before.pairs, key));
            && Child(before, step) == Some(child)
            && WithChild(before, step, Edited(child, current.fields[key], next.fields[key])) == Midway(node, current, next, gone, next.order[..j + 1])
  {
    GivenOrder(node, current, next, j);
    MidwayTexts(node, current, next, gone, next.order[..j]);
    var i, k := PlaceOfKey(node, current, next, gone, j);
    OriginalChild(node, current, next, k);
    child := node.pairs[k].value;
    var before := Midway(node, current, next, gone, next.order[..j]);
    assert before == Map(before.pairs, node.note);
    hide *;
    ChangesOfPair(before.pairs, node.note, i);
  }

  lemma NoPairHas(node: Node, current: Value, next: Value, key: string)
    requires node.Map? && current.Obj? && next.Obj? && MappingGiven(node, current, next) && key !in current.fields
    ensures forall i | 0 <= i < |node.pairs| :: node.pairs[i].key.text != key
  {
    ViewOfPairs(node, current);
  }

  lemma GivenOrder(node: Node, current: Value, next: Value, j: nat)
    requires node.Map? && current.Obj? && next.Obj? && MappingGiven(node, current, next) && j < |next.order|
    ensures next.order[j] in next.fields && next.order[j] !in next.order[..j] && next.order[j] !in Seen(next.order[..j])
    ensures forall i, k | 0 <= i < k < j :: next.order[..j][i] != next.order[..j][k]
  {
    OrderIsDistinct(next, j);
  }

  lemma OriginalChild(node: Node, current: Value, next: Value, k: nat)
    requires node.Map? && current.Obj? && next.Obj? && MappingGiven(node, current, next) && k < |node.pairs|
    ensures var pair := node.pairs[k];
            Parsed(pair.value) && Unambiguous(pair.value) && pair.key.text in current.fields && Views(pair.value, current.fields[pair.key.text])
  {
    ViewOfPairs(node, current);
  }

  // ---------------------------------------------------------------- one item at a time

  function Min(a: nat, b: nat): nat {
    if a <= b then a else b
  }

  /** What the editing of one sequence is given, when there is something to edit. */
  ghost predicate SequenceGiven(node: Node, current: Value, next: Value) {
    && node.Seq? && current.Arr? && next.Arr?
    && Parsed(node) && Unambiguous(node) && Views(node, current) && Ordered(current) && Ordered(next)
  }

  /** A sequence after its surplus items were deleted and the first j were written. */
  function ItemsMidway(node: Node, current: Value, next: Value, j: nat): seq<Node>
    requires node.Seq? && current.Arr? && next.Arr? && |node.items| == |current.items| && j <= |next.items|
  {
    seq(j, i requires 0 <= i < j =>
      if i < |current.items| then EditedItem(node.items[i], current.items[i], next.items[i]) else Raw(next.items[i]))
    + if j < |current.items| then node.items[j..Min(|current.items|, |next.items|)] else []
  }

  lemma ItemsGiven(node: Node, current: Value, next: Value)
    requires SequenceGiven(node, current, next)
    ensures |node.items| == |current.items|
    ensures forall i | 0 <= i < |node.items| :: Parsed(node.items[i]) && Views(node.items[i], current.items[i])
    ensures forall i | 0 <= i < |node.items| && current.items[i].Obj? :: node.items[i].Map? && Unambiguous(node.items[i])
  {
    assert |Json(current).items| == |Json(ValueOf(node)).items|;
    forall i | 0 <= i < |node.items| ensures Views(node.items[i], current.items[i]) {
      assert Json(current).items[i] == Json(current.items[i]) && Json(ValueOf(node)).items[i] == Json(ValueOf(node.items[i]));
    }
  }

  lemma ItemsMidwayEnds(node: Node, current: Value, next: Value)
    requires SequenceGiven(node, current, next) && !SameText(current, next) && |node.items| == |current.items|
    ensures ItemsMidway(node, current, next, 0) == node.items[..Min(|current.items|, |next.items|)]
    ensures Seq(ItemsMidway(node, current, next, |next.items|), node.note) == Edited(node, current, next)
  {
    assert ItemsMidway(node, current, next, |next.items|) == Edited(node, current, next).items;
  }

  /** Writing one more item changes it alone, or appends it. */
  lemma OneMoreItem(node: Node, current: Value, next: Value, j: nat)
    requires node.Seq? && current.Arr? && next.Arr? && |node.items| == |current.items| && j < |next.items|
    ensures var before, after := ItemsMidway(node, current, next, j), ItemsMidway(node, current, next, j + 1);
            if j < |current.items|
            then j < |before| && before[j] == node.items[j] && after == before[j := EditedItem(node.items[j], current.items[j], next.items[j])]
            else after == before + [Raw(next.items[j])]
  {
    hide EditedItem;
    var before, after := ItemsMidway(node, current, next, j), ItemsMidway(node, current, next, j + 1);
    if j < |current.items| {
      var m := Min(|current.items|, |next.items|);
      assert |before| == |after| == m;
      forall i | 0 <= i < m ensures i != j ==> after[i] == before[i] {
      }
      assert node.items[j..m][0] == node.items[j];
    }
  }

  // ---------------------------------------------------------------- the document

  class Document {
    var contents: Node

    constructor (parsed: Node)
      ensures contents == parsed
    {
      contents := parsed;
    }

    method DeleteIn(path: seq<Step>, step: Step)
      requires GetIn(contents, path).Some?
      modifies this
      ensures contents == Replaced(old(contents), path, Deleted(GetIn(old(contents), path).value, step))
    {
      contents := Replaced(contents, path, Deleted(GetIn(contents, path).value, step));
    }

    method SetIn(path: seq<Step>, step: Step, value: Value)
      requires GetIn(contents, path).Some?
      modifies this
      ensures contents == Replaced(old(contents), path, SetAt(GetIn(old(contents), path).value, step, value))
    {
      contents := Replaced(contents, path, SetAt(GetIn(contents, path).value, step, value));
    }

    method AddIn(path: seq<Step>, value: Value)
      requires GetIn(contents, path).Some?
      modifies this
      ensures contents == Replaced(old(contents), path, Added(GetIn(old(contents), path).value, value))
    {
      contents := Replaced(contents, path, Added(GetIn(contents, path).value, value));
    }

    /** The first key of the mapping at a path that reads as a text; a new text key if none does. */
    method ResolveMapKey(path: seq<Step>, text: string) returns (key: Key)
      requires GetIn(contents, path).Some? && GetIn(contents, path).value.Map?
      ensures key == ResolvedKey(GetIn(contents, path).value.pairs, text)
    {
      var pairs := GetIn(contents, path).value.pairs;
      var index := 0;
      while index < |pairs|
        invariant 0 <= index <= |pairs|
        invariant forall i | 0 <= i < index :: pairs[i].key != OtherKey(text)
      {
        if pairs[index].key == OtherKey(text) {
          return OtherKey(text);
        }
        index := index + 1;
      }
      return TextKey(text);
    }

    /** Drop the keys that are not wanted any more. */
    method DeleteKeys(path: seq<Step>, ghost node: Node, current: Value, next: Value)
      requires node.Map? && current.Obj? && next.Obj? && MappingGiven(node, current, next) && GetIn(contents, path) == Some(node)
      modifies this
      ensures contents == Replaced(old(contents), path, Midway(node, current, next, Gone(current, next), []))
    {
      ghost var root, gone := contents, {};
      assert Ordered(current);
      StartMidway(node, current, next);
      ReplacedIsThere(root, path, node);
      assert current.order[..0] == [];
      hide MappingGiven, Midway, Replaced, GetIn, Deleted, ResolvedKey;
      var index := 0;
      while index < |current.order|
        invariant 0 <= index <= |current.order|
        invariant forall key :: key in gone <==> key in Seen(current.order[..index]) && !Present(next, key)
        invariant contents == Replaced(root, path, Midway(node, current, next, gone, []))
      {
        var key := current.order[index];
        ghost var before := Midway(node, current, next, gone, []);
        GivenDeletion(node, current, next, index);
        SeenOneMore(current.order, index);
        ReplacedIsThere(root, path, before);
        if !Present(next, key) {
          MidwayIsMap(node, current, next, gone, []);
          var resolved := ResolveMapKey(path, key);
          DeleteIn(path, KeyStep(resolved));
          DeletingOneKey(node, current, next, gone, key);
          ReplacedTwice(root, path, before, Midway(node, current, next, gone + {key}, []));
          gone := gone + {key};
        }
        index := index + 1;
      }
      assert current.order[..index] == current.order;
      AllSeen(current);
      assert gone == Gone(current, next);
    }

    /** Take the mapping at a path from one plain object to another: keys go first, then they are edited or added. */
    method ApplyDiff(path: seq<Step>, current: Value, next: Value)
      requires GetIn(contents, path).Some? && MappingGiven(GetIn(contents, path).value, current, next)
      modifies this
      ensures contents == Replaced(old(contents), path, Edited(GetIn(old(contents), path).value, current, next))
      decreases next, 1
    {
      ghost var root, node := contents, GetIn(contents, path).value;
      DeleteKeys(path, node, current, next);
      ghost var gone := Gone(current, next);
      assert next.order[..0] == [];
      hide MappingGiven, Midway, Replaced, GetIn;
      var index := 0;
      while index < |next.order|
        invariant 0 <= index <= |next.order|
        invariant contents == Replaced(root, path, Midway(node, current, next, gone, next.order[..index]))
      {
        ApplyKey(path, root, node, current, next, index);
        index := index + 1;
      }
      EndMidway(node, current, next);
    }

    /** Bring one wanted key to the document. */
    method ApplyKey(path: seq<Step>, ghost root: Node, ghost node: Node, current: Value, next: Value, index: nat)
      requires node.Map? && current.Obj? && next.Obj? && MappingGiven(node, current, next) && index < |next.order|
      requires GetIn(root, path) == Some(node)
      requires contents == Replaced(root, path, Midway(node, current, next, Gone(current, next), next.order[..index]))
      modifies this
      ensures contents == Replaced(root, path, Midway(node, current, next, Gone(current, next), next.order[..index + 1]))
      decreases next, 0
    {
      ghost var gone := Gone(current, next);
      ghost var before, after := Midway(node, current, next, gone, next.order[..index]), Midway(node, current, next, gone, next.order[..index + 1]);
      ReplacedIsThere(root, path, before);
      GivenOrder(node, current, next, index);
      MidwayIsMap(node, current, next, gone, next.order[..index]);
      var key := next.order[index];
      hide MappingGiven, Midway, Replaced, GetIn, SetAt, WithChild, Child, Edited, ResolvedKey, Find, Printed;
      var resolved := ResolveMapKey(path, key);
      var step := KeyStep(resolved);
      if key !in current.fields {
        // an inherited name stands for a function, which no JSON text equals, so it is set like any new key
        SetIn(path, step, next.fields[key]);
        AppendingOneKey(node, current, next, gone, index);
        ReplacedTwice(root, path, before, after);
        return;
      }
      ghost var child := EditingOneKey(node, current, next, gone, index);
      ApplyChild(path, root, before, after, step, child, current.fields[key], next.fields[key]);
    }

    /** Bring the wanted value of a key that is there to its node. */
    method ApplyChild(path: seq<Step>, ghost root: Node, ghost before: Node, ghost after: Node, step: Step, ghost child: Node,
                      current: Value, next: Value)
      requires GetIn(root, path).Some? && contents == Replaced(root, path, before)
      requires Child(before, step) == Some(child) && ChildGiven(child, current, next)
      requires after == WithChild(before, step, Edited(child, current, next))
      modifies this
      ensures contents == Replaced(root, path, after)
      decreases next, 2
    {
      ghost var start := contents;
      ReplacedIsThere(root, path, before);
      OneStepDown(start, path, step, Edited(child, current, next));
      if !IsCollectionPair(current, next) {
        LeafEdited(child, current, next);
      } else {
        GivenKinds(child, current, next);
      }
      ChildOfWithChild(before, step, child);
      SettingAChild(before, step, next);
      hide ChildGiven, MappingGiven, SequenceGiven, Replaced, GetIn, SetAt, WithChild, Child, Edited, Printed;
      if current.Obj? && next.Obj? {
        ApplyDiff(path + [step], current, next);
      } else if current.Arr? && next.Arr? {
        ApplyArrayDiff(path + [step], current, next);
      } else if !SameText(current, next) {
        SetIn(path, step, next);
      } else {
        ReplacedIsThere(start, path, before);
      }
      ReplacedTwice(root, path, before, after);
    }

    /** Take the sequence at a path from one plain list to another, position by position. */
    method ApplyArrayDiff(path: seq<Step>, current: Value, next: Value)
      requires GetIn(contents, path).Some? && SequenceGiven(GetIn(contents, path).value, current, next)
      modifies this
      ensures contents == Replaced(old(contents), path, Edited(GetIn(old(contents), path).value, current, next))
      decreases next, 1
    {
      ghost var root, node := contents, GetIn(contents, path).value;
      if SameText(current, next) {
        EqualValuesKeepTheNode(node, current, next);
        ReplacedIsThere(root, path, node);
        return;
      }
      ItemsGiven(node, current, next);
      ItemsMidwayEnds(node, current, next);
      DeleteItems(path, node, |current.items|, |next.items|);
      hide SequenceGiven, Replaced, GetIn, Edited, Printed, ItemsMidway;
      var index := 0;
      while index < |next.items|
        invariant 0 <= index <= |next.items|
        invariant contents == Replaced(root, path, Seq(ItemsMidway(node, current, next, index), node.note))
      {
        ApplyItem(path, root, node, current, next, index);
        index := index + 1;
      }
    }

    /** One item at a time is deleted, always the last one, until as many are left as are wanted. */
    method DeleteItems(path: seq<Step>, ghost node: Node, count: nat, wanted: nat)
      requires node.Seq? && |node.items| == count && GetIn(contents, path) == Some(node)
      modifies this
      ensures contents == Replaced(old(contents), path, Seq(node.items[..Min(count, wanted)], node.note))
    {
      ghost var root := contents;
      ReplacedIsThere(root, path, node);
      assert node.items[..count] == node.items;
      hide Replaced, GetIn;
      var index := count;
      while index > wanted
        invariant Min(count, wanted) <= index <= count
        invariant contents == Replaced(root, path, Seq(node.items[..index], node.note))
      {
        ghost var before := Seq(node.items[..index], node.note);
        ReplacedIsThere(root, path, before);
        index := index - 1;
        DeleteIn(path, IndexStep(index));
        assert node.items[..index + 1][..index] + node.items[..index + 1][index + 1..] == node.items[..index];
        ReplacedTwice(root, path, before, Seq(node.items[..index], node.note));
      }
    }

    /** Bring one wanted item to the document. */
    method ApplyItem(path: seq<Step>, ghost root: Node, ghost node: Node, current: Value, next: Value, index: nat)
      requires SequenceGiven(node, current, next) && |node.items| == |current.items| && index < |next.items|
      requires GetIn(root, path).Some? && contents == Replaced(root, path, Seq(ItemsMidway(node, current, next, index), node.note))
      modifies this
      ensures contents == Replaced(root, path, Seq(ItemsMidway(node, current, next, index + 1), node.note))
      decreases next, 0
    {
      ghost var start := contents;
      ghost var before := Seq(ItemsMidway(node, current, next, index), node.note);
      ghost var after := Seq(ItemsMidway(node, current, next, index + 1), node.note);
      ItemsGiven(node, current, next);
      OneMoreItem(node, current, next, index);
      ReplacedIsThere(root, path, before);
      hide SequenceGiven, Replaced, GetIn, Edited, Printed, ItemsMidway;
      var step, item := IndexStep(index), next.items[index];
      if index >= |current.items| {
        AddIn(path, item);
      } else if !SameText(current.items[index], item) {
        ghost var child := node.items[index];
        assert Child(before, step) == Some(child);
        OneStepDown(start, path, step, EditedItem(child, current.items[index], item));
        if current.items[index].Obj? && item.Obj? {
          assert MappingGiven(child, current.items[index], item);
          ApplyDiff(path + [step], current.items[index], item);
        } else {
          SettingAChild(before, step, item);
          SetIn(path, step, item);
        }
        assert after == WithChild(before, step, EditedItem(child, current.items[index], item));
      } else {
        assert before.items[index := node.items[index]] == before.items;
        ReplacedIsThere(start, path, before);
      }
      assert contents == Replaced(start, path, after);
      hide *;
      ReplacedTwice(root, path, before, after);
    }
  }

  // ---------------------------------------------------------------- small facts the methods use

  lemma StartMidway(node: Node, current: Value, next: Value)
    requires node.Map? && current.Obj? && next.Obj?
    ensures Midway(node, current, next, {}, []) == node
  {
    NothingDone(node.pairs, current, next);
    assert Seen([]) == {} && node.pairs + [] == node.pairs;
  }

  lemma EndMidway(node: Node, current: Value, next: Value)
    requires node.Map? && current.Obj? && next.Obj? && Ordered(next)
    ensures Midway(node, current, next, Gone(current, next), next.order[..|next.order|]) == Edited(node, current, next)
  {
    assert next.order[..|next.order|] == next.order;
    AllSeen(next);
  }

  lemma AllSeen(value: Value)
    requires value.Obj? && Ordered(value)
    ensures Seen(value.order) == value.fields.Keys
  {
  }

  lemma MidwayIsMap(node: Node, current: Value, next: Value, gone: set<string>, order: seq<string>)
    requires node.Map? && current.Obj? && next.Obj?
    ensures Midway(node, current, next, gone, order).Map?
  {
  }

  lemma GivenDeletion(node: Node, current: Value, next: Value, index: nat)
    requires node.Map? && current.Obj? && next.Obj? && MappingGiven(node, current, next) && index < |current.order|
    ensures current.order[index] in current.fields && current.order[index] !in Seen(current.order[..index])
  {
    OrderIsDistinct(current, index);
  }

  predicate IsCollectionPair(current: Value, next: Value) {
    (current.Obj? && next.Obj?) || (current.Arr? && next.Arr?)
  }

  ghost predicate ChildGiven(child: Node, current: Value, next: Value) {
    Parsed(child) && Unambiguous(child) && Views(child, current) && Ordered(current) && Ordered(next)
  }

  lemma LeafEdited(child: Node, current: Value, next: Value)
    requires !IsCollectionPair(current, next)
    ensures Edited(child, current, next) == if SameText(current, next) then child else SetValue(child, next)
  {
  }

  /** A plain object is seen where the tree has a mapping, and a list where it has a sequence. */
  lemma GivenKinds(child: Node, current: Value, next: Value)
    requires ChildGiven(child, current, next)
    ensures current.Obj? && next.Obj? ==> MappingGiven(child, current, next)
    ensures current.Arr? && next.Arr? ==> SequenceGiven(child, current, next)
  {
  }
}
