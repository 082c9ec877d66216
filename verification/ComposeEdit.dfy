/**
 How an annotated tree is edited from the plain value it was read as to another one.

 `Edited` says what every node becomes by following the tree. The document's own methods go
 key by key and item by item through paths, change one place at a time, and arrive there.
 */
module ComposeEdit {
  import opened Results
  import opened ComposeTree

  // ---------------------------------------------------------------- keys that count as wanted

  /** The names that every ordinary object has from its prototype. */
  predicate Inherited(name: string) {
    name in {"constructor", "hasOwnProperty", "isPrototypeOf", "propertyIsEnumerable", "toLocaleString", "toString", "valueOf",
             "__proto__", "__defineGetter__", "__defineSetter__", "__lookupGetter__", "__lookupSetter__"}
  }

  /** What `key in object` says. */
  predicate Present(value: Value, key: string)
    requires value.Obj?
  {
    key in value.fields || Inherited(key)
  }

  /** The keys that the editor takes out. */
  function Gone(current: Value, next: Value): set<string>
    requires current.Obj? && next.Obj?
  {
    set key | key in current.fields && !Present(next, key)
  }

  /** A key is to go and stays, because every object has its name. */
  predicate Lingers(current: Value, next: Value)
    decreases current
  {
    match (current, next)
    case (Obj(cs, _), Obj(ns, _)) => exists key | key in cs :: if key in ns then Lingers(cs[key], ns[key]) else Inherited(key)
    case (Arr(cs), Arr(ns)) => exists i | 0 <= i < |cs| && i < |ns| :: cs[i].Obj? && ns[i].Obj? && Lingers(cs[i], ns[i])
    case _ => false
  }

  lemma {:induction false} SameTextLingersNot(current: Value, next: Value)
    requires SameText(current, next)
    ensures !Lingers(current, next)
    decreases current
  {
    if current.Obj? && next.Obj? {
      assert Printed(current).fields.Keys == current.fields.Keys && Printed(next).fields.Keys == next.fields.Keys;
      forall key | key in current.fields ensures key in next.fields && !Lingers(current.fields[key], next.fields[key]) {
        assert Printed(current).fields[key] == Printed(next).fields[key];
        SameTextLingersNot(current.fields[key], next.fields[key]);
      }
    } else if current.Arr? && next.Arr? {
      forall i | 0 <= i < |current.items| && i < |next.items| ensures !Lingers(current.items[i], next.items[i]) {
        assert Printed(current).items[i] == Printed(current.items[i]) && Printed(next).items[i] == Printed(next.items[i]);
        SameTextLingersNot(current.items[i], next.items[i]);
      }
    }
  }

  // ---------------------------------------------------------------- what every node becomes

  /** A scalar is overwritten in place and keeps its note; anything else is replaced. */
  function SetValue(node: Node, next: Value): Node {
    if node.Scalar? && IsScalar(next) then node.(value := next) else Raw(next)
  }

  function Edited(node: Node, current: Value, next: Value): Node
    decreases node, 1
  {
    match (node, current, next)
    case (Map(pairs, note), Obj(_, _), Obj(fields, order)) =>
      Map(EditedPairs(pairs, current, next, Gone(current, next), fields.Keys) + NewPairs(current, next, order), note)
    case (Seq(items, note), Arr(olds), Arr(news)) =>
      if SameText(current, next) then node
      else Seq(seq(|news|, i requires 0 <= i < |news| =>
                 if i < |olds| && i < |items| then EditedItem(items[i], olds[i], news[i]) else Raw(news[i])), note)
    case _ => if SameText(current, next) then node else SetValue(node, next)
  }

  /** An item is merged key by key if it stays a mapping, and replaced as a whole otherwise. */
  function EditedItem(node: Node, current: Value, next: Value): Node
    decreases node, 2
  {
    if SameText(current, next) then node
    else if node.Map? && current.Obj? && next.Obj? then Edited(node, current, next)
    else SetValue(node, next)
  }

  /** The pairs in their order, without those gone, with those done edited. */
  function EditedPairs(pairs: seq<Pair>, current: Value, next: Value, gone: set<string>, done: set<string>): seq<Pair>
    requires current.Obj? && next.Obj?
    decreases pairs
  {
    if |pairs| == 0 then []
    else
      var front := EditedPairs(pairs[..|pairs| - 1], current, next, gone, done);
      var last := pairs[|pairs| - 1];
      var text := last.key.text;
      if text in gone then front
      else if text in done && text in current.fields && text in next.fields
      then front + [last.(value := Edited(last.value, current.fields[text], next.fields[text]))]
      else front + [last]
  }

  /** Keys that were not there come last, in the order of the wanted object. */
  function NewPairs(current: Value, next: Value, order: seq<string>): seq<Pair>
    requires current.Obj? && next.Obj?
  {
    if |order| == 0 then []
    else
      var key := order[|order| - 1];
      NewPairs(current, next, order[..|order| - 1])
      + if key in next.fields && key !in current.fields then [Pair(TextKey(key), "", Raw(next.fields[key]))] else []
  }

  // ---------------------------------------------------------------- the tree reaches the wanted value

  /** The editor's view of a tree: its plain value, in whatever order of keys. */
  predicate Views(node: Node, current: Value) {
    Json(current) == Json(ValueOf(node))
  }

  predicate PairsView(pairs: seq<Pair>, current: Value)
    requires current.Obj?
  {
    forall i | 0 <= i < |pairs| :: pairs[i].key.text in current.fields && Views(pairs[i].value, current.fields[pairs[i].key.text])
  }

  lemma ViewOfPairs(node: Node, current: Value)
    requires node.Map? && current.Obj? && Views(node, current) && DistinctTexts(node.pairs)
    ensures PairsView(node.pairs, current)
    ensures forall text :: text in current.fields <==> HasText(node.pairs, text)
  {
    var fields := FieldsOf(node.pairs);
    assert Json(current).fields.Keys == current.fields.Keys && Json(ValueOf(node)).fields.Keys == fields.Keys;
    FieldsHaveTexts(node.pairs);
    forall i | 0 <= i < |node.pairs|
      ensures node.pairs[i].key.text in current.fields && Views(node.pairs[i].value, current.fields[node.pairs[i].key.text])
    {
      FieldOfPair(node.pairs, i);
      var text := node.pairs[i].key.text;
      assert Json(current).fields[text] == Json(current.fields[text]) && Json(ValueOf(node)).fields[text] == Json(fields[text]);
    }
  }

  lemma FieldsOfOneMore(pairs: seq<Pair>, pair: Pair)
    ensures FieldsOf(pairs + [pair]) == FieldsOf(pairs)[pair.key.text := ValueOf(pair.value)]
  {
    assert (pairs + [pair])[..|pairs|] == pairs;
  }

  lemma {:induction false} FieldsOfNewPairs(current: Value, next: Value, order: seq<string>)
    requires current.Obj? && next.Obj?
    ensures var fields := FieldsOf(NewPairs(current, next, order));
            && (forall key :: key in fields <==> key in order && key in next.fields && key !in current.fields)
            && (forall key | key in fields :: fields[key] == next.fields[key])
  {
    if |order| > 0 {
      var front, key := order[..|order| - 1], order[|order| - 1];
      FieldsOfNewPairs(current, next, front);
      assert forall k :: k in order <==> k in front || k == key;
      var pairs := NewPairs(current, next, front);
      assert pairs + [] == pairs;
      if key in next.fields && key !in current.fields {
        FieldsOfOneMore(pairs, Pair(TextKey(key), "", Raw(next.fields[key])));
      }
    }
  }

  /** The pairs that stay say what is wanted of their keys, unless a key lingers below. */
  lemma {:induction false} FieldsOfEditedPairs(pairs: seq<Pair>, current: Value, next: Value)
    requires current.Obj? && next.Obj? && PairsView(pairs, current) && Ordered(next)
    requires forall i | 0 <= i < |pairs| :: Unambiguous(pairs[i].value)
    ensures var fields := FieldsOf(EditedPairs(pairs, current, next, Gone(current, next), next.fields.Keys));
            && (forall text :: text in fields <==> text in FieldsOf(pairs) && text !in Gone(current, next))
            && (forall text | text in fields && text in next.fields ::
                  text in current.fields && Met(fields[text], current.fields[text], next.fields[text], ParsedPairs(pairs)))
    decreases pairs, 0
  {
    if |pairs| > 0 {
      var front, last := pairs[..|pairs| - 1], pairs[|pairs| - 1];
      var text := last.key.text;
      FieldsOfEditedPairs(front, current, next);
      FieldsHaveTexts(pairs);
      assert HasText(pairs, text);
      assert ParsedPairs(pairs) ==> ParsedPairs(front) && Parsed(last.value);
      hide Met, Lingers, Inherited, ParsedPairs;
      var kept := EditedPairs(front, current, next, Gone(current, next), next.fields.Keys);
      if text in next.fields {
        EditReachesNext(last.value, current.fields[text], next.fields[text]);
        MetWhenParsed(ValueOf(Edited(last.value, current.fields[text], next.fields[text])), current.fields[text], next.fields[text], last.value, ParsedPairs(pairs));
        FieldsOfOneMore(kept, last.(value := Edited(last.value, current.fields[text], next.fields[text])));
      } else if text !in Gone(current, next) {
        FieldsOfOneMore(kept, last);
      }
      forall text | text in FieldsOf(kept) && text in next.fields
        ensures Met(FieldsOf(kept)[text], current.fields[text], next.fields[text], ParsedPairs(pairs))
      {
        MetLess(FieldsOf(kept)[text], current.fields[text], next.fields[text], ParsedPairs(front), ParsedPairs(pairs));
      }
    }
  }

  /** A value is the wanted one if nothing lingers; for what the parser built, only then. */
  predicate Met(value: Value, current: Value, next: Value, parsed: bool) {
    && (!Lingers(current, next) ==> Json(value) == Json(next))
    && (parsed && Lingers(current, next) ==> Json(value) != Json(next))
  }

  predicate ParsedPairs(pairs: seq<Pair>) {
    forall i | 0 <= i < |pairs| :: Parsed(pairs[i].value)
  }

  lemma MetWhenParsed(value: Value, current: Value, next: Value, node: Node, parsed: bool)
    requires Met(value, current, next, Parsed(node)) && (parsed ==> Parsed(node))
    ensures Met(value, current, next, parsed)
  {
  }

  lemma MetLess(value: Value, current: Value, next: Value, more: bool, less: bool)
    requires Met(value, current, next, more) && (less ==> more)
    ensures Met(value, current, next, less)
  {
  }

  /**
   After an edit the tree says what was wanted, up to key order and numbers JSON cannot tell
   from null, if and only if no key that is to go has the name of an inherited property.
   */
  lemma {:induction false} EditReachesNext(node: Node, current: Value, next: Value)
    requires Views(node, current) && Unambiguous(node) && Ordered(next)
    ensures !Lingers(current, next) ==> Json(ValueOf(Edited(node, current, next))) == Json(next)
    ensures Parsed(node) && Lingers(current, next) ==> Json(ValueOf(Edited(node, current, next))) != Json(next)
    ensures Met(ValueOf(Edited(node, current, next)), current, next, Parsed(node))
    decreases node, 1
  {
    hide FieldsOf, EditedPairs, NewPairs, Json, Printed, EditedItem, Unambiguous, Ordered, Lingers, Edited, ValueOf, Views, Parsed;
    if node.Map? && current.Obj? && next.Obj? {
      MappingReachesNext(node, current, next);
    } else if node.Seq? && current.Arr? && next.Arr? && !SameText(current, next) {
      SequenceReachesNext(node, current, next);
    } else {
      LeafReachesNext(node, current, next);
    }
  }

  lemma LeafReachesNext(node: Node, current: Value, next: Value)
    requires Views(node, current) && !(node.Map? && current.Obj? && next.Obj?)
    requires !(node.Seq? && current.Arr? && next.Arr?) || SameText(current, next)
    ensures Met(ValueOf(Edited(node, current, next)), current, next, Parsed(node))
  {
    if SameText(current, next) {
      SameTextSameJson(current, next);
      SameTextLingersNot(current, next);
      hide Lingers, Json, Printed;
    } else {
      assert Json(current) == Json(ValueOf(node));
    }
  }

  lemma {:induction false} MappingReachesNext(node: Node, current: Value, next: Value)
    requires Views(node, current) && Unambiguous(node) && Ordered(next) && node.Map? && current.Obj? && next.Obj?
    ensures Met(ValueOf(Edited(node, current, next)), current, next, Parsed(node))
    decreases node, 0
  {
    assert Parsed(node) == ParsedPairs(node.pairs);
    var kept, added := EditedPairs(node.pairs, current, next, Gone(current, next), next.fields.Keys), NewPairs(current, next, next.order);
    assert ValueOf(Edited(node, current, next)) == Obj(FieldsOf(kept + added), []);
    hide Json, EditedPairs, NewPairs, PairsView, HasText, Inherited, Lingers, Met, Parsed;
    ViewOfPairs(node, current);
    FieldsOfEditedPairs(node.pairs, current, next);
    FieldsOfNewPairs(current, next, next.order);
    FieldsHaveTexts(node.pairs);
    FieldsOfConcat(kept, added);
    var after := FieldsOf(kept) + FieldsOf(added);
    assert forall key :: key in after <==> key in next.fields || (key in current.fields && Inherited(key));
    assert forall key | key in next.fields && key !in current.fields :: after[key] == next.fields[key];
    FieldsMeet(after, current, next, ParsedPairs(node.pairs));
  }

  lemma FieldsMeet(after: map<string, Value>, current: Value, next: Value, parsed: bool)
    requires current.Obj? && next.Obj? && forall key :: key in after <==> key in next.fields || (key in current.fields && Inherited(key))
    requires forall key | key in next.fields ::
               if key in current.fields then Met(after[key], current.fields[key], next.fields[key], parsed) else after[key] == next.fields[key]
    ensures Met(Obj(after, []), current, next, parsed)
  {
    var said, wanted := Json(Obj(after, [])), Json(next);
    assert said.fields.Keys == after.Keys && wanted.fields.Keys == next.fields.Keys;
    assert forall key | key in after :: said.fields[key] == Json(after[key]);
    assert forall key | key in next.fields :: wanted.fields[key] == Json(next.fields[key]);
    hide Json, Inherited;
    if !Lingers(current, next) {
      assert forall key | key in after :: key in next.fields;
      assert said.fields == wanted.fields;
    } else if parsed {
      var key :| key in current.fields && if key in next.fields then Lingers(current.fields[key], next.fields[key]) else Inherited(key);
      assert key in after && (key in next.fields ==> said.fields[key] != wanted.fields[key]);
    }
  }

  lemma {:induction false} SequenceReachesNext(node: Node, current: Value, next: Value)
    requires Views(node, current) && Unambiguous(node) && Ordered(next) && node.Seq? && current.Arr? && next.Arr? && !SameText(current, next)
    ensures Met(ValueOf(Edited(node, current, next)), current, next, Parsed(node))
    decreases node, 0
  {
    assert |Json(current).items| == |Json(ValueOf(node)).items|;
    var after := ValueOf(Edited(node, current, next)).items;
    forall i | 0 <= i < |next.items| && i < |current.items|
      ensures Met(after[i], current.items[i], next.items[i], Parsed(node) && current.items[i].Obj? && next.items[i].Obj?)
      ensures !(current.items[i].Obj? && next.items[i].Obj?) ==> Json(after[i]) == Json(next.items[i])
    {
      assert Json(current).items[i] == Json(current.items[i]) && Json(ValueOf(node)).items[i] == Json(ValueOf(node.items[i]));
      ItemReachesNext(node.items[i], current.items[i], next.items[i]);
    }
    forall i | |current.items| <= i < |next.items| ensures after[i] == next.items[i] {
      assert after[i] == ValueOf(Edited(node, current, next).items[i]) == ValueOf(Raw(next.items[i]));
    }
    hide Edited, ValueOf, Parsed, Ordered, Unambiguous;
    ItemsMeet(after, current, next, Parsed(node));
  }

  lemma ItemsMeet(after: seq<Value>, current: Value, next: Value, parsed: bool)
    requires current.Arr? && next.Arr? && |after| == |next.items|
    requires forall i | 0 <= i < |next.items| && i < |current.items| ::
               && Met(after[i], current.items[i], next.items[i], parsed && current.items[i].Obj? && next.items[i].Obj?)
               && (!(current.items[i].Obj? && next.items[i].Obj?) ==> Json(after[i]) == Json(next.items[i]))
    requires forall i | |current.items| <= i < |next.items| :: after[i] == next.items[i]
    ensures Met(Arr(after), current, next, parsed)
  {
    var said, wanted := Json(Arr(after)), Json(next);
    assert |said.items| == |after| && |wanted.items| == |next.items|;
    assert forall i | 0 <= i < |after| :: said.items[i] == Json(after[i]);
    assert forall i | 0 <= i < |after| :: wanted.items[i] == Json(next.items[i]);
    hide Json;
    if !Lingers(current, next) {
      assert said.items == wanted.items;
    } else if parsed {
      var i :| 0 <= i < |current.items| && i < |next.items| && current.items[i].Obj? && next.items[i].Obj? && Lingers(current.items[i], next.items[i]);
      assert said.items[i] != wanted.items[i];
    }
  }

  lemma {:induction false} ItemReachesNext(node: Node, current: Value, next: Value)
    requires Views(node, current) && (node.Map? ==> Unambiguous(node)) && Ordered(next)
    ensures Met(ValueOf(EditedItem(node, current, next)), current, next, Parsed(node) && current.Obj? && next.Obj?)
    ensures !(current.Obj? && next.Obj?) ==> Json(ValueOf(EditedItem(node, current, next))) == Json(next)
    decreases node, 2
  {
    if SameText(current, next) {
      SameTextSameJson(current, next);
      SameTextLingersNot(current, next);
    } else if node.Map? && current.Obj? && next.Obj? {
      EditReachesNext(node, current, next);
    } else {
      assert Json(current) == Json(ValueOf(node));
    }
  }

  // ---------------------------------------------------------------- untouched nodes stay as they are

  lemma {:induction false} SamePairs(pairs: seq<Pair>, current: Value, next: Value, done: set<string>)
    requires current.Obj? && next.Obj? && forall key | key in current.fields && key in next.fields :: SameText(current.fields[key], next.fields[key])
    ensures EditedPairs(pairs, current, next, {}, done) == pairs
    decreases pairs, 0
  {
    if |pairs| > 0 {
      var front, last := pairs[..|pairs| - 1], pairs[|pairs| - 1];
      SamePairs(front, current, next, done);
      assert pairs == front + [last];
      if last.key.text in current.fields && last.key.text in next.fields {
        EqualValuesKeepTheNode(last.value, current.fields[last.key.text], next.fields[last.key.text]);
      }
    }
  }

  lemma {:induction false} NothingIsNew(current: Value, next: Value, order: seq<string>)
    requires current.Obj? && next.Obj? && next.fields.Keys <= current.fields.Keys
    ensures NewPairs(current, next, order) == []
  {
    if |order| > 0 {
      NothingIsNew(current, next, order[..|order| - 1]);
    }
  }

  /** A node whose value is wanted as it is stays the very same node, with everything below it. */
  lemma {:induction false} EqualValuesKeepTheNode(node: Node, current: Value, next: Value)
    requires SameText(current, next)
    ensures Edited(node, current, next) == node
    decreases node, 1
  {
    if node.Map? && current.Obj? && next.Obj? {
      assert Printed(current).fields.Keys == current.fields.Keys && Printed(next).fields.Keys == next.fields.Keys;
      assert Gone(current, next) == {};
      forall key | key in current.fields && key in next.fields ensures SameText(current.fields[key], next.fields[key]) {
        assert Printed(current).fields[key] == Printed(next).fields[key];
      }
      SamePairs(node.pairs, current, next, next.fields.Keys);
      NothingIsNew(current, next, next.order);
      assert node.pairs + [] == node.pairs;
    }
  }

  /** Looking further after the first pair. */
  // ---------------------------------------------------------------- order, keys and notes

  /** The pairs that stay are those not gone, in their order and with their keys: these are their places. */
  lemma {:induction false} PairsKeepTheirOrder(pairs: seq<Pair>, current: Value, next: Value, gone: set<string>, done: set<string>) returns (places: seq<nat>)
    requires current.Obj? && next.Obj?
    ensures var edited := EditedPairs(pairs, current, next, gone, done);
            && |places| == |edited|
            && (forall i | 0 <= i < |places| ::
                  && places[i] < |pairs| && edited[i].key == pairs[places[i]].key && edited[i].keyNote == pairs[places[i]].keyNote
                  && (edited[i].key.text !in done ==> edited[i].value == pairs[places[i]].value))
    ensures forall i, j | 0 <= i < j < |places| :: places[i] < places[j]
    ensures forall k: nat :: k in places <==> k < |pairs| && pairs[k].key.text !in gone
  {
    places := [];
    if |pairs| > 0 {
      var front, last := pairs[..|pairs| - 1], pairs[|pairs| - 1];
      places := PairsKeepTheirOrder(front, current, next, gone, done);
      if last.key.text !in gone {
        places := places + [|pairs| - 1];
      }
    }
  }

  /** New keys come in the order they are wanted in: these are their places in it. */
  lemma {:induction false} NewPairsInOrder(current: Value, next: Value, order: seq<string>) returns (places: seq<nat>)
    requires current.Obj? && next.Obj?
    ensures var added := NewPairs(current, next, order);
            && |places| == |added|
            && (forall i | 0 <= i < |places| ::
                  && places[i] < |order| && order[places[i]] in next.fields
                  && added[i] == Pair(TextKey(order[places[i]]), "", Raw(next.fields[order[places[i]]])))
    ensures forall i, j | 0 <= i < j < |places| :: places[i] < places[j]
    ensures forall k: nat :: k in places <==> k < |order| && order[k] in next.fields && order[k] !in current.fields
  {
    places := [];
    if |order| > 0 {
      places := NewPairsInOrder(current, next, order[..|order| - 1]);
      var key := order[|order| - 1];
      if key in next.fields && key !in current.fields {
        places := places + [|order| - 1];
      }
    }
  }

  /**
   An edited mapping keeps its note, and its keys with their notes and their order, but for
   those that are neither wanted nor inherited; new keys follow in the order they are wanted in.
   */
  lemma KeysKeepTheirOrder(node: Node, current: Value, next: Value) returns (kept: seq<nat>, added: seq<nat>)
    requires node.Map? && current.Obj? && next.Obj?
    ensures var edited := Edited(node, current, next);
            && edited.Map? && edited.note == node.note && |edited.pairs| == |kept| + |added|
            && (forall i | 0 <= i < |kept| ::
                  && kept[i] < |node.pairs| && edited.pairs[i].key == node.pairs[kept[i]].key && edited.pairs[i].keyNote == node.pairs[kept[i]].keyNote
                  && (edited.pairs[i].key.text !in next.fields ==> edited.pairs[i].value == node.pairs[kept[i]].value))
            && (forall i | 0 <= i < |added| ::
                  && added[i] < |next.order| && next.order[added[i]] in next.fields
                  && edited.pairs[|kept| + i] == Pair(TextKey(next.order[added[i]]), "", Raw(next.fields[next.order[added[i]]])))
    ensures forall i, j | 0 <= i < j < |kept| :: kept[i] < kept[j]
    ensures forall i, j | 0 <= i < j < |added| :: added[i] < added[j]
    ensures forall k: nat :: k in kept <==>
              k < |node.pairs| && var text := node.pairs[k].key.text; text !in current.fields || text in next.fields || Inherited(text)
    ensures forall k: nat :: k in added <==> k < |next.order| && next.order[k] in next.fields && next.order[k] !in current.fields
  {
    hide EditedPairs, NewPairs, Inherited;
    kept := PairsKeepTheirOrder(node.pairs, current, next, Gone(current, next), next.fields.Keys);
    added := NewPairsInOrder(current, next, next.order);
  }

  /** An edited sequence keeps its note and has one item for each wanted; only a mapping that stays one is edited inside. */
  lemma ItemsKeepTheirPlaces(node: Node, current: Value, next: Value)
    requires node.Seq? && current.Arr? && next.Arr?
    ensures SameText(current, next) ==> Edited(node, current, next) == node
    ensures !SameText(current, next) ==>
              var edited := Edited(node, current, next);
              && edited.Seq? && edited.note == node.note && |edited.items| == |next.items|
              && forall i | 0 <= i < |next.items| ::
                   && (i >= |current.items| || i >= |node.items| ==> edited.items[i] == Raw(next.items[i]))
                   && (i < |current.items| && i < |node.items| ==>
                         && (SameText(current.items[i], next.items[i]) ==> edited.items[i] == node.items[i])
                         && (!SameText(current.items[i], next.items[i]) && node.items[i].Scalar? && IsScalar(next.items[i]) ==>
                               edited.items[i] == node.items[i].(value := next.items[i]))
                         && (!SameText(current.items[i], next.items[i]) && node.items[i].Map? && current.items[i].Obj? && next.items[i].Obj? ==>
                               edited.items[i] == Edited(node.items[i], current.items[i], next.items[i])))
  {
    hide SameText, EditedPairs, NewPairs;
  }

  function After(rest: Option<nat>): Option<nat> {
    if rest.Some? then Some(rest.value + 1) else None
  }

  lemma FindFirstOr(pairs: seq<Pair>, rest: seq<Pair>, key: Key)
    requires |pairs| > 0 && pairs[1..] == rest
    ensures Find(pairs, key) == if pairs[0].key == key then Some(0) else After(Find(rest, key))
  {
  }

  lemma {:induction false} FindInConcat(a: seq<Pair>, b: seq<Pair>, key: Key)
    ensures Find(a, key).Some? ==> Find(a + b, key) == Find(a, key)
    ensures Find(a, key).None? ==> Find(a + b, key) == (if Find(b, key).Some? then Some(|a| + Find(b, key).value) else None)
  {
    if |a| == 0 {
      assert a + b == b;
    } else {
      FindInConcat(a[1..], b, key);
      FindFirstOr(a, a[1..], key);
      FindFirstOr(a + b, a[1..] + b, key);
      hide Find;
    }
  }

  /** The pair of a key that stays is found again, with its value edited. */
  lemma {:induction false} EditedPairIsFound(pairs: seq<Pair>, current: Value, next: Value, gone: set<string>, done: set<string>, key: Key)
    requires current.Obj? && next.Obj? && key.text !in gone && key.text in done && key.text in current.fields && key.text in next.fields
    ensures var found, after := Find(pairs, key), EditedPairs(pairs, current, next, gone, done);
            if found.Some? then
              && Find(after, key).Some?
              && after[Find(after, key).value]
                 == pairs[found.value].(value := Edited(pairs[found.value].value, current.fields[key.text], next.fields[key.text]))
            else Find(after, key).None?
  {
    if |pairs| > 0 {
      var front, last := pairs[..|pairs| - 1], pairs[|pairs| - 1];
      EditedPairIsFound(front, current, next, gone, done, key);
      assert pairs == front + [last];
      FindInConcat(front, [last], key);
      var text, edited := last.key.text, EditedPairs(front, current, next, gone, done);
      hide EditedItem;
      if text !in gone && text in done && text in current.fields && text in next.fields {
        FindInConcat(edited, [last.(value := Edited(last.value, current.fields[text], next.fields[text]))], key);
      } else {
        FindInConcat(edited, [last], key);
      }
    }
  }

  /** The recursion gets to a path: mappings all the way, and items only as mappings. */
  predicate Reaches(node: Node, current: Value, next: Value, path: seq<Step>)
    decreases path
  {
    |path| == 0 ||
    (var child := Child(node, path[0]);
     match (node, current, next, path[0])
     case (Map(_, _), Obj(cs, _), Obj(ns, _), KeyStep(key)) =>
       child.Some? && key.text in cs && key.text in ns && Reaches(child.value, cs[key.text], ns[key.text], path[1..])
     case (Seq(_, _), Arr(cs), Arr(ns), IndexStep(i)) =>
       && child.Some? && i < |cs| && i < |ns|
       && (|path| == 1 || (child.value.Map? && cs[i].Obj? && ns[i].Obj? && Reaches(child.value, cs[i], ns[i], path[1..])))
     case _ => false)
  }

  function ValueAt(value: Value, path: seq<Step>): Option<Value>
    decreases path
  {
    if |path| == 0 then Some(value)
    else
      match (value, path[0])
      case (Obj(fields, _), KeyStep(key)) => if key.text in fields then ValueAt(fields[key.text], path[1..]) else None
      case (Arr(items), IndexStep(i)) => if i < |items| then ValueAt(items[i], path[1..]) else None
      case _ => None
  }

  /**
   Wherever the recursion gets, a node whose value is wanted as it is stays the same node, and
   a scalar that becomes another scalar keeps its note.
   */
  lemma {:induction false} UntouchedNodesStay(node: Node, current: Value, next: Value, path: seq<Step>)
    requires Reaches(node, current, next, path)
    ensures ValueAt(current, path).Some? && ValueAt(next, path).Some? && GetIn(node, path).Some?
    ensures SameText(ValueAt(current, path).value, ValueAt(next, path).value) ==>
              GetIn(Edited(node, current, next), path) == GetIn(node, path)
    ensures !SameText(ValueAt(current, path).value, ValueAt(next, path).value)
            && GetIn(node, path).value.Scalar? && IsScalar(ValueAt(next, path).value) ==>
              GetIn(Edited(node, current, next), path) == Some(GetIn(node, path).value.(value := ValueAt(next, path).value))
    decreases path
  {
    if |path| == 0 {
      if SameText(current, next) {
        EqualValuesKeepTheNode(node, current, next);
      }
    } else if node.Map? {
      var key := path[0].key;
      var child := Child(node, path[0]).value;
      UntouchedNodesStay(child, current.fields[key.text], next.fields[key.text], path[1..]);
      EditedPairIsFound(node.pairs, current, next, Gone(current, next), next.fields.Keys, key);
      FindInConcat(EditedPairs(node.pairs, current, next, Gone(current, next), next.fields.Keys),
                   NewPairs(current, next, next.order), key);
      assert Child(Edited(node, current, next), path[0]) == Some(Edited(child, current.fields[key.text], next.fields[key.text]));
    } else {
      var i := path[0].index;
      var child := Child(node, path[0]).value;
      if SameText(current, next) {
        assert Printed(current).items[i] == Printed(current.items[i]) && Printed(next).items[i] == Printed(next.items[i]);
      }
      if SameText(current.items[i], next.items[i]) {
        EqualValuesKeepTheNode(child, current.items[i], next.items[i]);
      }
      if |path| > 1 {
        UntouchedNodesStay(child, current.items[i], next.items[i], path[1..]);
      } else {
        assert path[1..] == [];
      }
    }
  }

  // ---------------------------------------------------------------- numbers that JSON cannot write

  /** A tree whose numbers are all finite. */
  predicate FiniteTree(node: Node)
    decreases node
  {
    match node
    case Scalar(value, _) => AllFinite(value)
    case Raw(value) => AllFinite(value)
    case Seq(items, _) => forall i | 0 <= i < |items| :: FiniteTree(items[i])
    case Map(pairs, _) => FinitePairs(pairs)
  }

  predicate FinitePairs(pairs: seq<Pair>)
    decreases pairs
  {
    forall i | 0 <= i < |pairs| :: FiniteTree(pairs[i].value)
  }

  lemma {:induction false} FiniteFields(pairs: seq<Pair>)
    requires FinitePairs(pairs)
    ensures forall text | text in FieldsOf(pairs) :: AllFinite(FieldsOf(pairs)[text])
    decreases pairs
  {
    if |pairs| > 0 {
      FiniteFields(pairs[..|pairs| - 1]);
      FiniteValue(pairs[|pairs| - 1].value);
    }
  }

  lemma {:induction false} FiniteValue(node: Node)
    requires FiniteTree(node)
    ensures AllFinite(ValueOf(node))
    decreases node
  {
    match node
    case Seq(items, _) =>
      forall i | 0 <= i < |items| ensures AllFinite(ValueOf(items[i])) {
        FiniteValue(items[i]);
      }
    case Map(pairs, _) => FiniteFields(pairs);
    case _ =>
  }

  lemma {:induction false} PairsStayFinite(pairs: seq<Pair>, current: Value, next: Value, gone: set<string>, done: set<string>)
    requires current.Obj? && next.Obj? && FinitePairs(pairs) && AllFinite(next)
    ensures FinitePairs(EditedPairs(pairs, current, next, gone, done))
    decreases pairs, 0
  {
    if |pairs| > 0 {
      var last := pairs[|pairs| - 1];
      PairsStayFinite(pairs[..|pairs| - 1], current, next, gone, done);
      if last.key.text in current.fields && last.key.text in next.fields {
        EditStaysFinite(last.value, current.fields[last.key.text], next.fields[last.key.text]);
      }
    }
  }

  lemma {:induction false} NewPairsAreFinite(current: Value, next: Value, order: seq<string>)
    requires current.Obj? && next.Obj? && AllFinite(next)
    ensures FinitePairs(NewPairs(current, next, order))
  {
    if |order| > 0 {
      NewPairsAreFinite(current, next, order[..|order| - 1]);
    }
  }

  lemma {:induction false} EditStaysFinite(node: Node, current: Value, next: Value)
    requires FiniteTree(node) && AllFinite(next)
    ensures FiniteTree(Edited(node, current, next))
    decreases node, 1
  {
    if node.Map? && current.Obj? && next.Obj? {
      PairsStayFinite(node.pairs, current, next, Gone(current, next), next.fields.Keys);
      NewPairsAreFinite(current, next, next.order);
    } else if node.Seq? && current.Arr? && next.Arr? && !SameText(current, next) {
      forall i | 0 <= i < |next.items| && i < |current.items| && i < |node.items|
        ensures FiniteTree(EditedItem(node.items[i], current.items[i], next.items[i]))
      {
        if node.items[i].Map? && current.items[i].Obj? && next.items[i].Obj? {
          EditStaysFinite(node.items[i], current.items[i], next.items[i]);
        }
      }
    }
  }

  /** With finite numbers alone, the tree says exactly what was wanted, if and only if nothing lingers. */
  lemma FiniteEditIsExact(node: Node, current: Value, next: Value)
    requires Views(node, current) && Unambiguous(node) && Ordered(next) && FiniteTree(node) && AllFinite(next)
    ensures !Lingers(current, next) ==> Unordered(ValueOf(Edited(node, current, next))) == Unordered(next)
    ensures Parsed(node) && Lingers(current, next) ==> Unordered(ValueOf(Edited(node, current, next))) != Unordered(next)
  {
    hide *;
    EditReachesNext(node, current, next);
    EditStaysFinite(node, current, next);
    FiniteValue(Edited(node, current, next));
    FiniteJsonIsExact(ValueOf(Edited(node, current, next)));
    FiniteJsonIsExact(next);
  }

  /** A service whose name is inherited, such as "constructor", is taken out in the editor and stays in the tree. */
  lemma InheritedNameLingers(name: string, service: Node)
    requires Inherited(name)
    ensures var node := Map([Pair(TextKey(name), "", service)], "");
            var current, next := Obj(map[name := ValueOf(service)], [name]), Obj(map[], []);
            && Views(node, current) && Ordered(next) && DistinctTexts(node.pairs) && Lingers(current, next)
            && Edited(node, current, next) == node
  {
    hide Inherited;
    var pair := Pair(TextKey(name), "", service);
    var current, next := Obj(map[name := ValueOf(service)], [name]), Obj(map[], []);
    assert FieldsOf([]) == map[];
    FieldsOfOneMore([], pair);
    assert [] + [pair] == [pair];
    assert name in current.fields && Gone(current, next) == {};
    assert EditedPairs([], current, next, {}, {}) == [] && [pair][..0] == [];
    assert EditedPairs([pair], current, next, {}, {}) == [pair];
    assert next.fields.Keys == {} && NewPairs(current, next, []) == [];
  }

  /** What the JSON text shows as null. */
  predicate PrintsAsNull(v: Value) {
    v.Null? || (v.Num? && !v.number.Finite?)
  }

  /** A scalar edit is lost exactly between two different values that both print as null. */
  lemma ScalarEditIsExactUnless(node: Node, next: Value)
    requires node.Scalar? && IsScalar(node.value) && IsScalar(next)
    ensures ValueOf(Edited(node, node.value, next)) == next <==> node.value == next || !(PrintsAsNull(node.value) && PrintsAsNull(next))
    ensures ValueOf(Edited(Scalar(Num(NotANumber), ""), Num(NotANumber), Null)) != Null
  {
  }
}
