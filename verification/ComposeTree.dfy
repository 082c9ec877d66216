/**
 Annotated trees, which stand for Compose documents, and the plain values they are read as.

 A note stands for the comments, the quoting and the layout of one node. Values written by
 the editor are `Raw` until the document is printed: they carry no note.
 */
module ComposeTree {
  import opened Results

  datatype Number = Finite(n: real) | NotANumber | Infinite(negative: bool)

  /** A plain value; the order is the one in which an object lists its keys. */
  datatype Value =
    | Null
    | Bool(b: bool)
    | Num(number: Number)
    | Text(text: string)
    | Arr(items: seq<Value>)
    | Obj(fields: map<string, Value>, order: seq<string>)

  /** A key of a mapping: a string, or another scalar that reads as the text. */
  datatype Key = TextKey(text: string) | OtherKey(text: string)

  datatype Node =
    | Scalar(value: Value, note: string)
    | Map(pairs: seq<Pair>, note: string)
    | Seq(items: seq<Node>, note: string)
    | Raw(value: Value)

  datatype Pair = Pair(key: Key, keyNote: string, value: Node)

  // ---------------------------------------------------------------- values

  predicate IsScalar(v: Value) {
    !v.Arr? && !v.Obj?
  }

  /** A value up to the order of its keys and what its JSON text cannot say. */
  function Json(v: Value): Value {
    match v
    case Num(number) => if number.Finite? then v else Null
    case Arr(items) => Arr(seq(|items|, i requires 0 <= i < |items| => Json(items[i])))
    case Obj(fields, _) => Obj(map key | key in fields :: Json(fields[key]), [])
    case _ => v
  }

  /** The JSON text: key by key in order, and null for numbers that are not finite. */
  function Printed(v: Value): Value {
    match v
    case Num(number) => if number.Finite? then v else Null
    case Arr(items) => Arr(seq(|items|, i requires 0 <= i < |items| => Printed(items[i])))
    case Obj(fields, order) => Obj(map key | key in fields :: Printed(fields[key]), order)
    case _ => v
  }

  predicate SameText(a: Value, b: Value) {
    Printed(a) == Printed(b)
  }

  /** An object lists each of its keys once. */
  ghost predicate Ordered(v: Value) {
    match v
    case Arr(items) => forall i | 0 <= i < |items| :: Ordered(items[i])
    case Obj(fields, order) =>
      && (forall key :: key in order <==> key in fields)
      && (forall i, j | 0 <= i < j < |order| :: order[i] != order[j])
      && forall key | key in fields :: Ordered(fields[key])
    case _ => true
  }

  predicate AllFinite(v: Value) {
    match v
    case Num(number) => number.Finite?
    case Arr(items) => forall i | 0 <= i < |items| :: AllFinite(items[i])
    case Obj(fields, _) => forall key | key in fields :: AllFinite(fields[key])
    case _ => true
  }

  /** A value without the order of its keys. */
  function Unordered(v: Value): Value {
    match v
    case Arr(items) => Arr(seq(|items|, i requires 0 <= i < |items| => Unordered(items[i])))
    case Obj(fields, _) => Obj(map key | key in fields :: Unordered(fields[key]), [])
    case _ => v
  }

  lemma {:induction false} FiniteJsonIsExact(v: Value)
    requires AllFinite(v)
    ensures Json(v) == Unordered(v)
  {
    match v
    case Arr(items) =>
      forall i | 0 <= i < |items| ensures Json(items[i]) == Unordered(items[i]) {
        FiniteJsonIsExact(items[i]);
      }
    case Obj(fields, _) =>
      forall key | key in fields ensures Json(fields[key]) == Unordered(fields[key]) {
        FiniteJsonIsExact(fields[key]);
      }
    case _ =>
  }

  lemma {:induction false} PrintedSaysJson(v: Value)
    ensures Json(Printed(v)) == Json(v)
  {
    match v
    case Arr(items) =>
      forall i | 0 <= i < |items| ensures Json(Printed(items[i])) == Json(items[i]) {
        PrintedSaysJson(items[i]);
      }
    case Obj(fields, _) =>
      forall key | key in fields ensures Json(Printed(fields[key])) == Json(fields[key]) {
        PrintedSaysJson(fields[key]);
      }
    case _ =>
  }

  lemma SameTextSameJson(a: Value, b: Value)
    requires SameText(a, b)
    ensures Json(a) == Json(b)
  {
    PrintedSaysJson(a);
    PrintedSaysJson(b);
  }

  // ---------------------------------------------------------------- what a tree says

  function ValueOf(node: Node): Value
    decreases node
  {
    match node
    case Scalar(value, _) => value
    case Raw(value) => value
    case Seq(items, _) => Arr(seq(|items|, i requires 0 <= i < |items| => ValueOf(items[i])))
    case Map(pairs, _) => Obj(FieldsOf(pairs), [])
  }

  /** The fields of a mapping by the text of their keys; of two with one text the later counts. */
  function FieldsOf(pairs: seq<Pair>): map<string, Value>
    decreases pairs
  {
    if |pairs| == 0 then map[]
    else
      var last := pairs[|pairs| - 1];
      FieldsOf(pairs[..|pairs| - 1])[last.key.text := ValueOf(last.value)]
  }

  predicate HasText(pairs: seq<Pair>, text: string) {
    exists i :: 0 <= i < |pairs| && pairs[i].key.text == text
  }

  predicate DistinctTexts(pairs: seq<Pair>) {
    forall i, j | 0 <= i < j < |pairs| :: pairs[i].key.text != pairs[j].key.text
  }

  /** What the parser builds: scalars hold scalars, and nothing is raw. */
  predicate Parsed(node: Node) {
    match node
    case Scalar(value, _) => IsScalar(value)
    case Raw(_) => false
    case Seq(items, _) => forall i | 0 <= i < |items| :: Parsed(items[i])
    case Map(pairs, _) => forall i | 0 <= i < |pairs| :: Parsed(pairs[i].value)
  }

  /** No mapping that an edit can reach has two keys that read the same, such as 80 and "80". */
  predicate Unambiguous(node: Node) {
    match node
    case Map(pairs, _) => DistinctTexts(pairs) && forall i | 0 <= i < |pairs| :: Unambiguous(pairs[i].value)
    case Seq(items, _) => forall i | 0 <= i < |items| && items[i].Map? :: Unambiguous(items[i])
    case _ => true
  }

  lemma {:induction false} FieldsHaveTexts(pairs: seq<Pair>)
    ensures forall text :: text in FieldsOf(pairs) <==> HasText(pairs, text)
  {
    if |pairs| > 0 {
      var front, last := pairs[..|pairs| - 1], pairs[|pairs| - 1];
      FieldsHaveTexts(front);
      forall text ensures text in FieldsOf(pairs) <==> HasText(pairs, text) {
        if HasText(front, text) {
          var i :| 0 <= i < |front| && front[i].key.text == text;
          assert pairs[i].key.text == text;
        }
        if HasText(pairs, text) && text != last.key.text {
          var i :| 0 <= i < |pairs| && pairs[i].key.text == text;
          assert front[i].key.text == text;
        }
      }
    }
  }

  lemma {:induction false} FieldOfPair(pairs: seq<Pair>, i: nat)
    requires DistinctTexts(pairs) && i < |pairs|
    ensures pairs[i].key.text in FieldsOf(pairs) && FieldsOf(pairs)[pairs[i].key.text] == ValueOf(pairs[i].value)
  {
    if i < |pairs| - 1 {
      FieldOfPair(pairs[..|pairs| - 1], i);
    }
  }

  lemma {:induction false} FieldsOfConcat(a: seq<Pair>, b: seq<Pair>)
    ensures FieldsOf(a + b) == FieldsOf(a) + FieldsOf(b)
  {
    if |b| == 0 {
      assert a + b == a;
    } else {
      FieldsOfConcat(a, b[..|b| - 1]);
      assert (a + b)[..|a + b| - 1] == a + b[..|b| - 1];
    }
  }

  // ---------------------------------------------------------------- paths

  datatype Step = KeyStep(key: Key) | IndexStep(index: nat)

  /** The first pair with exactly this key: 80 does not find "80". */
  function Find(pairs: seq<Pair>, key: Key): (found: Option<nat>)
    ensures found.Some? ==> found.value < |pairs| && pairs[found.value].key == key && forall j | 0 <= j < found.value :: pairs[j].key != key
    ensures found.None? ==> forall j | 0 <= j < |pairs| :: pairs[j].key != key
  {
    if |pairs| == 0 then None
    else if pairs[0].key == key then Some(0)
    else
      var rest := Find(pairs[1..], key);
      assert forall j | 1 <= j < |pairs| :: pairs[j] == pairs[1..][j - 1];
      if rest.Some? then Some(rest.value + 1) else None
  }

  function Child(node: Node, step: Step): Option<Node> {
    match (node, step)
    case (Map(pairs, _), KeyStep(key)) =>
      var found := Find(pairs, key);
      if found.Some? then Some(pairs[found.value].value) else None
    case (Seq(items, _), IndexStep(index)) => if index < |items| then Some(items[index]) else None
    case _ => None
  }

  function WithChild(node: Node, step: Step, child: Node): Node
    requires Child(node, step).Some?
  {
    match (node, step)
    case (Map(pairs, _), KeyStep(key)) =>
      var i := Find(pairs, key).value;
      node.(pairs := pairs[i := pairs[i].(value := child)])
    case (Seq(items, _), IndexStep(index)) => node.(items := items[index := child])
    case _ => node
  }

  function GetIn(node: Node, path: seq<Step>): Option<Node> {
    if |path| == 0 then Some(node)
    else
      var child := Child(node, path[0]);
      if child.Some? then GetIn(child.value, path[1..]) else None
  }

  /** The tree with another node at a path. */
  function Replaced(node: Node, path: seq<Step>, put: Node): Node
    requires GetIn(node, path).Some?
  {
    if |path| == 0 then put else WithChild(node, path[0], Replaced(Child(node, path[0]).value, path[1..], put))
  }

  lemma ChildOfWithChild(node: Node, step: Step, child: Node)
    requires Child(node, step).Some?
    ensures Child(WithChild(node, step, child), step) == Some(child)
    ensures forall other | Child(node, step).Some? :: WithChild(WithChild(node, step, child), step, other) == WithChild(node, step, other)
    ensures WithChild(node, step, Child(node, step).value) == node
  {
    if node.Map? && step.KeyStep? {
      var i := Find(node.pairs, step.key).value;
      var pairs := node.pairs[i := node.pairs[i].(value := child)];
      assert forall j | 0 <= j < |pairs| :: pairs[j].key == node.pairs[j].key;
      assert Find(pairs, step.key) == Some(i);
      forall other: Node ensures pairs[i := pairs[i].(value := other)] == node.pairs[i := node.pairs[i].(value := other)] {
      }
      assert node.pairs[i := node.pairs[i].(value := node.pairs[i].value)] == node.pairs;
    }
  }

  lemma {:induction false} ReplacedIsThere(node: Node, path: seq<Step>, put: Node)
    requires GetIn(node, path).Some?
    ensures GetIn(Replaced(node, path, put), path) == Some(put)
    ensures Replaced(node, path, GetIn(node, path).value) == node
  {
    if |path| > 0 {
      var child := Child(node, path[0]).value;
      ReplacedIsThere(child, path[1..], put);
      ChildOfWithChild(node, path[0], Replaced(child, path[1..], put));
    }
  }

  lemma {:induction false} ReplacedTwice(node: Node, path: seq<Step>, put: Node, again: Node)
    requires GetIn(node, path).Some? && GetIn(Replaced(node, path, put), path).Some?
    ensures Replaced(Replaced(node, path, put), path, again) == Replaced(node, path, again)
  {
    if |path| > 0 {
      var child := Child(node, path[0]).value;
      ChildOfWithChild(node, path[0], Replaced(child, path[1..], put));
      ReplacedTwice(child, path[1..], put, again);
    }
  }

  /** Going one step further down and replacing there is replacing a child. */
  lemma {:induction false} OneStepDown(node: Node, path: seq<Step>, step: Step, put: Node)
    requires GetIn(node, path).Some? && Child(GetIn(node, path).value, step).Some?
    ensures GetIn(node, path + [step]) == Child(GetIn(node, path).value, step)
    ensures Replaced(node, path + [step], put) == Replaced(node, path, WithChild(GetIn(node, path).value, step, put))
  {
    if |path| == 0 {
      assert path + [step] == [step];
      assert [step][1..] == [];
    } else {
      assert (path + [step])[1..] == path[1..] + [step];
      OneStepDown(Child(node, path[0]).value, path[1..], step, put);
    }
  }
}
