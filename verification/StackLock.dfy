/**
 The queue of operations on one stack directory, as a chain of promises.

 An operation registers a promise that ends when it does and when all before it have, and
 waits for the one registered before. `queues` keeps the newest promise of each directory and
 forgets it when its operation leaves. A nested call for a held directory does not queue but
 runs at once. Operations are numbered in the order they asked.
 */
module StackLock {
  import opened Results

  datatype Phase = Waiting | Running | Finished

  /** How an operation got in: under a directory its caller holds, or behind another one. */
  datatype Entry = Reentered | Queued(previous: Option<nat>)

  /** A call to the lock; `held` are the directories its own nested calls will find held. */
  datatype Operation = Operation(key: string, parent: Option<nat>, held: set<string>, entry: Entry, phase: Phase)

  function Owned(ops: seq<Operation>, parent: Option<nat>): set<string> {
    if parent.Some? && parent.value < |ops| then ops[parent.value].held else {}
  }

  /** Both wait for the same directory, one behind the other. */
  predicate SameQueue(a: Operation, b: Operation) {
    a.entry.Queued? && b.entry.Queued? && a.key == b.key
  }

  predicate FirstInLine(ops: seq<Operation>, i: nat)
    requires i < |ops|
  {
    forall j | 0 <= j < i && SameQueue(ops[j], ops[i]) :: ops[j].phase.Finished?
  }

  /** The promise of an operation ends after its own end and that of the one before it. */
  predicate Resolved(ops: seq<Operation>, i: nat)
    requires i < |ops|
  {
    && ops[i].phase.Finished?
    && match ops[i].entry
       case Queued(Some(previous)) => previous < i && Resolved(ops, previous)
       case _ => true
  }

  /** The operation's wait is over: there was none before it, or that one's promise ended. */
  predicate MayRun(ops: seq<Operation>, i: nat)
    requires i < |ops|
  {
    && ops[i].phase.Waiting?
    && match ops[i].entry
       case Queued(Some(previous)) => previous < i && Resolved(ops, previous)
       case _ => true
  }

  predicate NestedCallsFinished(ops: seq<Operation>, i: nat) {
    forall j | 0 <= j < |ops| && ops[j].parent == Some(i) :: ops[j].phase.Finished?
  }

  predicate LinkedToPrevious(ops: seq<Operation>, i: nat)
    requires i < |ops| && ops[i].entry.Queued?
  {
    match ops[i].entry.previous
    case None => FirstInLine(ops, i)
    case Some(p) =>
      p < i && SameQueue(ops[p], ops[i]) && forall j | p < j < i :: !SameQueue(ops[j], ops[i])
  }

  predicate OperationValid(ops: seq<Operation>, i: nat)
    requires i < |ops|
  {
    var op := ops[i];
    && (op.parent.Some? ==> op.parent.value < i)
    && op.held == Owned(ops, op.parent) + {op.key}
    && (op.entry.Reentered? <==> op.key in Owned(ops, op.parent))
    && (op.entry.Reentered? ==> !op.phase.Waiting?)
    && (op.entry.Queued? ==> LinkedToPrevious(ops, i))
    && (op.entry.Queued? && !op.phase.Waiting? ==> FirstInLine(ops, i))
    && (op.parent.Some? && !op.phase.Finished? ==> ops[op.parent.value].phase.Running?)
  }

  /** The entry of a directory is its newest operation, and stays as long as that has not left. */
  predicate QueueValid(ops: seq<Operation>, queues: map<string, nat>, key: string)
    requires key in queues
  {
    var newest := queues[key];
    && newest < |ops| && ops[newest].entry.Queued? && ops[newest].key == key && !ops[newest].phase.Finished?
    && forall j | newest < j < |ops| :: !SameQueue(ops[j], ops[newest])
  }

  predicate Valid(ops: seq<Operation>, queues: map<string, nat>) {
    && (forall i | 0 <= i < |ops| :: OperationValid(ops, i))
    && (forall key | key in queues :: QueueValid(ops, queues, key))
    && (forall i | 0 <= i < |ops| && ops[i].entry.Queued? && !ops[i].phase.Finished? :: ops[i].key in queues)
  }

  class StackLocks {
    var ops: seq<Operation>
    var queues: map<string, nat>

    constructor ()
      ensures ops == [] && queues == map[] && Valid(ops, queues)
    {
      ops, queues := [], map[];
    }

    /** Whether some operation holds the directory or waits for it. */
    method StackLockBusy(key: string) returns (busy: bool)
      requires Valid(ops, queues)
      ensures busy <==> exists i :: 0 <= i < |ops| && ops[i].entry.Queued? && ops[i].key == key && !ops[i].phase.Finished?
    {
      busy := key in queues;
      assert busy ==> QueueValid(ops, queues, key);
    }

    /** Ask for a directory, from inside another operation or from outside of all. */
    method Enter(parent: Option<nat>, key: string) returns (op: nat)
      requires Valid(ops, queues)
      requires parent.Some? ==> parent.value < |ops| && ops[parent.value].phase.Running?
      modifies this
      ensures Valid(ops, queues) && op == |old(ops)| && |ops| == op + 1 && ops[..op] == old(ops)
      ensures var owned := Owned(old(ops), parent);
              && ops[op].key == key && ops[op].parent == parent && ops[op].held == owned + {key}
              && (key in owned ==> ops[op].entry.Reentered? && ops[op].phase.Running? && queues == old(queues))
              && (key !in owned ==>
                    && ops[op].entry.Queued? && ops[op].phase.Waiting?
                    && queues == old(queues)[key := op])
    {
      op := |ops|;
      var owned := Owned(ops, parent);
      if key in owned {
        EnteringKeepsValid(ops, queues, Operation(key, parent, owned + {key}, Reentered, Running));
        ops := ops + [Operation(key, parent, owned + {key}, Reentered, Running)];
        return;
      }
      var previous := if key in queues then Some(queues[key]) else None;
      EnteringKeepsValid(ops, queues, Operation(key, parent, owned + {key}, Queued(previous), Waiting));
      ops := ops + [Operation(key, parent, owned + {key}, Queued(previous), Waiting)];
      queues := queues[key := op];
    }

    /** The wait is over and the operation starts. */
    method Resume(op: nat)
      requires Valid(ops, queues) && op < |ops| && MayRun(ops, op)
      modifies this`ops
      ensures Valid(ops, queues) && ops == old(ops)[op := old(ops)[op].(phase := Running)]
      ensures FirstInLine(ops, op)
    {
      RunsWhenFirst(ops, op);
      ResumingKeepsValid(ops, queues, op);
      ops := ops[op := ops[op].(phase := Running)];
    }

    /** The operation ended, one way or the other: its promise ends and the last one clears the entry. */
    method Leave(op: nat)
      requires Valid(ops, queues) && op < |ops| && ops[op].phase.Running? && NestedCallsFinished(ops, op)
      modifies this
      ensures Valid(ops, queues) && ops == old(ops)[op := old(ops)[op].(phase := Finished)]
      ensures forall key | key != ops[op].key :: key in queues <==> key in old(queues)
    {
      LeavingKeepsValid(ops, queues, op);
      var key := ops[op].key;
      var queued := ops[op].entry.Queued?;
      ops := ops[op := ops[op].(phase := Finished)];
      if queued && key in queues && queues[key] == op {
        queues := queues - {key};
      }
    }
  }

  // ---------------------------------------------------------------- every step keeps the state valid

  lemma EnteringKeepsValid(ops: seq<Operation>, queues: map<string, nat>, op: Operation)
    requires Valid(ops, queues)
    requires op.parent.Some? ==> op.parent.value < |ops| && ops[op.parent.value].phase.Running?
    requires op.held == Owned(ops, op.parent) + {op.key}
    requires if op.key in Owned(ops, op.parent) then op.entry.Reentered? && op.phase.Running?
             else op.entry == Queued(if op.key in queues then Some(queues[op.key]) else None) && op.phase.Waiting?
    ensures Valid(ops + [op], if op.entry.Queued? then queues[op.key := |ops|] else queues)
  {
    var after, registered := ops + [op], if op.entry.Queued? then queues[op.key := |ops|] else queues;
    forall i | 0 <= i < |after| ensures OperationValid(after, i) {
      if i < |ops| {
        assert OperationValid(ops, i);
      } else if op.key in queues {
        assert QueueValid(ops, queues, op.key);
      }
    }
    forall key | key in registered ensures QueueValid(after, registered, key) {
      if key in queues {
        assert QueueValid(ops, queues, key);
      }
    }
  }

  lemma ResumingKeepsValid(ops: seq<Operation>, queues: map<string, nat>, op: nat)
    requires Valid(ops, queues) && op < |ops| && MayRun(ops, op) && FirstInLine(ops, op)
    ensures Valid(ops[op := ops[op].(phase := Running)], queues)
  {
    var after := ops[op := ops[op].(phase := Running)];
    forall i | 0 <= i < |after| ensures OperationValid(after, i) {
      assert OperationValid(ops, i);
    }
    forall key | key in queues ensures QueueValid(after, queues, key) {
      assert QueueValid(ops, queues, key);
    }
  }

  lemma LeavingKeepsValid(ops: seq<Operation>, queues: map<string, nat>, op: nat)
    requires Valid(ops, queues) && op < |ops| && ops[op].phase.Running? && NestedCallsFinished(ops, op)
    ensures var after := ops[op := ops[op].(phase := Finished)];
            Valid(after, if ops[op].entry.Queued? && ops[op].key in queues && queues[ops[op].key] == op then queues - {ops[op].key} else queues)
  {
    var after := ops[op := ops[op].(phase := Finished)];
    assert OperationValid(ops, op);
    forall i | 0 <= i < |after| ensures OperationValid(after, i) {
      assert OperationValid(ops, i);
    }
    forall key | key in queues && !(ops[op].entry.Queued? && key == ops[op].key && queues[key] == op)
      ensures QueueValid(after, queues, key)
    {
      assert QueueValid(ops, queues, key);
    }
    if ops[op].entry.Queued? {
      assert ops[op].key in queues && QueueValid(ops, queues, ops[op].key);
    }
  }

  // ---------------------------------------------------------------- what holds in every valid state

  /** A promise has ended exactly when nobody up to its operation is left in the queue. */
  lemma {:induction false} ResolvedMeansAllLeft(ops: seq<Operation>, i: nat)
    requires (forall j | 0 <= j < |ops| :: OperationValid(ops, j)) && i < |ops| && ops[i].entry.Queued?
    ensures Resolved(ops, i) <==> ops[i].phase.Finished? && FirstInLine(ops, i)
    decreases i
  {
    assert OperationValid(ops, i);
    if ops[i].entry.previous.Some? {
      var p := ops[i].entry.previous.value;
      assert OperationValid(ops, p);
      ResolvedMeansAllLeft(ops, p);
      if Resolved(ops, p) {
        forall j | 0 <= j < i && SameQueue(ops[j], ops[i]) ensures ops[j].phase.Finished? {
          assert j <= p;
          assert SameQueue(ops[j], ops[p]);
        }
      }
    }
  }

  /** An operation may run exactly when everyone who asked for the directory before it has left. */
  lemma RunsWhenFirst(ops: seq<Operation>, i: nat)
    requires (forall j | 0 <= j < |ops| :: OperationValid(ops, j)) && i < |ops| && ops[i].phase.Waiting?
    ensures MayRun(ops, i) <==> FirstInLine(ops, i)
  {
    assert OperationValid(ops, i);
    if ops[i].entry.previous.Some? {
      var p := ops[i].entry.previous.value;
      ResolvedMeansAllLeft(ops, p);
      if Resolved(ops, p) {
        forall j | 0 <= j < i && SameQueue(ops[j], ops[i]) ensures ops[j].phase.Finished? {
          assert j <= p;
          assert SameQueue(ops[j], ops[p]);
        }
      }
    }
  }

  /** At most one operation that had to queue for a directory runs in it. */
  lemma OneAtATime(ops: seq<Operation>, queues: map<string, nat>, i: nat, j: nat)
    requires Valid(ops, queues) && i < |ops| && j < |ops| && SameQueue(ops[i], ops[j])
    requires ops[i].phase.Running? && ops[j].phase.Running?
    ensures i == j
  {
    assert OperationValid(ops, i) && OperationValid(ops, j);
  }

  /** They start in the order they asked, whatever became of the earlier ones. */
  lemma InOrderOfArrival(ops: seq<Operation>, queues: map<string, nat>, i: nat, j: nat)
    requires Valid(ops, queues) && i < j < |ops| && SameQueue(ops[i], ops[j]) && !ops[j].phase.Waiting?
    ensures ops[i].phase.Finished?
  {
    assert OperationValid(ops, j);
  }

  predicate Within(ops: seq<Operation>, i: nat, outer: nat)
    requires i < |ops|
    decreases i
  {
    i == outer || (ops[i].parent.Some? && ops[i].parent.value < i && Within(ops, ops[i].parent.value, outer))
  }

  /**
   Whatever runs in a directory, nested or not, runs within the one operation that queued for
   it and still runs, so re-entering needs no wait.
   */
  lemma {:induction false} RunsUnderItsHolder(ops: seq<Operation>, queues: map<string, nat>, i: nat, key: string) returns (holder: nat)
    requires Valid(ops, queues) && i < |ops| && ops[i].phase.Running? && key in ops[i].held
    ensures holder < |ops| && ops[holder].entry.Queued? && ops[holder].key == key && ops[holder].phase.Running?
    ensures Within(ops, i, holder)
    decreases i
  {
    assert OperationValid(ops, i);
    if ops[i].entry.Queued? && ops[i].key == key {
      holder := i;
    } else {
      holder := RunsUnderItsHolder(ops, queues, ops[i].parent.value, key);
    }
  }

  /** Nobody waits for a directory that it or its callers hold. */
  lemma NobodyWaitsForItself(ops: seq<Operation>, queues: map<string, nat>, i: nat)
    requires Valid(ops, queues) && i < |ops| && ops[i].phase.Waiting?
    ensures ops[i].key !in Owned(ops, ops[i].parent)
  {
    assert OperationValid(ops, i);
  }

  /** The operation can take its next step: start, or leave. */
  predicate CanMove(ops: seq<Operation>, i: nat)
    requires i < |ops|
  {
    MayRun(ops, i) || (ops[i].phase.Running? && NestedCallsFinished(ops, i))
  }

  /** A busy directory has an operation that runs or may start, however many wait behind it. */
  lemma {:induction false} QueueHasAHead(ops: seq<Operation>, queues: map<string, nat>, i: nat) returns (head: nat)
    requires Valid(ops, queues) && i < |ops| && ops[i].entry.Queued? && !ops[i].phase.Finished?
    ensures head <= i && SameQueue(ops[head], ops[i]) && (ops[head].phase.Running? || MayRun(ops, head))
    decreases i
  {
    if FirstInLine(ops, i) {
      head := i;
      if ops[i].phase.Waiting? {
        RunsWhenFirst(ops, i);
      }
    } else {
      var j :| 0 <= j < i && SameQueue(ops[j], ops[i]) && !ops[j].phase.Finished?;
      head := QueueHasAHead(ops, queues, j);
    }
  }

  /** Whoever queues asks for a directory above all that its callers hold. */
  ghost predicate InOrder(ops: seq<Operation>, order: string -> int) {
    forall i, key | 0 <= i < |ops| && ops[i].entry.Queued? && key in Owned(ops, ops[i].parent) :: order(key) < order(ops[i].key)
  }

  /** A caller keeps to the order by asking only for what is held already or above all of it. */
  lemma AskingInOrder(ops: seq<Operation>, order: string -> int, op: Operation)
    requires InOrder(ops, order) && forall i | 0 <= i < |ops| && ops[i].parent.Some? :: ops[i].parent.value < i
    requires op.parent.Some? ==> op.parent.value < |ops|
    requires op.entry.Queued? ==> forall key | key in Owned(ops, op.parent) :: order(key) < order(op.key)
    ensures InOrder(ops + [op], order)
  {
    forall i | 0 <= i <= |ops| ensures Owned(ops + [op], (ops + [op])[i].parent) == Owned(ops, (ops + [op])[i].parent) {
    }
  }

  /** Below a running operation somebody can move, or waits while holding what it holds. */
  lemma {:induction false} MovesOrWaitsBelow(ops: seq<Operation>, queues: map<string, nat>, r: nat, key: string)
    requires Valid(ops, queues) && r < |ops| && ops[r].phase.Running? && key in ops[r].held
    ensures || (exists i :: 0 <= i < |ops| && CanMove(ops, i))
            || (exists w :: 0 <= w < |ops| && ops[w].phase.Waiting? && key in Owned(ops, ops[w].parent))
    decreases |ops| - r
  {
    if NestedCallsFinished(ops, r) {
      assert CanMove(ops, r);
    } else {
      var j :| 0 <= j < |ops| && ops[j].parent == Some(r) && !ops[j].phase.Finished?;
      assert OperationValid(ops, j);
      assert key in Owned(ops, ops[j].parent);
      if ops[j].phase.Running? {
        MovesOrWaitsBelow(ops, queues, j, key);
      }
    }
  }

  /** Of the waiting ones among the first n, one whose directory is highest. */
  lemma {:induction false} HighestWaiting(ops: seq<Operation>, order: string -> int, n: nat) returns (w: nat)
    requires n <= |ops| && exists i :: 0 <= i < n && ops[i].phase.Waiting?
    ensures w < n && ops[w].phase.Waiting?
    ensures forall i | 0 <= i < n && ops[i].phase.Waiting? :: order(ops[i].key) <= order(ops[w].key)
  {
    if exists i :: 0 <= i < n - 1 && ops[i].phase.Waiting? {
      w := HighestWaiting(ops, order, n - 1);
      if ops[n - 1].phase.Waiting? && order(ops[w].key) < order(ops[n - 1].key) {
        w := n - 1;
      }
    } else {
      w := n - 1;
    }
  }

  /**
   While nested directories are taken in one order, and in particular while none are nested,
   somebody can always move.
   */
  lemma SomebodyCanMove(ops: seq<Operation>, queues: map<string, nat>, order: string -> int, left: nat)
    requires Valid(ops, queues) && left < |ops| && !ops[left].phase.Finished? && InOrder(ops, order)
    ensures exists i :: 0 <= i < |ops| && CanMove(ops, i)
  {
    assert OperationValid(ops, left);
    if exists i :: 0 <= i < |ops| && ops[i].phase.Waiting? {
      var w := HighestWaiting(ops, order, |ops|);
      assert OperationValid(ops, w);
      var head := QueueHasAHead(ops, queues, w);
      assert OperationValid(ops, head);
      if MayRun(ops, head) {
        assert CanMove(ops, head);
      } else {
        MovesOrWaitsBelow(ops, queues, head, ops[head].key);
        NobodyWaitsAbove(ops, order, w);
      }
    } else {
      MovesOrWaitsBelow(ops, queues, left, ops[left].key);
    }
  }

  lemma NobodyWaitsAbove(ops: seq<Operation>, order: string -> int, w: nat)
    requires (forall i | 0 <= i < |ops| :: OperationValid(ops, i)) && w < |ops| && InOrder(ops, order)
    requires forall i | 0 <= i < |ops| && ops[i].phase.Waiting? :: order(ops[i].key) <= order(ops[w].key)
    ensures forall i | 0 <= i < |ops| && ops[i].phase.Waiting? :: ops[w].key !in Owned(ops, ops[i].parent)
  {
    forall i | 0 <= i < |ops| && ops[i].phase.Waiting? ensures ops[w].key !in Owned(ops, ops[i].parent) {
      assert OperationValid(ops, i);
    }
  }

  /** Two operations in two directories, both running. */
  method TwoOperationsRun() returns (locks: StackLocks)
    ensures fresh(locks) && Valid(locks.ops, locks.queues) && |locks.ops| == 2
    ensures forall i | 0 <= i < 2 ::
              locks.ops[i].phase.Running? && locks.ops[i].entry.Queued? && locks.ops[i].key == ["a", "b"][i] && locks.ops[i].held == {["a", "b"][i]}
  {
    hide Valid, MayRun;
    locks := new StackLocks();
    var a := locks.Enter(None, "a");
    MayStart(locks.ops, locks.queues, a);
    locks.Resume(a);
    var b := locks.Enter(None, "b");
    MayStart(locks.ops, locks.queues, b);
    locks.Resume(b);
  }

  /**
   Without an order there is a run that ends for good: two operations start, and each asks
   inside for the other's directory.
   */
  method CrossedOperationsBlock() returns (locks: StackLocks)
    ensures fresh(locks) && Valid(locks.ops, locks.queues) && (exists i :: 0 <= i < |locks.ops| && !locks.ops[i].phase.Finished?)
    ensures forall i | 0 <= i < |locks.ops| :: !CanMove(locks.ops, i)
  {
    hide Valid, CanMove;
    locks := TwoOperationsRun();
    var inA := locks.Enter(Some(0), "b");
    var inB := locks.Enter(Some(1), "a");
    assert |locks.ops| == 4 && locks.ops[0].phase.Running? && locks.ops[1].phase.Running?;
    Blocked(locks.ops, locks.queues, 0, 2, 1);
    Blocked(locks.ops, locks.queues, 1, 3, 0);
  }

  lemma MayStart(ops: seq<Operation>, queues: map<string, nat>, i: nat)
    requires Valid(ops, queues) && i < |ops| && ops[i].phase.Waiting? && FirstInLine(ops, i)
    ensures MayRun(ops, i)
  {
    RunsWhenFirst(ops, i);
  }

  /** A running operation whose nested call waits behind another running one cannot leave, nor can the call start. */
  lemma Blocked(ops: seq<Operation>, queues: map<string, nat>, outer: nat, inner: nat, other: nat)
    requires Valid(ops, queues) && outer < |ops| && other < inner < |ops| && ops[inner].parent == Some(outer)
    requires ops[outer].phase.Running? && ops[inner].phase.Waiting? && ops[other].phase.Running? && SameQueue(ops[other], ops[inner])
    ensures !CanMove(ops, outer) && !CanMove(ops, inner)
  {
    RunsWhenFirst(ops, inner);
  }
}
