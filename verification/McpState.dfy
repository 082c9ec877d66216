/**
 Prepared operations as a machine: its states, what holds in each of them, and that every
 step keeps it.

 A call remembers what it holds between its steps; the step counter orders them.
 */
module McpState {
  import opened Results
  import opened McpKeys

  datatype OperationState = AwaitingApproval | Prepared | Running | Succeeded | Failed

  /** A stored operation; all but the state and the approval is fixed when it is inserted. */
  datatype Row = Row(
    keyId: string, requestId: string, hash: string, permission: string, server: string, stack: string,
    policyVersion: int, confirmedAt: nat, preparedIn: Mode, expiresAt: int, state: OperationState, approvedBy: Option<string>)

  /** Which of its checks of ownership a call is at: before the claim twice, and after it. */
  datatype Stage = First | Again | AfterClaim

  datatype Request = Request(requestId: string, hash: string, permission: string, server: string, stack: string)

  /** What a call holds while it waits. */
  datatype Call =
    | Refreshing(op: string, keyId: string, userId: string, hash: string, stage: Stage, claimedAt: nat)
    | Looking(op: string, hash: string, identity: Identity, stage: Stage, claimedAt: nat, refreshedAt: nat)
    | Claiming(op: string, hash: string, identity: Identity)
    | Executing(op: string, identity: Identity, claimedAt: nat, refreshedAt: nat)
    | Finishing(op: string, ok: bool)
    | Asking(request: Request, identity: Identity)
    | Repeating(request: Request, identity: Identity, stored: string)
    | Confirming(request: Request, identity: Identity)
    | Inserting(request: Request, identity: Identity, confirmedAt: nat)

  /** What a caller hears at once: the operation stored before, a refusal, or nothing yet. */
  datatype Answer = Stored(op: string) | Refused | Pending

  /** One execution, with the identity that was found after the claim. */
  datatype Execution = Execution(op: string, identity: Identity, claimedAt: nat, refreshedAt: nat)

  /** A reduction between its reading of the key and its writing */
  datatype Reducing = Reducing(key: string, read: KeyRow, data: Reduction)

  /** A reduction that was written: of which key, at which step, with which version */
  datatype Lowered = Lowered(key: string, at: nat, version: int)

  /** `overlapped` are the keys of which a reduction was ever begun while another was under way. */
  datatype System = System(
    keys: map<string, KeyRow>, users: map<string, User>, rows: map<string, Row>,
    prepared: set<string>, calls: map<nat, Call>, executed: seq<Execution>,
    reducing: map<nat, Reducing>, reductions: seq<Lowered>, overlapped: set<string>, clock: nat)

  // ---------------------------------------------------------------- what holds in every state

  /** The call has claimed its operation and not yet recorded how it ended. */
  predicate HoldsClaim(call: Call) {
    match call
    case Refreshing(_, _, _, _, stage, _) => stage.AfterClaim?
    case Looking(_, _, _, stage, _, _) => stage.AfterClaim?
    case Executing(_, _, _, _) => true
    case Finishing(_, _) => true
    case _ => false
  }

  predicate OnOperation(call: Call) {
    !call.Asking? && !call.Repeating? && !call.Confirming? && !call.Inserting?
  }

  predicate BeforeExecution(call: Call) {
    HoldsClaim(call) && !call.Finishing?
  }

  predicate Granted(row: Row, identity: Identity) {
    && identity.policyVersion == row.policyVersion && identity.keyId == row.keyId
    && Access(identity, row.permission, row.server, row.stack)
  }

  predicate RowValid(row: Row) {
    && (row.state.AwaitingApproval? ==> row.preparedIn.Approval? && row.approvedBy.None?)
    && (row.preparedIn.Approval? && !row.state.AwaitingApproval? ==> row.approvedBy.Some?)
  }

  predicate Executed(s: System, op: string) {
    exists i :: 0 <= i < |s.executed| && s.executed[i].op == op
  }

  predicate CallValid(s: System, call: Call) {
    && (OnOperation(call) ==> call.op in s.rows)
    && (HoldsClaim(call) ==> s.rows[call.op].state.Running?)
    && (BeforeExecution(call) ==> !Executed(s, call.op))
    && (call.Refreshing? ==> call.claimedAt <= s.clock)
    && (call.Looking? && call.stage.AfterClaim? ==> call.claimedAt < call.refreshedAt)
    && (call.Executing? ==> call.claimedAt < call.refreshedAt && Granted(s.rows[call.op], call.identity))
    && (call.Finishing? ==> Executed(s, call.op))
  }

  /** What must be true of everything that was ever carried out. */
  predicate Justified(s: System, e: Execution) {
    && e.op in s.rows && s.rows[e.op].state in {Running, Succeeded, Failed}
    && e.claimedAt < e.refreshedAt && Granted(s.rows[e.op], e.identity)
    && (s.rows[e.op].preparedIn.Approval? ==> s.rows[e.op].approvedBy.Some?)
  }

  predicate OneClaimEach(s: System) {
    forall a, b | a in s.calls && b in s.calls && HoldsClaim(s.calls[a]) && HoldsClaim(s.calls[b]) && s.calls[a].op == s.calls[b].op :: a == b
  }

  predicate OnceEach(s: System) {
    forall i, j | 0 <= i < j < |s.executed| :: s.executed[i].op != s.executed[j].op
  }

  predicate OneRowPerRequest(s: System) {
    forall a, b | a in s.rows && b in s.rows && s.rows[a].keyId == s.rows[b].keyId && s.rows[a].requestId == s.rows[b].requestId :: a == b
  }

  predicate Valid(s: System) {
    && (forall op | op in s.rows :: RowValid(s.rows[op]))
    && (forall c | c in s.calls :: CallValid(s, s.calls[c]))
    && (forall i | 0 <= i < |s.executed| :: Justified(s, s.executed[i]))
    && (forall op | op in s.rows && s.rows[op].state.Succeeded? :: Executed(s, op))
    && OneClaimEach(s) && OnceEach(s) && OneRowPerRequest(s)
  }

  /**
   In every state that steps lead to, an operation was carried out at most once, after a claim
   and a later check that found the policy it was prepared under, and never without the
   approval it was stored to wait for.
   */
  lemma CarriedOutOnceAndRightly(s: System, i: nat, j: nat)
    requires Valid(s) && i < |s.executed| && j < |s.executed| && s.executed[i].op == s.executed[j].op
    ensures i == j && s.executed[i].op in s.rows
    ensures var row, e := s.rows[s.executed[i].op], s.executed[i];
            && e.claimedAt < e.refreshedAt && e.identity.keyId == row.keyId && e.identity.policyVersion == row.policyVersion
            && Access(e.identity, row.permission, row.server, row.stack)
            && (row.preparedIn.Approval? ==> row.approvedBy.Some?) && row.state in {Running, Succeeded, Failed}
  {
    assert Justified(s, s.executed[i]);
  }

  function Rank(state: OperationState): nat {
    match state
    case AwaitingApproval => 0
    case Prepared => 1
    case Running => 2
    case Succeeded => 3
    case Failed => 3
  }

  /** Rows stay, keep what was fixed, and never leave a state for an earlier one or an end at all. */
  predicate Forward(a: map<string, Row>, b: map<string, Row>) {
    forall op | op in a ::
      && op in b && b[op].(state := a[op].state, approvedBy := a[op].approvedBy) == a[op]
      && Rank(a[op].state) <= Rank(b[op].state) && (Rank(a[op].state) == 3 ==> b[op] == a[op])
      && (a[op].approvedBy.Some? ==> b[op].approvedBy == a[op].approvedBy)
  }

  /** An operation that ended well was carried out. */
  lemma SucceededWasCarriedOut(s: System, op: string)
    requires Valid(s) && op in s.rows && s.rows[op].state.Succeeded?
    ensures exists i :: 0 <= i < |s.executed| && s.executed[i].op == op
  {
    assert Executed(s, op);
  }

  // ---------------------------------------------------------------- runs

  /** Steps of which each moves rows only forward. */
  predicate ForwardRun(run: seq<System>) {
    forall k {:trigger run[k + 1]} :: 0 <= k < |run| - 1 ==> Forward(run[k].rows, run[k + 1].rows)
  }

  /** From any state of a run to any later one, rows have only moved forward. */
  lemma {:induction false} ForwardThroughout(run: seq<System>, a: nat, b: nat)
    requires ForwardRun(run) && a <= b < |run|
    ensures Forward(run[a].rows, run[b].rows)
    decreases b
  {
    if a < b {
      ForwardThroughout(run, a, b - 1);
      var k := b - 1;
      assert Forward(run[k].rows, run[k + 1].rows);
    }
  }

  /**
   What was stored to wait for approval and is carried out by the end of a run was approved in
   a step of it: before that step the operation was waiting and had not been carried out.
   */
  lemma {:induction false} ApprovalIsNeverSkipped(run: seq<System>, op: string)
    requires |run| > 0 && (forall s | s in run :: Valid(s)) && ForwardRun(run)
    requires op in run[0].rows && run[0].rows[op].state.AwaitingApproval? && Executed(run[|run| - 1], op)
    ensures exists k: nat :: k + 1 < |run| && op in run[k].rows && op in run[k + 1].rows
              && run[k].rows[op].state.AwaitingApproval? && !Executed(run[k], op) && run[k + 1].rows[op].approvedBy.Some?
  {
    var last := |run| - 1;
    var k := 0;
    WaitingIsNotExecuted(run[0], op);
    while k + 1 < |run| && op in run[k + 1].rows && run[k + 1].rows[op].state.AwaitingApproval?
      invariant k < |run| && op in run[k].rows && run[k].rows[op].state.AwaitingApproval? && !Executed(run[k], op)
    {
      k := k + 1;
      WaitingIsNotExecuted(run[k], op);
    }
    assert k + 1 < |run|;
    ForwardThroughout(run, 0, k + 1);
    assert Valid(run[0]) && Valid(run[k + 1]);
    assert RowValid(run[0].rows[op]) && RowValid(run[k + 1].rows[op]);
  }

  lemma WaitingIsNotExecuted(s: System, op: string)
    requires Valid(s) && op in s.rows && s.rows[op].state.AwaitingApproval?
    ensures !Executed(s, op)
  {
    forall i | 0 <= i < |s.executed| ensures s.executed[i].op != op {
      assert Justified(s, s.executed[i]);
    }
  }

  // ---------------------------------------------------------------- steps keep the state valid

  lemma StayingIsForward(rows: map<string, Row>)
    ensures Forward(rows, rows)
  {
  }

  const OPERATION_LIFETIME_MS := 10 * 60_000

  /** The row of a request: bound to the key's policy, and waiting for approval if the key must. */
  function StoredRow(request: Request, identity: Identity, confirmedAt: nat, now: int): (row: Row)
    ensures RowValid(row)
  {
    Row(identity.keyId, request.requestId, request.hash, request.permission, request.server, request.stack,
        identity.policyVersion, confirmedAt, identity.mode, now + OPERATION_LIFETIME_MS,
        if identity.mode.Approval? then AwaitingApproval else Prepared, None)
  }

  /** Two checks lead to the claim, the third to the effect. */
  function NextCall(call: Call): Call
    requires call.Looking?
  {
    match call.stage
    case First => Refreshing(call.op, call.identity.keyId, call.identity.userId, call.hash, Again, 0)
    case Again => Claiming(call.op, call.hash, call.identity)
    case AfterClaim => Executing(call.op, call.identity, call.claimedAt, call.refreshedAt)
  }

  /** A call that holds no claim, before the step and after it, touches nothing that matters. */
  lemma FreeCallStep(s: System, c: nat, call: Option<Call>)
    requires Valid(s) && (c in s.calls ==> !HoldsClaim(s.calls[c]))
    requires call.Some? ==> !HoldsClaim(call.value) && CallValid(s, call.value)
    ensures Valid(s.(calls := if call.Some? then s.calls[c := call.value] else s.calls - {c}, clock := s.clock + 1))
  {
    var after := s.(calls := if call.Some? then s.calls[c := call.value] else s.calls - {c}, clock := s.clock + 1);
    assert forall op :: Executed(after, op) <==> Executed(s, op);
    hide RowValid, Granted, Executed;
  }

  /** A call that holds a claim goes on with the same operation. */
  lemma ClaimedCallStep(s: System, c: nat, call: Call)
    requires Valid(s) && c in s.calls && HoldsClaim(s.calls[c]) && HoldsClaim(call) && call.op == s.calls[c].op
    requires CallValid(s.(clock := s.clock + 1), call)
    ensures Valid(s.(calls := s.calls[c := call], clock := s.clock + 1))
  {
    var after := s.(calls := s.calls[c := call], clock := s.clock + 1);
    assert forall op :: Executed(after, op) <==> Executed(s, op);
    hide RowValid, Granted, Executed;
  }

  lemma ExecutingStep(s: System, c: nat, ok: bool)
    requires Valid(s) && c in s.calls && s.calls[c].Executing?
    ensures var call := s.calls[c];
            Valid(s.(executed := s.executed + [Execution(call.op, call.identity, call.claimedAt, call.refreshedAt)],
                     calls := s.calls[c := Finishing(call.op, ok)], clock := s.clock + 1))
  {
    var call := s.calls[c];
    var e := Execution(call.op, call.identity, call.claimedAt, call.refreshedAt);
    var after := s.(executed := s.executed + [e], calls := s.calls[c := Finishing(call.op, ok)], clock := s.clock + 1);
    assert CallValid(s, call) && RowValid(s.rows[call.op]);
    forall op ensures Executed(after, op) <==> Executed(s, op) || op == call.op {
      if Executed(s, op) {
        var i :| 0 <= i < |s.executed| && s.executed[i].op == op;
        assert after.executed[i].op == op;
      }
      assert after.executed[|s.executed|].op == call.op;
    }
    assert Justified(after, e);
    forall i | 0 <= i < |s.executed| ensures s.executed[i].op != call.op {
      assert Executed(s, s.executed[i].op);
    }
    hide RowValid, Granted, Executed;
  }

  /** The state of a row that no claim is held on changes, or the claim on it ends. */
  lemma RowStep(s: System, op: string, row: Row, prepared: set<string>)
    requires Valid(s) && op in s.rows && RowValid(row) && row == s.rows[op].(state := row.state, approvedBy := row.approvedBy)
    requires forall c | c in s.calls && HoldsClaim(s.calls[c]) :: s.calls[c].op != op
    requires (s.rows[op].state in {Running, Succeeded, Failed} ==> row.state in {Running, Succeeded, Failed})
    requires row.state.Succeeded? ==> Executed(s, op)
    ensures Valid(s.(rows := s.rows[op := row], prepared := prepared, clock := s.clock + 1))
  {
    var after := s.(rows := s.rows[op := row], prepared := prepared, clock := s.clock + 1);
    RowStepRows(s, after, op);
    RowStepExecuted(s, after, op);
    forall c | c in after.calls ensures CallValid(after, after.calls[c]) {
      CallStaysValid(s, after, op, s.calls[c]);
    }
    assert OneClaimEach(after) && OnceEach(after);
    hide Executed, CallValid, Justified, RowValid, HoldsClaim, OneRowPerRequest, OneClaimEach, OnceEach;
  }

  lemma RowStepRows(s: System, after: System, op: string)
    requires after.executed == s.executed && op in s.rows && op in after.rows && after.rows == s.rows[op := after.rows[op]] && RowValid(after.rows[op])
    requires after.rows[op] == s.rows[op].(state := after.rows[op].state, approvedBy := after.rows[op].approvedBy)
    requires (forall o | o in s.rows :: RowValid(s.rows[o])) && OneRowPerRequest(s)
    requires (forall o | o in s.rows && s.rows[o].state.Succeeded? :: Executed(s, o)) && (after.rows[op].state.Succeeded? ==> Executed(s, op))
    ensures (forall o | o in after.rows :: RowValid(after.rows[o])) && OneRowPerRequest(after)
    ensures forall o | o in after.rows && after.rows[o].state.Succeeded? :: Executed(after, o)
  {
    assert forall o :: Executed(after, o) <==> Executed(s, o);
    hide Executed, RowValid;
  }

  lemma RowStepExecuted(s: System, after: System, op: string)
    requires after.executed == s.executed && op in s.rows && op in after.rows && after.rows == s.rows[op := after.rows[op]] && RowValid(after.rows[op])
    requires after.rows[op] == s.rows[op].(state := after.rows[op].state, approvedBy := after.rows[op].approvedBy)
    requires s.rows[op].state in {Running, Succeeded, Failed} ==> after.rows[op].state in {Running, Succeeded, Failed}
    requires forall i | 0 <= i < |s.executed| :: Justified(s, s.executed[i])
    ensures forall i | 0 <= i < |after.executed| :: Justified(after, after.executed[i])
  {
    forall i | 0 <= i < |s.executed| ensures Justified(after, s.executed[i]) {
      assert Justified(s, s.executed[i]);
    }
  }

  /** A call that holds no claim on a row may see its state change. */
  lemma CallStaysValid(s: System, after: System, op: string, call: Call)
    requires CallValid(s, call) && op in s.rows && op in after.rows && (HoldsClaim(call) ==> call.op != op)
    requires after == s.(rows := after.rows, prepared := after.prepared, clock := s.clock + 1) && after.rows == s.rows[op := after.rows[op]]
    ensures CallValid(after, call)
  {
    assert forall o :: Executed(after, o) <==> Executed(s, o);
    hide Executed, Granted;
  }

  lemma ApprovingStep(s: System, op: string, owner: string)
    requires Valid(s) && op in s.rows && s.rows[op].state.AwaitingApproval?
    ensures var rows := s.rows[op := s.rows[op].(state := Prepared, approvedBy := Some(owner))];
            Valid(s.(rows := rows, clock := s.clock + 1)) && Forward(s.rows, rows)
  {
    assert RowValid(s.rows[op]);
    NoClaimOn(s, op);
    hide Valid;
    RowStep(s, op, s.rows[op].(state := Prepared, approvedBy := Some(owner)), s.prepared);
  }

  lemma NotExecutedYet(s: System, op: string)
    requires Valid(s) && op in s.rows && s.rows[op].state.Prepared?
    ensures !Executed(s, op)
  {
    forall i | 0 <= i < |s.executed| ensures s.executed[i].op != op {
      assert Justified(s, s.executed[i]);
    }
  }

  /** The operation runs, and its call checks the authority anew. */
  function Claimed(s: System, c: nat): System
    requires c in s.calls && s.calls[c].Claiming? && s.calls[c].op in s.rows
  {
    var call := s.calls[c];
    var next := Refreshing(call.op, call.identity.keyId, call.identity.userId, call.hash, AfterClaim, s.clock + 1);
    s.(rows := s.rows[call.op := s.rows[call.op].(state := Running)], calls := s.calls[c := next], clock := s.clock + 1)
  }

  lemma ClaimStep(s: System, c: nat)
    requires Valid(s) && c in s.calls && s.calls[c].Claiming? && s.calls[c].op in s.rows && s.rows[s.calls[c].op].state.Prepared?
    ensures Valid(Claimed(s, c)) && Forward(s.rows, Claimed(s, c).rows) && Claimed(s, c).executed == s.executed
  {
    var op := s.calls[c].op;
    var running := s.(rows := s.rows[op := s.rows[op].(state := Running)], prepared := s.prepared, clock := s.clock + 1);
    NoClaimOn(s, op);
    NotExecutedYet(s, op);
    RunningRow(s, op);
    ClaimIsValid(s, c, running);
    assert Forward(s.rows, running.rows);
    hide Valid, CallValid, RowValid, Executed, Forward, HoldsClaim;
    RowStep(s, op, s.rows[op].(state := Running), s.prepared);
    NewClaim(running, c, Claimed(s, c).calls[c]);
    assert running.(calls := running.calls[c := Claimed(s, c).calls[c]]) == Claimed(s, c);
  }

  lemma RunningRow(s: System, op: string)
    requires Valid(s) && op in s.rows && s.rows[op].state.Prepared?
    ensures RowValid(s.rows[op].(state := Running))
  {
    assert RowValid(s.rows[op]);
  }

  lemma ClaimIsValid(s: System, c: nat, running: System)
    requires c in s.calls && s.calls[c].Claiming? && s.calls[c].op in s.rows && !Executed(s, s.calls[c].op)
    requires running == s.(rows := s.rows[s.calls[c].op := s.rows[s.calls[c].op].(state := Running)], clock := s.clock + 1)
    ensures var next := Claimed(s, c).calls[c]; HoldsClaim(next) && CallValid(running, next)
  {
    assert Executed(running, s.calls[c].op) <==> Executed(s, s.calls[c].op);
  }

  /** A claim on a running operation that has neither another claim nor an execution. */
  lemma NewClaim(s: System, c: nat, call: Call)
    requires Valid(s) && c in s.calls && HoldsClaim(call) && CallValid(s, call)
    requires forall d | d in s.calls && HoldsClaim(s.calls[d]) :: s.calls[d].op != call.op
    ensures Valid(s.(calls := s.calls[c := call]))
  {
    var after := s.(calls := s.calls[c := call]);
    assert forall op :: Executed(after, op) <==> Executed(s, op);
    hide RowValid, Granted, Executed;
  }

  /** Without one of its calls the state is valid, too. */
  lemma WithoutCall(s: System, c: nat)
    requires Valid(s)
    ensures Valid(s.(calls := s.calls - {c}))
  {
    var after := s.(calls := s.calls - {c});
    assert forall op :: Executed(after, op) <==> Executed(s, op);
    hide RowValid, Granted, Executed;
  }

  lemma ClaimedRow(s: System, c: nat, state: OperationState)
    requires Valid(s) && c in s.calls && HoldsClaim(s.calls[c]) && state in {Succeeded, Failed}
    ensures s.calls[c].Finishing? ==> Executed(s, s.calls[c].op)
    ensures var op := s.calls[c].op;
            && OnOperation(s.calls[c]) && op in s.rows && s.rows[op].state.Running? && RowValid(s.rows[op].(state := state))
            && Forward(s.rows, s.rows[op := s.rows[op].(state := state)])
            && forall d | d in s.calls && d != c && HoldsClaim(s.calls[d]) :: s.calls[d].op != op
  {
    assert CallValid(s, s.calls[c]) && RowValid(s.rows[s.calls[c].op]);
  }

  lemma EndedRow(s: System, op: string, state: OperationState)
    requires state.Succeeded? ==> Executed(s, op)
    requires Valid(s) && op in s.rows && s.rows[op].state.Running? && state in {Succeeded, Failed} && RowValid(s.rows[op].(state := state))
    requires forall c | c in s.calls && HoldsClaim(s.calls[c]) :: s.calls[c].op != op
    ensures Valid(s.(rows := s.rows[op := s.rows[op].(state := state)], prepared := s.prepared - {op}, clock := s.clock + 1))
  {
    hide Valid, RowValid, HoldsClaim;
    RowStep(s, op, s.rows[op].(state := state), s.prepared - {op});
  }

  /** The operation has ended, and its call and its prepared contents are gone. */
  function Ended(s: System, c: nat, state: OperationState): System
    requires c in s.calls && OnOperation(s.calls[c]) && s.calls[c].op in s.rows
  {
    var op := s.calls[c].op;
    s.(rows := s.rows[op := s.rows[op].(state := state)], calls := s.calls - {c}, prepared := s.prepared - {op}, clock := s.clock + 1)
  }

  lemma EndedByParts(s: System, c: nat, state: OperationState)
    requires c in s.calls && OnOperation(s.calls[c]) && s.calls[c].op in s.rows
    ensures var without, op := s.(calls := s.calls - {c}), s.calls[c].op;
            Ended(s, c, state) == without.(rows := s.rows[op := s.rows[op].(state := state)], prepared := s.prepared - {op}, clock := s.clock + 1)
  {
  }

  /** The end of a claimed operation is recorded by the call that claimed it, and a good one only if it executed. */
  lemma {:induction false} EndingStep(s: System, c: nat, state: OperationState)
    requires Valid(s) && c in s.calls && HoldsClaim(s.calls[c]) && state in {Succeeded, Failed}
    requires state.Succeeded? ==> s.calls[c].Finishing?
    ensures var op := s.calls[c].op;
            && OnOperation(s.calls[c]) && op in s.rows && s.rows[op].state.Running?
            && Forward(s.rows, s.rows[op := s.rows[op].(state := state)])
            && Valid(Ended(s, c, state))
  {
    hide Valid, HoldsClaim, RowValid, Forward, Executed, CallValid;
    ClaimedRow(s, c, state);
    var without, op := s.(calls := s.calls - {c}), s.calls[c].op;
    hide *;
    SameExecuted(s, without, op);
    EndedByParts(s, c, state);
    WithoutCall(s, c);
    EndedRow(without, op, state);
  }

  lemma SameExecuted(s: System, after: System, op: string)
    requires after.executed == s.executed
    ensures Executed(after, op) <==> Executed(s, op)
  {
  }

  lemma InsertingStep(s: System, c: nat, op: string, row: Row)
    requires Valid(s) && c in s.calls && !HoldsClaim(s.calls[c]) && op !in s.rows
    requires row.state == (if row.preparedIn.Approval? then AwaitingApproval else Prepared) && row.approvedBy.None?
    requires forall o | o in s.rows :: s.rows[o].keyId != row.keyId || s.rows[o].requestId != row.requestId
    ensures Valid(s.(rows := s.rows[op := row], prepared := s.prepared + {op}, calls := s.calls - {c}, clock := s.clock + 1))
  {
    var after := s.(rows := s.rows[op := row], prepared := s.prepared + {op}, calls := s.calls - {c}, clock := s.clock + 1);
    assert forall o :: Executed(after, o) <==> Executed(s, o);
    InsertedRows(s, after, op);
    SameRowsSayTheSame(s, after);
    assert OneClaimEach(after) && OnceEach(after);
    hide Executed, CallValid, Justified, RowValid, HoldsClaim, OneRowPerRequest, OneClaimEach, OnceEach;
  }

  lemma InsertedRows(s: System, after: System, op: string)
    requires after.executed == s.executed && op !in s.rows && op in after.rows && after.rows == s.rows[op := after.rows[op]]
    requires var row := after.rows[op];
             && row.state == (if row.preparedIn.Approval? then AwaitingApproval else Prepared) && row.approvedBy.None?
             && forall o | o in s.rows :: s.rows[o].keyId != row.keyId || s.rows[o].requestId != row.requestId
    requires (forall o | o in s.rows :: RowValid(s.rows[o])) && OneRowPerRequest(s)
    requires forall o | o in s.rows && s.rows[o].state.Succeeded? :: Executed(s, o)
    ensures (forall o | o in after.rows :: RowValid(after.rows[o])) && OneRowPerRequest(after)
    ensures forall o | o in after.rows && after.rows[o].state.Succeeded? :: Executed(after, o)
  {
    assert forall o :: Executed(after, o) <==> Executed(s, o);
    hide Executed;
  }

  /** Calls and executions are valid as long as no row, no execution and no time is lost. */
  lemma SameRowsSayTheSame(s: System, after: System)
    requires (forall op | op in s.rows :: op in after.rows && after.rows[op] == s.rows[op]) && after.executed == s.executed && s.clock <= after.clock
    ensures forall call | CallValid(s, call) :: CallValid(after, call)
    ensures forall e | Justified(s, e) :: Justified(after, e)
  {
    assert forall o :: Executed(after, o) <==> Executed(s, o);
    hide Executed, Granted;
  }

  /** Keys, accounts and reductions may change in any way, and a restart forgets every call. */
  lemma EnvironmentStep(s: System, after: System)
    requires Valid(s) && after.rows == s.rows && after.executed == s.executed && after.clock == s.clock + 1
    requires after.calls == s.calls || after.calls == map[]
    ensures Valid(after)
  {
    assert forall o :: Executed(after, o) <==> Executed(s, o);
    SameRowsSayTheSame(s, after);
    hide Executed, CallValid, Justified, RowValid, HoldsClaim;
  }

  lemma NoClaimOn(s: System, op: string)
    requires Valid(s) && op in s.rows && !s.rows[op].state.Running?
    ensures forall c | c in s.calls && HoldsClaim(s.calls[c]) :: s.calls[c].op != op
  {
    forall c | c in s.calls && HoldsClaim(s.calls[c]) ensures s.calls[c].op != op {
      assert CallValid(s, s.calls[c]);
    }
  }
}
