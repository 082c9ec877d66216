/**
 Policy versions over a run: what a reduction of a key means for the operations prepared
 under it before.

 Every identity was found at some step, with the version the key had then. While no two
 reductions of a key overlap its versions only grow, so an identity found after a reduction
 never has a version from before it.
 */
module McpPolicies {
  import opened Results
  import opened McpKeys
  import opened McpState

  /** At a step the key had this version. */
  datatype Stamp = Stamp(key: string, at: nat, version: int)

  function RowStamp(row: Row): Stamp {
    Stamp(row.keyId, row.confirmedAt, row.policyVersion)
  }

  function ExecutionStamp(e: Execution): Stamp {
    Stamp(e.identity.keyId, e.refreshedAt, e.identity.policyVersion)
  }

  function CallStamp(call: Call): Option<Stamp> {
    match call
    case Looking(_, _, identity, _, _, refreshedAt) => Some(Stamp(identity.keyId, refreshedAt, identity.policyVersion))
    case Executing(_, identity, _, refreshedAt) => Some(Stamp(identity.keyId, refreshedAt, identity.policyVersion))
    case Inserting(_, identity, confirmedAt) => Some(Stamp(identity.keyId, confirmedAt, identity.policyVersion))
    case _ => None
  }

  /** Reductions before that step had at most this version, later ones a greater one. */
  predicate Fits(s: System, stamp: Stamp) {
    stamp.key !in s.overlapped ==>
      && stamp.key in s.keys && stamp.version <= s.keys[stamp.key].policyVersion && stamp.at <= s.clock
      && forall i | 0 <= i < |s.reductions| && s.reductions[i].key == stamp.key ::
           && (s.reductions[i].at < stamp.at ==> s.reductions[i].version <= stamp.version)
           && (stamp.at < s.reductions[i].at ==> stamp.version < s.reductions[i].version)
  }

  /** A reduction under way was checked, and if none overlaps it the key is still what it read. */
  predicate ReducingFits(s: System, r: Reducing) {
    && r.key in s.keys && IsReduction(r.read, r.data) && s.keys[r.key].userId == r.read.userId
    && (r.key !in s.overlapped ==> r.read == s.keys[r.key].(revoked := false))
  }

  predicate LoweredFits(s: System, l: Lowered) {
    l.key !in s.overlapped ==> l.key in s.keys && l.version <= s.keys[l.key].policyVersion && l.at <= s.clock
  }

  predicate AloneUnlessOverlapped(s: System) {
    forall a, b | a in s.reducing && b in s.reducing && a != b && s.reducing[a].key == s.reducing[b].key :: s.reducing[a].key in s.overlapped
  }

  predicate Policies(s: System) {
    && (forall op | op in s.rows :: Fits(s, RowStamp(s.rows[op])))
    && (forall c | c in s.calls && CallStamp(s.calls[c]).Some? :: Fits(s, CallStamp(s.calls[c]).value))
    && (forall i | 0 <= i < |s.executed| :: Fits(s, ExecutionStamp(s.executed[i])))
    && (forall i | 0 <= i < |s.reductions| :: LoweredFits(s, s.reductions[i]))
    && (forall r | r in s.reducing :: ReducingFits(s, s.reducing[r]))
    && AloneUnlessOverlapped(s)
  }

  /**
   While no two reductions of a key overlap, an operation confirmed before a reduction is never
   carried out on a check that came after it.
   */
  lemma ReducedPolicyIsNotExecuted(s: System, i: nat, r: nat)
    requires Valid(s) && Policies(s) && i < |s.executed| && r < |s.reductions|
    requires s.reductions[r].key == s.executed[i].identity.keyId && s.reductions[r].key !in s.overlapped
    ensures s.executed[i].op in s.rows
    ensures !(s.rows[s.executed[i].op].confirmedAt < s.reductions[r].at < s.executed[i].refreshedAt)
  {
    var e := s.executed[i];
    assert Justified(s, e) && Fits(s, ExecutionStamp(e)) && Fits(s, RowStamp(s.rows[e.op]));
  }

  // ---------------------------------------------------------------- steps keep it

  lemma FitsLater(s: System, after: System, stamp: Stamp)
    requires Fits(s, stamp) && s.clock <= after.clock
    requires after.keys == s.keys && after.reductions == s.reductions && after.overlapped == s.overlapped
    ensures Fits(after, stamp)
  {
  }

  /** Whatever is new in a step was found now or fitted before. */
  lemma PoliciesKept(s: System, after: System)
    requires Policies(s) && s.clock <= after.clock
    requires after.keys == s.keys && after.reductions == s.reductions && after.overlapped == s.overlapped && after.reducing == s.reducing
    requires forall op | op in after.rows :: (op in s.rows && RowStamp(after.rows[op]) == RowStamp(s.rows[op])) || Fits(after, RowStamp(after.rows[op]))
    requires forall c | c in after.calls && CallStamp(after.calls[c]).Some? ::
      (c in s.calls && CallStamp(after.calls[c]) == CallStamp(s.calls[c])) || Fits(after, CallStamp(after.calls[c]).value)
    requires forall i | 0 <= i < |after.executed| ::
      (i < |s.executed| && after.executed[i] == s.executed[i]) || Fits(after, ExecutionStamp(after.executed[i]))
    ensures Policies(after)
  {
    forall stamp | Fits(s, stamp) ensures Fits(after, stamp) {
      FitsLater(s, after, stamp);
    }
    forall r | r in after.reducing ensures ReducingFits(after, after.reducing[r]) {
      assert ReducingFits(s, s.reducing[r]);
    }
    forall i | 0 <= i < |after.reductions| ensures LoweredFits(after, after.reductions[i]) {
      assert LoweredFits(s, s.reductions[i]);
    }
    assert AloneUnlessOverlapped(after);
    hide Fits, RowStamp, CallStamp, ExecutionStamp, AloneUnlessOverlapped, ReducingFits, LoweredFits;
  }

  /** An identity found in this step has the key's version of now. */
  lemma FoundNow(s: System, after: System, id: string, now: int)
    requires Policies(s) && ResolveIdentity(s.keys, s.users, id, now).Some?
    requires after.keys == s.keys && after.reductions == s.reductions && after.overlapped == s.overlapped && after.clock == s.clock + 1
    ensures Fits(after, Stamp(id, s.clock + 1, ResolveIdentity(s.keys, s.users, id, now).value.policyVersion))
  {
    forall i | 0 <= i < |s.reductions| ensures LoweredFits(s, s.reductions[i]) {
    }
  }

  /** Only calls go, or go on with what they had found. */
  lemma CallsOnly(s: System, c: nat, call: Option<Call>)
    requires Policies(s)
    requires var after := s.(calls := if call.Some? then s.calls[c := call.value] else s.calls - {c}, clock := s.clock + 1);
             call.Some? && CallStamp(call.value).Some? ==>
               (c in s.calls && CallStamp(call.value) == CallStamp(s.calls[c])) || Fits(after, CallStamp(call.value).value)
    ensures Policies(s.(calls := if call.Some? then s.calls[c := call.value] else s.calls - {c}, clock := s.clock + 1))
  {
    var after := s.(calls := if call.Some? then s.calls[c := call.value] else s.calls - {c}, clock := s.clock + 1);
    hide Policies, Fits, RowStamp, CallStamp, ExecutionStamp;
    PoliciesKept(s, after);
  }

  /** A row moves on, and its call ends or forgets what it had found. */
  lemma RowMoves(s: System, op: string, row: Row, prepared: set<string>, calls: map<nat, Call>)
    requires Policies(s) && op in s.rows && RowStamp(row) == RowStamp(s.rows[op])
    requires forall c | c in calls :: CallStamp(calls[c]).None? || (c in s.calls && calls[c] == s.calls[c])
    ensures Policies(s.(rows := s.rows[op := row], prepared := prepared, calls := calls, clock := s.clock + 1))
  {
    var after := s.(rows := s.rows[op := row], prepared := prepared, calls := calls, clock := s.clock + 1);
    hide Policies, Fits, RowStamp, CallStamp, ExecutionStamp;
    PoliciesKept(s, after);
  }

  lemma NewRow(s: System, c: nat, op: string, row: Row)
    requires Policies(s) && c in s.calls && CallStamp(s.calls[c]) == Some(RowStamp(row)) && op !in s.rows
    ensures Policies(s.(rows := s.rows[op := row], prepared := s.prepared + {op}, calls := s.calls - {c}, clock := s.clock + 1))
  {
    var after := s.(rows := s.rows[op := row], prepared := s.prepared + {op}, calls := s.calls - {c}, clock := s.clock + 1);
    FitsLater(s, after, RowStamp(row));
    hide Policies, Fits, RowStamp, CallStamp, ExecutionStamp;
    PoliciesKept(s, after);
  }

  lemma NewExecution(s: System, c: nat, e: Execution, next: Call)
    requires Policies(s) && c in s.calls && CallStamp(s.calls[c]) == Some(ExecutionStamp(e)) && CallStamp(next).None?
    ensures Policies(s.(executed := s.executed + [e], calls := s.calls[c := next], clock := s.clock + 1))
  {
    var after := s.(executed := s.executed + [e], calls := s.calls[c := next], clock := s.clock + 1);
    FitsLater(s, after, ExecutionStamp(e));
    hide Policies, Fits, RowStamp, CallStamp, ExecutionStamp;
    PoliciesKept(s, after);
  }

  /** Accounts may change in any way, and a restart forgets calls and reductions under way. */
  lemma EnvironmentKeeps(s: System, after: System)
    requires Policies(s) && after.rows == s.rows && after.executed == s.executed && after.clock == s.clock + 1
    requires after.keys == s.keys && after.reductions == s.reductions && after.overlapped == s.overlapped
    requires (after.calls == s.calls && after.reducing == s.reducing) || (after.calls == map[] && after.reducing == map[])
    ensures Policies(after)
  {
    var middle := after.(reducing := s.reducing);
    PoliciesKept(s, middle);
    assert forall stamp | Fits(middle, stamp) :: Fits(after, stamp);
  }

  // ---------------------------------------------------------------- reductions and revocations

  /** A reduction reads the key and is checked. */
  function Begun(s: System, r: nat, key: string, data: Reduction): System
    requires key in s.keys
  {
    s.(reducing := s.reducing[r := Reducing(key, s.keys[key], data)],
       overlapped := if exists other :: other in s.reducing && s.reducing[other].key == key then s.overlapped + {key} else s.overlapped,
       clock := s.clock + 1)
  }

  lemma BeginningKeeps(s: System, r: nat, key: string, data: Reduction)
    requires Policies(s) && r !in s.reducing && key in s.keys && IsReduction(s.keys[key], data)
    ensures Policies(Begun(s, r, key, data))
  {
    var after := Begun(s, r, key, data);
    forall stamp | Fits(s, stamp) ensures Fits(after, stamp) {
    }
    forall i | 0 <= i < |after.reductions| ensures LoweredFits(after, after.reductions[i]) {
      assert LoweredFits(s, s.reductions[i]);
    }
    forall x | x in after.reducing ensures ReducingFits(after, after.reducing[x]) {
      if x != r {
        assert ReducingFits(s, s.reducing[x]);
      }
    }
    hide Fits, RowStamp, CallStamp, ExecutionStamp, ReducingFits, LoweredFits;
  }

  /** It writes what it was asked for, on top of whatever is there by then. */
  function Written(s: System, r: nat, now: int): System
    requires r in s.reducing && s.reducing[r].key in s.keys
  {
    var p := s.reducing[r];
    var row := Reduced(s.keys[p.key], p.read, p.data, now);
    s.(keys := s.keys[p.key := row], reducing := s.reducing - {r},
       reductions := s.reductions + [Lowered(p.key, s.clock + 1, row.policyVersion)], clock := s.clock + 1)
  }

  /** The new version is greater than every one found before. */
  lemma FitsWritten(s: System, r: nat, now: int, stamp: Stamp)
    requires r in s.reducing && ReducingFits(s, s.reducing[r]) && Fits(s, stamp)
    ensures Fits(Written(s, r, now), stamp)
  {
    var after := Written(s, r, now);
    assert forall i | 0 <= i < |s.reductions| :: after.reductions[i] == s.reductions[i];
  }

  lemma WritingKeeps(s: System, r: nat, now: int)
    requires Policies(s) && r in s.reducing && s.reducing[r].key in s.keys
    ensures Policies(Written(s, r, now))
  {
    var after := Written(s, r, now);
    assert ReducingFits(s, s.reducing[r]);
    forall stamp | Fits(s, stamp) ensures Fits(after, stamp) {
      FitsWritten(s, r, now, stamp);
    }
    forall i | 0 <= i < |after.reductions| ensures LoweredFits(after, after.reductions[i]) {
      if i < |s.reductions| {
        assert LoweredFits(s, s.reductions[i]);
      }
    }
    forall x | x in after.reducing ensures ReducingFits(after, after.reducing[x]) {
      assert ReducingFits(s, s.reducing[x]);
    }
    hide Fits, RowStamp, CallStamp, ExecutionStamp, ReducingFits, LoweredFits;
  }

  lemma RevokingKeeps(s: System, key: string)
    requires Policies(s) && key in s.keys
    ensures Policies(s.(keys := s.keys[key := s.keys[key].(revoked := true)], clock := s.clock + 1))
  {
    var after := s.(keys := s.keys[key := s.keys[key].(revoked := true)], clock := s.clock + 1);
    forall stamp | Fits(s, stamp) ensures Fits(after, stamp) {
    }
    forall i | 0 <= i < |after.reductions| ensures LoweredFits(after, after.reductions[i]) {
      assert LoweredFits(s, s.reductions[i]);
    }
    forall x | x in after.reducing ensures ReducingFits(after, after.reducing[x]) {
      assert ReducingFits(s, s.reducing[x]);
    }
    hide Fits, RowStamp, CallStamp, ExecutionStamp, ReducingFits, LoweredFits;
  }

  // ---------------------------------------------------------------- both together

  /** What holds between any two steps. */
  predicate Sound(s: System) {
    Valid(s) && Policies(s)
  }

  lemma KnownOperation(s: System, c: nat)
    requires Sound(s) && c in s.calls && OnOperation(s.calls[c])
    ensures s.calls[c].op in s.rows && CallValid(s, s.calls[c])
  {
    hide Policies;
    assert CallValid(s, s.calls[c]);
  }

  lemma ApprovingIsSound(s: System, op: string, owner: string)
    requires Sound(s) && op in s.rows && s.rows[op].state.AwaitingApproval?
    ensures var rows := s.rows[op := s.rows[op].(state := Prepared, approvedBy := Some(owner))];
            Sound(s.(rows := rows, clock := s.clock + 1)) && Forward(s.rows, rows)
  {
    hide Valid, Policies, Forward;
    ApprovingStep(s, op, owner);
    RowMoves(s, op, s.rows[op].(state := Prepared, approvedBy := Some(owner)), s.prepared, s.calls);
  }

  /** A call without a claim begins, goes on or ends. */
  lemma FreeCallIsSound(s: System, c: nat, call: Option<Call>)
    requires Sound(s) && (c in s.calls ==> !HoldsClaim(s.calls[c]))
    requires call.Some? ==> !HoldsClaim(call.value) && CallValid(s, call.value)
    requires call.Some? && CallStamp(call.value).Some? ==>
      (c in s.calls && CallStamp(call.value) == CallStamp(s.calls[c])) || Fits(s.(clock := s.clock + 1), CallStamp(call.value).value)
    ensures Sound(s.(calls := if call.Some? then s.calls[c := call.value] else s.calls - {c}, clock := s.clock + 1))
  {
    var after := s.(calls := if call.Some? then s.calls[c := call.value] else s.calls - {c}, clock := s.clock + 1);
    if call.Some? && CallStamp(call.value).Some? && Fits(s.(clock := s.clock + 1), CallStamp(call.value).value) {
      FitsLater(s.(clock := s.clock + 1), after, CallStamp(call.value).value);
    }
    hide Valid, Policies, Fits, CallValid, HoldsClaim, CallStamp;
    FreeCallStep(s, c, call);
    CallsOnly(s, c, call);
  }

  lemma FreeCallGoesOn(s: System, c: nat, call: Call)
    requires Sound(s) && (c in s.calls ==> !HoldsClaim(s.calls[c])) && !HoldsClaim(call) && CallValid(s, call) && CallStamp(call).None?
    ensures Sound(s.(calls := s.calls[c := call], clock := s.clock + 1))
  {
    hide Sound, CallValid, HoldsClaim, CallStamp;
    FreeCallIsSound(s, c, Some(call));
  }

  lemma FreeCallEnds(s: System, c: nat)
    requires Sound(s) && (c in s.calls ==> !HoldsClaim(s.calls[c]))
    ensures Sound(s.(calls := s.calls - {c}, clock := s.clock + 1))
  {
    hide Sound, HoldsClaim;
    FreeCallIsSound(s, c, None);
  }

  /** A call with a claim goes on with its operation. */
  lemma ClaimedCallIsSound(s: System, c: nat, call: Call)
    requires Sound(s) && c in s.calls && HoldsClaim(s.calls[c]) && HoldsClaim(call) && call.op == s.calls[c].op
    requires CallValid(s.(clock := s.clock + 1), call) && CallStamp(call).Some?
    requires CallStamp(call) == CallStamp(s.calls[c]) || Fits(s.(clock := s.clock + 1), CallStamp(call).value)
    ensures Sound(s.(calls := s.calls[c := call], clock := s.clock + 1))
  {
    var after := s.(calls := s.calls[c := call], clock := s.clock + 1);
    if Fits(s.(clock := s.clock + 1), CallStamp(call).value) {
      FitsLater(s.(clock := s.clock + 1), after, CallStamp(call).value);
    }
    hide Valid, Policies, Fits, CallValid, HoldsClaim, CallStamp;
    ClaimedCallStep(s, c, call);
    CallsOnly(s, c, Some(call));
  }

  /** The authority found in this step is what the call goes on with. */
  lemma RefreshingIsSound(s: System, c: nat, now: int)
    requires Sound(s) && c in s.calls && s.calls[c].Refreshing?
    requires ResolveIdentity(s.keys, s.users, s.calls[c].keyId, now).Some?
    ensures var call := s.calls[c];
            var identity := ResolveIdentity(s.keys, s.users, call.keyId, now).value;
            Sound(s.(calls := s.calls[c := Looking(call.op, call.hash, identity, call.stage, call.claimedAt, s.clock + 1)], clock := s.clock + 1))
  {
    var call := s.calls[c];
    var identity := ResolveIdentity(s.keys, s.users, call.keyId, now).value;
    var next := Looking(call.op, call.hash, identity, call.stage, call.claimedAt, s.clock + 1);
    KnownOperation(s, c);
    FoundNow(s, s.(clock := s.clock + 1), call.keyId, now);
    assert CallStamp(next) == Some(Stamp(call.keyId, s.clock + 1, identity.policyVersion));
    LookingIsValid(s, call, next);
    assert HoldsClaim(call) <==> HoldsClaim(next);
    hide Valid, Policies, Fits, CallValid, HoldsClaim, CallStamp, ResolveIdentity;
    if HoldsClaim(call) {
      ClaimedCallIsSound(s, c, next);
    } else {
      FreeCallIsSound(s, c, Some(next));
    }
  }

  lemma LookingIsValid(s: System, call: Call, next: Call)
    requires call.Refreshing? && CallValid(s, call)
    requires next.Looking? && next.op == call.op && next.stage == call.stage && next.claimedAt == call.claimedAt && next.refreshedAt == s.clock + 1
    ensures CallValid(s.(clock := s.clock + 1), next)
    ensures !HoldsClaim(next) ==> CallValid(s, next)
  {
    assert Executed(s.(clock := s.clock + 1), call.op) <==> Executed(s, call.op);
    hide Executed;
  }

  lemma EndingIsSound(s: System, c: nat, state: OperationState)
    requires Sound(s) && c in s.calls && HoldsClaim(s.calls[c]) && state in {Succeeded, Failed}
    requires state.Succeeded? ==> s.calls[c].Finishing?
    ensures var op := s.calls[c].op;
            && OnOperation(s.calls[c]) && op in s.rows && s.rows[op].state.Running?
            && Forward(s.rows, s.rows[op := s.rows[op].(state := state)])
            && Sound(Ended(s, c, state))
  {
    hide Valid, Policies, Forward, HoldsClaim;
    EndingStep(s, c, state);
    var op := s.calls[c].op;
    RowMoves(s, op, s.rows[op].(state := state), s.prepared - {op}, s.calls - {c});
  }

  lemma ClaimingIsSound(s: System, c: nat)
    requires Sound(s) && c in s.calls && s.calls[c].Claiming? && s.calls[c].op in s.rows && s.rows[s.calls[c].op].state.Prepared?
    ensures Sound(Claimed(s, c)) && Forward(s.rows, Claimed(s, c).rows)
  {
    hide Valid, Policies, Forward;
    ClaimStep(s, c);
    var op, next := s.calls[c].op, Claimed(s, c).calls[c];
    RowMoves(s, op, s.rows[op].(state := Running), s.prepared, s.calls[c := next]);
    assert s.(rows := s.rows[op := s.rows[op].(state := Running)], prepared := s.prepared, calls := s.calls[c := next], clock := s.clock + 1) == Claimed(s, c);
  }

  lemma EnteringIsSound(s: System, c: nat)
    requires Sound(s) && c in s.calls && s.calls[c].Looking? && s.calls[c].stage.AfterClaim?
    requires s.calls[c].op in s.rows && Granted(s.rows[s.calls[c].op], s.calls[c].identity)
    ensures var call := s.calls[c];
            Sound(s.(calls := s.calls[c := Executing(call.op, call.identity, call.claimedAt, call.refreshedAt)], clock := s.clock + 1))
  {
    var call := s.calls[c];
    var next := Executing(call.op, call.identity, call.claimedAt, call.refreshedAt);
    KnownOperation(s, c);
    assert Executed(s.(clock := s.clock + 1), call.op) <==> Executed(s, call.op);
    assert CallValid(s.(clock := s.clock + 1), next) by {
      hide Valid, Policies, Executed;
    }
    hide Valid, Policies, Fits, CallValid, Granted;
    ClaimedCallIsSound(s, c, next);
  }

  lemma ExecutingIsSound(s: System, c: nat, ok: bool)
    requires Sound(s) && c in s.calls && s.calls[c].Executing?
    ensures var call := s.calls[c];
            Sound(s.(executed := s.executed + [Execution(call.op, call.identity, call.claimedAt, call.refreshedAt)],
                     calls := s.calls[c := Finishing(call.op, ok)], clock := s.clock + 1))
  {
    hide Valid, Policies;
    var call := s.calls[c];
    ExecutingStep(s, c, ok);
    NewExecution(s, c, Execution(call.op, call.identity, call.claimedAt, call.refreshedAt), Finishing(call.op, ok));
  }

  lemma InsertingIsSound(s: System, c: nat, op: string, now: int)
    requires Sound(s) && c in s.calls && s.calls[c].Inserting? && op !in s.rows
    requires forall o | o in s.rows :: s.rows[o].keyId != s.calls[c].identity.keyId || s.rows[o].requestId != s.calls[c].request.requestId
    ensures var row := StoredRow(s.calls[c].request, s.calls[c].identity, s.calls[c].confirmedAt, now);
            && Forward(s.rows, s.rows[op := row])
            && Sound(s.(rows := s.rows[op := row], prepared := s.prepared + {op}, calls := s.calls - {c}, clock := s.clock + 1))
  {
    var row := StoredRow(s.calls[c].request, s.calls[c].identity, s.calls[c].confirmedAt, now);
    hide Valid, Policies;
    InsertingStep(s, c, op, row);
    NewRow(s, c, op, row);
  }

  lemma ConfirmingIsSound(s: System, c: nat, now: int)
    requires Sound(s) && c in s.calls && s.calls[c].Confirming? && ResolveIdentity(s.keys, s.users, s.calls[c].identity.keyId, now).Some?
    ensures var call := s.calls[c];
            var identity := ResolveIdentity(s.keys, s.users, call.identity.keyId, now).value;
            Sound(s.(calls := s.calls[c := Inserting(call.request, identity, s.clock + 1)], clock := s.clock + 1))
  {
    var call := s.calls[c];
    var identity := ResolveIdentity(s.keys, s.users, call.identity.keyId, now).value;
    var next := Inserting(call.request, identity, s.clock + 1);
    FoundNow(s, s.(clock := s.clock + 1), call.identity.keyId, now);
    assert CallStamp(next) == Some(Stamp(call.identity.keyId, s.clock + 1, identity.policyVersion));
    hide Valid, Policies, Fits, ResolveIdentity;
    FreeCallIsSound(s, c, Some(next));
  }

  /** The environment: accounts, restarts, reductions and revocations. */
  lemma EnvironmentIsSound(s: System, after: System)
    requires Sound(s) && after.rows == s.rows && after.executed == s.executed && after.clock == s.clock + 1
    requires (after.calls == s.calls || after.calls == map[]) && Policies(after)
    ensures Sound(after)
  {
    hide Valid, Policies;
    EnvironmentStep(s, after);
  }
}
