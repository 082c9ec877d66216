/**
 Prepared operations: written down, approved, claimed once and carried out.

 A wait in the program ends a step here, and other calls, approvals, reductions, revocations
 and restarts may come between any two steps. Two reads stay together: that of a key with that
 of its account, and that of an operation already known with that of the authority over it.
 */
module McpOperations {
  import opened Results
  import opened McpKeys
  import opened McpState
  import opened McpPolicies

  /** The key may act now and has the permission at all. */
  predicate MayAsk(identity: Option<Identity>, userId: string, request: Request) {
    && identity.Some? && identity.value.userId == userId && identity.value.role.Operator? && !identity.value.mode.ReadOnly?
    && request.permission in identity.value.actions
  }

  /** Keys, accounts and reductions are the same. */
  predicate SameAuthority(a: System, b: System) {
    a.keys == b.keys && a.users == b.users && a.reducing == b.reducing && a.reductions == b.reductions && a.overlapped == b.overlapped
  }

  /** The operation was stored for this request of this key. */
  predicate IsRequest(rows: map<string, Row>, op: string, keyId: string, request: Request) {
    op in rows && rows[op].keyId == keyId && rows[op].requestId == request.requestId
  }

  /**
   A request stored before is answered with its row exactly when key and arguments are right
   for it; a new one goes on exactly when the key has access.
   */
  predicate RightAnswer(s: System, keyId: string, userId: string, request: Request, now: int, answer: Answer) {
    var identity := ResolveIdentity(s.keys, s.users, keyId, now);
    if !MayAsk(identity, userId, request) then answer.Refused?
    else if exists op :: op in s.rows && IsRequest(s.rows, op, keyId, request) then
      forall op | op in s.rows && IsRequest(s.rows, op, keyId, request) ::
        answer == if Granted(s.rows[op], identity.value) && s.rows[op].hash == request.hash then Stored(op) else Refused
    else answer == if Access(identity.value, request.permission, request.server, request.stack) then Pending else Refused
  }

  class McpServer {
    var s: System

    constructor (keys: map<string, KeyRow>, users: map<string, User>)
      ensures Sound(s) && s == System(keys, users, map[], {}, map[], [], map[], [], {}, 0)
    {
      s := System(keys, users, map[], {}, map[], [], map[], [], {}, 0);
    }

    /** A reduction reads the key and checks itself against it; its writing is a later step. */
    method BeginReduce(r: nat, key: string, data: Reduction) returns (accepted: bool)
      requires Sound(s) && r !in s.reducing
      modifies this
      ensures Sound(s)
      ensures accepted <==> key in old(s).keys && IsReduction(old(s).keys[key], data)
      ensures s == if accepted then Begun(old(s), r, key, data) else old(s)
      ensures accepted ==>
                && s.reducing == old(s).reducing[r := Reducing(key, old(s).keys[key], data)] && s.keys == old(s).keys && s.rows == old(s).rows
                && forall k :: k in s.overlapped <==>
                     k in old(s).overlapped || (k == key && exists other :: other in old(s).reducing && old(s).reducing[other].key == key)
    {
      hide Policies, Valid;
      if key !in s.keys || !IsReduction(s.keys[key], data) {
        return false;
      }
      BeginningKeeps(s, r, key, data);
      EnvironmentIsSound(s, Begun(s, r, key, data));
      s := Begun(s, r, key, data);
      return true;
    }

    /**
     The reduction is written. If none of this key ever overlapped another, it takes away in
     every respect and its version is the next one; otherwise it takes away exactly if its
     check would hold of the row it overwrites.
     */
    method FinishReduce(r: nat, now: int)
      requires Sound(s) && r in s.reducing
      modifies this
      ensures Sound(s) && old(s).reducing[r].key in old(s).keys && s == Written(old(s), r, now)
      ensures var p := old(s).reducing[r];
              var before, after := old(s).keys[p.key], s.keys[p.key];
              && (NoMore(after, before) <==> IsReduction(before.(revoked := false), p.data) && after.expiresAt <= before.expiresAt)
              && (p.key !in old(s).overlapped ==> NoMore(after, before) && after.policyVersion == before.policyVersion + 1)
              && after.role == p.data.role && after.actions == p.data.actions && after.mode == p.data.mode && after.resources == p.data.resources
              && after.userId == before.userId && after.revoked == before.revoked && after.policyVersion == p.read.policyVersion + 1
              && after.expiresAt <= p.read.expiresAt && after.expiresAt <= now + p.data.days * 86_400_000
              && (after.expiresAt == p.read.expiresAt || after.expiresAt == now + p.data.days * 86_400_000)
              && s == old(s).(keys := old(s).keys[p.key := after], reducing := old(s).reducing - {r},
                              reductions := old(s).reductions + [Lowered(p.key, s.clock, after.policyVersion)], clock := old(s).clock + 1)
    {
      var p := s.reducing[r];
      ReducingIsChecked(s, r);
      ReductionTakesAwayExactlyWhen(s.keys[p.key], p.read, p.data, now);
      if p.key !in s.overlapped {
        ReductionInTurn(s.keys[p.key], p.read, p.data, now);
      }
      hide Valid, Policies, NoMore, IsReduction;
      WritingKeeps(s, r, now);
      EnvironmentIsSound(s, Written(s, r, now));
      s := Written(s, r, now);
    }

    method Revoke(id: string)
      requires Sound(s) && id in s.keys
      modifies this
      ensures Sound(s) && s == old(s).(keys := old(s).keys[id := old(s).keys[id].(revoked := true)], clock := old(s).clock + 1)
    {
      hide Valid, Policies;
      var after := s.(keys := s.keys[id := s.keys[id].(revoked := true)], clock := s.clock + 1);
      RevokingKeeps(s, id);
      EnvironmentIsSound(s, after);
      s := after;
    }

    method ChangeUser(id: string, user: User)
      requires Sound(s)
      modifies this
      ensures Sound(s) && s == old(s).(users := old(s).users[id := user], clock := old(s).clock + 1)
    {
      hide Valid, Policies;
      var after := s.(users := s.users[id := user], clock := s.clock + 1);
      EnvironmentKeeps(s, after);
      EnvironmentIsSound(s, after);
      s := after;
    }

    /** Prepared contents, calls and reductions under way live in memory only. */
    method Restart()
      requires Sound(s)
      modifies this
      ensures Sound(s) && s == old(s).(calls := map[], prepared := {}, reducing := map[], clock := old(s).clock + 1)
    {
      hide Valid, Policies;
      var after := s.(calls := map[], prepared := {}, reducing := map[], clock := s.clock + 1);
      EnvironmentKeeps(s, after);
      EnvironmentIsSound(s, after);
      s := after;
    }

    /** Owner approval: only an active administrator, only while it waits, only once. */
    method Approve(owner: string, op: string, now: int) returns (approved: bool)
      requires Sound(s)
      modifies this
      ensures Sound(s) && Forward(old(s).rows, s.rows)
      ensures approved <==>
                && owner in old(s).users && old(s).users[owner].role.AdminUser? && !old(s).users[owner].suspended
                && op in old(s).rows && old(s).rows[op].state.AwaitingApproval? && old(s).rows[op].expiresAt > now
      ensures if approved
              then s == old(s).(rows := old(s).rows[op := old(s).rows[op].(state := Prepared, approvedBy := Some(owner))], clock := old(s).clock + 1)
              else s == old(s)
    {
      hide Sound, Forward;
      StayingIsForward(s.rows);
      if owner !in s.users || !s.users[owner].role.AdminUser? || s.users[owner].suspended {
        return false;
      }
      if op !in s.rows || !s.rows[op].state.AwaitingApproval? || s.rows[op].expiresAt <= now {
        return false;
      }
      ApprovingIsSound(s, op, owner);
      s := s.(rows := s.rows[op := s.rows[op].(state := Prepared, approvedBy := Some(owner))], clock := s.clock + 1);
      return true;
    }

    /** A caller asks for a stored operation to be carried out. */
    method BeginApply(c: nat, keyId: string, userId: string, op: string, hash: string)
      requires Sound(s) && c !in s.calls && op in s.rows
      modifies this
      ensures Sound(s) && s.rows == old(s).rows && s.executed == old(s).executed && SameAuthority(old(s), s)
      ensures s.calls == old(s).calls[c := Refreshing(op, keyId, userId, hash, First, 0)]
    {
      hide Sound;
      FreeCallGoesOn(s, c, Refreshing(op, keyId, userId, hash, First, 0));
      s := s.(calls := s.calls[c := Refreshing(op, keyId, userId, hash, First, 0)], clock := s.clock + 1);
    }

    /** The current authority of the caller is read anew; without it the call ends. */
    method Refresh(c: nat, now: int)
      requires Sound(s) && c in s.calls && s.calls[c].Refreshing?
      modifies this
      ensures Sound(s) && Forward(old(s).rows, s.rows) && s.executed == old(s).executed && SameAuthority(old(s), s)
      ensures var call := old(s).calls[c];
              var identity := ResolveIdentity(old(s).keys, old(s).users, call.keyId, now);
              if identity.Some? && identity.value.userId == call.userId
              then s.calls == old(s).calls[c := Looking(call.op, call.hash, identity.value, call.stage, call.claimedAt, s.clock)] && s.rows == old(s).rows
              else
                && s.calls == old(s).calls - {c} && call.op in old(s).rows
                && s.rows == if call.stage.AfterClaim? then old(s).rows[call.op := old(s).rows[call.op].(state := Failed)] else old(s).rows
    {
      var call := s.calls[c];
      assert call.op in s.rows by {
        KnownOperation(s, c);
      }
      hide *;
      var identity := ResolveIdentity(s.keys, s.users, call.keyId, now);
      if identity.None? || identity.value.userId != call.userId {
        GiveUp(c);
        return;
      }
      GoOnWith(c, now, identity.value);
    }

    /** The authority found at this step is what the call goes on with. */
    method GoOnWith(c: nat, now: int, identity: Identity)
      requires Sound(s) && c in s.calls && s.calls[c].Refreshing? && ResolveIdentity(s.keys, s.users, s.calls[c].keyId, now) == Some(identity)
      modifies this
      ensures Sound(s) && Forward(old(s).rows, s.rows) && s.rows == old(s).rows && s.executed == old(s).executed && SameAuthority(old(s), s)
      ensures var call := old(s).calls[c];
              s.calls == old(s).calls[c := Looking(call.op, call.hash, identity, call.stage, call.claimedAt, s.clock)]
    {
      hide *;
      var call := s.calls[c];
      StayingIsForward(s.rows);
      RefreshingIsSound(s, c, now);
      CallGoesOnIs(s, c, Looking(call.op, call.hash, identity, call.stage, call.claimedAt, s.clock + 1));
      s := s.(calls := s.calls[c := Looking(call.op, call.hash, identity, call.stage, call.claimedAt, s.clock + 1)], clock := s.clock + 1);
    }

    /** A call that is refused ends; if it holds a claim, the operation has failed. */
    method GiveUp(c: nat)
      requires Sound(s) && c in s.calls && !s.calls[c].Finishing?
      modifies this
      ensures Sound(s) && Forward(old(s).rows, s.rows) && s.executed == old(s).executed && s.calls == old(s).calls - {c} && SameAuthority(old(s), s)
      ensures var call := old(s).calls[c];
              if call.Executing? || ((call.Refreshing? || call.Looking?) && call.stage.AfterClaim?)
              then call.op in old(s).rows && s.rows == old(s).rows[call.op := old(s).rows[call.op].(state := Failed)] && call.op !in s.prepared
              else s.rows == old(s).rows && s.prepared == old(s).prepared
    {
      hide *;
      StayingIsForward(s.rows);
      ClaimIsHeld(s.calls[c]);
      CallGoneIs(s, c);
      if HoldsClaim(s.calls[c]) {
        EndingIsSound(s, c, Failed);
        EndedIs(s, c, Failed);
        s := Ended(s, c, Failed);
      } else {
        FreeCallEnds(s, c);
        s := s.(calls := s.calls - {c}, clock := s.clock + 1);
      }
    }

    /**
     The row is read and checked against the authority just found, and the files are checked.
     A first check also stops at operations that ran, expired, or wait for approval.
     */
    method Look(c: nat, now: int, unchangedFiles: bool)
      requires Sound(s) && c in s.calls && s.calls[c].Looking?
      modifies this
      ensures Sound(s) && Forward(old(s).rows, s.rows) && s.executed == old(s).executed && SameAuthority(old(s), s)
      ensures old(s).calls[c].op in old(s).rows
      ensures var call := old(s).calls[c];
              var identity, row := call.identity, old(s).rows[call.op];
              if && identity.keyId == row.keyId && identity.policyVersion == row.policyVersion
                 && Access(identity, row.permission, row.server, row.stack) && unchangedFiles
                 && (call.stage.First? ==>
                       && row.hash == call.hash && row.state.Prepared? && row.expiresAt > now && call.op in old(s).prepared
                       && (identity.mode.Approval? ==> row.approvedBy.Some?))
              then
                && s.rows == old(s).rows
                && s.calls == old(s).calls[c :=
                     if call.stage.First? then Refreshing(call.op, identity.keyId, identity.userId, call.hash, Again, 0)
                     else if call.stage.Again? then Claiming(call.op, call.hash, identity)
                     else Executing(call.op, identity, call.claimedAt, call.refreshedAt)]
              else
                && s.calls == old(s).calls - {c}
                && s.rows == if call.stage.AfterClaim? then old(s).rows[call.op := row.(state := Failed)] else old(s).rows
    {
      var call := s.calls[c];
      KnownOperation(s, c);
      StayingIsForward(s.rows);
      FirstChecks(s, call);
      var row := s.rows[call.op];
      assert Granted(row, call.identity) <==> call.identity.keyId == row.keyId && call.identity.policyVersion == row.policyVersion
                                              && Access(call.identity, row.permission, row.server, row.stack);
      hide Sound, Forward, HoldsClaim, CallValid, CallStamp, Granted, Access;
      if !Granted(row, call.identity) || !unchangedFiles {
        GiveUp(c);
        return;
      }
      if call.stage.First? {
        if row.hash != call.hash || row.state in {Succeeded, Failed, Running} || call.op !in s.prepared || row.expiresAt <= now
           || !row.state.Prepared? || (call.identity.mode.Approval? && row.approvedBy.None?) {
          GiveUp(c);
          return;
        }
      }
      if call.stage.AfterClaim? {
        EnterExecution(c);
        return;
      }
      CheckedCallGoesOn(c);
    }

    /** Before the claim, the next check or the claim itself comes. */
    method CheckedCallGoesOn(c: nat)
      requires Sound(s) && c in s.calls && s.calls[c].Looking? && !s.calls[c].stage.AfterClaim? && s.calls[c].op in s.rows
      modifies this
      ensures Sound(s) && s.rows == old(s).rows && s.executed == old(s).executed && SameAuthority(old(s), s)
      ensures s.calls == old(s).calls[c := NextCall(old(s).calls[c])]
    {
      hide Sound, NextCall;
      CheckedIsSound(s, c);
      s := s.(calls := s.calls[c := NextCall(s.calls[c])], clock := s.clock + 1);
    }

    /** After the claim, nothing but the effect is left to do. */
    method EnterExecution(c: nat)
      requires Sound(s) && c in s.calls && s.calls[c].Looking? && s.calls[c].stage.AfterClaim?
      requires s.calls[c].op in s.rows && Granted(s.rows[s.calls[c].op], s.calls[c].identity)
      modifies this
      ensures Sound(s) && s.rows == old(s).rows && s.executed == old(s).executed && SameAuthority(old(s), s)
      ensures var call := old(s).calls[c];
              s.calls == old(s).calls[c := Executing(call.op, call.identity, call.claimedAt, call.refreshedAt)]
    {
      hide Sound, Granted;
      var call := s.calls[c];
      EnteringIsSound(s, c);
      s := s.(calls := s.calls[c := Executing(call.op, call.identity, call.claimedAt, call.refreshedAt)], clock := s.clock + 1);
    }

    /** Compare and set: of all calls that get here, one finds the operation still prepared. */
    method Claim(c: nat, now: int) returns (claimed: bool)
      requires Sound(s) && c in s.calls && s.calls[c].Claiming?
      modifies this
      ensures Sound(s) && Forward(old(s).rows, s.rows) && s.executed == old(s).executed && SameAuthority(old(s), s)
      ensures old(s).calls[c].op in old(s).rows
      ensures claimed <==> var row := old(s).rows[old(s).calls[c].op]; row.state.Prepared? && row.expiresAt > now
      ensures claimed ==> var call := old(s).calls[c];
                && s.rows == old(s).rows[call.op := old(s).rows[call.op].(state := Running)] && s.prepared == old(s).prepared && s.clock == old(s).clock + 1
                && s.calls == old(s).calls[c := Refreshing(call.op, call.identity.keyId, call.identity.userId, call.hash, AfterClaim, s.clock)]
      ensures !claimed ==> s.rows == old(s).rows && s.calls == old(s).calls - {c}
    {
      var call := s.calls[c];
      KnownOperation(s, c);
      StayingIsForward(s.rows);
      hide *;
      if !s.rows[call.op].state.Prepared? || s.rows[call.op].expiresAt <= now {
        GiveUp(c);
        return false;
      }
      ClaimingIsSound(s, c);
      ClaimedIs(s, c);
      s := Claimed(s, c);
      return true;
    }

    /** The effect: it happens here and nowhere else, and whether it ends well is up to the handler. */
    method Execute(c: nat, ok: bool)
      requires Sound(s) && c in s.calls && s.calls[c].Executing?
      modifies this
      ensures Sound(s) && s.rows == old(s).rows && SameAuthority(old(s), s)
      ensures var call := old(s).calls[c];
              && s.executed == old(s).executed + [Execution(call.op, call.identity, call.claimedAt, call.refreshedAt)]
              && s.calls == old(s).calls[c := Finishing(call.op, ok)]
    {
      hide Sound;
      var call := s.calls[c];
      ExecutingIsSound(s, c, ok);
      s := s.(executed := s.executed + [Execution(call.op, call.identity, call.claimedAt, call.refreshedAt)],
              calls := s.calls[c := Finishing(call.op, ok)], clock := s.clock + 1);
    }

    /** The outcome is recorded and the prepared contents are dropped. */
    method Finish(c: nat)
      requires Sound(s) && c in s.calls && s.calls[c].Finishing?
      modifies this
      ensures Sound(s) && Forward(old(s).rows, s.rows) && s.executed == old(s).executed && SameAuthority(old(s), s)
      ensures var call := old(s).calls[c];
              && call.op in old(s).rows && Executed(old(s), call.op)
              && s.rows == old(s).rows[call.op := old(s).rows[call.op].(state := if call.ok then Succeeded else Failed)]
              && s.calls == old(s).calls - {c} && s.prepared == old(s).prepared - {call.op}
    {
      KnownOperation(s, c);
      var state := if s.calls[c].ok then Succeeded else Failed;
      hide *;
      ClaimIsHeld(s.calls[c]);
      FinishingWasExecuted(s, c);
      EndingIsSound(s, c, state);
      EndedIs(s, c, state);
      s := Ended(s, c, state);
    }

    /** The authority of a caller who asks for an operation is read; without the permission nothing follows. */
    method BeginPrepare(c: nat, keyId: string, userId: string, request: Request, now: int) returns (asked: bool)
      requires Sound(s) && c !in s.calls
      modifies this
      ensures Sound(s)
      ensures var identity := ResolveIdentity(old(s).keys, old(s).users, keyId, now);
              && (asked <==> identity.Some? && identity.value.userId == userId && identity.value.role.Operator? && !identity.value.mode.ReadOnly?
                             && request.permission in identity.value.actions)
              && s == if asked then old(s).(calls := old(s).calls[c := Asking(request, identity.value)], clock := old(s).clock + 1) else old(s)
    {
      var identity := ResolveIdentity(s.keys, s.users, keyId, now);
      hide Sound, ResolveIdentity;
      asked := MayAsk(identity, userId, request);
      if asked {
        AskingIsSound(s, c, Asking(request, identity.value));
        s := s.(calls := s.calls[c := Asking(request, identity.value)], clock := s.clock + 1);
      }
    }

    /** An operation stored for this request before is repeated; a new one needs access to its stack. */
    method LookUp(c: nat)
      requires Sound(s) && c in s.calls && s.calls[c].Asking?
      modifies this
      ensures Sound(s) && s.rows == old(s).rows && s.executed == old(s).executed && SameAuthority(old(s), s)
      ensures var call := old(s).calls[c];
              if exists op :: op in s.rows && s.rows[op].keyId == call.identity.keyId && s.rows[op].requestId == call.request.requestId then
                && c in s.calls && s.calls[c].Repeating? && s.calls[c].stored in s.rows
                && s.rows[s.calls[c].stored].keyId == call.identity.keyId && s.rows[s.calls[c].stored].requestId == call.request.requestId
                && s.calls == old(s).calls[c := Repeating(call.request, call.identity, s.calls[c].stored)]
              else if Access(call.identity, call.request.permission, call.request.server, call.request.stack) then
                s.calls == old(s).calls[c := Confirming(call.request, call.identity)]
              else s.calls == old(s).calls - {c}
    {
      var call := s.calls[c];
      assert forall op | op in s.rows :: IsRequest(s.rows, op, call.identity.keyId, call.request)
                                         <==> s.rows[op].keyId == call.identity.keyId && s.rows[op].requestId == call.request.requestId;
      hide Sound, Access, IsRequest, SameAuthority;
      var stored := Find(call.identity.keyId, call.request);
      if stored.Some? {
        Ask(c, Repeating(call.request, call.identity, stored.value));
      } else if Access(call.identity, call.request.permission, call.request.server, call.request.stack) {
        Ask(c, Confirming(call.request, call.identity));
      } else {
        Dismiss(c);
      }
    }

    /** The operation stored for a request of a key. */
    method Find(keyId: string, request: Request) returns (stored: Option<string>)
      ensures match stored
              case Some(op) => op in s.rows && IsRequest(s.rows, op, keyId, request)
              case None => !exists op :: op in s.rows && IsRequest(s.rows, op, keyId, request)
    {
      if op :| op in s.rows && IsRequest(s.rows, op, keyId, request) {
        return Some(op);
      }
      return None;
    }

    /** A request goes on. */
    method Ask(c: nat, next: Call)
      requires Sound(s) && c in s.calls && s.calls[c].Asking? && (next.Repeating? || next.Confirming?)
      modifies this
      ensures Sound(s) && s.rows == old(s).rows && s.executed == old(s).executed && SameAuthority(old(s), s)
      ensures s.calls == old(s).calls[c := next]
    {
      hide Sound;
      AskedGoesOn(s, c, next);
      s := s.(calls := s.calls[c := next], clock := s.clock + 1);
    }

    /** A request is at an end, and has touched nothing. */
    method Dismiss(c: nat)
      requires Sound(s) && c in s.calls && (s.calls[c].Asking? || s.calls[c].Repeating?)
      modifies this
      ensures Sound(s) && s.rows == old(s).rows && s.executed == old(s).executed && SameAuthority(old(s), s)
      ensures s.calls == old(s).calls - {c}
    {
      hide Sound;
      GiveUp(c);
    }

    /** A request stored before is answered with its row, under the authority found now and for the same arguments. */
    method AnswerRepeat(c: nat, now: int) returns (answer: Answer)
      requires Sound(s) && c in s.calls && s.calls[c].Repeating?
      modifies this
      ensures Sound(s) && s.rows == old(s).rows && s.executed == old(s).executed && SameAuthority(old(s), s) && s.calls == old(s).calls - {c}
      ensures var call := old(s).calls[c];
              var identity := ResolveIdentity(s.keys, s.users, call.identity.keyId, now);
              answer == if identity.Some? && identity.value.userId == call.identity.userId && call.stored in s.rows
                           && var row := s.rows[call.stored];
                              identity.value.keyId == row.keyId && identity.value.policyVersion == row.policyVersion && row.hash == call.request.hash
                              && Access(identity.value, row.permission, row.server, row.stack)
                        then Stored(call.stored) else Refused
    {
      var call := s.calls[c];
      var identity := ResolveIdentity(s.keys, s.users, call.identity.keyId, now);
      hide Sound, ResolveIdentity, Granted;
      answer := Refused;
      if identity.Some? && identity.value.userId == call.identity.userId && call.stored in s.rows
         && Granted(s.rows[call.stored], identity.value) && s.rows[call.stored].hash == call.request.hash {
        answer := Stored(call.stored);
      }
      Dismiss(c);
    }

    /** With nothing in between, the steps up to here answer a request as its key, its row and its arguments say. */
    method AskAtOnce(c: nat, keyId: string, userId: string, request: Request, now: int) returns (answer: Answer)
      requires Sound(s) && c !in s.calls
      modifies this
      ensures Sound(s) && s.rows == old(s).rows && s.executed == old(s).executed && SameAuthority(old(s), s)
      ensures RightAnswer(old(s), keyId, userId, request, now, answer)
      ensures answer.Pending? ==> c in s.calls && s.calls[c].Confirming? && s.calls[c].request == request
    {
      ghost var found := s;
      FoundIsItself(s.keys, s.users, keyId, now);
      RequestsAreUnique(s, keyId, request);
      ghost var identity := ResolveIdentity(s.keys, s.users, keyId, now);
      assert MayAsk(identity, userId, request) ==> identity.Some? && identity.value.userId == userId && identity.value.keyId == keyId;
      hide Sound, Granted, Access, ResolveIdentity, MayAsk, IsRequest, RightAnswer;
      var asked := BeginPrepare(c, keyId, userId, request, now);
      if !asked {
        NotAsked(found, keyId, userId, request, now);
        return Refused;
      }
      LookUp(c);
      if c in s.calls && s.calls[c].Repeating? {
        ghost var op := s.calls[c].stored;
        answer := AnswerRepeat(c, now);
        RepeatIsRight(found, keyId, userId, request, now, op, answer);
        return;
      }
      answer := if c in s.calls then Pending else Refused;
      NewIsRight(found, keyId, userId, request, now, answer);
    }

    /** After the handler has prepared, the authority must still be the same policy. */
    method ConfirmPrepare(c: nat, now: int)
      requires Sound(s) && c in s.calls && s.calls[c].Confirming?
      modifies this
      ensures Sound(s) && s.rows == old(s).rows && s.executed == old(s).executed && SameAuthority(old(s), s)
      ensures var call := old(s).calls[c];
              var found := ResolveIdentity(old(s).keys, old(s).users, call.identity.keyId, now);
              if found.Some? && found.value.userId == call.identity.userId && found.value.policyVersion == call.identity.policyVersion
                 && Access(found.value, call.request.permission, call.request.server, call.request.stack)
              then s.calls == old(s).calls[c := Inserting(call.request, found.value, s.clock)] && found.value.keyId == call.identity.keyId
              else s.calls == old(s).calls - {c}
    {
      hide Sound, Access, ResolveIdentity;
      var call := s.calls[c];
      var current := ResolveIdentity(s.keys, s.users, call.identity.keyId, now);
      if current.None? || current.value.userId != call.identity.userId || current.value.policyVersion != call.identity.policyVersion
         || !Access(current.value, call.request.permission, call.request.server, call.request.stack) {
        GiveUp(c);
        return;
      }
      FoundIsItself(s.keys, s.users, call.identity.keyId, now);
      ConfirmingIsSound(s, c, now);
      s := s.(calls := s.calls[c := Inserting(call.request, current.value, s.clock + 1)], clock := s.clock + 1);
    }

    /** The row is stored, unless another call stored the same request first. */
    method Insert(c: nat, op: string, now: int) returns (inserted: bool)
      requires Sound(s) && c in s.calls && s.calls[c].Inserting? && op !in s.rows
      modifies this
      ensures Sound(s) && Forward(old(s).rows, s.rows) && s.executed == old(s).executed && SameAuthority(old(s), s)
      ensures var call := old(s).calls[c];
              && (inserted <==> forall o | o in old(s).rows :: old(s).rows[o].keyId != call.identity.keyId || old(s).rows[o].requestId != call.request.requestId)
              && (!inserted ==> s.rows == old(s).rows)
              && (inserted ==>
                    && op in s.rows && s.rows == old(s).rows[op := s.rows[op]] && s.prepared == old(s).prepared + {op}
                    && s.calls == old(s).calls - {c}
                    && var row, request, identity := s.rows[op], call.request, call.identity;
                    && (row.state.AwaitingApproval? <==> identity.mode.Approval?) && (row.state.Prepared? <==> !identity.mode.Approval?)
                    && row.preparedIn == identity.mode && row.approvedBy == None
                    && row.keyId == identity.keyId && row.policyVersion == identity.policyVersion && row.confirmedAt == call.confirmedAt
                    && row.requestId == request.requestId && row.hash == request.hash && row.permission == request.permission
                    && row.server == request.server && row.stack == request.stack
                    && row.expiresAt == now + 10 * 60_000)
    {
      hide Sound, Forward;
      StayingIsForward(s.rows);
      var call := s.calls[c];
      if exists o :: o in s.rows && s.rows[o].keyId == call.identity.keyId && s.rows[o].requestId == call.request.requestId {
        GiveUp(c);
        return false;
      }
      var row := StoredRow(call.request, call.identity, call.confirmedAt, now);
      InsertingIsSound(s, c, op, now);
      s := s.(rows := s.rows[op := row], prepared := s.prepared + {op}, calls := s.calls - {c}, clock := s.clock + 1);
      return true;
    }
  }

  /** What a claim changes. */
  lemma ClaimedIs(s: System, c: nat)
    requires c in s.calls && s.calls[c].Claiming? && s.calls[c].op in s.rows
    ensures var after, call := Claimed(s, c), s.calls[c];
            && after.rows == s.rows[call.op := s.rows[call.op].(state := Running)] && after.prepared == s.prepared
            && after.calls == s.calls[c := Refreshing(call.op, call.identity.keyId, call.identity.userId, call.hash, AfterClaim, after.clock)]
            && after.clock == s.clock + 1 && after.executed == s.executed && SameAuthority(s, after)
  {
  }

  /** Which calls have claimed an operation and not ended it. */
  lemma ClaimIsHeld(call: Call)
    ensures HoldsClaim(call) <==>
              call.Finishing? || call.Executing? || ((call.Refreshing? || call.Looking?) && call.stage.AfterClaim?)
  {
  }

  lemma FinishingWasExecuted(s: System, c: nat)
    requires Sound(s) && c in s.calls && s.calls[c].Finishing?
    ensures s.calls[c].op in s.rows && Executed(s, s.calls[c].op)
  {
    KnownOperation(s, c);
    hide Valid, Policies, Executed;
  }

  lemma CallGoesOnIs(s: System, c: nat, call: Call)
    ensures var after := s.(calls := s.calls[c := call], clock := s.clock + 1);
            after.rows == s.rows && after.prepared == s.prepared && after.executed == s.executed && SameAuthority(s, after)
  {
  }

  lemma CallGoneIs(s: System, c: nat)
    ensures var after := s.(calls := s.calls - {c}, clock := s.clock + 1);
            after.rows == s.rows && after.prepared == s.prepared && after.executed == s.executed && SameAuthority(s, after)
  {
  }

  /** What the end of a claimed operation changes. */
  lemma EndedIs(s: System, c: nat, state: OperationState)
    requires c in s.calls && OnOperation(s.calls[c]) && s.calls[c].op in s.rows
    ensures var after, op := Ended(s, c, state), s.calls[c].op;
            && after.rows == s.rows[op := s.rows[op].(state := state)] && after.prepared == s.prepared - {op}
            && after.calls == s.calls - {c} && after.executed == s.executed && SameAuthority(s, after)
  {
  }

  lemma ReducingIsChecked(s: System, r: nat)
    requires Sound(s) && r in s.reducing
    ensures ReducingFits(s, s.reducing[r])
  {
  }

  /** What a call goes on with from a check that holds no claim. */
  lemma FirstChecks(s: System, call: Call)
    requires call.Looking? && call.op in s.rows
    ensures call.stage.AfterClaim? <==> HoldsClaim(call)
    ensures call.stage.AfterClaim? ==> NextCall(call) == Executing(call.op, call.identity, call.claimedAt, call.refreshedAt)
    ensures !call.stage.AfterClaim? ==> !HoldsClaim(NextCall(call)) && CallValid(s, NextCall(call)) && CallStamp(NextCall(call)).None?
  {
  }

  lemma NotAsked(s: System, keyId: string, userId: string, request: Request, now: int)
    requires !MayAsk(ResolveIdentity(s.keys, s.users, keyId, now), userId, request)
    ensures RightAnswer(s, keyId, userId, request, now, Refused)
  {
  }

  lemma RepeatIsRight(s: System, keyId: string, userId: string, request: Request, now: int, op: string, answer: Answer)
    requires MayAsk(ResolveIdentity(s.keys, s.users, keyId, now), userId, request) && IsRequest(s.rows, op, keyId, request)
    requires forall a, b | IsRequest(s.rows, a, keyId, request) && IsRequest(s.rows, b, keyId, request) :: a == b
    requires var identity := ResolveIdentity(s.keys, s.users, keyId, now);
             answer == if identity.Some? && identity.value.userId == userId && op in s.rows
                          && Granted(s.rows[op], identity.value) && s.rows[op].hash == request.hash then Stored(op) else Refused
    ensures RightAnswer(s, keyId, userId, request, now, answer)
  {
    assert op in s.rows;
    hide Granted, ResolveIdentity, IsRequest;
  }

  lemma NewIsRight(s: System, keyId: string, userId: string, request: Request, now: int, answer: Answer)
    requires MayAsk(ResolveIdentity(s.keys, s.users, keyId, now), userId, request)
    requires !exists op :: op in s.rows && IsRequest(s.rows, op, keyId, request)
    requires answer == if Access(ResolveIdentity(s.keys, s.users, keyId, now).value, request.permission, request.server, request.stack) then Pending else Refused
    ensures RightAnswer(s, keyId, userId, request, now, answer)
  {
  }

  /** A request goes on without touching anything but its own call. */
  lemma AskedGoesOn(s: System, c: nat, next: Call)
    requires Sound(s) && c in s.calls && s.calls[c].Asking? && (next.Repeating? || next.Confirming?)
    ensures Sound(s.(calls := s.calls[c := next], clock := s.clock + 1))
  {
    hide Sound;
    FreeCallGoesOn(s, c, next);
  }

  lemma AskingIsSound(s: System, c: nat, call: Call)
    requires Sound(s) && c !in s.calls && call.Asking?
    ensures Sound(s.(calls := s.calls[c := call], clock := s.clock + 1))
  {
    hide Sound;
    FreeCallGoesOn(s, c, call);
  }

  lemma CheckedIsSound(s: System, c: nat)
    requires Sound(s) && c in s.calls && s.calls[c].Looking? && !s.calls[c].stage.AfterClaim? && s.calls[c].op in s.rows
    ensures Sound(s.(calls := s.calls[c := NextCall(s.calls[c])], clock := s.clock + 1))
  {
    hide Sound, CallValid, HoldsClaim, CallStamp, NextCall;
    FirstChecks(s, s.calls[c]);
    FreeCallGoesOn(s, c, NextCall(s.calls[c]));
  }

  lemma RequestsAreUnique(s: System, keyId: string, request: Request)
    requires Sound(s)
    ensures forall a, b | IsRequest(s.rows, a, keyId, request) && IsRequest(s.rows, b, keyId, request) :: a == b
    ensures forall a | IsRequest(s.rows, a, keyId, request) :: a in s.rows
  {
    assert OneRowPerRequest(s);
  }

  lemma FoundIsItself(keys: map<string, KeyRow>, users: map<string, User>, id: string, now: int)
    ensures var identity := ResolveIdentity(keys, users, id, now); identity.Some? ==> identity.value.keyId == id
  {
  }
}
