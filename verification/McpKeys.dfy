/**
 Machine keys: what a key allows now, and reductions that only take away.

 A reduction reads the key, checks itself against what it read and writes; another reduction
 may come in between.
 */
module McpKeys {
  import opened Results

  datatype Role = Viewer | Operator

  datatype UserRole = AdminUser | OperatorUser | ViewerUser

  datatype Mode = ReadOnly | Automatic | Approval

  datatype User = User(role: UserRole, suspended: bool)

  datatype KeyRow = KeyRow(
    userId: string, role: Role, actions: set<string>, mode: Mode, resources: map<string, set<string>>,
    expiresAt: int, revoked: bool, policyVersion: int)

  /** A key as it acts at one moment; every check asks for it anew. */
  datatype Identity = Identity(
    keyId: string, userId: string, role: Role, actions: set<string>, mode: Mode,
    resources: map<string, set<string>>, policyVersion: int)

  function ResolveIdentity(keys: map<string, KeyRow>, users: map<string, User>, id: string, now: int): Option<Identity> {
    if id !in keys || keys[id].revoked || keys[id].expiresAt <= now then None
    else
      var row := keys[id];
      if row.userId !in users || users[row.userId].suspended then None
      else
        var role := if row.role.Operator? && !users[row.userId].role.ViewerUser? then Operator else Viewer;
        Some(Identity(id, row.userId, role, if role.Operator? then row.actions else {},
                      if role.Viewer? then ReadOnly else row.mode, row.resources, row.policyVersion))
  }

  /** The action on exactly this stack of exactly this server. */
  predicate Access(identity: Identity, permission: string, server: string, stack: string) {
    && identity.role.Operator? && !identity.mode.ReadOnly? && permission in identity.actions
    && server in identity.resources && stack in identity.resources[server]
  }

  /**
   A key acts exactly when it is neither revoked nor expired and both it and its active owner
   may operate; whoever only may look has no action and no mode to act in.
   */
  lemma AccessExactlyWhen(keys: map<string, KeyRow>, users: map<string, User>, id: string, now: int,
                          permission: string, server: string, stack: string)
    ensures var identity := ResolveIdentity(keys, users, id, now);
            && (identity.Some? && Access(identity.value, permission, server, stack) <==>
                  && id in keys && !keys[id].revoked && keys[id].expiresAt > now
                  && keys[id].userId in users && !users[keys[id].userId].suspended && !users[keys[id].userId].role.ViewerUser?
                  && keys[id].role.Operator? && !keys[id].mode.ReadOnly? && permission in keys[id].actions
                  && server in keys[id].resources && stack in keys[id].resources[server])
            && (identity.Some? && identity.value.role.Viewer? ==> identity.value.mode.ReadOnly? && identity.value.actions == {})
            && (identity.Some? ==> identity.value.policyVersion == keys[id].policyVersion && identity.value.userId == keys[id].userId)
            && (identity.Some? <==> id in keys && !keys[id].revoked && keys[id].expiresAt > now
                                    && keys[id].userId in users && !users[keys[id].userId].suspended)
            && (identity.Some? ==> (identity.value.role.Operator? <==> keys[id].role.Operator? && !users[keys[id].userId].role.ViewerUser?))
            && (identity.Some? && identity.value.role.Operator? ==>
                  identity.value.mode == keys[id].mode && identity.value.actions == keys[id].actions && identity.value.resources == keys[id].resources)
  {
  }

  // ---------------------------------------------------------------- reductions

  datatype Reduction = Reduction(
    userId: string, role: Role, actions: set<string>, mode: Mode, resources: map<string, set<string>>, days: nat)

  /** The check of a reduction against the row it read. */
  predicate IsReduction(read: KeyRow, data: Reduction) {
    && !read.revoked && read.userId == data.userId
    && (data.role.Operator? ==> read.role.Operator?)
    && (forall server | server in data.resources :: server in read.resources && data.resources[server] <= read.resources[server])
    && data.actions <= read.actions
    && (data.mode.Automatic? ==> read.mode.Automatic?)
    && (read.mode.ReadOnly? ==> data.mode.ReadOnly?)
    && (data.role.Viewer? ==> data.actions == {} && data.mode.ReadOnly?)
  }

  /** What a reduction writes: its own values, and an end and a version taken from what it read. */
  function Reduced(current: KeyRow, read: KeyRow, data: Reduction, now: int): KeyRow {
    var end := now + data.days * 86_400_000;
    KeyRow(current.userId, data.role, data.actions, data.mode, data.resources,
           if read.expiresAt <= end then read.expiresAt else end, current.revoked, read.policyVersion + 1)
  }

  predicate Within(mode: Mode, limit: Mode) {
    limit.Automatic? || mode == limit || mode.ReadOnly?
  }

  /** No more authority in any respect. */
  predicate NoMore(a: KeyRow, b: KeyRow) {
    && (a.role.Operator? ==> b.role.Operator?) && a.actions <= b.actions && Within(a.mode, b.mode)
    && (forall server | server in a.resources :: server in b.resources && a.resources[server] <= b.resources[server])
    && a.expiresAt <= b.expiresAt && (b.revoked ==> a.revoked)
  }

  /** If nothing came in between, a reduction only takes away and counts as a new policy. */
  lemma ReductionShrinks(read: KeyRow, data: Reduction, now: int)
    requires IsReduction(read, data)
    ensures NoMore(Reduced(read, read, data, now), read) && Reduced(read, read, data, now).policyVersion == read.policyVersion + 1
  {
  }

  /** The check accepts exactly what takes away in every respect from a key in force; a viewer is left nothing to act with. */
  lemma AcceptedExactlyWhenItTakesAway(read: KeyRow, data: Reduction, now: int)
    ensures IsReduction(read, data)
            <==> !read.revoked && read.userId == data.userId && (data.role.Viewer? ==> data.actions == {} && data.mode.ReadOnly?)
                 && NoMore(Reduced(read, read, data, now), read)
  {
    var written := Reduced(read, read, data, now);
    assert data.role == written.role && data.actions == written.actions && data.mode == written.mode && data.resources == written.resources;
  }

  /** Less authority on the key never gives more access, whatever becomes of its owner. */
  lemma NoMoreMeansNoMoreAccess(keys: map<string, KeyRow>, users: map<string, User>, id: string, now: int, less: KeyRow,
                                permission: string, server: string, stack: string)
    requires id in keys && NoMore(less, keys[id]) && less.userId == keys[id].userId
    requires var identity := ResolveIdentity(keys[id := less], users, id, now);
             identity.Some? && Access(identity.value, permission, server, stack)
    ensures var identity := ResolveIdentity(keys, users, id, now);
            && identity.Some? && Access(identity.value, permission, server, stack)
            && (identity.value.mode.Approval? ==> ResolveIdentity(keys[id := less], users, id, now).value.mode.Approval?)
  {
  }

  /**
   A reduction that was checked against the row it read takes nothing but authority away from
   the row it overwrites if and only if the same check holds of that row and the lifetime
   does not grow again.
   */
  lemma ReductionTakesAwayExactlyWhen(current: KeyRow, read: KeyRow, data: Reduction, now: int)
    requires IsReduction(read, data) && current.userId == read.userId
    ensures NoMore(Reduced(current, read, data, now), current)
            <==> IsReduction(current.(revoked := false), data) && Reduced(current, read, data, now).expiresAt <= current.expiresAt
  {
    var written := Reduced(current, read, data, now);
    assert data.role == written.role && data.actions == written.actions && data.mode == written.mode && data.resources == written.resources;
  }

  /** One that found the row as it still is, revoked meanwhile or not, takes away in every respect. */
  lemma ReductionInTurn(current: KeyRow, read: KeyRow, data: Reduction, now: int)
    requires IsReduction(read, data) && read == current.(revoked := false)
    ensures NoMore(Reduced(current, read, data, now), current) && Reduced(current, read, data, now).policyVersion == current.policyVersion + 1
  {
    ReductionTakesAwayExactlyWhen(current, read, data, now);
  }

  /**
   Three reductions, of which the first to read is the last to write: authority that the
   others took away is back, and so is a version that operations were prepared under.
   */
  lemma OverlappingReductionsRestoreAuthority()
    ensures exists first: KeyRow, wide: Reduction, narrow: Reduction, none: Reduction, now: int ::
              && IsReduction(first, wide) && IsReduction(first, narrow)
              && var second := Reduced(first, first, narrow, now);
              && IsReduction(second, none)
              && var third := Reduced(second, second, none, now);
              && var last := Reduced(third, first, wide, now);
              && !NoMore(last, third) && last.policyVersion == second.policyVersion < third.policyVersion
  {
    var resources := map["local" := {"stack"}];
    var first := KeyRow("owner", Operator, {"deploy", "save"}, Automatic, resources, 1_000_000_000, false, 1);
    var wide := Reduction("owner", Operator, {"deploy", "save"}, Automatic, resources, 1);
    var narrow := Reduction("owner", Operator, {"save"}, Automatic, resources, 1);
    var none := Reduction("owner", Viewer, {}, ReadOnly, resources, 1);
    var second := Reduced(first, first, narrow, 0);
    var third := Reduced(second, second, none, 0);
    assert "deploy" in Reduced(third, first, wide, 0).actions && "deploy" !in third.actions;
    assert IsReduction(first, wide) && IsReduction(first, narrow) && IsReduction(second, none);
  }
}
