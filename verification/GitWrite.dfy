/**
 An apply of a Git result, file by file, and its undo.

 `Outside` stands for whatever others do to the files, the index and the branch between two
 steps of an apply. `record` remembers what the apply itself has in place, every moment it
 went through and every file state it replaced.
 */
module GitWrite {
  import opened Results
  import opened GitApply

  /** The originals kept aside while files are being replaced. */
  datatype Kept = Kept(files: FileTree, index: Option<Bytes>)

  /** A directory under Git; `recovery` is the one of the apply under way. */
  datatype Repo = Repo(files: FileTree, index: Bytes, branch: string, refs: map<string, string>, locked: bool, recovery: Option<Kept>)

  datatype Plan = Plan(preview: Preview, result: FileTree, changed: seq<string>, targetIndex: Bytes)

  datatype Outcome = Applied | Busy | RolledBack | RollbackIncomplete(backup: Kept)

  datatype Moment = Moment(repo: Repo, touched: set<string>, indexTouched: bool)

  datatype Overwrite = Overwrite(name: string, replaced: Option<FileState>, expected: Option<FileState>)

  /** `touched` is what is in place now, `replaced` every file that ever was, put back or not. */
  datatype Record = Record(
    touched: set<string>, replaced: set<string>, indexTouched: bool, edited: bool, trace: seq<Moment>, log: seq<Overwrite>)

  function Before(plan: Plan, name: string): Option<FileState> {
    Get(plan.preview.before, name)
  }

  function After(plan: Plan, name: string): Option<FileState> {
    Get(plan.result, name)
  }

  /** What resolving the choices promises of the result. */
  ghost predicate PlanValid(plan: Plan) {
    && Distinct(plan.changed)
    && forall name | name !in plan.changed :: After(plan, name) == Before(plan, name)
  }

  // ---------------------------------------------------------------- what holds at every moment

  predicate HasOriginal(plan: Plan, recovery: Option<Kept>, name: string) {
    name in plan.preview.before ==>
      recovery.Some? && name in recovery.value.files && recovery.value.files[name] == plan.preview.before[name]
  }

  /** Whatever this apply has replaced and not put back is kept aside, byte for byte. */
  predicate Safe(plan: Plan, m: Moment) {
    && (forall name | name in m.touched :: name in plan.changed && HasOriginal(plan, m.repo.recovery, name))
    && (m.indexTouched ==> m.repo.recovery.Some? && m.repo.recovery.value.index == Some(plan.preview.index))
  }

  /** An overwritten state was the one compared, or the one this apply had written itself. */
  predicate Honest(plan: Plan, e: Overwrite) {
    && e.name in plan.changed && EqualFile(e.replaced, e.expected)
    && (e.expected == Before(plan, e.name) || e.expected == After(plan, e.name))
  }

  predicate FileInPlace(plan: Plan, start: Repo, repo: Repo, touched: set<string>, replaced: set<string>, name: string) {
    if name in touched then Get(repo.files, name) == After(plan, name) && EqualFile(Get(start.files, name), Before(plan, name))
    else if name in replaced then Get(repo.files, name) == Before(plan, name) && EqualFile(Get(start.files, name), Before(plan, name))
    else Get(repo.files, name) == Get(start.files, name)
  }

  /** When nobody else edits: touched files hold the result, restored ones the compared state, all others what they held. */
  ghost predicate Quiet(plan: Plan, start: Repo, m: Moment, replaced: set<string>) {
    && (forall name :: FileInPlace(plan, start, m.repo, m.touched, replaced, name))
    && m.repo.index == (if m.indexTouched then plan.targetIndex else start.index)
    && (m.indexTouched ==>
          && start.index == plan.preview.index
          && forall name | name !in plan.changed :: EqualFile(Get(start.files, name), After(plan, name)))
    && m.repo.branch == start.branch && m.repo.refs == start.refs
  }

  ghost predicate Sound(plan: Plan, start: Repo, repo: Repo, record: Record) {
    && var now := Moment(repo, record.touched, record.indexTouched);
    && Safe(plan, now)
    && (forall m | m in record.trace :: Safe(plan, m))
    && (forall e | e in record.log :: Honest(plan, e))
    && record.touched <= record.replaced && (forall name | name in record.replaced :: name in plan.changed)
    && (!record.edited ==> Quiet(plan, start, now, record.replaced))
  }

  function Noted(record: Record, repo: Repo): Record {
    record.(trace := record.trace + [Moment(repo, record.touched, record.indexTouched)])
  }

  // ---------------------------------------------------------------- one step at a time

  lemma NotingKeepsSound(plan: Plan, start: Repo, repo: Repo, record: Record)
    requires Sound(plan, start, repo, record)
    ensures Sound(plan, start, repo, Noted(record, repo))
  {
    hide Safe, Honest, Quiet;
  }

  lemma OutsideKeepsSound(plan: Plan, start: Repo, repo: Repo, record: Record, next: Repo)
    requires Sound(plan, start, repo, record) && next.recovery == repo.recovery && next.locked == repo.locked
    ensures Sound(plan, start, next, record.(edited := record.edited || next != repo))
  {
    hide Honest, Quiet;
    assert Safe(plan, Moment(next, record.touched, record.indexTouched));
    hide Safe;
  }

  /** Keeping one more original aside while nothing is touched yet. */
  lemma KeepingKeepsSound(plan: Plan, start: Repo, repo: Repo, record: Record, kept: Kept)
    requires Sound(plan, start, repo, record) && record.touched == {} && !record.indexTouched
    ensures Sound(plan, start, repo.(recovery := Some(kept)), record)
  {
    hide Honest;
    var next := repo.(recovery := Some(kept));
    if !record.edited {
      forall name ensures FileInPlace(plan, start, next, record.touched, record.replaced, name) {
        assert FileInPlace(plan, start, repo, record.touched, record.replaced, name);
      }
    }
    assert Safe(plan, Moment(next, record.touched, record.indexTouched));
    hide Safe;
  }

  lemma ReplacingKeepsSound(plan: Plan, start: Repo, repo: Repo, record: Record, name: string)
    requires Sound(plan, start, repo, record) && name in plan.changed && name !in record.touched
    requires EqualFile(Get(repo.files, name), Before(plan, name)) && HasOriginal(plan, repo.recovery, name)
    ensures var expected := Before(plan, name);
            Sound(plan, start, repo.(files := Set(repo.files, name, After(plan, name))),
                  record.(touched := record.touched + {name}, replaced := record.replaced + {name}, log := record.log + [Overwrite(name, Get(repo.files, name), expected)]))
  {
    var next := repo.(files := Set(repo.files, name, After(plan, name)));
    var touched, replaced := record.touched + {name}, record.replaced + {name};
    if !record.edited {
      forall other ensures FileInPlace(plan, start, next, touched, replaced, other) {
        assert FileInPlace(plan, start, repo, record.touched, record.replaced, other);
      }
    }
    assert Honest(plan, Overwrite(name, Get(repo.files, name), Before(plan, name)));
    assert Safe(plan, Moment(next, touched, record.indexTouched));
    hide Safe, Honest;
  }

  lemma RestoringKeepsSound(plan: Plan, start: Repo, repo: Repo, record: Record, name: string, left: Kept)
    requires Sound(plan, start, repo, record) && name in record.touched && repo.recovery.Some?
    requires EqualFile(Get(repo.files, name), After(plan, name)) && left == repo.recovery.value.(files := repo.recovery.value.files - {name})
    ensures Sound(plan, start, repo.(files := Set(repo.files, name, Before(plan, name)), recovery := Some(left)),
                  record.(touched := record.touched - {name}, log := record.log + [Overwrite(name, Get(repo.files, name), After(plan, name))]))
  {
    var next := repo.(files := Set(repo.files, name, Before(plan, name)), recovery := Some(left));
    var touched := record.touched - {name};
    if !record.edited {
      forall other ensures FileInPlace(plan, start, next, touched, record.replaced, other) {
        assert FileInPlace(plan, start, repo, record.touched, record.replaced, other);
      }
    }
    assert Honest(plan, Overwrite(name, Get(repo.files, name), After(plan, name)));
    assert Safe(plan, Moment(next, touched, record.indexTouched));
    hide Safe, Honest;
  }

  /** The index is switched to the target's once the files are in place, and back if the branch cannot move. */
  lemma SwitchingKeepsSound(plan: Plan, start: Repo, repo: Repo, record: Record)
    requires Sound(plan, start, repo, record) && !record.indexTouched && repo.index == plan.preview.index
    requires repo.recovery.Some? && repo.recovery.value.index == Some(plan.preview.index) && SameTree(repo.files, plan.result)
    ensures Sound(plan, start, repo.(index := plan.targetIndex), record.(indexTouched := true))
  {
    var next := repo.(index := plan.targetIndex);
    SameTreeIsPointwise(repo.files, plan.result);
    if !record.edited {
      forall name | name !in plan.changed ensures EqualFile(Get(start.files, name), After(plan, name)) {
        assert FileInPlace(plan, start, repo, record.touched, record.replaced, name) && EqualFile(Get(repo.files, name), After(plan, name));
      }
      forall name ensures FileInPlace(plan, start, next, record.touched, record.replaced, name) {
        assert FileInPlace(plan, start, repo, record.touched, record.replaced, name);
      }
    }
    assert Safe(plan, Moment(next, record.touched, true));
    hide Safe, Honest;
  }

  lemma SwitchingBackKeepsSound(plan: Plan, start: Repo, repo: Repo, record: Record)
    requires Sound(plan, start, repo, record) && record.indexTouched
    ensures repo.recovery.Some? && repo.recovery.value.index == Some(plan.preview.index)
    ensures Sound(plan, start, repo.(index := plan.preview.index, recovery := Some(repo.recovery.value.(index := None))),
                  record.(indexTouched := false))
  {
    var next := repo.(index := plan.preview.index, recovery := Some(repo.recovery.value.(index := None)));
    if !record.edited {
      forall name ensures FileInPlace(plan, start, next, record.touched, record.replaced, name) {
        assert FileInPlace(plan, start, repo, record.touched, record.replaced, name);
      }
    }
    assert Safe(plan, Moment(next, record.touched, false));
    hide Safe, Honest;
  }

  // ---------------------------------------------------------------- the apply

  class GitDirectory {
    var repo: Repo
    ghost var record: Record
    /** How many operations on the file system or on Git have failed. */
    ghost var faults: nat

    ghost predicate Going(plan: Plan, start: Repo) reads this {
      Sound(plan, start, repo, record)
    }

    /** An operation works, or it fails and changes nothing. */
    method Breaks() returns (broken: bool)
      modifies this`faults
      ensures faults == old(faults) + if broken then 1 else 0
    {
      broken := *;
      if broken {
        faults := faults + 1;
      }
    }

    /** What others do between two steps; the recovery directory and the lock are this apply's own. */
    method Outside(ghost plan: Plan, ghost start: Repo)
      requires Going(plan, start)
      modifies this`repo, this`record
      ensures Going(plan, start)
      ensures repo.recovery == old(repo).recovery && repo.locked == old(repo).locked
      ensures record.touched == old(record).touched && record.indexTouched == old(record).indexTouched
      ensures record.edited <==> old(record).edited || repo != old(repo)
      ensures record.trace == old(record).trace + [Moment(repo, record.touched, record.indexTouched)]
    {
      hide Sound;
      var next: Repo := *;
      next := next.(recovery := repo.recovery, locked := repo.locked);
      OutsideKeepsSound(plan, start, repo, record, next);
      record := record.(edited := record.edited || next != repo);
      repo := next;
      NotingKeepsSound(plan, start, repo, record);
      record := Noted(record, repo);
    }

    /** Before the first replacement, the recovery directory gets the compared originals and the index. */
    method KeepOriginals(plan: Plan, ghost start: Repo) returns (ok: bool)
      requires Going(plan, start) && record.touched == {} && !record.indexTouched
      modifies this
      ensures Going(plan, start)
      ensures repo == old(repo).(recovery := repo.recovery)
      ensures record.touched == {} && !record.indexTouched && record.edited == old(record).edited
      ensures ok ==> repo.recovery.Some? && repo.recovery.value.index == Some(plan.preview.index)
      ensures ok ==> forall name | name in plan.changed :: HasOriginal(plan, repo.recovery, name)
      ensures old(faults) <= faults && (ok <==> faults == old(faults))
    {
      hide Sound;
      var broken := Breaks();
      if broken {
        return false;
      }
      Keep(plan, start, Kept(map[], None));
      var index := 0;
      while index < |plan.changed|
        invariant 0 <= index <= |plan.changed|
        invariant Going(plan, start) && record.touched == {} && !record.indexTouched && record.edited == old(record).edited
        invariant repo == old(repo).(recovery := repo.recovery) && repo.recovery.Some?
        invariant forall name | name in plan.changed[..index] :: HasOriginal(plan, repo.recovery, name)
        invariant faults == old(faults)
      {
        broken := Breaks();
        if broken {
          return false;
        }
        var name, kept := plan.changed[index], repo.recovery.value;
        assert plan.changed[..index + 1] == plan.changed[..index] + [name];
        ghost var before := repo.recovery;
        if name in plan.preview.before {
          Keep(plan, start, kept.(files := kept.files[name := plan.preview.before[name]]));
        }
        forall other | other in plan.changed[..index + 1] ensures HasOriginal(plan, repo.recovery, other) {
          assert other in plan.changed[..index] ==> HasOriginal(plan, before, other);
        }
        index := index + 1;
      }
      assert plan.changed[..index] == plan.changed;
      broken := Breaks();
      if broken {
        return false;
      }
      Keep(plan, start, repo.recovery.value.(index := Some(plan.preview.index)));
      return true;
    }

    method Keep(plan: Plan, ghost start: Repo, kept: Kept)
      requires Going(plan, start) && record.touched == {} && !record.indexTouched
      modifies this`repo, this`record
      ensures Going(plan, start) && repo == old(repo).(recovery := Some(kept))
      ensures record.touched == {} && !record.indexTouched && record.edited == old(record).edited
    {
      hide Sound;
      KeepingKeepsSound(plan, start, repo, record, kept);
      repo := repo.(recovery := Some(kept));
      NotingKeepsSound(plan, start, repo, record);
      record := Noted(record, repo);
    }

    /** Replace one file if it still is what the comparison showed. */
    method ReplaceOne(plan: Plan, ghost start: Repo, name: string) returns (ok: bool)
      requires Going(plan, start) && name in plan.changed && name !in record.touched && HasOriginal(plan, repo.recovery, name)
      modifies this
      ensures Going(plan, start)
      ensures repo.recovery == old(repo).recovery && repo.locked == old(repo).locked
      ensures record.touched == if ok then old(record).touched + {name} else old(record).touched
      ensures record.indexTouched == old(record).indexTouched
      ensures (old(record).edited ==> record.edited) && old(faults) <= faults
      ensures !record.edited ==> repo == if ok then old(repo).(files := Set(old(repo).files, name, After(plan, name))) else old(repo)
      ensures !record.edited && faults == old(faults) ==> (ok <==> EqualFile(Get(old(repo).files, name), Before(plan, name)))
    {
      hide Sound;
      Outside(plan, start);
      if !EqualFile(Get(repo.files, name), Get(plan.preview.before, name)) {
        return false;
      }
      var broken := Breaks();
      if broken {
        return false;
      }
      ReplacingKeepsSound(plan, start, repo, record, name);
      record := record.(touched := record.touched + {name}, replaced := record.replaced + {name},
                        log := record.log + [Overwrite(name, Get(repo.files, name), Before(plan, name))]);
      repo := repo.(files := Set(repo.files, name, Get(plan.result, name)));
      NotingKeepsSound(plan, start, repo, record);
      record := Noted(record, repo);
      return true;
    }

    method ReplaceFiles(plan: Plan, ghost start: Repo) returns (ok: bool, written: seq<string>)
      requires PlanValid(plan) && Going(plan, start) && record.touched == {}
      requires forall name | name in plan.changed :: HasOriginal(plan, repo.recovery, name)
      modifies this
      ensures Going(plan, start)
      ensures repo.recovery == old(repo).recovery && repo.locked == old(repo).locked && record.indexTouched == old(record).indexTouched
      ensures written <= plan.changed && (ok ==> written == plan.changed)
      ensures record.touched == set name | name in written
      ensures (old(record).edited ==> record.edited) && old(faults) <= faults
      ensures !record.edited ==>
                && repo == old(repo).(files := repo.files)
                && forall name :: Get(repo.files, name) == if name in written then After(plan, name) else Get(old(repo).files, name)
      ensures !record.edited && faults == old(faults) && (forall name | name in plan.changed :: EqualFile(Get(old(repo).files, name), Before(plan, name))) ==> ok
    {
      hide Sound;
      written := [];
      while |written| < |plan.changed|
        invariant written <= plan.changed
        invariant (old(record).edited ==> record.edited) && old(faults) <= faults
        invariant !record.edited ==>
                    && repo == old(repo).(files := repo.files)
                    && forall name :: Get(repo.files, name) == if name in written then After(plan, name) else Get(old(repo).files, name)
        invariant Going(plan, start) && record.touched == set name | name in written
        invariant repo.recovery == old(repo).recovery && repo.locked == old(repo).locked && record.indexTouched == old(record).indexTouched
        decreases |plan.changed| - |written|
      {
        var name := plan.changed[|written|];
        assert name !in written;
        var replaced := ReplaceOne(plan, start, name);
        if !replaced {
          return false, written;
        }
        written := written + [name];
      }
      return true, written;
    }

    /** The whole tree is checked before the index follows the files. */
    method SwitchIndex(plan: Plan, ghost start: Repo) returns (ok: bool)
      requires Going(plan, start) && !record.indexTouched
      requires repo.recovery.Some? && repo.recovery.value.index == Some(plan.preview.index)
      modifies this
      ensures Going(plan, start)
      ensures repo.recovery == old(repo).recovery && repo.locked == old(repo).locked && record.touched == old(record).touched
      ensures record.indexTouched == ok
      ensures ok ==> exists m | m in record.trace :: SameTree(m.repo.files, plan.result) && m.repo.index == plan.preview.index
      ensures (old(record).edited ==> record.edited) && old(faults) <= faults
      ensures !record.edited ==> repo == if ok then old(repo).(index := plan.targetIndex) else old(repo)
      ensures !record.edited && faults == old(faults) ==> (ok <==> SameTree(old(repo).files, plan.result) && old(repo).index == plan.preview.index)
    {
      hide Sound;
      Outside(plan, start);
      if !SameTree(repo.files, plan.result) || repo.index != plan.preview.index {
        return false;
      }
      var broken := Breaks();
      if broken {
        return false;
      }
      ghost var checked := Moment(repo, record.touched, record.indexTouched);
      assert checked in record.trace;
      SwitchingKeepsSound(plan, start, repo, record);
      repo := repo.(index := plan.targetIndex);
      record := record.(indexTouched := true);
      NotingKeepsSound(plan, start, repo, record);
      record := Noted(record, repo);
      assert checked in record.trace && SameTree(checked.repo.files, plan.result);
      return true;
    }

    /** The branch moves only if it still is at the commit that was compared. */
    method MoveBranch(plan: Plan, ghost start: Repo) returns (ok: bool, ghost unmoved: Repo)
      requires Going(plan, start)
      modifies this
      ensures Sound(plan, start, unmoved, record)
      ensures unmoved.recovery == old(repo).recovery && unmoved.locked == old(repo).locked
      ensures record.touched == old(record).touched && record.indexTouched == old(record).indexTouched
      ensures old(record).trace <= record.trace
      ensures repo == if ok then unmoved.(refs := unmoved.refs[plan.preview.branch := plan.preview.targetCommit]) else unmoved
      ensures (old(record).edited ==> record.edited) && old(faults) <= faults && (!record.edited ==> unmoved == old(repo))
      ensures !record.edited && faults == old(faults) ==>
                (ok <==> plan.preview.branch in old(repo).refs && old(repo).refs[plan.preview.branch] == plan.preview.currentCommit)
    {
      hide Sound;
      Outside(plan, start);
      unmoved := repo;
      var broken := Breaks();
      if broken || plan.preview.branch !in repo.refs || repo.refs[plan.preview.branch] != plan.preview.currentCommit {
        return false, unmoved;
      }
      repo := repo.(refs := repo.refs[plan.preview.branch := plan.preview.targetCommit]);
      return true, unmoved;
    }

    /** Put back one file that still holds what this apply wrote. */
    method RestoreOne(plan: Plan, ghost start: Repo, name: string) returns (ok: bool)
      requires Going(plan, start) && name in record.touched && repo.recovery.Some?
      modifies this
      ensures Going(plan, start) && repo.recovery.Some? && repo.locked == old(repo).locked
      ensures record.touched == if ok then old(record).touched - {name} else old(record).touched
      ensures record.indexTouched == old(record).indexTouched
      ensures (old(record).edited ==> record.edited) && old(faults) <= faults
    {
      Outside(plan, start);
      var kept := repo.recovery.value;
      assert Safe(plan, Moment(repo, record.touched, record.indexTouched)) && HasOriginal(plan, repo.recovery, name);
      hide Sound;
      if !EqualFile(Get(repo.files, name), Get(plan.result, name)) {
        return false;
      }
      var broken := Breaks();
      if broken {
        return false;
      }
      RestoringKeepsSound(plan, start, repo, record, name, kept.(files := kept.files - {name}));
      record := record.(touched := record.touched - {name}, log := record.log + [Overwrite(name, Get(repo.files, name), After(plan, name))]);
      if name in plan.preview.before {
        repo := repo.(files := repo.files[name := kept.files[name]]);
      } else {
        repo := repo.(files := repo.files - {name});
      }
      repo := repo.(recovery := Some(kept.(files := kept.files - {name})));
      NotingKeepsSound(plan, start, repo, record);
      record := Noted(record, repo);
      return true;
    }

    /** Undo the writes, the latest first; a file that someone else has edited stops it. */
    method Rollback(plan: Plan, ghost start: Repo, written: seq<string>, indexUpdated: bool) returns (ok: bool)
      requires Going(plan, start) && Distinct(written) && record.touched == set name | name in written
      requires indexUpdated == record.indexTouched && (written != [] || indexUpdated ==> repo.recovery.Some?)
      modifies this
      ensures Going(plan, start) && repo.locked == old(repo).locked
      ensures ok ==> record.touched == {} && !record.indexTouched
      ensures !ok ==> repo.recovery.Some? && (record.touched != {} || record.indexTouched)
      ensures (old(record).edited ==> record.edited) && old(faults) <= faults
      ensures written == [] && !indexUpdated ==> ok && repo == old(repo)
    {
      hide Sound;
      var index := |written|;
      assert written[..index] == written;
      while index > 0
        invariant 0 <= index <= |written|
        invariant Going(plan, start) && record.touched == (set name | name in written[..index]) && record.indexTouched == old(record).indexTouched
        invariant written != [] || record.indexTouched ==> repo.recovery.Some?
        invariant repo.locked == old(repo).locked
        invariant (old(record).edited ==> record.edited) && old(faults) <= faults && (written == [] ==> repo == old(repo))
      {
        index := index - 1;
        assert written[..index + 1] == written[..index] + [written[index]];
        var restored := RestoreOne(plan, start, written[index]);
        if !restored {
          assert written[index] in record.touched;
          return false;
        }
      }
      if indexUpdated {
        ok := RestoreIndex(plan, start);
        return;
      }
      return true;
    }

    /** The kept index is renamed over the present one, which is not looked at: only the lock guards it. */
    method RestoreIndex(plan: Plan, ghost start: Repo) returns (ok: bool)
      requires Going(plan, start) && record.indexTouched && record.touched == {} && repo.recovery.Some?
      modifies this
      ensures Going(plan, start) && repo.recovery.Some? && record.touched == {} && record.indexTouched == !ok && repo.locked == old(repo).locked
      ensures (old(record).edited ==> record.edited) && old(faults) <= faults
    {
      hide Sound;
      Outside(plan, start);
      var broken := Breaks();
      if broken {
        return false;
      }
      SwitchingBackKeepsSound(plan, start, repo, record);
      repo := repo.(index := repo.recovery.value.index.value, recovery := Some(repo.recovery.value.(index := None)));
      record := record.(indexTouched := false);
      NotingKeepsSound(plan, start, repo, record);
      record := Noted(record, repo);
      return true;
    }

    /** Everything up to the moving of the branch; false when some step was refused or broke. */
    method Attempt(plan: Plan, ghost start: Repo) returns (ok: bool, written: seq<string>, indexUpdated: bool, ghost unmoved: Repo)
      requires PlanValid(plan) && Going(plan, start) && repo.recovery.None? && record.touched == {} && !record.indexTouched
      modifies this
      ensures Sound(plan, start, unmoved, record) && unmoved.locked == old(repo).locked
      ensures Distinct(written) && record.touched == (set name | name in written) && indexUpdated == record.indexTouched
      ensures written != [] || indexUpdated ==> unmoved.recovery.Some?
      ensures !ok ==> repo == unmoved
      ensures ok ==>
                && repo == unmoved.(refs := unmoved.refs[plan.preview.branch := plan.preview.targetCommit])
                && written == plan.changed && indexUpdated
                && exists m | m in record.trace :: SameTree(m.repo.files, plan.result) && m.repo.index == plan.preview.index
      ensures (old(record).edited ==> record.edited) && old(faults) <= faults
      ensures !record.edited && faults == old(faults) ==> (ok <==> AsCompared(plan, old(repo)))
      ensures !record.edited && faults == old(faults) && !ok ==> written == [] && !indexUpdated && repo == old(repo)
    {
      hide Sound;
      written, indexUpdated := [], false;
      Outside(plan, start);
      unmoved := repo;
      if repo.branch != plan.preview.branch || repo.branch !in repo.refs || repo.refs[repo.branch] != plan.preview.currentCommit
         || !SameTree(repo.files, plan.preview.before) || repo.index != plan.preview.index {
        return false, written, false, unmoved;
      }
      var kept := KeepOriginals(plan, start);
      unmoved := repo;
      if !kept {
        return false, written, false, unmoved;
      }
      ghost var compared := repo;
      if !record.edited {
        AsComparedMeans(plan, repo);
      }
      var replaced;
      replaced, written := ReplaceFiles(plan, start);
      if !record.edited && replaced {
        ReplacedIsResult(plan, compared, repo, written);
      }
      unmoved := repo;
      if !replaced {
        return false, written, false, unmoved;
      }
      indexUpdated := SwitchIndex(plan, start);
      unmoved := repo;
      if !indexUpdated {
        return false, written, false, unmoved;
      }
      ghost var m :| m in record.trace && SameTree(m.repo.files, plan.result) && m.repo.index == plan.preview.index;
      ok, unmoved := MoveBranch(plan, start);
      assert m in record.trace;
    }

    /**
     Apply a chosen result. There are three ways to end once the lock is taken: the result is
     in place with the target's index and branch; or everything is as it was; or the files
     that could not be put back are in the backup. What is said of the directory itself holds
     when nobody else edited it meanwhile; that no edit was overwritten holds always.
     */
    method Write(plan: Plan) returns (outcome: Outcome)
      requires PlanValid(plan) && repo.recovery.None?
      modifies this
      ensures outcome.Busy? ==> repo == old(repo)
      ensures old(repo).locked ==> outcome.Busy?
      ensures old(faults) <= faults && (faults == old(faults) && outcome.Busy? ==> old(repo).locked)
      ensures faults == old(faults) && !outcome.Busy? && !record.edited ==>
                && (!outcome.Applied? ==> outcome.RolledBack? && repo == old(repo))
                && (outcome.Applied? <==>
                      && old(repo).branch == plan.preview.branch && plan.preview.branch in old(repo).refs
                      && old(repo).refs[plan.preview.branch] == plan.preview.currentCommit
                      && SameTree(old(repo).files, plan.preview.before) && old(repo).index == plan.preview.index)
      ensures !outcome.Busy? ==>
                && !repo.locked && repo.recovery.None?
                && (forall m | m in record.trace :: Safe(plan, m))
                && (forall e | e in record.log :: Honest(plan, e))
                && Ended(plan, old(repo), repo, record, outcome)
    {
      if repo.locked {
        return Busy;
      }
      var broken := Breaks();
      if broken {
        return Busy;
      }
      repo := repo.(locked := true);
      record := Record({}, {}, false, false, [Moment(repo, {}, false)], []);
      ghost var start := repo;
      assert Sound(plan, start, repo, record);
      hide *;
      var ok, written, indexUpdated;
      ghost var unmoved;
      ok, written, indexUpdated, unmoved := Attempt(plan, start);
      if ok {
        AppliedEnds(plan, start, unmoved, repo, record);
        outcome := Applied;
      } else {
        ok := Rollback(plan, start, written, indexUpdated);
        outcome := if ok then RolledBack else RollbackIncomplete(repo.recovery.value);
        RolledBackEnds(plan, start, repo, record, outcome);
      }
      SoundMeans(plan, start, if outcome.Applied? then unmoved else repo, record);
      UnlockingEnds(plan, old(repo), start, repo, repo.(locked := false, recovery := None), record, outcome);
      repo := repo.(locked := false, recovery := None);
    }
  }

  /** Branch, commit, files and index are those of the comparison. */
  predicate AsCompared(plan: Plan, repo: Repo) {
    && repo.branch == plan.preview.branch && repo.branch in repo.refs && repo.refs[repo.branch] == plan.preview.currentCommit
    && SameTree(repo.files, plan.preview.before) && repo.index == plan.preview.index
  }

  lemma AsComparedMeans(plan: Plan, repo: Repo)
    requires AsCompared(plan, repo)
    ensures forall name :: EqualFile(Get(repo.files, name), Before(plan, name))
  {
    SameTreeIsPointwise(repo.files, plan.preview.before);
  }

  /** With all changed files replaced and the others as compared, the directory holds the result. */
  lemma ReplacedIsResult(plan: Plan, compared: Repo, repo: Repo, written: seq<string>)
    requires PlanValid(plan) && written == plan.changed && forall name :: EqualFile(Get(compared.files, name), Before(plan, name))
    requires forall name :: Get(repo.files, name) == if name in written then After(plan, name) else Get(compared.files, name)
    ensures SameTree(repo.files, plan.result)
  {
    SameTreeIsPointwise(repo.files, plan.result);
    forall name ensures EqualFile(Get(repo.files, name), Get(plan.result, name)) {
      assert EqualFile(Get(compared.files, name), Before(plan, name));
    }
  }

  /** How an apply may leave a directory, and what the backup then holds. */
  ghost predicate Ended(plan: Plan, start: Repo, end: Repo, record: Record, outcome: Outcome) {
    match outcome
    case Busy => true
    case Applied =>
      && (exists m | m in record.trace :: SameTree(m.repo.files, plan.result) && m.repo.index == plan.preview.index)
      && (!record.edited ==>
            && SameTree(end.files, plan.result) && end.index == plan.targetIndex && end.branch == start.branch
            && end.refs == start.refs[plan.preview.branch := plan.preview.targetCommit]
            && (forall name | name in plan.changed :: Get(end.files, name) == After(plan, name) && EqualFile(Get(start.files, name), Before(plan, name)))
            && (forall name | name !in plan.changed :: Get(end.files, name) == Get(start.files, name)))
    case RolledBack =>
      !record.edited ==>
        && SameTree(end.files, start.files) && end.index == start.index && end.branch == start.branch && end.refs == start.refs
        && (forall name :: Get(end.files, name) == if name in record.replaced then Before(plan, name) else Get(start.files, name))
        && (end.files == start.files <==> forall name | name in record.replaced :: Get(start.files, name) == Before(plan, name))
    case RollbackIncomplete(backup) =>
      && (record.touched != {} || record.indexTouched)
      && (forall name | name in record.touched :: name in plan.changed && HasOriginal(plan, Some(backup), name))
      && (record.indexTouched ==> backup.index == Some(plan.preview.index))
      && (!record.edited ==>
            forall name | name !in record.touched ::
              Get(end.files, name) == if name in record.replaced then Before(plan, name) else Get(start.files, name))
  }

  /** Locking, unlocking and dropping the recovery directory are no part of how the directory ended. */
  lemma UnlockingEnds(plan: Plan, before: Repo, start: Repo, end: Repo, last: Repo, record: Record, outcome: Outcome)
    requires start == before.(locked := start.locked) && last == end.(locked := last.locked, recovery := last.recovery)
    requires Ended(plan, start, end, record, outcome)
    ensures Ended(plan, before, last, record, outcome)
  {
    hide SameTree, HasOriginal, Before, After;
  }

  lemma AppliedEnds(plan: Plan, start: Repo, unmoved: Repo, end: Repo, record: Record)
    requires PlanValid(plan) && Sound(plan, start, unmoved, record)
    requires record.indexTouched && record.touched == set name | name in plan.changed
    requires end == unmoved.(refs := unmoved.refs[plan.preview.branch := plan.preview.targetCommit])
    requires exists m | m in record.trace :: SameTree(m.repo.files, plan.result) && m.repo.index == plan.preview.index
    ensures Ended(plan, start, end, record, Applied)
  {
    hide Sound, SameTree, PlanValid, Before, After;
    ResultIsInPlace(plan, start, unmoved, end, record);
  }

  lemma RolledBackEnds(plan: Plan, start: Repo, end: Repo, record: Record, outcome: Outcome)
    requires Sound(plan, start, end, record)
    requires if outcome.RolledBack? then record.touched == {} && !record.indexTouched
             else end.recovery.Some? && outcome == RollbackIncomplete(end.recovery.value) && (record.touched != {} || record.indexTouched)
    ensures Ended(plan, start, end, record, outcome)
  {
    hide Sound, SameTree, Before, After;
    NothingIsLost(plan, start, end, record);
  }

  lemma SoundMeans(plan: Plan, start: Repo, repo: Repo, record: Record)
    requires Sound(plan, start, repo, record)
    ensures forall m | m in record.trace :: Safe(plan, m)
    ensures forall e | e in record.log :: Honest(plan, e)
  {
  }

  /** With every file and the index switched, the directory holds the result. */
  lemma ResultIsInPlace(plan: Plan, start: Repo, unmoved: Repo, end: Repo, record: Record)
    requires PlanValid(plan) && Sound(plan, start, unmoved, record)
    requires record.indexTouched && record.touched == set name | name in plan.changed
    requires end == unmoved.(refs := unmoved.refs[plan.preview.branch := plan.preview.targetCommit])
    ensures !record.edited ==>
              && SameTree(end.files, plan.result) && end.index == plan.targetIndex && end.branch == start.branch
              && end.refs == start.refs[plan.preview.branch := plan.preview.targetCommit]
              && (forall name | name in plan.changed :: Get(end.files, name) == After(plan, name) && EqualFile(Get(start.files, name), Before(plan, name)))
              && (forall name | name !in plan.changed :: Get(end.files, name) == Get(start.files, name))
  {
    if !record.edited {
      forall name
        ensures name in plan.changed ==> Get(end.files, name) == After(plan, name) && EqualFile(Get(start.files, name), Before(plan, name))
        ensures name !in plan.changed ==> Get(end.files, name) == Get(start.files, name) && EqualFile(Get(start.files, name), After(plan, name))
      {
        assert FileInPlace(plan, start, unmoved, record.touched, record.replaced, name);
      }
      forall name ensures EqualFile(Get(end.files, name), Get(plan.result, name)) {
        assert name in plan.changed || EqualFile(Get(start.files, name), After(plan, name));
      }
      SameTreeIsPointwise(end.files, plan.result);
    }
  }

  /** What the result has of read and write bits is what the comparison showed. */
  predicate KeepsReadWrite(plan: Plan) {
    forall name | name in plan.changed && name in plan.preview.before && name in plan.result ::
      plan.result[name].mode & OTHER_BITS == plan.preview.before[name].mode & OTHER_BITS
  }

  /** Resolving the choices sees to that. */
  lemma ResolvedKeepsReadWrite(plan: Plan, choices: map<string, Choice>)
    requires forall name | name in plan.changed :: KeepsPermissions(plan.preview, choices, name, After(plan, name))
    ensures KeepsReadWrite(plan)
  {
    forall name | name in plan.changed && name in plan.preview.before && name in plan.result
      ensures plan.result[name].mode & OTHER_BITS == plan.preview.before[name].mode & OTHER_BITS
    {
      assert KeepsPermissions(plan.preview, choices, name, After(plan, name));
    }
  }

  /**
   An applied file has the read and write bits it was compared with. So it keeps its own if and
   only if they were not changed between the comparison and the apply.
   */
  lemma AppliedKeepsBitsExactlyWhen(plan: Plan, start: Repo, end: Repo, record: Record)
    requires Ended(plan, start, end, record, Applied) && !record.edited && KeepsReadWrite(plan)
    ensures forall name | name in plan.changed && name in start.files && name in end.files ::
              && name in plan.preview.before
              && (end.files[name].mode & OTHER_BITS == start.files[name].mode & OTHER_BITS
                  <==> plan.preview.before[name].mode & OTHER_BITS == start.files[name].mode & OTHER_BITS)
  {
    forall name | name in plan.changed && name in start.files && name in end.files
      ensures name in plan.preview.before && name in plan.result && end.files[name] == plan.result[name]
    {
      assert Get(end.files, name) == After(plan, name) && EqualFile(Get(start.files, name), Before(plan, name));
    }
    hide Ended;
  }

  lemma SameFiles(a: FileTree, b: FileTree)
    requires forall name :: Get(a, name) == Get(b, name)
    ensures a == b
  {
    forall name ensures name in a <==> name in b {
      assert Get(a, name) == Get(b, name);
    }
    forall name | name in a ensures a[name] == b[name] {
      assert Get(a, name) == Get(b, name);
    }
  }

  /**
   Whatever is not touched any more is as it was, or was replaced and is back in the state
   that was compared. So everything is exactly as it was if and only if each replaced file
   had been compared with its own permissions and not only with its executable bits.
   */
  lemma NothingIsLost(plan: Plan, start: Repo, end: Repo, record: Record)
    requires Sound(plan, start, end, record)
    ensures forall name | name in record.touched :: name in plan.changed && HasOriginal(plan, end.recovery, name)
    ensures record.indexTouched ==> end.recovery.Some? && end.recovery.value.index == Some(plan.preview.index)
    ensures !record.edited ==>
              forall name | name !in record.touched ::
                Get(end.files, name) == if name in record.replaced then Before(plan, name) else Get(start.files, name)
    ensures !record.edited && record.touched == {} && !record.indexTouched ==>
              && SameTree(end.files, start.files)
              && (end.files == start.files <==> forall name | name in record.replaced :: Get(start.files, name) == Before(plan, name))
              && end.index == start.index && end.branch == start.branch && end.refs == start.refs
  {
    if !record.edited {
      forall name | name !in record.touched
        ensures EqualFile(Get(end.files, name), Get(start.files, name))
        ensures Get(end.files, name) == if name in record.replaced then Before(plan, name) else Get(start.files, name)
      {
        assert FileInPlace(plan, start, end, record.touched, record.replaced, name);
      }
      if record.touched == {} {
        SameTreeIsPointwise(end.files, start.files);
        ExactlyRestored(plan, start, end, record.replaced);
      }
    }
  }

  lemma ExactlyRestored(plan: Plan, start: Repo, end: Repo, replaced: set<string>)
    requires forall name :: Get(end.files, name) == if name in replaced then Before(plan, name) else Get(start.files, name)
    ensures end.files == start.files <==> forall name | name in replaced :: Get(start.files, name) == Before(plan, name)
  {
    if forall name | name in replaced :: Get(start.files, name) == Before(plan, name) {
      SameFiles(end.files, start.files);
    }
  }
}
