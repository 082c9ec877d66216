/**
 Stopping everything a process started: once, newest first, within a bounded time.

 A shutdown waits for each resource in turn, and while it waits others may register, leave or
 ask for a shutdown again. How long a resource takes and how it ends is open; time is counted
 in whole milliseconds.
 */
module ResourceOwner {
  import opened Results

  const MIN_RESOURCE_BUDGET_MS := 500

  datatype Resource = Resource(id: nat, name: string)

  datatype Outcome = Stopped | Errored | TimedOut

  datatype Report = Report(stopped: seq<string>, failed: seq<string>, timedOut: seq<string>, durationMs: int)

  /** A shutdown under way: the list it goes through, how far it is and what it has seen */
  datatype Shutdown = Shutdown(pending: seq<Resource>, index: nat, timeoutMs: int, soFar: Report)

  /** One call of a stop handler: what it was given, how long it took and how it ended. */
  datatype Call = Call(resource: Resource, share: int, took: nat, outcome: Outcome)

  function Max(a: int, b: int): int {
    if a >= b then a else b
  }

  function Min(a: int, b: int): int {
    if a <= b then a else b
  }

  /** What one resource may take of the time that is left, with so many still to go. */
  function Share(left: int, toGo: nat): int
    requires toGo > 0
  {
    Max(0, Min(left, Max(MIN_RESOURCE_BUDGET_MS, left / toGo)))
  }

  function Reversed(resources: seq<Resource>): (r: seq<Resource>)
    ensures |r| == |resources|
  {
    if |resources| == 0 then [] else Reversed(resources[1..]) + [resources[0]]
  }

  lemma {:induction false} ReversedAt(resources: seq<Resource>, k: nat)
    requires k < |resources|
    ensures Reversed(resources)[k] == resources[|resources| - 1 - k]
  {
    if |resources| > 1 {
      ReversedAt(resources[1..], if k < |resources| - 1 then k else 0);
    }
  }

  function NamesOf(calls: seq<Call>, outcomes: set<Outcome>): seq<string> {
    if |calls| == 0 then []
    else NamesOf(calls[..|calls| - 1], outcomes)
         + if calls[|calls| - 1].outcome in outcomes then [calls[|calls| - 1].resource.name] else []
  }

  function Total(calls: seq<Call>): nat {
    if |calls| == 0 then 0 else Total(calls[..|calls| - 1]) + calls[|calls| - 1].took
  }

  predicate WithinShares(calls: seq<Call>) {
    forall i | 0 <= i < |calls| :: calls[i].took <= calls[i].share
  }

  /** A share never exceeds what is left. */
  lemma ShareFits(left: int, toGo: nat)
    requires toGo > 0
    ensures 0 <= Share(left, toGo) <= Max(0, left)
    ensures left >= MIN_RESOURCE_BUDGET_MS ==> Share(left, toGo) >= MIN_RESOURCE_BUDGET_MS
  {
  }

  /** Nothing is given of no time, all of too little, the even share of enough, and the minimum in between. */
  lemma ShareExactly(left: int, toGo: nat)
    requires toGo > 0
    ensures left <= 0 ==> Share(left, toGo) == 0
    ensures 0 < left <= 500 ==> Share(left, toGo) == left
    ensures 500 <= left < 500 * toGo ==> Share(left, toGo) == 500
    ensures left >= 500 * toGo ==> Share(left, toGo) * toGo <= left < (Share(left, toGo) + 1) * toGo
  {
    var each := left / toGo;
    DivisionBounds(left, toGo);
    if left <= 0 {
      if each > 0 {
        Scaled(1, each, toGo);
      }
    } else {
      if each < 0 {
        Scaled(each + 1, 0, toGo);
      }
      if each >= 500 {
        Scaled(500, each, toGo);
      } else {
        Scaled(each + 1, 500, toGo);
      }
      if each > left {
        Scaled(left + 1, each, toGo);
        Scaled(1, toGo, left + 1);
      }
    }
  }

  /** With room for the minimum of all, each gets at least that and leaves as much for the others. */
  lemma SharesLeaveRoom(left: int, toGo: nat, took: nat)
    requires toGo > 0 && left >= MIN_RESOURCE_BUDGET_MS * toGo && took <= Share(left, toGo)
    ensures Share(left, toGo) >= MIN_RESOURCE_BUDGET_MS
    ensures left - took >= MIN_RESOURCE_BUDGET_MS * (toGo - 1)
  {
    var each := left / toGo;
    DivisionBounds(left, toGo);
    if each < MIN_RESOURCE_BUDGET_MS {
      Scaled(each + 1, MIN_RESOURCE_BUDGET_MS, toGo);
      assert false;
    }
    Scaled(MIN_RESOURCE_BUDGET_MS, each, toGo - 1);
    Scaled(0, each, toGo - 1);
    assert each * toGo == each * (toGo - 1) + each;
    assert Share(left, toGo) == each;
  }

  lemma DivisionBounds(left: int, toGo: nat)
    requires toGo > 0
    ensures (left / toGo) * toGo <= left < (left / toGo + 1) * toGo
  {
  }

  lemma Scaled(a: int, b: int, factor: nat)
    requires a <= b
    ensures a * factor <= b * factor
  {
  }

  class ResourceOwner {
    var resources: seq<Resource>
    var stopping: bool
    var shutdown: Option<Shutdown>
    var report: Option<Report>
    var nextId: nat
    /** Every stop handler that was called, in order. */
    ghost var calls: seq<Call>
    /** What was registered when the shutdown began. */
    ghost var registered: seq<Resource>

    /** No handler runs without a shutdown, and it has called those of the list up to where it is. */
    ghost predicate Valid()
      reads this
    {
      match shutdown
      case None => !stopping && report.None? && calls == []
      case Some(run) =>
        && stopping && run.pending == Reversed(registered) && run.index == |calls|
        && StoppedSoFar(run.pending, calls, run.timeoutMs, run.soFar)
        && (report.Some? ==> run.index == |run.pending| && report.value == run.soFar)
    }

    constructor ()
      ensures Valid() && resources == [] && shutdown.None?
    {
      resources, stopping, shutdown, report, nextId := [], false, None, None, 0;
      calls, registered := [], [];
    }

    /** A new entry is the newest, so it will be the first to be stopped. */
    method Add(name: string) returns (entry: Resource)
      modifies this`resources, this`nextId
      ensures entry == Resource(old(nextId), name) && resources == old(resources) + [entry] && nextId == old(nextId) + 1
    {
      entry := Resource(nextId, name);
      resources, nextId := resources + [entry], nextId + 1;
    }

    /** One entry leaves the list before any shutdown reaches it. */
    method Remove(entry: Resource)
      modifies this`resources
      ensures entry !in old(resources) ==> resources == old(resources)
      ensures entry in old(resources) ==>
                exists i :: 0 <= i < |old(resources)| && old(resources)[i] == entry && resources == old(resources)[..i] + old(resources)[i + 1..]
    {
      var index := 0;
      while index < |resources| && resources[index] != entry
        invariant 0 <= index <= |resources| && entry !in resources[..index]
      {
        index := index + 1;
      }
      if index < |resources| {
        resources := resources[..index] + resources[index + 1..];
      }
    }

    /** Begin the one shutdown; a call that comes while it runs or later joins it and changes nothing. */
    method Stop(timeoutMs: int) returns (begun: bool)
      requires Valid()
      modifies this
      ensures Valid() && calls == old(calls) && report == old(report)
      ensures begun == old(shutdown).None?
      ensures if begun
              then registered == old(resources) && resources == [] && shutdown == Some(Shutdown(Reversed(old(resources)), 0, timeoutMs, Report([], [], [], 0)))
              else registered == old(registered) && resources == old(resources) && shutdown == old(shutdown)
    {
      if shutdown.Some? {
        return false;
      }
      NothingStopped(Reversed(resources), timeoutMs);
      hide StoppedSoFar;
      stopping, shutdown := true, Some(Shutdown(Reversed(resources), 0, timeoutMs, Report([], [], [], 0)));
      registered, resources := resources, [];
      return true;
    }

    /** Stop the next one of the list, and no other. */
    method StopNext()
      requires Valid() && shutdown.Some? && shutdown.value.index < |shutdown.value.pending|
      modifies this`shutdown, this`calls
      ensures Valid() && shutdown.Some? && shutdown.value.pending == old(shutdown).value.pending && shutdown.value.timeoutMs == old(shutdown).value.timeoutMs
      ensures shutdown.value.index == old(shutdown).value.index + 1
      ensures |calls| == |old(calls)| + 1 && calls[..|old(calls)|] == old(calls)
      ensures var call, run := calls[|old(calls)|], old(shutdown).value;
              && call.resource == run.pending[run.index] && call.share == Share(run.timeoutMs - run.soFar.durationMs, |run.pending| - run.index)
              && shutdown.value.soFar.stopped == run.soFar.stopped + (if call.outcome.Stopped? then [call.resource.name] else [])
              && shutdown.value.soFar.failed == run.soFar.failed + (if call.outcome.Stopped? then [] else [call.resource.name])
              && shutdown.value.soFar.timedOut == run.soFar.timedOut + (if call.outcome.TimedOut? then [call.resource.name] else [])
              && shutdown.value.soFar.durationMs == run.soFar.durationMs + call.took
    {
      hide StoppedSoFar, Share;
      var run := shutdown.value;
      var entry, left := run.pending[run.index], run.timeoutMs - run.soFar.durationMs;
      var share := Share(left, |run.pending| - run.index);
      var outcome, took := StopOne(entry, share);
      OneMoreStopped(run.pending, calls, run.timeoutMs, run.soFar, took, outcome);
      var next := run.soFar.(durationMs := run.soFar.durationMs + took);
      if outcome.TimedOut? {
        next := next.(timedOut := next.timedOut + [entry.name], failed := next.failed + [entry.name]);
      } else if outcome.Errored? {
        next := next.(failed := next.failed + [entry.name]);
      } else {
        next := next.(stopped := next.stopped + [entry.name]);
      }
      assert run.soFar.stopped + [] == run.soFar.stopped && run.soFar.failed + [] == run.soFar.failed && run.soFar.timedOut + [] == run.soFar.timedOut;
      assert run.index == |calls|;
      shutdown := Some(run.(index := run.index + 1, soFar := next));
      calls := calls + [Call(entry, share, took, outcome)];
    }

    /** Others register and unregister while the shutdown waits; it no longer looks at their list. */
    method Meanwhile()
      modifies this`resources, this`nextId
    {
      var others: seq<Resource>, ids: nat := *, *;
      resources, nextId := others, ids;
    }

    /** Go through the list to its end, newest first. Resources added meanwhile stay registered. */
    method StopAll() returns (result: Report)
      requires Valid() && shutdown.Some? && report.None?
      modifies this`shutdown, this`calls, this`resources, this`nextId, this`report
      ensures Valid() && report == Some(result)
      ensures AllStopped(registered, calls, old(shutdown).value.timeoutMs, result)
    {
      while shutdown.value.index < |shutdown.value.pending|
        invariant Valid() && shutdown.Some? && report.None?
        invariant shutdown.value.pending == old(shutdown).value.pending && shutdown.value.timeoutMs == old(shutdown).value.timeoutMs
        decreases |shutdown.value.pending| - shutdown.value.index
      {
        Meanwhile();
        StopNext();
      }
      result := shutdown.value.soFar;
      AllStoppedInTheEnd(registered, shutdown.value.pending, calls, shutdown.value.timeoutMs, result);
      report := Some(result);
    }

    /** Stop one resource; it may end well, fail, or not end within its share. */
    method StopOne(entry: Resource, budgetMs: int) returns (outcome: Outcome, took: nat)
    {
      outcome, took := *, *;
    }
  }

  /**
   Each registered resource is stopped exactly once, the newest first, whatever the others do;
   the report names each of them. If each ends within its share the whole stays within the
   budget, and a budget of the minimum for all leaves nobody with less.
   */
  predicate AllStopped(resources: seq<Resource>, calls: seq<Call>, timeoutMs: int, report: Report) {
    && |calls| == |resources|
    && (forall i | 0 <= i < |calls| :: calls[i].resource == resources[|resources| - 1 - i])
    && report.stopped == NamesOf(calls, {Stopped}) && report.failed == NamesOf(calls, {Errored, TimedOut})
    && report.timedOut == NamesOf(calls, {TimedOut}) && report.durationMs == Total(calls)
    && (WithinShares(calls) ==> report.durationMs <= Max(0, timeoutMs))
    && (WithinShares(calls) && timeoutMs >= MIN_RESOURCE_BUDGET_MS * |resources| ==>
          forall i | 0 <= i < |calls| :: calls[i].share >= MIN_RESOURCE_BUDGET_MS)
  }

  /** The same for the first ones of the list, and what is left of the budget is enough for the others. */
  predicate StoppedSoFar(pending: seq<Resource>, made: seq<Call>, timeoutMs: int, report: Report) {
    && |made| <= |pending|
    && (forall i | 0 <= i < |made| :: made[i].resource == pending[i])
    && report.stopped == NamesOf(made, {Stopped}) && report.failed == NamesOf(made, {Errored, TimedOut})
    && report.timedOut == NamesOf(made, {TimedOut}) && report.durationMs == Total(made)
    && (WithinShares(made) ==> report.durationMs <= Max(0, timeoutMs))
    && (WithinShares(made) && timeoutMs >= MIN_RESOURCE_BUDGET_MS * |pending| ==>
          && timeoutMs - report.durationMs >= MIN_RESOURCE_BUDGET_MS * (|pending| - |made|)
          && forall i | 0 <= i < |made| :: made[i].share >= MIN_RESOURCE_BUDGET_MS)
  }

  lemma NothingStopped(pending: seq<Resource>, timeoutMs: int)
    ensures StoppedSoFar(pending, [], timeoutMs, Report([], [], [], 0))
  {
  }

  lemma OneMoreStopped(pending: seq<Resource>, made: seq<Call>, timeoutMs: int, report: Report, took: nat, outcome: Outcome)
    requires |made| < |pending| && StoppedSoFar(pending, made, timeoutMs, report)
    ensures var entry, toGo := pending[|made|], |pending| - |made|;
            var name := [entry.name];
            StoppedSoFar(pending, made + [Call(entry, Share(timeoutMs - report.durationMs, toGo), took, outcome)], timeoutMs,
                         Report(report.stopped + (if outcome.Stopped? then name else []),
                                report.failed + (if outcome.Stopped? then [] else name),
                                report.timedOut + (if outcome.TimedOut? then name else []), report.durationMs + took))
  {
    var left, toGo := timeoutMs - report.durationMs, |pending| - |made|;
    var call := Call(pending[|made|], Share(left, toGo), took, outcome);
    var all := made + [call];
    assert all[..|made|] == made;
    if WithinShares(all) {
      assert all[|made|] == call && forall i | 0 <= i < |made| :: all[i] == made[i];
    }
    ShareFits(left, toGo);
    if took <= call.share && left >= MIN_RESOURCE_BUDGET_MS * toGo {
      SharesLeaveRoom(left, toGo, took);
    }
    hide Share, WithinShares;
  }

  lemma AllStoppedInTheEnd(resources: seq<Resource>, pending: seq<Resource>, calls: seq<Call>, timeoutMs: int, report: Report)
    requires pending == Reversed(resources) && |calls| == |pending| && StoppedSoFar(pending, calls, timeoutMs, report)
    ensures AllStopped(resources, calls, timeoutMs, report)
  {
    forall k | 0 <= k < |resources| ensures pending[k] == resources[|resources| - 1 - k] {
      ReversedAt(resources, k);
    }
  }
}
