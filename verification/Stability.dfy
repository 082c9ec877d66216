/**
 The collector of container states: one Docker reading a minute, written in one transaction.

 A container that was not read, because Docker could not be asked or the container was gone,
 breaks its run of samples, so that no interval spans it. A round that is called off changes
 nothing at all.
 */
module Stability {
  import opened Results
  import opened Availability
  import opened Timeline
  import opened Readers
  import opened ObservationTable
  import opened Recording

  const STABILITY_SCAN_INTERVAL_MS := 60_000
  const STABILITY_STALE_MS := 90_000

  datatype Container = Container(id: string, project: string, status: int)

  datatype Snapshot = Snapshot(observedAt: int, containers: seq<Container>)

  datatype Round = Written | Cancelled | Unavailable

  /** What one round made of the reading: the intervals after it, or why nothing was written. */
  datatype WriteResult = Stored(next: map<string, Last>) | CalledOff | WriteFailed

  /** Why an overview says nothing of the present: Docker could not be asked, or was not yet. */
  datatype Problem = DockerUnavailable | NoObservation

  datatype Overview = Overview(observedAt: Option<int>, stale: bool, problem: Option<Problem>, availability: map<string, Availability>)

  /** What an old reading still says: everything but the state of this moment. */
  function WithoutPresent(answer: Availability): Availability {
    answer.(currentStatus := UNKNOWN, currentForMs := None)
  }

  /** The panel does not record its own containers. */
  function Observed(runtime: seq<Container>, ownProject: string): seq<Container> {
    if ownProject == "" || |runtime| == 0 then runtime
    else (if runtime[0].project != ownProject then [runtime[0]] else []) + Observed(runtime[1..], ownProject)
  }

  /** A container is recorded as often as it was read, unless its project is the panel's own. */
  lemma {:induction false} ObservedAreAllButOwn(runtime: seq<Container>, ownProject: string)
    ensures forall c :: multiset(Observed(runtime, ownProject))[c] == if ownProject == "" || c.project != ownProject then multiset(runtime)[c] else 0
  {
    if ownProject != "" && |runtime| > 0 {
      assert runtime == [runtime[0]] + runtime[1..];
      ObservedAreAllButOwn(runtime[1..], ownProject);
    }
  }

  /** They are recorded in the order they were read: these are their places in the reading. */
  lemma {:induction false} ObservedInOrder(runtime: seq<Container>, ownProject: string) returns (places: seq<nat>)
    ensures |places| == |Observed(runtime, ownProject)|
    ensures forall i | 0 <= i < |places| :: places[i] < |runtime| && Observed(runtime, ownProject)[i] == runtime[places[i]]
    ensures forall i, j | 0 <= i < j < |places| :: places[i] < places[j]
  {
    if ownProject == "" || |runtime| == 0 {
      places := seq(|runtime|, i => i);
    } else {
      var rest := ObservedInOrder(runtime[1..], ownProject);
      places := (if runtime[0].project != ownProject then [0] else []) + seq(|rest|, i requires 0 <= i < |rest| => rest[i] + 1);
    }
  }

  function SamplesOf(containers: seq<Container>): (samples: seq<Scanned<string>>)
    ensures |samples| == |containers|
  {
    seq(|containers|, i requires 0 <= i < |containers| => Scanned(containers[i].id, containers[i].status))
  }

  function Ids(containers: seq<Container>): set<string> {
    set i | 0 <= i < |containers| :: containers[i].id
  }

  class StabilityCollector {
    var table: Table<string>
    var previous: map<string, Last>
    var snapshot: Option<Snapshot>
    var lastAttemptAt: Option<int>
    var liveObservation: bool
    var failed: bool
    var inFlight: bool
    ghost var past: Past<string>

    /** In step with the samples, none of which is newer than the last attempt. */
    ghost predicate Tracks() reads this {
      && InStep(table, previous, past, STABILITY_STALE_MS)
      && (lastAttemptAt.Some? ==> past.clock == lastAttemptAt.value)
    }

    /** The samples of the round under way will be newer than all before. */
    ghost predicate Underway(now: int) reads this {
      && Tracks() && lastAttemptAt == Some(now)
      && forall id :: AllBefore(past.EventsOf(id), now)
    }

    /** A process starts on the records another one left, and remembers nothing of them. */
    constructor (table: Table<string>, snapshot: Option<Snapshot>, ghost past: Past<string>)
      requires InStep(table, map[], past, STABILITY_STALE_MS)
      ensures Tracks() && this.table == table && this.snapshot == snapshot && this.past == past
      ensures previous == map[] && lastAttemptAt.None? && !inFlight && !liveObservation && !failed
    {
      this.table, this.snapshot, this.past := table, snapshot, past;
      previous, lastAttemptAt := map[], None;
      liveObservation, failed, inFlight := false, false, false;
    }

    /** At most one sample a minute, failed attempts included, and never two at a time. */
    method Begin(now: int) returns (started: bool)
      modifies this`lastAttemptAt, this`inFlight, this`past
      ensures started <==> !old(inFlight) && (old(lastAttemptAt).Some? ==> now - old(lastAttemptAt).value >= STABILITY_SCAN_INTERVAL_MS)
      ensures started ==> inFlight && lastAttemptAt == Some(now) && past == old(past).(clock := now)
      ensures !started ==> inFlight == old(inFlight) && lastAttemptAt == old(lastAttemptAt) && past == old(past)
      ensures old(Tracks()) && !started ==> Tracks()
      ensures old(Tracks()) && started && (old(lastAttemptAt).None? ==> old(past).clock < now) ==> Underway(now)
    {
      if inFlight || (lastAttemptAt.Some? && now - lastAttemptAt.value < STABILITY_SCAN_INTERVAL_MS) {
        return false;
      }
      if InStep(table, previous, past, STABILITY_STALE_MS) && past.clock < now {
        LaterClock(table, previous, past, now, STABILITY_STALE_MS);
        AllEarlierThan(table, previous, past, now, STABILITY_STALE_MS);
      }
      hide InStep, AllBefore;
      ghost var found := past;
      past := past.(clock := now);
      assert forall id :: past.EventsOf(id) == found.EventsOf(id);
      lastAttemptAt, inFlight := Some(now), true;
      return true;
    }

    /** Sample the containers into the transaction's copy of the table, one after another. */
    method RecordContainers(containers: seq<Container>, now: int) returns (trx: Table<string>, next: map<string, Last>, failure: Option<WriteResult>)
      ensures failure in {None, Some(CalledOff), Some(WriteFailed)}
      ensures failure.None? ==> next.Keys == Ids(containers)
      ensures failure.None? && Underway(now) && Distinct(SamplesOf(containers)) ==>
                InStep(trx, previous + next, Scan(past, SamplesOf(containers), now), STABILITY_STALE_MS)
    {
      hide InStep, AllBefore, Scan, SamplesOf, Ids, Distinct, Recorded;
      trx, next := table, map[];
      ghost var samples, scanned := SamplesOf(containers), past.(clock := now);
      ghost var tracked := Underway(now) && Distinct(samples);
      RoundStarts(previous, past, containers, now);
      assert tracked ==> past.(clock := now) == past;
      assert tracked ==> InStep(trx, previous + next, scanned, STABILITY_STALE_MS);
      assert tracked ==> forall id :: AllBefore(past.EventsOf(id), now);
      hide *;
      var index := 0;
      while index < |containers|
        invariant 0 <= index <= |containers|
        invariant next.Keys == Ids(containers[..index])
        invariant scanned == Scan(past, samples[..index], now)
        invariant tracked ==> InStep(trx, previous + next, scanned, STABILITY_STALE_MS)
      {
        var calledOff, broken := *, *;
        if calledOff {
          return trx, next, Some(CalledOff);
        }
        if broken {
          return trx, next, Some(WriteFailed);
        }
        if tracked {
          ContainerKeepsStep(trx, previous, next, past, containers, index, now);
        }
        SamplesOfOneMore(past, containers, index, now);
        IdsOfOneMore(containers, index);
        scanned := scanned.With(containers[index].id, Sample(now, containers[index].status), now);
        var container, last, inserted := containers[index], Last(0, 0, 0), false;
        trx, last, inserted := RecordSample(trx, LastOf(previous, container.id), container.id, container.status, now, STABILITY_STALE_MS);
        next := next[container.id := last];
        index := index + 1;
      }
      assert containers[..index] == containers && samples[..index] == samples;
      failure := None;
    }

    /**
     One sample of every container in one transaction. Giving up and failing throw, which
     rolls the transaction back; the collector then still holds what it held before.
     */
    method WriteObservations(containers: seq<Container>, now: int) returns (result: WriteResult)
      modifies this`table, this`snapshot, this`past
      ensures !result.Stored? ==> table == old(table) && snapshot == old(snapshot) && past == old(past)
      ensures result.Stored? ==>
                && snapshot == Some(Snapshot(now, containers))
                && result.next.Keys == Ids(containers)
                && past == After(old(past), containers, now)
                && (old(Underway(now)) && Distinct(SamplesOf(containers)) ==> InStep(table, result.next, past, STABILITY_STALE_MS))
    {
      var trx, next, failure := RecordContainers(containers, now);
      if failure.Some? {
        return failure.value;
      }
      var broken := *;
      if broken {
        return WriteFailed;
      }
      if Underway(now) && Distinct(SamplesOf(containers)) {
        RoundKeepsStep(trx, previous, next, past, containers, now);
      }
      hide *;
      snapshot := Some(Snapshot(now, containers));
      table := PrunedBefore(trx, now - RETENTION_MS);
      past := After(past, containers, now);
      result := Stored(next);
    }

    /** Take a finished Docker reading, or the news that it failed, into the records. */
    method Finish(runtime: Option<seq<Container>>, ownProject: string, now: int) returns (round: Round)
      requires lastAttemptAt == Some(now)
      modifies this
      ensures !inFlight && lastAttemptAt == old(lastAttemptAt)
      ensures match round
              case Written =>
                && runtime.Some? && !failed && liveObservation
                && snapshot == Some(Snapshot(now, Observed(runtime.value, ownProject)))
                && past == After(old(past), Observed(runtime.value, ownProject), now)
              case Unavailable =>
                && failed && previous == map[] && table == old(table) && snapshot == old(snapshot)
                && past == old(past).BreakExcept({})
              case Cancelled =>
                && failed == old(failed) && previous == old(previous) && table == old(table)
                && snapshot == old(snapshot) && past == old(past)
      ensures runtime.None? ==> round.Unavailable?
      ensures round.Written? ==>
                var containers := Observed(runtime.value, ownProject);
                (forall i, j | 0 <= i < j < |containers| :: containers[i].id != containers[j].id) ==>
                  && (forall i | 0 <= i < |containers| ::
                        past.EventsOf(containers[i].id) == old(past).EventsOf(containers[i].id) + [Sample(now, containers[i].status)])
                  && (forall id | id in old(past).events && (forall i | 0 <= i < |containers| :: containers[i].id != id) ::
                        past.EventsOf(id) == old(past).EventsOf(id) + [Break])
                  && past.prunedBefore == now - RETENTION_MS
      ensures old(Underway(now)) && (runtime.Some? ==> Distinct(SamplesOf(Observed(runtime.value, ownProject)))) ==> Tracks()
    {
      hide Scan, SamplesOf, Ids, InStep, Observed, AllBefore, Distinct;
      inFlight := false;
      if runtime.None? {
        round := Fail(now);
        return;
      }
      var aborted := *;
      if aborted {
        return Cancelled;
      }
      var result := WriteObservations(Observed(runtime.value, ownProject), now);
      match result
      case Stored(next) =>
        ScanKeepsTheRest(old(past), SamplesOf(Observed(runtime.value, ownProject)), now);
        RoundAdds(old(past), Observed(runtime.value, ownProject), now);
        previous, liveObservation, failed := next, true, false;
        round := Written;
      case CalledOff =>
        round := Cancelled;
      case WriteFailed =>
        round := Fail(now);
    }

    /** Nothing was learned of any container: every run of samples ends here. */
    method Fail(now: int) returns (round: Round)
      modifies this`failed, this`previous, this`past
      ensures round == Unavailable && failed && previous == map[] && past == old(past).BreakExcept({})
      ensures old(Underway(now)) ==> Tracks()
    {
      if Underway(now) {
        BreakingKeepsStep(table, previous, past, map[], STABILITY_STALE_MS);
      }
      failed, previous, past := true, map[], past.BreakExcept({});
      round := Unavailable;
    }

    /**
     The saved observations over a window of whole hours: for every container of the last
     reading what its raw samples say. The overview is stale unless a reading of this process
     is recent, and a stale one says nothing of the present.
     */
    method Read(windowHours: nat, now: int) returns (result: Overview)
      ensures result.observedAt == if snapshot.Some? then Some(snapshot.value.observedAt) else None
      ensures !result.stale <==> liveObservation && !failed && snapshot.Some? && now - snapshot.value.observedAt <= STABILITY_STALE_MS
      ensures result.availability.Keys == if snapshot.Some? then Ids(snapshot.value.containers) else {}
      ensures result.problem == if failed then Some(DockerUnavailable)
                                else if !liveObservation || snapshot.None? then Some(NoObservation) else None
      ensures forall id | id in result.availability ::
                var stored := AvailabilityOf(ConfirmedFrom(History(table, id), now - windowHours * 3_600_000), windowHours * 3_600_000, now);
                result.availability[id] == if result.stale then WithoutPresent(stored) else stored
      ensures Tracks() && past.clock <= now && 1 <= windowHours <= 24 * 31 ==>
                forall id | id in result.availability ::
                  var raw := RawAnswer(past.EventsOf(id), STABILITY_STALE_MS, windowHours * 3_600_000, now);
                  if result.stale then
                    result.availability[id] == raw.(currentStatus := UNKNOWN, currentForMs := None)
                  else
                    result.availability[id] == raw
    {
      hide AvailabilityOf, ConfirmedFrom, RawAnswer, InStep, HistoryOf;
      var stale := !liveObservation || failed || snapshot.None? || now - snapshot.value.observedAt > STABILITY_STALE_MS;
      var problem := if failed then Some(DockerUnavailable) else if !liveObservation || snapshot.None? then Some(NoObservation) else None;
      result := Overview(if snapshot.Some? then Some(snapshot.value.observedAt) else None, stale, problem, map[]);
      if snapshot.None? {
        return;
      }
      var containers, windowMs := snapshot.value.containers, windowHours * 3_600_000;
      var availability: map<string, Availability> := map[];
      var index := 0;
      while index < |containers|
        invariant 0 <= index <= |containers|
        invariant availability.Keys == Ids(containers[..index])
        invariant forall id | id in availability ::
                    var stored := AvailabilityOf(ConfirmedFrom(History(table, id), now - windowMs), windowMs, now);
                    availability[id] == if stale then WithoutPresent(stored) else stored
      {
        var id := containers[index].id;
        IdsOfOneMore(containers, index);
        var own := ComputeAvailability(ConfirmedFrom(History(table, id), now - windowMs), windowMs, now);
        availability := availability[id := if stale then WithoutPresent(own) else own];
        index := index + 1;
      }
      assert containers[..index] == containers;
      result := result.(availability := availability);
      if Tracks() && past.clock <= now && 1 <= windowHours <= 24 * 31 {
        forall id | id in result.availability
          ensures var raw := RawAnswer(past.EventsOf(id), STABILITY_STALE_MS, windowMs, now);
                  result.availability[id] == if stale then WithoutPresent(raw) else raw
        {
          RowsAnswerAsSamples(table, previous, past, id, windowMs, now, STABILITY_STALE_MS);
        }
      }
    }
  }

  /** A written round: each observed container has one more sample, every other one a break. */
  function After(past: Past<string>, containers: seq<Container>, now: int): Past<string> {
    Scan(past, SamplesOf(containers), now).BreakExcept(Ids(containers)).(prunedBefore := now - RETENTION_MS)
  }

  /** One sample for each container, a break for everything else that was ever sampled. */
  lemma RoundAdds(past: Past<string>, containers: seq<Container>, now: int)
    ensures After(past, containers, now).prunedBefore == now - RETENTION_MS
    ensures (forall i, j | 0 <= i < j < |containers| :: containers[i].id != containers[j].id) ==>
              var after := After(past, containers, now);
              && (forall i | 0 <= i < |containers| ::
                    after.EventsOf(containers[i].id) == past.EventsOf(containers[i].id) + [Sample(now, containers[i].status)])
              && (forall id | id in past.events && (forall i | 0 <= i < |containers| :: containers[i].id != id) ::
                    after.EventsOf(id) == past.EventsOf(id) + [Break])
  {
    var samples := SamplesOf(containers);
    var scanned := Scan(past, samples, now);
    assert forall i | 0 <= i < |containers| :: samples[i] == Scanned(containers[i].id, containers[i].status);
    hide Scan, SamplesOf;
    if forall i, j | 0 <= i < j < |containers| :: containers[i].id != containers[j].id {
      ScanAddsOneEach(past, samples, now);
      forall i | 0 <= i < |containers|
        ensures After(past, containers, now).EventsOf(containers[i].id) == past.EventsOf(containers[i].id) + [Sample(now, containers[i].status)]
      {
        assert containers[i].id in Ids(containers);
        assert scanned.EventsOf(samples[i].key) == past.EventsOf(samples[i].key) + [Sample(now, samples[i].status)];
      }
      forall id | id in past.events && (forall i | 0 <= i < |containers| :: containers[i].id != id)
        ensures After(past, containers, now).EventsOf(id) == past.EventsOf(id) + [Break]
      {
        assert id !in Ids(containers) && scanned.EventsOf(id) == past.EventsOf(id);
      }
    }
  }

  /** Containers that were not read are forgotten, and old rows pruned. */
  lemma RoundKeepsStep(trx: Table<string>, previous: map<string, Last>, next: map<string, Last>,
                       past: Past<string>, containers: seq<Container>, now: int)
    requires InStep(trx, previous + next, Scan(past, SamplesOf(containers), now), STABILITY_STALE_MS) && next.Keys == Ids(containers)
    ensures InStep(PrunedBefore(trx, now - RETENTION_MS), next, After(past, containers, now), STABILITY_STALE_MS)
  {
    hide InStep, Scan, SamplesOf, Ids, PrunedBefore;
    var scanned := Scan(past, SamplesOf(containers), now);
    ScanKeepsTheRest(past, SamplesOf(containers), now);
    BreakingKeepsStep(trx, previous + next, scanned, next, STABILITY_STALE_MS);
    PruningKeepsStep(trx, next, scanned.BreakExcept(next.Keys), STABILITY_STALE_MS);
  }

  lemma RoundStarts(previous: map<string, Last>, past: Past<string>, containers: seq<Container>, now: int)
    ensures Scan(past, SamplesOf(containers)[..0], now) == past.(clock := now)
    ensures previous + map[] == previous && Ids(containers[..0]) == {}
  {
  }

  lemma IdsOfOneMore(containers: seq<Container>, index: nat)
    requires index < |containers|
    ensures Ids(containers[..index + 1]) == Ids(containers[..index]) + {containers[index].id}
  {
    assert containers[..index + 1][index] == containers[index];
    forall i | 0 <= i < index ensures containers[..index + 1][i] == containers[..index][i] {
    }
  }

  lemma SamplesOfOneMore(past: Past<string>, containers: seq<Container>, index: nat, now: int)
    requires index < |containers|
    ensures Scan(past, SamplesOf(containers)[..index + 1], now)
            == Scan(past, SamplesOf(containers)[..index], now).With(containers[index].id, Sample(now, containers[index].status), now)
  {
    ScanOneMore(past, SamplesOf(containers), index, now);
  }

  lemma NotYetRead(containers: seq<Container>, index: nat)
    requires index < |containers| && Distinct(SamplesOf(containers))
    ensures containers[index].id !in Ids(containers[..index])
  {
    var samples := SamplesOf(containers);
    forall i | 0 <= i < index ensures containers[..index][i].id != containers[index].id {
      assert samples[i].key != samples[index].key;
    }
  }

  lemma OverlayOneMore(previous: map<string, Last>, next: map<string, Last>, id: string, last: Last)
    ensures (previous + next)[id := last] == previous + next[id := last]
  {
  }

  /** The reading of one more container goes on from what was remembered before the round. */
  lemma ContainerKeepsStep(trx: Table<string>, previous: map<string, Last>, next: map<string, Last>,
                           past: Past<string>, containers: seq<Container>, index: nat, now: int)
    requires index < |containers| && Distinct(SamplesOf(containers))
    requires InStep(trx, previous + next, Scan(past, SamplesOf(containers)[..index], now), STABILITY_STALE_MS)
    requires next.Keys == Ids(containers[..index]) && AllBefore(past.EventsOf(containers[index].id), now)
    ensures var container := containers[index];
            var (recorded, last) := Recorded(trx, LastOf(previous, container.id), container.id, container.status, now, STABILITY_STALE_MS);
            InStep(recorded, previous + next[container.id := last],
                   Scan(past, SamplesOf(containers)[..index], now).With(container.id, Sample(now, container.status), now), STABILITY_STALE_MS)
  {
    var container, samples := containers[index], SamplesOf(containers);
    assert samples[index] == Scanned(container.id, container.status);
    NotYetRead(containers, index);
    assert LastOf(previous + next, container.id) == LastOf(previous, container.id);
    hide *;
    ScanOneMore(past, samples, index, now);
    var scanned := Scan(past, samples[..index], now);
    SampleKeepsStep(trx, previous + next, scanned, container.id, container.status, now, STABILITY_STALE_MS);
    OverlayOneMore(previous, next, container.id,
                   Recorded(trx, LastOf(previous, container.id), container.id, container.status, now, STABILITY_STALE_MS).1);
  }
}
