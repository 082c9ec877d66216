/**
 A recorder of many keys and the raw samples behind it.

 `Past` is what a recorder that kept every sample would know. A recorder is in step with it
 when, for every key, the rows left are the merged samples less what was pruned, and what it
 remembers of the key is its newest row. Samples, breaks and pruning keep it in step.
 */
module Recording {
  import opened Results
  import opened Availability
  import opened Timeline
  import opened Readers
  import opened ObservationTable

  /** Every sample and break of every key, how far rows were pruned and the latest scan. */
  datatype Past<!K(==)> = Past(events: map<K, seq<Event>>, prunedBefore: int, clock: int) {
    function EventsOf(key: K): seq<Event> {
      if key in events then events[key] else []
    }

    function With(key: K, event: Event, now: int): Past<K> {
      Past(events[key := EventsOf(key) + [event]], prunedBefore, now)
    }

    /** The recorder loses track of every key but some, as it does of all of them on a restart. */
    function BreakExcept(kept: set<K>): Past<K> {
      Past(map key | key in events :: if key in kept then events[key] else events[key] + [Break], prunedBefore, clock)
    }
  }

  function LastOf<K(==)>(remembered: map<K, Last>, key: K): Option<Last> {
    if key in remembered then Some(remembered[key]) else None
  }

  ghost predicate KeyInStep<K(!new)>(table: Table<K>, last: Option<Last>, past: Past<K>, key: K, maxGap: int) {
    && Follows(table, last, key, past.EventsOf(key), past.prunedBefore, maxGap)
    && AllBefore(past.EventsOf(key), past.clock + 1)
    && (last.None? ==> Forgotten(past.EventsOf(key), past.clock, maxGap))
  }

  ghost predicate InStep<K(!new)>(table: Table<K>, remembered: map<K, Last>, past: Past<K>, maxGap: int) {
    && 0 <= maxGap <= RETENTION_MS
    && Numbered(table)
    && past.prunedBefore <= past.clock - RETENTION_MS
    && forall key: K :: KeyInStep(table, LastOf(remembered, key), past, key, maxGap)
  }

  lemma LaterClock<K(!new)>(table: Table<K>, remembered: map<K, Last>, past: Past<K>, now: int, maxGap: int)
    requires InStep(table, remembered, past, maxGap) && past.clock <= now
    ensures InStep(table, remembered, past.(clock := now), maxGap)
  {
    hide Follows;
    forall key ensures KeyInStep(table, LastOf(remembered, key), past.(clock := now), key, maxGap) {
      assert KeyInStep(table, LastOf(remembered, key), past, key, maxGap);
      assert past.(clock := now).EventsOf(key) == past.EventsOf(key);
    }
  }

  lemma OwnSample<K(!new)>(table: Table<K>, last: Option<Last>, past: Past<K>, key: K, status: int, now: int, maxGap: int)
    requires 0 <= maxGap <= RETENTION_MS && past.prunedBefore <= now - RETENTION_MS
    requires Numbered(table) && KeyInStep(table, last, past, key, maxGap)
    requires past.clock <= now && AllBefore(past.EventsOf(key), now)
    ensures var (recorded, next) := Recorded(table, last, key, status, now, maxGap);
            Numbered(recorded) && KeyInStep(recorded, Some(next), past.With(key, Sample(now, status), now), key, maxGap)
  {
    hide Follows, Recorded, Numbered;
    RecordingFollows(table, last, key, past.EventsOf(key), past.prunedBefore, status, now, maxGap);
  }

  lemma OtherSample<K(!new)>(table: Table<K>, last: Option<Last>, past: Past<K>, key: K, status: int, now: int, other: K, otherLast: Option<Last>, maxGap: int)
    requires Numbered(table) && KeyInStep(table, otherLast, past, other, maxGap) && other != key && past.clock <= now
    requires last.Some? ==> Remembers(table, last.value, key, past.prunedBefore)
    ensures var (recorded, _) := Recorded(table, last, key, status, now, maxGap);
            KeyInStep(recorded, otherLast, past.With(key, Sample(now, status), now), other, maxGap)
  {
    hide Follows, Recorded, Numbered, Remembers;
    assert past.With(key, Sample(now, status), now).EventsOf(other) == past.EventsOf(other);
    RecordingLeavesOthers(table, last, key, status, now, maxGap, other, otherLast, past.EventsOf(other), past.prunedBefore);
  }

  /** A sample of one key keeps all of them in step. */
  lemma SampleKeepsStep<K(!new)>(table: Table<K>, remembered: map<K, Last>, past: Past<K>, key: K, status: int, now: int, maxGap: int)
    requires InStep(table, remembered, past, maxGap) && past.clock <= now && AllBefore(past.EventsOf(key), now)
    ensures var (recorded, next) := Recorded(table, LastOf(remembered, key), key, status, now, maxGap);
            InStep(recorded, remembered[key := next], past.With(key, Sample(now, status), now), maxGap)
  {
    var last, after := LastOf(remembered, key), past.With(key, Sample(now, status), now);
    var (recorded, next) := Recorded(table, last, key, status, now, maxGap);
    assert KeyInStep(table, last, past, key, maxGap);
    assert last.Some? ==> Remembers(table, last.value, key, past.prunedBefore);
    OwnSample(table, last, past, key, status, now, maxGap);
    var changed := remembered[key := next];
    forall other ensures KeyInStep(recorded, LastOf(changed, other), after, other, maxGap) {
      assert KeyInStep(table, LastOf(remembered, other), past, other, maxGap);
      hide KeyInStep, Recorded, Remembers;
      if other != key {
        OtherSample(table, last, past, key, status, now, other, LastOf(remembered, other), maxGap);
      }
    }
  }

  /** Dropping what is too old to be joined keeps everything in step. */
  lemma DroppingStaleKeepsStep<K(!new)>(table: Table<K>, remembered: map<K, Last>, past: Past<K>, kept: map<K, Last>, maxGap: int)
    requires InStep(table, remembered, past, maxGap)
    requires forall key | key in kept :: key in remembered && kept[key] == remembered[key]
    requires forall key | key in remembered && key !in kept :: past.clock - remembered[key].at > maxGap
    ensures InStep(table, kept, past, maxGap)
  {
    forall key ensures KeyInStep(table, LastOf(kept, key), past, key, maxGap) {
      assert KeyInStep(table, LastOf(remembered, key), past, key, maxGap);
    }
  }

  lemma ForgettingKeepsStep<K(!new)>(table: Table<K>, remembered: map<K, Last>, past: Past<K>, key: K, maxGap: int)
    requires InStep(table, remembered, past, maxGap)
    ensures InStep(table, remembered - {key}, past.With(key, Break, past.clock), maxGap)
  {
    var after := past.With(key, Break, past.clock);
    forall other ensures KeyInStep(table, LastOf(remembered - {key}, other), after, other, maxGap) {
      assert KeyInStep(table, LastOf(remembered, other), past, other, maxGap);
      if other == key {
        BreakingFollows(table, LastOf(remembered, key), key, past.EventsOf(key), past.prunedBefore, maxGap);
      } else {
        assert after.EventsOf(other) == past.EventsOf(other);
      }
    }
  }

  /** Losing track of keys that are not sampled any more leaves their rows alone. */
  lemma BreakingKeepsStep<K(!new)>(table: Table<K>, remembered: map<K, Last>, past: Past<K>, kept: map<K, Last>, maxGap: int)
    requires InStep(table, remembered, past, maxGap)
    requires forall key | key in kept :: key in remembered && kept[key] == remembered[key]
    ensures InStep(table, kept, past.BreakExcept(kept.Keys), maxGap)
  {
    var after := past.BreakExcept(kept.Keys);
    forall key ensures KeyInStep(table, LastOf(kept, key), after, key, maxGap) {
      assert KeyInStep(table, LastOf(remembered, key), past, key, maxGap);
      BreakingFollows(table, LastOf(remembered, key), key, past.EventsOf(key), past.prunedBefore, maxGap);
    }
  }

  lemma PruningKeepsStep<K(!new)>(table: Table<K>, remembered: map<K, Last>, past: Past<K>, maxGap: int)
    requires InStep(table, remembered, past, maxGap)
    ensures InStep(PrunedBefore(table, past.clock - RETENTION_MS), remembered, past.(prunedBefore := past.clock - RETENTION_MS), maxGap)
  {
    var next := past.clock - RETENTION_MS;
    forall key ensures KeyInStep(PrunedBefore(table, next), LastOf(remembered, key), past.(prunedBefore := next), key, maxGap) {
      assert KeyInStep(table, LastOf(remembered, key), past, key, maxGap);
      assert past.(prunedBefore := next).EventsOf(key) == past.EventsOf(key);
      PruningFollows(table, LastOf(remembered, key), key, past.EventsOf(key), past.prunedBefore, next, maxGap);
    }
  }

  datatype Scanned<K> = Scanned(key: K, status: int)

  /** The keys of one scan, each sampled at the same time. */
  function Scan<K(==)>(past: Past<K>, samples: seq<Scanned<K>>, now: int): Past<K> {
    if |samples| == 0 then past.(clock := now)
    else
      var last := samples[|samples| - 1];
      Scan(past, samples[..|samples| - 1], now).With(last.key, Sample(now, last.status), now)
  }

  predicate Distinct<K(==)>(samples: seq<Scanned<K>>) {
    forall i, j | 0 <= i < j < |samples| :: samples[i].key != samples[j].key
  }

  ghost predicate AllEarlier<K>(past: Past<K>, samples: seq<Scanned<K>>, now: int) {
    forall i | 0 <= i < |samples| :: AllBefore(past.EventsOf(samples[i].key), now)
  }

  /** A key that is not among those scanned gets no sample. */
  lemma {:induction false} ScanAddsOnlyItsKeys<K>(past: Past<K>, samples: seq<Scanned<K>>, now: int, key: K)
    requires forall i | 0 <= i < |samples| :: samples[i].key != key
    ensures Scan(past, samples, now).EventsOf(key) == past.EventsOf(key)
  {
    if |samples| > 0 {
      ScanAddsOnlyItsKeys(past, samples[..|samples| - 1], now, key);
    }
  }

  lemma {:induction false} ScanKeepsTheRest<K>(past: Past<K>, samples: seq<Scanned<K>>, now: int)
    ensures Scan(past, samples, now).clock == now && Scan(past, samples, now).prunedBefore == past.prunedBefore
  {
    if |samples| > 0 {
      ScanKeepsTheRest(past, samples[..|samples| - 1], now);
    }
  }

  /** Each key scanned gets its sample, and nothing else changes. */
  lemma {:induction false} ScanAddsOneEach<K>(past: Past<K>, samples: seq<Scanned<K>>, now: int)
    requires forall i, j | 0 <= i < j < |samples| :: samples[i].key != samples[j].key
    ensures forall i | 0 <= i < |samples| ::
              Scan(past, samples, now).EventsOf(samples[i].key) == past.EventsOf(samples[i].key) + [Sample(now, samples[i].status)]
    ensures forall key | key !in past.events && (forall i | 0 <= i < |samples| :: samples[i].key != key) :: key !in Scan(past, samples, now).events
    ensures forall key | key in past.events && (forall i | 0 <= i < |samples| :: samples[i].key != key) ::
              key in Scan(past, samples, now).events && Scan(past, samples, now).EventsOf(key) == past.EventsOf(key)
  {
    if |samples| > 0 {
      var front, last := samples[..|samples| - 1], samples[|samples| - 1];
      ScanAddsOneEach(past, front, now);
      ScanAddsOnlyItsKeys(past, front, now, last.key);
      forall i | 0 <= i < |front|
        ensures Scan(past, samples, now).EventsOf(samples[i].key) == past.EventsOf(samples[i].key) + [Sample(now, samples[i].status)]
      {
        assert front[i] == samples[i];
      }
      forall key | forall i | 0 <= i < |samples| :: samples[i].key != key
        ensures key in Scan(past, samples, now).events <==> key in past.events
        ensures key in past.events ==> Scan(past, samples, now).EventsOf(key) == past.EventsOf(key)
      {
        assert key != last.key && forall i | 0 <= i < |front| :: front[i].key == samples[i].key;
      }
    }
  }

  lemma ScanOneMore<K>(past: Past<K>, samples: seq<Scanned<K>>, index: nat, now: int)
    requires index < |samples|
    ensures var scanned := Scan(past, samples[..index], now);
            && Scan(past, samples[..index + 1], now) == scanned.With(samples[index].key, Sample(now, samples[index].status), now)
            && scanned.clock == now
            && (Distinct(samples) ==> scanned.EventsOf(samples[index].key) == past.EventsOf(samples[index].key))
  {
    assert samples[..index + 1][..index] == samples[..index];
    if Distinct(samples) {
      ScanAddsOnlyItsKeys(past, samples[..index], now, samples[index].key);
    }
    ScanKeepsTheRest(past, samples[..index], now);
  }

  lemma EveryoneIsEarlier<K(!new)>(table: Table<K>, remembered: map<K, Last>, past: Past<K>, samples: seq<Scanned<K>>, now: int, maxGap: int)
    requires InStep(table, remembered, past, maxGap) && past.clock < now
    ensures AllEarlier(past, samples, now)
  {
    forall i | 0 <= i < |samples| ensures AllBefore(past.EventsOf(samples[i].key), now) {
      assert KeyInStep(table, LastOf(remembered, samples[i].key), past, samples[i].key, maxGap);
    }
  }

  lemma AllEarlierThan<K(!new)>(table: Table<K>, remembered: map<K, Last>, past: Past<K>, now: int, maxGap: int)
    requires InStep(table, remembered, past, maxGap) && past.clock < now
    ensures forall key :: AllBefore(past.EventsOf(key), now)
  {
    forall key ensures AllBefore(past.EventsOf(key), now) {
      assert KeyInStep(table, LastOf(remembered, key), past, key, maxGap);
    }
  }

  /** Both readers, on the rows that are left, answer exactly as the raw samples do. */
  lemma RowsAnswerAsSamples<K(!new)>(table: Table<K>, remembered: map<K, Last>, past: Past<K>, key: K, windowMs: int, now: int, maxGap: int)
    requires InStep(table, remembered, past, maxGap) && past.clock <= now && windowMs <= RETENTION_MS
    ensures var answer, rows := RawAnswer(past.EventsOf(key), maxGap, windowMs, now), History(table, key);
            && AvailabilityOf(ReadChanges(rows, now - windowMs), windowMs, now) == answer
            && (windowMs >= OBSERVATION_FRESHNESS_MS ==> AvailabilityOf(ConfirmedFrom(rows, now - windowMs), windowMs, now) == answer)
  {
    assert KeyInStep(table, LastOf(remembered, key), past, key, maxGap);
    assert AllBefore(past.EventsOf(key), now + 1);
    hide AvailabilityOf, ReadChanges, ConfirmedFrom, Run, Increasing, History, AllBefore, RawAnswer;
    SamplesAnswer(past.EventsOf(key), past.prunedBefore, windowMs, now, maxGap);
  }

  /** The rows left of a history after pruning answer as its samples do. */
  lemma SamplesAnswer(samples: seq<Event>, before: int, windowMs: int, now: int, maxGap: int)
    requires Increasing(samples) && maxGap >= 0 && before <= now - RETENTION_MS && windowMs <= RETENTION_MS && AllBefore(samples, now + 1)
    ensures var rows, answer := ConfirmedFrom(Run(samples, maxGap).intervals, before), RawAnswer(samples, maxGap, windowMs, now);
            && AvailabilityOf(ReadChanges(rows, now - windowMs), windowMs, now) == answer
            && (windowMs >= OBSERVATION_FRESHNESS_MS ==> AvailabilityOf(ConfirmedFrom(rows, now - windowMs), windowMs, now) == answer)
  {
    hide AvailabilityOf, ReadChanges, ConfirmedFrom, WellFormedHistory, Run, Increasing, AllBefore, RawAnswer;
    var history := Run(samples, maxGap).intervals;
    var rows := ConfirmedFrom(history, before);
    RunIsWellFormed(samples, maxGap);
    assert rows == Pruned(history, before + RETENTION_MS);
    PruningChangesNoAnswer(history, before + RETENTION_MS, windowMs, now);
    SingleReaderIsExact(history, windowMs, now);
    if windowMs >= OBSERVATION_FRESHNESS_MS {
      ReadersAgreeOnLongWindows(rows, windowMs, now);
    }
    AnswerIsOfTheSamples(samples, maxGap, windowMs, now);
  }

  /** An empty table is in step with having sampled nothing. */
  lemma NothingRecorded<K(!new)>(past: Past<K>, maxGap: int)
    requires past.events == map[] && past.prunedBefore <= past.clock - RETENTION_MS && 0 <= maxGap <= RETENTION_MS
    ensures InStep(Table(map[], 0), map[], past, maxGap)
  {
    forall key: K ensures KeyInStep(Table(map[], 0), LastOf(map[], key), past, key, maxGap) {
      assert Run([], maxGap) == Timeline([], None);
    }
  }
}
