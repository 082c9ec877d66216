/**
 The recorder of stack statuses: one row per stretch of equal samples, kept in memory and in
 the table, pruned from time to time, and read back by two queries.

 `past` is what a recorder that kept every raw sample would know. While scans come in order,
 the rows stay in step with it, whatever scans were cut short, forgotten, restarted or pruned.
 */
module Observations {
  import opened Results
  import opened Availability
  import opened Timeline
  import opened Readers
  import opened ObservationTable
  import opened Recording

  const PRUNE_EVERY_MS := 6 * 3_600_000
  const MAX_SCAN_GAP_MS := 30_000

  datatype Key = Key(stack: string, endpoint: string)

  class StackObservations {
    var table: Table<Key>
    var lastStatus: map<Key, Last>
    var lastPruneAt: int
    ghost var past: Past<Key>

    ghost predicate Tracks() reads this {
      InStep(table, lastStatus, past, MAX_SCAN_GAP_MS)
    }

    /** A process starts on the table another one left, and remembers nothing of it. */
    constructor (table: Table<Key>, ghost past: Past<Key>)
      requires InStep(table, map[], past, MAX_SCAN_GAP_MS)
      ensures Tracks() && this.table == table && this.past == past && lastStatus == map[] && lastPruneAt == 0
    {
      this.table, this.past := table, past;
      lastStatus, lastPruneAt := map[], 0;
    }

    /** One sample of one key, taken into its rows and into what is remembered of it. */
    method RecordStatus(key: Key, status: int, now: int) returns (inserted: bool)
      modifies this
      ensures lastPruneAt == old(lastPruneAt)
      ensures var (recorded, next) := Recorded(old(table), LastOf(old(lastStatus), key), key, status, now, MAX_SCAN_GAP_MS);
              table == recorded && lastStatus == old(lastStatus)[key := next]
      ensures table.nextId == old(table).nextId + if inserted then 1 else 0
      ensures past == old(past).With(key, Sample(now, status), now)
      ensures old(Tracks() && past.clock <= now && AllBefore(past.EventsOf(key), now)) ==> Tracks()
    {
      if Tracks() && past.clock <= now && AllBefore(past.EventsOf(key), now) {
        SampleKeepsStep(table, lastStatus, past, key, status, now, MAX_SCAN_GAP_MS);
      }
      hide InStep, AllBefore, Recorded;
      past := past.With(key, Sample(now, status), now);
      var recorded, next;
      recorded, next, inserted := RecordSample(table, LastOf(lastStatus, key), key, status, now, MAX_SCAN_GAP_MS);
      table, lastStatus := recorded, lastStatus[key := next];
    }

    /** Drop every stack whose last sample is too old to be joined. */
    method DropStale(now: int)
      modifies this`lastStatus
      ensures lastStatus == map key | key in old(lastStatus) && now - old(lastStatus)[key].at <= MAX_SCAN_GAP_MS :: old(lastStatus)[key]
    {
      var keys := lastStatus.Keys;
      while keys != {}
        invariant keys <= old(lastStatus).Keys
        invariant lastStatus.Keys <= old(lastStatus).Keys && keys <= lastStatus.Keys
        invariant forall key | key in lastStatus :: lastStatus[key] == old(lastStatus)[key]
        invariant forall key | key in old(lastStatus) && key !in keys :: key in lastStatus <==> now - old(lastStatus)[key].at <= MAX_SCAN_GAP_MS
      {
        var key :| key in keys;
        keys := keys - {key};
        if now - lastStatus[key].at > MAX_SCAN_GAP_MS {
          lastStatus := lastStatus - {key};
        }
      }
    }

    /** Record the stacks of a scan, as many as come before the round is called off. */
    method RecordStacks(stacks: seq<Scanned<Key>>, now: int) returns (written: nat, aborted: bool, ghost seen: nat)
      modifies this
      ensures seen <= |stacks| && past == Scan(old(past), stacks[..seen], now)
      ensures !aborted ==> seen == |stacks|
      ensures lastPruneAt == old(lastPruneAt) && written == table.nextId - old(table).nextId
      ensures old(InStep(table, lastStatus, past.(clock := now), MAX_SCAN_GAP_MS) && AllEarlier(past, stacks, now)) && Distinct(stacks) ==> Tracks()
    {
      ghost var was, tracked := past, InStep(table, lastStatus, past.(clock := now), MAX_SCAN_GAP_MS) && AllEarlier(past, stacks, now) && Distinct(stacks);
      written, seen, aborted := 0, 0, *;
      assert Scan(was, stacks[..0], now) == was.(clock := now);
      hide InStep, Scan, AllBefore, Recorded;
      past := past.(clock := now);
      var index := 0;
      while index < |stacks| && !aborted
        invariant 0 <= index <= |stacks| && seen == index
        invariant past == Scan(was, stacks[..seen], now) && lastPruneAt == old(lastPruneAt)
        invariant written == table.nextId - old(table).nextId
        invariant tracked ==> InStep(table, lastStatus, past, MAX_SCAN_GAP_MS)
      {
        ScanOneMore(was, stacks, index, now);
        var inserted := RecordStatus(stacks[index].key, stacks[index].status, now);
        if inserted {
          written := written + 1;
        }
        index, seen := index + 1, seen + 1;
        if !aborted {
          aborted := *;
        }
      }
      assert stacks[..|stacks|] == stacks;
    }

    /** One scan: the stacks are sampled in turn until it is called off, and rows are pruned when that is due. */
    method RecordScan(stacks: seq<Scanned<Key>>, now: int) returns (written: nat, ghost seen: nat, ghost calledOff: bool)
      modifies this
      ensures seen <= |stacks| && written == table.nextId - old(table).nextId
      ensures !calledOff ==> seen == |stacks|
      ensures var scanned := Scan(old(past), stacks[..seen], now);
              if !calledOff && now - old(lastPruneAt) > PRUNE_EVERY_MS
              then lastPruneAt == now && past == scanned.(prunedBefore := now - RETENTION_MS)
              else lastPruneAt == old(lastPruneAt) && past == scanned
      ensures (forall i, j | 0 <= i < j < |stacks| :: stacks[i].key != stacks[j].key) ==>
                && (forall i | 0 <= i < seen :: past.EventsOf(stacks[i].key) == old(past).EventsOf(stacks[i].key) + [Sample(now, stacks[i].status)])
                && (forall key | key in old(past).events && (forall i | 0 <= i < seen :: stacks[i].key != key) ::
                      past.EventsOf(key) == old(past).EventsOf(key))
      ensures old(Tracks() && past.clock < now) && Distinct(stacks) ==> Tracks()
    {
      ghost var was, tracked := past, Tracks() && past.clock < now && Distinct(stacks);
      DropStale(now);
      if tracked {
        ScanMayStart(table, old(lastStatus), lastStatus, past, stacks, now);
      }
      hide *;
      var aborted;
      written, aborted, seen := RecordStacks(stacks, now);
      ScanKeepsTheRest(was, stacks[..seen], now);
      calledOff := aborted;
      if !aborted {
        PruneWhenDue(now);
      }
      ScannedEach(was, past, stacks, seen, now);
    }

    /** Prune, unless that was done a short while ago. */
    method PruneWhenDue(now: int)
      modifies this
      ensures lastStatus == old(lastStatus) && table.nextId == old(table).nextId
      ensures if now - old(lastPruneAt) > PRUNE_EVERY_MS
              then lastPruneAt == now && past == old(past).(prunedBefore := now - RETENTION_MS)
              else lastPruneAt == old(lastPruneAt) && past == old(past) && table == old(table)
      ensures old(Tracks() && past.clock == now) ==> Tracks()
    {
      hide InStep;
      if now - lastPruneAt > PRUNE_EVERY_MS {
        lastPruneAt := now;
        ghost var found, earlier := table, past;
        PruneOldObservations(now);
        if InStep(found, lastStatus, earlier, MAX_SCAN_GAP_MS) && earlier.clock == now {
          PruningKeepsStep(found, lastStatus, earlier, MAX_SCAN_GAP_MS);
        }
      }
    }

    /** Remove the rows that ended before the retention window. */
    method PruneOldObservations(now: int)
      modifies this`table, this`past
      ensures table == PrunedBefore(old(table), now - RETENTION_MS) && table.nextId == old(table).nextId
      ensures forall id :: id in table.rows <==> id in old(table).rows && old(table).rows[id].until >= now - RETENTION_MS
      ensures forall id | id in table.rows :: table.rows[id] == old(table).rows[id]
      ensures past == old(past).(prunedBefore := now - RETENTION_MS)
    {
      table := table.(rows := map id | id in table.rows && table.rows[id].until >= now - RETENTION_MS :: table.rows[id]);
      past := past.(prunedBefore := now - RETENTION_MS);
    }

    /** Release a stack that disappeared, without deleting its rows. */
    method ForgetObservation(key: Key)
      modifies this`lastStatus, this`past
      ensures lastStatus == old(lastStatus) - {key} && past == old(past).With(key, Break, old(past).clock)
      ensures old(Tracks()) ==> Tracks()
    {
      if Tracks() {
        ForgettingKeepsStep(table, lastStatus, past, key, MAX_SCAN_GAP_MS);
      }
      lastStatus := lastStatus - {key};
      past := past.With(key, Break, past.clock);
    }

    /** What a restart leaves: the rows, with every run of samples at its end. */
    method Reset()
      modifies this`lastStatus, this`lastPruneAt, this`past
      ensures lastStatus == map[] && lastPruneAt == 0 && past == old(past).BreakExcept({})
      ensures old(Tracks()) ==> Tracks()
    {
      if Tracks() {
        BreakingKeepsStep(table, lastStatus, past, map[], MAX_SCAN_GAP_MS);
      }
      lastStatus := map[];
      lastPruneAt := 0;
      past := past.BreakExcept({});
    }

    /**
     Availability of one stack. For any window up to the retention length it is what the raw
     samples say, though rows were merged, pruned and read back only in part.
     */
    method ReadAvailability(key: Key, windowMs: int, now: int) returns (result: Availability)
      ensures result == AvailabilityOf(ReadChanges(History(table, key), now - windowMs), windowMs, now)
      ensures Tracks() && past.clock <= now && windowMs <= RETENTION_MS ==>
                result == RawAnswer(past.EventsOf(key), MAX_SCAN_GAP_MS, windowMs, now)
    {
      result := ComputeAvailability(ReadChanges(History(table, key), now - windowMs), windowMs, now);
      if Tracks() && past.clock <= now && windowMs <= RETENTION_MS {
        RowsAnswerAsSamples(table, lastStatus, past, key, windowMs, now, MAX_SCAN_GAP_MS);
      }
    }

    /** Availability of one endpoint's selected stacks; it agrees for windows of 90 seconds or more. */
    method ReadAvailabilityBatch(names: set<string>, endpoint: string, windowMs: int, now: int) returns (result: map<string, Availability>)
      ensures result.Keys == names
      ensures forall name | name in names ::
                result[name] == AvailabilityOf(ConfirmedFrom(History(table, Key(name, endpoint)), now - windowMs), windowMs, now)
      ensures Tracks() && past.clock <= now && OBSERVATION_FRESHNESS_MS <= windowMs <= RETENTION_MS ==>
                forall name | name in names ::
                  result[name] == RawAnswer(past.EventsOf(Key(name, endpoint)), MAX_SCAN_GAP_MS, windowMs, now)
    {
      result := map[];
      var left := names;
      while left != {}
        invariant left <= names && result.Keys == names - left
        invariant forall name | name in result ::
                    result[name] == AvailabilityOf(ConfirmedFrom(History(table, Key(name, endpoint)), now - windowMs), windowMs, now)
      {
        var name :| name in left;
        left := left - {name};
        var availability := ComputeAvailability(ConfirmedFrom(History(table, Key(name, endpoint)), now - windowMs), windowMs, now);
        result := result[name := availability];
      }
      if Tracks() && past.clock <= now && OBSERVATION_FRESHNESS_MS <= windowMs <= RETENTION_MS {
        forall name | name in names
          ensures result[name] == RawAnswer(past.EventsOf(Key(name, endpoint)), MAX_SCAN_GAP_MS, windowMs, now)
        {
          RowsAnswerAsSamples(table, lastStatus, past, Key(name, endpoint), windowMs, now, MAX_SCAN_GAP_MS);
        }
      }
    }
  }

  /** As much of a scan as was seen adds one sample to each of its stacks. */
  lemma ScannedEach(past: Past<Key>, after: Past<Key>, stacks: seq<Scanned<Key>>, seen: nat, now: int)
    requires seen <= |stacks| && after.events == Scan(past, stacks[..seen], now).events
    ensures (forall i, j | 0 <= i < j < |stacks| :: stacks[i].key != stacks[j].key) ==>
              && (forall i | 0 <= i < seen ::
                    after.EventsOf(stacks[i].key) == past.EventsOf(stacks[i].key) + [Sample(now, stacks[i].status)])
              && (forall key | key in past.events && (forall i | 0 <= i < seen :: stacks[i].key != key) ::
                    after.EventsOf(key) == past.EventsOf(key))
  {
    hide Scan;
    if forall i, j | 0 <= i < j < |stacks| :: stacks[i].key != stacks[j].key {
      ScanAddsOneEach(past, stacks[..seen], now);
      assert forall i | 0 <= i < seen :: stacks[..seen][i] == stacks[i];
    }
  }

  /** Dropping stale stacks before a scan keeps the step, and the scan is later than every sample. */
  lemma ScanMayStart(table: Table<Key>, lastStatus: map<Key, Last>, kept: map<Key, Last>, past: Past<Key>, stacks: seq<Scanned<Key>>, now: int)
    requires InStep(table, lastStatus, past, MAX_SCAN_GAP_MS) && past.clock < now
    requires kept == map key | key in lastStatus && now - lastStatus[key].at <= MAX_SCAN_GAP_MS :: lastStatus[key]
    ensures InStep(table, kept, past.(clock := now), MAX_SCAN_GAP_MS) && AllEarlier(past, stacks, now)
  {
    hide InStep;
    LaterClock(table, lastStatus, past, now, MAX_SCAN_GAP_MS);
    DroppingStaleKeepsStep(table, lastStatus, past.(clock := now), kept, MAX_SCAN_GAP_MS);
    EveryoneIsEarlier(table, lastStatus, past, stacks, now, MAX_SCAN_GAP_MS);
  }
}
