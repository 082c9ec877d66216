/**
 The table a recorder writes: what one sample does to it, and that the rows of a key stay the
 merged form of its raw samples, whatever else is recorded or pruned in between.
 */
module ObservationTable {
  import opened Results
  import opened Availability
  import opened Timeline
  import opened Readers

  datatype Row<K> = Row(key: K, status: int, at: int, until: int)

  datatype Table<K> = Table(rows: map<nat, Row<K>>, nextId: nat)

  /** The interval a key is in: its row, its status and the last sample that confirmed it. */
  datatype Last = Last(id: nat, status: int, at: int)

  predicate Numbered<K(==)>(table: Table<K>) {
    forall id | id in table.rows :: id < table.nextId
  }

  /** The intervals of one key, in the order they were inserted. */
  function HistoryOf<K(==)>(rows: map<nat, Row<K>>, key: K, n: nat): seq<StatusChange> {
    if n == 0 then []
    else HistoryOf(rows, key, n - 1)
         + if n - 1 in rows && rows[n - 1].key == key
           then [StatusChange(rows[n - 1].status, rows[n - 1].at, Some(rows[n - 1].until))] else []
  }

  function History<K(==)>(table: Table<K>, key: K): seq<StatusChange> {
    HistoryOf(table.rows, key, table.nextId)
  }

  function Inserted<K(==)>(table: Table<K>, row: Row<K>): Table<K> {
    Table(table.rows[table.nextId := row], table.nextId + 1)
  }

  /** Whether a sample confirms the interval of the last one; its row may be gone. */
  predicate Confirms<K(==)>(table: Table<K>, last: Option<Last>, now: int, maxGap: int) {
    last.Some? && 0 <= now - last.value.at <= maxGap && last.value.id in table.rows
  }

  function Confirmed<K(==)>(table: Table<K>, id: nat, now: int): Table<K>
    requires id in table.rows
  {
    table.(rows := table.rows[id := table.rows[id].(until := now)])
  }

  /** One sample: the last interval is confirmed if it is close, and a new one opened unless it goes on. */
  function Recorded<K(==)>(table: Table<K>, last: Option<Last>, key: K, status: int, now: int, maxGap: int): (Table<K>, Last) {
    if Confirms(table, last, now, maxGap) then
      var confirmed := Confirmed(table, last.value.id, now);
      if last.value.status == status then (confirmed, last.value.(at := now))
      else (Inserted(confirmed, Row(key, status, now, now)), Last(table.nextId, status, now))
    else (Inserted(table, Row(key, status, now, now)), Last(table.nextId, status, now))
  }

  /** One sample: the last row is extended if it is close, there and of the same status; otherwise a row is added. */
  method RecordSample<K(==)>(table: Table<K>, last: Option<Last>, key: K, status: int, now: int, maxGap: int)
    returns (recorded: Table<K>, next: Last, inserted: bool)
    ensures (recorded, next) == Recorded(table, last, key, status, now, maxGap)
    ensures recorded.nextId == table.nextId + if inserted then 1 else 0
  {
    recorded := table;
    if last.Some? {
      var previous := last.value;
      if now >= previous.at && now - previous.at <= maxGap {
        var updated := previous.id in recorded.rows;
        if updated {
          recorded := recorded.(rows := recorded.rows[previous.id := recorded.rows[previous.id].(until := now)]);
        }
        if updated && previous.status == status {
          return recorded, previous.(at := now), false;
        }
      }
    }
    var id := recorded.nextId;
    return Table(recorded.rows[id := Row(key, status, now, now)], id + 1), Last(id, status, now), true;
  }

  function PrunedBefore<K(==)>(table: Table<K>, before: int): Table<K> {
    table.(rows := map id | id in table.rows && table.rows[id].until >= before :: table.rows[id])
  }

  // ---------------------------------------------------------------- rows of one key

  lemma {:induction false} HistoryDependsOnOwnRows<K>(a: map<nat, Row<K>>, b: map<nat, Row<K>>, key: K, n: nat)
    requires forall id | 0 <= id < n && id in a && a[id].key == key :: id in b && b[id] == a[id]
    requires forall id | 0 <= id < n && id in b && b[id].key == key :: id in a && a[id] == b[id]
    ensures HistoryOf(a, key, n) == HistoryOf(b, key, n)
  {
    if n > 0 {
      HistoryDependsOnOwnRows(a, b, key, n - 1);
    }
  }

  lemma {:induction false} NoLaterRows<K>(rows: map<nat, Row<K>>, key: K, n: nat, m: nat)
    requires n <= m && forall id | n <= id < m && id in rows :: rows[id].key != key
    ensures HistoryOf(rows, key, m) == HistoryOf(rows, key, n)
  {
    if n < m {
      NoLaterRows(rows, key, n, m - 1);
    }
  }

  lemma HistoryOfInserted<K>(table: Table<K>, row: Row<K>, key: K)
    ensures History(Inserted(table, row), key)
            == History(table, key) + if row.key == key then [StatusChange(row.status, row.at, Some(row.until))] else []
  {
    HistoryDependsOnOwnRows(table.rows, table.rows[table.nextId := row], key, table.nextId);
  }

  /** Confirming the newest row of a key moves the end of its last interval. */
  lemma HistoryOfConfirmed<K>(table: Table<K>, id: nat, now: int, key: K)
    requires id in table.rows && id < table.nextId && table.rows[id].key == key
    requires forall other | other in table.rows && table.rows[other].key == key :: other <= id
    ensures History(Confirmed(table, id, now), key) == WithUntil(History(table, key), now)
    ensures var history := History(table, key);
            |history| > 0 && history[|history| - 1] == StatusChange(table.rows[id].status, table.rows[id].at, Some(table.rows[id].until))
  {
    var after := table.rows[id := table.rows[id].(until := now)];
    NoLaterRows(table.rows, key, id + 1, table.nextId);
    NoLaterRows(after, key, id + 1, table.nextId);
    HistoryDependsOnOwnRows(table.rows, after, key, id);
  }

  lemma HistoryOfOthersConfirmed<K>(table: Table<K>, id: nat, now: int, key: K)
    requires id in table.rows && table.rows[id].key != key
    ensures History(Confirmed(table, id, now), key) == History(table, key)
  {
    HistoryDependsOnOwnRows(table.rows, table.rows[id := table.rows[id].(until := now)], key, table.nextId);
  }

  lemma {:induction false} HistoryOfPruned<K>(table: Table<K>, before: int, key: K, n: nat)
    ensures HistoryOf(PrunedBefore(table, before).rows, key, n) == ConfirmedFrom(HistoryOf(table.rows, key, n), before)
  {
    if n > 0 {
      HistoryOfPruned(table, before, key, n - 1);
      if n - 1 in table.rows && table.rows[n - 1].key == key {
        var row, pruned := table.rows[n - 1], PrunedBefore(table, before).rows;
        assert n - 1 in pruned <==> row.until >= before;
        assert ConfirmedFrom([StatusChange(row.status, row.at, Some(row.until))], before)
            == if row.until >= before then [StatusChange(row.status, row.at, Some(row.until))] else [];
        ConfirmedFromAppend(HistoryOf(table.rows, key, n - 1), [StatusChange(row.status, row.at, Some(row.until))], before);
      } else {
        assert HistoryOf(table.rows, key, n) == HistoryOf(table.rows, key, n - 1);
      }
    }
  }

  /** Confirming a last interval that was kept commutes with leaving out the ended ones. */
  lemma ConfirmedFromWithUntil(intervals: seq<StatusChange>, from: int, now: int)
    requires |intervals| > 0 && intervals[|intervals| - 1].until.Some?
    requires from <= intervals[|intervals| - 1].until.value && from <= now
    ensures ConfirmedFrom(WithUntil(intervals, now), from) == WithUntil(ConfirmedFrom(intervals, from), now)
  {
    var front, last := intervals[..|intervals| - 1], intervals[|intervals| - 1];
    assert intervals == front + [last];
    ConfirmedFromAppend(front, [last], from);
    ConfirmedFromAppend(front, [last.(until := Some(now))], from);
  }

  // ---------------------------------------------------------------- rows and samples

  /** What is remembered of a key is its newest row and the last of its samples. */
  predicate Remembers<K(==)>(table: Table<K>, last: Last, key: K, before: int) {
    && last.id < table.nextId
    && (forall id | id in table.rows && table.rows[id].key == key :: id <= last.id)
    && (last.id in table.rows ==> table.rows[last.id].key == key)
    && (last.at >= before ==> last.id in table.rows && table.rows[last.id].until == last.at)
  }

  /** The rows of a key are what its samples merge to, less the rows pruned so far. */
  predicate Follows<K(==)>(table: Table<K>, last: Option<Last>, key: K, events: seq<Event>, before: int, maxGap: int) {
    && Increasing(events)
    && History(table, key) == ConfirmedFrom(Run(events, maxGap).intervals, before)
    && (last.Some? ==>
          && Run(events, maxGap).last == Some(Sampled(last.value.status, last.value.at))
          && Remembers(table, last.value, key, before))
  }

  /** Nothing is joined to a key that is not remembered. */
  predicate Forgotten(events: seq<Event>, time: int, maxGap: int) {
    var last := Run(events, maxGap).last;
    last.Some? ==> last.value.at + maxGap < time
  }

  lemma RunOfSample(events: seq<Event>, now: int, status: int, maxGap: int)
    requires Increasing(events) && AllBefore(events, now)
    ensures Run(events + [Sample(now, status)], maxGap) == Add(Run(events, maxGap), now, status, maxGap)
    ensures Increasing(events + [Sample(now, status)])
    ensures LastIsOpen(Run(events, maxGap))
    ensures Run(events, maxGap).last.Some? ==> Run(events, maxGap).last.value.at < now
  {
    assert (events + [Sample(now, status)])[..|events|] == events;
    RunEndsAtLastEvent(events, maxGap);
    RunIsWellFormed(events, maxGap);
  }

  lemma ConfirmingFollows<K>(table: Table<K>, last: Last, key: K, events: seq<Event>, before: int, now: int, maxGap: int)
    requires Numbered(table) && Follows(table, Some(last), key, events, before, maxGap)
    requires before <= last.at <= now && last.id in table.rows && LastIsOpen(Run(events, maxGap))
    ensures Numbered(Confirmed(table, last.id, now))
    ensures History(Confirmed(table, last.id, now), key) == ConfirmedFrom(WithUntil(Run(events, maxGap).intervals, now), before)
    ensures Remembers(Confirmed(table, last.id, now), last.(at := now), key, before)
  {
    HistoryOfConfirmed(table, last.id, now, key);
    ConfirmedFromWithUntil(Run(events, maxGap).intervals, before, now);
  }

  lemma InsertingFollows<K>(table: Table<K>, key: K, intervals: seq<StatusChange>, before: int, status: int, now: int)
    requires Numbered(table) && before <= now && History(table, key) == ConfirmedFrom(intervals, before)
    ensures var row := Row(key, status, now, now);
            && Numbered(Inserted(table, row))
            && History(Inserted(table, row), key) == ConfirmedFrom(intervals + [StatusChange(status, now, Some(now))], before)
            && Remembers(Inserted(table, row), Last(table.nextId, status, now), key, before)
  {
    HistoryOfInserted(table, Row(key, status, now, now), key);
    ConfirmedFromAppend(intervals, [StatusChange(status, now, Some(now))], before);
  }

  /** Recording a sample keeps the rows of its key in step with its samples. */
  lemma RecordingFollows<K>(table: Table<K>, last: Option<Last>, key: K, events: seq<Event>, before: int, status: int, now: int, maxGap: int)
    requires Numbered(table) && Follows(table, last, key, events, before, maxGap)
    requires AllBefore(events, now) && before <= now - maxGap && maxGap >= 0
    requires last.None? ==> Forgotten(events, now, maxGap)
    ensures var (recorded, next) := Recorded(table, last, key, status, now, maxGap);
            Numbered(recorded) && Follows(recorded, Some(next), key, events + [Sample(now, status)], before, maxGap)
  {
    hide ConfirmedFrom, HistoryOf, WithUntil, Increasing, AllBefore;
    RunOfSample(events, now, status, maxGap);
    var line := Run(events, maxGap);
    if last.Some? && 0 <= now - last.value.at <= maxGap {
      ConfirmingFollows(table, last.value, key, events, before, now, maxGap);
      InsertingFollows(Confirmed(table, last.value.id, now), key, WithUntil(line.intervals, now), before, status, now);
    } else {
      InsertingFollows(table, key, line.intervals, before, status, now);
    }
  }

  /** and leaves every other key as it was. */
  lemma RecordingLeavesOthers<K>(table: Table<K>, last: Option<Last>, key: K, status: int, now: int, maxGap: int,
                                 other: K, otherLast: Option<Last>, events: seq<Event>, before: int)
    requires Numbered(table) && other != key && Follows(table, otherLast, other, events, before, maxGap)
    requires last.Some? ==> Remembers(table, last.value, key, before)
    ensures var (recorded, _) := Recorded(table, last, key, status, now, maxGap);
            Follows(recorded, otherLast, other, events, before, maxGap)
  {
    hide ConfirmedFrom, HistoryOf;
    var row := Row(key, status, now, now);
    HistoryOfInserted(table, row, other);
    if Confirms(table, last, now, maxGap) {
      HistoryOfOthersConfirmed(table, last.value.id, now, other);
      HistoryOfInserted(Confirmed(table, last.value.id, now), row, other);
    }
  }

  /** Pruning keeps every key in step. */
  lemma PruningFollows<K>(table: Table<K>, last: Option<Last>, key: K, events: seq<Event>, before: int, next: int, maxGap: int)
    requires Numbered(table) && before <= next && Follows(table, last, key, events, before, maxGap)
    ensures Numbered(PrunedBefore(table, next)) && Follows(PrunedBefore(table, next), last, key, events, next, maxGap)
  {
    HistoryOfPruned(table, next, key, table.nextId);
    ConfirmedFromTwice(Run(events, maxGap).intervals, before, next);
  }

  /** A break only makes the recorder forget: no row changes. */
  lemma BreakingFollows<K>(table: Table<K>, last: Option<Last>, key: K, events: seq<Event>, before: int, maxGap: int)
    requires Follows(table, last, key, events, before, maxGap)
    ensures Follows(table, None, key, events + [Break], before, maxGap) && Run(events + [Break], maxGap).last.None?
    ensures Follows(table, None, key, events, before, maxGap)
  {
    assert (events + [Break])[..|events|] == events;
  }
}
