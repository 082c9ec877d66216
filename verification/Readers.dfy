/**
 The two queries that read recorded intervals back, and the pruning of old ones.

 One reader takes the rows that start inside the window and the one right before it, the
 other the rows that end inside the window. Both and pruning drop rows that ended before
 the window; what that can change is the description of the current state, and nothing else.
 */
module Readers {
  import opened Results
  import opened Availability
  import opened Timeline

  const RETENTION_MS := 31 * 24 * 3_600_000

  function StartedBefore(history: seq<StatusChange>, from: int): seq<StatusChange> {
    if |history| == 0 then []
    else if history[0].at < from then [history[0]] + StartedBefore(history[1..], from)
    else StartedBefore(history[1..], from)
  }

  function StartedFrom(history: seq<StatusChange>, from: int): seq<StatusChange> {
    if |history| == 0 then []
    else if history[0].at >= from then [history[0]] + StartedFrom(history[1..], from)
    else StartedFrom(history[1..], from)
  }

  /** The rows of one stack that start inside the window, after the last one that starts before it. */
  function ReadChanges(history: seq<StatusChange>, from: int): seq<StatusChange> {
    var before := StartedBefore(history, from);
    (if |before| > 0 then [before[|before| - 1]] else []) + StartedFrom(history, from)
  }

  /** The rows that are confirmed inside the window, and what pruning keeps. */
  function ConfirmedFrom(history: seq<StatusChange>, from: int): seq<StatusChange> {
    if |history| == 0 then []
    else if history[0].until.Some? && history[0].until.value >= from then [history[0]] + ConfirmedFrom(history[1..], from)
    else ConfirmedFrom(history[1..], from)
  }

  function Pruned(history: seq<StatusChange>, now: int): seq<StatusChange> {
    ConfirmedFrom(history, now - RETENTION_MS)
  }

  /** The current state as an answer describes it. */
  function Described(history: seq<StatusChange>, now: int): Current {
    var current := DescribeCurrent(Latest(history, now), now);
    if current.Some? then current.value else Current(UNKNOWN, None)
  }

  /** What an answer says of the window, without the current state. */
  function Measures(history: seq<StatusChange>, windowMs: int, now: int): Availability {
    AvailabilityOf(history, windowMs, now).(currentForMs := None, currentStatus := UNKNOWN)
  }

  lemma SameAnswer(a: seq<StatusChange>, b: seq<StatusChange>, windowMs: int, now: int)
    requires windowMs > 0 && Measures(a, windowMs, now) == Measures(b, windowMs, now)
    ensures AvailabilityOf(a, windowMs, now) == AvailabilityOf(b, windowMs, now) <==> Described(a, now) == Described(b, now)
  {
    hide Instants, Incidents, Sorted, StartedBy, Latest, DescribeCurrent;
  }

  lemma SameMeasures(a: seq<StatusChange>, b: seq<StatusChange>, windowMs: int, now: int)
    requires windowMs > 0
    requires Instants(a, Covered, now - windowMs, now) == Instants(b, Covered, now - windowMs, now)
    requires Instants(a, Healthy, now - windowMs, now) == Instants(b, Healthy, now - windowMs, now)
    requires Instants(a, Halted, now - windowMs, now) == Instants(b, Halted, now - windowMs, now)
    requires var x, y := Sorted(StartedBy(a, now)), Sorted(StartedBy(b, now));
             Incidents(x, |x|, now - windowMs, now) == Incidents(y, |y|, now - windowMs, now)
    ensures Measures(a, windowMs, now) == Measures(b, windowMs, now)
  {
    hide Instants, Incidents, Sorted, StartedBy, Latest, DescribeCurrent;
  }

  // ---------------------------------------------------------------- both readers cut the history's front off

  lemma TailIsWellFormed(history: seq<StatusChange>, k: nat)
    requires WellFormedHistory(history) && k <= |history|
    ensures WellFormedHistory(history[k..])
  {
    forall i, j | 0 <= i < j < |history| - k
      ensures history[k..][i].until.value <= history[k..][j].at && history[k..][i].at < history[k..][j].at
    {
      assert history[k..][i] == history[k + i] && history[k..][j] == history[k + j];
    }
  }

  lemma {:induction false} ConfirmedFromAppend(a: seq<StatusChange>, b: seq<StatusChange>, from: int)
    ensures ConfirmedFrom(a + b, from) == ConfirmedFrom(a, from) + ConfirmedFrom(b, from)
  {
    if |a| == 0 {
      assert a + b == b;
    } else {
      ConfirmedFromAppend(a[1..], b, from);
      assert (a + b)[1..] == a[1..] + b;
      assert (a + b)[0] == a[0];
      var x, y := ConfirmedFrom(a[1..], from), ConfirmedFrom(b, from);
      assert [a[0]] + (x + y) == [a[0]] + x + y;
    }
  }

  lemma {:induction false} ConfirmedFromTwice(history: seq<StatusChange>, a: int, b: int)
    requires a <= b
    ensures ConfirmedFrom(ConfirmedFrom(history, a), b) == ConfirmedFrom(history, b)
  {
    if |history| > 0 {
      var rest := ConfirmedFrom(history[1..], a);
      ConfirmedFromTwice(history[1..], a, b);
      assert ([history[0]] + rest)[1..] == rest;
    }
  }

  lemma {:induction false} AllConfirmed(history: seq<StatusChange>, from: int)
    requires forall c | c in history :: c.until.Some? && c.until.value >= from
    ensures ConfirmedFrom(history, from) == history
  {
    if |history| > 0 {
      AllConfirmed(history[1..], from);
    }
  }

  /** How many rows the reader that goes by the end of a row leaves out. */
  lemma {:induction false} ConfirmedFromIsTail(history: seq<StatusChange>, from: int) returns (k: nat)
    requires WellFormedHistory(history)
    ensures k <= |history| && ConfirmedFrom(history, from) == history[k..]
    ensures forall i | 0 <= i < k :: history[i].until.Some? && history[i].until.value < from
    ensures forall i | k <= i < |history| :: history[i].until.Some? && history[i].until.value >= from
  {
    if |history| > 0 && history[0].until.value < from {
      TailIsWellFormed(history, 1);
      hide WellFormedHistory;
      var rest := history[1..];
      k := ConfirmedFromIsTail(rest, from);
      assert ConfirmedFrom(history, from) == ConfirmedFrom(rest, from);
      forall i | 0 < i < |history| ensures history[i] == rest[i - 1] {
      }
      k := k + 1;
    } else {
      k := 0;
      AllConfirmed(history, from);
    }
  }

  lemma {:induction false} NoneStartedBefore(history: seq<StatusChange>, from: int)
    requires forall c | c in history :: c.at >= from
    ensures StartedBefore(history, from) == [] && StartedFrom(history, from) == history
  {
    if |history| > 0 {
      NoneStartedBefore(history[1..], from);
    }
  }

  /** Rows before one that starts before the window ended before the window. */
  lemma EndedBefore(history: seq<StatusChange>, k: nat, from: int)
    requires WellFormedHistory(history) && k < |history| && history[k].at < from
    ensures forall i | 0 <= i < k :: history[i].until.value < from
  {
  }

  /** The rows that start before the window are the front, and its last one is read. */
  lemma {:induction false} StartedBeforeIsFront(history: seq<StatusChange>, from: int) returns (n: nat)
    requires WellFormedHistory(history)
    ensures n <= |history| && StartedBefore(history, from) == history[..n] && StartedFrom(history, from) == history[n..]
    ensures n > 0 ==> history[n - 1].at < from
  {
    if |history| > 0 && history[0].at < from {
      TailIsWellFormed(history, 1);
      hide WellFormedHistory;
      var rest := history[1..];
      n := StartedBeforeIsFront(rest, from);
      assert StartedFrom(history, from) == StartedFrom(rest, from) == history[n + 1..];
      assert [history[0]] + rest[..n] == history[..n + 1];
      assert n > 0 ==> rest[n - 1] == history[n];
      n := n + 1;
    } else {
      n := 0;
      NoneStartedBefore(history, from);
    }
  }

  /** The reader that goes by the start of a row leaves out rows that ended before the window, too. */
  lemma ReadChangesIsTail(history: seq<StatusChange>, from: int) returns (k: nat)
    requires WellFormedHistory(history)
    ensures k <= |history| && ReadChanges(history, from) == history[k..]
    ensures forall i | 0 <= i < k :: history[i].until.value < from
    ensures k > 0 ==> k < |history| && history[k].at < from
  {
    var n := StartedBeforeIsFront(history, from);
    k := if n > 0 then n - 1 else 0;
    if n > 0 {
      EndedBefore(history, k, from);
      assert [history[k]] + history[n..] == history[k..];
    }
  }

  // ---------------------------------------------------------------- rows that ended before the window

  lemma {:induction false} LatestOfTail(first: StatusChange, rest: seq<StatusChange>, t: int)
    requires forall c | c in rest :: first.at <= c.at
    ensures Latest([first] + rest, t)
            == if Latest(rest, t).Some? then Latest(rest, t) else if first.at <= t then Some(first) else None
  {
    var all := [first] + rest;
    if |rest| > 0 {
      LatestOfTail(first, rest[..|rest| - 1], t);
      assert all[..|all| - 1] == [first] + rest[..|rest| - 1];
      LatestHasStarted(rest[..|rest| - 1], t);
    } else {
      assert all == [first] && all[..0] == [];
    }
  }

  lemma {:induction false} InsertAtEnd(sorted: seq<StatusChange>, n: nat)
    requires SortedByAt(sorted) && n <= |sorted|
    ensures Sorted(sorted[..n]) == sorted[..n]
  {
    if n > 0 {
      assert sorted[..n][..n - 1] == sorted[..n - 1];
      InsertAtEnd(sorted, n - 1);
    }
  }

  lemma {:induction false} StartedByOfTail(first: StatusChange, rest: seq<StatusChange>, now: int)
    ensures StartedBy([first] + rest, now) == (if first.at <= now then [first] else []) + StartedBy(rest, now)
  {
    var all := [first] + rest;
    if |rest| > 0 {
      StartedByOfTail(first, rest[..|rest| - 1], now);
      assert all[..|all| - 1] == [first] + rest[..|rest| - 1];
    } else {
      assert all == [first] && all[..0] == [];
    }
  }

  lemma {:induction false} StartedByStaysSorted(history: seq<StatusChange>, now: int)
    requires SortedByAt(history)
    ensures SortedByAt(StartedBy(history, now))
    ensures forall c | c in StartedBy(history, now) :: c in history
  {
    if |history| > 0 {
      var front, last := history[..|history| - 1], history[|history| - 1];
      StartedByStaysSorted(front, now);
      forall c | c in StartedBy(front, now) ensures c.at <= last.at {
        assert c in front;
      }
      if last.at <= now {
        SortedAppend(StartedBy(front, now), last);
      }
    }
  }

  lemma {:induction false} IncidentsOfTail(sorted: seq<StatusChange>, n: nat, lo: int, now: int)
    requires 0 < n <= |sorted| && sorted[0].until.Some? && sorted[0].until.value < lo
    ensures Incidents(sorted, n, lo, now) == Incidents(sorted[1..], n - 1, lo, now)
  {
    if n == 1 {
      assert Incidents(sorted, 0, lo, now) == 0;
    } else {
      IncidentsOfTail(sorted, n - 1, lo, now);
      assert sorted[1..][n - 2] == sorted[n - 1];
      assert n > 2 ==> sorted[1..][n - 3] == sorted[n - 2];
    }
  }

  /** A row that ended before the window adds neither time nor incidents to it. */
  lemma EndedRowCountsNothing(history: seq<StatusChange>, kind: Kind, lo: int, now: int)
    requires WellFormedHistory(history) && |history| > 0 && history[0].until.value < lo <= now
    ensures Instants(history, kind, lo, now) == Instants(history[1..], kind, lo, now)
  {
    assert history == [history[0]] + history[1..];
    forall t | lo <= t < now ensures StatusAt(history, t) == StatusAt(history[1..], t) {
      LatestOfTail(history[0], history[1..], t);
    }
    SameInstants(history, history[1..], kind, lo, now);
  }

  /** Ordered rows stay in their order. */
  lemma OrderedRowsStay(history: seq<StatusChange>, now: int)
    requires WellFormedHistory(history)
    ensures Sorted(StartedBy(history, now)) == StartedBy(history, now)
  {
    StartedByStaysSorted(history, now);
    var started := StartedBy(history, now);
    assert started[..|started|] == started;
    InsertAtEnd(started, |started|);
  }

  lemma EndedRowIsNoIncident(history: seq<StatusChange>, lo: int, now: int)
    requires WellFormedHistory(history) && |history| > 0 && history[0].until.value < lo <= now
    ensures var all, tail := Sorted(StartedBy(history, now)), Sorted(StartedBy(history[1..], now));
            Incidents(all, |all|, lo, now) == Incidents(tail, |tail|, lo, now)
  {
    var first := history[0];
    assert first.at <= now && first.until.Some? && first.until.value < lo;
    TailIsWellFormed(history, 1);
    assert history == [first] + history[1..];
    hide *;
    OrderedRowsStay(history, now);
    OrderedRowsStay(history[1..], now);
    StartedByOfTail(first, history[1..], now);
    var all := StartedBy(history, now);
    assert all[0] == first;
    assert all[1..] == StartedBy(history[1..], now);
    IncidentsOfTail(all, |all|, lo, now);
  }

  /** Without those rows the answer is the same, if the current state is still described the same. */
  lemma {:induction false} EndedRowsDoNotMatter(history: seq<StatusChange>, k: nat, windowMs: int, now: int)
    requires WellFormedHistory(history) && k <= |history| && windowMs > 0
    requires forall i | 0 <= i < k :: history[i].until.value < now - windowMs
    ensures Measures(history[k..], windowMs, now) == Measures(history, windowMs, now)
  {
    hide Measures, Instants, Incidents, Sorted, StartedBy;
    if k > 0 {
      var lo := now - windowMs;
      TailIsWellFormed(history, 1);
      assert history[1..][k - 1..] == history[k..];
      forall i | 0 <= i < k - 1 ensures history[1..][i].until.value < lo {
        assert history[1..][i] == history[i + 1];
      }
      EndedRowsDoNotMatter(history[1..], k - 1, windowMs, now);
      EndedRowCountsNothing(history, Covered, lo, now);
      EndedRowCountsNothing(history, Healthy, lo, now);
      EndedRowCountsNothing(history, Halted, lo, now);
      EndedRowIsNoIncident(history, lo, now);
      SameMeasures(history[1..], history, windowMs, now);
    } else {
      assert history[0..] == history;
    }
  }

  /** The newest row survives the cut, or every row that had started was cut off. */
  lemma {:induction false} NewestOfTail(history: seq<StatusChange>, k: nat, now: int)
    requires WellFormedHistory(history) && k <= |history|
    ensures Latest(history[k..], now).Some? ==> Latest(history[k..], now) == Latest(history, now)
    ensures Latest(history[k..], now).None? && Latest(history, now).Some? ==>
              exists i :: 0 <= i < k && history[i] == Latest(history, now).value
  {
    hide Latest;
    LatestHasStarted(history, now);
    if k > 0 {
      TailIsWellFormed(history, 1);
      var rest := history[1..];
      assert history == [history[0]] + rest && rest[k - 1..] == history[k..];
      LatestOfTail(history[0], rest, now);
      NewestOfTail(rest, k - 1, now);
      if Latest(history[k..], now).None? && Latest(rest, now).Some? {
        var i :| 0 <= i < k - 1 && rest[i] == Latest(rest, now).value;
        assert history[i + 1] == Latest(history, now).value;
      }
    } else {
      assert history[0..] == history;
    }
  }

  // ---------------------------------------------------------------- the theorems

  /** The single-stack reader answers every window as the whole history would. */
  lemma SingleReaderIsExact(history: seq<StatusChange>, windowMs: int, now: int)
    requires WellFormedHistory(history)
    ensures AvailabilityOf(ReadChanges(history, now - windowMs), windowMs, now) == AvailabilityOf(history, windowMs, now)
  {
    hide Measures, AvailabilityOf, WellFormedHistory;
    if windowMs > 0 {
      var k := ReadChangesIsTail(history, now - windowMs);
      EndedRowsDoNotMatter(history, k, windowMs, now);
      NewestOfTail(history, k, now);
      LatestHasStarted(history[k..], now);
      assert k > 0 ==> history[k] in history[k..];
      assert k == 0 ==> history[k..] == history;
      SameAnswer(history[k..], history, windowMs, now);
    } else {
      NoWindow(ReadChanges(history, now - windowMs), history, windowMs, now);
    }
  }

  /** A known state whose last confirmation is older than the window and yet fresh. */
  predicate FreshButOutside(newest: Option<StatusChange>, windowMs: int, now: int) {
    && newest.Some? && newest.value.status != UNKNOWN && newest.value.until.Some?
    && now - OBSERVATION_FRESHNESS_MS <= newest.value.until.value < now - windowMs
  }

  lemma NoWindow(a: seq<StatusChange>, b: seq<StatusChange>, windowMs: int, now: int)
    requires windowMs <= 0
    ensures AvailabilityOf(a, windowMs, now) == AvailabilityOf(b, windowMs, now)
  {
  }

  /** The rows that are left describe the newest row, or nothing if it was cut off. */
  lemma NewestSurvivesExactly(history: seq<StatusChange>, k: nat, from: int, now: int)
    requires WellFormedHistory(history) && k <= |history|
    requires forall i | 0 <= i < k :: history[i].until.value < from
    requires forall i | k <= i < |history| :: history[i].until.value >= from
    ensures Latest(history, now).Some? ==> Latest(history, now).value.until.Some? && Latest(history, now).value.until.value >= Latest(history, now).value.at
    ensures Latest(history[k..], now)
            == if Latest(history, now).Some? && Latest(history, now).value.until.value >= from then Latest(history, now) else None
  {
    NewestOfTail(history, k, now);
    LatestHasStarted(history, now);
    LatestHasStarted(history[k..], now);
    if Latest(history[k..], now).Some? {
      var i :| 0 <= i < |history[k..]| && history[k..][i] == Latest(history, now).value;
      assert history[k + i] == Latest(history, now).value;
    }
  }

  /**
   The batch reader agrees with it, except that it loses the current state of a stack whose
   newest row ended before the window and is still fresh.
   */
  lemma BatchReaderAgreesExactlyWhen(history: seq<StatusChange>, windowMs: int, now: int)
    requires WellFormedHistory(history)
    ensures AvailabilityOf(ConfirmedFrom(history, now - windowMs), windowMs, now)
            == AvailabilityOf(ReadChanges(history, now - windowMs), windowMs, now)
      <==>
            windowMs <= 0 || !FreshButOutside(Latest(history, now), windowMs, now)
  {
    hide Measures, AvailabilityOf, WellFormedHistory;
    SingleReaderIsExact(history, windowMs, now);
    if windowMs > 0 {
      var k := ConfirmedFromIsTail(history, now - windowMs);
      EndedRowsDoNotMatter(history, k, windowMs, now);
      SameAnswer(history[k..], history, windowMs, now);
      NewestSurvivesExactly(history, k, now - windowMs, now);
    } else {
      NoWindow(ConfirmedFrom(history, now - windowMs), history, windowMs, now);
    }
  }

  /** So for windows of at least the freshness limit the two readers never differ, */
  lemma ReadersAgreeOnLongWindows(history: seq<StatusChange>, windowMs: int, now: int)
    requires WellFormedHistory(history) && windowMs >= OBSERVATION_FRESHNESS_MS
    ensures AvailabilityOf(ConfirmedFrom(history, now - windowMs), windowMs, now)
            == AvailabilityOf(ReadChanges(history, now - windowMs), windowMs, now)
            == AvailabilityOf(history, windowMs, now)
  {
    SingleReaderIsExact(history, windowMs, now);
    BatchReaderAgreesExactlyWhen(history, windowMs, now);
  }

  /** and for every shorter window a recorder produces a history on which they do. */
  lemma ReadersDifferOnShortWindows(windowMs: int, now: int)
    requires 0 < windowMs < OBSERVATION_FRESHNESS_MS
    ensures exists events: seq<Event> | Increasing(events) ::
              var history := Run(events, 30_000).intervals;
              AvailabilityOf(ConfirmedFrom(history, now - windowMs), windowMs, now)
              != AvailabilityOf(ReadChanges(history, now - windowMs), windowMs, now)
  {
    var sample := now - windowMs - 1;
    var events := [Sample(sample, RUNNING)];
    LoneRow(sample, RUNNING, now);
    assert Increasing(events);
    hide *;
    BatchReaderAgreesExactlyWhen(Run(events, 30_000).intervals, windowMs, now);
  }

  /** A single sample leaves one row, which is the newest. */
  lemma LoneRow(at: int, status: int, now: int)
    requires at <= now
    ensures Run([Sample(at, status)], 30_000).intervals == [StatusChange(status, at, Some(at))]
    ensures WellFormedHistory(Run([Sample(at, status)], 30_000).intervals)
    ensures Latest(Run([Sample(at, status)], 30_000).intervals, now) == Some(StatusChange(status, at, Some(at)))
  {
    assert [Sample(at, status)][..0] == [];
    assert Run([], 30_000) == Timeline([], None);
    var row := StatusChange(status, at, Some(at));
    assert [] + [row] == [row] && [row][..0] == [];
    assert Latest([], now).None?;
  }

  /** Pruning changes no answer for a window up to the retention length, by either reader. */
  lemma PruningChangesNoAnswer(history: seq<StatusChange>, prunedAt: int, windowMs: int, now: int)
    requires WellFormedHistory(history) && prunedAt <= now && windowMs <= RETENTION_MS
    ensures WellFormedHistory(Pruned(history, prunedAt))
    ensures AvailabilityOf(Pruned(history, prunedAt), windowMs, now) == AvailabilityOf(history, windowMs, now)
    ensures AvailabilityOf(ReadChanges(Pruned(history, prunedAt), now - windowMs), windowMs, now)
            == AvailabilityOf(ReadChanges(history, now - windowMs), windowMs, now)
    ensures ConfirmedFrom(Pruned(history, prunedAt), now - windowMs) == ConfirmedFrom(history, now - windowMs)
  {
    hide Measures, AvailabilityOf, WellFormedHistory;
    ConfirmedFromTwice(history, prunedAt - RETENTION_MS, now - windowMs);
    var k := ConfirmedFromIsTail(history, prunedAt - RETENTION_MS);
    TailIsWellFormed(history, k);
    if windowMs > 0 {
      EndedRowsDoNotMatter(history, k, windowMs, now);
      NewestSurvivesExactly(history, k, prunedAt - RETENTION_MS, now);
      SameAnswer(history[k..], history, windowMs, now);
    } else {
      NoWindow(history[k..], history, windowMs, now);
    }
    SingleReaderIsExact(history, windowMs, now);
    SingleReaderIsExact(history[k..], windowMs, now);
  }

  /** How many instants the raw samples decide, and how many of them healthily. */
  function RawInstants(events: seq<Event>, maxGap: int, kind: Kind, lo: int, hi: int): nat
    decreases hi - lo
  {
    if hi <= lo then 0
    else RawInstants(events, maxGap, kind, lo, hi - 1) + if Counts(kind, RawStatusAt(events, maxGap, hi - 1)) then 1 else 0
  }

  lemma {:induction false} RecordedInstants(events: seq<Event>, maxGap: int, kind: Kind, lo: int, hi: int)
    requires Increasing(events) && maxGap >= 0
    ensures Instants(Run(events, maxGap).intervals, kind, lo, hi) == RawInstants(events, maxGap, kind, lo, hi)
    decreases hi - lo
  {
    if lo < hi {
      RecordedInstants(events, maxGap, kind, lo, hi - 1);
      RecordingIsPointwise(events, maxGap, hi - 1);
    }
  }

  /** How often the raw samples begin to say that attention is needed. */
  function RawRises(events: seq<Event>, maxGap: int, lo: int, hi: int): nat
    decreases hi - lo
  {
    if hi <= lo then 0
    else RawRises(events, maxGap, lo, hi - 1)
         + if RawStatusAt(events, maxGap, hi - 1) == ATTENTION && !(hi - 1 > lo && RawStatusAt(events, maxGap, hi - 2) == ATTENTION) then 1 else 0
  }

  /** The newest sample, if it is fresh, and since when samples close to each other have said so. */
  function RawCurrent(events: seq<Event>, maxGap: int, now: int): Option<Current> {
    match LastSample(events)
    case None => None
    case Some(last) =>
      if now - last.at > OBSERVATION_FRESHNESS_MS then None
      else Some(Current(last.status, if last.status == UNKNOWN then None else Some(now - StretchStart(events, maxGap))))
  }

  /** The whole answer from the raw samples, without any interval. */
  function RawAnswer(events: seq<Event>, maxGap: int, windowMs: int, now: int): Availability {
    if windowMs <= 0 then Answer(0, 0, 0, 0, windowMs, None)
    else
      var lo := now - windowMs;
      Answer(RawInstants(events, maxGap, Covered, lo, now), RawInstants(events, maxGap, Healthy, lo, now),
             RawInstants(events, maxGap, Halted, lo, now), RawRises(events, maxGap, lo, now), windowMs, RawCurrent(events, maxGap, now))
  }

  lemma {:induction false} RecordedRises(events: seq<Event>, maxGap: int, lo: int, hi: int)
    requires Increasing(events) && maxGap >= 0
    ensures Rises(Run(events, maxGap).intervals, lo, hi) == RawRises(events, maxGap, lo, hi)
    decreases hi - lo
  {
    if lo < hi {
      RecordedRises(events, maxGap, lo, hi - 1);
      RecordingIsPointwise(events, maxGap, hi - 1);
      RecordingIsPointwise(events, maxGap, hi - 2);
    }
  }

  /** In recorded intervals no alert goes on across an entry that took no time. */
  lemma NothingResumes(history: seq<StatusChange>, i: nat, lo: int, now: int)
    requires WellFormedHistory(history) && i < |history|
    ensures !Resumes(history, i, lo, now)
  {
    var start := Start(history, i, lo);
    if start > lo {
      assert history[..|history|] == history;
      LatestInSorted(history, |history|, i - 1, start - 1);
    }
  }

  lemma {:induction false} NoResumptions(history: seq<StatusChange>, n: nat, lo: int, now: int)
    requires WellFormedHistory(history) && n <= |history|
    ensures Resumptions(history, n, lo, now) == 0
  {
    if n > 0 {
      NoResumptions(history, n - 1, lo, now);
      NothingResumes(history, n - 1, lo, now);
    }
  }

  lemma {:induction false} AllStarted(history: seq<StatusChange>, now: int)
    requires forall c | c in history :: c.at <= now
    ensures StartedBy(history, now) == history
  {
    if |history| > 0 {
      AllStarted(history[..|history| - 1], now);
      assert history[|history| - 1] in history;
    }
  }

  /** So the incidents of recorded intervals are exactly the beginnings of alerts. */
  lemma RecordedIncidents(history: seq<StatusChange>, lo: int, now: int)
    requires WellFormedHistory(history) && lo <= now && forall c | c in history :: c.at <= now
    ensures var sorted := Sorted(StartedBy(history, now)); Incidents(sorted, |sorted|, lo, now) == Rises(history, lo, now)
  {
    OrderedRowsStay(history, now);
    AllStarted(history, now);
    IncidentsAreRises(history, |history|, lo, now);
    NoResumptions(history, |history|, lo, now);
  }

  /** Nothing recorded starts after a time no sample lies after. */
  lemma RecordedByNow(events: seq<Event>, maxGap: int, now: int)
    requires Increasing(events) && AllBefore(events, now + 1)
    ensures var history := Run(events, maxGap).intervals;
            WellFormedHistory(history) && SortedByAt(history) && forall c | c in history :: c.at <= now
  {
    RunIsWellFormed(events, maxGap);
    assert Before(Run(events, maxGap), now + 1);
    hide Run;
  }

  /** The current state is that of the newest sample. */
  lemma RecordedCurrent(events: seq<Event>, maxGap: int, now: int)
    requires Increasing(events) && AllBefore(events, now + 1)
    ensures DescribeCurrent(Latest(Run(events, maxGap).intervals, now), now) == RawCurrent(events, maxGap, now)
  {
    LatestOfRun(events, maxGap, now);
    LastIsNewest(events, maxGap);
    hide Run, Latest, LastSample, StretchStart;
  }

  lemma LatestOfRun(events: seq<Event>, maxGap: int, now: int)
    requires Increasing(events) && AllBefore(events, now + 1)
    ensures Latest(Run(events, maxGap).intervals, now)
            == if LastSample(events).None? then None
               else Some(StatusChange(LastSample(events).value.status, StretchStart(events, maxGap), Some(LastSample(events).value.at)))
  {
    hide *;
    RecordedByNow(events, maxGap, now);
    NewestIsLastStretch(events, maxGap);
    LastIsLatest(Run(events, maxGap).intervals, now);
  }

  lemma {:induction false} LastIsNewest(events: seq<Event>, maxGap: int)
    requires Increasing(events)
    ensures LastSample(events).Some? ==> StretchStart(events, maxGap) <= LastSample(events).value.at
  {
    if |events| > 0 {
      LastIsNewest(events[..|events| - 1], maxGap);
    }
  }

  /** Whatever was sampled so far, the recorded intervals answer exactly as the raw samples. */
  lemma AnswerIsOfTheSamples(events: seq<Event>, maxGap: int, windowMs: int, now: int)
    requires Increasing(events) && maxGap >= 0 && AllBefore(events, now + 1)
    ensures AvailabilityOf(Run(events, maxGap).intervals, windowMs, now) == RawAnswer(events, maxGap, windowMs, now)
  {
    hide Instants, Incidents, Rises, Sorted, StartedBy, Latest, DescribeCurrent, RawInstants, RawRises, RawCurrent, Run, Answer;
    hide WellFormedHistory, SortedByAt, Increasing, AllBefore;
    if windowMs > 0 {
      var lo := now - windowMs;
      RecordedByNow(events, maxGap, now);
      RecordedInstants(events, maxGap, Covered, lo, now);
      RecordedInstants(events, maxGap, Healthy, lo, now);
      RecordedInstants(events, maxGap, Halted, lo, now);
      RecordedIncidents(Run(events, maxGap).intervals, lo, now);
      RecordedRises(events, maxGap, lo, now);
      RecordedCurrent(events, maxGap, now);
    }
  }

  /** Field by field, what the answer from the raw samples says. */
  lemma RawAnswerSays(events: seq<Event>, maxGap: int, windowMs: int, now: int)
    ensures RawAnswer(events, maxGap, windowMs, now).windowMs == windowMs
    ensures windowMs <= 0 ==> RawAnswer(events, maxGap, windowMs, now) == Availability(NoData, None, 0, 0, windowMs, None, UNKNOWN)
    ensures windowMs > 0 ==>
              var answer := RawAnswer(events, maxGap, windowMs, now);
              var covered := RawInstants(events, maxGap, Covered, now - windowMs, now);
              var healthy := RawInstants(events, maxGap, Healthy, now - windowMs, now);
              var halted := RawInstants(events, maxGap, Halted, now - windowMs, now);
              var last := LastSample(events);
              var recent := last.Some? && now - last.value.at <= OBSERVATION_FRESHNESS_MS;
              && answer.coveredMs == covered && answer.incidents == RawRises(events, maxGap, now - windowMs, now)
              && (answer.verdict == Stopped <==> covered > 0 && halted == covered)
              && (answer.ratio.Some? <==> covered >= MIN_COVERAGE_MS && halted < covered)
              && (answer.ratio.Some? ==> answer.ratio.value == healthy as real / covered as real)
              && (answer.verdict == Clean <==> answer.ratio.Some? && healthy == covered)
              && (answer.verdict == Degraded <==> answer.ratio.Some? && healthy < covered)
              && answer.currentStatus == (if recent then last.value.status else UNKNOWN)
              && answer.currentForMs == if recent && last.value.status != UNKNOWN then Some(now - StretchStart(events, maxGap)) else None
  {
    RawKindsAreParts(events, maxGap, now - windowMs, now);
    hide RawInstants, RawRises, LastSample, StretchStart;
  }

  lemma {:induction false} RawKindsAreParts(events: seq<Event>, maxGap: int, lo: int, hi: int)
    ensures RawInstants(events, maxGap, Healthy, lo, hi) <= RawInstants(events, maxGap, Covered, lo, hi)
    ensures RawInstants(events, maxGap, Halted, lo, hi) <= RawInstants(events, maxGap, Covered, lo, hi)
    decreases hi - lo
  {
    if lo < hi {
      RawKindsAreParts(events, maxGap, lo, hi - 1);
    }
  }

  /**
   From the samples to the answer: whatever was sampled, the time an answer calls covered is
   the number of instants between close samples of a known status, its ratio is the healthy
   share of them, and it says stopped exactly when all of them were. Asked about a time no
   sample lies after, its incidents and current state are those of the samples, too.
   */
  lemma AnswerCountsTheSamples(events: seq<Event>, maxGap: int, windowMs: int, now: int)
    requires Increasing(events) && maxGap >= 0 && windowMs > 0
    ensures var answer := AvailabilityOf(ReadChanges(Run(events, maxGap).intervals, now - windowMs), windowMs, now);
            var covered := RawInstants(events, maxGap, Covered, now - windowMs, now);
            var healthy := RawInstants(events, maxGap, Healthy, now - windowMs, now);
            var halted := RawInstants(events, maxGap, Halted, now - windowMs, now);
            && answer.coveredMs == covered <= windowMs
            && (answer.verdict == Stopped <==> covered > 0 && halted == covered)
            && (answer.ratio.Some? <==> covered >= MIN_COVERAGE_MS && halted < covered)
            && (answer.ratio.Some? ==> answer.ratio.value == healthy as real / covered as real)
            && (answer.verdict == Clean <==> answer.ratio.Some? && healthy == covered)
            && (answer.verdict == Degraded <==> answer.ratio.Some? && healthy < covered)
            && (AllBefore(events, now + 1) ==>
                  var last := LastSample(events);
                  var recent := last.Some? && now - last.value.at <= OBSERVATION_FRESHNESS_MS;
                  && answer == RawAnswer(events, maxGap, windowMs, now)
                  && answer.incidents == RawRises(events, maxGap, now - windowMs, now)
                  && answer.currentStatus == (if recent then last.value.status else UNKNOWN)
                  && answer.currentForMs == if recent && last.value.status != UNKNOWN then Some(now - StretchStart(events, maxGap)) else None)
  {
    hide *;
    var history := Run(events, maxGap).intervals;
    RunIsWellFormed(events, maxGap);
    SingleReaderIsExact(history, windowMs, now);
    RecordedInstants(events, maxGap, Covered, now - windowMs, now);
    RecordedInstants(events, maxGap, Healthy, now - windowMs, now);
    RecordedInstants(events, maxGap, Halted, now - windowMs, now);
    AnswerSays(history, windowMs, now);
    if AllBefore(events, now + 1) {
      AnswerIsOfTheSamples(events, maxGap, windowMs, now);
      RawAnswerSays(events, maxGap, windowMs, now);
    }
  }
}
