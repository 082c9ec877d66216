/**
 Availability of a stack or a container over a window, from recorded status intervals.

 The reference is pointwise: an instant counts for the latest change that had started by
 then, if that change is confirmed beyond it. The sweep over sorted intervals must agree.
 */
module Availability {
  import opened Results

  const UNKNOWN := 0
  const CREATED_FILE := 1
  const CREATED_STACK := 2
  const RUNNING := 3
  const EXITED := 4
  const ATTENTION := 5

  const MIN_COVERAGE_MS := 30 * 60_000
  const OBSERVATION_FRESHNESS_MS := 90_000

  /** A status interval; `until` is the last confirmed sample and missing on legacy records. */
  datatype StatusChange = StatusChange(status: int, at: int, until: Option<int>)

  datatype Verdict = NoData | Clean | Degraded | Stopped

  datatype Availability = Availability(
    verdict: Verdict, ratio: Option<real>, incidents: nat, coveredMs: nat, windowMs: int,
    currentForMs: Option<int>, currentStatus: int)

  datatype Measured = Measured(coveredMs: nat, healthyMs: nat, stoppedMs: nat, incidents: nat)

  // ---------------------------------------------------------------- the pointwise reference

  /** Of two changes that had both started, the later one in time, then in the list. */
  function Later(first: Option<StatusChange>, second: StatusChange, t: int): Option<StatusChange> {
    if second.at <= t && (first.None? || first.value.at <= second.at) then Some(second) else first
  }

  /** The change that says what held at an instant. */
  function Latest(changes: seq<StatusChange>, t: int): Option<StatusChange> {
    if |changes| == 0 then None else Later(Latest(changes[..|changes| - 1], t), changes[|changes| - 1], t)
  }

  /** What is known of an instant: the status of the latest change, if it is confirmed beyond it. */
  function StatusAt(changes: seq<StatusChange>, t: int): int {
    match Latest(changes, t)
    case None => UNKNOWN
    case Some(c) => if c.until.Some? && t < c.until.value then c.status else UNKNOWN
  }

  datatype Kind = Covered | Healthy | Halted | Alert

  predicate IsHealthyStatus(status: int) {
    status == RUNNING
  }

  predicate Counts(kind: Kind, status: int) {
    match kind
    case Covered => status != UNKNOWN
    case Healthy => IsHealthyStatus(status)
    case Halted => status in {EXITED, CREATED_FILE, CREATED_STACK}
    case Alert => status == ATTENTION
  }

  /** How many instants from `lo` to before `hi` are of a kind. */
  function Instants(changes: seq<StatusChange>, kind: Kind, lo: int, hi: int): nat
    decreases hi - lo
  {
    if hi <= lo then 0
    else Instants(changes, kind, lo, hi - 1) + if Counts(kind, StatusAt(changes, hi - 1)) then 1 else 0
  }

  // ---------------------------------------------------------------- sorting

  predicate SortedByAt(changes: seq<StatusChange>) {
    forall i, j | 0 <= i < j < |changes| :: changes[i].at <= changes[j].at
  }

  /** Insert after every entry that started no later, which is what a stable sort does. */
  function Insert(sorted: seq<StatusChange>, change: StatusChange): (r: seq<StatusChange>)
    ensures |r| == |sorted| + 1
  {
    if |sorted| == 0 then [change]
    else if sorted[|sorted| - 1].at <= change.at then sorted + [change]
    else Insert(sorted[..|sorted| - 1], change) + [sorted[|sorted| - 1]]
  }

  function Sorted(changes: seq<StatusChange>): (r: seq<StatusChange>)
    ensures |r| == |changes|
  {
    if |changes| == 0 then [] else Insert(Sorted(changes[..|changes| - 1]), changes[|changes| - 1])
  }

  lemma {:induction false} InsertPermutes(sorted: seq<StatusChange>, change: StatusChange)
    ensures multiset(Insert(sorted, change)) == multiset(sorted) + multiset{change}
  {
    if |sorted| > 0 && sorted[|sorted| - 1].at > change.at {
      InsertPermutes(sorted[..|sorted| - 1], change);
      assert sorted == sorted[..|sorted| - 1] + [sorted[|sorted| - 1]];
    }
  }

  lemma SortedAppend(front: seq<StatusChange>, last: StatusChange)
    requires SortedByAt(front) && (|front| > 0 ==> front[|front| - 1].at <= last.at)
    ensures SortedByAt(front + [last])
  {
  }

  lemma {:induction false} InsertSorts(sorted: seq<StatusChange>, change: StatusChange)
    requires SortedByAt(sorted)
    ensures SortedByAt(Insert(sorted, change))
    ensures var last := Insert(sorted, change)[|sorted|]; last == change || (|sorted| > 0 && last == sorted[|sorted| - 1])
  {
    if |sorted| > 0 {
      var front, last := sorted[..|sorted| - 1], sorted[|sorted| - 1];
      if last.at > change.at {
        InsertSorts(front, change);
        SortedAppend(Insert(front, change), last);
      } else {
        SortedAppend(sorted, change);
      }
    }
  }

  /** Sorting orders the changes by start and keeps each of them. */
  lemma {:induction false} SortedIsSorted(changes: seq<StatusChange>)
    ensures SortedByAt(Sorted(changes)) && multiset(Sorted(changes)) == multiset(changes)
  {
    if |changes| > 0 {
      var front, last := changes[..|changes| - 1], changes[|changes| - 1];
      SortedIsSorted(front);
      assert changes == front + [last];
      InsertSorts(Sorted(front), last);
      InsertPermutes(Sorted(front), last);
    }
  }

  function StartedBy(changes: seq<StatusChange>, now: int): (r: seq<StatusChange>)
    ensures forall c | c in r :: c.at <= now
  {
    if |changes| == 0 then []
    else StartedBy(changes[..|changes| - 1], now) + if changes[|changes| - 1].at <= now then [changes[|changes| - 1]] else []
  }

  lemma {:induction false} LatestHasStarted(changes: seq<StatusChange>, t: int)
    ensures Latest(changes, t).Some? ==> Latest(changes, t).value in changes && Latest(changes, t).value.at <= t
    ensures Latest(changes, t).None? ==> forall c | c in changes :: c.at > t
    ensures Latest(changes, t).Some? ==> forall c | c in changes && c.at <= t :: c.at <= Latest(changes, t).value.at
  {
    if |changes| > 0 {
      LatestHasStarted(changes[..|changes| - 1], t);
      assert forall c :: c in changes <==> c in changes[..|changes| - 1] || c == changes[|changes| - 1];
    }
  }

  lemma {:induction false} InsertKeepsLatest(sorted: seq<StatusChange>, change: StatusChange, t: int)
    requires SortedByAt(sorted)
    ensures Latest(Insert(sorted, change), t) == Later(Latest(sorted, t), change, t)
  {
    if |sorted| > 0 {
      var front, last := sorted[..|sorted| - 1], sorted[|sorted| - 1];
      LatestHasStarted(front, t);
      LatestHasStarted(sorted, t);
      if last.at <= change.at {
        assert (sorted + [change])[..|sorted|] == sorted;
      } else {
        InsertKeepsLatest(front, change, t);
        assert (Insert(front, change) + [last])[..|sorted|] == Insert(front, change);
      }
    } else {
      assert [change][..0] == [];
    }
  }

  /** Sorting and dropping what starts later changes no instant up to now. */
  lemma {:induction false} SortingKeepsLatest(changes: seq<StatusChange>, now: int, t: int)
    requires t <= now
    ensures Latest(Sorted(StartedBy(changes, now)), t) == Latest(changes, t)
  {
    if |changes| > 0 {
      var front, last := changes[..|changes| - 1], changes[|changes| - 1];
      SortingKeepsLatest(front, now, t);
      if last.at <= now {
        assert (StartedBy(front, now) + [last])[..|StartedBy(front, now)|] == StartedBy(front, now);
        SortedIsSorted(StartedBy(front, now));
        InsertKeepsLatest(Sorted(StartedBy(front, now)), last, t);
      } else {
        assert StartedBy(changes, now) == StartedBy(front, now);
      }
    }
  }

  lemma {:induction false} SameInstants(a: seq<StatusChange>, b: seq<StatusChange>, kind: Kind, lo: int, hi: int)
    requires forall t | lo <= t < hi :: StatusAt(a, t) == StatusAt(b, t)
    ensures Instants(a, kind, lo, hi) == Instants(b, kind, lo, hi)
    decreases hi - lo
  {
    if lo < hi {
      SameInstants(a, b, kind, lo, hi - 1);
    }
  }

  lemma {:induction false} InstantsAdd(changes: seq<StatusChange>, kind: Kind, lo: int, mid: int, hi: int)
    requires lo <= mid <= hi
    ensures Instants(changes, kind, lo, hi) == Instants(changes, kind, lo, mid) + Instants(changes, kind, mid, hi)
    decreases hi - mid
  {
    if mid < hi {
      InstantsAdd(changes, kind, lo, mid, hi - 1);
    }
  }

  /** A stretch in which an instant counts exactly up to a point counts that many. */
  lemma {:induction false} InstantsOfStretch(changes: seq<StatusChange>, kind: Kind, lo: int, end: int, hi: int)
    requires lo <= end <= hi
    requires forall t | lo <= t < hi :: Counts(kind, StatusAt(changes, t)) <==> t < end
    ensures Instants(changes, kind, lo, hi) == end - lo
    decreases hi - lo
  {
    if lo < hi {
      InstantsOfStretch(changes, kind, lo, if end < hi then end else hi - 1, hi - 1);
    }
  }

  // ---------------------------------------------------------------- the sweep

  function Max(a: int, b: int): int {
    if a >= b then a else b
  }

  function Min(a: int, b: int): int {
    if a <= b then a else b
  }

  /** Where an entry starts to count inside the window. */
  function Start(sorted: seq<StatusChange>, i: nat, lo: int): int
    requires i < |sorted|
  {
    Max(sorted[i].at, lo)
  }

  /** Where an entry stops to count: at its last confirmation, the next entry or now. */
  function End(sorted: seq<StatusChange>, i: nat, now: int): int
    requires i < |sorted|
  {
    Min(if sorted[i].until.Some? then sorted[i].until.value else sorted[i].at,
        Min(if i + 1 < |sorted| then sorted[i + 1].at else now, now))
  }

  /** An alert that lasted for some time inside the window. */
  predicate AlertEntry(sorted: seq<StatusChange>, i: nat, lo: int, now: int)
    requires i < |sorted|
  {
    sorted[i].status == ATTENTION && Start(sorted, i, lo) < End(sorted, i, now)
  }

  /** The entry carries on an alert that ended exactly where it starts. */
  predicate Continues(sorted: seq<StatusChange>, i: nat, lo: int, now: int)
    requires i < |sorted|
  {
    i > 0 && AlertEntry(sorted, i - 1, lo, now) && End(sorted, i - 1, now) == Start(sorted, i, lo)
  }

  /** Alerts among the first n entries that do not carry on the one right before them. */
  function Incidents(sorted: seq<StatusChange>, n: nat, lo: int, now: int): nat
    requires n <= |sorted|
  {
    if n == 0 then 0
    else Incidents(sorted, n - 1, lo, now)
         + if AlertEntry(sorted, n - 1, lo, now) && !Continues(sorted, n - 1, lo, now) then 1 else 0
  }

  /** The instant up to which the first i entries decide everything. */
  function Boundary(sorted: seq<StatusChange>, i: nat, lo: int, now: int): int
    requires i <= |sorted|
  {
    Max(lo, Min(now, if i < |sorted| then sorted[i].at else now))
  }

  lemma {:induction false} LatestInSorted(sorted: seq<StatusChange>, n: nat, i: int, t: int)
    requires SortedByAt(sorted) && n <= |sorted| && -1 <= i < n
    requires i >= 0 ==> sorted[i].at <= t
    requires i + 1 < n ==> t < sorted[i + 1].at
    ensures Latest(sorted[..n], t) == if i >= 0 then Some(sorted[i]) else None
  {
    if n > 0 {
      assert sorted[..n][..n - 1] == sorted[..n - 1];
      if i < n - 1 {
        LatestInSorted(sorted, n - 1, i, t);
      } else if i > 0 {
        LatestHasStarted(sorted[..n - 1], t);
        assert Latest(sorted[..n - 1], t).Some? ==> Latest(sorted[..n - 1], t).value.at <= sorted[i].at;
      } else {
        assert sorted[..0] == [];
      }
    }
  }

  /** Before the first entry nothing is known. */
  lemma NothingBeforeFirst(sorted: seq<StatusChange>, kind: Kind, lo: int, now: int)
    requires SortedByAt(sorted) && lo <= now
    ensures Instants(sorted, kind, lo, Boundary(sorted, 0, lo, now)) == 0
  {
    var b := Boundary(sorted, 0, lo, now);
    forall t | lo <= t < b ensures StatusAt(sorted, t) == UNKNOWN {
      LatestInSorted(sorted, |sorted|, -1, t);
      assert sorted[..|sorted|] == sorted;
    }
    InstantsOfStretch(sorted, kind, lo, lo, b);
  }

  /** One entry decides the instants between its start and the next entry's. */
  lemma OneEntry(sorted: seq<StatusChange>, kind: Kind, i: nat, lo: int, now: int)
    requires SortedByAt(sorted) && i < |sorted| && lo <= now
    ensures var s, e := Start(sorted, i, lo), End(sorted, i, now);
            Instants(sorted, kind, lo, Boundary(sorted, i + 1, lo, now))
            == Instants(sorted, kind, lo, Boundary(sorted, i, lo, now)) + if Counts(kind, sorted[i].status) && s < e then e - s else 0
  {
    var b, c := Boundary(sorted, i, lo, now), Boundary(sorted, i + 1, lo, now);
    InstantsAdd(sorted, kind, lo, b, c);
    var end := if Counts(kind, sorted[i].status) then Max(b, Min(c, if sorted[i].until.Some? then sorted[i].until.value else sorted[i].at)) else b;
    forall t | b <= t < c ensures Counts(kind, StatusAt(sorted, t)) <==> t < end {
      LatestInSorted(sorted, |sorted|, i, t);
      assert sorted[..|sorted|] == sorted;
    }
    InstantsOfStretch(sorted, kind, b, end, c);
  }

  /** The sweep over sorted changes: each is counted once, cut to the window and to where the next begins. */
  method Measure(sorted: seq<StatusChange>, windowMs: int, now: int) returns (measured: Measured)
    requires SortedByAt(sorted) && windowMs > 0
    ensures measured.coveredMs == Instants(sorted, Covered, now - windowMs, now)
    ensures measured.healthyMs == Instants(sorted, Healthy, now - windowMs, now)
    ensures measured.stoppedMs == Instants(sorted, Halted, now - windowMs, now)
    ensures measured.incidents == Incidents(sorted, |sorted|, now - windowMs, now)
  {
    var coveredMs, healthyMs, stoppedMs, incidents := 0, 0, 0, 0;
    ghost var lo := now - windowMs;
    var lastEnd: Option<int> := None;
    var insideIncident := false;
    NothingBeforeFirst(sorted, Covered, lo, now);
    NothingBeforeFirst(sorted, Healthy, lo, now);
    NothingBeforeFirst(sorted, Halted, lo, now);
    var index := 0;
    while index < |sorted|
      invariant 0 <= index <= |sorted|
      invariant coveredMs == Instants(sorted, Covered, lo, Boundary(sorted, index, lo, now))
      invariant healthyMs == Instants(sorted, Healthy, lo, Boundary(sorted, index, lo, now))
      invariant stoppedMs == Instants(sorted, Halted, lo, Boundary(sorted, index, lo, now))
      invariant incidents == Incidents(sorted, index, lo, now)
      invariant insideIncident <==> index > 0 && AlertEntry(sorted, index - 1, lo, now)
      invariant insideIncident ==> lastEnd == Some(End(sorted, index - 1, now))
    {
      OneEntry(sorted, Covered, index, lo, now);
      OneEntry(sorted, Healthy, index, lo, now);
      OneEntry(sorted, Halted, index, lo, now);
      var change := sorted[index];
      var start := Max(change.at, now - windowMs);
      var end := Min(if change.until.Some? then change.until.value else change.at,
                     Min(if index + 1 < |sorted| then sorted[index + 1].at else now, now));
      if change.status == UNKNOWN || end <= start {
        insideIncident := false;
      } else {
        var duration := end - start;
        coveredMs := coveredMs + duration;
        if IsHealthyStatus(change.status) {
          healthyMs := healthyMs + duration;
        }
        if change.status in {EXITED, CREATED_FILE, CREATED_STACK} {
          stoppedMs := stoppedMs + duration;
        }
        var degraded := change.status == ATTENTION;
        if degraded && (!insideIncident || lastEnd.None? || start > lastEnd.value) {
          incidents := incidents + 1;
        }
        insideIncident := degraded;
        lastEnd := Some(end);
      }
      index := index + 1;
    }
    measured := Measured(coveredMs, healthyMs, stoppedMs, incidents);
  }

  datatype Current = Current(status: int, forMs: Option<int>)

  /** What the deciding change says of now; nothing if it was confirmed too long ago. */
  function DescribeCurrent(last: Option<StatusChange>, now: int): Option<Current> {
    if last.None? || last.value.until.None? || last.value.until.value < last.value.at
       || now - last.value.until.value > OBSERVATION_FRESHNESS_MS then None
    else Some(Current(last.value.status, if last.value.status == UNKNOWN then None else Some(now - last.value.at)))
  }

  lemma LastIsLatest(sorted: seq<StatusChange>, now: int)
    requires SortedByAt(sorted) && forall c | c in sorted :: c.at <= now
    ensures Latest(sorted, now) == if |sorted| > 0 then Some(sorted[|sorted| - 1]) else None
  {
    if |sorted| > 0 {
      LatestInSorted(sorted, |sorted|, |sorted| - 1, now);
      assert sorted[..|sorted|] == sorted;
    }
  }

  /** Healthy and stopped time are disjoint parts of the covered time, which fits the window. */
  lemma {:induction false} KindsAreDisjoint(changes: seq<StatusChange>, lo: int, hi: int)
    requires lo <= hi
    ensures Instants(changes, Healthy, lo, hi) + Instants(changes, Halted, lo, hi) + Instants(changes, Alert, lo, hi)
            <= Instants(changes, Covered, lo, hi) <= hi - lo
    decreases hi - lo
  {
    if lo < hi {
      KindsAreDisjoint(changes, lo, hi - 1);
    }
  }

  /** Availability inside explicitly confirmed intervals; gaps and legacy timestamps carry no duration. */
  method ComputeAvailability(changes: seq<StatusChange>, windowMs: int, now: int) returns (result: Availability)
    ensures result == AvailabilityOf(changes, windowMs, now)
    ensures result.windowMs == windowMs
    ensures windowMs <= 0 ==> result == Availability(NoData, None, 0, 0, windowMs, None, UNKNOWN)
    ensures windowMs > 0 ==>
              var lo, sorted := now - windowMs, Sorted(StartedBy(changes, now));
              var covered, healthy, halted := Instants(changes, Covered, lo, now), Instants(changes, Healthy, lo, now), Instants(changes, Halted, lo, now);
              var last := Latest(changes, now);
              var recent := last.Some? && last.value.until.Some? && last.value.at <= last.value.until.value
                           && now - last.value.until.value <= OBSERVATION_FRESHNESS_MS;
              && result.coveredMs == covered <= windowMs
              && result.incidents == |set i | 0 <= i < |sorted| && AlertEntry(sorted, i, lo, now) && !Continues(sorted, i, lo, now)|
              && result.incidents == Rises(sorted, lo, now) + Resumptions(sorted, |sorted|, lo, now)
              && (result.verdict == Stopped <==> covered > 0 && halted == covered)
              && (result.ratio.Some? <==> covered >= MIN_COVERAGE_MS && halted < covered)
              && (result.ratio.Some? ==> result.ratio.value == healthy as real / covered as real)
              && (result.verdict == Clean <==> result.ratio.Some? && healthy == covered)
              && (result.verdict == Degraded <==> result.ratio.Some? && healthy < covered)
              && result.currentStatus == (if recent then last.value.status else UNKNOWN)
              && result.currentForMs == if recent && last.value.status != UNKNOWN then Some(now - last.value.at) else None
  {
    AnswerSays(changes, windowMs, now);
    result := Availability(NoData, None, 0, 0, windowMs, None, UNKNOWN);
    if windowMs <= 0 {
      return;
    }
    var sorted := Sorted(StartedBy(changes, now));
    SweepIsPointwise(changes, windowMs, now);
    var current := DescribeCurrent(if |sorted| > 0 then Some(sorted[|sorted| - 1]) else None, now);
    if current.Some? {
      result := result.(currentStatus := current.value.status, currentForMs := current.value.forMs);
    }
    var measured := Measure(sorted, windowMs, now);
    result := result.(incidents := measured.incidents, coveredMs := measured.coveredMs);
    if measured.coveredMs == 0 {
      return;
    }
    if measured.stoppedMs == measured.coveredMs {
      result := result.(verdict := Stopped);
    } else if measured.coveredMs >= MIN_COVERAGE_MS {
      result := result.(ratio := Some(measured.healthyMs as real / measured.coveredMs as real),
                        verdict := if measured.healthyMs == measured.coveredMs then Clean else Degraded);
    }
  }

  /** What an answer says of the counted time, the incidents and the current state. */
  function Answer(covered: nat, healthy: nat, halted: nat, incidents: nat, windowMs: int, current: Option<Current>): Availability {
    var decided := covered > 0 && halted < covered && covered >= MIN_COVERAGE_MS;
    Availability(
      if covered == 0 then NoData else if halted == covered then Stopped
      else if !decided then NoData else if healthy == covered then Clean else Degraded,
      if decided then Some(healthy as real / covered as real) else None,
      incidents, covered, windowMs,
      if current.Some? then current.value.forMs else None,
      if current.Some? then current.value.status else UNKNOWN)
  }

  /** The answer by counting instants; only the incidents are counted on the ordered entries. */
  function AvailabilityOf(changes: seq<StatusChange>, windowMs: int, now: int): Availability {
    if windowMs <= 0 then Answer(0, 0, 0, 0, windowMs, None)
    else
      var lo, sorted := now - windowMs, Sorted(StartedBy(changes, now));
      Answer(Instants(changes, Covered, lo, now), Instants(changes, Healthy, lo, now), Instants(changes, Halted, lo, now),
             Incidents(sorted, |sorted|, lo, now), windowMs, DescribeCurrent(Latest(changes, now), now))
  }

  /** Field by field, what an answer says of the counted instants, the alert entries and the deciding change. */
  lemma AnswerSays(changes: seq<StatusChange>, windowMs: int, now: int)
    ensures AvailabilityOf(changes, windowMs, now).windowMs == windowMs
    ensures windowMs <= 0 ==> AvailabilityOf(changes, windowMs, now) == Availability(NoData, None, 0, 0, windowMs, None, UNKNOWN)
    ensures windowMs > 0 ==>
              var answer, lo, sorted := AvailabilityOf(changes, windowMs, now), now - windowMs, Sorted(StartedBy(changes, now));
              var covered, healthy, halted := Instants(changes, Covered, lo, now), Instants(changes, Healthy, lo, now), Instants(changes, Halted, lo, now);
              var last := Latest(changes, now);
              var recent := last.Some? && last.value.until.Some? && last.value.at <= last.value.until.value
                           && now - last.value.until.value <= OBSERVATION_FRESHNESS_MS;
              && answer.coveredMs == covered <= windowMs
              && answer.incidents == |set i | 0 <= i < |sorted| && AlertEntry(sorted, i, lo, now) && !Continues(sorted, i, lo, now)|
              && answer.incidents == Rises(sorted, lo, now) + Resumptions(sorted, |sorted|, lo, now)
              && (answer.verdict == Stopped <==> covered > 0 && halted == covered)
              && (answer.ratio.Some? <==> covered >= MIN_COVERAGE_MS && halted < covered)
              && (answer.ratio.Some? ==> answer.ratio.value == healthy as real / covered as real)
              && (answer.verdict == Clean <==> answer.ratio.Some? && healthy == covered)
              && (answer.verdict == Degraded <==> answer.ratio.Some? && healthy < covered)
              && answer.currentStatus == (if recent then last.value.status else UNKNOWN)
              && answer.currentForMs == if recent && last.value.status != UNKNOWN then Some(now - last.value.at) else None
  {
    hide Instants, Incidents, Sorted, StartedBy, Latest, AlertEntry, Continues, Rises, Resumptions, SortedByAt;
    if windowMs > 0 {
      var sorted, lo := Sorted(StartedBy(changes, now)), now - windowMs;
      KindsAreDisjoint(changes, lo, now);
      SortedHaveStarted(changes, now);
      IncidentsAreCounted(sorted, |sorted|, lo, now);
      IncidentsAreRises(sorted, |sorted|, lo, now);
    }
  }

  /** The incidents are as many as the alert entries that carry on none. */
  lemma {:induction false} IncidentsAreCounted(sorted: seq<StatusChange>, n: nat, lo: int, now: int)
    requires n <= |sorted|
    ensures Incidents(sorted, n, lo, now) == |set i | 0 <= i < n && AlertEntry(sorted, i, lo, now) && !Continues(sorted, i, lo, now)|
  {
    hide AlertEntry, Continues;
    var after := set i | 0 <= i < n && AlertEntry(sorted, i, lo, now) && !Continues(sorted, i, lo, now);
    if n == 0 {
      assert after == {};
    } else {
      IncidentsAreCounted(sorted, n - 1, lo, now);
      var before := set i | 0 <= i < n - 1 && AlertEntry(sorted, i, lo, now) && !Continues(sorted, i, lo, now);
      assert after == before + if AlertEntry(sorted, n - 1, lo, now) && !Continues(sorted, n - 1, lo, now) then {n - 1} else {};
    }
  }

  /** Of the known statuses each is healthy, halted or an alert, and only one of them. */
  lemma KnownStatusesArePartitioned(status: int)
    ensures status in {CREATED_FILE, CREATED_STACK, RUNNING, EXITED, ATTENTION} ==>
              && Counts(Covered, status)
              && (Counts(Healthy, status) || Counts(Halted, status) || Counts(Alert, status))
    ensures Counts(Healthy, status) || Counts(Halted, status) || Counts(Alert, status) ==> Counts(Covered, status)
    ensures !(Counts(Healthy, status) && Counts(Halted, status)) && !(Counts(Healthy, status) && Counts(Alert, status))
            && !(Counts(Halted, status) && Counts(Alert, status))
    ensures !Counts(Covered, UNKNOWN) && Counts(Healthy, RUNNING) && Counts(Alert, ATTENTION)
    ensures Counts(Halted, EXITED) && Counts(Halted, CREATED_FILE) && Counts(Halted, CREATED_STACK)
  {
  }

  /** Sorted or not, every instant up to now has the same status. */
  lemma SortedCountsTheSame(changes: seq<StatusChange>, kind: Kind, lo: int, now: int)
    ensures Instants(Sorted(StartedBy(changes, now)), kind, lo, now) == Instants(changes, kind, lo, now)
  {
    var sorted := Sorted(StartedBy(changes, now));
    forall t | lo <= t < now ensures StatusAt(sorted, t) == StatusAt(changes, t) {
      SortingKeepsLatest(changes, now, t);
    }
    SameInstants(sorted, changes, kind, lo, now);
  }

  lemma SortedHaveStarted(changes: seq<StatusChange>, now: int)
    ensures SortedByAt(Sorted(StartedBy(changes, now))) && forall c | c in Sorted(StartedBy(changes, now)) :: c.at <= now
  {
    SortedIsSorted(StartedBy(changes, now));
    forall c | c in Sorted(StartedBy(changes, now)) ensures c.at <= now {
      assert c in multiset(Sorted(StartedBy(changes, now))) && c in multiset(StartedBy(changes, now));
    }
  }

  /** So the sweep over the sorted entries counts what the list as it came says. */
  lemma SweepIsPointwise(changes: seq<StatusChange>, windowMs: int, now: int)
    requires windowMs > 0
    ensures var sorted, lo := Sorted(StartedBy(changes, now)), now - windowMs;
            && SortedByAt(sorted)
            && Instants(sorted, Covered, lo, now) == Instants(changes, Covered, lo, now)
            && Instants(sorted, Healthy, lo, now) == Instants(changes, Healthy, lo, now)
            && Instants(sorted, Halted, lo, now) == Instants(changes, Halted, lo, now)
            && Instants(changes, Halted, lo, now) <= Instants(changes, Covered, lo, now)
            && Latest(changes, now) == (if |sorted| > 0 then Some(sorted[|sorted| - 1]) else None)
  {
    hide *;
    var sorted, lo := Sorted(StartedBy(changes, now)), now - windowMs;
    SortedHaveStarted(changes, now);
    SortedCountsTheSame(changes, Covered, lo, now);
    SortedCountsTheSame(changes, Healthy, lo, now);
    SortedCountsTheSame(changes, Halted, lo, now);
    LastIsLatest(sorted, now);
    SortingKeepsLatest(changes, now, now);
    KindsAreDisjoint(changes, lo, now);
  }

  // ---------------------------------------------------------------- incidents, instant by instant

  predicate AlertAt(changes: seq<StatusChange>, t: int) {
    StatusAt(changes, t) == ATTENTION
  }

  /** How often an alert begins: an alert instant whose predecessor in the window is none. */
  function Rises(changes: seq<StatusChange>, lo: int, hi: int): nat
    decreases hi - lo
  {
    if hi <= lo then 0
    else Rises(changes, lo, hi - 1) + if AlertAt(changes, hi - 1) && !(hi - 1 > lo && AlertAt(changes, hi - 2)) then 1 else 0
  }

  lemma {:induction false} RisesOfStretch(changes: seq<StatusChange>, lo: int, b: int, end: int, c: int)
    requires lo <= b <= end <= c
    requires forall t | b <= t < c :: AlertAt(changes, t) <==> t < end
    ensures Rises(changes, lo, c) == Rises(changes, lo, b) + if b < end && !(b > lo && AlertAt(changes, b - 1)) then 1 else 0
    decreases c - b
  {
    if b < c {
      RisesOfStretch(changes, lo, b, if end < c then end else c - 1, c - 1);
    }
  }

  /** An alert entry that starts where an alert ended, but with some other entry in between. */
  predicate Resumes(sorted: seq<StatusChange>, i: nat, lo: int, now: int)
    requires i < |sorted|
  {
    var start := Start(sorted, i, lo);
    AlertEntry(sorted, i, lo, now) && !Continues(sorted, i, lo, now) && start > lo && AlertAt(sorted, start - 1)
  }

  function Resumptions(sorted: seq<StatusChange>, n: nat, lo: int, now: int): nat
    requires n <= |sorted|
  {
    if n == 0 then 0 else Resumptions(sorted, n - 1, lo, now) + if Resumes(sorted, n - 1, lo, now) then 1 else 0
  }

  lemma AlertBeforeContinuation(sorted: seq<StatusChange>, i: nat, lo: int, now: int)
    requires SortedByAt(sorted) && i < |sorted| && Continues(sorted, i, lo, now)
    ensures Start(sorted, i, lo) > lo && AlertAt(sorted, Start(sorted, i, lo) - 1)
  {
    LatestInSorted(sorted, |sorted|, i - 1, Start(sorted, i, lo) - 1);
    assert sorted[..|sorted|] == sorted;
  }

  /**
   The incidents are the beginnings of alerts, plus one for every alert that goes on across
   an entry that took no time: an incident is never missed, and counted twice only there.
   */
  lemma {:induction false} IncidentsAreRises(sorted: seq<StatusChange>, n: nat, lo: int, now: int)
    requires SortedByAt(sorted) && n <= |sorted| && lo <= now
    ensures Incidents(sorted, n, lo, now) == Rises(sorted, lo, Boundary(sorted, n, lo, now)) + Resumptions(sorted, n, lo, now)
  {
    assert sorted[..|sorted|] == sorted;
    if n == 0 {
      var b := Boundary(sorted, 0, lo, now);
      forall t | lo <= t < b ensures !AlertAt(sorted, t) {
        LatestInSorted(sorted, |sorted|, -1, t);
      }
      RisesOfStretch(sorted, lo, lo, lo, b);
    } else {
      var i := n - 1;
      IncidentsAreRises(sorted, i, lo, now);
      var b, c := Boundary(sorted, i, lo, now), Boundary(sorted, n, lo, now);
      var until := if sorted[i].until.Some? then sorted[i].until.value else sorted[i].at;
      var end := if sorted[i].status == ATTENTION then Max(b, Min(c, until)) else b;
      forall t | b <= t < c ensures AlertAt(sorted, t) <==> t < end {
        LatestInSorted(sorted, |sorted|, i, t);
      }
      RisesOfStretch(sorted, lo, b, end, c);
      if Continues(sorted, i, lo, now) {
        AlertBeforeContinuation(sorted, i, lo, now);
      }
    }
  }
}
