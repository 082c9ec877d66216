/**
 Merged status intervals, the raw samples they stand for, and the two ways they are read.

 A recorder keeps one interval per stretch of equal samples instead of every sample. The
 theorems say that this compact form, read back by either query, answers as the raw samples
 would, instant by instant.
 */
module Timeline {
  import opened Results
  import opened Availability

  datatype Sampled = Sampled(status: int, at: int)

  /** The intervals recorded so far and the sample the last of them is open at, if it is. */
  datatype Timeline = Timeline(intervals: seq<StatusChange>, last: Option<Sampled>)

  /** What reaches a recorder: a sample, or a break after which nothing is joined. */
  datatype Event = Sample(at: int, status: int) | Break

  function WithUntil(intervals: seq<StatusChange>, until: int): seq<StatusChange> {
    if |intervals| == 0 then []
    else intervals[..|intervals| - 1] + [intervals[|intervals| - 1].(until := Some(until))]
  }

  /** A sample close enough to the last one confirms its interval; a new status opens another. */
  function Add(line: Timeline, now: int, status: int, maxGap: int): Timeline {
    var own := [StatusChange(status, now, Some(now))];
    if line.last.Some? && 0 <= now - line.last.value.at <= maxGap then
      var confirmed := WithUntil(line.intervals, now);
      Timeline(if line.last.value.status == status then confirmed else confirmed + own, Some(Sampled(status, now)))
    else Timeline(line.intervals + own, Some(Sampled(status, now)))
  }

  function Run(events: seq<Event>, maxGap: int): Timeline {
    if |events| == 0 then Timeline([], None)
    else
      var line := Run(events[..|events| - 1], maxGap);
      match events[|events| - 1]
      case Sample(at, status) => Add(line, at, status, maxGap)
      case Break => line.(last := None)
  }

  /** The raw samples: an instant has the status of the earlier of two close samples around it. */
  function RawStatusAt(events: seq<Event>, maxGap: int, t: int): int {
    if |events| < 2 then UNKNOWN
    else
      var earlier, later := events[|events| - 2], events[|events| - 1];
      if earlier.Sample? && later.Sample? && earlier.at <= t < later.at
      then if later.at - earlier.at <= maxGap then earlier.status else UNKNOWN
      else RawStatusAt(events[..|events| - 1], maxGap, t)
  }

  /** Samples come at strictly increasing times, breaks anywhere between them. */
  predicate Increasing(events: seq<Event>) {
    forall i, j | 0 <= i < j < |events| && events[i].Sample? && events[j].Sample? :: events[i].at < events[j].at
  }

  predicate AllBefore(events: seq<Event>, time: int) {
    forall i | 0 <= i < |events| && events[i].Sample? :: events[i].at < time
  }

  /** The newest sample, also when a break came after it. */
  function LastSample(events: seq<Event>): Option<Sampled> {
    if |events| == 0 then None
    else match events[|events| - 1]
      case Sample(at, status) => Some(Sampled(status, at))
      case Break => LastSample(events[..|events| - 1])
  }

  /** The first of the newest samples in a row that are close and agree in status. */
  function StretchStart(events: seq<Event>, maxGap: int): int {
    if |events| == 0 then 0
    else match events[|events| - 1]
      case Break => StretchStart(events[..|events| - 1], maxGap)
      case Sample(at, status) =>
        if |events| >= 2 && events[|events| - 2].Sample? && events[|events| - 2].status == status && 0 <= at - events[|events| - 2].at <= maxGap
        then StretchStart(events[..|events| - 1], maxGap) else at
  }

  /** Intervals start in order and end before the next one starts. */
  predicate WellFormedHistory(intervals: seq<StatusChange>) {
    && (forall i | 0 <= i < |intervals| :: intervals[i].until.Some? && intervals[i].at <= intervals[i].until.value)
    && (forall i, j | 0 <= i < j < |intervals| :: intervals[i].until.value <= intervals[j].at && intervals[i].at < intervals[j].at)
  }

  predicate LastIsOpen(line: Timeline) {
    line.last.Some? ==>
      |line.intervals| > 0 &&
      var open := line.intervals[|line.intervals| - 1];
      open.status == line.last.value.status && open.until == Some(line.last.value.at)
  }

  predicate Before(line: Timeline, time: int) {
    forall c | c in line.intervals :: c.at < time && c.until.Some? && c.until.value < time
  }

  /** The sample a timeline is open at is the newest event. */
  lemma RunEndsAtLastEvent(events: seq<Event>, maxGap: int)
    ensures var last := Run(events, maxGap).last;
            if last.Some? then |events| > 0 && events[|events| - 1] == Sample(last.value.at, last.value.status)
            else |events| == 0 || events[|events| - 1].Break?
  {
  }

  lemma {:induction false} RunIsWellFormed(events: seq<Event>, maxGap: int)
    requires Increasing(events)
    ensures WellFormedHistory(Run(events, maxGap).intervals) && LastIsOpen(Run(events, maxGap))
    ensures forall time | AllBefore(events, time) :: Before(Run(events, maxGap), time)
  {
    if |events| > 0 {
      var front, event := events[..|events| - 1], events[|events| - 1];
      RunIsWellFormed(front, maxGap);
      if event.Sample? {
        assert AllBefore(front, event.at);
        AddIsWellFormed(Run(front, maxGap), event.at, event.status, maxGap);
      }
      forall time | AllBefore(events, time) ensures Before(Run(events, maxGap), time) {
        assert AllBefore(front, time);
      }
    }
  }

  lemma AddIsWellFormed(line: Timeline, now: int, status: int, maxGap: int)
    requires WellFormedHistory(line.intervals) && LastIsOpen(line) && Before(line, now)
    ensures WellFormedHistory(Add(line, now, status, maxGap).intervals) && LastIsOpen(Add(line, now, status, maxGap))
    ensures forall time | Before(line, time) && now < time :: Before(Add(line, now, status, maxGap), time)
  {
    var own := StatusChange(status, now, Some(now));
    if |line.intervals| > 0 {
      ConfirmedIsWellFormed(line.intervals, now);
    }
    AppendedIsWellFormed(line.intervals, own);
    AppendedIsWellFormed(WithUntil(line.intervals, now), own);
    hide WellFormedHistory, WithUntil;
    forall time | Before(line, time) && now < time ensures Before(Add(line, now, status, maxGap), time) {
    }
  }

  lemma ConfirmedIsWellFormed(intervals: seq<StatusChange>, now: int)
    requires WellFormedHistory(intervals) && |intervals| > 0
    requires forall c | c in intervals :: c.at < now && c.until.Some? && c.until.value < now
    ensures var confirmed := WithUntil(intervals, now);
            && WellFormedHistory(confirmed) && |confirmed| == |intervals| && confirmed[|confirmed| - 1].until == Some(now)
            && confirmed[|confirmed| - 1].status == intervals[|intervals| - 1].status
            && forall c | c in confirmed :: c.at < now && c.until.Some? && c.until.value <= now && (c in intervals || c == confirmed[|confirmed| - 1])
  {
    var n := |intervals| - 1;
    assert intervals[n] in intervals;
    assert forall i | 0 <= i < n :: WithUntil(intervals, now)[i] == intervals[i] && intervals[i] in intervals;
  }

  lemma AppendedIsWellFormed(intervals: seq<StatusChange>, own: StatusChange)
    requires own.until.Some? && own.at <= own.until.value
    requires forall c | c in intervals :: c.at < own.at && c.until.Some? && c.until.value <= own.at
    requires WellFormedHistory(intervals)
    ensures WellFormedHistory(intervals + [own])
  {
    assert forall i | 0 <= i < |intervals| :: intervals[i] in intervals;
  }

  /** A new interval says nothing about earlier instants. */
  lemma LaterEntryIsSilent(intervals: seq<StatusChange>, c: StatusChange, t: int)
    ensures t < c.at ==> StatusAt(intervals + [c], t) == StatusAt(intervals, t)
    ensures t >= c.at && (forall d | d in intervals :: d.at <= c.at) && (c.until.Some? ==> c.until.value <= t) ==> StatusAt(intervals + [c], t) == UNKNOWN
  {
    assert (intervals + [c])[..|intervals|] == intervals;
    LatestHasStarted(intervals, t);
  }

  /** Confirming the last interval further says what held since its previous end. */
  lemma ConfirmingExtends(intervals: seq<StatusChange>, was: int, now: int, t: int)
    requires |intervals| > 0 && intervals[|intervals| - 1].until == Some(was) && was <= now
    requires intervals[|intervals| - 1].at <= was && forall c | c in intervals :: c.at <= was
    requires forall c | c in intervals :: c.at <= intervals[|intervals| - 1].at
    ensures StatusAt(WithUntil(intervals, now), t)
            == if was <= t < now then intervals[|intervals| - 1].status else StatusAt(intervals, t)
  {
    var n := |intervals| - 1;
    var front, last := intervals[..n], intervals[n];
    assert WithUntil(intervals, now)[..n] == front;
    assert intervals == front + [last];
    LatestHasStarted(front, t);
  }

  /** Nothing is known of the time after every interval ended. */
  lemma NothingIsKnownAfter(line: Timeline, time: int, t: int)
    requires Before(line, time) && time <= t + 1
    ensures StatusAt(line.intervals, t) == UNKNOWN
  {
    LatestHasStarted(line.intervals, t);
  }

  /** A sample joined to the last interval covers exactly the time since that interval's end. */
  lemma JoiningSampleCoversTheGap(line: Timeline, at: int, status: int, maxGap: int, t: int)
    requires WellFormedHistory(line.intervals) && LastIsOpen(line) && Before(line, at)
    requires line.last.Some? && line.last.value.at < at <= line.last.value.at + maxGap && Before(line, line.last.value.at + 1)
    ensures StatusAt(Add(line, at, status, maxGap).intervals, t)
            == if line.last.value.at <= t < at then line.last.value.status else StatusAt(line.intervals, t)
  {
    var was, confirmed, last := line.last.value.at, WithUntil(line.intervals, at), line.intervals[|line.intervals| - 1];
    assert last in line.intervals;
    assert forall c | c in line.intervals :: c.at <= was && c.at <= last.at;
    assert forall c | c in confirmed :: c.at <= at;
    if t >= at {
      NothingIsKnownAfter(line, at, t);
    }
    hide StatusAt, Before, WellFormedHistory;
    ConfirmingExtends(line.intervals, was, at, t);
    LaterEntryIsSilent(confirmed, StatusChange(status, at, Some(at)), t);
  }

  /** A sample that joins nothing covers nothing. */
  lemma LoneSampleCoversNothing(line: Timeline, at: int, status: int, t: int)
    requires Before(line, at)
    ensures StatusAt(line.intervals + [StatusChange(status, at, Some(at))], t) == StatusAt(line.intervals, t)
  {
    if t >= at {
      NothingIsKnownAfter(line, at, t);
    }
    LaterEntryIsSilent(line.intervals, StatusChange(status, at, Some(at)), t);
  }

  lemma AddIsPointwise(front: seq<Event>, line: Timeline, at: int, status: int, maxGap: int, t: int)
    requires Increasing(front + [Sample(at, status)]) && line == Run(front, maxGap)
    requires StatusAt(line.intervals, t) == RawStatusAt(front, maxGap, t)
    requires WellFormedHistory(line.intervals) && LastIsOpen(line) && Before(line, at)
    requires line.last.Some? ==> Before(line, line.last.value.at + 1)
    ensures StatusAt(Add(line, at, status, maxGap).intervals, t) == RawStatusAt(front + [Sample(at, status)], maxGap, t)
  {
    hide StatusAt, Before, WellFormedHistory, LastIsOpen;
    var events := front + [Sample(at, status)];
    assert events[..|front|] == front;
    RunEndsAtLastEvent(front, maxGap);
    if line.last.Some? && at - line.last.value.at <= maxGap {
      assert events[|front| - 1].at < events[|front|].at;
      JoiningSampleCoversTheGap(line, at, status, maxGap, t);
    } else {
      LoneSampleCoversNothing(line, at, status, t);
      if line.last.Some? && line.last.value.at <= t {
        NothingIsKnownAfter(line, line.last.value.at + 1, t);
      }
    }
  }

  /**
   The recorded intervals answer every instant as the raw samples do: it is covered, with the
   status of the earlier sample, exactly between two samples that are close enough and not
   separated by a break.
   */
  lemma {:induction false} RecordingIsPointwise(events: seq<Event>, maxGap: int, t: int)
    requires Increasing(events) && maxGap >= 0
    ensures StatusAt(Run(events, maxGap).intervals, t) == RawStatusAt(events, maxGap, t)
  {
    if |events| > 0 {
      var front, event := events[..|events| - 1], events[|events| - 1];
      RecordingIsPointwise(front, maxGap, t);
      RunIsWellFormed(front, maxGap);
      if event.Sample? {
        var line := Run(front, maxGap);
        assert front + [event] == events;
        RunEndsAtLastEvent(front, maxGap);
        if line.last.Some? {
          assert AllBefore(front, line.last.value.at + 1);
        }
        assert AllBefore(front, event.at);
        AddIsPointwise(front, line, event.at, event.status, maxGap, t);
      } else {
        assert RawStatusAt(events, maxGap, t) == RawStatusAt(front, maxGap, t) by {
          BreakIsSilent(front, maxGap, t);
          assert front + [event] == events;
        }
      }
    }
  }

  lemma BreakIsSilent(events: seq<Event>, maxGap: int, t: int)
    ensures RawStatusAt(events + [Break], maxGap, t) == RawStatusAt(events, maxGap, t)
  {
    assert (events + [Break])[..|events|] == events;
  }

  /** Neighbours that touch differ in status, so that equal samples in a row share one interval. */
  predicate Compact(intervals: seq<StatusChange>) {
    forall i | 0 <= i < |intervals| - 1 && intervals[i].until == Some(intervals[i + 1].at) :: intervals[i].status != intervals[i + 1].status
  }

  lemma AddIsCompact(line: Timeline, now: int, status: int, maxGap: int)
    requires Compact(line.intervals) && LastIsOpen(line) && Before(line, now)
    ensures Compact(Add(line, now, status, maxGap).intervals)
  {
    var n := |line.intervals|;
    var after := Add(line, now, status, maxGap).intervals;
    forall i | 0 <= i < |after| - 1 && after[i].until == Some(after[i + 1].at) ensures after[i].status != after[i + 1].status {
      assert line.intervals[i] in line.intervals;
      if i + 1 < n {
        assert line.intervals[i].until == Some(line.intervals[i + 1].at);
      }
    }
  }

  /** One row is kept for a stretch of equal samples: it is extended, never repeated. */
  lemma {:induction false} RecordingIsCompact(events: seq<Event>, maxGap: int)
    requires Increasing(events)
    ensures Compact(Run(events, maxGap).intervals)
  {
    if |events| > 0 {
      var front, event := events[..|events| - 1], events[|events| - 1];
      RecordingIsCompact(front, maxGap);
      RunIsWellFormed(front, maxGap);
      if event.Sample? {
        assert AllBefore(front, event.at);
        assert Before(Run(front, maxGap), event.at);
        hide Compact, Before;
        AddIsCompact(Run(front, maxGap), event.at, event.status, maxGap);
      }
    }
  }

  /** The newest interval is the newest stretch of equal samples, up to the newest of them. */
  lemma {:induction false} NewestIsLastStretch(events: seq<Event>, maxGap: int)
    requires Increasing(events)
    ensures var intervals, last := Run(events, maxGap).intervals, LastSample(events);
            if last.None? then |intervals| == 0
            else |intervals| > 0 && intervals[|intervals| - 1] == StatusChange(last.value.status, StretchStart(events, maxGap), Some(last.value.at))
  {
    if |events| > 0 {
      var front := events[..|events| - 1];
      NewestIsLastStretch(front, maxGap);
      RunEndsAtLastEvent(front, maxGap);
    }
  }

  /** Nothing is known of an instant when every sample came before it. */
  lemma {:induction false} NothingAfterTheSamples(events: seq<Event>, maxGap: int, t: int)
    requires forall i | 0 <= i < |events| && events[i].Sample? :: events[i].at <= t
    ensures RawStatusAt(events, maxGap, t) == UNKNOWN
  {
    if |events| >= 2 {
      NothingAfterTheSamples(events[..|events| - 1], maxGap, t);
    }
  }

  /** A break hides the time around it: no interval reaches from a sample before it past it. */
  lemma {:induction false} NothingSpansABreak(events: seq<Event>, maxGap: int, b: nat, t: int)
    requires Increasing(events) && b < |events| && events[b].Break?
    requires forall i | 0 <= i < b && events[i].Sample? :: events[i].at <= t
    requires forall i | b < i < |events| && events[i].Sample? :: t < events[i].at
    ensures RawStatusAt(events, maxGap, t) == UNKNOWN
  {
    var front := events[..|events| - 1];
    if b == |events| - 1 {
      NothingAfterTheSamples(front, maxGap, t);
    } else {
      NothingSpansABreak(front, maxGap, b, t);
    }
  }
}
