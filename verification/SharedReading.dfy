/**
 Callers who ask while a reading runs get its promise; callers who ask soon after get its value.

 `readings` lists every reading ever started, with the generation it was started in; promises
 are positions in it. A reading settles in one step and its request is cleared in the next.
 */
module SharedReading {
  import opened Results

  datatype Outcome<T> = Pending | Read(value: T) | Rejected

  datatype Reading<T> = Reading(generation: nat, outcome: Outcome<T>)

  /** What a caller gets: a value kept from a reading, or the promise of one. */
  datatype Answer<T> = Cached(value: T, source: nat) | Promised(request: nat)

  class SharedReading<T(==)> {
    const ttlMs: int
    var value: Option<T>
    var readAt: int
    var request: Option<nat>
    var generation: nat
    var readings: seq<Reading<T>>
    /** The reading that the kept value comes from. */
    ghost var source: nat

    ghost predicate Valid() reads this {
      && (forall i | 0 <= i < |readings| :: readings[i].generation <= generation)
      && (value.Some? ==> source < |readings| && readings[source] == Reading(generation, Read(value.value)))
      && (request.Some? ==> request.value < |readings| && readings[request.value].generation == generation)
      && (forall i | 0 <= i < |readings| && readings[i].outcome.Pending? && readings[i].generation == generation :: request == Some(i))
      && (forall i, j | 0 <= i < j < |readings| && readings[i].outcome.Pending? && readings[j].outcome.Pending? :: readings[i].generation < readings[j].generation)
    }

    constructor (ttlMs: int)
      ensures Valid() && readings == [] && value.None? && this.ttlMs == ttlMs
    {
      this.ttlMs := ttlMs;
      value, readAt, request, generation, readings, source := None, 0, None, 0, [], 0;
    }

    /**
     A kept value that is young enough, the promise of a reading under way, or that of a new
     one. All of them are of the current generation, of which at most one reading runs.
     */
    method Get(now: int) returns (answer: Answer<T>)
      requires Valid()
      modifies this
      ensures Valid() && generation == old(generation) && value == old(value)
      ensures match answer
              case Cached(v, from) =>
                && from < |readings| && readings[from] == Reading(generation, Read(v))
                && value == Some(v) && now - readAt < ttlMs && readings == old(readings)
              case Promised(id) =>
                && id < |readings| && readings[id].generation == generation
                && (old(value).Some? ==> now - readAt >= ttlMs)
                && (readings == old(readings) || (readings == old(readings) + [Reading(generation, Pending)] && id == |old(readings)| && old(request).None?))
      ensures readAt == old(readAt)
      ensures readings != old(readings) ==>
                forall i | 0 <= i < |old(readings)| && old(readings)[i].generation == generation :: !old(readings)[i].outcome.Pending?
    {
      if value.Some? && now - readAt < ttlMs {
        var from := Source();
        return Cached(value.value, from);
      }
      if request.Some? {
        return Promised(request.value);
      }
      readings := readings + [Reading(generation, Pending)];
      request := Some(|readings| - 1);
      return Promised(|readings| - 1);
    }

    /** Where the kept value was read. */
    method Source() returns (from: nat)
      requires Valid() && value.Some?
      ensures from < |readings| && readings[from] == Reading(generation, Read(value.value))
    {
      from := 0;
      while readings[from] != Reading(generation, Read(value.value))
        invariant from <= source
        decreases |readings| - from
      {
        from := from + 1;
      }
    }

    /** A reading ends well: it is kept only if nothing was invalidated since it began. */
    method Resolve(id: nat, result: T, now: int)
      requires Valid() && id < |readings| && readings[id].outcome.Pending?
      modifies this
      ensures Valid() && generation == old(generation) && request == old(request)
      ensures readings == old(readings)[id := old(readings)[id].(outcome := Read(result))]
      ensures if old(readings)[id].generation == generation then value == Some(result) && readAt == now
              else value == old(value) && readAt == old(readAt)
    {
      if readings[id].generation == generation {
        value, readAt := Some(result), now;
        source := id;
      }
      readings := readings[id := readings[id].(outcome := Read(result))];
    }

    /** A reading that fails is not remembered. */
    method Reject(id: nat)
      requires Valid() && id < |readings| && readings[id].outcome.Pending?
      modifies this
      ensures Valid() && generation == old(generation) && request == old(request)
      ensures value == old(value) && readAt == old(readAt) && readings == old(readings)[id := old(readings)[id].(outcome := Rejected)]
    {
      readings := readings[id := readings[id].(outcome := Rejected)];
    }

    /** The step after a reading settled: its request makes room for the next one. */
    method Release(id: nat)
      requires Valid() && id < |readings| && !readings[id].outcome.Pending?
      modifies this`request
      ensures Valid() && request == if old(request) == Some(id) then None else old(request)
    {
      if request == Some(id) {
        request := None;
      }
    }

    /** Forget what was read; a reading that still runs no longer counts. */
    method Invalidate()
      requires Valid()
      modifies this
      ensures Valid() && generation == old(generation) + 1 && readings == old(readings)
      ensures value.None? && request.None? && forall i | 0 <= i < |readings| :: readings[i].generation < generation
    {
      value, readAt, generation, request := None, 0, generation + 1, None;
    }
  }
}
