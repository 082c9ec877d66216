/**
 A cache bounded in bytes and entries, with the least recently used entry first in line.

 The items are kept in the order of a JavaScript Map: replacing or reading one puts it last.
 */
module BoundedCache {
  import opened Results

  datatype Item<T> = Item(key: string, value: T, bytes: nat, expires: int)

  /** A size as a caller states it. */
  datatype Size = Finite(bytes: int) | NotFinite

  function Used<T>(items: seq<Item<T>>): nat {
    if |items| == 0 then 0 else items[0].bytes + Used(items[1..])
  }

  function Find<T>(items: seq<Item<T>>, key: string): (found: Option<Item<T>>)
    ensures found.Some? ==> found.value in items && found.value.key == key
    ensures found.None? ==> forall item | item in items :: item.key != key
  {
    if |items| == 0 then None else if items[0].key == key then Some(items[0]) else Find(items[1..], key)
  }

  function Without<T>(items: seq<Item<T>>, key: string): seq<Item<T>> {
    if |items| == 0 then [] else if items[0].key == key then Without(items[1..], key) else [items[0]] + Without(items[1..], key)
  }

  function Live<T>(items: seq<Item<T>>, now: int): seq<Item<T>> {
    if |items| == 0 then [] else if items[0].expires > now then [items[0]] + Live(items[1..], now) else Live(items[1..], now)
  }

  predicate DistinctKeys<T>(items: seq<Item<T>>) {
    forall i, j | 0 <= i < j < |items| :: items[i].key != items[j].key
  }

  lemma {:induction false} WithoutIsSmaller<T>(items: seq<Item<T>>, key: string)
    ensures |Without(items, key)| <= |items| && Used(Without(items, key)) <= Used(items)
    ensures forall item | item in Without(items, key) :: item in items && item.key != key
    ensures DistinctKeys(items) ==> DistinctKeys(Without(items, key))
  {
    if |items| > 0 {
      WithoutIsSmaller(items[1..], key);
      var rest := Without(items[1..], key);
      if DistinctKeys(items) && items[0].key != key {
        forall i | 0 <= i < |rest| ensures rest[i].key != items[0].key {
          assert rest[i] in rest && rest[i] in items[1..];
        }
      }
    }
  }

  /** What is left is everything else in the order it had. */
  lemma {:induction false} WithoutOneOfThem<T>(before: seq<Item<T>>, item: Item<T>, after: seq<Item<T>>)
    requires forall other | other in before || other in after :: other.key != item.key
    ensures Find(before + [item] + after, item.key) == Some(item) && Without(before + [item] + after, item.key) == before + after
  {
    var all := before + [item] + after;
    if |before| == 0 {
      assert all[0] == item && all[1..] == after && before + after == after;
      WithoutAbsent(after, item.key);
    } else {
      var first, rest := before[0], before[1..];
      assert all[0] == first && all[1..] == rest + [item] + after && first in before;
      assert Find(all, item.key) == Find(all[1..], item.key) && Without(all, item.key) == [first] + Without(all[1..], item.key);
      hide Without, Find;
      WithoutOneOfThem(rest, item, after);
      Regrouped([first], rest, after);
      assert [first] + rest == before;
    }
  }

  lemma {:induction false} WithoutAbsent<T>(items: seq<Item<T>>, key: string)
    requires forall item | item in items :: item.key != key
    ensures Without(items, key) == items
  {
    if |items| > 0 {
      assert items[0] in items;
      WithoutAbsent(items[1..], key);
    }
  }

  /** Taking one entry out gives back exactly its bytes. */
  lemma {:induction false} WithoutFreesItsBytes<T>(items: seq<Item<T>>, key: string)
    requires DistinctKeys(items) && Find(items, key).Some?
    ensures Used(Without(items, key)) == Used(items) - Find(items, key).value.bytes
    ensures |Without(items, key)| == |items| - 1
  {
    if items[0].key == key {
      forall item | item in items[1..] ensures item.key != key {
        var i :| 0 <= i < |items[1..]| && items[1..][i] == item;
        assert items[i + 1] == item;
      }
      WithoutAbsent(items[1..], key);
    } else {
      WithoutFreesItsBytes(items[1..], key);
    }
  }

  lemma {:induction false} UsedAppend<T>(items: seq<Item<T>>, item: Item<T>)
    ensures Used(items + [item]) == Used(items) + item.bytes
  {
    if |items| == 0 {
      assert items + [item] == [item];
    } else {
      assert (items + [item])[1..] == items[1..] + [item];
      UsedAppend(items[1..], item);
    }
  }

  lemma {:induction false} LiveIsSmaller<T>(items: seq<Item<T>>, now: int)
    ensures |Live(items, now)| <= |items| && Used(Live(items, now)) <= Used(items)
    ensures forall item | item in Live(items, now) :: item in items && item.expires > now
    ensures DistinctKeys(items) ==> DistinctKeys(Live(items, now))
  {
    if |items| > 0 {
      LiveIsSmaller(items[1..], now);
      var rest := Live(items[1..], now);
      if DistinctKeys(items) {
        forall i | 0 <= i < |rest| ensures rest[i].key != items[0].key {
          assert rest[i] in rest && rest[i] in items[1..];
        }
      }
    }
  }

  lemma AppendStaysDistinct<T>(items: seq<Item<T>>, item: Item<T>)
    requires DistinctKeys(items) && forall other | other in items :: other.key != item.key
    ensures DistinctKeys(items + [item])
  {
  }

  /** The live entries keep their order: those of two parts are those of the one and then those of the other. */
  lemma {:induction false} LiveOfParts<T>(before: seq<Item<T>>, after: seq<Item<T>>, now: int)
    ensures Live(before + after, now) == Live(before, now) + Live(after, now)
  {
    if |before| == 0 {
      assert before + after == after && Live(before, now) == [];
    } else {
      var all, first, rest := before + after, before[0], before[1..];
      assert all[0] == first && all[1..] == rest + after;
      assert Live(all, now) == (if first.expires > now then [first] else []) + Live(rest + after, now);
      assert Live(before, now) == (if first.expires > now then [first] else []) + Live(rest, now);
      hide Live;
      LiveOfParts(rest, after, now);
      Regrouped(if first.expires > now then [first] else [], Live(rest, now), Live(after, now));
    }
  }

  lemma LiveOfOne<T>(item: Item<T>, now: int)
    ensures Live([item], now) == if item.expires > now then [item] else []
  {
    assert [item][1..] == [];
  }

  lemma Regrouped<T>(a: seq<Item<T>>, b: seq<Item<T>>, c: seq<Item<T>>)
    ensures a + (b + c) == a + b + c
  {
  }

  /** No live entry is swept away. */
  lemma {:induction false} LiveKeepsTheLive<T>(items: seq<Item<T>>, now: int, item: Item<T>)
    requires item in items && item.expires > now
    ensures item in Live(items, now)
  {
    if items[0] != item {
      LiveKeepsTheLive(items[1..], now, item);
    }
  }

  /** Room for one more entry of a size. */
  predicate Fits<T>(items: seq<Item<T>>, bytes: nat, maxBytes: nat, maxEntries: nat) {
    |items| < maxEntries && Used(items) + bytes <= maxBytes
  }

  /** The sweep is due when the first entry expires, but not before the next instant. */
  ghost predicate DueAtFirst<T>(items: seq<Item<T>>, timer: Option<int>, now: int) {
    && (timer.Some? <==> |items| > 0)
    && (timer.Some? ==>
          && timer.value > now
          && (forall item | item in items :: timer.value <= item.expires || timer.value == now + 1)
          && exists item :: item in items && (item.expires == timer.value || item.expires <= now + 1 == timer.value))
  }

  class BoundedCache<T> {
    const maxBytes: nat
    const maxEntries: nat
    const ttlMs: int
    var items: seq<Item<T>>
    var used: nat
    /** When the sweep is due, if there is anything to sweep. */
    var timer: Option<int>

    /** The accounted bytes are those of the entries, and both bounds hold. */
    predicate Valid() reads this {
      && used == Used(items) <= maxBytes && |items| <= maxEntries && DistinctKeys(items)
      && (timer.Some? <==> |items| > 0)
    }

    constructor (maxBytes: nat, maxEntries: nat, ttlMs: int)
      ensures Valid() && items == []
      ensures this.maxBytes == maxBytes && this.maxEntries == maxEntries && this.ttlMs == ttlMs
    {
      this.maxBytes, this.maxEntries, this.ttlMs := maxBytes, maxEntries, ttlMs;
      items, used, timer := [], 0, None;
    }

    /** The entry of a key goes, if there is one, and gives its bytes back. */
    method Delete(key: string)
      requires Valid()
      modifies this
      ensures Valid() && items == Without(old(items), key)
    {
      var entry := Find(items, key);
      WithoutIsSmaller(items, key);
      if entry.Some? {
        WithoutFreesItsBytes(items, key);
        used := used - entry.value.bytes;
        items := Without(items, key);
      } else {
        WithoutAbsent(items, key);
      }
      if |items| == 0 {
        timer := None;
      }
    }

    /** A hit puts its entry last in the order of eviction; an expired entry is no hit and goes. */
    method Get(key: string, now: int) returns (value: Option<T>)
      requires Valid()
      modifies this
      ensures Valid()
      ensures var entry := Find(old(items), key);
              if entry.None? then value.None? && items == old(items)
              else if entry.value.expires <= now then value.None? && items == Without(old(items), key)
              else value == Some(entry.value.value) && items == Without(old(items), key) + [entry.value]
    {
      var entry := Find(items, key);
      if entry.None? {
        return None;
      }
      if entry.value.expires <= now {
        Delete(key);
        return None;
      }
      WithoutIsSmaller(items, key);
      WithoutFreesItsBytes(items, key);
      UsedAppend(Without(items, key), entry.value);
      items := Without(items, key) + [entry.value];
      return Some(entry.value.value);
    }

    /**
     Admit a value. The shortest run of least recently used entries that makes room is
     evicted; a value that is not admitted leaves nothing of its key behind.
     */
    method Put(key: string, value: T, size: Size, now: int) returns (admitted: bool, ghost evicted: nat)
      requires Valid()
      modifies this
      ensures Valid()
      ensures admitted <==> size.Finite? && 0 <= size.bytes <= maxBytes && maxEntries > 0
      ensures var others := Without(old(items), key);
              if admitted then
                && evicted <= |others| && items == others[evicted..] + [Item(key, value, size.bytes, now + ttlMs)]
                && |others[evicted..]| < maxEntries && Used(others[evicted..]) + size.bytes <= maxBytes
                && forall k | 0 <= k < evicted :: |others[k..]| >= maxEntries || Used(others[k..]) + size.bytes > maxBytes
              else items == others
      ensures !admitted ==> Find(items, key).None?
      ensures admitted ==> DueAtFirst(items, timer, now)
    {
      ghost var others := Without(items, key);
      WithoutIsSmaller(items, key);
      hide Without, Used, DistinctKeys, Find;
      evicted := 0;
      Delete(key);
      assert others[0..] == others;
      if size.NotFinite? || size.bytes < 0 || size.bytes > maxBytes {
        return false, 0;
      }
      var bytes: nat := size.bytes;
      var room;
      room, evicted := MakeRoom(bytes);
      if !room {
        return false, evicted;
      }
      assert forall item | item in items :: item in others && item.key != key;
      Admit(Item(key, value, bytes, now + ttlMs), now);
      return true, evicted;
    }

    method Admit(item: Item<T>, now: int)
      requires Valid() && Fits(items, item.bytes, maxBytes, maxEntries) && forall other | other in items :: other.key != item.key
      modifies this
      ensures Valid() && items == old(items) + [item] && DueAtFirst(items, timer, now)
    {
      UsedAppend(items, item);
      AppendStaysDistinct(items, item);
      items := items + [item];
      used := used + item.bytes;
      Schedule(now);
    }

    /** Evict the least recently used entries until one of a size fits. */
    method MakeRoom(bytes: nat) returns (room: bool, ghost evicted: nat)
      requires Valid() && bytes <= maxBytes
      modifies this
      ensures Valid() && room == (maxEntries > 0)
      ensures evicted <= |old(items)| && items == old(items)[evicted..]
      ensures room ==> Fits(items, bytes, maxBytes, maxEntries)
      ensures forall k | 0 <= k < evicted :: !Fits(old(items)[k..], bytes, maxBytes, maxEntries)
    {
      evicted := 0;
      ghost var was := items;
      assert items[0..] == items;
      hide Used, DistinctKeys;
      while |items| >= maxEntries || used + bytes > maxBytes
        invariant Valid() && evicted <= |was| && items == was[evicted..]
        invariant forall k | 0 <= k < evicted :: !Fits(was[k..], bytes, maxBytes, maxEntries)
        decreases |items|
      {
        if |items| == 0 {
          NothingUsed(items);
          return false, evicted;
        }
        assert !Fits(was[evicted..], bytes, maxBytes, maxEntries);
        EvictFirst(items);
        Delete(items[0].key);
        assert items == was[evicted..][1..] == was[evicted + 1..];
        evicted := evicted + 1;
      }
      return true, evicted;
    }

    /** Nothing is held afterwards and no sweep is due. */
    method Clear()
      modifies this
      ensures Valid() && items == []
    {
      items, used, timer := [], 0, None;
    }

    /** The next sweep comes when the first entry expires. */
    method Schedule(now: int)
      requires used == Used(items) <= maxBytes && |items| <= maxEntries && DistinctKeys(items)
      modifies this`timer
      ensures Valid() && DueAtFirst(items, timer, now)
    {
      hide Used, DistinctKeys;
      if |items| == 0 {
        timer := None;
        return;
      }
      var earliest, index := items[0].expires, 1;
      while index < |items|
        invariant 1 <= index <= |items| && forall i | 0 <= i < index :: earliest <= items[i].expires
        invariant exists i :: 0 <= i < index && items[i].expires == earliest
      {
        if items[index].expires < earliest {
          earliest := items[index].expires;
        }
        index := index + 1;
      }
      timer := Some(if earliest > now + 1 then earliest else now + 1);
    }

    /** The sweep leaves exactly the live entries, and the next is due exactly when the first of them expires. */
    method Sweep(now: int)
      requires Valid()
      modifies this
      ensures Valid() && items == Live(old(items), now)
      ensures |items| > 0 ==> exists item :: item in items && timer == Some(item.expires) && forall other | other in items :: item.expires <= other.expires
    {
      ghost var was := items;
      LiveIsSmaller(items, now);
      hide DistinctKeys, Live, Used;
      var live: seq<Item<T>> := [];
      var left := items;
      NothingUsed(live);
      assert [] + Live(left, now) == Live(left, now);
      while |left| > 0
        invariant Live(was, now) == live + Live(left, now) && used == Used(live) + Used(left)
        decreases |left|
      {
        SweepOne(live, left, now);
        if left[0].expires <= now {
          used := used - left[0].bytes;
        } else {
          live := live + [left[0]];
        }
        left := left[1..];
      }
      SweptAll(live, left, now);
      items := live;
      Schedule(now);
      DueWhenTheFirstExpires(items, timer, now);
    }
  }

  /** Among live entries the first instant after now is no exception. */
  lemma DueWhenTheFirstExpires<T>(items: seq<Item<T>>, timer: Option<int>, now: int)
    requires DueAtFirst(items, timer, now) && forall item | item in items :: item.expires > now
    ensures |items| > 0 ==> exists item :: item in items && timer == Some(item.expires) && forall other | other in items :: item.expires <= other.expires
  {
    if |items| > 0 {
      var item :| item in items && (item.expires == timer.value || item.expires <= now + 1 == timer.value);
      assert timer == Some(item.expires);
    }
  }

  lemma SweepOne<T>(live: seq<Item<T>>, left: seq<Item<T>>, now: int)
    requires |left| > 0
    ensures live + Live(left, now) == (if left[0].expires <= now then live else live + [left[0]]) + Live(left[1..], now)
    ensures Used(left) == left[0].bytes + Used(left[1..]) && Used(live + [left[0]]) == Used(live) + left[0].bytes
  {
    UsedAppend(live, left[0]);
    var first, rest := left[0], Live(left[1..], now);
    assert Live(left, now) == if first.expires > now then [first] + rest else rest;
    hide Live, Used;
    assert live + ([first] + rest) == (live + [first]) + rest;
  }

  lemma SweptAll<T>(live: seq<Item<T>>, left: seq<Item<T>>, now: int)
    requires |left| == 0
    ensures live + Live(left, now) == live && Used(left) == 0
  {
  }

  lemma NothingUsed<T>(items: seq<Item<T>>)
    requires |items| == 0
    ensures Used(items) == 0
  {
  }

  lemma EvictFirst<T>(items: seq<Item<T>>)
    requires |items| > 0 && DistinctKeys(items)
    ensures Without(items, items[0].key) == items[1..]
  {
    forall item | item in items[1..] ensures item.key != items[0].key {
      var i :| 0 <= i < |items[1..]| && items[1..][i] == item;
      assert items[i + 1] == item;
    }
    WithoutAbsent(items[1..], items[0].key);
  }
}
