/** Cache entries, their clock, and one shard of the cache (cache/entry.go,
    cache/eviction_heap.go, the locked parts of cache/cache.go).

    Time is in nanoseconds. An `Entry` is an object because the eviction queue tells a live
    item from a stale one by pointer identity. */
module Shard {
  import opened Bytes
  import opened Records
  import opened EvictionHeap

  const SECOND: int := 1_000_000_000
  const U32: int := 0x1_0000_0000

  datatype NegType = NegNone | NegNXDomain | NegNoData | NegServFail

  datatype EntryValue = EntryValue(records: seq<RR>, authority: seq<RR>, insertedAt: int, origTtl: u32,
                                   negative: bool, negType: NegType, rcode: byte, status: Text, ecsScope: byte)

  class Entry {
    const value: EntryValue

    constructor (v: EntryValue)
      ensures value == v
    {
      value := v;
    }
  }

  function Expiry(v: EntryValue): int {
    v.insertedAt + (v.origTtl as int) * SECOND
  }

  /** RemainingTTL: whole elapsed seconds, truncated to 32 bits. */
  function RemainingTTL(v: EntryValue, now: int): (r: u32)
    ensures r <= v.origTtl
  {
    var elapsed := (now - v.insertedAt) / SECOND % U32;
    if elapsed >= v.origTtl then 0 else v.origTtl - elapsed
  }

  /** The clock is not before the insertion and less than 2^32 seconds after it. */
  predicate ClockOk(v: EntryValue, now: int) {
    v.insertedAt <= now < v.insertedAt + U32 * SECOND
  }

  /** Within that range the truncation is harmless: the entry has run out exactly when its
      expiry has come, and otherwise has its whole remaining seconds left. */
  lemma RemainingIsExact(v: EntryValue, now: int)
    requires ClockOk(v, now)
    ensures RemainingTTL(v, now) == 0 <==> Expiry(v) <= now
    ensures Expiry(v) > now ==> RemainingTTL(v, now) == v.origTtl - (now - v.insertedAt) / SECOND
  {
    var d := now - v.insertedAt;
    assert d / SECOND < U32;
    assert (d / SECOND) % U32 == d / SECOND;
  }

  function WithTtl(rrs: seq<RR>, ttl: u32): (r: seq<RR>)
    ensures |r| == |rrs|
    ensures forall i :: 0 <= i < |r| ==> r[i] == rrs[i].(ttl := ttl)
  {
    seq(|rrs|, i requires 0 <= i < |rrs| => rrs[i].(ttl := ttl))
  }

  /** The entry with the same TTL on every record. */
  function Decayed(v: EntryValue, remaining: u32): EntryValue {
    v.(records := WithTtl(v.records, remaining), authority := WithTtl(v.authority, remaining))
  }

  /** What a hit shows: the remaining TTL on every record of both sections, and all else as stored. */
  lemma DecayedIs(v: EntryValue, remaining: u32)
    ensures var d := Decayed(v, remaining);
            && d == v.(records := d.records, authority := d.authority)
            && |d.records| == |v.records| && |d.authority| == |v.authority|
            && (forall i :: 0 <= i < |v.records| ==> d.records[i] == v.records[i].(ttl := remaining))
            && (forall i :: 0 <= i < |v.authority| ==> d.authority[i] == v.authority[i].(ttl := remaining))
  {}

  method DecayLoop(rrs: seq<RR>, remaining: u32) returns (r: seq<RR>)
    ensures r == WithTtl(rrs, remaining)
  {
    r := rrs;
    for i := 0 to |r|
      invariant |r| == |rrs|
      invariant forall j :: 0 <= j < i ==> r[j] == rrs[j].(ttl := remaining)
      invariant forall j :: i <= j < |r| ==> r[j] == rrs[j]
    {
      r := r[i := r[i].(ttl := remaining)];
    }
  }

  /** WithDecayedTTL */
  method WithDecayedTTL(v: EntryValue, remaining: u32) returns (r: EntryValue)
    ensures r == Decayed(v, remaining)
  {
    hide WithTtl;
    var records := DecayLoop(v.records, remaining);
    var authority := DecayLoop(v.authority, remaining);
    r := v.(records := records, authority := authority);
  }

  function ItemFor(k: CacheKey, e: Entry): Item<Entry> {
    Item(k, e, Expiry(e.value))
  }

  class CacheShard {
    var entries: map<CacheKey, Entry>
    var evictQ: seq<Item<Entry>>

    /** The queue is a heap of honest items, possibly stale, and the items of all current
        entries but those of the keys in except are among them. */
    ghost predicate CoversAllBut(except: set<CacheKey>)
      reads this
    {
      && IsHeap(evictQ)
      && (forall it :: it in evictQ ==> it.expiresAt == Expiry(it.entry.value))
      && (forall k :: k in entries && k !in except ==> ItemFor(k, entries[k]) in evictQ)
    }

    /** The coverage invariant. */
    ghost predicate Valid()
      reads this
    {
      CoversAllBut({})
    }

    /** A shard with entries has a queue. */
    lemma QueueCovers()
      ensures Valid() && entries != map[] ==> evictQ != []
    {
      if Valid() && entries != map[] {
        var k :| k in entries;
        assert ItemFor(k, entries[k]) in evictQ;
      }
    }

    constructor ()
      ensures Valid() && entries == map[]
    {
      entries := map[];
      evictQ := [];
    }

    /** resetEntries */
    method Reset()
      modifies this
      ensures Valid() && entries == map[]
    {
      entries := map[];
      evictQ := [];
    }

    /** pushEvictionEntry */
    method PushEvictionEntry(key: CacheKey, entry: Entry)
      requires CoversAllBut({key}) && key in entries && entries[key] == entry
      modifies this`evictQ
      ensures Valid()
    {
      var q := Push(evictQ, ItemFor(key, entry));
      GrowsTo(evictQ, q, ItemFor(key, entry));
      evictQ := q;
    }

    /** nextEvictionKeyLocked: stale items are popped until a live one comes. It finds an entry
        of least expiry whenever there is an entry at all, so the scan that the source falls
        back to has nothing to look at. */
    method NextEvictionKey() returns (key: CacheKey, found: bool)
      requires Valid()
      modifies this`evictQ
      ensures found <==> entries != map[]
      ensures found ==> key in entries
      ensures found ==> forall k :: k in entries ==> Expiry(entries[key].value) <= Expiry(entries[k].value)
      ensures CoversAllBut(if found then {key} else {})
    {
      key := CacheKey([], 0, 0, []);
      while evictQ != []
        invariant Valid()
        decreases |evictQ|
      {
        var item, q := Pop(evictQ);
        ShrinksTo(evictQ, q, item);
        assert |multiset(evictQ)| == |multiset(q)| + 1;
        ghost var was := evictQ;
        assert item in was && item.expiresAt == Expiry(item.entry.value);
        if item.key in entries && entries[item.key] == item.entry {
          forall k | k in entries ensures Expiry(item.entry.value) <= Expiry(entries[k].value) {
            LeastInHeap(was, ItemFor(k, entries[k]));
          }
          evictQ := q;
          return item.key, true;
        }
        evictQ := q;
      }
      QueueCovers();
      found := false;
    }

    /** evictExpiredLocked(now), with the clock read again for each entry at some time from now
        on: removes exactly the entries whose expiry has come and counts them. */
    method EvictExpired(now: int, later: int) returns (evicted: nat)
      requires Valid() && now <= later
      requires forall k :: k in entries ==> ClockOk(entries[k].value, later)
      modifies this
      ensures Valid()
      ensures entries == (map k | k in old(entries) && Expiry(old(entries)[k].value) > now :: old(entries)[k])
      ensures evicted == |old(entries)| - |entries|
    {
      evicted := 0;
      ghost var before := entries;
      while evictQ != [] && evictQ[0].expiresAt <= now
        invariant Valid()
        invariant forall k :: k in entries ==> k in before && entries[k] == before[k]
        invariant forall k :: k in before && k !in entries ==> Expiry(before[k].value) <= now
        invariant evicted == |before| - |entries|
        decreases |evictQ|
      {
        var item, q := Pop(evictQ);
        ShrinksTo(evictQ, q, item);
        assert |multiset(evictQ)| == |multiset(q)| + 1;
        assert item in evictQ;
        evictQ := q;
        if item.key in entries && entries[item.key] == item.entry {
          RemainingIsExact(item.entry.value, later);
          if RemainingTTL(item.entry.value, later) == 0 {
            SmallerWithout(entries, item.key);
            entries := entries - {item.key};
            evicted := evicted + 1;
          }
        }
      }
      forall k | k in entries ensures Expiry(entries[k].value) > now {
        LeastInHeap(evictQ, ItemFor(k, entries[k]));
      }
    }

    /** The tail that all Store functions share: insert, queue, and evict over capacity. From a
        shard within its capacity at most one entry goes, one of least expiry. */
    method Put(key: CacheKey, entry: Entry, maxEntries: int) returns (ghost victim: Option<CacheKey>)
      requires Valid() && (maxEntries > 0 ==> |entries| <= Limit(maxEntries))
      modifies this
      ensures Valid() && (maxEntries > 0 ==> |entries| <= Limit(maxEntries))
      ensures var full := old(entries)[key := entry];
              match victim
              case None => entries == full
              case Some(v) =>
                && entries == full - {v} && v in full && maxEntries > 0 && |full| == Limit(maxEntries) + 1
                && forall k :: k in full ==> Expiry(full[v].value) <= Expiry(full[k].value)
    {
      SmallerWithout(entries[key := entry], key);
      assert |entries[key := entry]| <= |entries| + 1 by {
        assert entries[key := entry] - {key} == entries - {key};
        SmallerOrSame(entries, key);
      }
      entries := entries[key := entry];
      PushEvictionEntry(key, entry);
      victim := None;
      if maxEntries <= 0 {
        return;
      }
      while |entries| > Limit(maxEntries)
        invariant Valid() && |entries| <= Limit(maxEntries) + 1
        invariant match victim
                  case None => entries == old(entries)[key := entry]
                  case Some(v) =>
                    var full := old(entries)[key := entry];
                    && |entries| <= Limit(maxEntries)
                    && entries == full - {v} && v in full && |full| == Limit(maxEntries) + 1
                    && forall k :: k in full ==> Expiry(full[v].value) <= Expiry(full[k].value)
        decreases |entries|
      {
        var evict, found := NextEvictionKey();
        SmallerWithout(entries, evict);
        victim := Some(evict);
        entries := entries - {evict};
      }
    }
  }

  /** Entries a shard may hold: maxEntries / 256 + 1. */
  function Limit(maxEntries: int): nat
    requires maxEntries > 0
  {
    maxEntries / 256 + 1
  }

  /** The shards together have room for every configured number of entries, with at most one entry
      more in each. */
  lemma LimitIs(maxEntries: int)
    requires maxEntries > 0
    ensures maxEntries < 256 * Limit(maxEntries) <= maxEntries + 256
  {}

  lemma LeastInHeap(q: seq<Item<Entry>>, it: Item<Entry>)
    requires IsHeap(q) && it in q
    ensures q[0].expiresAt <= it.expiresAt
  {
    var j :| 0 <= j < |q| && q[j] == it;
    RootIsLeast(q, j);
  }

  lemma ShrinksTo(q: seq<Item<Entry>>, r: seq<Item<Entry>>, item: Item<Entry>)
    requires multiset(q) == multiset(r) + multiset{item}
    ensures forall it :: it in q <==> it in r || it == item
  {
    assert forall it :: it in q <==> it in multiset(q);
    assert forall it :: it in r <==> it in multiset(r);
  }

  lemma GrowsTo(q: seq<Item<Entry>>, r: seq<Item<Entry>>, item: Item<Entry>)
    requires multiset(r) == multiset(q) + multiset{item}
    ensures forall it :: it in r <==> it in q || it == item
  {
    ShrinksTo(r, q, item);
  }

  lemma SmallerWithout<K, V>(m: map<K, V>, k: K)
    requires k in m
    ensures |m - {k}| == |m| - 1
  {
    assert (m - {k}).Keys == m.Keys - {k};
    assert |m.Keys - {k}| == |m.Keys| - 1;
  }

  lemma SmallerOrSame<K, V>(m: map<K, V>, k: K)
    ensures |m - {k}| <= |m|
  {
    if k in m {
      SmallerWithout(m, k);
    } else {
      assert m - {k} == m;
    }
  }
}
