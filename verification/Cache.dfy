/** The sharded DNS cache (cache/cache.go, cache/eviction.go) against a log of its stores. */
module Cache {
  import opened Bytes
  import opened Labels
  import opened Records
  import opened EvictionHeap
  import opened Shard
  import opened Ttl

  const SHARDS: nat := 256

  // ---- the shard of a name ----

  function Xor8(a: byte, b: byte): byte {
    ((a as bv8) ^ (b as bv8)) as int
  }

  /** fnv32a from a running hash h; the xor touches the low octet only. */
  function Fnv(h: u32, s: Text): u32
    decreases |s|
  {
    if s == [] then h
    else Fnv((h - h % 256 + Xor8(h % 256, s[0])) * 16777619 % 0x1_0000_0000, s[1..])
  }

  function ShardIndex(name: Text): (i: nat)
    ensures i < SHARDS
  {
    Fnv(2166136261, name) % 256
  }

  // ---- the log ----

  /** What callers did to the cache; evictions are not part of it. */
  datatype Op = Stored(key: CacheKey, entry: Entry) | Deleted(key: CacheKey) | Flushed

  /** The latest store for the key that was not deleted or flushed since. */
  function Latest(log: seq<Op>, k: CacheKey): Option<Entry> {
    if log == [] then None
    else
      var last := log[|log| - 1];
      match last
      case Stored(k', e) => if k' == k then Some(e) else Latest(log[..|log| - 1], k)
      case Deleted(k') => if k' == k then None else Latest(log[..|log| - 1], k)
      case Flushed => None
  }

  lemma LatestAfter(log: seq<Op>, op: Op, k: CacheKey)
    ensures Latest(log + [op], k)
         == match op
            case Stored(k', e) => if k' == k then Some(e) else Latest(log, k)
            case Deleted(k') => if k' == k then None else Latest(log, k)
            case Flushed => None
  {
    assert (log + [op])[..|log|] == log;
  }

  datatype Config = Config(maxEntries: int, minTtl: u32, maxTtl: u32, negMaxTtl: u32, serveStale: bool, staleTtl: u32)

  /** What the cache holds for a key against the latest store of the key: never anything else,
      and in a cache without a capacity limit nothing less until that store expires. */
  ghost predicate Agrees(held: Option<Entry>, latest: Option<Entry>, clock: int, unbounded: bool) {
    && (held.Some? ==> latest == held)
    && (unbounded && latest.Some? && Expiry(latest.value.value) > clock ==> held == latest)
  }

  lemma AgreesLater(held: Option<Entry>, latest: Option<Entry>, clock: int, later: int, unbounded: bool)
    requires Agrees(held, latest, clock, unbounded) && clock <= later
    ensures Agrees(held, latest, later, unbounded)
    ensures !unbounded || latest.None? || Expiry(latest.value.value) <= later ==> Agrees(None, latest, later, unbounded)
  {}

  lemma AgreesFresh(latest: Option<Entry>, clock: int, unbounded: bool)
    ensures Agrees(latest, latest, clock, unbounded)
    ensures Agrees(None, None, clock, unbounded)
    ensures !unbounded ==> Agrees(None, latest, clock, unbounded)
  {}

  class DnsCache {
    const shards: seq<CacheShard>
    const config: Config
    var hardenBelowNX: bool

    ghost var log: seq<Op>
    ghost var clock: int

    ghost predicate Shape() {
      |shards| == SHARDS && forall i, j :: 0 <= i < j < SHARDS ==> shards[i] != shards[j]
    }

    /** The entry the cache holds for a key. */
    ghost function Find(k: CacheKey): Option<Entry>
      requires Shape()
      reads shards
    {
      var m := shards[ShardIndex(k.name)].entries;
      if k in m then Some(m[k]) else None
    }

    /** Every shard keeps its own invariant, holds only its own names, and is within capacity. */
    ghost predicate ShardOk(i: nat)
      requires Shape() && i < SHARDS
      reads shards
    {
      && shards[i].Valid()
      && (forall k :: k in shards[i].entries ==> ShardIndex(k.name) == i)
      && (config.maxEntries > 0 ==> |shards[i].entries| <= Limit(config.maxEntries))
    }

    ghost predicate LogOk(k: CacheKey)
      requires Shape()
      reads this, shards
    {
      Agrees(Find(k), Latest(log, k), clock, config.maxEntries <= 0)
    }

    ghost predicate Valid()
      reads this, shards
    {
      && Shape()
      && (forall i :: 0 <= i < SHARDS ==> ShardOk(i))
      && (forall k :: LogOk(k))
    }

    /** The clock has not gone back, and no entry is 2^32 seconds old. */
    ghost predicate TimeOk(now: int)
      requires Shape()
      reads this, shards
    {
      && clock <= now
      && forall k :: Find(k).Some? ==> ClockOk(Find(k).value.value, now)
    }

    /** A step that touches one shard leaves the others alone. */
    twostate lemma OthersKept(idx: nat)
      requires old(Valid()) && idx < SHARDS
      requires forall i :: 0 <= i < SHARDS && shards[i] != shards[idx] ==> unchanged(shards[i])
      ensures forall i :: 0 <= i < SHARDS && i != idx ==> ShardOk(i)
      ensures forall k: CacheKey :: ShardIndex(k.name) != idx ==> Find(k) == old(Find(k))
    {
      hide ShardIndex;
      forall i | 0 <= i < SHARDS && i != idx ensures ShardOk(i) {
        assert old(ShardOk(i)) && shards[i] != shards[idx];
      }
      forall k: CacheKey | ShardIndex(k.name) != idx ensures Find(k) == old(Find(k)) {
        assert shards[ShardIndex(k.name)] != shards[idx];
      }
    }

    constructor (config: Config)
      ensures Valid() && this.config == config && log == [] && fresh(shards)
      ensures forall k :: Find(k) == None
    {
      var built: seq<CacheShard> := [];
      for i := 0 to SHARDS
        invariant |built| == i && fresh(built)
        invariant forall j, k :: 0 <= j < k < i ==> built[j] != built[k]
        invariant forall j :: 0 <= j < i ==> built[j].Valid() && built[j].entries == map[]
      {
        var s := new CacheShard();
        built := built + [s];
      }
      this.shards := built;
      this.config := config;
      hardenBelowNX := false;
      log := [];
      clock := 0;
    }

    /** Insert into the shard of the key; at most one other key loses its entry. */
    method Insert(key: CacheKey, e: Entry) returns (ghost victim: Option<CacheKey>)
      requires Valid()
      modifies shards
      ensures forall i :: 0 <= i < SHARDS ==> ShardOk(i)
      ensures victim.Some? ==> config.maxEntries > 0
      ensures forall k :: Find(k) == if Some(k) == victim then None else if k == key then Some(e) else old(Find(k))
    {
      hide ShardIndex, CacheShard.Valid, LogOk, Expiry;
      var idx := ShardIndex(key.name);
      assert ShardOk(idx);
      victim := shards[idx].Put(key, e, config.maxEntries);
      OthersKept(idx);
      ghost var full := old(shards[idx].entries)[key := e];
      assert shards[idx].entries == if victim.Some? then full - {victim.value} else full;
      if victim.Some? { assert victim.value in full; }
    }

    /** The shared tail of the Store functions. */
    method PutEntry(key: CacheKey, v: EntryValue, now: int) returns (ghost victim: Option<CacheKey>)
      requires Valid() && clock <= now
      modifies this`log, this`clock, shards
      ensures Valid() && clock == now
      ensures Appended(old(log), log, key, v)
      ensures victim.Some? ==> config.maxEntries > 0
      ensures forall k ::
                Find(k) == if Some(k) == victim then None else if k == key then Latest(log, key) else old(Find(k))
    {
      hide ShardIndex, Latest, Agrees, ShardOk, Find;
      var e := new Entry(v);
      victim := Insert(key, e);
      log := log + [Stored(key, e)];
      clock := now;
      LatestAfter(old(log), Stored(key, e), key);
      forall k ensures LogOk(k) {
        assert old(LogOk(k));
        LatestAfter(old(log), Stored(key, e), k);
        AgreesLater(old(Find(k)), Latest(old(log), k), old(clock), now, config.maxEntries <= 0);
        AgreesFresh(Latest(log, k), now, config.maxEntries <= 0);
      }
    }

    // ---- storing ----

    /** One store happened: the log grew by it, and at most one other key lost its entry. */
    twostate predicate StoredOnly(key: CacheKey, v: EntryValue, new victim: Option<CacheKey>)
      requires Shape()
      reads this, shards
    {
      && Appended(old(log), log, key, v)
      && (victim.Some? ==> config.maxEntries > 0)
      && forall k :: Find(k) == if Some(k) == victim then None else if k == key then Latest(log, key) else old(Find(k))
    }

    /** StoreWithStatus, and StoreWithECSStatus when there is an ECS prefix. An answer whose
        least sanitised TTL is zero is not cached; any other is cached for that TTL, clamped. */
    method StoreWithStatus(qname: Text, qtype: u16, class_: u16, answers: seq<RR>, authority: seq<RR>,
                           status: Text, ecsPrefix: Text, ecsScope: byte, now: int)
      returns (ghost ttl: u32, ghost victim: Option<CacheKey>)
      requires Valid() && clock <= now
      modifies this`log, this`clock, shards
      ensures Valid() && IsExtracted(answers, config.minTtl, ttl) && clock == if ttl == 0 then old(clock) else now
      ensures ttl == 0 ==> log == old(log) && forall k :: Find(k) == old(Find(k))
      ensures ttl != 0 ==>
                var scope := if ecsPrefix == [] then 0 else ecsScope;
                StoredOnly(CacheKey(Lower(qname), qtype, class_, ecsPrefix),
                           EntryValue(answers, authority, now, Clamp(ttl, config.minTtl, config.maxTtl),
                                      false, NegNone, 0, status, scope), victim)
      ensures qtype != 0 && HonestLog(old(log)) ==> HonestLog(log)
    {
      hide ShardIndex, Latest, Agrees, ShardOk, Find, IsExtracted, Appended;
      victim := None;
      var least := ExtractTTL(answers, config.minTtl);
      ttl := least;
      if least == 0 {
        return;
      }
      var scope := if ecsPrefix == [] then 0 else ecsScope;
      var v := EntryValue(answers, authority, now, Clamp(least, config.minTtl, config.maxTtl), false, NegNone, 0,
                         status, scope);
      victim := PutEntry(CacheKey(Lower(qname), qtype, class_, ecsPrefix), v, now);
      if qtype != 0 { AppendHonest(old(log), log, CacheKey(Lower(qname), qtype, class_, ecsPrefix), v); }
    }

    /** StoreNegative. An answer whose SOA records all miss the name is not cached, nor is one
        whose negative TTL is zero; NXDOMAIN goes to the sentinel of the name. */
    method StoreNegative(qname: Text, qtype: u16, class_: u16, negType: NegType, rcode: byte, authority: seq<RR>,
                         now: int)
      returns (ghost ttl: u32, ghost victim: Option<CacheKey>)
      requires Valid() && clock <= now
      modifies this`log, this`clock, shards
      ensures Valid() && IsNegativeTTL(authority, ttl)
      ensures var refused := ttl == 0 || (HasSOA(authority) && !Covered(qname, authority));
              && (refused ==> log == old(log) && clock == old(clock) && forall k :: Find(k) == old(Find(k)))
              && (!refused ==> clock == now)
              && (!refused ==>
                    StoredOnly(CacheKey(Lower(qname), if negType == NegNXDomain then 0 else qtype, class_, []),
                               EntryValue([], authority, now, Clamp(ttl, config.minTtl, config.negMaxTtl),
                                          true, negType, rcode, [], 0), victim))
      ensures qtype != 0 && HonestLog(old(log)) ==> HonestLog(log)
    {
      hide ShardIndex, Latest, Agrees, ShardOk, Find, IsNegativeTTL, Appended, HasSOA, Covered;
      victim := None;
      var raw := ExtractNegativeTTL(authority);
      ttl := raw;
      var any := HasAnySOA(authority);
      if any {
        var covered := AuthorityCoversName(qname, authority);
        if !covered {
          return;
        }
      }
      if raw == 0 {
        return;
      }
      var storeType := if negType == NegNXDomain then 0 else qtype;
      var key := CacheKey(Lower(qname), storeType, class_, []);
      var v := EntryValue([], authority, now, Clamp(raw, config.minTtl, config.negMaxTtl), true, negType, rcode, [], 0);
      victim := PutEntry(key, v, now);
      if HasSOA(authority) { CoveredLower(qname, authority); }
      if qtype != 0 { AppendHonest(old(log), log, key, v); }
    }

    /** StoreFailure: a SERVFAIL entry that lives from 1 to 30 seconds. */
    method StoreFailure(qname: Text, qtype: u16, class_: u16, ttl: u32, now: int)
      returns (ghost victim: Option<CacheKey>)
      requires Valid() && clock <= now
      modifies this`log, this`clock, shards
      ensures Valid() && clock == now
      ensures var lived := if ttl == 0 then DEFAULT_FAILURE else Clamp(ttl, 1, MAX_FAILURE);
              StoredOnly(CacheKey(Lower(qname), qtype, class_, []),
                         EntryValue([], [], now, lived, true, NegServFail, 2, [], 0), victim)
      ensures qtype != 0 && HonestLog(old(log)) ==> HonestLog(log)
    {
      hide ShardIndex, Latest, Agrees, ShardOk, Find, Appended;
      var t := ttl;
      if t == 0 {
        t := DEFAULT_FAILURE;
      }
      if t > MAX_FAILURE {
        t := MAX_FAILURE;
      }
      var key := CacheKey(Lower(qname), qtype, class_, []);
      var v := EntryValue([], [], now, t, true, NegServFail, 2, [], 0);
      victim := PutEntry(key, v, now);
      if qtype != 0 { AppendHonest(old(log), log, key, v); }
    }

    // ---- reading ----

    /** Read one key under its shard's lock. */
    method Peek(k: CacheKey) returns (e: Option<Entry>)
      requires Shape()
      ensures e == Find(k)
    {
      hide ShardIndex;
      var s := shards[ShardIndex(k.name)];
      e := if k in s.entries then Some(s.entries[k]) else None;
    }

    /** Delete one key under its shard's lock. */
    method Remove(key: CacheKey)
      requires Valid()
      modifies shards
      ensures forall i :: 0 <= i < SHARDS ==> ShardOk(i)
      ensures forall k :: Find(k) == if k == key then None else old(Find(k))
    {
      hide ShardIndex, LogOk, Expiry;
      var idx := ShardIndex(key.name);
      assert ShardOk(idx);
      SmallerOrSame(shards[idx].entries, key);
      shards[idx].entries := shards[idx].entries - {key};
      OthersKept(idx);
    }

    ghost predicate Live(k: CacheKey, now: int)
      requires Shape()
      reads shards
    {
      Find(k).Some? && RemainingTTL(Find(k).value.value, now) > 0
    }

    /** The walk of checkParentNXDomain over the parents of a name. */
    ghost function NearestLive(name: Text, class_: u16, now: int): Option<CacheKey>
      requires Shape()
      reads shards
      decreases |name|
    {
      match ParentName(name)
      case None => None
      case Some(p) => if Live(Sentinel(p, class_), now) then Some(Sentinel(p, class_)) else NearestLive(p, class_, now)
    }

    /** It finds the sentinel of the nearest ancestor that has a live one, and misses none. */
    lemma {:induction false} NearestLiveIsNearest(name: Text, class_: u16, now: int)
      requires Shape()
      ensures match NearestLive(name, class_, now)
              case None => forall a :: Above(a, name) ==> !Live(Sentinel(a, class_), now)
              case Some(k) =>
                && Above(k.name, name) && k == Sentinel(k.name, class_) && Live(k, now)
                && forall a :: Above(a, name) && Live(Sentinel(a, class_), now) ==> |a| <= |k.name|
      decreases |name|
    {
      hide Find, Live, Above, ParentName;
      forall a | Above(a, name)
        ensures ParentName(name).Some? && (a == ParentName(name).value || Above(a, ParentName(name).value))
      {
        AboveParent(a, name);
      }
      if ParentName(name).Some? {
        var parent := ParentName(name).value;
        ParentIsAbove(name);
        if !Live(Sentinel(parent, class_), now) {
          NearestLiveIsNearest(parent, class_, now);
          forall a | Above(a, parent) ensures Above(a, name) { AboveTransitive(a, parent, name); }
        } else {
          forall a | Above(a, parent) ensures |a| <= |parent| { AboveIsShorter(a, parent); }
        }
      }
    }

    /** checkParentNXDomain */
    method CheckParentNXDomain(start: Text, class_: u16, now: int) returns (r: Option<EntryValue>, ghost from: CacheKey)
      requires Shape()
      ensures r.Some? <==> NearestLive(start, class_, now) == Some(from)
      ensures r.None? <==> NearestLive(start, class_, now) == None
      ensures r.Some? ==> Live(from, now)
      ensures r.Some? ==> r == Some(Decayed(Find(from).value.value, RemainingTTL(Find(from).value.value, now)))
    {
      hide Find, RemainingTTL, Decayed, ParentName;
      var name := start;
      from := Sentinel([], class_);
      while true
        invariant NearestLive(start, class_, now) == NearestLive(name, class_, now)
        decreases |name|
      {
        var parent := CutFirstLabel(name);
        if parent.None? {
          return None, from;
        }
        var e := Peek(Sentinel(parent.value, class_));
        if e.Some? {
          var remaining := RemainingTTL(e.value.value, now);
          if remaining > 0 {
            var v := WithDecayedTTL(e.value.value, remaining);
            return Some(v), Sentinel(parent.value, class_);
          }
        }
        name := parent.value;
      }
    }

    /** What a held entry and an absent one say about the log. */
    lemma HeldIsLatest(k: CacheKey, now: int)
      requires Shape() && LogOk(k) && clock <= now
      ensures Find(k).Some? ==> Latest(log, k) == Find(k)
      ensures Find(k).None? && config.maxEntries <= 0 ==> Dead(Latest(log, k), now)
    {
      hide Find, Latest;
    }

    /** Time passes, and some dead entries go; the log still accounts for what is held. */
    twostate lemma ExpiredMayGo()
      requires Shape() && old(forall k :: LogOk(k)) && log == old(log) && old(clock) <= clock
      requires forall k :: Find(k) == old(Find(k)) || (Find(k).None? && Dead(old(Find(k)), clock))
      ensures forall k :: LogOk(k)
    {
      hide Find, Latest, Expiry;
      forall k ensures LogOk(k) {
        assert old(LogOk(k));
        AgreesLater(old(Find(k)), Latest(log, k), old(clock), clock, config.maxEntries <= 0);
      }
    }

    /** r is the latest store of the key with its remaining whole seconds as every TTL. */
    ghost predicate ServesLatest(r: EntryValue, k: CacheKey, now: int)
      reads this
    {
      && Latest(log, k).Some?
      && var v := Latest(log, k).value.value;
         var left := v.origTtl - (now - v.insertedAt) / SECOND;
         0 < left <= v.origTtl && r == Decayed(v, left)
    }

    /** A held entry that has time left is what the log says, decayed. */
    lemma HeldServesLatest(k: CacheKey, now: int)
      requires Shape() && LogOk(k) && clock <= now
      requires Find(k).Some? && ClockOk(Find(k).value.value, now) && RemainingTTL(Find(k).value.value, now) > 0
      ensures ServesLatest(Decayed(Find(k).value.value, RemainingTTL(Find(k).value.value, now)), k, now)
    {
      hide Find, Latest, Decayed;
      HeldIsLatest(k, now);
      RemainingIsExact(Find(k).value.value, now);
    }

    /** The key that answers a query: the key itself if it has an entry, or else the sentinel of
        the name if that has one, or else, with hardening, the nearest live sentinel above. */
    ghost function Chosen(name: Text, qtype: u16, class_: u16, now: int): Option<CacheKey>
      requires Shape()
      reads this, shards
    {
      var key := CacheKey(name, qtype, class_, []);
      var nx := Sentinel(name, class_);
      if Find(key).Some? then (if Live(key, now) then Some(key) else None)
      else if qtype == 0 then None
      else if Find(nx).Some? then (if Live(nx, now) then Some(nx) else None)
      else if hardenBelowNX then NearestLive(name, class_, now)
      else None
    }

    /** The latest store of the key, and that of the sentinel if the key has none, are gone. */
    ghost predicate AllDead(name: Text, qtype: u16, class_: u16, now: int)
      reads this
    {
      var latest := Latest(log, CacheKey(name, qtype, class_, []));
      && Dead(latest, now)
      && (latest.None? && qtype != 0 ==> Dead(Latest(log, Sentinel(name, class_)), now))
    }

    /** The reading part of Get. A hit is the latest undeleted store of one key: the queried key,
        or the NXDOMAIN sentinel of the name when the key has no entry, or the live sentinel of
        the nearest ancestor that has one. It is served with the whole seconds it has left, at
        least one. A cache without a capacity limit misses only when the latest store of the key,
        and of the sentinel if the key has none, is missing or has expired. An expired entry that
        is not kept for stale answers is to be deleted, which takes another lock. */
    method BeginGet(qname: Text, qtype: u16, class_: u16, now: int)
      returns (r: Option<EntryValue>, ghost from: CacheKey, expired: Option<(CacheKey, Entry)>)
      requires Valid() && TimeOk(now)
      modifies this`clock
      ensures Valid() && clock == now
      ensures r.Some? ==> ServesLatest(r.value, from, now)
      ensures r.None? == old(Chosen(Lower(qname), qtype, class_, now)).None?
      ensures r.Some? ==> old(Chosen(Lower(qname), qtype, class_, now)) == Some(from)
      ensures r.None? && config.maxEntries <= 0 ==> AllDead(Lower(qname), qtype, class_, now)
      ensures match expired
              case None => r.None? && !config.serveStale ==>
                             && Find(CacheKey(Lower(qname), qtype, class_, [])).None?
                             && Find(Sentinel(Lower(qname), class_)).None?
              case Some((key, seen)) =>
                && r.None? && !config.serveStale && Find(key) == Some(seen) && Dead(Some(seen), now)
                && key == if Find(CacheKey(Lower(qname), qtype, class_, [])).Some?
                          then CacheKey(Lower(qname), qtype, class_, [])
                          else Sentinel(Lower(qname), class_)
    {
      hide ShardIndex, Latest, Agrees, ShardOk, Find, RemainingTTL, Decayed, NearestLive;
      var name := Lower(qname);
      var key := CacheKey(name, qtype, class_, []);
      var nx := Sentinel(name, class_);
      clock := now;
      ExpiredMayGo();
      HeldIsLatest(key, now);
      HeldIsLatest(nx, now);
      var lookup := key;
      expired := None;
      var e := Peek(key);
      if e.None? && qtype != 0 {
        lookup := nx;
        e := Peek(nx);
      }
      from := lookup;
      if e.None? {
        r := None;
        if hardenBelowNX && qtype != 0 {
          r, from := CheckParentNXDomain(name, class_, now);
          if r.Some? { HeldServesLatest(from, now); }
        }
        return;
      }
      RemainingIsExact(e.value.value, now);
      var remaining := RemainingTTL(e.value.value, now);
      if remaining == 0 {
        r := None;
        if !config.serveStale {
          expired := Some((lookup, e.value));
        }
        return;
      }
      HeldServesLatest(lookup, now);
      var v := WithDecayedTTL(e.value.value, remaining);
      r := Some(v);
    }

    /** The key holds an entry that has not expired. */
    ghost predicate HoldsLive(key: CacheKey)
      requires Shape()
      reads this, shards
    {
      Find(key).Some? && Expiry(Find(key).value.value) > clock
    }

    /** The deleting part of Get: whatever the key holds by now goes, without a look at it. To the
        callers of the cache the loss of a live entry is a deletion they never asked for. */
    method EndGet(key: CacheKey)
      requires Valid()
      modifies this`log, shards
      ensures Valid()
      ensures forall k :: Find(k) == if k == key then None else old(Find(k))
      ensures log == if old(HoldsLive(key)) then old(log) + [Deleted(key)] else old(log)
    {
      hide ShardIndex, Latest, Agrees, ShardOk, Find;
      ghost var lost := HoldsLive(key);
      Remove(key);
      if lost {
        log := log + [Deleted(key)];
        forall k ensures LogOk(k) {
          assert old(LogOk(k));
          LatestAfter(old(log), Deleted(key), k);
          AgreesFresh(None, clock, config.maxEntries <= 0);
        }
      } else {
        ExpiredMayGo();
      }
    }

    /** Between the two parts anything may happen. A live entry is lost, exactly, if the key was
        stored again since the read and that store is still held and has not expired. */
    twostate lemma LiveLossIff(key: CacheKey, seen: Entry)
      requires old(Valid()) && Valid() && old(log) <= log && old(clock) <= clock
      requires old(Find(key)) == Some(seen) && Dead(Some(seen), old(clock))
      ensures HoldsLive(key) <==>
                exists i :: |old(log)| <= i < |log| && log[i].Stored? && log[i].key == key
                            && Find(key) == Some(log[i].entry) && Expiry(log[i].entry.value) > clock
    {
      hide Find, Latest, ShardOk, Expiry;
      assert old(LogOk(key)) && LogOk(key);
      HeldIsLatest(key, clock);
      if HoldsLive(key) {
        assert old(Latest(log, key)) == Some(seen);
        StoredSince(old(log), log, key, seen, Find(key).value);
      }
    }

    /** Get when nothing comes between its two parts: only dead entries go. */
    method Get(qname: Text, qtype: u16, class_: u16, now: int) returns (r: Option<EntryValue>, ghost from: CacheKey)
      requires Valid() && TimeOk(now)
      modifies this`log, this`clock, shards
      ensures Valid() && clock == now && log == old(log)
      ensures r.Some? ==> ServesLatest(r.value, from, now)
      ensures r.None? == old(Chosen(Lower(qname), qtype, class_, now)).None?
      ensures r.Some? ==> old(Chosen(Lower(qname), qtype, class_, now)) == Some(from)
      ensures r.None? && config.maxEntries <= 0 ==> AllDead(Lower(qname), qtype, class_, now)
      ensures forall k :: Find(k) == old(Find(k)) || (Find(k).None? && !config.serveStale && Dead(old(Find(k)), now))
    {
      hide ShardIndex, Latest, ShardOk, Find, Chosen, LogOk, ServesLatest, AllDead;
      var expired;
      r, from, expired := BeginGet(qname, qtype, class_, now);
      if expired.Some? {
        EndGet(expired.value.0);
      }
    }

    lemma DeadIsNotLive(key: CacheKey, now: int)
      requires Shape() && TimeOk(now) && Dead(Find(key), now)
      ensures !Live(key, now)
    {
      hide Find;
      if Find(key).Some? { RemainingIsExact(Find(key).value.value, now); }
    }

    /** With a store of the key between the parts, the fresh answer is deleted unread. */
    method GetLosesStore(qname: Text, qtype: u16, class_: u16, answers: seq<RR>, now: int) returns (ghost stored: Entry)
      requires Valid() && TimeOk(now)
      requires !config.serveStale && config.maxEntries <= 0 && config.minTtl > 0 && config.maxTtl > 0
      requires Find(CacheKey(Lower(qname), qtype, class_, [])).Some?
      requires Dead(Find(CacheKey(Lower(qname), qtype, class_, [])), now)
      requires answers != [] && forall i :: 0 <= i < |answers| ==> 0 < answers[i].ttl < 0x8000_0000
      modifies this`log, this`clock, shards
      ensures Valid() && clock == now
      ensures var key := CacheKey(Lower(qname), qtype, class_, []);
              && log == old(log) + [Stored(key, stored), Deleted(key)]
              && Find(key).None? && stored.value.records == answers && Expiry(stored.value) > now
    {
      hide ShardIndex, Latest, ShardOk, Find, LogOk, AllDead, ServesLatest, NearestLive;
      var key := CacheKey(Lower(qname), qtype, class_, []);
      DeadIsNotLive(key, now);
      var r, from, expired := BeginGet(qname, qtype, class_, now);
      var ttl, victim := StoreWithStatus(qname, qtype, class_, answers, [], [], [], 0, now);
      PositiveTTL(answers, config.minTtl, ttl);
      stored := log[|old(log)|].entry;
      StoredIsLatest(old(log), log, key, stored.value);
      EndGet(expired.value.0);
    }

    /** Whatever answers from under query type 0 is an NXDOMAIN of the name it is stored for,
        and if it has SOA records, one of them is at or above that name. */
    lemma SentinelAnswersNXDomain(r: EntryValue, from: CacheKey, now: int)
      requires HonestLog(log) && ServesLatest(r, from, now) && from.qtype == 0
      ensures r.negative && r.negType == NegNXDomain
      ensures HasSOA(r.authority) ==> Covered(from.name, r.authority)
    {
      hide Latest, HonestLog, InZone;
      LatestIsHonest(log, from);
    }

    /** GetStale: an expired entry only, with the stale TTL and without its DNSSEC status. */
    method GetStale(qname: Text, qtype: u16, class_: u16, now: int) returns (r: Option<EntryValue>)
      requires Valid() && TimeOk(now)
      ensures var key := CacheKey(Lower(qname), qtype, class_, []);
              && (r.Some? <==> config.serveStale && Find(key).Some? && Expiry(Find(key).value.value) <= now)
              && (r.Some? ==> Latest(log, key).Some?
                              && r.value == Decayed(Latest(log, key).value.value, config.staleTtl).(status := []))
    {
      hide ShardIndex, Latest, Agrees, ShardOk, Find, RemainingTTL, Decayed, Expiry;
      var key := CacheKey(Lower(qname), qtype, class_, []);
      if !config.serveStale {
        return None;
      }
      var e := Peek(key);
      if e.None? {
        return None;
      }
      RemainingIsExact(e.value.value, now);
      HeldIsLatest(key, now);
      if RemainingTTL(e.value.value, now) > 0 {
        return None;
      }
      var v := WithDecayedTTL(e.value.value, config.staleTtl);
      r := Some(v.(status := []));
    }

    /** Delete */
    method Delete(qname: Text, qtype: u16, class_: u16) returns (ok: bool)
      requires Valid()
      modifies this`log, shards
      ensures Valid()
      ensures var key := CacheKey(Lower(qname), qtype, class_, []);
              && log == old(log) + [Deleted(key)]
              && ok == old(Find(key)).Some?
              && forall k :: Find(k) == if k == key then None else old(Find(k))
    {
      hide ShardIndex, Latest, Agrees, ShardOk, Find;
      var key := CacheKey(Lower(qname), qtype, class_, []);
      var e := Peek(key);
      ok := e.Some?;
      if ok {
        Remove(key);
      }
      log := log + [Deleted(key)];
      forall k ensures LogOk(k) {
        assert old(LogOk(k));
        LatestAfter(old(log), Deleted(key), k);
        AgreesFresh(None, clock, config.maxEntries <= 0);
      }
    }

    // ---- all shards ----

    ghost function Contents(): (c: seq<map<CacheKey, Entry>>)
      requires Shape()
      reads shards
      ensures |c| == SHARDS && forall i :: 0 <= i < SHARDS ==> c[i] == shards[i].entries
    {
      seq(SHARDS, i requires 0 <= i < SHARDS reads shards => shards[i].entries)
    }

    /** At most maxEntries/256 + 1 entries in each shard, so at most maxEntries + 256 in all. */
    lemma CapacityBound()
      requires Valid() && config.maxEntries > 0
      ensures Total(Contents()) <= config.maxEntries + 256
    {
      hide LogOk, CacheShard.Valid, ShardIndex, Total;
      forall i | 0 <= i < SHARDS ensures |Contents()[i]| <= Limit(config.maxEntries) {
        assert ShardOk(i);
      }
      TotalAtMost(Contents(), Limit(config.maxEntries));
    }

    twostate lemma SweptFind(now: int)
      requires Shape()
      requires forall j :: 0 <= j < SHARDS ==> Contents()[j] == Survivors(old(Contents()[j]), now)
      ensures forall k :: Find(k) == if Dead(old(Find(k)), now) then None else old(Find(k))
    {
      hide ShardIndex, Expiry;
      forall k ensures Find(k) == if Dead(old(Find(k)), now) then None else old(Find(k)) {
        var j := ShardIndex(k.name);
        assert Contents()[j] == Survivors(old(Contents()[j]), now);
      }
    }

    lemma EntriesInTime(i: nat, later: int)
      requires Shape() && i < SHARDS && ShardOk(i) && TimeOk(later)
      ensures InTime(Contents()[i], later)
    {
      hide ShardIndex, ClockOk, CacheShard.Valid;
      forall k | k in Contents()[i] ensures ClockOk(Contents()[i][k].value, later) {
        assert Find(k) == Some(shards[i].entries[k]);
      }
    }

    /** sweep: removes exactly the entries whose expiry has come and counts them. */
    method Sweep(now: int, later: int) returns (evicted: nat)
      requires Valid() && TimeOk(later) && clock <= now <= later
      modifies this`clock, shards
      ensures Valid() && clock == now
      ensures forall k :: Find(k) == if Dead(old(Find(k)), now) then None else old(Find(k))
      ensures evicted == old(Total(Contents())) - Total(Contents())
    {
      hide ShardIndex, LogOk, Expiry, ClockOk, Total, CacheShard.Valid, TimeOk, Find, ShardOk, Survivors, Contents,
        Dead, InTime;
      evicted := 0;
      ghost var was := Contents();
      forall i | 0 <= i < SHARDS ensures InTime(was[i], later) {
        EntriesInTime(i, later);
      }
      for i := 0 to SHARDS
        invariant forall j :: 0 <= j < SHARDS ==> ShardOk(j)
        invariant forall j :: 0 <= j < i ==> Contents()[j] == Survivors(was[j], now)
        invariant forall j :: i <= j < SHARDS ==> Contents()[j] == was[j]
        invariant evicted == Total(was) - Total(Contents())
      {
        ghost var c := Contents();
        var n := SweepShard(i, now, later);
        TotalReplaced(c, i, Survivors(c[i], now));
        evicted := evicted + n;
      }
      clock := now;
      SweptFind(now);
      ExpiredMayGo();
    }

    method SweepShard(i: nat, now: int, later: int) returns (evicted: nat)
      requires i < SHARDS && now <= later && Shape()
      requires forall j :: 0 <= j < SHARDS ==> ShardOk(j)
      requires InTime(Contents()[i], later)
      modifies shards[i]
      ensures forall j :: 0 <= j < SHARDS ==> ShardOk(j)
      ensures Contents() == old(Contents())[i := Survivors(old(Contents()[i]), now)]
      ensures evicted == |old(Contents()[i])| - |Contents()[i]|
    {
      hide ShardIndex, Expiry, ClockOk, CacheShard.CoversAllBut;
      assert ShardOk(i);
      evicted := shards[i].EvictExpired(now, later);
      forall j | 0 <= j < SHARDS && j != i ensures ShardOk(j) && shards[j] != shards[i] {
        assert old(ShardOk(j));
      }
      // with the queue covering every entry, the sweep's fallback scan has nothing to do
      shards[i].QueueCovers();
      assert !(|shards[i].entries| > 0 && shards[i].evictQ == []);
    }

    /** Flush */
    method Flush()
      requires Valid()
      modifies this`log, shards
      ensures Valid()
      ensures log == old(log) + [Flushed]
      ensures forall k :: Find(k) == None
    {
      hide ShardIndex, Expiry, CacheShard.CoversAllBut;
      for i := 0 to SHARDS
        invariant log == old(log)
        invariant forall j :: 0 <= j < i ==> shards[j].Valid() && shards[j].entries == map[]
      {
        shards[i].Reset();
      }
      log := log + [Flushed];
      forall k ensures Find(k) == None && LogOk(k) {
        LatestAfter(old(log), Flushed, k);
      }
      forall i | 0 <= i < SHARDS ensures ShardOk(i) {
      }
    }
  }

  ghost function Total(c: seq<map<CacheKey, Entry>>): nat {
    if c == [] then 0 else |c[0]| + Total(c[1..])
  }

  lemma {:induction false} TotalAtMost(c: seq<map<CacheKey, Entry>>, limit: nat)
    requires forall i :: 0 <= i < |c| ==> |c[i]| <= limit
    ensures Total(c) <= |c| * limit
  {
    if c != [] { TotalAtMost(c[1..], limit); }
  }

  lemma {:induction false} TotalReplaced(c: seq<map<CacheKey, Entry>>, i: nat, m: map<CacheKey, Entry>)
    requires i < |c|
    ensures Total(c[i := m]) == Total(c) - |c[i]| + |m|
  {
    if i > 0 {
      TotalReplaced(c[1..], i - 1, m);
      assert c[i := m][1..] == c[1..][i - 1 := m];
    } else {
      assert c[i := m][1..] == c[1..];
    }
  }

  ghost predicate InTime(m: map<CacheKey, Entry>, later: int) {
    forall k :: k in m ==> ClockOk(m[k].value, later)
  }

  ghost function Survivors(m: map<CacheKey, Entry>, now: int): map<CacheKey, Entry> {
    map k | k in m && Expiry(m[k].value) > now :: m[k]
  }

  /** The cache key of the NXDOMAIN entry for a name. */
  function Sentinel(name: Text, class_: u16): CacheKey {
    CacheKey(name, 0, class_, [])
  }

  /** The index of the first dot, or the length. */
  function FirstDot(s: Text): (d: nat)
    ensures d <= |s| && (forall i :: 0 <= i < d ==> s[i] != DOT) && (d < |s| ==> s[d] == DOT)
  {
    if s == [] || s[0] == DOT then 0 else 1 + FirstDot(s[1..])
  }

  method IndexByte(s: Text) returns (d: nat)
    ensures d == FirstDot(s)
  {
    d := 0;
    assert s[0..] == s;
    while d < |s| && s[d] != DOT
      invariant d <= |s| && FirstDot(s) == d + FirstDot(s[d..])
    {
      assert s[d..][1..] == s[d + 1..];
      d := d + 1;
    }
  }

  /** a is a non-empty text behind some dot of name: a proper ancestor. */
  predicate Above(a: Text, name: Text) {
    0 < |a| < |name| && name[|name| - |a| - 1] == DOT && name[|name| - |a|..] == a
  }

  /** What follows the first dot, unless there is none or nothing follows it. */
  function ParentName(name: Text): (p: Option<Text>)
    ensures p.Some? ==> 0 < |p.value| < |name|
  {
    var d := FirstDot(name);
    if d == |name| || d + 1 == |name| then None else Some(name[d + 1..])
  }

  method CutFirstLabel(name: Text) returns (p: Option<Text>)
    ensures p == ParentName(name)
  {
    hide FirstDot;
    var d := IndexByte(name);
    if d == |name| || d + 1 == |name| {
      return None;
    }
    p := Some(name[d + 1..]);
  }

  lemma AboveParent(a: Text, name: Text)
    requires Above(a, name)
    ensures ParentName(name).Some? && (a == ParentName(name).value || Above(a, ParentName(name).value))
  {
    hide FirstDot, Above;
    var d, at := FirstDot(name), |name| - |a| - 1;
    AboveDot(a, name);
    FirstIsFirst(name, at);
    if at == d {
      assert name[d + 1..] == name[|name| - |a|..];
    } else {
      AboveSlice(a, name, d + 1);
    }
  }

  lemma FirstIsFirst(name: Text, at: nat)
    requires at < |name| && name[at] == DOT
    ensures FirstDot(name) <= at
  {}

  lemma AboveDot(a: Text, name: Text)
    requires Above(a, name)
    ensures 0 < |a| < |name| && name[|name| - |a| - 1] == DOT && name[|name| - |a|..] == a
  {}

  /** An ancestor is an ancestor of every longer end of the name. */
  lemma AboveSlice(a: Text, name: Text, from: nat)
    requires Above(a, name) && from + |a| < |name|
    ensures Above(a, name[from..])
  {
    var end := name[from..];
    assert end[|end| - |a|..] == name[|name| - |a|..];
    assert end[|end| - |a| - 1] == name[|name| - |a| - 1];
  }

  lemma ParentIsAbove(name: Text)
    requires ParentName(name).Some?
    ensures Above(ParentName(name).value, name)
  {
    hide FirstDot;
    var d := FirstDot(name);
    assert |name| - |name[d + 1..]| - 1 == d;
  }

  lemma AboveIsShorter(a: Text, name: Text)
    requires Above(a, name)
    ensures |a| < |name|
  {}

  lemma AboveTransitive(a: Text, b: Text, name: Text)
    requires Above(a, b) && Above(b, name)
    ensures Above(a, name)
  {
    assert name[|name| - |a|..] == name[|name| - |b|..][|b| - |a|..];
    assert name[|name| - |a| - 1] == name[|name| - |b|..][|b| - |a| - 1];
  }

  ghost predicate Dead(e: Option<Entry>, now: int) {
    e.None? || Expiry(e.value.value) <= now
  }

  lemma StoredIsLatest(before: seq<Op>, after: seq<Op>, key: CacheKey, v: EntryValue)
    requires Appended(before, after, key, v)
    ensures Latest(after, key) == Some(after[|before|].entry) && after == before + [Stored(key, after[|before|].entry)]
  {
    hide Latest;
    var op := after[|before|];
    assert op == Stored(key, op.entry);
    assert after == before + [op];
    LatestAfter(before, op, key);
  }

  lemma PositiveTTL(answers: seq<RR>, minTtl: u32, ttl: u32)
    requires answers != [] && IsExtracted(answers, minTtl, ttl)
    requires forall i :: 0 <= i < |answers| ==> 0 < answers[i].ttl < 0x8000_0000
    ensures ttl > 0
  {}

  /** A latest store that was not the latest before was made since. */
  lemma {:induction false} StoredSince(before: seq<Op>, after: seq<Op>, key: CacheKey, seen: Entry, e: Entry)
    requires before <= after && Latest(before, key) == Some(seen) && Latest(after, key) == Some(e) && e != seen
    ensures exists i :: |before| <= i < |after| && after[i] == Stored(key, e)
    decreases |after|
  {
    assert before != after;
    var n := |after| - 1;
    if after[n] != Stored(key, e) {
      var less := after[..n];
      StoredSince(before, less, key, seen, e);
      var i :| |before| <= i < |less| && less[i] == Stored(key, e);
      assert after[i] == less[i];
    }
  }

  /** Only NXDOMAIN lives under query type 0, and a cached denial that has SOA records has one
      at or above its name. */
  ghost predicate Honest(k: CacheKey, v: EntryValue) {
    && (k.qtype == 0 ==> v.negative && v.negType == NegNXDomain)
    && (v.negType == NegNXDomain || v.negType == NegNoData ==> HasSOA(v.authority) ==> Covered(k.name, v.authority))
  }

  ghost predicate HonestLog(log: seq<Op>) {
    forall i :: 0 <= i < |log| && log[i].Stored? ==> Honest(log[i].key, log[i].entry.value)
  }

  lemma AppendHonest(before: seq<Op>, after: seq<Op>, key: CacheKey, v: EntryValue)
    requires Appended(before, after, key, v) && (HonestLog(before) ==> Honest(key, v))
    ensures HonestLog(before) ==> HonestLog(after)
  {
    hide Honest;
    if HonestLog(before) {
      forall i | 0 <= i < |after| && after[i].Stored? ensures Honest(after[i].key, after[i].entry.value) {
        if i < |before| { assert after[i] == after[..|before|][i] == before[i]; }
      }
    }
  }

  lemma {:induction false} LatestIsHonest(log: seq<Op>, k: CacheKey)
    requires HonestLog(log) && Latest(log, k).Some?
    ensures Honest(k, Latest(log, k).value.value)
  {
    hide Honest;
    var last := log[|log| - 1];
    if !(last.Stored? && last.key == k) {
      assert HonestLog(log[..|log| - 1]);
      LatestIsHonest(log[..|log| - 1], k);
    }
  }

  lemma CoveredLower(qname: Text, authority: seq<RR>)
    requires Covered(qname, authority)
    ensures Covered(Lower(qname), authority)
  {
    hide InZone;
    assert Lower(TrimDot(Lower(qname))) == Lower(TrimDot(qname));
  }

  /** The log grew by the store of v under key. */
  ghost predicate Appended(before: seq<Op>, after: seq<Op>, key: CacheKey, v: EntryValue) {
    && |after| == |before| + 1 && after[..|before|] == before
    && after[|before|].Stored? && after[|before|].key == key && after[|before|].entry.value == v
  }
}
