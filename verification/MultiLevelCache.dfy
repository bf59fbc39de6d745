/** The cache object: its map, clock and counters are changed in place by every call. */
module MultiLevelCache {
  import opened Prelude
  import opened Codecs
  import opened T = TwoLevelCache
  import L = L1Cache

  class Cache {
    var l1: map<string, L.Entry>
    var clock: int
    var hits: nat
    var misses: nat
    var l2: Option<map<string, Bytes>>
    const cfg: Config

    constructor (cfg: Config, redis: bool)
      ensures this.cfg == cfg && Valid() && View() == Run(cfg, redis, [])
    {
      this.cfg := cfg;
      l1, clock, hits, misses := map[], 0, 0, 0;
      l2 := if redis then Some(map[]) else None;
    }

    function View(): Store
      reads this
    {
      Store(L.L1(l1, clock), l2, hits, misses)
    }

    /** Stamps are distinct and the clock is below its 64-bit limit. */
    ghost predicate Valid()
      reads this
    {
      L.Stamped(L.L1(l1, clock))
    }

    /** Room on the clock for `n` more touches. */
    ghost predicate ClockAllows(n: nat)
      reads this
    {
      clock + n < MAX_INT64
    }

    method L1Get(key: string, now: int) returns (data: Option<Bytes>)
      requires Valid() && ClockAllows(1)
      modifies this`l1, this`clock
      ensures Valid() && L.L1(l1, clock) == L.Get(old(L.L1(l1, clock)), key, now)
      ensures data.Some? <==> L.Hit(old(L.L1(l1, clock)), key, now)
      ensures data.Some? ==> data.value == old(l1)[key].data
    {
      ghost var s := L.L1(l1, clock);
      if key !in l1 {
        assert l1 - {key} == l1;
        return None;
      }
      var entry := l1[key];
      if now > entry.expiresAt {
        l1 := l1 - {key};
        L.FewerEntriesStayStamped(s, l1);
        return None;
      }
      clock := clock + 1;
      l1 := l1[key := entry.(lastHit := clock)];
      L.TouchStaysStamped(s, key, entry.(lastHit := clock));
      return Some(entry.data);
    }

    /** Scans the whole map, in no particular order, for the smallest stamp. */
    method EvictOneLocked()
      requires Valid()
      modifies this`l1
      ensures Valid() && l1 == L.EvictOne(old(l1))
    {
      ghost var s := L.L1(l1, clock);
      var oldestKey := ScanOldest();
      if oldestKey != "" {
        l1 := l1 - {oldestKey};
        L.FewerEntriesStayStamped(s, l1);
      }
    }

    method ScanOldest() returns (oldestKey: string)
      requires Valid()
      ensures oldestKey == L.Oldest(l1)
    {
      var oldestHit := MAX_INT64;
      oldestKey := "";
      var todo := l1.Keys;
      while todo != {}
        invariant todo <= l1.Keys
        invariant if oldestHit == MAX_INT64 then oldestKey == "" && todo == l1.Keys
                  else oldestKey in l1 && l1[oldestKey].lastHit == oldestHit
        invariant forall k | k in l1 && k !in todo :: oldestHit <= l1[k].lastHit
        decreases |todo|
      {
        var k :| k in todo;
        if l1[k].lastHit < oldestHit {
          oldestKey, oldestHit := k, l1[k].lastHit;
        }
        todo := todo - {k};
      }
      if oldestHit == MAX_INT64 {
        L.NothingIsOldest(l1);
      } else {
        L.ScanFindsOldest(L.L1(l1, clock), oldestKey);
      }
    }

    method MakeRoom()
      requires Valid()
      modifies this`l1
      ensures Valid() && l1 == L.Room(cfg.maxSize, old(l1))
    {
      if |l1| >= cfg.maxSize {
        EvictOneLocked();
      }
    }

    method Stamp(key: string, data: Bytes, expiresAt: int)
      requires Valid() && ClockAllows(1)
      modifies this`l1, this`clock
      ensures Valid() && clock == old(clock) + 1
      ensures l1 == old(l1)[key := L.Entry(data, expiresAt, clock)]
    {
      ghost var s := L.L1(l1, clock);
      clock := clock + 1;
      l1 := l1[key := L.Entry(data, expiresAt, clock)];
      L.TouchStaysStamped(s, key, L.Entry(data, expiresAt, clock));
    }

    method L1Set(key: string, data: Bytes, expiresAt: int)
      requires Valid() && ClockAllows(1)
      modifies this`l1, this`clock
      ensures Valid() && View() == Fill(cfg, old(View()), key, data, expiresAt)
    {
      MakeRoom();
      Stamp(key, data, expiresAt);
    }

    /** One pass of the expiry loop. */
    method EvictExpired(now: int)
      requires Valid()
      modifies this`l1
      ensures Valid() && L.L1(l1, clock) == L.Sweep(old(L.L1(l1, clock)), now)
    {
      ghost var s := L.L1(l1, clock);
      var todo := l1.Keys;
      while todo != {}
        invariant todo <= old(l1).Keys
        invariant forall k | k in l1 :: k in old(l1) && l1[k] == old(l1)[k]
        invariant forall k | k in old(l1) :: k in l1 <==> k in todo || now <= old(l1)[k].expiresAt
        decreases |todo|
      {
        var k :| k in todo;
        if now > l1[k].expiresAt {
          l1 := l1 - {k};
        }
        todo := todo - {k};
      }
      assert l1 == L.Sweep(s, now).entries;
      L.FewerEntriesStayStamped(s, l1);
    }

    method Get(key: string, now: int, trouble: Trouble) returns (reply: Reply)
      requires Valid() && ClockAllows(2)
      modifies this
      ensures Valid() && (View(), reply) == T.Get(cfg, old(View()), key, now, trouble)
      ensures hits + misses == old(hits) + old(misses) + (if trouble.Cancelled? then 0 else 1)
    {
      if trouble.Cancelled? {
        return Failed;
      }
      var found := L1Get(key, now);
      if found.Some? {
        hits := hits + 1;
        return if IsNilValue(found.value) then NilValue else Raw(found.value);
      }
      reply := GetFromRedis(key, now, trouble);
    }

    method GetFromRedis(key: string, now: int, trouble: Trouble) returns (reply: Reply)
      requires Valid() && ClockAllows(1)
      modifies this
      ensures Valid() && (View(), reply) == GetFromL2(cfg, old(View()), key, now, trouble)
      ensures hits + misses == old(hits) + old(misses) + 1
    {
      if l2.None? || !trouble.NoTrouble? || L2Key("cache", key) !in l2.value {
        misses := misses + 1;
        return if l2.Some? && !trouble.NoTrouble? then Failed else Miss;
      }
      var data := l2.value[L2Key("cache", key)];
      L1Set(key, data, now + cfg.defaultTTL);
      if IsNilValue(data) {
        misses := misses + 1;
        return NilValue;
      }
      hits := hits + 1;
      return Raw(data);
    }

    /** `fails` is a Redis error on the MGET, if one is sent. */
    method GetMany(keys: seq<string>, now: int, fails: bool) returns (reply: ManyReply)
      requires Valid() && ClockAllows(2 * |keys|)
      modifies this
      ensures Valid() && (View(), reply) == T.GetMany(cfg, old(View()), keys, now, fails)
    {
      if |keys| == 0 {
        return Many(map[]);
      }
      var result := ReadL1(keys, now);
      if l2.Some? {
        var missing := MissingKeys(keys, result);
        if |missing| > 0 && fails {
          return ManyFailed;
        }
        result := ReadL2(missing, result, now);
      }
      return if |result| == 0 then ManyMiss else Many(result);
    }

    method ReadL1(keys: seq<string>, now: int) returns (result: map<string, Bytes>)
      requires Valid() && ClockAllows(|keys|)
      modifies this`l1, this`clock, this`hits
      ensures Valid() && clock <= old(clock) + |keys|
      ensures Found(View(), result) == L1Pass(Found(old(View()), map[]), keys, now)
    {
      result := map[];
      var i := 0;
      while i < |keys|
        invariant 0 <= i <= |keys|
        invariant Valid() && clock <= old(clock) + i
        invariant L1Pass(Found(View(), result), keys[i..], now) == L1Pass(Found(old(View()), map[]), keys, now)
      {
        ghost var f := Found(View(), result);
        var found := L1Get(keys[i], now);
        if found.Some? {
          result := result[keys[i] := found.value];
          hits := hits + 1;
        }
        assert Found(View(), result) == L1Read(f, keys[i], now);
        assert keys[i..][1..] == keys[i + 1..];
        i := i + 1;
      }
    }

    /** The replies of one MGET, in the order of the keys asked for. */
    method ReadL2(missing: seq<string>, found: map<string, Bytes>, now: int) returns (result: map<string, Bytes>)
      requires Valid() && ClockAllows(|missing|) && l2.Some?
      modifies this`l1, this`clock, this`hits, this`misses
      ensures Valid() && Found(View(), result) == L2Pass(cfg, Found(old(View()), found), missing, now)
    {
      result := found;
      var i := 0;
      while i < |missing|
        invariant 0 <= i <= |missing|
        invariant Valid() && clock <= old(clock) + i
        invariant L2Pass(cfg, Found(View(), result), missing[i..], now) ==
                  L2Pass(cfg, Found(old(View()), found), missing, now)
      {
        result := ReadOneL2(missing[i], result, now);
        assert missing[i..][1..] == missing[i + 1..];
        i := i + 1;
      }
    }

    method ReadOneL2(key: string, found: map<string, Bytes>, now: int) returns (result: map<string, Bytes>)
      requires Valid() && ClockAllows(1) && l2.Some?
      modifies this`l1, this`clock, this`hits, this`misses
      ensures Valid() && clock <= old(clock) + 1
      ensures Found(View(), result) == L2Read(cfg, Found(old(View()), found), key, now)
    {
      result := found;
      var full := L2Key("cache", key);
      if full in l2.value {
        L1Set(key, l2.value[full], now + cfg.defaultTTL);
        result := result[key := l2.value[full]];
        hits := hits + 1;
      } else {
        misses := misses + 1;
      }
    }

    /** Set of an encoded value; `None` is an encoding failure, reported before anything is written. */
    method Set(key: string, data: Option<Bytes>, expiresAt: int) returns (ok: bool)
      requires Valid() && ClockAllows(1)
      modifies this
      ensures Valid() && ok == data.Some? && View() == T.Set(cfg, old(View()), key, data, expiresAt)
    {
      if data.None? {
        return false;
      }
      L1Set(key, data.value, expiresAt);
      if l2.Some? {
        l2 := Some(l2.value[L2Key("cache", key) := data.value]);
      }
      return true;
    }

    method SetNil(key: string, now: int)
      requires Valid() && ClockAllows(1)
      modifies this
      ensures Valid() && View() == T.SetNil(cfg, old(View()), key, now)
    {
      var _ := Set(key, Some(NIL_PLACEHOLDER), now + cfg.defaultNilTTL);
    }

    /** The items in the order the map is ranged over. */
    method SetMany(items: seq<Pair>, expiresAt: int) returns (ok: bool)
      requires Valid() && ClockAllows(|items|)
      modifies this
      ensures Valid() && ok == AllEncoded(items) && View() == T.SetMany(cfg, old(View()), items, expiresAt)
    {
      var i := 0;
      while i < |items|
        invariant 0 <= i <= |items| && Valid() && clock <= old(clock) + i
        invariant forall j | 0 <= j < i :: items[j].data.Some?
        invariant FillMany(cfg, View(), items[i..], expiresAt) == FillMany(cfg, old(View()), items, expiresAt)
      {
        if items[i].data.None? {
          return false;
        }
        ghost var s := View();
        L1Set(items[i].key, items[i].data.value, expiresAt);
        assert View() == Fill(cfg, s, items[i].key, items[i].data.value, expiresAt);
        assert items[i..][1..] == items[i + 1..];
        i := i + 1;
      }
      ghost var filled := View();
      i := 0;
      while i < |items| && l2.Some?
        invariant 0 <= i <= |items| && Valid()
        invariant l2.None? <==> filled.l2.None?
        invariant PutMany(View(), items[i..]) == PutMany(filled, items)
      {
        l2 := Some(l2.value[L2Key("cache", items[i].key) := items[i].data.value]);
        assert items[i..][1..] == items[i + 1..];
        i := i + 1;
      }
      PutManyWithoutRedis(View(), items[i..]);
      return true;
    }

    method Delete(key: string)
      requires Valid()
      modifies this
      ensures Valid() && View() == T.Delete(old(View()), key)
    {
      l1 := l1 - {key};
      if l2.Some? {
        l2 := Some(l2.value - {L2Key("cache", key)});
      }
    }

    /** SETNX on the lock's key; without Redis there are no locks. */
    method TryLock(key: string) returns (taken: Option<bool>)
      requires Valid()
      modifies this
      ensures Valid() && View() == T.Next(cfg, old(View()), LockStep(key))
      ensures taken == if old(l2).None? then None else Some(L2Key("lock", key) !in old(l2).value)
    {
      if l2.None? {
        return None;
      }
      if L2Key("lock", key) in l2.value {
        return Some(false);
      }
      l2 := Some(l2.value[L2Key("lock", key) := [49]]);
      return Some(true);
    }

    /** L1 at once; Redis by scanning `cache:*` and deleting what the scan yields. */
    method Clear()
      requires Valid()
      modifies this
      ensures Valid() && View() == T.Clear(old(View()))
    {
      l1 := map[];
      if l2.Some? {
        var todo := l2.value.Keys;
        while todo != {}
          invariant l1 == map[] && clock == old(clock) && hits == old(hits) && misses == old(misses)
          invariant l2.Some? && todo <= old(l2).value.Keys && l2.value.Keys <= old(l2).value.Keys
          invariant forall k | k in l2.value :: l2.value[k] == old(l2).value[k]
          invariant forall k | k in old(l2).value :: k in l2.value <==> k in todo || !IsCacheKey(k)
          decreases |todo|
        {
          var full :| full in todo;
          if IsCacheKey(full) {
            l2 := Some(l2.value - {full});
          }
          todo := todo - {full};
        }
        assert l2.value == map k | k in old(l2).value && !IsCacheKey(k) :: old(l2).value[k];
      }
    }
  }

  lemma {:induction false} PutManyWithoutRedis(s: Store, items: seq<Pair>)
    requires AllEncoded(items) && (s.l2.None? || items == [])
    ensures PutMany(s, items) == s
    decreases |items|
  {
    if items != [] {
      PutManyWithoutRedis(s, items[1..]);
    }
  }

  /** The keys of a GetMany that L1 did not answer, in order. */
  method MissingKeys(keys: seq<string>, result: map<string, Bytes>) returns (missing: seq<string>)
    ensures missing == Missing(keys, result) && |missing| <= |keys|
  {
    missing := [];
    var i := 0;
    while i < |keys|
      invariant 0 <= i <= |keys| && |missing| <= i
      invariant Missing(keys, result) == missing + Missing(keys[i..], result)
    {
      assert keys[i..][1..] == keys[i + 1..];
      if keys[i] !in result {
        assert missing + ([keys[i]] + Missing(keys[i + 1..], result)) ==
               (missing + [keys[i]]) + Missing(keys[i + 1..], result);
        missing := missing + [keys[i]];
      }
      i := i + 1;
    }
    assert missing + [] == missing;
  }
}
