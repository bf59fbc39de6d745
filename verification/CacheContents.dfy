/** What the cache has to hold: writes reach Redis and stay until they expire, locks stand apart, counters count. */
module CacheContents {
  import opened Prelude
  import opened Codecs
  import opened TwoLevelCache
  import L = L1Cache

  // ---- Redis holds the last write --------------------------------------------------------

  /** Redis holds a key exactly when it was written and not deleted since, with the bytes last written. */
  ghost predicate HoldsLast(s: Store, last: map<string, Bytes>, k: string) {
    s.l2.Some? && (InL2(s, k) <==> k in last) && (k in last ==> s.l2.value[L2Key("cache", k)] == last[k])
  }

  lemma {:induction false} PutManyHoldsLast(s: Store, items: seq<Pair>, last: map<string, Bytes>, k: string)
    requires AllEncoded(items) && HoldsLast(s, last, k)
    ensures HoldsLast(PutMany(s, items), PutAll(last, items), k)
    decreases |items|
  {
    if items != [] {
      KeysAreDistinct(items[0].key, k);
      PutManyHoldsLast(PutL2(s, items[0].key, items[0].data.value), items[1..],
                       last[items[0].key := items[0].data.value], k);
    }
  }

  lemma {:induction false} FillManyKeepsL2(cfg: Config, s: Store, items: seq<Pair>, expiresAt: int)
    ensures FillMany(cfg, s, items, expiresAt).l2 == s.l2
    decreases |items|
  {
    if items != [] && items[0].data.Some? {
      FillManyKeepsL2(cfg, Fill(cfg, s, items[0].key, items[0].data.value, expiresAt), items[1..], expiresAt);
    }
  }

  lemma ReadsKeepL2(cfg: Config, s: Store, keys: seq<string>, now: int, fails: bool)
    ensures GetMany(cfg, s, keys, now, fails).0.l2 == s.l2
  {
    var first := L1Pass(Found(s, map[]), keys, now);
    L1PassFinds(Found(s, map[]), keys, now, "");
    L2PassKeepsL2(cfg, first, Missing(keys, first.result), now);
  }

  lemma {:induction false} L2PassKeepsL2(cfg: Config, f: Found, missing: seq<string>, now: int)
    ensures L2Pass(cfg, f, missing, now).store.l2 == f.store.l2
    decreases |missing|
  {
    if missing != [] {
      L2PassKeepsL2(cfg, L2Read(cfg, f, missing[0], now), missing[1..], now);
    }
  }

  lemma StepHoldsLast(cfg: Config, s: Store, step: Step, last: map<string, Bytes>, k: string)
    requires HoldsLast(s, last, k) && step != ExpireStep(L2Key("cache", k))
    ensures HoldsLast(Next(cfg, s, step), LastNext(last, step), k)
  {
    KeysAreDistinct(k, k);
    match step
    case GetManyStep(keys, now, fails) => ReadsKeepL2(cfg, s, keys, now, fails);
    case SetStep(key, _, _) => KeysAreDistinct(key, k);
    case SetManyStep(items, expiresAt) =>
      FillManyKeepsL2(cfg, s, items, expiresAt);
      if AllEncoded(items) {
        PutManyHoldsLast(FillMany(cfg, s, items, expiresAt), items, last, k);
      }
    case SetNilStep(key, _) => KeysAreDistinct(key, k);
    case DeleteStep(key) => KeysAreDistinct(key, k);
    case LockStep(key) => KeysAreDistinct(key, k);
    case _ =>
  }

  /** Redis does not let the key expire during the run. */
  ghost predicate NeverExpires(steps: seq<Step>, k: string) {
    forall i | 0 <= i < |steps| :: steps[i] != ExpireStep(L2Key("cache", k))
  }

  /** With Redis, over every run in which the key does not expire there, Redis holds exactly what was last written. */
  lemma {:induction false} RedisHoldsLast(cfg: Config, steps: seq<Step>, k: string)
    requires NeverExpires(steps, k)
    ensures HoldsLast(Run(cfg, true, steps), LastWritten(steps), k)
  {
    if steps != [] {
      RedisHoldsLast(cfg, steps[..|steps| - 1], k);
      StepHoldsLast(cfg, Run(cfg, true, steps[..|steps| - 1]), steps[|steps| - 1],
                    LastWritten(steps[..|steps| - 1]), k);
    }
  }

  /** Then Get without trouble answers the last write, whatever L1 has evicted or let expire. */
  lemma GetFindsLastWrite(cfg: Config, steps: seq<Step>, k: string, now: int)
    requires NeverExpires(steps, k) && forall i | 0 <= i < |steps| :: WholeWrite(steps[i])
    ensures Get(cfg, Run(cfg, true, steps), k, now, NoTrouble).1 ==
            if k in LastWritten(steps) then Classify(LastWritten(steps)[k]) else Miss
  {
    RedisHoldsLast(cfg, steps, k);
    RunsAreCoherent(cfg, true, steps);
    GetAnswersLastWrite(cfg, true, steps, k, now, NoTrouble);
  }

  // ---- How long L1 answers ---------------------------------------------------------------

  /** L1 answers for the key up to this time and not after it. */
  ghost predicate AnswersUntil(s: Store, key: string, until: int) {
    forall t :: L.Hit(s.l1, key, t) <==> t <= until
  }

  /**
   * A Set answers until the time it was given, a SetNil for the time of nil values, and a Get that had to
   * ask Redis for the default time.
   */
  lemma WritesLast(cfg: Config, s: Store, key: string, data: Bytes, now: int, until: int)
    ensures AnswersUntil(Set(cfg, s, key, Some(data), until), key, until)
    ensures AnswersUntil(SetNil(cfg, s, key, now), key, now + cfg.defaultNilTTL)
    ensures InL2(s, key) && !L.Hit(s.l1, key, now) ==>
            AnswersUntil(Get(cfg, s, key, now, NoTrouble).0, key, now + cfg.defaultTTL)
  {
  }

  // ---- Locks -------------------------------------------------------------------------------

  /** The lock of a name is held from taking it until it expires. */
  predicate Locked(steps: seq<Step>, name: string) {
    steps != [] &&
    var before, last := steps[..|steps| - 1], steps[|steps| - 1];
    last == LockStep(name) || (last != ExpireStep(L2Key("lock", name)) && Locked(before, name))
  }

  /** Clear takes nothing from Redis that does not start with `cache:`. */
  lemma ClearKeepsOthers(s: Store, full: string)
    requires s.l2.Some? && !("cache:" <= full)
    ensures full in Clear(s).l2.value <==> full in s.l2.value
    ensures full in s.l2.value ==> Clear(s).l2.value[full] == s.l2.value[full]
  {
  }

  lemma {:induction false} PutManyKeepsLock(s: Store, items: seq<Pair>, name: string)
    requires AllEncoded(items) && s.l2.Some?
    ensures PutMany(s, items).l2.Some?
    ensures L2Key("lock", name) in PutMany(s, items).l2.value <==> L2Key("lock", name) in s.l2.value
    decreases |items|
  {
    if items != [] {
      KeysAreDistinct(name, items[0].key);
      PutManyKeepsLock(PutL2(s, items[0].key, items[0].data.value), items[1..], name);
    }
  }

  lemma LocksAreDistinct(a: string, b: string)
    ensures L2Key("lock", a) == L2Key("lock", b) <==> a == b
  {
    assert L2Key("lock", a)[5..] == a && L2Key("lock", b)[5..] == b;
  }

  lemma StepOnLock(cfg: Config, s: Store, step: Step, name: string)
    requires s.l2.Some?
    ensures var s' := Next(cfg, s, step);
            s'.l2.Some? && (L2Key("lock", name) in s'.l2.value <==>
              step == LockStep(name) || (step != ExpireStep(L2Key("lock", name)) && L2Key("lock", name) in s.l2.value))
  {
    KeysAreDistinct(name, name);
    match step
    case GetManyStep(keys, now, fails) => ReadsKeepL2(cfg, s, keys, now, fails);
    case SetStep(key, _, _) => KeysAreDistinct(name, key);
    case SetManyStep(items, expiresAt) =>
      FillManyKeepsL2(cfg, s, items, expiresAt);
      if AllEncoded(items) {
        PutManyKeepsLock(FillMany(cfg, s, items, expiresAt), items, name);
      }
    case SetNilStep(key, _) => KeysAreDistinct(name, key);
    case DeleteStep(key) => KeysAreDistinct(name, key);
    case LockStep(key) => LocksAreDistinct(name, key);
    case _ =>
  }

  /** Over every run, no cache call takes or frees a lock: not even Clear. */
  lemma {:induction false} LocksFollowHistory(cfg: Config, steps: seq<Step>, name: string)
    ensures Run(cfg, true, steps).l2.Some?
    ensures L2Key("lock", name) in Run(cfg, true, steps).l2.value <==> Locked(steps, name)
  {
    if steps != [] {
      LocksFollowHistory(cfg, steps[..|steps| - 1], name);
      StepOnLock(cfg, Run(cfg, true, steps[..|steps| - 1]), steps[|steps| - 1], name);
    }
  }

  // ---- Counters ------------------------------------------------------------------------------

  /** A Get that reaches the levels counts one hit for a value and for a nil in L1, and one miss otherwise. */
  lemma GetCounts(cfg: Config, s: Store, key: string, now: int, trouble: Trouble)
    ensures var (s', reply) := Get(cfg, s, key, now, trouble);
            var hit := reply.Raw? || (reply.NilValue? && L.Hit(s.l1, key, now));
            if trouble.Cancelled? then s' == s
            else s'.hits == s.hits + (if hit then 1 else 0) && s'.misses == s.misses + (if hit then 0 else 1)
  {
  }

  /** How many of the keys, repeats included, one of the levels holds. */
  function PresentIn(s: Store, keys: seq<string>, now: int): nat {
    if keys == [] then 0 else (if Present(s, keys[0], now) then 1 else 0) + PresentIn(s, keys[1..], now)
  }

  function InL1(s: Store, keys: seq<string>, now: int): nat {
    if keys == [] then 0 else (if L.Hit(s.l1, keys[0], now) then 1 else 0) + InL1(s, keys[1..], now)
  }

  lemma {:induction false} InL1AfterRead(f: Found, keys: seq<string>, key: string, now: int)
    ensures InL1(L1Read(f, key, now).store, keys, now) == InL1(f.store, keys, now)
  {
    if keys != [] {
      InL1AfterRead(f, keys[1..], key, now);
    }
  }

  lemma {:induction false} L1PassCounts(f: Found, keys: seq<string>, now: int)
    ensures var f' := L1Pass(f, keys, now);
            f'.store.hits == f.store.hits + InL1(f.store, keys, now) && f'.store.misses == f.store.misses
    decreases |keys|
  {
    if keys != [] {
      L1PassCounts(L1Read(f, keys[0], now), keys[1..], now);
      InL1AfterRead(f, keys[1..], keys[0], now);
    }
  }

  function InRedis(s: Store, keys: seq<string>): nat {
    if keys == [] then 0 else (if InL2(s, keys[0]) then 1 else 0) + InRedis(s, keys[1..])
  }

  lemma {:induction false} SameRedis(s: Store, s': Store, keys: seq<string>)
    requires s.l2 == s'.l2
    ensures InRedis(s, keys) == InRedis(s', keys) <= |keys|
  {
    if keys != [] {
      SameRedis(s, s', keys[1..]);
    }
  }

  lemma {:induction false} L2PassCounts(cfg: Config, f: Found, missing: seq<string>, now: int)
    ensures var f', n := L2Pass(cfg, f, missing, now), InRedis(f.store, missing);
            f'.store.hits == f.store.hits + n && f'.store.misses == f.store.misses + |missing| - n
    decreases |missing|
  {
    if missing != [] {
      L2PassCounts(cfg, L2Read(cfg, f, missing[0], now), missing[1..], now);
      SameRedis(f.store, L2Read(cfg, f, missing[0], now).store, missing[1..]);
    }
  }

  /** Which occurrences L1 answers, and which are left for Redis. */
  lemma {:induction false} MissingCounts(s: Store, keys: seq<string>, now: int, result: map<string, Bytes>)
    requires forall k | k in keys :: k in result <==> L.Hit(s.l1, k, now)
    ensures var missing := Missing(keys, result);
            && |missing| + InL1(s, keys, now) == |keys|
            && InRedis(s, missing) + InL1(s, keys, now) == PresentIn(s, keys, now)
  {
    if keys != [] {
      assert keys == [keys[0]] + keys[1..];
      MissingCounts(s, keys[1..], now, result);
    }
  }

  /** A GetMany that does not fail counts a hit for every key a level holds and, with Redis, a miss for every other. */
  lemma GetManyCounts(cfg: Config, s: Store, keys: seq<string>, now: int)
    ensures var s', n := GetMany(cfg, s, keys, now, false).0, PresentIn(s, keys, now);
            s'.hits == s.hits + n && s'.misses == s.misses + if s.l2.Some? then |keys| - n else 0
  {
    var first := L1Pass(Found(s, map[]), keys, now);
    forall k | k in keys ensures k in first.result <==> L.Hit(s.l1, k, now) {
      L1PassFinds(Found(s, map[]), keys, now, k);
    }
    L1PassFinds(Found(s, map[]), keys, now, "");
    L1PassCounts(Found(s, map[]), keys, now);
    MissingCounts(s, keys, now, first.result);
    L2PassCounts(cfg, first, Missing(keys, first.result), now);
    SameRedis(s, first.store, Missing(keys, first.result));
    NoRedisNothing(s, Missing(keys, first.result));
  }

  lemma {:induction false} NoRedisNothing(s: Store, keys: seq<string>)
    ensures s.l2.None? ==> InRedis(s, keys) == 0
  {
    if keys != [] {
      NoRedisNothing(s, keys[1..]);
    }
  }
}
