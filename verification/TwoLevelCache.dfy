/** The L1 map in front of Redis: reads see the last write or nothing. */
module TwoLevelCache {
  import opened Prelude
  import opened Codecs
  import L = L1Cache

  datatype Config = Config(maxSize: nat, defaultTTL: int, defaultNilTTL: int)

  /** The cache of one instance and its Redis, if it has one. */
  datatype Store = Store(l1: L.L1, l2: Option<map<string, Bytes>>, hits: nat, misses: nat)

  /** What a Get meets besides the cache: nothing, a Redis error, or a context that is already cancelled. */
  datatype Trouble = NoTrouble | RedisFails | Cancelled

  /** `Failed` is a Redis error on reading, or a cancelled context. */
  datatype Reply = Miss | NilValue | Raw(data: Bytes) | Failed

  datatype ManyReply = ManyMiss | ManyFailed | Many(result: map<string, Bytes>)

  function L2Key(namespace: string, key: string): string {
    namespace + ":" + key
  }

  predicate InL2(s: Store, key: string) {
    s.l2.Some? && L2Key("cache", key) in s.l2.value
  }

  function Classify(data: Bytes): Reply {
    if IsNilValue(data) then NilValue else Raw(data)
  }

  // ---- Operations ---------------------------------------------------------------------

  ghost function Fill(cfg: Config, s: Store, key: string, data: Bytes, expiresAt: int): Store {
    s.(l1 := L.Set(cfg.maxSize, s.l1, key, data, expiresAt))
  }

  function Count(s: Store, hit: bool): Store {
    if hit then s.(hits := s.hits + 1) else s.(misses := s.misses + 1)
  }

  /** What a read finds: the unexpired L1 entry, else the Redis value, else nothing. */
  function Lookup(s: Store, key: string, now: int): Option<Bytes> {
    if L.Hit(s.l1, key, now) then Some(s.l1.entries[key].data)
    else if InL2(s, key) then Some(s.l2.value[L2Key("cache", key)])
    else None
  }

  /** A read that L1 cannot answer. A nil placeholder found here counts as a miss, in L1 as a hit. */
  ghost function GetFromL2(cfg: Config, s: Store, key: string, now: int, trouble: Trouble): (Store, Reply) {
    if s.l2.Some? && !trouble.NoTrouble? then (Count(s, false), Failed)
    else if InL2(s, key) then
      var data := s.l2.value[L2Key("cache", key)];
      (Count(Fill(cfg, s, key, data, now + cfg.defaultTTL), !IsNilValue(data)), Classify(data))
    else (Count(s, false), Miss)
  }

  /** A cancelled context ends the call before L1 is read. */
  ghost function Get(cfg: Config, s: Store, key: string, now: int, trouble: Trouble): (Store, Reply) {
    var s1 := s.(l1 := L.Get(s.l1, key, now));
    if trouble.Cancelled? then (s, Failed)
    else if L.Hit(s.l1, key, now) then (Count(s1, true), Classify(s.l1.entries[key].data))
    else GetFromL2(cfg, s1, key, now, trouble)
  }

  datatype Found = Found(store: Store, result: map<string, Bytes>)

  /** One key of GetMany through L1. */
  function L1Read(f: Found, key: string, now: int): Found {
    var s := f.store.(l1 := L.Get(f.store.l1, key, now));
    if L.Hit(f.store.l1, key, now) then Found(Count(s, true), f.result[key := f.store.l1.entries[key].data])
    else Found(s, f.result)
  }

  function L1Pass(f: Found, keys: seq<string>, now: int): Found
    decreases |keys|
  {
    if keys == [] then f else L1Pass(L1Read(f, keys[0], now), keys[1..], now)
  }

  function Missing(keys: seq<string>, result: map<string, Bytes>): seq<string> {
    if keys == [] then []
    else if keys[0] in result then Missing(keys[1..], result)
    else [keys[0]] + Missing(keys[1..], result)
  }

  /** One value of the MGET reply. */
  ghost function L2Read(cfg: Config, f: Found, key: string, now: int): Found {
    if InL2(f.store, key) then
      var data := f.store.l2.value[L2Key("cache", key)];
      Found(Count(Fill(cfg, f.store, key, data, now + cfg.defaultTTL), true), f.result[key := data])
    else Found(Count(f.store, false), f.result)
  }

  ghost function L2Pass(cfg: Config, f: Found, missing: seq<string>, now: int): Found
    decreases |missing|
  {
    if missing == [] then f else L2Pass(cfg, L2Read(cfg, f, missing[0], now), missing[1..], now)
  }

  /** What GetMany has found when it answers, unless its MGET fails. */
  ghost function Gather(cfg: Config, s: Store, keys: seq<string>, now: int): Found {
    var first := L1Pass(Found(s, map[]), keys, now);
    if s.l2.None? then first else L2Pass(cfg, first, Missing(keys, first.result), now)
  }

  /** A failing MGET, or an empty result for a list that is not empty, is an error; L1 has been read all the same. */
  ghost function GetMany(cfg: Config, s: Store, keys: seq<string>, now: int, fails: bool): (Store, ManyReply) {
    var first, all := L1Pass(Found(s, map[]), keys, now), Gather(cfg, s, keys, now);
    if keys == [] then (s, Many(map[]))
    else if s.l2.Some? && fails && Missing(keys, first.result) != [] then (first.store, ManyFailed)
    else (all.store, if all.result == map[] then ManyMiss else Many(all.result))
  }

  function PutL2(s: Store, key: string, data: Bytes): Store {
    if s.l2.None? then s else s.(l2 := Some(s.l2.value[L2Key("cache", key) := data]))
  }

  /** Set, with the encoded value, or None when encoding fails. */
  ghost function Set(cfg: Config, s: Store, key: string, data: Option<Bytes>, expiresAt: int): Store {
    if data.None? then s else PutL2(Fill(cfg, s, key, data.value, expiresAt), key, data.value)
  }

  datatype Pair = Pair(key: string, data: Option<Bytes>)

  predicate AllEncoded(items: seq<Pair>) {
    forall i | 0 <= i < |items| :: items[i].data.Some?
  }

  /** The loop of SetMany: L1 is written item by item until one fails to encode. */
  ghost function FillMany(cfg: Config, s: Store, items: seq<Pair>, expiresAt: int): Store
    decreases |items|
  {
    if items == [] || items[0].data.None? then s
    else FillMany(cfg, Fill(cfg, s, items[0].key, items[0].data.value, expiresAt), items[1..], expiresAt)
  }

  function PutMany(s: Store, items: seq<Pair>): Store
    requires AllEncoded(items)
    decreases |items|
  {
    if items == [] then s else PutMany(PutL2(s, items[0].key, items[0].data.value), items[1..])
  }

  /** Redis is written by one MSET, only when every item was encoded. */
  ghost function SetMany(cfg: Config, s: Store, items: seq<Pair>, expiresAt: int): Store {
    var filled := FillMany(cfg, s, items, expiresAt);
    if AllEncoded(items) then PutMany(filled, items) else filled
  }

  ghost function SetNil(cfg: Config, s: Store, key: string, now: int): Store {
    Set(cfg, s, key, Some(NIL_PLACEHOLDER), now + cfg.defaultNilTTL)
  }

  function Delete(s: Store, key: string): Store {
    s.(l1 := L.Delete(s.l1, key), l2 := if s.l2.None? then None else Some(s.l2.value - {L2Key("cache", key)}))
  }

  predicate IsCacheKey(full: string) {
    |full| >= 6 && full[..6] == "cache:"
  }

  /** Everything in L1, and every Redis key under `cache:`. */
  function Clear(s: Store): Store {
    s.(l1 := s.l1.(entries := map[]),
       l2 := if s.l2.None? then None else Some(map k | k in s.l2.value && !IsCacheKey(k) :: s.l2.value[k]))
  }

  // ---- Runs -------------------------------------------------------------------------------

  datatype Step =
    | GetStep(key: string, now: int, trouble: Trouble)
    | GetManyStep(keys: seq<string>, now: int, fails: bool)
    | SetStep(key: string, data: Option<Bytes>, expiresAt: int)
    | SetManyStep(items: seq<Pair>, expiresAt: int)
    | SetNilStep(key: string, now: int)
    | DeleteStep(key: string)
    | ClearStep
    | SweepStep(now: int)
    | ExpireStep(full: string)
    | LockStep(key: string)

  ghost function Next(cfg: Config, s: Store, step: Step): Store {
    match step
    case GetStep(key, now, trouble) => Get(cfg, s, key, now, trouble).0
    case GetManyStep(keys, now, fails) => GetMany(cfg, s, keys, now, fails).0
    case SetStep(key, data, expiresAt) => Set(cfg, s, key, data, expiresAt)
    case SetManyStep(items, expiresAt) => SetMany(cfg, s, items, expiresAt)
    case SetNilStep(key, now) => SetNil(cfg, s, key, now)
    case DeleteStep(key) => Delete(s, key)
    case ClearStep => Clear(s)
    case SweepStep(now) => s.(l1 := L.Sweep(s.l1, now))
    case ExpireStep(full) => s.(l2 := if s.l2.None? then None else Some(s.l2.value - {full}))
    case LockStep(key) =>
      if s.l2.None? || L2Key("lock", key) in s.l2.value then s
      else s.(l2 := Some(s.l2.value[L2Key("lock", key) := [49]]))
  }

  ghost function Run(cfg: Config, redis: bool, steps: seq<Step>): Store {
    if steps == [] then Store(L.L1(map[], 0), if redis then Some(map[]) else None, 0, 0)
    else Next(cfg, Run(cfg, redis, steps[..|steps| - 1]), steps[|steps| - 1])
  }

  function PutAll(last: map<string, Bytes>, items: seq<Pair>): map<string, Bytes>
    requires AllEncoded(items)
    decreases |items|
  {
    if items == [] then last else PutAll(last[items[0].key := items[0].data.value], items[1..])
  }

  /** The bytes last written under each key and not deleted since. A call that fails writes nothing. */
  function LastNext(last: map<string, Bytes>, step: Step): map<string, Bytes> {
    match step
    case SetStep(key, data, _) => if data.Some? then last[key := data.value] else last
    case SetManyStep(items, _) => if AllEncoded(items) then PutAll(last, items) else last
    case SetNilStep(key, _) => last[key := NIL_PLACEHOLDER]
    case DeleteStep(key) => last - {key}
    case ClearStep => map[]
    case _ => last
  }

  function LastWritten(steps: seq<Step>): map<string, Bytes> {
    if steps == [] then map[] else LastNext(LastWritten(steps[..|steps| - 1]), steps[|steps| - 1])
  }

  // ---- Coherence ----------------------------------------------------------------------------

  ghost predicate L1Coherent(l1: L.L1, last: map<string, Bytes>) {
    forall k | k in l1.entries :: k in last && l1.entries[k].data == last[k]
  }

  ghost predicate L2Coherent(l2: Option<map<string, Bytes>>, last: map<string, Bytes>) {
    l2.Some? ==> forall k | L2Key("cache", k) in l2.value :: k in last && l2.value[L2Key("cache", k)] == last[k]
  }

  /** Whatever either level holds of a key is what was last written. */
  ghost predicate Coherent(s: Store, last: map<string, Bytes>) {
    L1Coherent(s.l1, last) && L2Coherent(s.l2, last)
  }

  lemma KeysAreDistinct(j: string, k: string)
    ensures L2Key("cache", j) == L2Key("cache", k) <==> j == k
    ensures L2Key("lock", j) != L2Key("cache", k)
    ensures IsCacheKey(L2Key("cache", k)) && !IsCacheKey(L2Key("lock", k))
  {
    assert L2Key("cache", j)[6..] == j && L2Key("cache", k)[6..] == k;
    assert L2Key("lock", j)[0] == 'l' && L2Key("cache", k)[0] == 'c';
    assert L2Key("cache", k)[..6] == "cache:";
    assert L2Key("lock", k)[0] != "cache:"[0];
  }

  lemma FillKeepsCoherence(cfg: Config, s: Store, key: string, data: Bytes, expiresAt: int, last: map<string, Bytes>)
    requires L1Coherent(s.l1, last)
    ensures L1Coherent(Fill(cfg, s, key, data, expiresAt).l1, last[key := data])
    ensures key in Fill(cfg, s, key, data, expiresAt).l1.entries
  {
  }

  lemma PutKeepsCoherence(s: Store, key: string, data: Bytes, last: map<string, Bytes>)
    requires L2Coherent(s.l2, last)
    ensures L2Coherent(PutL2(s, key, data).l2, last[key := data])
  {
    forall k { KeysAreDistinct(key, k); }
  }

  lemma L1GetKeepsCoherence(l1: L.L1, key: string, now: int, last: map<string, Bytes>)
    requires L1Coherent(l1, last)
    ensures L1Coherent(L.Get(l1, key, now), last)
  {
  }

  /** Filling L1 with the value Redis holds changes nothing a reader could see. */
  lemma RefillKeepsCoherence(cfg: Config, s: Store, key: string, expiresAt: int, last: map<string, Bytes>)
    requires Coherent(s, last) && InL2(s, key)
    ensures key in last && s.l2.value[L2Key("cache", key)] == last[key]
    ensures Coherent(Fill(cfg, s, key, s.l2.value[L2Key("cache", key)], expiresAt), last)
  {
    FillKeepsCoherence(cfg, s, key, last[key], expiresAt, last);
    assert last[key := last[key]] == last;
  }

  lemma GetFromL2KeepsCoherence(cfg: Config, s: Store, key: string, now: int, trouble: Trouble,
                                last: map<string, Bytes>)
    requires Coherent(s, last)
    ensures Coherent(GetFromL2(cfg, s, key, now, trouble).0, last)
  {
    if InL2(s, key) && trouble.NoTrouble? {
      RefillKeepsCoherence(cfg, s, key, now + cfg.defaultTTL, last);
    }
  }

  lemma GetKeepsCoherence(cfg: Config, s: Store, key: string, now: int, trouble: Trouble, last: map<string, Bytes>)
    requires Coherent(s, last)
    ensures Coherent(Get(cfg, s, key, now, trouble).0, last)
  {
    L1GetKeepsCoherence(s.l1, key, now, last);
    if !L.Hit(s.l1, key, now) {
      GetFromL2KeepsCoherence(cfg, s.(l1 := L.Get(s.l1, key, now)), key, now, trouble, last);
    }
  }

  ghost predicate Current(result: map<string, Bytes>, last: map<string, Bytes>) {
    forall k | k in result :: k in last && result[k] == last[k]
  }

  lemma {:induction false} L1PassKeepsCoherence(f: Found, keys: seq<string>, now: int, last: map<string, Bytes>)
    requires Coherent(f.store, last) && Current(f.result, last)
    ensures Coherent(L1Pass(f, keys, now).store, last) && Current(L1Pass(f, keys, now).result, last)
    decreases |keys|
  {
    if keys != [] {
      L1GetKeepsCoherence(f.store.l1, keys[0], now, last);
      L1PassKeepsCoherence(L1Read(f, keys[0], now), keys[1..], now, last);
    }
  }

  lemma L2ReadKeepsCoherence(cfg: Config, f: Found, key: string, now: int, last: map<string, Bytes>)
    requires Coherent(f.store, last) && Current(f.result, last)
    ensures Coherent(L2Read(cfg, f, key, now).store, last) && Current(L2Read(cfg, f, key, now).result, last)
  {
    if InL2(f.store, key) {
      RefillKeepsCoherence(cfg, f.store, key, now + cfg.defaultTTL, last);
    }
  }

  lemma {:induction false} L2PassKeepsCoherence(cfg: Config, f: Found, missing: seq<string>, now: int,
                                                last: map<string, Bytes>)
    requires Coherent(f.store, last) && Current(f.result, last)
    ensures Coherent(L2Pass(cfg, f, missing, now).store, last) && Current(L2Pass(cfg, f, missing, now).result, last)
    decreases |missing|
  {
    if missing != [] {
      L2ReadKeepsCoherence(cfg, f, missing[0], now, last);
      L2PassKeepsCoherence(cfg, L2Read(cfg, f, missing[0], now), missing[1..], now, last);
    }
  }

  /** GetMany yields exactly the bytes last written. */
  lemma GetManyIsCurrent(cfg: Config, s: Store, keys: seq<string>, now: int, fails: bool, last: map<string, Bytes>)
    requires Coherent(s, last)
    ensures var (s', reply) := GetMany(cfg, s, keys, now, fails);
            Coherent(s', last) && (reply.Many? ==> Current(reply.result, last))
  {
    var first := L1Pass(Found(s, map[]), keys, now);
    L1PassKeepsCoherence(Found(s, map[]), keys, now, last);
    L2PassKeepsCoherence(cfg, first, Missing(keys, first.result), now, last);
  }

  lemma {:induction false} FillManyKeepsCoherence(cfg: Config, s: Store, items: seq<Pair>, expiresAt: int,
                                                  last: map<string, Bytes>)
    requires L1Coherent(s.l1, last) && AllEncoded(items)
    ensures L1Coherent(FillMany(cfg, s, items, expiresAt).l1, PutAll(last, items))
    ensures FillMany(cfg, s, items, expiresAt).l2 == s.l2
    decreases |items|
  {
    if items != [] {
      FillKeepsCoherence(cfg, s, items[0].key, items[0].data.value, expiresAt, last);
      var s1 := Fill(cfg, s, items[0].key, items[0].data.value, expiresAt);
      FillManyKeepsCoherence(cfg, s1, items[1..], expiresAt, last[items[0].key := items[0].data.value]);
    }
  }

  lemma {:induction false} PutManyKeepsCoherence(s: Store, items: seq<Pair>, last: map<string, Bytes>)
    requires L2Coherent(s.l2, last) && AllEncoded(items)
    ensures L2Coherent(PutMany(s, items).l2, PutAll(last, items)) && PutMany(s, items).l1 == s.l1
    decreases |items|
  {
    if items != [] {
      PutKeepsCoherence(s, items[0].key, items[0].data.value, last);
      PutManyKeepsCoherence(PutL2(s, items[0].key, items[0].data.value), items[1..],
                            last[items[0].key := items[0].data.value]);
    }
  }

  predicate WholeWrite(step: Step) {
    step.SetManyStep? ==> AllEncoded(step.items) || step.items[0].data.None?
  }

  lemma SetKeepsCoherence(cfg: Config, s: Store, key: string, data: Bytes, expiresAt: int, last: map<string, Bytes>)
    requires Coherent(s, last)
    ensures Coherent(Set(cfg, s, key, Some(data), expiresAt), last[key := data])
  {
    FillKeepsCoherence(cfg, s, key, data, expiresAt, last);
    PutKeepsCoherence(Fill(cfg, s, key, data, expiresAt), key, data, last);
  }

  lemma SetManyKeepsCoherence(cfg: Config, s: Store, items: seq<Pair>, expiresAt: int, last: map<string, Bytes>)
    requires Coherent(s, last) && WholeWrite(SetManyStep(items, expiresAt))
    ensures Coherent(SetMany(cfg, s, items, expiresAt), LastNext(last, SetManyStep(items, expiresAt)))
  {
    if AllEncoded(items) {
      FillManyKeepsCoherence(cfg, s, items, expiresAt, last);
      PutManyKeepsCoherence(FillMany(cfg, s, items, expiresAt), items, last);
    }
  }

  lemma DeleteKeepsCoherence(s: Store, key: string, last: map<string, Bytes>)
    requires Coherent(s, last)
    ensures Coherent(Delete(s, key), last - {key})
  {
    forall k { KeysAreDistinct(key, k); }
  }

  lemma ClearKeepsCoherence(s: Store)
    ensures Coherent(Clear(s), map[])
  {
    forall k { KeysAreDistinct(k, k); }
  }

  lemma LockKeepsCoherence(s: Store, key: string, last: map<string, Bytes>)
    requires Coherent(s, last) && s.l2.Some?
    ensures Coherent(s.(l2 := Some(s.l2.value[L2Key("lock", key) := [49]])), last)
  {
    forall k { KeysAreDistinct(key, k); }
  }

  lemma WriteKeepsCoherence(cfg: Config, s: Store, step: Step, last: map<string, Bytes>)
    requires Coherent(s, last) && WholeWrite(step) && (step.SetStep? || step.SetManyStep? || step.SetNilStep?)
    ensures Coherent(Next(cfg, s, step), LastNext(last, step))
  {
    match step
    case SetStep(key, data, expiresAt) => if data.Some? { SetKeepsCoherence(cfg, s, key, data.value, expiresAt, last); }
    case SetManyStep(items, expiresAt) => SetManyKeepsCoherence(cfg, s, items, expiresAt, last);
    case SetNilStep(key, now) => SetKeepsCoherence(cfg, s, key, NIL_PLACEHOLDER, now + cfg.defaultNilTTL, last);
  }

  lemma LossKeepsCoherence(cfg: Config, s: Store, step: Step, last: map<string, Bytes>)
    requires Coherent(s, last) &&
             (step.DeleteStep? || step.ClearStep? || step.SweepStep? || step.ExpireStep? || step.LockStep?)
    ensures Coherent(Next(cfg, s, step), LastNext(last, step))
  {
    match step
    case DeleteStep(key) => DeleteKeepsCoherence(s, key, last);
    case ClearStep => ClearKeepsCoherence(s);
    case SweepStep(now) =>
    case ExpireStep(full) =>
    case LockStep(key) => if s.l2.Some? { LockKeepsCoherence(s, key, last); }
  }

  lemma StepKeepsCoherence(cfg: Config, s: Store, step: Step, last: map<string, Bytes>)
    requires Coherent(s, last) && WholeWrite(step)
    ensures Coherent(Next(cfg, s, step), LastNext(last, step))
  {
    if step.GetStep? {
      GetKeepsCoherence(cfg, s, step.key, step.now, step.trouble, last);
    } else if step.GetManyStep? {
      GetManyIsCurrent(cfg, s, step.keys, step.now, step.fails, last);
    } else if step.SetStep? || step.SetManyStep? || step.SetNilStep? {
      WriteKeepsCoherence(cfg, s, step, last);
    } else {
      LossKeepsCoherence(cfg, s, step, last);
    }
  }

  /** Over any run, with arbitrary expiry and eviction, both levels hold only what was last written. */
  lemma {:induction false} RunsAreCoherent(cfg: Config, redis: bool, steps: seq<Step>)
    requires forall i | 0 <= i < |steps| :: WholeWrite(steps[i])
    ensures Coherent(Run(cfg, redis, steps), LastWritten(steps))
  {
    if steps != [] {
      var before := steps[..|steps| - 1];
      RunsAreCoherent(cfg, redis, before);
      StepKeepsCoherence(cfg, Run(cfg, redis, before), steps[|steps| - 1], LastWritten(before));
    }
  }

  /** The call reads L1 and, if it has to, Redis. */
  predicate Reaches(s: Store, key: string, now: int, trouble: Trouble) {
    if L.Hit(s.l1, key, now) then !trouble.Cancelled? else InL2(s, key) && trouble.NoTrouble?
  }

  /**
   * After any run, Get fails exactly when its context is cancelled or it needs Redis and Redis fails;
   * otherwise it answers a miss exactly when neither level holds the key, and else exactly the bytes last
   * written (or "nil" if those are the placeholder).
   */
  lemma GetAnswersLastWrite(cfg: Config, redis: bool, steps: seq<Step>, key: string, now: int, trouble: Trouble)
    requires forall i | 0 <= i < |steps| :: WholeWrite(steps[i])
    ensures var s, last := Run(cfg, redis, steps), LastWritten(steps);
            var reply := Get(cfg, s, key, now, trouble).1;
            && (reply.Failed? <==>
                  trouble.Cancelled? || (trouble.RedisFails? && s.l2.Some? && !L.Hit(s.l1, key, now)))
            && (reply.Miss? <==> !reply.Failed? && !L.Hit(s.l1, key, now) && !InL2(s, key))
            && (reply.NilValue? || reply.Raw? <==> Reaches(s, key, now, trouble))
            && (reply.NilValue? || reply.Raw? ==> key in last && reply == Classify(last[key]))
  {
    RunsAreCoherent(cfg, redis, steps);
  }

  /** The key is in L1, unexpired, or in Redis. */
  predicate Present(s: Store, key: string, now: int) {
    L.Hit(s.l1, key, now) || InL2(s, key)
  }

  lemma {:induction false} L1PassFinds(f: Found, keys: seq<string>, now: int, k: string)
    ensures L1Pass(f, keys, now).store.l2 == f.store.l2
    ensures k in L1Pass(f, keys, now).result <==> k in f.result || (k in keys && L.Hit(f.store.l1, k, now))
    decreases |keys|
  {
    if keys != [] {
      L1PassFinds(L1Read(f, keys[0], now), keys[1..], now, k);
      assert keys == [keys[0]] + keys[1..];
    }
  }

  lemma {:induction false} L2PassFinds(cfg: Config, f: Found, missing: seq<string>, now: int, k: string)
    ensures k in L2Pass(cfg, f, missing, now).result <==> k in f.result || (k in missing && InL2(f.store, k))
    decreases |missing|
  {
    if missing != [] {
      L2PassFinds(cfg, L2Read(cfg, f, missing[0], now), missing[1..], now, k);
      assert missing == [missing[0]] + missing[1..];
    }
  }

  lemma {:induction false} MissingIs(keys: seq<string>, result: map<string, Bytes>, k: string)
    ensures k in Missing(keys, result) <==> k in keys && k !in result
  {
    if keys != [] {
      MissingIs(keys[1..], result, k);
      assert keys == [keys[0]] + keys[1..];
    }
  }

  /** What GetMany gathers: exactly the keys asked for that one of the levels holds. */
  lemma GatherFinds(cfg: Config, s: Store, keys: seq<string>, now: int, k: string)
    ensures k in Gather(cfg, s, keys, now).result <==> k in keys && Present(s, k, now)
  {
    var first := L1Pass(Found(s, map[]), keys, now);
    L1PassFinds(Found(s, map[]), keys, now, k);
    MissingIs(keys, first.result, k);
    if s.l2.Some? {
      L2PassFinds(cfg, first, Missing(keys, first.result), now, k);
    }
  }

  /** The call needs the MGET: some key asked for is not in L1. */
  ghost predicate NeedsRedis(s: Store, keys: seq<string>, now: int) {
    s.l2.Some? && exists k :: k in keys && !L.Hit(s.l1, k, now)
  }

  lemma MissingNeedsRedis(s: Store, keys: seq<string>, now: int)
    ensures s.l2.Some? && Missing(keys, L1Pass(Found(s, map[]), keys, now).result) != [] <==> NeedsRedis(s, keys, now)
  {
    var first := L1Pass(Found(s, map[]), keys, now);
    var missing := Missing(keys, first.result);
    forall k ensures k in missing <==> k in keys && !L.Hit(s.l1, k, now) {
      L1PassFinds(Found(s, map[]), keys, now, k);
      MissingIs(keys, first.result, k);
    }
    if missing != [] {
      assert missing[0] in missing;
    }
  }

  /**
   * After any run, GetMany fails exactly when it needs Redis and Redis fails; otherwise it answers
   * exactly the keys asked for that one of the levels holds, each with the bytes last written, and a miss
   * instead of an empty answer unless no key was asked for.
   */
  lemma GetManyAnswersLastWrites(cfg: Config, redis: bool, steps: seq<Step>, keys: seq<string>, now: int, fails: bool)
    requires forall i | 0 <= i < |steps| :: WholeWrite(steps[i])
    ensures var s := Run(cfg, redis, steps);
            var reply := GetMany(cfg, s, keys, now, fails).1;
            && (reply.ManyFailed? <==> fails && NeedsRedis(s, keys, now))
            && (reply.ManyMiss? <==> !reply.ManyFailed? && keys != [] && forall k | k in keys :: !Present(s, k, now))
            && (reply.Many? ==>
                  Current(reply.result, LastWritten(steps)) &&
                  forall k :: k in reply.result <==> k in keys && Present(s, k, now))
  {
    var s := Run(cfg, redis, steps);
    var all := Gather(cfg, s, keys, now).result;
    RunsAreCoherent(cfg, redis, steps);
    GetManyIsCurrent(cfg, s, keys, now, fails, LastWritten(steps));
    MissingNeedsRedis(s, keys, now);
    forall k ensures k in all <==> k in keys && Present(s, k, now) {
      GatherFinds(cfg, s, keys, now, k);
    }
    if all == map[] {
      assert forall k :: k !in all;
    } else {
      EmptyOrHas(all);
    }
  }

  lemma EmptyOrHas(m: map<string, Bytes>)
    requires m != map[]
    ensures exists k :: k in m
  {
    assert m.Keys != {};
  }

  // ---- The nil placeholder ------------------------------------------------------------------

  /** Encoded data starts with the version byte of gob or json. */
  predicate Versioned(data: Bytes) {
    |data| > 0 && (data[0] == 1 || data[0] == 2)
  }

  ghost predicate WritesVersioned(step: Step) {
    && (step.SetStep? && step.data.Some? ==> Versioned(step.data.value))
    && (step.SetManyStep? ==>
          forall i | 0 <= i < |step.items| && step.items[i].data.Some? :: Versioned(step.items[i].data.value))
  }

  /** The keys whose last write is a SetNil. */
  function NilMarked(steps: seq<Step>): set<string> {
    if steps == [] then {}
    else
      var marked, step := NilMarked(steps[..|steps| - 1]), steps[|steps| - 1];
      match step
      case SetStep(key, data, _) => if data.Some? then marked - {key} else marked
      case SetManyStep(items, _) =>
        if AllEncoded(items) then marked - (set i | 0 <= i < |items| :: items[i].key) else marked
      case SetNilStep(key, _) => marked + {key}
      case DeleteStep(key) => marked - {key}
      case ClearStep => {}
      case _ => marked
  }

  lemma {:induction false} PutAllKeys(last: map<string, Bytes>, items: seq<Pair>, k: string)
    requires AllEncoded(items)
    ensures k in PutAll(last, items) <==> k in last || exists i | 0 <= i < |items| :: items[i].key == k
    ensures k in PutAll(last, items) ==>
              (exists i | 0 <= i < |items| :: items[i].key == k && PutAll(last, items)[k] == items[i].data.value)
              || ((forall i | 0 <= i < |items| :: items[i].key != k) && k in last && PutAll(last, items)[k] == last[k])
    decreases |items|
  {
    if items != [] {
      PutAllKeys(last[items[0].key := items[0].data.value], items[1..], k);
      if i :| 0 <= i < |items[1..]| && items[1..][i].key == k {
        assert items[i + 1].key == k;
      }
      assert forall i | 1 <= i < |items| :: items[i] == items[1..][i - 1];
    }
  }

  /**
   * The last bytes written are the placeholder exactly when the last write was SetNil: encoded data is
   * never mistaken for it.
   */
  lemma {:induction false} NilMeansSetNil(steps: seq<Step>, k: string)
    requires forall i | 0 <= i < |steps| :: WritesVersioned(steps[i])
    ensures k in NilMarked(steps) <==> k in LastWritten(steps) && IsNilValue(LastWritten(steps)[k])
  {
    if steps != [] {
      var before, step := steps[..|steps| - 1], steps[|steps| - 1];
      NilMeansSetNil(before, k);
      if step.SetManyStep? && AllEncoded(step.items) {
        PutAllKeys(LastWritten(before), step.items, k);
      }
    }
  }

  /** Every value the step writes was encoded by the codec. */
  ghost predicate WritesEncoded<V(!new)>(codec: Codec<V>, step: Step) {
    && (step.SetStep? ==> exists v :: step.data == EncodeWith(codec, v))
    && (step.SetManyStep? ==>
          forall i | 0 <= i < |step.items| :: exists v :: step.items[i].data == EncodeWith(codec, v))
  }

  lemma EncodedIsVersioned<V(!new)>(codec: Codec<V>, step: Step)
    requires (codec.version == 1 || codec.version == 2) && WritesEncoded(codec, step)
    ensures WritesVersioned(step)
  {
    if step.SetStep? && step.data.Some? {
      var v :| step.data == EncodeWith(codec, v);
    }
    if step.SetManyStep? {
      forall i | 0 <= i < |step.items| && step.items[i].data.Some? ensures Versioned(step.items[i].data.value) {
        var v :| step.items[i].data == EncodeWith(codec, v);
      }
    }
  }

  /**
   * With gob or json values, after any run, Get answers "nil" exactly when it reads a level that holds the
   * key and the last write on the key was SetNil.
   */
  lemma GetAnswersNilIff<V(!new)>(cfg: Config, redis: bool, codec: Codec<V>, steps: seq<Step>,
                                  key: string, now: int, trouble: Trouble)
    requires codec.version == 1 || codec.version == 2
    requires forall i | 0 <= i < |steps| :: WholeWrite(steps[i]) && WritesEncoded(codec, steps[i])
    ensures Get(cfg, Run(cfg, redis, steps), key, now, trouble).1.NilValue? <==>
            Reaches(Run(cfg, redis, steps), key, now, trouble) && key in NilMarked(steps)
  {
    GetAnswersLastWrite(cfg, redis, steps, key, now, trouble);
    forall i | 0 <= i < |steps| ensures WritesVersioned(steps[i]) {
      EncodedIsVersioned(codec, steps[i]);
    }
    NilMeansSetNil(steps, key);
  }

  // ---- A SetMany that fails halfway -----------------------------------------------------------

  lemma {:induction false} FillManyLeavesLast(cfg: Config, s: Store, items: seq<Pair>, expiresAt: int, n: nat)
    requires 0 < n < |items| && items[n].data.None? && AllEncoded(items[..n])
    ensures items[n - 1].key in FillMany(cfg, s, items, expiresAt).l1.entries
    decreases n
  {
    assert items[..n][0] == items[0] && items[..n][n - 1] == items[n - 1];
    var s1 := Fill(cfg, s, items[0].key, items[0].data.value, expiresAt);
    if n > 1 {
      assert items[1..][..n - 1] == items[..n][1..];
      FillManyLeavesLast(cfg, s1, items[1..], expiresAt, n - 1);
    } else {
      FillKeepsCoherence(cfg, s, items[0].key, items[0].data.value, expiresAt,
                         map k | k in s.l1.entries :: s.l1.entries[k].data);
      assert FillMany(cfg, s1, items[1..], expiresAt) == s1;
    }
  }

  lemma {:induction false} FirstFailure(items: seq<Pair>) returns (n: nat)
    requires !AllEncoded(items)
    ensures n < |items| && items[n].data.None? && AllEncoded(items[..n])
  {
    n := 0;
    while items[n].data.Some?
      invariant n < |items| && AllEncoded(items[..n])
      invariant exists i | n <= i < |items| :: items[i].data.None?
      decreases |items| - n
    {
      assert items[..n + 1] == items[..n] + [items[n]];
      n := n + 1;
    }
  }

  ghost predicate SetManyKeeps(cfg: Config, items: seq<Pair>, expiresAt: int) {
    forall s, last | Coherent(s, last) ::
      Coherent(SetMany(cfg, s, items, expiresAt), LastNext(last, SetManyStep(items, expiresAt)))
  }

  /**
   * In a given order of the items, every coherent cache stays coherent exactly when all items encode or
   * the first one fails: a failure after that leaves L1 with values that Redis, and the caller, never got.
   */
  lemma SetManyInOrderIff(cfg: Config, items: seq<Pair>, expiresAt: int)
    ensures SetManyKeeps(cfg, items, expiresAt) <==> WholeWrite(SetManyStep(items, expiresAt))
  {
    if WholeWrite(SetManyStep(items, expiresAt)) {
      forall s, last | Coherent(s, last)
        ensures Coherent(SetMany(cfg, s, items, expiresAt), LastNext(last, SetManyStep(items, expiresAt)))
      {
        SetManyKeepsCoherence(cfg, s, items, expiresAt, last);
      }
    } else {
      var empty := Store(L.L1(map[], 0), None, 0, 0);
      assert Coherent(empty, map[]);
      var n := FirstFailure(items);
      FillManyLeavesLast(cfg, empty, items, expiresAt, n);
      assert !Coherent(SetMany(cfg, empty, items, expiresAt), LastNext(map[], SetManyStep(items, expiresAt)));
    }
  }

  predicate NoneEncodes(items: seq<Pair>) {
    forall i | 0 <= i < |items| :: items[i].data.None?
  }

  /** An item of one order is an item of every other order. */
  lemma InEveryOrder(items: seq<Pair>, order: seq<Pair>, i: nat) returns (j: nat)
    requires multiset(order) == multiset(items) && i < |order|
    ensures j < |items| && items[j] == order[i]
  {
    assert order[i] in multiset(order);
    assert order[i] in items;
    j :| 0 <= j < |items| && items[j] == order[i];
  }

  lemma PutFirst(items: seq<Pair>, i: nat) returns (order: seq<Pair>)
    requires i < |items|
    ensures multiset(order) == multiset(items) && order != [] && order[0] == items[i]
  {
    order := [items[i]] + items[..i] + items[i + 1..];
    assert items == items[..i] + [items[i]] + items[i + 1..];
  }

  /**
   * The code ranges over the items in any order. All orders keep every coherent cache coherent exactly
   * when all items encode or none does.
   */
  lemma SetManyCoherentIff(cfg: Config, items: seq<Pair>, expiresAt: int)
    ensures (forall order: seq<Pair> | multiset(order) == multiset(items) :: SetManyKeeps(cfg, order, expiresAt))
            <==> AllEncoded(items) || NoneEncodes(items)
  {
    if AllEncoded(items) || NoneEncodes(items) {
      forall order: seq<Pair> | multiset(order) == multiset(items) ensures SetManyKeeps(cfg, order, expiresAt) {
        forall i | 0 <= i < |order| ensures order[i].data.Some? <==> AllEncoded(items) {
          var _ := InEveryOrder(items, order, i);
        }
        SetManyInOrderIff(cfg, order, expiresAt);
      }
    } else {
      var good :| 0 <= good < |items| && items[good].data.Some?;
      var bad :| 0 <= bad < |items| && items[bad].data.None?;
      var order := PutFirst(items, good);
      var j := InEveryOrder(order, items, bad);
      SetManyInOrderIff(cfg, order, expiresAt);
      assert !SetManyKeeps(cfg, order, expiresAt);
    }
  }
}
