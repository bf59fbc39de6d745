/** The L1 level inside the whole cache: every call is a few L1 operations, so L1 stays a recency list. */
module CacheRecency {
  import opened Prelude
  import opened Codecs
  import opened TwoLevelCache
  import L = L1Cache

  /** What one MGET reply does to L1. */
  function RefillSteps(cfg: Config, s: Store, keys: seq<string>, now: int): seq<L.Step> {
    if keys == [] then []
    else
      (if InL2(s, keys[0]) then [L.SetStep(keys[0], s.l2.value[L2Key("cache", keys[0])], now + cfg.defaultTTL)] else [])
      + RefillSteps(cfg, s, keys[1..], now)
  }

  function ReadSteps(keys: seq<string>, now: int): seq<L.Step> {
    if keys == [] then [] else [L.GetStep(keys[0], now)] + ReadSteps(keys[1..], now)
  }

  function WriteSteps(items: seq<Pair>, expiresAt: int): seq<L.Step> {
    if items == [] || items[0].data.None? then []
    else [L.SetStep(items[0].key, items[0].data.value, expiresAt)] + WriteSteps(items[1..], expiresAt)
  }

  /** The L1 operations one call performs, in order. */
  function L1Steps(cfg: Config, s: Store, step: Step): seq<L.Step> {
    match step
    case GetStep(key, now, trouble) =>
      if trouble.Cancelled? then []
      else [L.GetStep(key, now)] +
           (if L.Hit(s.l1, key, now) || trouble.RedisFails? then [] else RefillSteps(cfg, s, [key], now))
    case GetManyStep(keys, now, fails) =>
      var missing := Missing(keys, L1Pass(Found(s, map[]), keys, now).result);
      ReadSteps(keys, now) + (if fails then [] else RefillSteps(cfg, s, missing, now))
    case SetStep(key, data, expiresAt) => WriteSteps([Pair(key, data)], expiresAt)
    case SetManyStep(items, expiresAt) => WriteSteps(items, expiresAt)
    case SetNilStep(key, now) => [L.SetStep(key, NIL_PLACEHOLDER, now + cfg.defaultNilTTL)]
    case DeleteStep(key) => [L.DeleteStep(key)]
    case ClearStep => [L.ClearStep]
    case SweepStep(now) => [L.SweepStep(now)]
    case ExpireStep(_) => []
    case LockStep(_) => []
  }

  /** All L1 operations of a run. */
  ghost function L1Trace(cfg: Config, redis: bool, steps: seq<Step>): seq<L.Step> {
    if steps == [] then []
    else
      var before := steps[..|steps| - 1];
      L1Trace(cfg, redis, before) + L1Steps(cfg, Run(cfg, redis, before), steps[|steps| - 1])
  }

  ghost function After(maxSize: nat, s: L.L1, steps: seq<L.Step>): L.L1
    decreases |steps|
  {
    if steps == [] then s else After(maxSize, L.Next(maxSize, s, steps[0]), steps[1..])
  }

  lemma {:induction false} AfterAppend(maxSize: nat, s: L.L1, a: seq<L.Step>, b: seq<L.Step>)
    ensures After(maxSize, s, a + b) == After(maxSize, After(maxSize, s, a), b)
    decreases |a|
  {
    if a == [] {
      assert a + b == b;
    } else {
      AfterAppend(maxSize, L.Next(maxSize, s, a[0]), a[1..], b);
      assert (a + b)[1..] == a[1..] + b;
    }
  }

  lemma {:induction false} RunThenAfter(maxSize: nat, a: seq<L.Step>, b: seq<L.Step>)
    ensures L.Run(maxSize, a + b) == After(maxSize, L.Run(maxSize, a), b)
    decreases |b|
  {
    if b == [] {
      assert a + b == a;
    } else {
      RunThenAfter(maxSize, a + [b[0]], b[1..]);
      assert a + [b[0]] + b[1..] == a + b;
      assert (a + [b[0]])[..|a|] == a;
    }
  }

  lemma {:induction false} RefillFollows(cfg: Config, f: Found, keys: seq<string>, now: int)
    ensures L2Pass(cfg, f, keys, now).store.l1 == After(cfg.maxSize, f.store.l1, RefillSteps(cfg, f.store, keys, now))
    decreases |keys|
  {
    if keys != [] {
      var f1 := L2Read(cfg, f, keys[0], now);
      RefillFollows(cfg, f1, keys[1..], now);
      SameRefills(cfg, f.store, f1.store, keys[1..], now);
      if InL2(f.store, keys[0]) {
        var head := L.SetStep(keys[0], f.store.l2.value[L2Key("cache", keys[0])], now + cfg.defaultTTL);
        assert ([head] + RefillSteps(cfg, f.store, keys[1..], now))[1..] == RefillSteps(cfg, f.store, keys[1..], now);
      } else {
        assert [] + RefillSteps(cfg, f.store, keys[1..], now) == RefillSteps(cfg, f.store, keys[1..], now);
      }
    }
  }

  lemma {:induction false} SameRefills(cfg: Config, s: Store, s1: Store, keys: seq<string>, now: int)
    requires s.l2 == s1.l2
    ensures RefillSteps(cfg, s, keys, now) == RefillSteps(cfg, s1, keys, now)
  {
    if keys != [] {
      SameRefills(cfg, s, s1, keys[1..], now);
    }
  }

  lemma {:induction false} ReadsFollow(cfg: Config, f: Found, keys: seq<string>, now: int)
    ensures L1Pass(f, keys, now).store.l1 == After(cfg.maxSize, f.store.l1, ReadSteps(keys, now))
    ensures L1Pass(f, keys, now).store.l2 == f.store.l2
    decreases |keys|
  {
    if keys != [] {
      ReadsFollow(cfg, L1Read(f, keys[0], now), keys[1..], now);
      assert ([L.GetStep(keys[0], now)] + ReadSteps(keys[1..], now))[1..] == ReadSteps(keys[1..], now);
    }
  }

  lemma {:induction false} WritesFollow(cfg: Config, s: Store, items: seq<Pair>, expiresAt: int)
    ensures FillMany(cfg, s, items, expiresAt).l1 == After(cfg.maxSize, s.l1, WriteSteps(items, expiresAt))
    decreases |items|
  {
    if items != [] && items[0].data.Some? {
      WritesFollow(cfg, Fill(cfg, s, items[0].key, items[0].data.value, expiresAt), items[1..], expiresAt);
      assert ([L.SetStep(items[0].key, items[0].data.value, expiresAt)] + WriteSteps(items[1..], expiresAt))[1..] ==
             WriteSteps(items[1..], expiresAt);
    }
  }

  lemma {:induction false} PutsKeepL1(s: Store, items: seq<Pair>)
    requires AllEncoded(items)
    ensures PutMany(s, items).l1 == s.l1
    decreases |items|
  {
    if items != [] {
      PutsKeepL1(PutL2(s, items[0].key, items[0].data.value), items[1..]);
    }
  }

  lemma GetFollows(cfg: Config, s: Store, key: string, now: int, trouble: Trouble)
    ensures Get(cfg, s, key, now, trouble).0.l1 == After(cfg.maxSize, s.l1, L1Steps(cfg, s, GetStep(key, now, trouble)))
  {
    var s1 := s.(l1 := L.Get(s.l1, key, now));
    if !trouble.Cancelled? {
      var rest := if L.Hit(s.l1, key, now) || trouble.RedisFails? then [] else RefillSteps(cfg, s, [key], now);
      assert ([L.GetStep(key, now)] + rest)[1..] == rest;
      assert After(cfg.maxSize, s.l1, [L.GetStep(key, now)] + rest) == After(cfg.maxSize, s1.l1, rest);
      if !L.Hit(s.l1, key, now) && trouble.NoTrouble? {
        RefillFollows(cfg, Found(s1, map[]), [key], now);
        SameRefills(cfg, s, s1, [key], now);
        assert [key][1..] == [];
        assert L2Pass(cfg, Found(s1, map[]), [key], now) == L2Read(cfg, Found(s1, map[]), key, now);
      }
    }
  }

  lemma GetManyFollows(cfg: Config, s: Store, keys: seq<string>, now: int, fails: bool)
    ensures GetMany(cfg, s, keys, now, fails).0.l1 ==
            After(cfg.maxSize, s.l1, L1Steps(cfg, s, GetManyStep(keys, now, fails)))
  {
    var first := L1Pass(Found(s, map[]), keys, now);
    var missing := Missing(keys, first.result);
    var refills := RefillSteps(cfg, s, missing, now);
    ReadsFollow(cfg, Found(s, map[]), keys, now);
    AfterAppend(cfg.maxSize, s.l1, ReadSteps(keys, now), refills);
    assert ReadSteps(keys, now) + [] == ReadSteps(keys, now);
    RefillFollows(cfg, first, missing, now);
    SameRefills(cfg, s, first.store, missing, now);
    NoRefills(cfg, s, missing, now);
  }

  lemma {:induction false} NoRefills(cfg: Config, s: Store, keys: seq<string>, now: int)
    ensures s.l2.None? || keys == [] ==> RefillSteps(cfg, s, keys, now) == []
  {
    if keys != [] {
      NoRefills(cfg, s, keys[1..], now);
    }
  }

  lemma SetFollows(cfg: Config, s: Store, step: Step)
    requires step.SetStep? || step.SetManyStep? || step.SetNilStep?
    ensures Next(cfg, s, step).l1 == After(cfg.maxSize, s.l1, L1Steps(cfg, s, step))
  {
    match step
    case SetStep(key, data, expiresAt) => WritesFollow(cfg, s, [Pair(key, data)], expiresAt);
    case SetManyStep(items, expiresAt) =>
      WritesFollow(cfg, s, items, expiresAt);
      if AllEncoded(items) {
        PutsKeepL1(FillMany(cfg, s, items, expiresAt), items);
      }
    case SetNilStep(key, now) =>
  }

  lemma StepFollows(cfg: Config, s: Store, step: Step)
    ensures Next(cfg, s, step).l1 == After(cfg.maxSize, s.l1, L1Steps(cfg, s, step))
  {
    match step
    case GetStep(key, now, trouble) => GetFollows(cfg, s, key, now, trouble);
    case GetManyStep(keys, now, fails) => GetManyFollows(cfg, s, keys, now, fails);
    case SetStep(_, _, _) => SetFollows(cfg, s, step);
    case SetManyStep(_, _) => SetFollows(cfg, s, step);
    case SetNilStep(_, _) => SetFollows(cfg, s, step);
    case DeleteStep(_) =>
    case ClearStep =>
    case SweepStep(_) =>
    case ExpireStep(_) =>
    case LockStep(_) =>
  }

  /** The L1 level of every run of the cache is a run of L1. */
  lemma {:induction false} L1IsARun(cfg: Config, redis: bool, steps: seq<Step>)
    ensures Run(cfg, redis, steps).l1 == L.Run(cfg.maxSize, L1Trace(cfg, redis, steps))
  {
    if steps != [] {
      var before, last := steps[..|steps| - 1], steps[|steps| - 1];
      L1IsARun(cfg, redis, before);
      StepFollows(cfg, Run(cfg, redis, before), last);
      RunThenAfter(cfg.maxSize, L1Trace(cfg, redis, before), L1Steps(cfg, Run(cfg, redis, before), last));
    }
  }

  /** No call names the empty key. */
  predicate NamesNonEmptyKeys(step: Step) {
    match step
    case GetStep(key, _, _) => key != ""
    case GetManyStep(keys, _, _) => forall i | 0 <= i < |keys| :: keys[i] != ""
    case SetStep(key, _, _) => key != ""
    case SetManyStep(items, _) => forall i | 0 <= i < |items| :: items[i].key != ""
    case SetNilStep(key, _) => key != ""
    case _ => true
  }

  lemma {:induction false} RefillsNonEmpty(cfg: Config, s: Store, keys: seq<string>, now: int)
    requires forall i | 0 <= i < |keys| :: keys[i] != ""
    ensures L.WritesNonEmptyKeys(RefillSteps(cfg, s, keys, now))
  {
    if keys != [] {
      RefillsNonEmpty(cfg, s, keys[1..], now);
    }
  }

  lemma {:induction false} ReadsNonEmpty(keys: seq<string>, now: int)
    ensures L.WritesNonEmptyKeys(ReadSteps(keys, now))
  {
    if keys != [] {
      ReadsNonEmpty(keys[1..], now);
    }
  }

  lemma {:induction false} WritesNonEmpty(items: seq<Pair>, expiresAt: int)
    requires forall i | 0 <= i < |items| :: items[i].key != ""
    ensures L.WritesNonEmptyKeys(WriteSteps(items, expiresAt))
  {
    if items != [] {
      WritesNonEmpty(items[1..], expiresAt);
    }
  }

  lemma StepWritesNonEmpty(cfg: Config, s: Store, step: Step)
    requires NamesNonEmptyKeys(step)
    ensures L.WritesNonEmptyKeys(L1Steps(cfg, s, step))
  {
    match step
    case GetStep(key, now, _) => RefillsNonEmpty(cfg, s, [key], now);
    case GetManyStep(keys, now, _) =>
      var missing := Missing(keys, L1Pass(Found(s, map[]), keys, now).result);
      forall i | 0 <= i < |missing| ensures missing[i] != "" {
        MissingIs(keys, L1Pass(Found(s, map[]), keys, now).result, missing[i]);
        assert missing[i] in keys;
      }
      ReadsNonEmpty(keys, now);
      RefillsNonEmpty(cfg, s, missing, now);
    case SetStep(key, data, expiresAt) => WritesNonEmpty([Pair(key, data)], expiresAt);
    case SetManyStep(items, expiresAt) => WritesNonEmpty(items, expiresAt);
    case _ =>
  }

  lemma {:induction false} TraceWritesNonEmpty(cfg: Config, redis: bool, steps: seq<Step>)
    requires forall i | 0 <= i < |steps| :: NamesNonEmptyKeys(steps[i])
    ensures L.WritesNonEmptyKeys(L1Trace(cfg, redis, steps))
  {
    if steps != [] {
      var before := steps[..|steps| - 1];
      TraceWritesNonEmpty(cfg, redis, before);
      StepWritesNonEmpty(cfg, Run(cfg, redis, before), steps[|steps| - 1]);
    }
  }

  /**
   * Over every run of the cache that names no empty key, refills included, L1 is the recency list of its
   * own operations, holds at most L1MaxSize keys, and when full gives up a key after whose last touch at
   * least L1MaxSize - 1 others were touched.
   */
  lemma CacheKeepsLru(cfg: Config, redis: bool, steps: seq<Step>)
    requires cfg.maxSize > 0 && forall i | 0 <= i < |steps| :: NamesNonEmptyKeys(steps[i])
    requires |L1Trace(cfg, redis, steps)| < MAX_INT64
    ensures var l1, trace := Run(cfg, redis, steps).l1, L1Trace(cfg, redis, steps);
            && L.Refines(l1, L.ListRun(cfg.maxSize, trace)) && |l1.entries| <= cfg.maxSize
            && (|l1.entries| == cfg.maxSize ==>
                  L.LeastRecent(cfg.maxSize, l1, L.Touches(cfg.maxSize, trace), L.Oldest(l1.entries)))
  {
    var trace := L1Trace(cfg, redis, steps);
    L1IsARun(cfg, redis, steps);
    TraceWritesNonEmpty(cfg, redis, steps);
    L.LruRefinement(cfg.maxSize, trace);
    if |L.Run(cfg.maxSize, trace).entries| == cfg.maxSize {
      L.EvictedAfterOthers(cfg.maxSize, trace);
    }
  }
}
