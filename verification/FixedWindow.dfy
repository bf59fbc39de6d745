/** The Redis fixed-window limiter: INCR a key, set its expiry on the first hit. */
module FixedWindow {
  import opened Prelude

  /** A Redis counter: its value and the time it expires, if its expiry was set. */
  datatype Counter = Counter(count: int, expiresAt: Option<int>)

  /** What Redis refuses to do for one request: nothing, the INCR, or only the EXPIRE. */
  datatype Fault = NoFault | IncrFails | ExpireFails

  /**
   * One request. Redis has dropped the key after its expiry time and still has it before; at the
   * very expiry time either may be seen, which `dropped` decides.
   */
  datatype Hit = Hit(ip: string, now: int, dropped: bool, fault: Fault)

  /** The window is a duration in nanoseconds. */
  datatype Config = Config(maxRequests: int, window: int)

  const SECOND := 1_000_000_000

  /** The expiry the client sends: whole seconds, rounded down, but not below one for a positive window. */
  function Life(cfg: Config): int {
    if 0 < cfg.window < SECOND then SECOND else Quotient(cfg.window, SECOND) * SECOND
  }

  predicate Alive(keys: map<string, Counter>, hit: Hit) {
    hit.ip in keys &&
    (keys[hit.ip].expiresAt.Some? ==>
       var expiry := keys[hit.ip].expiresAt.value;
       hit.now < expiry || (hit.now == expiry && !hit.dropped))
  }

  /** The value INCR returns. */
  function Incr(keys: map<string, Counter>, hit: Hit): int {
    if Alive(keys, hit) then keys[hit.ip].count + 1 else 1
  }

  /** EXPIRE with a time that is not positive deletes the key. */
  function Next(cfg: Config, keys: map<string, Counter>, hit: Hit): map<string, Counter> {
    var count := Incr(keys, hit);
    if hit.fault.IncrFails? then keys
    else if count == 1 && !hit.fault.ExpireFails? then
      if Life(cfg) <= 0 then keys - {hit.ip} else keys[hit.ip := Counter(1, Some(hit.now + Life(cfg)))]
    else
      keys[hit.ip := Counter(count, if Alive(keys, hit) then keys[hit.ip].expiresAt else None)]
  }

  /** A request Redis cannot count is let through. */
  function Allows(cfg: Config, keys: map<string, Counter>, hit: Hit): bool {
    hit.fault.IncrFails? || Incr(keys, hit) <= cfg.maxRequests
  }

  /** The limiter together with the keys of its Redis server. */
  class RedisRateLimit {
    var keys: map<string, Counter>
    const maxRequests: int
    const window: int

    constructor (maxRequests: int, window: int)
      ensures this.maxRequests == maxRequests && this.window == window && keys == map[]
    {
      this.maxRequests, this.window, keys := maxRequests, window, map[];
    }

    method Allow(hit: Hit) returns (ok: bool)
      modifies this`keys
      ensures ok == Allows(Config(maxRequests, window), old(keys), hit)
      ensures keys == Next(Config(maxRequests, window), old(keys), hit)
    {
      if hit.fault.IncrFails? {
        return true;
      }
      if !Alive(keys, hit) {
        keys := keys - {hit.ip};
      }
      var count := 1;
      if hit.ip in keys {
        count := keys[hit.ip].count + 1;
        keys := keys[hit.ip := keys[hit.ip].(count := count)];
      } else {
        keys := keys[hit.ip := Counter(1, None)];
      }
      if count == 1 && !hit.fault.ExpireFails? {
        var life := Life(Config(maxRequests, window));
        keys := if life <= 0 then keys - {hit.ip} else keys[hit.ip := keys[hit.ip].(expiresAt := Some(hit.now + life))];
      }
      assert keys == Next(Config(maxRequests, window), old(keys), hit);
      return count <= maxRequests;
    }
  }

  function Run(cfg: Config, hits: seq<Hit>): map<string, Counter> {
    if hits == [] then map[] else Next(cfg, Run(cfg, hits[..|hits| - 1]), hits[|hits| - 1])
  }

  /** What Redis counts for one ip: the time of each request and the count INCR gave it. */
  datatype Seen = Seen(now: int, count: int)

  function History(cfg: Config, hits: seq<Hit>, ip: string): seq<Seen> {
    if hits == [] then []
    else
      var before, last := hits[..|hits| - 1], hits[|hits| - 1];
      var earlier := History(cfg, before, ip);
      if last.ip != ip || last.fault.IncrFails? then earlier
      else earlier + [Seen(last.now, Incr(Run(cfg, before), last))]
  }

  /** The counted requests admitted in the half-open interval [from, to). */
  function AdmittedIn(cfg: Config, history: seq<Seen>, from: int, to: int): nat {
    if history == [] then 0
    else
      var last := history[|history| - 1];
      AdmittedIn(cfg, history[..|history| - 1], from, to)
      + (if from <= last.now < to && last.count <= cfg.maxRequests then 1 else 0)
  }

  // ---- Key lifetimes -------------------------------------------------------------

  ghost predicate ClockRuns(hits: seq<Hit>) {
    forall i, j | 0 <= i <= j < |hits| :: hits[i].now <= hits[j].now
  }

  /** The request that opened the lifetime request `k` falls into. */
  function Opening(history: seq<Seen>, k: nat): int
    requires k < |history|
  {
    k - history[k].count + 1
  }

  /**
   * The history is a sequence of key lifetimes: counts run 1, 2, 3, ... from each opening request,
   * and a new lifetime starts no earlier than one expiry time after the previous opening.
   */
  ghost predicate Lifetimes(cfg: Config, history: seq<Seen>) {
    forall k | 0 <= k < |history| :: LifetimeAt(cfg, history, k)
  }

  ghost predicate LifetimeAt(cfg: Config, history: seq<Seen>, k: nat)
    requires k < |history|
  {
    && 0 <= Opening(history, k) <= k
    && (k > 0 ==> history[k - 1].now <= history[k].now)
    && (history[k].count > 1 ==> k > 0 && history[k - 1].count == history[k].count - 1)
    && (history[k].count == 1 && k > 0 ==>
         0 <= Opening(history, k - 1) < k && history[k].now >= history[Opening(history, k - 1)].now + Life(cfg))
  }

  lemma PrefixLifetimes(cfg: Config, history: seq<Seen>, n: nat)
    requires n <= |history| && Lifetimes(cfg, history)
    ensures Lifetimes(cfg, history[..n])
  {
    forall k | 0 <= k < n ensures LifetimeAt(cfg, history[..n], k) {
      assert LifetimeAt(cfg, history, k);
    }
  }

  lemma AppendLifetime(cfg: Config, history: seq<Seen>, seen: Seen)
    requires Lifetimes(cfg, history) && LifetimeAt(cfg, history + [seen], |history|)
    ensures Lifetimes(cfg, history + [seen])
  {
    forall k | 0 <= k < |history| ensures LifetimeAt(cfg, history + [seen], k) {
      assert LifetimeAt(cfg, history, k);
    }
  }

  /** The key's counter and expiry, against the history of its ip. */
  ghost predicate KeyMatches(cfg: Config, keys: map<string, Counter>, history: seq<Seen>, ip: string) {
    if history == [] then ip !in keys
    else
      var k := |history| - 1;
      && 0 <= Opening(history, k) <= k
      && ip in keys && keys[ip].count == history[k].count
      && (keys[ip].expiresAt.Some? ==> keys[ip].expiresAt.value == history[Opening(history, k)].now + Life(cfg))
      && history[k].count >= 1
  }

  ghost predicate EndsBy(history: seq<Seen>, now: int) {
    history == [] || history[|history| - 1].now <= now
  }

  lemma HitExtendsLifetime(cfg: Config, keys: map<string, Counter>, history: seq<Seen>, hit: Hit)
    requires Lifetimes(cfg, history) && KeyMatches(cfg, keys, history, hit.ip) && EndsBy(history, hit.now)
    requires !hit.fault.IncrFails? && Life(cfg) > 0
    ensures var history' := history + [Seen(hit.now, Incr(keys, hit))];
            Lifetimes(cfg, history') && KeyMatches(cfg, Next(cfg, keys, hit), history', hit.ip)
  {
    var seen := Seen(hit.now, Incr(keys, hit));
    var n := |history|;
    if n > 0 {
      assert LifetimeAt(cfg, history, n - 1);
      assert Opening(history + [seen], n - 1) == Opening(history, n - 1);
    }
    AppendLifetime(cfg, history, seen);
  }

  lemma {:induction false} RunsAreLifetimes(cfg: Config, hits: seq<Hit>, now: int, ip: string)
    requires Life(cfg) > 0 && ClockRuns(hits) && forall i | 0 <= i < |hits| :: hits[i].now <= now
    ensures Lifetimes(cfg, History(cfg, hits, ip))
    ensures KeyMatches(cfg, Run(cfg, hits), History(cfg, hits, ip), ip)
    ensures EndsBy(History(cfg, hits, ip), now)
  {
    if hits != [] {
      var before, last := hits[..|hits| - 1], hits[|hits| - 1];
      RunsAreLifetimes(cfg, before, last.now, ip);
      if last.ip == ip && !last.fault.IncrFails? {
        HitExtendsLifetime(cfg, Run(cfg, before), History(cfg, before, ip), last);
      }
    }
  }

  // ---- The bound -------------------------------------------------------------------

  /** Within one lifetime, counts are positions, so at most maxRequests - first + 1 requests pass. */
  lemma {:induction false} AdmittedInLifetime(cfg: Config, history: seq<Seen>, from: int, to: int, first: nat, end: nat)
    requires first < end <= |history|
    requires forall k | first <= k < end :: history[k].count == history[first].count + (k - first)
    requires forall k | 0 <= k < first :: history[k].now < from
    requires history[first].count >= 1
    ensures var left := cfg.maxRequests - history[first].count + 1;
            AdmittedIn(cfg, history[..end], from, to) <= if left > 0 then left else 0
    ensures AdmittedIn(cfg, history[..end], from, to) <= end - first
    decreases end
  {
    assert history[..end][..end - 1] == history[..end - 1];
    assert history[..end][|history[..end]| - 1] == history[end - 1];
    if end - 1 == first {
      NoneBefore(cfg, history[..first], from, to);
    } else {
      AdmittedInLifetime(cfg, history, from, to, first, end - 1);
    }
  }

  lemma {:induction false} NoneBefore(cfg: Config, history: seq<Seen>, from: int, to: int)
    requires forall k | 0 <= k < |history| :: history[k].now < from
    ensures AdmittedIn(cfg, history, from, to) == 0
  {
    if history != [] {
      NoneBefore(cfg, history[..|history| - 1], from, to);
    }
  }

  lemma {:induction false} CountsAreConsecutive(cfg: Config, history: seq<Seen>, first: nat, k: nat)
    requires Lifetimes(cfg, history) && k < |history|
    requires Opening(history, k) <= first <= k
    ensures history[first].count == history[k].count - (k - first)
    ensures Opening(history, first) == Opening(history, k)
    decreases k
  {
    assert LifetimeAt(cfg, history, k);
    if first < k {
      CountsAreConsecutive(cfg, history, first, k - 1);
    }
  }

  lemma {:induction false} TimesAreOrdered(cfg: Config, history: seq<Seen>, j: nat, k: nat)
    requires Lifetimes(cfg, history) && j <= k < |history|
    ensures history[j].now <= history[k].now
    decreases k
  {
    assert LifetimeAt(cfg, history, k);
    if j < k {
      TimesAreOrdered(cfg, history, j, k - 1);
    }
  }

  /** Admissions up to `k`, when the lifetime of `k` began before the interval: at most maxRequests. */
  lemma OneLifetime(cfg: Config, history: seq<Seen>, from: int, to: int, first: nat, k: nat)
    requires Lifetimes(cfg, history) && first <= k < |history|
    requires Opening(history, k) <= first && forall j | 0 <= j < first :: history[j].now < from
    ensures AdmittedIn(cfg, history[..k + 1], from, to) <=
            (var left := cfg.maxRequests - (first - Opening(history, k)); if left > 0 then left else 0)
  {
    forall j | first <= j < k + 1 ensures history[j].count == history[first].count + (j - first) {
      CountsAreConsecutive(cfg, history, j, k);
      CountsAreConsecutive(cfg, history, first, k);
    }
    AdmittedInLifetime(cfg, history, from, to, first, k + 1);
  }

  /** Splitting a count at an index. */
  lemma {:induction false} AdmittedSplit(cfg: Config, history: seq<Seen>, mid: nat, end: nat, from: int, to: int)
    requires mid <= end <= |history|
    ensures AdmittedIn(cfg, history[..end], from, to) ==
            AdmittedIn(cfg, history[..mid], from, to) + AdmittedIn(cfg, history[mid..end], from, to)
    decreases end
  {
    if mid < end {
      AdmittedSplit(cfg, history, mid, end - 1, from, to);
      assert history[..end][..end - 1] == history[..end - 1];
      assert history[mid..end][..end - 1 - mid] == history[mid..end - 1];
    } else {
      assert history[mid..end] == [];
    }
  }

  /** All requests of the lifetime that opens at `open` and is current at `k`: at most maxRequests pass. */
  lemma {:induction false} WholeLifetime(cfg: Config, history: seq<Seen>, open: nat, k: nat, from: int, to: int)
    requires cfg.maxRequests >= 1 && Lifetimes(cfg, history) && open <= k < |history| && Opening(history, k) == open
    ensures AdmittedIn(cfg, history[open..k + 1], from, to) <= cfg.maxRequests
    ensures AdmittedIn(cfg, history[open..k + 1], from, to) <= history[k].count
    decreases k
  {
    assert history[open..k + 1][..k - open] == history[open..k];
    if open < k {
      CountsAreConsecutive(cfg, history, k - 1, k);
      WholeLifetime(cfg, history, open, k - 1, from, to);
    } else {
      assert history[open..k] == [];
    }
  }

  /** A lifetime that opened before the interval: its opening request is missed. */
  lemma OpenedBefore(cfg: Config, history: seq<Seen>, from: int, to: int, k: nat)
    requires cfg.maxRequests >= 1 && Lifetimes(cfg, history) && k < |history| && LifetimeAt(cfg, history, k)
    requires history[Opening(history, k)].now < from
    ensures AdmittedIn(cfg, history[..k + 1], from, to) <= cfg.maxRequests - 1
  {
    var missed := Opening(history, k);
    forall j | 0 <= j <= missed ensures history[j].now < from { TimesAreOrdered(cfg, history, j, missed); }
    if missed < k {
      OneLifetime(cfg, history, from, to, missed + 1, k);
    } else {
      NoneBefore(cfg, history[..k + 1], from, to);
    }
  }

  /** Counting back one lifetime: one expiry time less, and at most maxRequests admissions. */
  lemma OneLess(cfg: Config, m: nat)
    requires m > 0
    ensures (m - 1) * Life(cfg) == m * Life(cfg) - Life(cfg)
    ensures m * cfg.maxRequests + cfg.maxRequests == (m + 1) * cfg.maxRequests
    ensures cfg.maxRequests >= 1 ==> m * cfg.maxRequests >= 1 && (m + 1) * cfg.maxRequests >= cfg.maxRequests
  {
    assert cfg.maxRequests >= 1 ==> (m - 1) * cfg.maxRequests >= 0;
    assert (m - 1) * cfg.maxRequests == m * cfg.maxRequests - cfg.maxRequests;
  }

  /** Everything up to `k`, when the lifetime of `k` opened less than `m` expiry times after `from`. */
  lemma {:induction false} OpenedInTime(cfg: Config, history: seq<Seen>, from: int, to: int, k: nat, m: nat)
    requires cfg.maxRequests >= 1 && Lifetimes(cfg, history) && k < |history| && LifetimeAt(cfg, history, k)
    requires history[Opening(history, k)].now < from + m * Life(cfg)
    ensures AdmittedIn(cfg, history[..k + 1], from, to) <= (m + 1) * cfg.maxRequests - 1
    decreases m
  {
    var open := Opening(history, k);
    if history[open].now < from {
      OpenedBefore(cfg, history, from, to, k);
      if m > 0 { OneLess(cfg, m); }
    } else {
      assert m > 0;
      OneLess(cfg, m);
      CountsAreConsecutive(cfg, history, open, k);
      WholeLifetime(cfg, history, open, k, from, to);
      AdmittedSplit(cfg, history, open, k + 1, from, to);
      if open > 0 {
        assert LifetimeAt(cfg, history, open) && LifetimeAt(cfg, history, open - 1);
        OpenedInTime(cfg, history, from, to, open - 1, m - 1);
      }
    }
  }

  /** No half-open interval of `n` expiry times holds more than (n + 1) * maxRequests - 1 admissions. */
  lemma {:induction false} BoundOnHistory(cfg: Config, history: seq<Seen>, from: int, to: int, n: nat)
    requires cfg.maxRequests >= 1 && Lifetimes(cfg, history) && to <= from + n * Life(cfg)
    ensures AdmittedIn(cfg, history, from, to) <= (n + 1) * cfg.maxRequests - 1
  {
    if history == [] {
      if n > 0 { OneLess(cfg, n); }
    } else {
      var k := |history| - 1;
      assert LifetimeAt(cfg, history, k);
      if from <= history[k].now < to {
        CountsAreConsecutive(cfg, history, Opening(history, k), k);
        TimesAreOrdered(cfg, history, Opening(history, k), k);
        OpenedInTime(cfg, history, from, to, k, n);
        assert history[..k + 1] == history;
      } else {
        PrefixLifetimes(cfg, history, k);
        BoundOnHistory(cfg, history[..k], from, to, n);
      }
    }
  }

  /** All requests of an ip that were answered with yes in [from, to), counted by Redis or not. */
  function AllowedIn(cfg: Config, hits: seq<Hit>, ip: string, from: int, to: int): nat {
    if hits == [] then 0
    else
      var before, last := hits[..|hits| - 1], hits[|hits| - 1];
      AllowedIn(cfg, before, ip, from, to)
      + (if last.ip == ip && from <= last.now < to && Allows(cfg, Run(cfg, before), last) then 1 else 0)
  }

  /** The requests of an ip in [from, to) that Redis could not count. */
  function UncountedIn(hits: seq<Hit>, ip: string, from: int, to: int): nat {
    if hits == [] then 0
    else
      var last := hits[|hits| - 1];
      UncountedIn(hits[..|hits| - 1], ip, from, to)
      + (if last.ip == ip && from <= last.now < to && last.fault.IncrFails? then 1 else 0)
  }

  lemma {:induction false} AllowedAreCountedOrNot(cfg: Config, hits: seq<Hit>, ip: string, from: int, to: int)
    ensures AllowedIn(cfg, hits, ip, from, to) ==
            AdmittedIn(cfg, History(cfg, hits, ip), from, to) + UncountedIn(hits, ip, from, to)
  {
    if hits != [] {
      var before, last := hits[..|hits| - 1], hits[|hits| - 1];
      AllowedAreCountedOrNot(cfg, before, ip, from, to);
      if last.ip == ip && !last.fault.IncrFails? {
        var earlier := History(cfg, before, ip);
        var all := earlier + [Seen(last.now, Incr(Run(cfg, before), last))];
        assert History(cfg, hits, ip) == all && all[..|all| - 1] == earlier;
      }
    }
  }

  /**
   * For every run with a clock that does not go back and every interval of at most `n` expiry times, at
   * most (n + 1) * maxRequests - 1 requests of an ip are admitted, besides those Redis could not count. A
   * failing EXPIRE does not loosen the bound.
   */
  lemma FixedWindowBound(cfg: Config, hits: seq<Hit>, ip: string, from: int, to: int, n: nat)
    requires cfg.maxRequests >= 1 && Life(cfg) > 0 && ClockRuns(hits) && to <= from + n * Life(cfg)
    ensures AllowedIn(cfg, hits, ip, from, to) <= (n + 1) * cfg.maxRequests - 1 + UncountedIn(hits, ip, from, to)
  {
    var now := if hits == [] then 0 else hits[|hits| - 1].now;
    RunsAreLifetimes(cfg, hits, now, ip);
    BoundOnHistory(cfg, History(cfg, hits, ip), from, to, n);
    AllowedAreCountedOrNot(cfg, hits, ip, from, to);
  }

  // ---- The bound is sharp --------------------------------------------------------------

  /** What a run admitted in [from, to), what Redis could not count of it, and the key after it. */
  datatype Summary = Summary(allowed: int, uncounted: nat, key: Option<Counter>)

  function SummaryOf(cfg: Config, hits: seq<Hit>, ip: string, from: int, to: int): Summary {
    Summary(AllowedIn(cfg, hits, ip, from, to), UncountedIn(hits, ip, from, to),
            if ip in Run(cfg, hits) then Some(Run(cfg, hits)[ip]) else None)
  }

  ghost predicate UpTo(hits: seq<Hit>, now: int) {
    ClockRuns(hits) && forall i | 0 <= i < |hits| :: hits[i].now <= now
  }

  lemma OneMore(cfg: Config, hits: seq<Hit>, hit: Hit, from: int, to: int)
    requires UpTo(hits, hit.now) && hit.fault == NoFault
    ensures UpTo(hits + [hit], hit.now)
    ensures var before, keys := SummaryOf(cfg, hits, hit.ip, from, to), Next(cfg, Run(cfg, hits), hit);
            var passes := from <= hit.now < to && Incr(Run(cfg, hits), hit) <= cfg.maxRequests;
            SummaryOf(cfg, hits + [hit], hit.ip, from, to) ==
            Summary(before.allowed + (if passes then 1 else 0), before.uncounted,
                    if hit.ip in keys then Some(keys[hit.ip]) else None)
  {
    assert (hits + [hit])[..|hits|] == hits;
  }

  /** Within a lifetime, its very end included, as many more as it still admits. */
  lemma {:induction false} UseUp(cfg: Config, hits: seq<Hit>, ip: string, from: int, to: int,
                                 allowed: int, count: int, expiresAt: int, t: int) returns (more: seq<Hit>)
    requires SummaryOf(cfg, hits, ip, from, to) == Summary(allowed, 0, Some(Counter(count, Some(expiresAt))))
    requires UpTo(hits, t) && t <= expiresAt && from <= t < to && 1 <= count <= cfg.maxRequests
    ensures UpTo(more, t)
    ensures SummaryOf(cfg, more, ip, from, to) ==
            Summary(allowed + cfg.maxRequests - count, 0, Some(Counter(cfg.maxRequests, Some(expiresAt))))
    decreases cfg.maxRequests - count
  {
    if count == cfg.maxRequests {
      more := hits;
    } else {
      var hit := Hit(ip, t, false, NoFault);
      OneMore(cfg, hits, hit, from, to);
      more := UseUp(cfg, hits + [hit], ip, from, to, allowed + 1, count + 1, expiresAt, t);
    }
  }

  function Times(n: nat, x: int): int {
    if n == 0 then 0 else Times(n - 1, x) + x
  }

  lemma {:induction false} TimesIs(n: nat, x: int)
    ensures Times(n, x) == n * x
  {
    if n > 0 {
      TimesIs(n - 1, x);
      assert n * x == (n - 1) * x + x;
    }
  }

  lemma {:induction false} TimesGrows(n: nat, x: int)
    requires n >= 1 && x >= 0
    ensures Times(n, x) >= x
  {
    if n > 1 {
      TimesGrows(n - 1, x);
    }
  }

  /**
   * One request at time 0, the rest of its lifetime at the very moment it ends, and then `n` whole
   * lifetimes, each used up the moment it opens.
   */
  lemma {:induction false} WorstRun(cfg: Config, ip: string, to: int, n: nat) returns (hits: seq<Hit>)
    requires cfg.maxRequests >= 1 && Life(cfg) > 0 && to > Life(cfg) && to > Times(n, Life(cfg))
    ensures UpTo(hits, Times(n + 1, Life(cfg)))
    ensures SummaryOf(cfg, hits, ip, Life(cfg), to) ==
            Summary(Times(n + 1, cfg.maxRequests) - 1, 0, Some(Counter(cfg.maxRequests, Some(Times(n + 1, Life(cfg))))))
  {
    var life, max := Life(cfg), cfg.maxRequests;
    if n == 0 {
      var first := Hit(ip, 0, true, NoFault);
      OneMore(cfg, [], first, life, to);
      assert [] + [first] == [first];
      hits := UseUp(cfg, [first], ip, life, to, 0, 1, life, life);
      assert Times(1, life) == life && Times(1, max) == max;
    } else {
      var allowed, expiry := Times(n, max) - 1, Times(n, life);
      TimesGrows(n, life);
      var before := WorstRun(cfg, ip, to, n - 1);
      var first := Hit(ip, expiry, true, NoFault);
      OneMore(cfg, before, first, life, to);
      hits := UseUp(cfg, before + [first], ip, life, to, allowed + 1, 1, expiry + life, expiry);
    }
  }

  /** For every maximum, window and n some run admits as many as the bound says in `n` expiry times. */
  lemma BoundIsAttained(cfg: Config, ip: string, n: nat) returns (hits: seq<Hit>)
    requires cfg.maxRequests >= 1 && Life(cfg) > 0 && n >= 1
    ensures var from, to := Life(cfg), Life(cfg) + n * Life(cfg);
            && ClockRuns(hits) && UncountedIn(hits, ip, from, to) == 0
            && AllowedIn(cfg, hits, ip, from, to) == (n + 1) * cfg.maxRequests - 1
  {
    TimesIs(n, Life(cfg));
    TimesIs(n + 1, cfg.maxRequests);
    TimesGrows(n, Life(cfg));
    hits := WorstRun(cfg, ip, Life(cfg) + n * Life(cfg), n);
  }

  // ---- The configured window -------------------------------------------------------------

  /** In every configured window of every run at most 2 * maxRequests - 1 requests pass. */
  ghost predicate WindowHolds(cfg: Config) {
    forall hits, ip, from | ClockRuns(hits) :: HoldsFrom(cfg, hits, ip, from)
  }

  predicate HoldsFrom(cfg: Config, hits: seq<Hit>, ip: string, from: int) {
    AllowedIn(cfg, hits, ip, from, from + cfg.window) <=
    2 * cfg.maxRequests - 1 + UncountedIn(hits, ip, from, from + cfg.window)
  }

  lemma {:induction false} EmptyInterval(cfg: Config, hits: seq<Hit>, ip: string, from: int, to: int)
    requires to <= from
    ensures AllowedIn(cfg, hits, ip, from, to) == 0
  {
    if hits != [] {
      EmptyInterval(cfg, hits[..|hits| - 1], ip, from, to);
    }
  }

  lemma LifeOfWindow(cfg: Config)
    ensures cfg.window > 0 ==> Life(cfg) > 0 && cfg.window < 2 * Life(cfg)
    ensures cfg.window <= Life(cfg) || cfg.window <= 0 <==> cfg.window <= SECOND || cfg.window % SECOND == 0
  {
  }

  /**
   * EXPIRE keeps whole seconds, so the bound per configured window holds exactly for whole seconds and
   * up to one second.
   */
  lemma WindowHoldsIff(cfg: Config)
    requires cfg.maxRequests >= 1
    ensures WindowHolds(cfg) <==> cfg.window <= SECOND || cfg.window % SECOND == 0
  {
    LifeOfWindow(cfg);
    if cfg.window <= Life(cfg) || cfg.window <= 0 {
      forall hits, ip, from | ClockRuns(hits) ensures HoldsFrom(cfg, hits, ip, from) {
        if cfg.window <= 0 {
          EmptyInterval(cfg, hits, ip, from, from + cfg.window);
        } else {
          FixedWindowBound(cfg, hits, ip, from, from + cfg.window, 1);
        }
      }
    } else {
      TimesIs(2, Life(cfg));
      TimesIs(3, cfg.maxRequests);
      var hits := WorstRun(cfg, "", Life(cfg) + cfg.window, 2);
      assert !HoldsFrom(cfg, hits, "", Life(cfg));
    }
  }

  /** Whatever the rounding, no configured window holds more than 3 * maxRequests - 1. */
  lemma WindowNeverTripled(cfg: Config, hits: seq<Hit>, ip: string, from: int)
    requires cfg.maxRequests >= 1 && ClockRuns(hits)
    ensures AllowedIn(cfg, hits, ip, from, from + cfg.window) <=
            3 * cfg.maxRequests - 1 + UncountedIn(hits, ip, from, from + cfg.window)
  {
    LifeOfWindow(cfg);
    if cfg.window <= 0 {
      EmptyInterval(cfg, hits, ip, from, from + cfg.window);
    } else {
      FixedWindowBound(cfg, hits, ip, from, from + cfg.window, 2);
    }
  }

  // ---- A failing EXPIRE ------------------------------------------------------------------

  /** The ip's key never expires and is used up. */
  predicate Stuck(cfg: Config, keys: map<string, Counter>, ip: string) {
    ip in keys && keys[ip].expiresAt.None? && keys[ip].count >= cfg.maxRequests
  }

  /** Every request that Redis counts is refused, at whatever time it comes, exactly when the ip's key is stuck. */
  lemma RefusedAlwaysIff(cfg: Config, keys: map<string, Counter>, ip: string)
    requires cfg.maxRequests >= 1
    ensures (forall hit: Hit | hit.ip == ip && !hit.fault.IncrFails? :: !Allows(cfg, keys, hit)) <==>
            Stuck(cfg, keys, ip)
  {
    if !Stuck(cfg, keys, ip) {
      var late := if ip in keys && keys[ip].expiresAt.Some? then keys[ip].expiresAt.value + 1 else 0;
      assert Allows(cfg, keys, Hit(ip, late, false, NoFault));
    }
  }

  /** The `i`-th request of the run opens a key whose EXPIRE fails. */
  predicate LosesAt(cfg: Config, hits: seq<Hit>, ip: string, i: nat) {
    i < |hits| && hits[i].ip == ip && hits[i].fault.ExpireFails? && !Alive(Run(cfg, hits[..i]), hits[i])
  }

  /** The requests of the ip that Redis counted from the `i`-th on. */
  function CountedFrom(hits: seq<Hit>, ip: string, i: nat): nat {
    if |hits| <= i then 0
    else
      var last := hits[|hits| - 1];
      CountedFrom(hits[..|hits| - 1], ip, i) + (if last.ip == ip && !last.fault.IncrFails? then 1 else 0)
  }

  /** The key has no expiry exactly when some request opened it so, and then it has counted every request since. */
  lemma {:induction false} LostIff(cfg: Config, hits: seq<Hit>, ip: string)
    ensures var keys := Run(cfg, hits);
            && (ip in keys ==> keys[ip].count >= 1)
            && ((ip in keys && keys[ip].expiresAt.None?) <==> exists i :: LosesAt(cfg, hits, ip, i))
            && (forall i | LosesAt(cfg, hits, ip, i) :: ip in keys && keys[ip].count == CountedFrom(hits, ip, i))
  {
    if hits != [] {
      var k := |hits| - 1;
      var before := hits[..k];
      LostIff(cfg, before, ip);
      forall i: nat | i < k ensures LosesAt(cfg, hits, ip, i) <==> LosesAt(cfg, before, ip, i) {
        assert before[..i] == hits[..i];
      }
      LostStep(cfg, hits, ip);
    }
  }

  lemma LostStep(cfg: Config, hits: seq<Hit>, ip: string)
    requires hits != []
    requires var keys := Run(cfg, hits[..|hits| - 1]); ip in keys ==> keys[ip].count >= 1
    ensures var k := |hits| - 1;
            var keys, keys' := Run(cfg, hits[..k]), Run(cfg, hits);
            var lost, lost' := ip in keys && keys[ip].expiresAt.None?, ip in keys' && keys'[ip].expiresAt.None?;
            && (ip in keys' ==> keys'[ip].count >= 1)
            && (lost' <==> lost || LosesAt(cfg, hits, ip, k))
            && (lost ==> !LosesAt(cfg, hits, ip, k) && keys'[ip].count == keys[ip].count + CountedFrom(hits, ip, k))
            && (LosesAt(cfg, hits, ip, k) ==> keys'[ip].count == 1 == CountedFrom(hits, ip, k))
  {
    var k := |hits| - 1;
    assert CountedFrom(hits[..k], ip, k) == 0;
  }

  /**
   * The runs that leave an ip refused for good: a request opened its key, the EXPIRE failed, and from
   * that request on Redis has counted at least maxRequests of the ip.
   */
  lemma StuckIff(cfg: Config, hits: seq<Hit>, ip: string)
    ensures Stuck(cfg, Run(cfg, hits), ip) <==>
            exists i :: LosesAt(cfg, hits, ip, i) && CountedFrom(hits, ip, i) >= cfg.maxRequests
  {
    LostIff(cfg, hits, ip);
  }

  /** With a maximum of one request, one request whose EXPIRE fails is enough. */
  lemma OneLostExpiry(ip: string)
    ensures Stuck(Config(1, 10 * SECOND), Run(Config(1, 10 * SECOND), [Hit(ip, 0, false, ExpireFails)]), ip)
  {
    assert [Hit(ip, 0, false, ExpireFails)][..0] == [];
  }

  /** A stuck key stays stuck over every continuation of the run. */
  lemma {:induction false} LostExpiryBlocks(cfg: Config, hits: seq<Hit>, ip: string, n: nat)
    requires cfg.maxRequests >= 1 && n <= |hits| && Stuck(cfg, Run(cfg, hits[..n]), ip)
    ensures Stuck(cfg, Run(cfg, hits), ip)
    ensures forall hit: Hit | hit.ip == ip :: Allows(cfg, Run(cfg, hits), hit) <==> hit.fault.IncrFails?
  {
    if n == |hits| {
      assert hits[..n] == hits;
    } else {
      var k := |hits| - 1;
      assert hits[..k][..n] == hits[..n];
      LostExpiryBlocks(cfg, hits[..k], ip, n);
    }
  }
}
