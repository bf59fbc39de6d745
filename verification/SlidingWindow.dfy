/** The in-memory sliding-window limiter, with its background cleanup. */
module SlidingWindow {

  /** The times still inside the window at `now`, in order. */
  function Recent(times: seq<int>, now: int, window: int): seq<int> {
    if times == [] then []
    else if now - times[0] < window then [times[0]] + Recent(times[1..], now, window)
    else Recent(times[1..], now, window)
  }

  /** `requests[ip]`: the nil slice for an absent key. */
  function TimesOf(requests: map<string, seq<int>>, ip: string): seq<int> {
    if ip in requests then requests[ip] else []
  }

  /** The limiter's `requests` map under its mutex. */
  class RateLimit {
    var requests: map<string, seq<int>>
    const maxRequests: int
    const window: int

    /** A non-positive window panics in the cleanup ticker. */
    constructor (maxRequests: int, window: int)
      requires window > 0
      ensures this.maxRequests == maxRequests && this.window == window && requests == map[]
    {
      this.maxRequests, this.window, requests := maxRequests, window, map[];
    }

    method Prune(times: seq<int>, now: int) returns (valid: seq<int>)
      ensures valid == Recent(times, now, window)
    {
      valid := [];
      var i := 0;
      while i < |times|
        invariant 0 <= i <= |times|
        invariant Recent(times, now, window) == valid + Recent(times[i..], now, window)
      {
        assert times[i..][1..] == times[i + 1..];
        if now - times[i] < window {
          valid := valid + [times[i]];
        }
        i := i + 1;
      }
    }

    method Allow(ip: string, now: int) returns (ok: bool)
      modifies this`requests
      ensures ok == Decides(Config(maxRequests, window), old(requests), ip, now)
      ensures requests == Next(Config(maxRequests, window), old(requests), Request(ip, now))
    {
      var times := if ip in requests then requests[ip] else [];
      var valid := Prune(times, now);
      if |valid| >= maxRequests {
        requests := requests[ip := valid];
        return false;
      }
      requests := requests[ip := valid + [now]];
      return true;
    }

    /** One tick of the cleanup goroutine; the map is ranged over in no particular order. */
    method Cleanup(now: int)
      modifies this`requests
      ensures requests == Next(Config(maxRequests, window), old(requests), Tick(now))
    {
      var todo := requests.Keys;
      while todo != {}
        invariant todo <= old(requests).Keys
        invariant forall ip | ip in todo :: ip in requests && requests[ip] == old(requests)[ip]
        invariant forall ip | ip in old(requests) && ip !in todo ::
                    && (ip in requests <==> Recent(old(requests)[ip], now, window) != [])
                    && (ip in requests ==> requests[ip] == Recent(old(requests)[ip], now, window))
        invariant requests.Keys <= old(requests).Keys
        decreases |todo|
      {
        var ip :| ip in todo;
        var valid := Prune(requests[ip], now);
        if |valid| == 0 {
          requests := requests - {ip};
        } else {
          requests := requests[ip := valid];
        }
        todo := todo - {ip};
      }
    }
  }

  // ---- Runs ---------------------------------------------------------------------

  datatype Event = Request(ip: string, now: int) | Tick(now: int)

  datatype Config = Config(maxRequests: int, window: int)

  function Decides(cfg: Config, requests: map<string, seq<int>>, ip: string, now: int): bool {
    |Recent(TimesOf(requests, ip), now, cfg.window)| < cfg.maxRequests
  }

  function Next(cfg: Config, requests: map<string, seq<int>>, event: Event): map<string, seq<int>> {
    match event
    case Request(ip, now) =>
      var valid := Recent(TimesOf(requests, ip), now, cfg.window);
      requests[ip := if Decides(cfg, requests, ip, now) then valid + [now] else valid]
    case Tick(now) =>
      map ip | ip in requests && Recent(requests[ip], now, cfg.window) != [] :: Recent(requests[ip], now, cfg.window)
  }

  function Run(cfg: Config, events: seq<Event>): map<string, seq<int>> {
    if events == [] then map[] else Next(cfg, Run(cfg, events[..|events| - 1]), events[|events| - 1])
  }

  /** The limiter's answer to the last event of a run (true for a tick). */
  function Answer(cfg: Config, events: seq<Event>): bool
    requires events != []
  {
    var last := events[|events| - 1];
    last.Request? ==> Decides(cfg, Run(cfg, events[..|events| - 1]), last.ip, last.now)
  }

  /** All admission times of an ip over the whole run, oldest first. */
  function Admitted(cfg: Config, events: seq<Event>, ip: string): seq<int> {
    if events == [] then []
    else
      var earlier, last := Admitted(cfg, events[..|events| - 1], ip), events[|events| - 1];
      if last.Request? && last.ip == ip && Answer(cfg, events) then earlier + [last.now] else earlier
  }

  /** How many of the given times lie in (T - window, T]. */
  function CountIn(times: seq<int>, T: int, window: int): nat {
    if times == [] then 0
    else CountIn(times[..|times| - 1], T, window) + (if T - window < times[|times| - 1] <= T then 1 else 0)
  }

  ghost predicate ClockRuns(events: seq<Event>) {
    forall i, j | 0 <= i <= j < |events| :: events[i].now <= events[j].now
  }

  ghost predicate NoneAfter(times: seq<int>, now: int) {
    forall i | 0 <= i < |times| :: times[i] <= now
  }

  lemma RecentStep(time: int, rest: seq<int>, now: int, window: int)
    ensures Recent([time] + rest, now, window) ==
            (if now - time < window then [time] else []) + Recent(rest, now, window)
  {
    assert ([time] + rest)[1..] == rest;
  }

  lemma {:induction false} RecentAppend(a: seq<int>, b: seq<int>, now: int, window: int)
    ensures Recent(a + b, now, window) == Recent(a, now, window) + Recent(b, now, window)
    decreases |a|
  {
    if a == [] {
      assert a + b == b;
    } else {
      RecentAppend(a[1..], b, now, window);
      RecentStep(a[0], a[1..] + b, now, window);
      assert a + b == [a[0]] + (a[1..] + b);
    }
  }

  /** Pruning earlier makes no difference to a later pruning. */
  lemma {:induction false} RecentOfRecent(times: seq<int>, t1: int, t2: int, window: int)
    requires t1 <= t2
    ensures Recent(Recent(times, t1, window), t2, window) == Recent(times, t2, window)
  {
    if times != [] {
      RecentOfRecent(times[1..], t1, t2, window);
      if t1 - times[0] < window {
        var kept := Recent(times[1..], t1, window);
        assert ([times[0]] + kept)[1..] == kept;
      }
    }
  }

  lemma {:induction false} RecentCounts(times: seq<int>, now: int, window: int)
    requires NoneAfter(times, now)
    ensures |Recent(times, now, window)| == CountIn(times, now, window)
  {
    if times != [] {
      var before, last := times[..|times| - 1], times[|times| - 1];
      RecentCounts(before, now, window);
      RecentAppend(before, [last], now, window);
      assert times == before + [last];
    }
  }

  /** What the map still holds of an ip agrees with its whole history, for every later clock reading. */
  ghost predicate Agrees(cfg: Config, events: seq<Event>, now: int, ip: string) {
    forall later | later >= now ::
      Recent(TimesOf(Run(cfg, events), ip), later, cfg.window) == Recent(Admitted(cfg, events, ip), later, cfg.window)
  }

  lemma {:induction false} MapAgreesWithHistory(cfg: Config, events: seq<Event>, now: int, ip: string)
    requires ClockRuns(events) && forall i | 0 <= i < |events| :: events[i].now <= now
    ensures Agrees(cfg, events, now, ip)
    ensures NoneAfter(Admitted(cfg, events, ip), now)
  {
    if events != [] {
      var before, last := events[..|events| - 1], events[|events| - 1];
      MapAgreesWithHistory(cfg, before, last.now, ip);
      var held, past := TimesOf(Run(cfg, before), ip), Admitted(cfg, before, ip);
      forall later | later >= now
        ensures Recent(TimesOf(Run(cfg, events), ip), later, cfg.window) ==
                Recent(Admitted(cfg, events, ip), later, cfg.window)
      {
        RecentOfRecent(held, last.now, later, cfg.window);
        RecentAppend(Recent(held, last.now, cfg.window), [last.now], later, cfg.window);
        RecentAppend(past, [last.now], later, cfg.window);
      }
    }
  }

  /**
   * A request is refused exactly when maxRequests requests of its ip were already admitted in the
   * window that ends now. The right side counts the admissions of the whole run.
   */
  lemma RefusedIffWindowFull(cfg: Config, events: seq<Event>)
    requires events != [] && events[|events| - 1].Request? && ClockRuns(events)
    ensures var last, before := events[|events| - 1], events[..|events| - 1];
            Answer(cfg, events) <==> CountIn(Admitted(cfg, before, last.ip), last.now, cfg.window) < cfg.maxRequests
  {
    var last, before := events[|events| - 1], events[..|events| - 1];
    MapAgreesWithHistory(cfg, before, last.now, last.ip);
    RecentCounts(Admitted(cfg, before, last.ip), last.now, cfg.window);
  }

  /** After a request the map holds for its ip exactly the admissions in the window that ends with it. */
  lemma RequestKeepsWindow(cfg: Config, events: seq<Event>)
    requires events != [] && events[|events| - 1].Request? && ClockRuns(events) && cfg.window > 0
    ensures var last := events[|events| - 1];
            TimesOf(Run(cfg, events), last.ip) == Recent(Admitted(cfg, events, last.ip), last.now, cfg.window)
  {
    var last, before := events[|events| - 1], events[..|events| - 1];
    MapAgreesWithHistory(cfg, before, last.now, last.ip);
    RecentAppend(Admitted(cfg, before, last.ip), [last.now], last.now, cfg.window);
  }

  /** After a cleanup tick the map has an entry exactly for every ip with an admission in the window that ends then. */
  lemma TickKeepsActive(cfg: Config, events: seq<Event>, now: int, ip: string)
    requires ClockRuns(events) && forall i | 0 <= i < |events| :: events[i].now <= now
    ensures ip in Run(cfg, events + [Tick(now)]) <==> CountIn(Admitted(cfg, events, ip), now, cfg.window) > 0
  {
    assert (events + [Tick(now)])[..|events|] == events;
    MapAgreesWithHistory(cfg, events, now, ip);
    RecentCounts(Admitted(cfg, events, ip), now, cfg.window);
    assert Recent(TimesOf(Run(cfg, events), ip), now, cfg.window) == Recent(Admitted(cfg, events, ip), now, cfg.window);
  }

  lemma {:induction false} CountShrinksWithWindow(times: seq<int>, last: int, T: int, window: int)
    requires NoneAfter(times, last) && last <= T
    ensures CountIn(times, T, window) <= CountIn(times, last, window)
  {
    if times != [] {
      CountShrinksWithWindow(times[..|times| - 1], last, T, window);
    }
  }

  /** At every moment T, at most maxRequests requests of an ip were admitted in (T - window, T]. */
  lemma {:induction false} WindowNeverOverfull(cfg: Config, events: seq<Event>, ip: string, T: int)
    requires ClockRuns(events)
    ensures CountIn(Admitted(cfg, events, ip), T, cfg.window) <= if cfg.maxRequests > 0 then cfg.maxRequests else 0
  {
    if events != [] {
      var before, last := events[..|events| - 1], events[|events| - 1];
      WindowNeverOverfull(cfg, before, ip, T);
      var past := Admitted(cfg, before, ip);
      if last.Request? && last.ip == ip && Answer(cfg, events) {
        assert (past + [last.now])[..|past|] == past;
        if T - cfg.window < last.now <= T {
          RefusedIffWindowFull(cfg, events);
          MapAgreesWithHistory(cfg, before, last.now, ip);
          CountShrinksWithWindow(past, last.now, T, cfg.window);
        }
      }
    }
  }

  // ---- Cleanup is invisible -------------------------------------------------------

  function WithoutTicks(events: seq<Event>): seq<Event> {
    if events == [] then []
    else
      var before, last := WithoutTicks(events[..|events| - 1]), events[|events| - 1];
      if last.Tick? then before else before + [last]
  }

  lemma {:induction false} WithoutTicksIsOrdered(events: seq<Event>, now: int)
    requires ClockRuns(events) && forall i | 0 <= i < |events| :: events[i].now <= now
    ensures ClockRuns(WithoutTicks(events))
    ensures forall i | 0 <= i < |WithoutTicks(events)| :: WithoutTicks(events)[i].now <= now
  {
    if events != [] {
      WithoutTicksIsOrdered(events[..|events| - 1], events[|events| - 1].now);
    }
  }

  /** The ip has the same admissions with and without the cleanup ticks. */
  lemma {:induction false} TicksChangeNoAdmission(cfg: Config, events: seq<Event>, ip: string)
    requires ClockRuns(events)
    ensures Admitted(cfg, events, ip) == Admitted(cfg, WithoutTicks(events), ip)
    decreases |events|, 1
  {
    if events != [] {
      var before, last := events[..|events| - 1], events[|events| - 1];
      TicksChangeNoAdmission(cfg, before, ip);
      if last.Request? {
        TicksChangeNoAnswer(cfg, events);
        assert WithoutTicks(events)[..|WithoutTicks(before)|] == WithoutTicks(before);
      }
    }
  }

  /** Inserting or removing cleanup ticks changes no decision. */
  lemma {:induction false} TicksChangeNoAnswer(cfg: Config, events: seq<Event>)
    requires events != [] && events[|events| - 1].Request? && ClockRuns(events)
    ensures WithoutTicks(events) != []
    ensures Answer(cfg, events) == Answer(cfg, WithoutTicks(events))
    decreases |events|, 0
  {
    var before, last := events[..|events| - 1], events[|events| - 1];
    var pure := WithoutTicks(before);
    assert WithoutTicks(events) == pure + [last] && (pure + [last])[..|pure|] == pure;
    TicksChangeNoAdmission(cfg, before, last.ip);
    WithoutTicksIsOrdered(before, last.now);
    WithoutTicksIsOrdered(events, last.now);
    RefusedIffWindowFull(cfg, events);
    RefusedIffWindowFull(cfg, pure + [last]);
  }
}
