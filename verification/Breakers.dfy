/** The two circuit breakers, of the database and of the network package, and when they behave alike. */
module Breakers {

  datatype State = Closed | Open | HalfOpen

  // ---- The database breaker -----------------------------------------------------

  datatype Db = Db(state: State, failures: int, lastFailure: int)

  datatype DbConfig = DbConfig(threshold: int, recoveryTTL: int)

  predicate DbAllows(cfg: DbConfig, s: Db, now: int) {
    s.state == Open ==> now - s.lastFailure > cfg.recoveryTTL
  }

  function DbAllow(cfg: DbConfig, s: Db, now: int): Db {
    if s.state == Open && DbAllows(cfg, s, now) then s.(state := HalfOpen) else s
  }

  function DbSuccess(s: Db): Db {
    s.(state := Closed, failures := 0)
  }

  function DbFailure(cfg: DbConfig, s: Db, now: int): Db {
    Db(if s.failures + 1 >= cfg.threshold then Open else s.state, s.failures + 1, now)
  }

  const THIRTY_SECONDS: int := 30_000_000_000

  class DatabaseBreaker {
    var state: State
    var failures: int
    var lastFailure: int
    const cfg: DbConfig

    constructor (threshold: int, recoveryTTL: int)
      ensures cfg.threshold > 0 && cfg.recoveryTTL > 0
      ensures cfg.threshold == if threshold <= 0 then 5 else threshold
      ensures cfg.recoveryTTL == if recoveryTTL <= 0 then THIRTY_SECONDS else recoveryTTL
      ensures View() == Db(Closed, 0, 0)
    {
      cfg := DbConfig(if threshold <= 0 then 5 else threshold,
                      if recoveryTTL <= 0 then THIRTY_SECONDS else recoveryTTL);
      state, failures, lastFailure := Closed, 0, 0;
    }

    function View(): Db
      reads this
    {
      Db(state, failures, lastFailure)
    }

    method Allow(now: int) returns (ok: bool)
      modifies this`state
      ensures ok == DbAllows(cfg, old(View()), now) && View() == DbAllow(cfg, old(View()), now)
    {
      if state == Open {
        if now - lastFailure > cfg.recoveryTTL {
          state := HalfOpen;
          return true;
        }
        return false;
      }
      return true;
    }

    method Success()
      modifies this`state, this`failures
      ensures View() == DbSuccess(old(View()))
    {
      state := Closed;
      failures := 0;
    }

    method Failure(now: int)
      modifies this
      ensures View() == DbFailure(cfg, old(View()), now)
    {
      failures := failures + 1;
      lastFailure := now;
      if failures >= cfg.threshold {
        state := Open;
      }
    }

    /** One protected call: `succeeds` is what the wrapped function does, if it is called at all. */
    method Run(round: Round) returns (ok: bool)
      modifies this
      ensures ok == (DbAllows(cfg, old(View()), round.asked) && round.succeeds)
      ensures View() == DbRound(cfg, old(View()), round)
    {
      var allowed := Allow(round.asked);
      if !allowed {
        return false;
      }
      if !round.succeeds {
        Failure(round.done);
        return false;
      }
      Success();
      return true;
    }
  }

  // ---- The network breaker --------------------------------------------------------

  datatype Net = Net(state: State, failureCount: int, successCount: int, lastFailure: int)

  datatype NetConfig = NetConfig(failureThreshold: int, successThreshold: int, timeout: int)

  predicate NetAllows(cfg: NetConfig, s: Net, now: int) {
    s.state == Open ==> now - s.lastFailure > cfg.timeout
  }

  function NetAllow(cfg: NetConfig, s: Net, now: int): Net {
    if s.state == Open && NetAllows(cfg, s, now) then s.(state := HalfOpen, successCount := 0) else s
  }

  function NetSuccess(cfg: NetConfig, s: Net): Net {
    match s.state
    case HalfOpen =>
      if s.successCount + 1 >= cfg.successThreshold then s.(state := Closed, failureCount := 0, successCount := 0)
      else s.(successCount := s.successCount + 1)
    case Closed => s.(failureCount := 0)
    case Open => s
  }

  function NetFailure(cfg: NetConfig, s: Net, now: int): Net {
    match s.state
    case HalfOpen => s.(state := Open, lastFailure := now, failureCount := 0)
    case Closed =>
      if s.failureCount + 1 >= cfg.failureThreshold then
        s.(failureCount := s.failureCount + 1, state := Open, lastFailure := now)
      else s.(failureCount := s.failureCount + 1)
    case Open => s.(failureCount := s.failureCount + 1)
  }

  class NetworkBreaker {
    var state: State
    var failureCount: int
    var successCount: int
    var lastFailure: int
    const cfg: NetConfig

    constructor (cfg: NetConfig)
      ensures this.cfg == cfg && View() == Net(Closed, 0, 0, 0)
    {
      this.cfg := cfg;
      state, failureCount, successCount, lastFailure := Closed, 0, 0, 0;
    }

    function View(): Net
      reads this
    {
      Net(state, failureCount, successCount, lastFailure)
    }

    method Allow(now: int) returns (ok: bool)
      modifies this`state, this`successCount
      ensures ok == NetAllows(cfg, old(View()), now) && View() == NetAllow(cfg, old(View()), now)
    {
      if state == Open {
        if now - lastFailure > cfg.timeout {
          state := HalfOpen;
          successCount := 0;
          return true;
        }
        return false;
      }
      return true;
    }

    method Success()
      modifies this`state, this`failureCount, this`successCount
      ensures View() == NetSuccess(cfg, old(View()))
    {
      if state == HalfOpen {
        successCount := successCount + 1;
        if successCount >= cfg.successThreshold {
          state := Closed;
          failureCount := 0;
          successCount := 0;
        }
      } else if state == Closed {
        failureCount := 0;
      }
    }

    method Failure(now: int)
      modifies this`state, this`failureCount, this`lastFailure
      ensures View() == NetFailure(cfg, old(View()), now)
    {
      failureCount := failureCount + 1;
      if state == HalfOpen {
        state := Open;
        lastFailure := now;
        failureCount := 0;
        return;
      }
      if failureCount >= cfg.failureThreshold && state == Closed {
        state := Open;
        lastFailure := now;
      }
    }
  }

  // ---- Runs of protected calls ------------------------------------------------------

  /** Ask at one clock reading; if allowed, the call succeeds or fails at another. */
  datatype Round = Round(asked: int, done: int, succeeds: bool)

  function DbRound(cfg: DbConfig, s: Db, r: Round): Db {
    if !DbAllows(cfg, s, r.asked) then s
    else if r.succeeds then DbSuccess(DbAllow(cfg, s, r.asked))
    else DbFailure(cfg, DbAllow(cfg, s, r.asked), r.done)
  }

  function NetRound(cfg: NetConfig, s: Net, r: Round): Net {
    if !NetAllows(cfg, s, r.asked) then s
    else if r.succeeds then NetSuccess(cfg, NetAllow(cfg, s, r.asked))
    else NetFailure(cfg, NetAllow(cfg, s, r.asked), r.done)
  }

  function DbRun(cfg: DbConfig, rounds: seq<Round>): Db {
    if rounds == [] then Db(Closed, 0, 0) else DbRound(cfg, DbRun(cfg, rounds[..|rounds| - 1]), rounds[|rounds| - 1])
  }

  function NetRun(cfg: NetConfig, rounds: seq<Round>): Net {
    if rounds == [] then Net(Closed, 0, 0, 0)
    else NetRound(cfg, NetRun(cfg, rounds[..|rounds| - 1]), rounds[|rounds| - 1])
  }

  /** Same state, and the same answer to every question. */
  ghost predicate SameFace(dc: DbConfig, nc: NetConfig, d: Db, n: Net) {
    d.state == n.state && forall now :: DbAllows(dc, d, now) == NetAllows(nc, n, now)
  }

  ghost predicate Alike(d: DbConfig, n: NetConfig, rounds: seq<Round>) {
    SameFace(d, n, DbRun(d, rounds), NetRun(n, rounds))
  }

  /**
   * The bisimulation: equal counters below the threshold while closed, equal failure times while
   * open, and a database failure count that stays at or above the threshold until the next success.
   */
  ghost predicate Related(threshold: int, d: Db, n: Net) {
    && d.state == n.state
    && (d.state == Closed ==> d.failures == n.failureCount < threshold)
    && (d.state != Closed ==> d.failures >= threshold)
    && (d.state == Open ==> d.lastFailure == n.lastFailure)
  }

  lemma {:induction false} RunsAreRelated(threshold: int, ttl: int, successThreshold: int, rounds: seq<Round>)
    requires threshold > 0 && successThreshold <= 1
    ensures Related(threshold, DbRun(DbConfig(threshold, ttl), rounds),
                    NetRun(NetConfig(threshold, successThreshold, ttl), rounds))
    ensures NetRun(NetConfig(threshold, successThreshold, ttl), rounds).successCount == 0
  {
    if rounds != [] {
      RunsAreRelated(threshold, ttl, successThreshold, rounds[..|rounds| - 1]);
    }
  }

  // ---- Telling them apart ---------------------------------------------------------------

  function Failures(k: nat): seq<Round> {
    seq(k, _ => Round(0, 0, false))
  }

  /** After `k` failures at time 0 both breakers count them, and open at the threshold. */
  lemma {:induction false} AfterFailures(d: DbConfig, n: NetConfig, k: nat)
    requires 0 < d.threshold == n.failureThreshold && k <= d.threshold
    ensures DbRun(d, Failures(k)) == Db(if k == d.threshold then Open else Closed, k, 0)
    ensures NetRun(n, Failures(k)) == Net(if k == d.threshold then Open else Closed, k, 0, 0)
  {
    if k > 0 {
      AfterFailures(d, n, k - 1);
      assert Failures(k)[..k - 1] == Failures(k - 1);
    }
  }

  /**
   * With equal positive thresholds and timeouts, the two breakers give the same answers and states
   * after every sequence of calls exactly when the success threshold is at most 1. The default
   * success threshold of the network breaker is 2.
   */
  lemma BisimilarIff(threshold: int, ttl: int, successThreshold: int)
    requires threshold > 0
    ensures (forall rounds :: Alike(DbConfig(threshold, ttl), NetConfig(threshold, successThreshold, ttl), rounds))
            <==> successThreshold <= 1
  {
    var d, n := DbConfig(threshold, ttl), NetConfig(threshold, successThreshold, ttl);
    if successThreshold <= 1 {
      forall rounds ensures Alike(d, n, rounds) {
        RunsAreRelated(threshold, ttl, successThreshold, rounds);
      }
    } else {
      AfterFailures(d, n, threshold);
      var probe := Round(ttl + 1, ttl + 1, true);
      var rounds := Failures(threshold) + [probe];
      assert rounds[..|rounds| - 1] == Failures(threshold);
      assert DbRun(d, rounds).state == Closed && NetRun(n, rounds).state == HalfOpen;
      assert !Alike(d, n, rounds);
    }
  }

  // ---- Overlapping calls ----------------------------------------------------------------

  /** A question or an outcome on its own: calls that overlap report in any order. */
  datatype Event = Ask(now: int) | Succeed | Fail(now: int)

  function DbStep(cfg: DbConfig, s: Db, e: Event): Db {
    match e
    case Ask(now) => DbAllow(cfg, s, now)
    case Succeed => DbSuccess(s)
    case Fail(now) => DbFailure(cfg, s, now)
  }

  function NetStep(cfg: NetConfig, s: Net, e: Event): Net {
    match e
    case Ask(now) => NetAllow(cfg, s, now)
    case Succeed => NetSuccess(cfg, s)
    case Fail(now) => NetFailure(cfg, s, now)
  }

  function DbAfter(cfg: DbConfig, events: seq<Event>): Db {
    if events == [] then Db(Closed, 0, 0) else DbStep(cfg, DbAfter(cfg, events[..|events| - 1]), events[|events| - 1])
  }

  function NetAfter(cfg: NetConfig, events: seq<Event>): Net {
    if events == [] then Net(Closed, 0, 0, 0)
    else NetStep(cfg, NetAfter(cfg, events[..|events| - 1]), events[|events| - 1])
  }

  /** An event other than an outcome reported while open, except a failure at the very time that opened the breaker. */
  predicate Harmless(d: Db, e: Event) {
    e.Ask? || d.state != Open || (e.Fail? && e.now == d.lastFailure)
  }

  /**
   * From related breakers, one event leaves them related, and equally leaves them with the same states
   * and answers, exactly when it is no outcome that comes late.
   */
  lemma StepKeepsRelatedIff(threshold: int, ttl: int, successThreshold: int, d: Db, n: Net, e: Event)
    requires threshold > 0 && successThreshold <= 1
    requires Related(threshold, d, n) && n.successCount == 0
    ensures var dc, nc := DbConfig(threshold, ttl), NetConfig(threshold, successThreshold, ttl);
            var d', n' := DbStep(dc, d, e), NetStep(nc, n, e);
            && n'.successCount == 0
            && (Related(threshold, d', n') <==> Harmless(d, e))
            && (SameFace(dc, nc, d', n') <==> Harmless(d, e))
  {
    var dc, nc := DbConfig(threshold, ttl), NetConfig(threshold, successThreshold, ttl);
    var d', n' := DbStep(dc, d, e), NetStep(nc, n, e);
    if e.Fail? && d.state == Open && e.now != d.lastFailure {
      LateFailureShows(dc, nc, d', n');
    }
  }

  /** Two open breakers with different failure times answer some question differently. */
  lemma LateFailureShows(dc: DbConfig, nc: NetConfig, d: Db, n: Net)
    requires d.state == Open == n.state && d.lastFailure != n.lastFailure && dc.recoveryTTL == nc.timeout
    ensures !SameFace(dc, nc, d, n)
  {
    var later := if d.lastFailure > n.lastFailure then d.lastFailure else n.lastFailure;
    assert DbAllows(dc, d, later + dc.recoveryTTL) != NetAllows(nc, n, later + dc.recoveryTTL);
  }

  /** No event of the run is an outcome that comes late. */
  ghost predicate AllHarmless(cfg: DbConfig, events: seq<Event>) {
    forall k | 0 <= k < |events| :: Harmless(DbAfter(cfg, events[..k]), events[k])
  }

  /** After every prefix of the run the breakers have the same states and answers. */
  ghost predicate AlwaysSameFace(dc: DbConfig, nc: NetConfig, events: seq<Event>) {
    forall k | 0 <= k <= |events| :: SameFace(dc, nc, DbAfter(dc, events[..k]), NetAfter(nc, events[..k]))
  }

  lemma AllHarmlessLast(cfg: DbConfig, events: seq<Event>)
    requires events != []
    ensures var before := events[..|events| - 1];
            AllHarmless(cfg, events) <==>
              AllHarmless(cfg, before) && Harmless(DbAfter(cfg, before), events[|events| - 1])
  {
    var before := events[..|events| - 1];
    assert forall k | 0 <= k < |before| :: before[..k] == events[..k] && before[k] == events[k];
  }

  lemma AlwaysSameFaceLast(dc: DbConfig, nc: NetConfig, events: seq<Event>)
    requires events != []
    ensures AlwaysSameFace(dc, nc, events) <==>
            AlwaysSameFace(dc, nc, events[..|events| - 1]) &&
              SameFace(dc, nc, DbAfter(dc, events), NetAfter(nc, events))
  {
    var before := events[..|events| - 1];
    assert forall k | 0 <= k <= |before| :: before[..k] == events[..k];
    assert events[..|events|] == events;
  }

  /**
   * With a success threshold of at most 1, over every interleaving of questions and outcomes, the two
   * breakers keep the same states and answers exactly when no outcome comes late.
   */
  lemma {:induction false} OverlappingCallsAgreeIff(threshold: int, ttl: int, successThreshold: int, events: seq<Event>)
    requires threshold > 0 && successThreshold <= 1
    ensures var dc, nc := DbConfig(threshold, ttl), NetConfig(threshold, successThreshold, ttl);
            && (AlwaysSameFace(dc, nc, events) <==> AllHarmless(dc, events))
            && (AllHarmless(dc, events) ==>
                  Related(threshold, DbAfter(dc, events), NetAfter(nc, events)) &&
                  NetAfter(nc, events).successCount == 0)
  {
    var dc, nc := DbConfig(threshold, ttl), NetConfig(threshold, successThreshold, ttl);
    if events == [] {
      assert events[..0] == [];
    } else {
      var before, last := events[..|events| - 1], events[|events| - 1];
      OverlappingCallsAgreeIff(threshold, ttl, successThreshold, before);
      AllHarmlessLast(dc, events);
      AlwaysSameFaceLast(dc, nc, events);
      if AllHarmless(dc, before) {
        StepKeepsRelatedIff(threshold, ttl, successThreshold, DbAfter(dc, before), NetAfter(nc, before), last);
      }
    }
  }

  // ---- How each breaker opens and closes ---------------------------------------------------

  function DbRepeat(cfg: DbConfig, s: Db, e: Event, k: nat): Db {
    if k == 0 then s else DbStep(cfg, DbRepeat(cfg, s, e, k - 1), e)
  }

  function NetRepeat(cfg: NetConfig, s: Net, e: Event, k: nat): Net {
    if k == 0 then s else NetStep(cfg, NetRepeat(cfg, s, e, k - 1), e)
  }

  /** A closed database breaker opens exactly with the last of `threshold` failures in a row, for its recovery time. */
  lemma {:induction false} DbOpensIff(cfg: DbConfig, s: Db, t: int, k: nat)
    requires s.state == Closed && s.failures == 0 && cfg.threshold > 0
    ensures var s' := DbRepeat(cfg, s, Fail(t), k);
            && s'.failures == k && s'.state == (if k >= cfg.threshold then Open else Closed)
            && forall now :: DbAllows(cfg, s', now) <==> k < cfg.threshold || now - t > cfg.recoveryTTL
  {
    if k > 0 {
      DbOpensIff(cfg, s, t, k - 1);
    }
  }

  lemma {:induction false} NetOpensIff(cfg: NetConfig, s: Net, t: int, k: nat)
    requires s.state == Closed && s.failureCount == 0 && cfg.failureThreshold > 0
    ensures var s' := NetRepeat(cfg, s, Fail(t), k);
            && s'.failureCount == k && s'.state == (if k >= cfg.failureThreshold then Open else Closed)
            && (s'.state == Open ==> s'.lastFailure == t)
            && forall now :: NetAllows(cfg, s', now) <==> k < cfg.failureThreshold || now - t > cfg.timeout
  {
    if k > 0 {
      NetOpensIff(cfg, s, t, k - 1);
    }
  }

  /** A question that an open database breaker admits makes it half-open, and one success closes it. */
  lemma {:induction false} DbClosesIff(cfg: DbConfig, s: Db, now: int, k: nat)
    requires s.state == Open && now - s.lastFailure > cfg.recoveryTTL
    ensures DbRepeat(cfg, DbStep(cfg, s, Ask(now)), Succeed, k).state == if k >= 1 then Closed else HalfOpen
  {
    if k > 0 {
      DbClosesIff(cfg, s, now, k - 1);
    }
  }

  /**
   * A question that an open network breaker admits makes it half-open, and it takes successThreshold
   * successes, but at least one, to close it.
   */
  lemma {:induction false} NetClosesIff(cfg: NetConfig, s: Net, now: int, k: nat)
    requires s.state == Open && now - s.lastFailure > cfg.timeout
    ensures var s' := NetRepeat(cfg, NetStep(cfg, s, Ask(now)), Succeed, k);
            && s'.state == (if k >= 1 && k >= cfg.successThreshold then Closed else HalfOpen)
            && (s'.state == HalfOpen ==> s'.successCount == k)
  {
    if k > 0 {
      NetClosesIff(cfg, s, now, k - 1);
    }
  }

  /** A failure while half-open reopens either breaker, for the whole time again. */
  lemma ProbeFailureReopens(dc: DbConfig, nc: NetConfig, d: Db, n: Net, t: int, now: int)
    requires d.state == HalfOpen == n.state && d.failures >= dc.threshold
    ensures DbAllows(dc, DbStep(dc, d, Fail(t)), now) <==> now - t > dc.recoveryTTL
    ensures NetAllows(nc, NetStep(nc, n, Fail(t)), now) <==> now - t > nc.timeout
    ensures NetStep(nc, n, Fail(t)).failureCount == 0
  {
  }

  /** The successes reported since the question that made the network breaker half-open. */
  function ProbeSuccesses(cfg: NetConfig, events: seq<Event>): nat {
    if events == [] || NetAfter(cfg, events).state != HalfOpen then 0
    else
      var before, last := events[..|events| - 1], events[|events| - 1];
      if NetAfter(cfg, before).state != HalfOpen then 0
      else ProbeSuccesses(cfg, before) + (if last.Succeed? then 1 else 0)
  }

  /** The failures in a row reported to the network breaker since it is closed. */
  function ClosedFailures(cfg: NetConfig, events: seq<Event>): nat {
    if events == [] || NetAfter(cfg, events).state != Closed then 0
    else
      var before, last := events[..|events| - 1], events[|events| - 1];
      if last.Succeed? then 0 else ClosedFailures(cfg, before) + (if last.Fail? then 1 else 0)
  }

  /** Over every interleaving of questions and outcomes, the network breaker's counters are these numbers. */
  lemma {:induction false} NetCountersFollow(cfg: NetConfig, events: seq<Event>)
    requires cfg.failureThreshold > 0
    ensures var s := NetAfter(cfg, events);
            && (s.state == HalfOpen ==> s.successCount == ProbeSuccesses(cfg, events))
            && (s.state == Closed ==> s.failureCount == ClosedFailures(cfg, events) < cfg.failureThreshold)
  {
    if events != [] {
      NetCountersFollow(cfg, events[..|events| - 1]);
    }
  }
}
