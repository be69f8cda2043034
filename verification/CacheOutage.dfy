/**
 The shared cache through an outage: any sequence of Redis operations of one process, each
 asking the breaker once and reporting its outcome (osimflow/distributed_cache.py).
 */
module CacheOutage {
  import opened CircuitBreaking
  import opened DistributedCache

  /** An operation of the shared cache at a time, and whether Redis would carry it out. */
  datatype GatedCall = GatedCall(now: real, redisOk: bool)

  function GatedRun(c: Config, b: Breaker, ops: seq<GatedCall>): Breaker {
    if ops == [] then b
    else AfterGatedOp(c, GatedRun(c, b, ops[..|ops| - 1]), ops[|ops| - 1].now, ops[|ops| - 1].redisOk)
  }

  /** How many of the operations reach Redis. */
  function Reaching(c: Config, b: Breaker, ops: seq<GatedCall>): nat {
    if ops == [] then 0
    else
      var init, last := ops[..|ops| - 1], ops[|ops| - 1];
      Reaching(c, b, init) + if Admits(c, GatedRun(c, b, init), last.now) then 1 else 0
  }

  predicate AllFail(ops: seq<GatedCall>) {
    forall i :: 0 <= i < |ops| ==> !ops[i].redisOk
  }

  // ---------------------------------------------------------------------
  // Opening
  // ---------------------------------------------------------------------

  /** What a run of `n` failed operations, the last of them at `t`, leaves of a closed breaker that had counted none. */
  ghost predicate AfterFailures(c: Config, b: Breaker, n: nat, t: real) {
    if n < c.threshold then b.phase.Closed? && b.failures == n else b.phase.Open? && b.openedAt == t && !b.inFlight
  }

  lemma {:induction false} FailuresCount(c: Config, b: Breaker, ops: seq<GatedCall>)
    requires c.Valid() && b.phase.Closed? && b.failures == 0 && AllFail(ops) && 0 < |ops| <= c.threshold
    ensures AfterFailures(c, GatedRun(c, b, ops), |ops|, ops[|ops| - 1].now)
    ensures Reaching(c, b, ops) == |ops|
  {
    var init := ops[..|ops| - 1];
    if init == [] {
      assert GatedRun(c, b, init) == b && Reaching(c, b, init) == 0;
    } else {
      FailuresCount(c, b, init);
    }
  }

  /** A success in a closed circuit, or as the probe, forgets all failures. */
  lemma {:induction false} SuccessStartsAfresh(c: Config, b: Breaker, now: real)
    requires Admits(c, b, now)
    ensures AfterGatedOp(c, b, now, true).phase.Closed? && AfterGatedOp(c, b, now, true).failures == 0
  {
  }

  /**
   Failed operations in a row all reach Redis until there are `threshold` of them; from the last of
   these on none does before the cooldown is over. Fewer keep the circuit closed.
   */
  lemma {:induction false} FailuresOpenTheCircuit(c: Config, b: Breaker, ops: seq<GatedCall>, t: real)
    requires c.Valid() && b.phase.Closed? && b.failures == 0 && AllFail(ops) && 0 < |ops| <= c.threshold
    ensures Reaching(c, b, ops) == |ops|
    ensures |ops| < c.threshold ==> Admits(c, GatedRun(c, b, ops), t)
    ensures |ops| == c.threshold ==> (Admits(c, GatedRun(c, b, ops), t) <==> t >= ops[|ops| - 1].now + c.cooldown)
  {
    FailuresCount(c, b, ops);
  }

  /** With the settings of the cache: the fifth failure in a row closes Redis off for thirty seconds. */
  lemma {:induction false} FiveFailuresShutRedisOff(ops: seq<GatedCall>, t: real)
    requires AllFail(ops) && |ops| == 5
    ensures forall n :: 0 < n < 5 ==> Admits(Config(5, 30.0), GatedRun(Config(5, 30.0), FRESH, ops[..n]), t)
    ensures Admits(Config(5, 30.0), GatedRun(Config(5, 30.0), FRESH, ops), t) <==> t >= ops[4].now + 30.0
  {
    forall n | 0 < n < 5 ensures Admits(Config(5, 30.0), GatedRun(Config(5, 30.0), FRESH, ops[..n]), t) {
      FailuresOpenTheCircuit(Config(5, 30.0), FRESH, ops[..n], t);
    }
    FailuresOpenTheCircuit(Config(5, 30.0), FRESH, ops, t);
  }

  // ---------------------------------------------------------------------
  // The run as the breaker records it
  // ---------------------------------------------------------------------

  function Report(op: GatedCall): Event {
    if op.redisOk then Success(op.now) else Failure(op.now)
  }

  /** The calls and reports the operations make: a refused one reports nothing. */
  function EventsOf(c: Config, b: Breaker, ops: seq<GatedCall>): seq<Event> {
    if ops == [] then []
    else
      var init, last := ops[..|ops| - 1], ops[|ops| - 1];
      var asked := EventsOf(c, b, init) + [AllowCall(last.now)];
      if Admits(c, GatedRun(c, b, init), last.now) then asked + [Report(last)] else asked
  }

  lemma OneMoreAdmission(c: Config, b: Breaker, es: seq<Event>, e: Event)
    ensures Admissions(c, b, es + [e]) == Admissions(c, b, es) + if e.AllowCall? && Admits(c, Run(c, b, es), e.now) then 1 else 0
  {
    assert (es + [e])[..|es|] == es;
  }

  lemma {:induction false} GatedRunIsHistory(c: Config, b: Breaker, ops: seq<GatedCall>)
    ensures Run(c, b, EventsOf(c, b, ops)) == GatedRun(c, b, ops)
    ensures Admissions(c, b, EventsOf(c, b, ops)) == Reaching(c, b, ops)
  {
    if ops != [] {
      var init, last := ops[..|ops| - 1], ops[|ops| - 1];
      var es := EventsOf(c, b, init);
      var asked := es + [AllowCall(last.now)];
      GatedRunIsHistory(c, b, init);
      OneMoreEvent(c, b, es, AllowCall(last.now));
      OneMoreEvent(c, b, asked, Report(last));
      OneMoreAdmission(c, b, es, AllowCall(last.now));
      OneMoreAdmission(c, b, asked, Report(last));
    }
  }

  /** The clock never runs backwards between operations. */
  ghost predicate InOrder(from: real, ops: seq<GatedCall>) {
    && (ops != [] ==> from <= ops[0].now)
    && (forall i :: 0 < i < |ops| ==> ops[i - 1].now <= ops[i].now)
  }

  lemma {:induction false} EventsAreInOrder(c: Config, b: Breaker, from: real, ops: seq<GatedCall>)
    requires InOrder(from, ops) && AllFail(ops)
    ensures Monotonic(from, EventsOf(c, b, ops)) && Outage(EventsOf(c, b, ops))
    ensures Latest(from, EventsOf(c, b, ops)) == if ops == [] then from else ops[|ops| - 1].now
  {
    if ops != [] {
      var init, last := ops[..|ops| - 1], ops[|ops| - 1];
      var es := EventsOf(c, b, init);
      var asked := es + [AllowCall(last.now)];
      EventsAreInOrder(c, b, from, init);
      MonotonicSnoc(from, es, AllowCall(last.now));
      MonotonicSnoc(from, asked, Report(last));
    }
  }

  lemma MonotonicSnoc(from: real, es: seq<Event>, e: Event)
    requires Monotonic(from, es) && Outage(es) && !e.Success? && Latest(from, es) <= e.now
    ensures Monotonic(from, es + [e]) && Outage(es + [e]) && Latest(from, es + [e]) == e.now
  {
    assert (es + [e])[..|es|] == es;
  }

  /** While Redis stays dead, at most floor(T / cooldown) operations reach it within T of the failure that opened the circuit. */
  lemma {:induction false} OutageBudget(c: Config, past: seq<Event>, t0: real, ops: seq<GatedCall>, T: real)
    requires c.Valid() && c.cooldown > 0.0 && T >= 0.0 && OpensAt(c, past, t0)
    requires InOrder(t0, ops) && AllFail(ops) && (ops != [] ==> ops[|ops| - 1].now <= t0 + T)
    ensures Reaching(c, Run(c, FRESH, past + [Failure(t0)]), ops) <= (T / c.cooldown).Floor
  {
    var b := Run(c, FRESH, past + [Failure(t0)]);
    GatedRunIsHistory(c, b, ops);
    EventsAreInOrder(c, b, t0, ops);
    BudgetAfterOpening(c, past, t0, EventsOf(c, b, ops), T);
  }

  /** The first operation past the cooldown reaches Redis; its success lets every later one through. */
  lemma {:induction false} OutageEnds(c: Config, past: seq<Event>, t0: real, now: real, later: real)
    requires c.Valid() && OpensAt(c, past, t0) && now >= t0 + c.cooldown
    ensures var b := Run(c, FRESH, past + [Failure(t0)]);
            Admits(c, b, now) && Admits(c, AfterGatedOp(c, b, now, true), later)
  {
    OpeningSetsTheClock(c, past, t0);
    CacheRecovers(c, Run(c, FRESH, past + [Failure(t0)]), now);
  }
}
