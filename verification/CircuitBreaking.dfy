/**
 The circuit breaker that guards every Redis operation (osimflow/circuit_breaker.py).
 `Breaker` is the value of its four mutable fields; every method runs under the
 instance lock, so a concurrent execution is a sequence of `Event`s.
 */
module CircuitBreaking {

  datatype Phase = Closed | Open | HalfOpen

  datatype Config = Config(threshold: nat, cooldown: real) {
    predicate Valid() {
      threshold >= 1 && cooldown >= 0.0
    }
  }

  datatype Breaker = Breaker(phase: Phase, failures: nat, openedAt: real, inFlight: bool)

  const FRESH := Breaker(Closed, 0, 0.0, false)

  /** The cooldown transition applied before every read of the state. */
  function Elapse(c: Config, b: Breaker, now: real): Breaker {
    if b.phase.Open? && now - b.openedAt >= c.cooldown then b.(phase := HalfOpen) else b
  }

  function Admits(c: Config, b: Breaker, now: real): bool {
    var e := Elapse(c, b, now);
    e.phase.Closed? || (e.phase.HalfOpen? && !e.inFlight)
  }

  function AfterAllow(c: Config, b: Breaker, now: real): Breaker {
    var e := Elapse(c, b, now);
    if e.phase.HalfOpen? then e.(inFlight := true) else e
  }

  function AfterSuccess(b: Breaker): Breaker {
    b.(phase := Closed, failures := 0, inFlight := false)
  }

  function AfterFailure(c: Config, b: Breaker, now: real): Breaker {
    if b.phase.HalfOpen? then
      Breaker(Open, 0, now, false)
    else if b.failures + 1 >= c.threshold then
      Breaker(Open, b.failures + 1, now, false)
    else
      b.(failures := b.failures + 1, inFlight := false)
  }

  class CircuitBreaker {
    const config: Config
    var state: Phase
    var consecutiveFailures: nat
    var openedAt: real
    var halfOpenInFlight: bool

    ghost predicate Valid() {
      config.Valid()
    }

    function View(): Breaker
      reads this
    {
      Breaker(state, consecutiveFailures, openedAt, halfOpenInFlight)
    }

    constructor (failureThreshold: int, cooldown: real)
      ensures Valid() && View() == FRESH
      ensures failureThreshold >= 1 ==> config.threshold == failureThreshold
      ensures failureThreshold < 1 ==> config.threshold == 1
      ensures cooldown >= 0.0 ==> config.cooldown == cooldown
      ensures cooldown < 0.0 ==> config.cooldown == 0.0
    {
      config := Config(if failureThreshold < 1 then 1 else failureThreshold,
                       if cooldown < 0.0 then 0.0 else cooldown);
      state := Closed;
      consecutiveFailures := 0;
      openedAt := 0.0;
      halfOpenInFlight := false;
    }

    method EffectiveState(now: real) returns (phase: Phase)
      modifies this`state
      ensures View() == Elapse(config, old(View()), now) && phase == View().phase
    {
      if state == Open && now - openedAt >= config.cooldown {
        state := HalfOpen;
      }
      phase := state;
    }

    method Allow(now: real) returns (admitted: bool)
      modifies this`state, this`halfOpenInFlight
      ensures admitted == Admits(config, old(View()), now)
      ensures View() == AfterAllow(config, old(View()), now)
    {
      var phase := EffectiveState(now);
      if phase == Closed {
        return true;
      }
      if phase == HalfOpen {
        if halfOpenInFlight {
          return false;
        }
        halfOpenInFlight := true;
        return true;
      }
      return false;
    }

    method RecordSuccess()
      modifies this`state, this`consecutiveFailures, this`halfOpenInFlight
      ensures View() == AfterSuccess(old(View()))
    {
      consecutiveFailures := 0;
      state := Closed;
      halfOpenInFlight := false;
    }

    method RecordFailure(now: real)
      modifies this
      ensures View() == AfterFailure(config, old(View()), now)
    {
      consecutiveFailures := consecutiveFailures + 1;
      var wasHalfOpen := state == HalfOpen;
      halfOpenInFlight := false;
      if consecutiveFailures >= config.threshold || wasHalfOpen {
        state := Open;
        openedAt := now;
        if wasHalfOpen {
          consecutiveFailures := 0;
        }
      }
    }
  }

  // ---------------------------------------------------------------------
  // Histories: any interleaving of calls by any number of threads
  // ---------------------------------------------------------------------

  /** `now` is the clock reading of the call; `Observe` is a read of the `state` property. */
  datatype Event =
    | AllowCall(now: real)
    | Success(now: real)
    | Failure(now: real)
    | Observe(now: real)

  predicate IsOutcome(e: Event) {
    e.Success? || e.Failure?
  }

  function Step(c: Config, b: Breaker, e: Event): Breaker {
    match e
    case AllowCall(now) => AfterAllow(c, b, now)
    case Success(_) => AfterSuccess(b)
    case Failure(now) => AfterFailure(c, b, now)
    case Observe(now) => Elapse(c, b, now)
  }

  function Run(c: Config, b: Breaker, es: seq<Event>): Breaker {
    if es == [] then b else Step(c, Run(c, b, es[..|es| - 1]), es[|es| - 1])
  }

  /** The monotonic clock never runs backwards. */
  predicate Monotonic(from: real, es: seq<Event>) {
    es == [] || (Latest(from, es[..|es| - 1]) <= es[|es| - 1].now && Monotonic(from, es[..|es| - 1]))
  }

  function FailuresSinceSuccess(es: seq<Event>): nat {
    if es == [] then 0
    else
      match es[|es| - 1]
      case Success(_) => 0
      case Failure(_) => FailuresSinceSuccess(es[..|es| - 1]) + 1
      case _ => FailuresSinceSuccess(es[..|es| - 1])
  }

  lemma {:induction false} StateTracksHistory(c: Config, es: seq<Event>)
    requires c.Valid()
    ensures var b := Run(c, FRESH, es);
            && (b.phase.Closed? <==> FailuresSinceSuccess(es) < c.threshold)
            && (b.phase.Closed? ==> b.failures == FailuresSinceSuccess(es))
            && (b.inFlight ==> b.phase.HalfOpen?)
  {
    if es != [] {
      StateTracksHistory(c, es[..|es| - 1]);
    }
  }

  /** Call `i` of the history was let through as the half-open probe. */
  predicate AdmitsProbe(c: Config, b: Breaker, es: seq<Event>, i: nat)
    requires i < |es|
  {
    var before := Run(c, b, es[..i]);
    && es[i].AllowCall?
    && Admits(c, before, es[i].now)
    && Elapse(c, before, es[i].now).phase.HalfOpen?
  }

  lemma {:induction false} ProbeStaysInFlight(c: Config, b: Breaker, es: seq<Event>, i: nat, j: nat)
    requires i < j <= |es| && AdmitsProbe(c, b, es, i)
    requires forall k :: i < k < j ==> !IsOutcome(es[k])
    ensures Run(c, b, es[..j]).inFlight && Run(c, b, es[..j]).phase.HalfOpen?
  {
    assert es[..j][..j - 1] == es[..j - 1];
    if i + 1 < j {
      ProbeStaysInFlight(c, b, es, i, j - 1);
    }
  }

  /** Single-probe gate: whatever else happens, between two half-open admissions an outcome was recorded. */
  lemma {:induction false} ProbesAreSeparatedByOutcome(c: Config, b: Breaker, es: seq<Event>, i: nat, j: nat)
    requires i < j < |es| && AdmitsProbe(c, b, es, i) && AdmitsProbe(c, b, es, j)
    ensures exists k :: i < k < j && IsOutcome(es[k])
  {
    if forall k :: i < k < j ==> !IsOutcome(es[k]) {
      ProbeStaysInFlight(c, b, es, i, j);
    }
  }

  // ---------------------------------------------------------------------
  // Probing rate during an outage
  // ---------------------------------------------------------------------

  function Admissions(c: Config, b: Breaker, es: seq<Event>): nat {
    if es == [] then 0
    else
      var init := es[..|es| - 1];
      var last := es[|es| - 1];
      Admissions(c, b, init) + if last.AllowCall? && Admits(c, Run(c, b, init), last.now) then 1 else 0
  }

  predicate Outage(es: seq<Event>) {
    forall i :: 0 <= i < |es| ==> !es[i].Success?
  }

  /** Earliest time at which `k` probes can have been admitted. */
  function Earliest(c: Config, t0: real, k: nat): real {
    if k == 0 then t0 else Earliest(c, t0, k - 1) + c.cooldown
  }

  lemma {:induction false} EarliestIsLinear(c: Config, t0: real, k: nat)
    ensures Earliest(c, t0, k) == t0 + k as real * c.cooldown
  {
    if k != 0 {
      EarliestIsLinear(c, t0, k - 1);
      assert k as real == (k - 1) as real + 1.0;
    }
  }

  function Latest(t0: real, es: seq<Event>): real {
    if es == [] then t0 else es[|es| - 1].now
  }

  /** Relates the breaker reached after `k` admissions to the time that must have passed. */
  ghost predicate Paced(c: Config, b: Breaker, t0: real, k: nat, latest: real) {
    && !b.phase.Closed?
    && Earliest(c, t0, k) <= latest
    && (b.phase.Open? ==> !b.inFlight && Earliest(c, t0, k) <= b.openedAt <= latest)
    && (b.phase.HalfOpen? && !b.inFlight ==> Earliest(c, t0, k + 1) <= latest)
  }

  lemma {:induction false} OutageIsPaced(c: Config, b: Breaker, es: seq<Event>)
    requires c.Valid() && b.phase.Open? && !b.inFlight
    requires Monotonic(b.openedAt, es) && Outage(es)
    ensures Paced(c, Run(c, b, es), b.openedAt, Admissions(c, b, es), Latest(b.openedAt, es))
  {
    if es != [] {
      var init := es[..|es| - 1];
      OutageIsPaced(c, b, init);
      assert Latest(b.openedAt, init) <= es[|es| - 1].now;
    }
  }

  /** The k-th call admitted after the circuit opened at t0 comes no earlier than t0 + k * cooldown. */
  lemma {:induction false} KthProbeIsLate(c: Config, b: Breaker, es: seq<Event>, t: real, k: nat)
    requires c.Valid() && b.phase.Open? && !b.inFlight
    requires Monotonic(b.openedAt, es + [AllowCall(t)]) && Outage(es)
    requires Admits(c, Run(c, b, es), t) && k == Admissions(c, b, es) + 1
    ensures t >= b.openedAt + k as real * c.cooldown
  {
    assert t >= Earliest(c, b.openedAt, k) by {
      KthProbeIsLateStep(c, b, es, t);
    }
    assert t >= b.openedAt + k as real * c.cooldown by {
      EarliestIsLinear(c, b.openedAt, k);
    }
  }

  lemma KthProbeIsLateStep(c: Config, b: Breaker, es: seq<Event>, t: real)
    requires c.Valid() && b.phase.Open? && !b.inFlight
    requires Monotonic(b.openedAt, es + [AllowCall(t)]) && Outage(es)
    requires Admits(c, Run(c, b, es), t)
    ensures t >= Earliest(c, b.openedAt, Admissions(c, b, es) + 1)
  {
    var all := es + [AllowCall(t)];
    assert all[..|all| - 1] == es;
    OutageIsPaced(c, b, all);
  }

  lemma FloorOfQuotient(k: nat, d: real, t: real)
    requires d > 0.0 && k as real * d <= t
    ensures k <= (t / d).Floor
  {
    var q := t / d;
    assert q * d == t;
    assert (q - k as real) * d >= 0.0;
    assert q >= k as real;
  }

  lemma ProbesThatFit(c: Config, t0: real, k: nat, T: real)
    requires c.cooldown > 0.0 && Earliest(c, t0, k) <= t0 + T
    ensures k <= (T / c.cooldown).Floor
  {
    EarliestIsLinear(c, t0, k);
    FloorOfQuotient(k, c.cooldown, T);
  }

  lemma EarliestWithin(c: Config, b: Breaker, es: seq<Event>, T: real)
    requires c.Valid() && b.phase.Open? && !b.inFlight && T >= 0.0
    requires Monotonic(b.openedAt, es) && Outage(es)
    requires es != [] ==> es[|es| - 1].now <= b.openedAt + T
    ensures Earliest(c, b.openedAt, Admissions(c, b, es)) <= b.openedAt + T
  {
    OutageIsPaced(c, b, es);
  }

  /** At most floor(T / cooldown) calls reach a dead Redis within T of the circuit opening. */
  lemma {:induction false} ProbeBudget(c: Config, b: Breaker, es: seq<Event>, T: real)
    requires c.Valid() && c.cooldown > 0.0 && b.phase.Open? && !b.inFlight && T >= 0.0
    requires Monotonic(b.openedAt, es) && Outage(es)
    requires es != [] ==> es[|es| - 1].now <= b.openedAt + T
    ensures Admissions(c, b, es) <= (T / c.cooldown).Floor
  {
    EarliestWithin(c, b, es, T);
    ProbesThatFit(c, b.openedAt, Admissions(c, b, es), T);
  }

  // ---------------------------------------------------------------------
  // Counted from the failure that opened the circuit
  // ---------------------------------------------------------------------

  /** After `past`, the failure recorded at `t0` opens a circuit that was not open. */
  ghost predicate OpensAt(c: Config, past: seq<Event>, t0: real) {
    !Run(c, FRESH, past).phase.Open? && Run(c, FRESH, past + [Failure(t0)]).phase.Open?
  }

  lemma OneMoreEvent(c: Config, b: Breaker, es: seq<Event>, e: Event)
    ensures Run(c, b, es + [e]) == Step(c, Run(c, b, es), e)
  {
    assert (es + [e])[..|es|] == es;
  }

  /** While closed every call is admitted; a failure opens the circuit exactly if it completes the streak. */
  lemma {:induction false} ClosedAdmitsUntilStreak(c: Config, past: seq<Event>, t: real)
    requires c.Valid() && FailuresSinceSuccess(past) < c.threshold
    ensures Admits(c, Run(c, FRESH, past), t)
    ensures OpensAt(c, past, t) <==> FailuresSinceSuccess(past) + 1 == c.threshold
    ensures !OpensAt(c, past, t) ==> forall u :: Admits(c, Run(c, FRESH, past + [Failure(t)]), u)
  {
    StateTracksHistory(c, past);
    OneMoreEvent(c, FRESH, past, Failure(t));
  }

  lemma OpeningSetsTheClock(c: Config, past: seq<Event>, t0: real)
    requires OpensAt(c, past, t0)
    ensures var b := Run(c, FRESH, past + [Failure(t0)]); b.openedAt == t0 && !b.inFlight
  {
    OneMoreEvent(c, FRESH, past, Failure(t0));
  }

  /** The cooldown runs from the failure that opened the circuit: refused before `t0 + cooldown`, one probe from then on. */
  lemma {:induction false} RefusedUntilCooldown(c: Config, past: seq<Event>, t0: real, t: real, u: real)
    requires c.Valid() && OpensAt(c, past, t0)
    ensures var b := Run(c, FRESH, past + [Failure(t0)]);
            && (Admits(c, b, t) <==> t >= t0 + c.cooldown)
            && (Admits(c, b, t) ==> !Admits(c, Run(c, b, [AllowCall(t)]), u))
  {
    var b := Run(c, FRESH, past + [Failure(t0)]);
    OpeningSetsTheClock(c, past, t0);
    OneMoreEvent(c, b, [], AllowCall(t));
    assert [] + [AllowCall(t)] == [AllowCall(t)];
  }

  /**
   A failure reported late, while the circuit is open: it starts the cooldown anew if a streak
   had opened the circuit, and does not if a failed probe had (unless one failure is a streak).
   */
  lemma {:induction false} LateFailure(c: Config, past: seq<Event>, t0: real, t1: real, t: real)
    requires c.Valid() && OpensAt(c, past, t0)
    ensures var since := if Run(c, FRESH, past).phase.Closed? || c.threshold == 1 then t1 else t0;
            Admits(c, Run(c, FRESH, past + [Failure(t0)] + [Failure(t1)]), t) <==> t >= since + c.cooldown
  {
    OneMoreEvent(c, FRESH, past, Failure(t0));
    OneMoreEvent(c, FRESH, past + [Failure(t0)], Failure(t1));
  }

  /** The k-th call admitted after the failure at `t0` opened the circuit comes no earlier than `t0 + k * cooldown`. */
  lemma {:induction false} KthProbeAfterOpening(c: Config, past: seq<Event>, t0: real, es: seq<Event>, t: real, k: nat)
    requires c.Valid() && OpensAt(c, past, t0)
    requires Monotonic(t0, es + [AllowCall(t)]) && Outage(es)
    requires var b := Run(c, FRESH, past + [Failure(t0)]);
             Admits(c, Run(c, b, es), t) && k == Admissions(c, b, es) + 1
    ensures t >= t0 + k as real * c.cooldown
  {
    OpeningSetsTheClock(c, past, t0);
    KthProbeIsLate(c, Run(c, FRESH, past + [Failure(t0)]), es, t, k);
  }

  /** Within `T` of the failure that opened the circuit at most floor(T / cooldown) calls reach a dead Redis. */
  lemma {:induction false} BudgetAfterOpening(c: Config, past: seq<Event>, t0: real, es: seq<Event>, T: real)
    requires c.Valid() && c.cooldown > 0.0 && T >= 0.0 && OpensAt(c, past, t0)
    requires Monotonic(t0, es) && Outage(es)
    requires es != [] ==> es[|es| - 1].now <= t0 + T
    ensures Admissions(c, Run(c, FRESH, past + [Failure(t0)]), es) <= (T / c.cooldown).Floor
  {
    OpeningSetsTheClock(c, past, t0);
    ProbeBudget(c, Run(c, FRESH, past + [Failure(t0)]), es, T);
  }

  /** The budget is used up by a caller that asks again each time the cooldown is over and fails. */
  function Probing(c: Config, t0: real, k: nat): seq<Event> {
    if k == 0 then [] else OneRound(Probing(c, t0, k - 1), Earliest(c, t0, k))
  }

  function OneRound(before: seq<Event>, t: real): seq<Event> {
    before + [AllowCall(t)] + [Failure(t)]
  }

  lemma RoundIsAdmitted(c: Config, b: Breaker, before: seq<Event>, t: real)
    requires var now := Run(c, b, before); now.phase.Open? && !now.inFlight && t - now.openedAt >= c.cooldown
    ensures Run(c, b, OneRound(before, t)) == Breaker(Open, 0, t, false)
    ensures Admissions(c, b, OneRound(before, t)) == Admissions(c, b, before) + 1
  {
    var asked := before + [AllowCall(t)];
    OneMoreEvent(c, b, before, AllowCall(t));
    OneMoreEvent(c, b, asked, Failure(t));
    assert asked[..|before|] == before;
    assert Admissions(c, b, asked) == Admissions(c, b, before) + 1;
    assert OneRound(before, t)[..|asked|] == asked;
  }

  lemma {:induction false} RoundsAreAdmitted(c: Config, b: Breaker, t0: real, k: nat)
    requires b.phase.Open? && !b.inFlight && b.openedAt == t0
    ensures Admissions(c, b, Probing(c, t0, k)) == k
    ensures var now := Run(c, b, Probing(c, t0, k));
            now.phase.Open? && !now.inFlight && now.openedAt == Earliest(c, t0, k)
  {
    if k > 0 {
      RoundsAreAdmitted(c, b, t0, k - 1);
      RoundIsAdmitted(c, b, Probing(c, t0, k - 1), Earliest(c, t0, k));
    }
  }

  /** The bound is attained: after k such rounds k calls were admitted and k cooldowns have passed. */
  lemma {:induction false} BudgetIsAttained(c: Config, past: seq<Event>, t0: real, k: nat)
    requires c.Valid() && OpensAt(c, past, t0)
    ensures Admissions(c, Run(c, FRESH, past + [Failure(t0)]), Probing(c, t0, k)) == k
    ensures Latest(t0, Probing(c, t0, k)) == t0 + k as real * c.cooldown
  {
    OpeningSetsTheClock(c, past, t0);
    EarliestIsLinear(c, t0, k);
    RoundsAreAdmitted(c, Run(c, FRESH, past + [Failure(t0)]), t0, k);
  }

  // ---------------------------------------------------------------------
  // Recovery: one gate per operation recovers, two gates per operation do not
  // ---------------------------------------------------------------------

  /** An operation that asks once and then reports (`DistributedCache`) closes the circuit again. */
  lemma {:induction false} SingleGateRecovers(c: Config, es: seq<Event>, now: real)
    requires c.Valid()
    requires var b := Run(c, FRESH, es);
             b.phase.Open? && now >= b.openedAt + c.cooldown
    ensures Admits(c, Run(c, FRESH, es), now)
    ensures Run(c, FRESH, es + [AllowCall(now), Success(now)]).phase.Closed?
  {
    StateTracksHistory(c, es);
    var all := es + [AllowCall(now), Success(now)];
    assert all[..|all| - 1] == es + [AllowCall(now)];
  }

  /** What a caller asks the breaker for: the client, or one command on a client it has. */
  datatype Ask = ForClient | ForCommand

  /**
   `RedisDocumentStore` asks the breaker in `_get_client`, and the proxy around the client asks
   again before each command. An admitted caller goes on to `next`: `insert_one`, holding a
   client, first asks for another in `_ensure_collection_tracked`. A denied caller gives up or
   starts over with the client; a command under way reports its outcome.
   */
  datatype GateEvent =
    | Gate(caller: nat, now: real, next: Ask)
    | Report(caller: nat, now: real, commandOk: bool, next: Ask)
    | Finish(caller: nat)

  /** `ready`: callers whose next ask is for a command; `running`: callers with a command under way. */
  datatype Gated = Gated(breaker: Breaker, ready: set<nat>, running: set<nat>, commands: nat)

  function Onward(ready: set<nat>, caller: nat, next: Ask): set<nat> {
    if next.ForCommand? then ready + {caller} else ready - {caller}
  }

  function GateStep(c: Config, s: Gated, g: GateEvent): Gated {
    match g
    case Gate(caller, now, next) =>
      var b := AfterAllow(c, s.breaker, now);
      if caller in s.running then s
      else if !Admits(c, s.breaker, now) then s.(breaker := b, ready := s.ready - {caller})
      else if caller in s.ready then
        s.(breaker := b, ready := s.ready - {caller}, running := s.running + {caller}, commands := s.commands + 1)
      else s.(breaker := b, ready := Onward(s.ready, caller, next))
    case Report(caller, now, commandOk, next) =>
      if caller !in s.running then s
      else
        s.(breaker := if commandOk then AfterSuccess(s.breaker) else AfterFailure(c, s.breaker, now),
           running := s.running - {caller}, ready := Onward(s.ready, caller, next))
    case Finish(caller) =>
      if caller in s.running then s else s.(ready := s.ready - {caller})
  }

  function GateRun(c: Config, s: Gated, gs: seq<GateEvent>): Gated {
    if gs == [] then s else GateStep(c, GateRun(c, s, gs[..|gs| - 1]), gs[|gs| - 1])
  }

  lemma OneGate(c: Config, s: Gated, g: GateEvent)
    ensures GateRun(c, s, [g]) == GateStep(c, s, g)
  {
    assert [g][..0] == [];
  }

  /** No command is under way, and whoever asks for one next finds the half-open admission used up. */
  predicate Stuck(s: Gated) {
    !s.breaker.phase.Closed? && s.running == {} && (s.ready != {} ==> s.breaker.inFlight)
  }

  lemma {:induction false} StuckForever(c: Config, s: Gated, gs: seq<GateEvent>)
    requires Stuck(s)
    ensures Stuck(GateRun(c, s, gs)) && GateRun(c, s, gs).commands == s.commands
  {
    if gs != [] {
      StuckForever(c, s, gs[..|gs| - 1]);
    }
  }

  /** A caller whose next ask is for a command waits for the cooldown, passes as the probe and succeeds. */
  lemma ProbeOf(c: Config, s: Gated, caller: nat) returns (gs: seq<GateEvent>)
    requires !s.breaker.phase.Closed? && !s.breaker.inFlight && caller in s.ready && caller !in s.running
    ensures GateRun(c, s, gs).breaker.phase.Closed?
  {
    var now := s.breaker.openedAt + c.cooldown;
    var gate, report := Gate(caller, now, ForCommand), Report(caller, now, true, ForCommand);
    assert Elapse(c, s.breaker, now).phase.HalfOpen?;
    OneGate(c, s, gate);
    gs := [gate, report];
    assert gs[..1] == [gate];
    assert GateRun(c, s, gs) == GateStep(c, GateStep(c, s, gate), report);
  }

  /**
   A circuit that is not closed can close again exactly if a command is still under way, or the
   half-open admission is unused and some caller's next ask is for a command.
   */
  lemma {:induction false} DoubleGateRecoversIff(c: Config, s: Gated)
    requires !s.breaker.phase.Closed?
    ensures (exists gs :: GateRun(c, s, gs).breaker.phase.Closed?) <==>
            s.running != {} || (!s.breaker.inFlight && s.ready != {})
  {
    if s.running != {} {
      var caller :| caller in s.running;
      var gs := [Report(caller, 0.0, true, ForCommand)];
      OneGate(c, s, gs[0]);
      assert GateRun(c, s, gs).breaker.phase.Closed?;
    } else if s.ready != {} && !s.breaker.inFlight {
      var caller :| caller in s.ready;
      var gs := ProbeOf(c, s, caller);
      assert GateRun(c, s, gs).breaker.phase.Closed?;
    } else {
      forall gs ensures !GateRun(c, s, gs).breaker.phase.Closed? {
        StuckForever(c, s, gs);
      }
    }
  }

  /** In particular, callers that all ask for a client next never get a command through, however many clients they hold. */
  lemma {:induction false} DoubleGateNeverRecovers(c: Config, b: Breaker, gs: seq<GateEvent>)
    requires !b.phase.Closed?
    ensures var s := GateRun(c, Gated(b, {}, {}, 0), gs);
            s.commands == 0 && !s.breaker.phase.Closed?
  {
    StuckForever(c, Gated(b, {}, {}, 0), gs);
  }

  /** `insert_one` holding its first client when the circuit opens: its second `_get_client` is the one admission. */
  lemma {:induction false} SecondClientIsTheProbe(c: Config, b: Breaker, caller: nat, now: real, next: Ask, gs: seq<GateEvent>)
    requires b.phase.Open? && !b.inFlight && now - b.openedAt >= c.cooldown
    ensures var s := GateStep(c, Gated(b, {}, {}, 0), Gate(caller, now, next));
            && s.breaker.phase.HalfOpen? && s.breaker.inFlight
            && GateRun(c, s, gs).commands == 0 && !GateRun(c, s, gs).breaker.phase.Closed?
  {
    StuckForever(c, GateStep(c, Gated(b, {}, {}, 0), Gate(caller, now, next)), gs);
  }
}
