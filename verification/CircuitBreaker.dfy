/** The Redis circuit breaker: CLOSED, OPEN with a jittered cooldown, HALF_OPEN with a probe budget and a
    deadline, and hysteresis on the way back.

    `Core` is the value of the breaker between two calls; `Acquire` and `Release` are its two operations as
    functions. The class `Breaker` performs them on mutable fields in the order of the original code, and
    each of its methods is proved to compute exactly those functions. */
module CircuitBreaker {
  import opened RollingWindow

  datatype State = Closed | Open | HalfOpen

  datatype Config = Config(
    windowSecs: nat, minSamples: nat,
    consecutiveFailOpen: nat, consecutiveToOpen: nat,
    errorRateOpen: real, timeoutRateOpen: real, p99UsOpen: nat,
    p99UsRecovery: real, errorRateRecovery: real,
    openCooldownMs: nat, cooldownJitterMs: nat,
    halfOpenProbes: nat, recoverySuccesses: nat,
    maxInflight: int, halfOpenMaxMs: nat)

  /** Recovery must stay possible: no more successes are demanded than probes are allowed. */
  function Normalize(c: Config): (n: Config)
    ensures n.recoverySuccesses <= n.halfOpenProbes
    ensures c.recoverySuccesses <= c.halfOpenProbes ==> n == c
    ensures n == c.(recoverySuccesses := n.recoverySuccesses)
  {
    if c.recoverySuccesses > c.halfOpenProbes then c.(recoverySuccesses := c.halfOpenProbes) else c
  }

  function WindowSize(c: Config): (n: nat)
    ensures 1 <= n <= 64
  {
    if c.windowSecs < 1 then 1 else if c.windowSecs > 64 then 64 else c.windowSecs
  }

  type Ring = r: seq<TimeBucket> | |r| > 0
    witness [TimeBucket(0, 0, 0, 0, 0, [0, 0, 0, 0, 0, 0, 0, 0, 0, 0, 0, 0, 0, 0, 0, 0, 0, 0])]

  datatype Core = Core(
    state: State,
    openedAtMs: nat, cooldownMs: nat,
    consecutiveFail: nat, consecutiveTimeout: nat,
    probesDispatched: nat, halfOpenSuccesses: nat, halfOpenStartedMs: nat,
    inflight: int,
    requestsTotal: nat, successTotal: nat, errorsTotal: nat, timeoutsTotal: nat,
    openTotal: nat, halfOpenTotal: nat, rejectedTotal: nat,
    ring: Ring)

  function Initial(c: Config): Core {
    Core(Closed, 0, 0, 0, 0, 0, 0, 0, 0, 0, 0, 0, 0, 0, 0, 0, RingAfter(WindowSize(c), []))
  }

  datatype Admission = Admitted | Rejected(reason: Outcome)

  /** The second of a millisecond clock, as the ring stores it: 32 bits. */
  function SecondOfClock(nowMs: nat): nat {
    nowMs / 1000 % 0x1_0000_0000
  }

  /** Base cooldown plus jitter drawn from a 64-bit seed. */
  function JitteredCooldown(c: Config, seed: nat): (ms: nat)
    ensures c.openCooldownMs <= ms <= c.openCooldownMs + c.cooldownJitterMs
    ensures c.cooldownJitterMs > 0 ==> ms < c.openCooldownMs + c.cooldownJitterMs
  {
    if c.cooldownJitterMs > 0 then c.openCooldownMs + seed / 0x2_0000_0000 % c.cooldownJitterMs
    else c.openCooldownMs
  }

  /** The jitter spreads: every cooldown in the range is drawn from some 64-bit seed. */
  lemma JitterSpreads(c: Config, ms: nat) returns (seed: nat)
    requires c.openCooldownMs <= ms < c.openCooldownMs + c.cooldownJitterMs && c.cooldownJitterMs <= 0x8000_0000
    ensures seed < 0x1_0000_0000_0000_0000 && JitteredCooldown(c, seed) == ms
  {
    var x := ms - c.openCooldownMs;
    seed := x * 0x2_0000_0000;
    assert seed / 0x2_0000_0000 == x;
    ModOfSum(c.cooldownJitterMs, 0, x);
    assert c.cooldownJitterMs * 0 + x == x;
  }

  // ---------------------------------------------------------------- acquire

  function Opened(c: Config, b: Core, now: nat, seed: nat): Core {
    b.(state := Open, openedAtMs := now, cooldownMs := JitteredCooldown(c, seed), openTotal := b.openTotal + 1)
  }

  function Refused(b: Core): Core {
    b.(rejectedTotal := b.rejectedTotal + 1)
  }

  function AcquireHalfOpen(c: Config, b: Core, now: nat, seed: nat): (Core, Admission)
    requires b.state == HalfOpen
  {
    if SaturatingSub(now, b.halfOpenStartedMs) >= c.halfOpenMaxMs then
      (Refused(Opened(c, b, now, seed)), Rejected(CircuitOpen))
    else if b.probesDispatched >= c.halfOpenProbes then
      (Refused(b), Rejected(CircuitOpen))
    else if b.inflight >= c.halfOpenProbes then
      (Refused(b), Rejected(ConcurrencyRejected))
    else
      (b.(probesDispatched := b.probesDispatched + 1, inflight := b.inflight + 1), Admitted)
  }

  function EnterHalfOpen(b: Core, now: nat): Core {
    b.(state := HalfOpen, probesDispatched := 0, halfOpenSuccesses := 0, halfOpenStartedMs := now,
       halfOpenTotal := b.halfOpenTotal + 1)
  }

  function Acquire(c: Config, b: Core, now: nat, seed: nat): (Core, Admission) {
    match b.state
    case Closed =>
      if b.inflight >= c.maxInflight then (Refused(b), Rejected(ConcurrencyRejected))
      else (b.(inflight := b.inflight + 1), Admitted)
    case Open =>
      if SaturatingSub(now, b.openedAtMs) >= b.cooldownMs then AcquireHalfOpen(c, EnterHalfOpen(b, now), now, seed)
      else (Refused(b), Rejected(CircuitOpen))
    case HalfOpen => AcquireHalfOpen(c, b, now, seed)
  }

  /** Which rejection is which: the concurrency limit is named when it is what refuses the call, CLOSED or HALF_OPEN, and
      the open circuit otherwise. */
  lemma RejectionReason(c: Config, b: Core, now: nat, seed: nat)
    requires Acquire(c, b, now, seed).1.Rejected?
    ensures Acquire(c, b, now, seed).1.reason in {CircuitOpen, ConcurrencyRejected}
    ensures Acquire(c, b, now, seed).1.reason == ConcurrencyRejected <==>
              match b.state
              case Closed => true
              case Open => SaturatingSub(now, b.openedAtMs) >= b.cooldownMs && c.halfOpenMaxMs > 0 && c.halfOpenProbes > 0
              case HalfOpen => SaturatingSub(now, b.halfOpenStartedMs) < c.halfOpenMaxMs && b.probesDispatched < c.halfOpenProbes
  {
  }

  // ---------------------------------------------------------------- release

  /** What the detectors read from the window. */
  datatype Health = Health(total: nat, errorRate: real, timeoutRate: real, p99Us: nat)

  function HealthOf(s: WindowStats): Health {
    Health(s.total, s.ErrorRate(), s.TimeoutRate(), PercentileOf(s, 99))
  }

  predicate ErrorTrigger(c: Config, h: Health) { h.errorRate >= c.errorRateOpen }

  predicate TimeoutTrigger(c: Config, h: Health) { h.timeoutRate >= c.timeoutRateOpen }

  predicate LatencyTrigger(c: Config, h: Health) { h.p99Us >= c.p99UsOpen }

  predicate ShouldOpen(c: Config, h: Health) {
    h.total >= c.minSamples && (ErrorTrigger(c, h) || TimeoutTrigger(c, h) || LatencyTrigger(c, h))
  }

  predicate Recovered(c: Config, h: Health, successes: nat) {
    successes >= c.recoverySuccesses && h.p99Us as real <= c.p99UsRecovery && h.errorRate <= c.errorRateRecovery
  }

  /** An open circuit is left alone, so a late failure never extends the cooldown. */
  function TripOpen(c: Config, b: Core, now: nat, seed: nat): Core {
    if b.state == Open then b else Opened(c, b, now, seed)
  }

  function CheckStatistics(c: Config, b: Core, h: Health, now: nat, seed: nat): Core {
    if ShouldOpen(c, h) then TripOpen(c, b, now, seed) else b
  }

  /** Hysteresis: enough successes and a healthy window are both needed to close. */
  function ProbeSucceeded(c: Config, b: Core, h: Health): Core {
    b.(halfOpenSuccesses := b.halfOpenSuccesses + 1,
       state := if Recovered(c, h, b.halfOpenSuccesses + 1) then Closed else b.state)
  }

  /** The state change of a release, once its call is in the window. */
  function Settle(c: Config, b: Core, h: Health, now: nat, seed: nat, outcome: Outcome): Core {
    match outcome
    case Success =>
      var b := b.(successTotal := b.successTotal + 1, consecutiveFail := 0, consecutiveTimeout := 0);
      if b.state == HalfOpen then ProbeSucceeded(c, b, h)
      else CheckStatistics(c, b, h, now, seed)
    case Timeout =>
      var b := b.(timeoutsTotal := b.timeoutsTotal + 1, consecutiveFail := b.consecutiveFail + 1,
                  consecutiveTimeout := b.consecutiveTimeout + 1);
      if || b.state == HalfOpen
         || b.consecutiveTimeout >= c.consecutiveToOpen
         || b.consecutiveFail >= c.consecutiveFailOpen
      then TripOpen(c, b, now, seed)
      else CheckStatistics(c, b, h, now, seed)
    case RedisError =>
      var b := b.(errorsTotal := b.errorsTotal + 1, consecutiveFail := b.consecutiveFail + 1);
      if b.state == HalfOpen || b.consecutiveFail >= c.consecutiveFailOpen then TripOpen(c, b, now, seed)
      else CheckStatistics(c, b, h, now, seed)
    case _ => b
  }

  function Logged(b: Core, now: nat, outcome: Outcome, latencyUs: nat): Core {
    b.(inflight := b.inflight - 1, requestsTotal := b.requestsTotal + 1,
       ring := RingRecord(b.ring, Event(SecondOfClock(now), outcome, latencyUs)))
  }

  function HealthAt(c: Config, b: Core, now: nat): Health {
    HealthOf(Merged(b.ring, SecondOfClock(now), c.windowSecs))
  }

  function Release(c: Config, b: Core, now: nat, seed: nat, outcome: Outcome, latencyUs: nat): Core {
    var b := Logged(b, now, outcome, latencyUs);
    Settle(c, b, HealthAt(c, b, now), now, seed, outcome)
  }

  /** What a protected call returns; its error is one of the outcomes. */
  datatype CallResult<T> = Ok(value: T) | Err(error: Outcome)

  /** How a result is reported to release; an error that says success is taken for a Redis error. */
  function OutcomeOf<T>(result: CallResult<T>): (o: Outcome)
    ensures o == Success <==> result.Ok?
    ensures result.Err? && result.error != Success ==> o == result.error
  {
    match result
    case Ok(_) => Success
    case Err(Success) => RedisError
    case Err(e) => e
  }

  // ---------------------------------------------------------------- the breaker object

  class Breaker {
    const config: Config
    const window: Window
    var state: State
    var openedAtMs: nat
    var cooldownMs: nat
    var consecutiveFail: nat
    var consecutiveTimeout: nat
    var probesDispatched: nat
    var halfOpenSuccesses: nat
    var halfOpenStartedMs: nat
    var inflight: int
    var requestsTotal: nat
    var successTotal: nat
    var errorsTotal: nat
    var timeoutsTotal: nat
    var openTotal: nat
    var halfOpenTotal: nat
    var rejectedTotal: nat

    ghost predicate Valid() {
      window.buckets.Length > 0
    }

    ghost function View(): Core
      requires Valid()
      reads this, window.buckets
    {
      Core(state, openedAtMs, cooldownMs, consecutiveFail, consecutiveTimeout,
           probesDispatched, halfOpenSuccesses, halfOpenStartedMs, inflight,
           requestsTotal, successTotal, errorsTotal, timeoutsTotal,
           openTotal, halfOpenTotal, rejectedTotal, window.buckets[..])
    }

    constructor (config: Config)
      ensures Valid() && fresh(window.buckets)
      ensures this.config == Normalize(config)
      ensures View() == Initial(Normalize(config))
    {
      var normal := Normalize(config);
      this.config := normal;
      this.window := new Window(WindowSize(normal));
      state := Closed;
      openedAtMs, cooldownMs, consecutiveFail, consecutiveTimeout := 0, 0, 0, 0;
      probesDispatched, halfOpenSuccesses, halfOpenStartedMs, inflight := 0, 0, 0, 0;
      requestsTotal, successTotal, errorsTotal, timeoutsTotal := 0, 0, 0, 0;
      openTotal, halfOpenTotal, rejectedTotal := 0, 0, 0;
    }

    /** Should a Redis call be attempted? A rejected caller degrades without touching Redis. */
    method AcquireCall(now: nat, seed: nat) returns (r: Admission)
      requires Valid()
      modifies this
      ensures (View(), r) == Acquire(config, old(View()), now, seed)
    {
      match state {
        case Closed =>
          var before := inflight;
          inflight := inflight + 1;
          if before >= config.maxInflight {
            inflight := inflight - 1;
            rejectedTotal := rejectedTotal + 1;
            return Rejected(ConcurrencyRejected);
          }
          return Admitted;
        case Open =>
          if SaturatingSub(now, openedAtMs) >= cooldownMs {
            state := HalfOpen;
            probesDispatched := 0;
            halfOpenSuccesses := 0;
            halfOpenStartedMs := now;
            halfOpenTotal := halfOpenTotal + 1;
            assert View() == EnterHalfOpen(old(View()), now);
            r := AcquireProbe(now, seed);
            return;
          }
          rejectedTotal := rejectedTotal + 1;
          return Rejected(CircuitOpen);
        case HalfOpen =>
          r := AcquireProbe(now, seed);
      }
    }

    method AcquireProbe(now: nat, seed: nat) returns (r: Admission)
      requires Valid() && state == HalfOpen
      modifies this
      ensures (View(), r) == AcquireHalfOpen(config, old(View()), now, seed)
    {
      if SaturatingSub(now, halfOpenStartedMs) >= config.halfOpenMaxMs {
        state := Open;
        openedAtMs := now;
        cooldownMs := JitteredCooldown(config, seed);
        openTotal := openTotal + 1;
        rejectedTotal := rejectedTotal + 1;
        return Rejected(CircuitOpen);
      }
      var dispatched := probesDispatched;
      probesDispatched := probesDispatched + 1;
      if dispatched >= config.halfOpenProbes {
        probesDispatched := probesDispatched - 1;
        rejectedTotal := rejectedTotal + 1;
        return Rejected(CircuitOpen);
      }
      var before := inflight;
      inflight := inflight + 1;
      if before >= config.halfOpenProbes {
        inflight := inflight - 1;
        probesDispatched := probesDispatched - 1;
        rejectedTotal := rejectedTotal + 1;
        return Rejected(ConcurrencyRejected);
      }
      r := Admitted;
    }

    method Trip(now: nat, seed: nat)
      requires Valid()
      modifies this
      ensures View() == TripOpen(config, old(View()), now, seed)
    {
      if state == Open {
        return;
      }
      state := Open;
      openedAtMs := now;
      cooldownMs := JitteredCooldown(config, seed);
      openTotal := openTotal + 1;
    }

    /** Merges the window and reads the rates and the p99 latency from it. */
    method ReadHealth(now: nat) returns (h: Health)
      requires Valid()
      ensures h == HealthAt(config, View(), now)
    {
      var stats := window.Aggregate(SecondOfClock(now), config.windowSecs);
      var p99 := PercentileUs(stats, 99);
      h := Health(stats.total, stats.ErrorRate(), stats.TimeoutRate(), p99);
    }

    method CheckStatisticalOpen(now: nat, seed: nat)
      requires Valid()
      modifies this
      ensures View() == CheckStatistics(config, old(View()), HealthAt(config, old(View()), now), now, seed)
    {
      var h := ReadHealth(now);
      if h.total < config.minSamples {
        return;
      }
      if || h.errorRate >= config.errorRateOpen
         || h.timeoutRate >= config.timeoutRateOpen
         || h.p99Us >= config.p99UsOpen
      {
        Trip(now, seed);
      }
    }

    method OnProbeSuccess(now: nat)
      requires Valid()
      modifies this
      ensures View() == ProbeSucceeded(config, old(View()), HealthAt(config, old(View()), now))
    {
      var h := ReadHealth(now);
      halfOpenSuccesses := halfOpenSuccesses + 1;
      if && halfOpenSuccesses >= config.recoverySuccesses
         && h.p99Us as real <= config.p99UsRecovery
         && h.errorRate <= config.errorRateRecovery
      {
        state := Closed;
      }
    }

    method OnSuccess(now: nat, seed: nat)
      requires Valid()
      modifies this
      ensures View() == Settle(config, old(View()), HealthAt(config, old(View()), now), now, seed, Success)
    {
      successTotal := successTotal + 1;
      consecutiveFail := 0;
      consecutiveTimeout := 0;
      if state == HalfOpen {
        OnProbeSuccess(now);
      } else {
        CheckStatisticalOpen(now, seed);
      }
    }

    method OnTimeout(now: nat, seed: nat)
      requires Valid()
      modifies this
      ensures View() == Settle(config, old(View()), HealthAt(config, old(View()), now), now, seed, Timeout)
    {
      timeoutsTotal := timeoutsTotal + 1;
      consecutiveFail := consecutiveFail + 1;
      consecutiveTimeout := consecutiveTimeout + 1;
      if state == HalfOpen {
        Trip(now, seed);
        return;
      }
      if consecutiveTimeout >= config.consecutiveToOpen || consecutiveFail >= config.consecutiveFailOpen {
        Trip(now, seed);
        return;
      }
      CheckStatisticalOpen(now, seed);
    }

    method OnError(now: nat, seed: nat)
      requires Valid()
      modifies this
      ensures View() == Settle(config, old(View()), HealthAt(config, old(View()), now), now, seed, RedisError)
    {
      errorsTotal := errorsTotal + 1;
      consecutiveFail := consecutiveFail + 1;
      if state == HalfOpen {
        Trip(now, seed);
        return;
      }
      if consecutiveFail >= config.consecutiveFailOpen {
        Trip(now, seed);
        return;
      }
      CheckStatisticalOpen(now, seed);
    }

    /** Records the outcome of an admitted call and moves the state machine. */
    method ReleaseCall(now: nat, seed: nat, outcome: Outcome, latencyUs: nat)
      requires Valid()
      modifies this, window.buckets
      ensures View() == Release(config, old(View()), now, seed, outcome, latencyUs)
    {
      inflight := inflight - 1;
      window.Record(SecondOfClock(now), outcome, latencyUs);
      requestsTotal := requestsTotal + 1;
      assert View() == Logged(old(View()), now, outcome, latencyUs);
      match outcome {
        case Success => OnSuccess(now, seed);
        case Timeout => OnTimeout(now, seed);
        case RedisError => OnError(now, seed);
        case _ =>
      }
    }

    /** A protected call: it is made only when it is admitted, released exactly once at a later time, and its result comes
        back unchanged. Either way the gauge is as before and one more call is counted, as a request or a rejection. */
    method WithCircuitBreaker<T>(now: nat, seed: nat, later: nat, laterSeed: nat, latencyUs: nat, call: CallResult<T>)
      returns (r: CallResult<T>, made: bool)
      requires Valid()
      modifies this, window.buckets
      ensures var (b, admission) := Acquire(config, old(View()), now, seed);
              && made == (admission == Admitted)
              && (if made then r == call && View() == Release(config, b, later, laterSeed, OutcomeOf(call), latencyUs)
                  else r == Err(admission.reason) && View() == b)
      ensures inflight == old(inflight)
      ensures requestsTotal + rejectedTotal == old(requestsTotal + rejectedTotal) + 1
    {
      AcquireCounts(config, View(), now, seed);
      var admission := AcquireCall(now, seed);
      if admission.Rejected? {
        return Err(admission.reason), false;
      }
      ReleaseCounts(config, View(), later, laterSeed, OutcomeOf(call), latencyUs);
      ReleaseCall(later, laterSeed, OutcomeOf(call), latencyUs);
      return call, true;
    }
  }

  lemma AcquireCounts(c: Config, b: Core, now: nat, seed: nat)
    ensures var (n, admission) := Acquire(c, b, now, seed);
            var one := if admission == Admitted then 1 else 0;
            n.inflight == b.inflight + one && n.rejectedTotal == b.rejectedTotal + 1 - one
            && n.requestsTotal == b.requestsTotal
  {
  }

  lemma ReleaseCounts(c: Config, b: Core, now: nat, seed: nat, outcome: Outcome, latencyUs: nat)
    ensures var n := Release(c, b, now, seed, outcome, latencyUs);
            n.inflight == b.inflight - 1 && n.rejectedTotal == b.rejectedTotal && n.requestsTotal == b.requestsTotal + 1
  {
    SettleKeepsCounts(c, Logged(b, now, outcome, latencyUs), HealthAt(c, Logged(b, now, outcome, latencyUs), now),
                      now, seed, outcome);
  }

  lemma SettleKeepsCounts(c: Config, b: Core, h: Health, now: nat, seed: nat, outcome: Outcome)
    ensures var n := Settle(c, b, h, now, seed, outcome);
            n.inflight == b.inflight && n.rejectedTotal == b.rejectedTotal && n.requestsTotal == b.requestsTotal
  {
  }
}
