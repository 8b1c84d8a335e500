/** Runs of the circuit breaker that exist: a circuit that is open can always close again, and two ways in which it can
    close too early. Each is built step by step, as an extension of a run by one call after another. */
module BreakerRecovery {
  import opened RollingWindow
  import opened CircuitBreaker
  import opened BreakerRuns

  // ---------------------------------------------------------------- growing a run

  datatype Run = Run(steps: seq<Step>, tr: seq<Core>)

  /** A run that stands in state b, with no step after time `at`. */
  ghost predicate Ends(c: Config, r: Run, b: Core, at: nat) {
    && IsRun(c, r.steps, r.tr) && r.tr[|r.steps|] == b
    && forall i :: 0 <= i < |r.steps| ==> r.steps[i].now <= at
  }

  lemma {:induction false} OutstandingPrefix(steps: seq<Step>, s: Step, k: nat)
    requires k <= |steps|
    ensures Outstanding(steps + [s], k) == Outstanding(steps, k)
  {
    if k > 0 { OutstandingPrefix(steps, s, k - 1); }
  }

  ghost predicate Extends(m: Run, r: Run) {
    r.steps <= m.steps && r.tr <= m.tr
  }

  lemma Grow(c: Config, r: Run, b: Core, at: nat, s: Step, n: Core) returns (m: Run)
    requires Ends(c, r, b, at) && at <= s.now && IsStep(c, b, s, n) && (s.ReleaseAt? ==> b.inflight > 0)
    ensures Ends(c, m, n, s.now) && m == Run(r.steps + [s], r.tr + [n])
  {
    m := Run(r.steps + [s], r.tr + [n]);
    TransitionCounters(c, r.steps, r.tr, |r.steps|);
    forall i: nat | i < |m.steps| ensures StepAt(c, m.steps, m.tr, i) && PairedAt(m.steps, i) {
      OutstandingPrefix(r.steps, s, i);
      if i < |r.steps| { assert StepAt(c, r.steps, r.tr, i) && PairedAt(r.steps, i); }
    }
  }

  lemma GrowAcquire(c: Config, r: Run, b: Core, at: nat, now: nat) returns (m: Run)
    requires Ends(c, r, b, at) && at <= now
    ensures var (n, a) := Acquire(c, b, now, 0);
            Ends(c, m, n, now) && m == Run(r.steps + [AcquireAt(now, 0, a == Admitted)], r.tr + [n])
  {
    var (n, a) := Acquire(c, b, now, 0);
    m := Grow(c, r, b, at, AcquireAt(now, 0, a == Admitted), n);
  }

  /** The step of a release that took no time. */
  function QuickRelease(c: Config, b: Core, now: nat, outcome: Outcome): Step {
    ReleaseAt(now, 0, outcome, 0, HealthAt(c, Logged(b, now, outcome, 0), now))
  }

  lemma GrowRelease(c: Config, r: Run, b: Core, at: nat, now: nat, outcome: Outcome) returns (m: Run)
    requires Ends(c, r, b, at) && at <= now && b.inflight > 0
    ensures var n := Release(c, b, now, 0, outcome, 0);
            Ends(c, m, n, now) && m == Run(r.steps + [QuickRelease(c, b, now, outcome)], r.tr + [n])
  {
    m := Grow(c, r, b, at, QuickRelease(c, b, now, outcome), Release(c, b, now, 0, outcome, 0));
  }

  // ---------------------------------------------------------------- healthy windows

  /** A bucket without errors whose calls were all in the fastest band. */
  predicate Quick(b: TimeBucket) {
    b.errors == 0 && b.hist[0] == b.total
  }

  /** Every bucket that the window of second s reads is of that kind. */
  ghost predicate Clean(ring: seq<TimeBucket>, s: nat, windowSecs: nat) {
    forall i :: 0 <= i < |ring| && InWindow(ring[i], s, windowSecs) ==> Quick(ring[i])
  }

  lemma {:induction false} CleanMerge(ring: seq<TimeBucket>, s: nat, windowSecs: nat)
    requires Clean(ring, s, windowSecs)
    ensures var stats := Merged(ring, s, windowSecs);
            stats.errors == 0 && stats.hist[0] == stats.total
  {
    if |ring| > 0 {
      var rest := ring[..|ring| - 1];
      forall i | 0 <= i < |rest| && InWindow(rest[i], s, windowSecs) ensures Quick(rest[i]) {
        assert rest[i] == ring[i];
      }
      CleanMerge(rest, s, windowSecs);
      MergedValue(ring, s, windowSecs, Errors);
      MergedValue(ring, s, windowSecs, Total);
      MergedValue(ring, s, windowSecs, InBand(0));
    }
  }

  /** Such a window passes every recovery test that is worth its name. */
  lemma CleanIsHealthy(c: Config, ring: seq<TimeBucket>, s: nat, windowSecs: nat)
    requires Clean(ring, s, windowSecs)
    ensures var h := HealthOf(Merged(ring, s, windowSecs));
            h.p99Us <= 500 && h.errorRate == 0.0
  {
    CleanMerge(ring, s, windowSecs);
    var stats := Merged(ring, s, windowSecs);
    assert Prefix(stats.hist, 1) == Prefix(stats.hist, 0) + stats.hist[0];
  }

  lemma QuickStaysQuick(b: TimeBucket, e: Event)
    requires b.ts == e.ts ==> Quick(b)
    requires e.outcome != RedisError && e.latencyUs == 0
    ensures Quick(Recorded(b, e))
  {
    assert Band(0) == 0;
  }

  lemma RecordKeepsClean(ring: Ring, e: Event, windowSecs: nat)
    requires Clean(ring, e.ts, windowSecs) && e.outcome != RedisError && e.latencyUs == 0
    ensures Clean(RingRecord(ring, e), e.ts, windowSecs)
  {
    QuickStaysQuick(ring[e.ts % |ring|], e);
  }

  /** Every bucket is of that kind, whatever the window. */
  ghost predicate AllQuick(ring: seq<TimeBucket>) {
    forall i :: 0 <= i < |ring| ==> Quick(ring[i])
  }

  lemma RecordKeepsQuick(ring: Ring, e: Event)
    requires AllQuick(ring) && e.outcome != RedisError && e.latencyUs == 0
    ensures AllQuick(RingRecord(ring, e))
  {
    QuickStaysQuick(ring[e.ts % |ring|], e);
  }

  // ---------------------------------------------------------------- successes close the circuit

  ghost predicate Lenient(c: Config) {
    c.p99UsRecovery >= 500.0 && c.errorRateRecovery >= 0.0
  }

  /** A success in HALF_OPEN on a clean window: it counts, and it closes the circuit if it is the last one needed. */
  lemma SuccessCounts(c: Config, b: Core, now: nat)
    requires Lenient(c) && b.state == HalfOpen && Clean(b.ring, SecondOfClock(now), c.windowSecs)
    ensures var n := Release(c, b, now, 0, Success, 0);
            && n.state == (if b.halfOpenSuccesses + 1 >= c.recoverySuccesses then Closed else HalfOpen)
            && n.halfOpenSuccesses == b.halfOpenSuccesses + 1 && n.inflight == b.inflight - 1
            && n.probesDispatched == b.probesDispatched && n.halfOpenStartedMs == b.halfOpenStartedMs
            && n.halfOpenTotal == b.halfOpenTotal
            && n.requestsTotal == b.requestsTotal + 1 && n.timeoutsTotal == b.timeoutsTotal
            && Clean(n.ring, SecondOfClock(now), c.windowSecs)
  {
    var s := SecondOfClock(now);
    var l := Logged(b, now, Success, 0);
    RecordKeepsClean(b.ring, Event(s, Success, 0), c.windowSecs);
    CleanIsHealthy(c, l.ring, s, c.windowSecs);
  }

  // ---------------------------------------------------------------- a window that has emptied

  /** Once the window has moved past the last call of a log, it reads no bucket of the ring. */
  lemma PastIsStale(n: nat, log: seq<Event>, last: nat, s: nat, windowSecs: nat)
    requires n > 0 && Nondecreasing(log) && UpTo(log, last) && last + windowSecs < s
    ensures forall i :: 0 <= i < n ==> !InWindow(RingAfter(n, log)[i], s, windowSecs)
  {
    forall i | 0 <= i < n ensures !InWindow(RingAfter(n, log)[i], s, windowSecs) {
      SlotHolds(n, log, i, Total);
      if LastAt(log, n, i) >= 0 {
        LastInLog(log, n, i);
      }
    }
  }

  /** A run's window is clean at every moment more than its length after the run's last step. */
  lemma QuietWindowIsClean(c: Config, steps: seq<Step>, tr: seq<Core>, at: nat, now: nat)
    requires IsRun(c, steps, tr) && forall i :: 0 <= i < |steps| ==> steps[i].now <= at
    requires at + 1000 * (c.windowSecs + 1) <= now < CLOCK_END
    ensures Clean(tr[|steps|].ring, SecondOfClock(now), c.windowSecs)
  {
    RunRing(c, WindowSize(c), steps, tr, |steps|);
    EventsInOrder(steps, |steps|, at);
    PastIsStale(WindowSize(c), EventsOf(steps, |steps|), SecondOfClock(at), SecondOfClock(now), c.windowSecs);
  }

  /** The ring's seconds have 32 bits; this is the millisecond at which they wrap, in the year 2106. */
  const CLOCK_END: nat := 1000 * 0x1_0000_0000

  // ---------------------------------------------------------------- recovery is possible

  /** k successful probes, one after the other, from a HALF_OPEN circuit with nothing in flight. */
  lemma {:induction false} ProbesClose(c: Config, r: Run, b: Core, now: nat, k: nat) returns (m: Run, n: Core)
    requires Ends(c, r, b, now) && Lenient(c) && c.halfOpenMaxMs > 0 && 1 <= k
    requires b.state == HalfOpen && b.halfOpenStartedMs == now && b.inflight == 0
    requires b.probesDispatched + k <= c.halfOpenProbes
    requires b.halfOpenSuccesses + k >= c.recoverySuccesses && Clean(b.ring, SecondOfClock(now), c.windowSecs)
    ensures Ends(c, m, n, now) && Extends(m, r) && n.state == Closed
    decreases k
  {
    m := GrowAcquire(c, r, b, now, now);
    var a := b.(probesDispatched := b.probesDispatched + 1, inflight := 1);
    assert Acquire(c, b, now, 0) == (a, Admitted);
    m, n := ProbeReturns(c, m, a, now, k);
  }

  lemma {:induction false} ProbeReturns(c: Config, r: Run, b: Core, now: nat, k: nat) returns (m: Run, n: Core)
    requires Ends(c, r, b, now) && Lenient(c) && c.halfOpenMaxMs > 0 && 1 <= k
    requires b.state == HalfOpen && b.halfOpenStartedMs == now && b.inflight == 1
    requires b.probesDispatched + k - 1 <= c.halfOpenProbes
    requires b.halfOpenSuccesses + k >= c.recoverySuccesses && Clean(b.ring, SecondOfClock(now), c.windowSecs)
    ensures Ends(c, m, n, now) && Extends(m, r) && n.state == Closed
    decreases k, 0
  {
    m := GrowRelease(c, r, b, now, now, Success);
    n := Release(c, b, now, 0, Success, 0);
    SuccessCounts(c, b, now);
    if n.state != Closed {
      m, n := ProbesClose(c, m, n, now, k - 1);
    }
  }

  /** Recovery stays possible, and soon. Take any run that stands in OPEN with no call outstanding, and any moment after its
      cooldown at which its calls have left the window: the run has a continuation up to that moment that closes the
      circuit, as long as probing is given any time and any probe, no more successes are demanded than probes, as in a
      normalised configuration, and the recovery thresholds let a window of fast successes pass. */
  lemma RecoveryIsPossible(c: Config, steps: seq<Step>, tr: seq<Core>, at: nat, now: nat) returns (m: Run)
    requires IsRun(c, steps, tr) && tr[|steps|].state == Open && Outstanding(steps, |steps|) == 0
    requires forall i :: 0 <= i < |steps| ==> steps[i].now <= at
    requires at + 1000 * (c.windowSecs + 1) <= now < CLOCK_END
    requires tr[|steps|].openedAtMs + tr[|steps|].cooldownMs <= now
    requires c.halfOpenMaxMs > 0 && 1 <= c.halfOpenProbes && c.recoverySuccesses <= c.halfOpenProbes && Lenient(c)
    ensures IsRun(c, m.steps, m.tr) && steps <= m.steps && tr <= m.tr && m.tr[|m.steps|].state == Closed
    ensures forall i :: 0 <= i < |m.steps| ==> m.steps[i].now <= now
  {
    var r, b := Run(steps, tr), tr[|steps|];
    TransitionCounters(c, steps, tr, |steps|);
    QuietWindowIsClean(c, steps, tr, at, now);
    m := GrowAcquire(c, r, b, at, now);
    var a := EnterHalfOpen(b, now).(probesDispatched := 1, inflight := 1);
    assert Acquire(c, b, now, 0) == (a, Admitted);
    var n;
    m, n := ProbeReturns(c, m, a, now, c.halfOpenProbes);
  }

  // ---------------------------------------------------------------- closing too early

  /** k calls are admitted at time 0. */
  lemma {:induction false} AdmitMany(c: Config, k: nat) returns (r: Run)
    requires k <= c.maxInflight
    ensures Ends(c, r, Initial(c).(inflight := k), 0)
  {
    if k == 0 {
      r := Run([], [Initial(c)]);
    } else {
      r := AdmitMany(c, k - 1);
      r := GrowAcquire(c, r, Initial(c).(inflight := k - 1), 0, 0);
    }
  }

  /** What k timeouts at time 0 leave of a breaker with m calls in flight. */
  ghost predicate Failed(c: Config, b: Core, m: nat, k: nat) {
    && b.inflight == m - k && b.consecutiveFail == b.consecutiveTimeout == b.timeoutsTotal == b.requestsTotal == k
    && b.halfOpenTotal == 0 && b.state != HalfOpen && AllQuick(b.ring)
    && (b.state == Open ==> b.openedAtMs == 0 && b.cooldownMs <= c.openCooldownMs + c.cooldownJitterMs)
    && (k >= 1 && (k >= c.consecutiveToOpen || k >= c.consecutiveFailOpen) ==> b.state == Open)
  }

  lemma TimeoutFails(c: Config, b: Core, m: nat, k: nat)
    requires Failed(c, b, m, k)
    ensures Failed(c, Release(c, b, 0, 0, Timeout, 0), m, k + 1)
  {
    var l := Logged(b, 0, Timeout, 0);
    RecordKeepsQuick(b.ring, Event(SecondOfClock(0), Timeout, 0));
    assert AllQuick(l.ring);
    TimeoutSettles(c, l, HealthAt(c, l, 0), m, k);
  }

  lemma TimeoutSettles(c: Config, b: Core, h: Health, m: nat, k: nat)
    requires Failed(c, b.(inflight := b.inflight + 1, requestsTotal := k), m, k) && b.requestsTotal == k + 1
    ensures Failed(c, Settle(c, b, h, 0, 0, Timeout), m, k + 1)
  {
  }

  lemma {:induction false} FailMany(c: Config, m: nat, k: nat) returns (r: Run, b: Core)
    requires k <= m <= c.maxInflight
    ensures Ends(c, r, b, 0) && Failed(c, b, m, k)
  {
    if k == 0 {
      r := AdmitMany(c, m);
      b := Initial(c).(inflight := m);
      InitialIsQuick(WindowSize(c));
    } else {
      r, b := FailMany(c, m, k - 1);
      r := GrowRelease(c, r, b, 0, 0, Timeout);
      TimeoutFails(c, b, m, k - 1);
      b := Release(c, b, 0, 0, Timeout, 0);
    }
  }

  lemma InitialIsQuick(n: nat)
    requires n > 0
    ensures AllQuick(RingAfter(n, []))
  {
    assert Quick(EmptyBucket(0));
  }

  /** A HALF_OPEN circuit with late calls in flight, none of them a probe, f of whose earlier calls timed out. */
  ghost predicate Waiting(c: Config, b: Core, f: nat, done: nat) {
    && b.state == HalfOpen && b.halfOpenTotal == 1 && b.probesDispatched == 0 && b.halfOpenSuccesses == done
    && b.requestsTotal == f + done && b.timeoutsTotal == f && b.inflight == c.halfOpenProbes - done
  }

  /** A run that closes the circuit at its last step. */
  ghost predicate Closes(c: Config, r: Run, before: Core, n: Core, now: nat) {
    && Ends(c, r, n, now) && |r.steps| > 0 && r.tr[|r.steps| - 1] == before && n.state == Closed
    && r.steps[|r.steps| - 1] == QuickRelease(c, before, now, Success)
  }

  /** Late calls succeed one after the other until the circuit closes. */
  lemma {:induction false} LateSuccesses(c: Config, r: Run, b: Core, now: nat, f: nat, done: nat)
    returns (m: Run, before: Core, n: Core)
    requires Ends(c, r, b, now) && Lenient(c) && Waiting(c, b, f, done) && done < c.halfOpenProbes
    requires done == 0 || done < c.recoverySuccesses
    requires c.recoverySuccesses <= c.halfOpenProbes && Clean(b.ring, SecondOfClock(now), c.windowSecs)
    ensures Closes(c, m, before, n, now)
    ensures Waiting(c, before, f, Needed(c) - 1) && n.requestsTotal == f + Needed(c) && n.timeoutsTotal == f
    decreases c.halfOpenProbes - done
  {
    m := GrowRelease(c, r, b, now, now, Success);
    before, n := b, Release(c, b, now, 0, Success, 0);
    SuccessCounts(c, b, now);
    if n.state != Closed {
      m, before, n := LateSuccesses(c, m, n, now, f, done + 1);
    }
  }

  /** The successes that a recovery takes. */
  function Needed(c: Config): nat {
    if c.recoverySuccesses == 0 then 1 else c.recoverySuccesses
  }

  /** Room for f failing calls beside as many late ones as there are probes, enough failures to trip the fast detector, and
      a cooldown that ends while the failures are still in the window. */
  ghost predicate Crowded(c: Config, f: nat) {
    && 1 <= f && f + c.halfOpenProbes <= c.maxInflight && (f >= c.consecutiveToOpen || f >= c.consecutiveFailOpen)
    && 1 <= c.halfOpenProbes && c.recoverySuccesses <= c.halfOpenProbes && c.halfOpenMaxMs > 0
    && 1 <= c.windowSecs <= 64 && c.openCooldownMs + c.cooldownJitterMs < 1000 * c.windowSecs
    && Lenient(c)
  }

  /** f calls time out and open the circuit; past the cooldown an acquire enters HALF_OPEN but is refused, because late
      calls fill the probe limit; then these succeed, and the circuit closes. */
  lemma LateCallsClose(c: Config, f: nat) returns (r: Run, before: Core, n: Core)
    requires Crowded(c, f)
    ensures var now := c.openCooldownMs + c.cooldownJitterMs;
            && Closes(c, r, before, n, now) && Waiting(c, before, f, Needed(c) - 1)
            && n.requestsTotal == f + Needed(c) && n.timeoutsTotal == f
  {
    var now := c.openCooldownMs + c.cooldownJitterMs;
    var b;
    r, b := FailMany(c, f + c.halfOpenProbes, f);
    r := GrowAcquire(c, r, b, 0, now);
    var w := Refused(EnterHalfOpen(b, now));
    assert Acquire(c, b, now, 0) == (w, Rejected(ConcurrencyRejected));
    r, before, n := LateSuccesses(c, r, w, now, f, 0);
  }

  /** A circuit can close without having sent a single probe: the successes of late calls count toward its recovery. */
  lemma ClosesWithoutProbe(c: Config, f: nat) returns (r: Run)
    requires Crowded(c, f)
    ensures IsRun(c, r.steps, r.tr) && |r.steps| > 0 && r.tr[|r.steps|].state == Closed
    ensures var k := |r.steps| - 1;
            r.tr[k].state == HalfOpen && r.tr[k].halfOpenTotal == 1 && ProbesIn(r.steps, r.tr, 1, k + 1) == 0
  {
    var before, n;
    r, before, n := LateCallsClose(c, f);
    var k := |r.steps| - 1;
    RunIsLawful(c, r.steps, r.tr);
    LawfulEpisodes(c, r.steps, r.tr, 1, k);
  }

  // ---------------------------------------------------------------- closing on an unhealthy window

  /** When all calls of a run are in a range of seconds, its counters are the tallies of that range. */
  lemma {:induction false} TalliesAreCounters(c: Config, steps: seq<Step>, tr: seq<Core>, lo: int, hi: int, k: nat)
    requires IsRun(c, steps, tr) && k <= |steps|
    requires forall i :: 0 <= i < |steps| ==> lo <= SecondOfClock(steps[i].now) <= hi
    ensures Tally(EventsOf(steps, k), lo, hi, Total) == tr[k].requestsTotal
    ensures Tally(EventsOf(steps, k), lo, hi, Timeouts) == tr[k].timeoutsTotal
  {
    if k > 0 {
      TalliesAreCounters(c, steps, tr, lo, hi, k - 1);
      assert StepAt(c, steps, tr, k - 1);
      StepCounts(c, tr[k - 1], steps[k - 1], tr[k]);
      if steps[k - 1].ReleaseAt? {
        TallySnoc(EventsOf(steps, k - 1), EventOf(steps[k - 1]), lo, hi, Total);
        TallySnoc(EventsOf(steps, k - 1), EventOf(steps[k - 1]), lo, hi, Timeouts);
      }
    }
  }

  lemma SecondsInOrder(a: nat, b: nat, windowSecs: nat)
    requires a <= b < 1000 * windowSecs && windowSecs <= 64
    ensures SecondOfClock(b) - windowSecs + 1 <= SecondOfClock(a) <= SecondOfClock(b)
  {
  }

  lemma WindowCounts(c: Config, r: Run, n: Core, now: nat)
    requires Ends(c, r, n, now) && |r.steps| > 0 && 1 <= c.windowSecs <= 64 && now < 1000 * c.windowSecs
    requires r.steps[|r.steps| - 1].ReleaseAt? && r.steps[|r.steps| - 1].now == now
    ensures var stats := Merged(n.ring, SecondOfClock(now), c.windowSecs);
            stats.total == n.requestsTotal && stats.timeouts == n.timeoutsTotal
  {
    var k, s := |r.steps| - 1, SecondOfClock(now);
    forall i | 0 <= i < |r.steps| ensures s - c.windowSecs + 1 <= SecondOfClock(r.steps[i].now) <= s {
      SecondsInOrder(r.steps[i].now, now, c.windowSecs);
    }
    TalliesAreCounters(c, r.steps, r.tr, s - c.windowSecs + 1, s, k + 1);
    DetectorsReadTheLog(c, r.steps, r.tr, k, Total);
    DetectorsReadTheLog(c, r.steps, r.tr, k, Timeouts);
  }

  /** What the detector makes of a window with f timeouts among n calls. */
  lemma TimeoutsTrigger(c: Config, stats: WindowStats, f: nat)
    requires stats.total > 0 && stats.timeouts == f && stats.total >= c.minSamples
    requires f as real / stats.total as real >= c.timeoutRateOpen
    ensures ShouldOpen(c, HealthOf(stats))
  {
  }

  /** A circuit can close on a window on which its own detector would open it: it does in this run, whenever the failing
      calls and the successes are enough samples and the share of the failing ones is at the timeout threshold. */
  lemma ClosesThoughUnhealthy(c: Config, f: nat) returns (r: Run)
    requires Crowded(c, f) && f + Needed(c) >= c.minSamples
    requires f as real / (f + Needed(c)) as real >= c.timeoutRateOpen
    ensures IsRun(c, r.steps, r.tr) && |r.steps| > 0
    ensures var k := |r.steps| - 1;
            && r.tr[k].state == HalfOpen && r.tr[k + 1].state == Closed
            && r.steps[k].ReleaseAt? && ShouldOpen(c, r.steps[k].health)
  {
    var before, n;
    r, before, n := LateCallsClose(c, f);
    var now, k := c.openCooldownMs + c.cooldownJitterMs, |r.steps| - 1;
    WindowCounts(c, r, n, now);
    TimeoutsTrigger(c, Merged(n.ring, SecondOfClock(now), c.windowSecs), f);
    LastHealth(c, r, before, n, now);
  }

  lemma LastHealth(c: Config, r: Run, before: Core, n: Core, now: nat)
    requires Closes(c, r, before, n, now)
    ensures r.steps[|r.steps| - 1].health == HealthAt(c, n, now)
  {
    assert StepAt(c, r.steps, r.tr, |r.steps| - 1);
    HealthIsRead(c, before, r.steps[|r.steps| - 1], n);
  }

  /** The configuration that the gateway has when its environment sets nothing. */
  const DEFAULTS := Config(10, 20, 5, 3, 0.5, 0.4, 200_000, 30_000.0, 0.1, 5_000, 2_000, 3, 3, 32, 10_000)

  /** It happens under the default configuration. */
  lemma DefaultsCloseThoughUnhealthy() returns (r: Run)
    ensures IsRun(DEFAULTS, r.steps, r.tr) && |r.steps| > 0
    ensures var k := |r.steps| - 1;
            && r.tr[k].state == HalfOpen && r.tr[k + 1].state == Closed
            && r.steps[k].ReleaseAt? && ShouldOpen(DEFAULTS, r.steps[k].health)
  {
    r := ClosesThoughUnhealthy(DEFAULTS, 29);
  }
}
