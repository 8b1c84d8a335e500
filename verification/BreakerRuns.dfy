/** What every run of the circuit breaker keeps. A run is a sequence of acquire and release calls, any number
    of them overlapping, each one atomic, under a clock that never goes back; a release belongs to a call that
    was admitted and not yet released. */
module BreakerRuns {
  import opened Counting
  import opened RollingWindow
  import opened CircuitBreaker

  /** A call with what it observed: whether it was admitted, or the health it read from the window. */
  datatype Step =
    | AcquireAt(now: nat, seed: nat, admitted: bool)
    | ReleaseAt(now: nat, seed: nat, outcome: Outcome, latencyUs: nat, health: Health)

  predicate Admits(s: Step) {
    s.AcquireAt? && s.admitted
  }

  predicate Succeeds(s: Step) {
    s.ReleaseAt? && s.outcome == Success
  }

  predicate Fails(s: Step) {
    s.ReleaseAt? && (s.outcome == Timeout || s.outcome == RedisError)
  }

  ghost predicate IsStep(c: Config, b: Core, s: Step, n: Core) {
    match s
    case AcquireAt(now, seed, admitted) =>
      (n, admitted) == (Acquire(c, b, now, seed).0, Acquire(c, b, now, seed).1 == Admitted)
    case ReleaseAt(now, seed, outcome, latencyUs, health) =>
      && health == HealthAt(c, Logged(b, now, outcome, latencyUs), now)
      && n == Release(c, b, now, seed, outcome, latencyUs)
  }

  /** Calls admitted and not yet released after the first k steps. */
  function Outstanding(steps: seq<Step>, k: nat): int
    requires k <= |steps|
  {
    if k == 0 then 0
    else Outstanding(steps, k - 1) + if steps[k - 1].ReleaseAt? then -1 else if Admits(steps[k - 1]) then 1 else 0
  }

  /** A release belongs to a call that is still outstanding. */
  predicate PairedAt(steps: seq<Step>, i: nat)
    requires i < |steps|
  {
    steps[i].ReleaseAt? ==> Outstanding(steps, i) > 0
  }

  ghost predicate StepAt(c: Config, steps: seq<Step>, tr: seq<Core>, i: nat)
    requires |tr| == |steps| + 1 && i < |steps|
  {
    IsStep(c, tr[i], steps[i], tr[i + 1])
  }

  ghost predicate IsRun(c: Config, steps: seq<Step>, tr: seq<Core>) {
    && |tr| == |steps| + 1
    && tr[0] == Initial(c)
    && (forall i :: 0 <= i < |steps| ==> StepAt(c, steps, tr, i))
    && (forall i, j :: 0 <= i < j < |steps| ==> steps[i].now <= steps[j].now)
    && (forall i :: 0 <= i < |steps| ==> PairedAt(steps, i))
  }

  // ---------------------------------------------------------------- what one step does

  /** OPEN: when an episode begins, what stays fixed while it lasts, how it ends. */
  ghost predicate OpenLaw(c: Config, b: Core, s: Step, n: Core) {
    && b.openTotal <= n.openTotal && b.halfOpenTotal <= n.halfOpenTotal
    && n.openTotal - b.openTotal - (if n.state == Open then 1 else 0)
       == n.halfOpenTotal - b.halfOpenTotal - (if b.state == Open then 1 else 0)
    && (n.state == Open ==> !Admits(s))
    && (n.state == Open && n.openTotal == b.openTotal ==>
          b.state == Open && n.openedAtMs == b.openedAtMs && n.cooldownMs == b.cooldownMs)
    && (n.state == Open && n.openTotal != b.openTotal ==>
          && n.openedAtMs == s.now
          && c.openCooldownMs <= n.cooldownMs <= c.openCooldownMs + c.cooldownJitterMs)
    && (b.state == Open && (Admits(s) || n.state != Open) ==>
          s.AcquireAt? && SaturatingSub(s.now, b.openedAtMs) >= b.cooldownMs)
    && (b.state == Open && s.ReleaseAt? ==> n.openTotal == b.openTotal)
  }

  /** HALF_OPEN: how an episode counts its probes and its successes, and how it ends in CLOSED. */
  ghost predicate HalfOpenLaw(c: Config, b: Core, s: Step, n: Core) {
    && b.halfOpenTotal <= n.halfOpenTotal <= b.halfOpenTotal + 1
    && n.inflight == b.inflight + (if s.ReleaseAt? then -1 else if Admits(s) then 1 else 0)
    && (n.state == HalfOpen && n.halfOpenTotal == b.halfOpenTotal ==>
          && b.state == HalfOpen && !Fails(s)
          && n.probesDispatched == b.probesDispatched + (if Admits(s) then 1 else 0)
          && n.halfOpenSuccesses == b.halfOpenSuccesses + (if Succeeds(s) then 1 else 0)
          && n.halfOpenStartedMs == b.halfOpenStartedMs)
    && (n.state == HalfOpen && n.halfOpenTotal != b.halfOpenTotal ==>
          && b.state == Open && s.AcquireAt? && n.halfOpenSuccesses == 0
          && n.probesDispatched == (if Admits(s) then 1 else 0)
          && n.halfOpenStartedMs == s.now)
    && (Admits(s) && n.state == HalfOpen ==> n.probesDispatched <= c.halfOpenProbes)
    && (b.state == HalfOpen && n.state == Closed ==>
          Succeeds(s) && Recovered(c, s.health, b.halfOpenSuccesses + 1))
    && (b.state == Open ==> n.state != Closed)
  }

  /** The fast detector: what it counts, and that a CLOSED circuit is one it did not trip. */
  ghost predicate DetectorLaw(c: Config, b: Core, s: Step, n: Core) {
    && n.consecutiveFail == (if Succeeds(s) then 0 else b.consecutiveFail + if Fails(s) then 1 else 0)
    && n.consecutiveTimeout ==
         (if Succeeds(s) then 0 else b.consecutiveTimeout + if Fails(s) && s.outcome == Timeout then 1 else 0)
    && (n.state == Closed ==> b.state == Closed || Succeeds(s))
    && (n.state == Closed && Fails(s) ==> n.consecutiveFail < c.consecutiveFailOpen)
    && (n.state == Closed && Fails(s) && s.outcome == Timeout ==> n.consecutiveTimeout < c.consecutiveToOpen)
  }

  ghost predicate Laws(c: Config, b: Core, s: Step, n: Core) {
    OpenLaw(c, b, s, n) && HalfOpenLaw(c, b, s, n) && DetectorLaw(c, b, s, n)
  }

  lemma AcquireLaws(c: Config, b: Core, s: Step, n: Core)
    requires s.AcquireAt? && IsStep(c, b, s, n)
    ensures Laws(c, b, s, n)
  {
  }

  lemma SettleOpenLaw(c: Config, b: Core, s: Step, n: Core)
    requires s.ReleaseAt? && n == Settle(c, b, s.health, s.now, s.seed, s.outcome)
    ensures OpenLaw(c, b, s, n)
  {
  }

  lemma SettleHalfOpenLaw(c: Config, b: Core, s: Step, n: Core)
    requires s.ReleaseAt? && n == Settle(c, b, s.health, s.now, s.seed, s.outcome)
    ensures HalfOpenLaw(c, b.(inflight := b.inflight + 1), s, n)
  {
  }

  lemma SettleDetectorLaw(c: Config, b: Core, s: Step, n: Core)
    requires s.ReleaseAt? && n == Settle(c, b, s.health, s.now, s.seed, s.outcome)
    ensures DetectorLaw(c, b, s, n)
  {
  }

  lemma StepLaws(c: Config, b: Core, s: Step, n: Core)
    requires IsStep(c, b, s, n)
    ensures Laws(c, b, s, n)
  {
    if s.AcquireAt? {
      AcquireLaws(c, b, s, n);
    } else {
      var logged := Logged(b, s.now, s.outcome, s.latencyUs);
      SettleOpenLaw(c, logged, s, n);
      SettleHalfOpenLaw(c, logged, s, n);
      SettleDetectorLaw(c, logged, s, n);
    }
  }

  ghost predicate Lawful(c: Config, steps: seq<Step>, tr: seq<Core>) {
    |tr| == |steps| + 1 && forall i :: 0 <= i < |steps| ==> Laws(c, tr[i], steps[i], tr[i + 1])
  }

  lemma RunIsLawful(c: Config, steps: seq<Step>, tr: seq<Core>)
    requires IsRun(c, steps, tr)
    ensures Lawful(c, steps, tr)
    ensures tr[0] == Initial(c)
  {
    forall i | 0 <= i < |steps| ensures Laws(c, tr[i], steps[i], tr[i + 1]) {
      assert StepAt(c, steps, tr, i);
      StepLaws(c, tr[i], steps[i], tr[i + 1]);
    }
  }

  // ---------------------------------------------------------------- OPEN

  lemma {:induction false} LawfulCounters(c: Config, steps: seq<Step>, tr: seq<Core>, k: nat)
    requires Lawful(c, steps, tr) && tr[0] == Initial(c) && k <= |steps|
    ensures tr[k].openTotal == tr[k].halfOpenTotal + if tr[k].state == Open then 1 else 0
    ensures tr[k].inflight == Outstanding(steps, k)
  {
    if k > 0 {
      LawfulCounters(c, steps, tr, k - 1);
      assert Laws(c, tr[k - 1], steps[k - 1], tr[k]);
    }
  }

  /** In every reachable state the two transition counters differ by one exactly when the circuit is OPEN, and
      the in-flight gauge is the number of calls admitted and not yet released. */
  lemma TransitionCounters(c: Config, steps: seq<Step>, tr: seq<Core>, k: nat)
    requires IsRun(c, steps, tr) && k <= |steps|
    ensures tr[k].openTotal == tr[k].halfOpenTotal + if tr[k].state == Open then 1 else 0
    ensures tr[k].inflight == Outstanding(steps, k)
  {
    RunIsLawful(c, steps, tr);
    LawfulCounters(c, steps, tr, k);
  }

  /** The episode that state k of a run stands in began at step `opening` and has not changed since. */
  ghost predicate OpenSince(c: Config, steps: seq<Step>, tr: seq<Core>, opening: nat, k: nat)
    requires |tr| == |steps| + 1
  {
    && opening < k <= |steps|
    && tr[opening].openTotal < tr[opening + 1].openTotal
    && c.openCooldownMs <= tr[k].cooldownMs <= c.openCooldownMs + c.cooldownJitterMs
    && (forall j :: opening < j <= k ==>
          && tr[j].state == Open
          && tr[j].openedAtMs == steps[opening].now
          && tr[j].cooldownMs == tr[k].cooldownMs)
    && (forall j :: opening <= j < k ==> !Admits(steps[j]))
  }

  lemma {:induction false} LawfulOpenSince(c: Config, steps: seq<Step>, tr: seq<Core>, k: nat)
    returns (opening: nat)
    requires Lawful(c, steps, tr) && tr[0].state != Open
    requires k <= |steps| && tr[k].state == Open
    ensures OpenSince(c, steps, tr, opening, k)
  {
    assert Laws(c, tr[k - 1], steps[k - 1], tr[k]);
    if tr[k].openTotal != tr[k - 1].openTotal {
      opening := k - 1;
    } else {
      opening := LawfulOpenSince(c, steps, tr, k - 1);
    }
  }

  /** OPEN quarantine. Whenever a run stands in OPEN there is the step that opened the circuit: the start of the
      episode is the time of that step, its length lies between the base cooldown and the base plus the jitter,
      no later step has moved either, none has been admitted, and a step that is admitted next, or that ends the
      episode, is an acquire made once the whole cooldown has elapsed. */
  lemma OpenQuarantine(c: Config, steps: seq<Step>, tr: seq<Core>, k: nat) returns (opening: nat)
    requires IsRun(c, steps, tr) && k <= |steps| && tr[k].state == Open
    ensures OpenSince(c, steps, tr, opening, k)
    ensures k < |steps| && (Admits(steps[k]) || tr[k + 1].state != Open) ==>
              steps[k].AcquireAt? && steps[k].now >= steps[opening].now + tr[k].cooldownMs
  {
    RunIsLawful(c, steps, tr);
    opening := LawfulOpenSince(c, steps, tr, k);
    if k < |steps| {
      assert Laws(c, tr[k], steps[k], tr[k + 1]);
      assert steps[opening].now <= steps[k].now;
    }
  }

  // ---------------------------------------------------------------- HALF_OPEN

  /** The states after steps first up to last are those of one HALF_OPEN episode, which step `first` entered. */
  ghost predicate IsEpisode(tr: seq<Core>, first: nat, last: nat) {
    && first < last < |tr| && tr[first].state == Open
    && forall i :: first < i <= last ==> tr[i].state == HalfOpen
  }

  /** An episode starts, and its deadline counts, from the step that entered it. */
  lemma {:induction false} EpisodeStart(c: Config, steps: seq<Step>, tr: seq<Core>, first: nat, k: nat)
    requires IsRun(c, steps, tr) && IsEpisode(tr, first, k)
    ensures tr[k].halfOpenStartedMs == steps[first].now && tr[k].halfOpenTotal == tr[first].halfOpenTotal + 1
    decreases k
  {
    RunIsLawful(c, steps, tr);
    assert Laws(c, tr[k - 1], steps[k - 1], tr[k]);
    if k > first + 1 {
      EpisodeStart(c, steps, tr, first, k - 1);
    }
  }

  /** Every reachable HALF_OPEN state stands in an episode. */
  lemma {:induction false} EpisodeOf(c: Config, steps: seq<Step>, tr: seq<Core>, k: nat) returns (first: nat)
    requires IsRun(c, steps, tr) && k <= |steps| && tr[k].state == HalfOpen
    ensures IsEpisode(tr, first, k)
  {
    RunIsLawful(c, steps, tr);
    assert Laws(c, tr[k - 1], steps[k - 1], tr[k]);
    if tr[k - 1].state == HalfOpen {
      first := EpisodeOf(c, steps, tr, k - 1);
    } else {
      first := k - 1;
    }
  }

  /** Calls admitted as probes of the h-th HALF_OPEN episode within the first k steps. */
  function ProbesIn(steps: seq<Step>, tr: seq<Core>, h: nat, k: nat): nat
    requires |tr| == |steps| + 1 && k <= |steps|
  {
    if k == 0 then 0
    else
      var one := if Admits(steps[k - 1]) && tr[k].state == HalfOpen && tr[k].halfOpenTotal == h then 1 else 0;
      ProbesIn(steps, tr, h, k - 1) + one
  }

  /** Successful releases while the h-th HALF_OPEN episode lasts. */
  function SuccessesIn(steps: seq<Step>, tr: seq<Core>, h: nat, k: nat): nat
    requires |tr| == |steps| + 1 && k <= |steps|
  {
    if k == 0 then 0
    else
      var one := if Succeeds(steps[k - 1]) && tr[k - 1].state == HalfOpen && tr[k - 1].halfOpenTotal == h then 1 else 0;
      SuccessesIn(steps, tr, h, k - 1) + one
  }

  /** Failing releases while the h-th HALF_OPEN episode lasts. */
  function FailuresIn(steps: seq<Step>, tr: seq<Core>, h: nat, k: nat): nat
    requires |tr| == |steps| + 1 && k <= |steps|
  {
    if k == 0 then 0
    else
      var one := if Fails(steps[k - 1]) && tr[k - 1].state == HalfOpen && tr[k - 1].halfOpenTotal == h then 1 else 0;
      FailuresIn(steps, tr, h, k - 1) + one
  }

  ghost predicate EpisodeCounts(c: Config, steps: seq<Step>, tr: seq<Core>, h: nat, k: nat)
    requires |tr| == |steps| + 1 && k <= |steps|
  {
    && ProbesIn(steps, tr, h, k) <= c.halfOpenProbes
    && (tr[k].halfOpenTotal < h ==>
          ProbesIn(steps, tr, h, k) == SuccessesIn(steps, tr, h, k) == FailuresIn(steps, tr, h, k) == 0)
    && (tr[k].state == HalfOpen && tr[k].halfOpenTotal == h ==>
          && ProbesIn(steps, tr, h, k) == tr[k].probesDispatched
          && SuccessesIn(steps, tr, h, k) == tr[k].halfOpenSuccesses
          && FailuresIn(steps, tr, h, k) == 0)
  }

  lemma {:induction false} LawfulEpisodes(c: Config, steps: seq<Step>, tr: seq<Core>, h: nat, k: nat)
    requires Lawful(c, steps, tr) && tr[0] == Initial(c) && k <= |steps|
    ensures EpisodeCounts(c, steps, tr, h, k)
  {
    if k > 0 {
      LawfulEpisodes(c, steps, tr, h, k - 1);
      assert Laws(c, tr[k - 1], steps[k - 1], tr[k]);
    }
  }

  /** No HALF_OPEN episode of any run admits more than its budget of probes. */
  lemma ProbeBudget(c: Config, steps: seq<Step>, tr: seq<Core>, h: nat, k: nat)
    requires IsRun(c, steps, tr) && k <= |steps|
    ensures ProbesIn(steps, tr, h, k) <= c.halfOpenProbes
  {
    RunIsLawful(c, steps, tr);
    LawfulEpisodes(c, steps, tr, h, k);
  }

  /** A circuit only ever closes from HALF_OPEN, by a successful release, in an episode with at least
      `recoverySuccesses` successful releases and no failing one; and when the recovery thresholds lie below the
      open ones, neither the latency nor the error trigger holds on the window that was read. */
  lemma {:induction false} RecoveryIsEarned(c: Config, steps: seq<Step>, tr: seq<Core>, k: nat)
    requires IsRun(c, steps, tr) && k < |steps|
    requires tr[k].state != Closed && tr[k + 1].state == Closed
    ensures tr[k].state == HalfOpen && Succeeds(steps[k])
    ensures SuccessesIn(steps, tr, tr[k].halfOpenTotal, k + 1) >= c.recoverySuccesses
    ensures FailuresIn(steps, tr, tr[k].halfOpenTotal, k + 1) == 0
    ensures steps[k].health == HealthAt(c, tr[k + 1], steps[k].now)
    ensures c.p99UsRecovery < c.p99UsOpen as real ==> !LatencyTrigger(c, steps[k].health)
    ensures c.errorRateRecovery < c.errorRateOpen ==> !ErrorTrigger(c, steps[k].health)
  {
    RunIsLawful(c, steps, tr);
    assert Laws(c, tr[k], steps[k], tr[k + 1]);
    LawfulEpisodes(c, steps, tr, tr[k].halfOpenTotal, k);
    assert StepAt(c, steps, tr, k);
    HealthIsRead(c, tr[k], steps[k], tr[k + 1]);
  }

  lemma SettleKeepsRing(c: Config, b: Core, h: Health, now: nat, seed: nat, outcome: Outcome)
    ensures Settle(c, b, h, now, seed, outcome).ring == b.ring
  {
  }

  /** The health a release acts on is read from the window that already holds its own call. */
  lemma HealthIsRead(c: Config, b: Core, s: Step, n: Core)
    requires IsStep(c, b, s, n) && s.ReleaseAt?
    ensures s.health == HealthAt(c, n, s.now)
  {
    SettleKeepsRing(c, Logged(b, s.now, s.outcome, s.latencyUs), s.health, s.now, s.seed, s.outcome);
  }

  /** The hysteresis has a gap. With recovery thresholds below the open ones, the window on which a circuit closes is one
      that would open it again exactly when it holds enough samples and its timeout rate is at the threshold. */
  lemma RecoveryIgnoresTimeouts(c: Config, steps: seq<Step>, tr: seq<Core>, k: nat)
    requires IsRun(c, steps, tr) && k < |steps|
    requires tr[k].state != Closed && tr[k + 1].state == Closed
    requires c.p99UsRecovery < c.p99UsOpen as real && c.errorRateRecovery < c.errorRateOpen
    ensures steps[k].ReleaseAt?
    ensures ShouldOpen(c, steps[k].health) <==>
              steps[k].health.total >= c.minSamples && TimeoutTrigger(c, steps[k].health)
  {
    RecoveryIsEarned(c, steps, tr, k);
  }

  // ---------------------------------------------------------------- whose successes count

  /** Releases while the h-th HALF_OPEN episode lasts. */
  function ReleasesIn(steps: seq<Step>, tr: seq<Core>, h: nat, k: nat): nat
    requires |tr| == |steps| + 1 && k <= |steps|
  {
    if k == 0 then 0
    else
      var one := if steps[k - 1].ReleaseAt? && tr[k - 1].state == HalfOpen && tr[k - 1].halfOpenTotal == h then 1 else 0;
      ReleasesIn(steps, tr, h, k - 1) + one
  }

  lemma {:induction false} NoReleasesBefore(c: Config, steps: seq<Step>, tr: seq<Core>, h: nat, k: nat)
    requires Lawful(c, steps, tr) && k <= |steps|
    ensures SuccessesIn(steps, tr, h, k) <= ReleasesIn(steps, tr, h, k)
    ensures tr[k].halfOpenTotal < h ==> ReleasesIn(steps, tr, h, k) == 0
  {
    if k > 0 {
      NoReleasesBefore(c, steps, tr, h, k - 1);
      assert Laws(c, tr[k - 1], steps[k - 1], tr[k]);
    }
  }

  /** In an episode, the calls outstanding at its start and its probes are the calls outstanding now and its releases. */
  lemma {:induction false} EpisodeFlow(c: Config, steps: seq<Step>, tr: seq<Core>, first: nat, k: nat)
    requires Lawful(c, steps, tr) && tr[0] == Initial(c) && IsEpisode(tr, first, k)
    ensures var h := tr[first].halfOpenTotal + 1;
            && tr[k].halfOpenTotal == h
            && Outstanding(steps, first) + ProbesIn(steps, tr, h, k) == Outstanding(steps, k) + ReleasesIn(steps, tr, h, k)
    decreases k
  {
    assert Laws(c, tr[k - 1], steps[k - 1], tr[k]);
    if k == first + 1 {
      var h := tr[first].halfOpenTotal + 1;
      LawfulEpisodes(c, steps, tr, h, first);
      NoReleasesBefore(c, steps, tr, h, first);
    } else {
      EpisodeFlow(c, steps, tr, first, k - 1);
    }
  }

  /** Whose successes close a circuit. A success counts toward the recovery whichever call it belongs to, a probe or a late
      call admitted before the circuit opened. The releases of an episode that closes are its probes and the calls that
      were outstanding when it began, less those outstanding when it ends; so when none was, the successes that closed it
      are at most its probes: it has probed at least `recoverySuccesses` times. */
  lemma {:induction false} SuccessesAreProbes(c: Config, steps: seq<Step>, tr: seq<Core>, first: nat, k: nat)
    requires IsRun(c, steps, tr) && IsEpisode(tr, first, k) && k < |steps| && tr[k + 1].state == Closed
    ensures var h := tr[k].halfOpenTotal;
            && Outstanding(steps, first) + ProbesIn(steps, tr, h, k + 1)
               == Outstanding(steps, k + 1) + ReleasesIn(steps, tr, h, k + 1)
            && (Outstanding(steps, first) == 0 ==>
                  c.recoverySuccesses <= SuccessesIn(steps, tr, h, k + 1) <= ReleasesIn(steps, tr, h, k + 1)
                  <= ProbesIn(steps, tr, h, k + 1))
  {
    RunIsLawful(c, steps, tr);
    EpisodeFlow(c, steps, tr, first, k);
    RecoveryIsEarned(c, steps, tr, k);
    NoReleasesBefore(c, steps, tr, tr[k].halfOpenTotal, k + 1);
    OutstandingIsNatural(c, steps, tr, k + 1);
  }

  // ---------------------------------------------------------------- liveness of recovery

  /** Past the cooldown, an acquire on an OPEN circuit becomes a probe exactly when fewer calls than the probe limit
      are in flight and probing is given any time at all. */
  lemma ProbeIffRoom(c: Config, b: Core, now: nat, seed: nat)
    requires b.state == Open && now >= b.openedAtMs + b.cooldownMs && b.inflight >= 0
    ensures Acquire(c, b, now, seed).1 == Admitted <==> b.inflight < c.halfOpenProbes && c.halfOpenMaxMs > 0
    ensures Acquire(c, b, now, seed).1 == Admitted ==> Acquire(c, b, now, seed).0.state == HalfOpen
  {
  }

  lemma {:induction false} ReleasesKeepOpen(c: Config, steps: seq<Step>, tr: seq<Core>, i: nat, k: nat)
    requires Lawful(c, steps, tr) && i <= k <= |steps| && tr[i].state == Open
    requires forall j :: i <= j < k ==> steps[j].ReleaseAt?
    ensures tr[k].state == Open && tr[k].openedAtMs == tr[i].openedAtMs && tr[k].cooldownMs == tr[i].cooldownMs
    ensures tr[k].inflight <= tr[i].inflight
  {
    if i < k {
      ReleasesKeepOpen(c, steps, tr, i, k - 1);
      assert Laws(c, tr[k - 1], steps[k - 1], tr[k]);
    }
  }

  /** The breaker never wedges in OPEN: whatever the run, an acquire made base plus jitter after the opening is
      admitted as a probe as long as fewer calls than the probe limit are outstanding. */
  lemma NeverWedgesOpen(c: Config, steps: seq<Step>, tr: seq<Core>, k: nat, now: nat, seed: nat)
    requires IsRun(c, steps, tr) && k <= |steps| && tr[k].state == Open
    requires Outstanding(steps, k) < c.halfOpenProbes && c.halfOpenMaxMs > 0
    requires now >= tr[k].openedAtMs + c.openCooldownMs + c.cooldownJitterMs
    ensures Acquire(c, tr[k], now, seed).1 == Admitted
    ensures Acquire(c, tr[k], now, seed).0.state == HalfOpen
  {
    var opening := OpenQuarantine(c, steps, tr, k);
    TransitionCounters(c, steps, tr, k);
    OutstandingIsNatural(c, steps, tr, k);
    ProbeIffRoom(c, tr[k], now, seed);
  }

  lemma {:induction false} OutstandingIsNatural(c: Config, steps: seq<Step>, tr: seq<Core>, k: nat)
    requires IsRun(c, steps, tr) && k <= |steps|
    ensures Outstanding(steps, k) >= 0
  {
    if k > 0 {
      OutstandingIsNatural(c, steps, tr, k - 1);
      assert PairedAt(steps, k - 1);
    }
  }

  /** The breaker never wedges in HALF_OPEN: an acquire made the half-open time after the step that entered the episode
      re-arms OPEN, and after it, with any releases in between, an acquire made base plus jitter later is admitted as a
      probe. */
  lemma NeverWedgesHalfOpen(
      c: Config, steps: seq<Step>, tr: seq<Core>, first: nat, i: nat, k: nat, now: nat, seed: nat)
    requires IsRun(c, steps, tr) && i < k <= |steps|
    requires IsEpisode(tr, first, i) && steps[i].AcquireAt?
    requires steps[i].now >= steps[first].now + c.halfOpenMaxMs
    requires forall j :: i < j < k ==> steps[j].ReleaseAt?
    requires Outstanding(steps, i) < c.halfOpenProbes && c.halfOpenMaxMs > 0
    requires now >= steps[i].now + c.openCooldownMs + c.cooldownJitterMs
    ensures !Admits(steps[i]) && tr[i + 1].state == Open
    ensures Acquire(c, tr[k], now, seed).1 == Admitted
    ensures Acquire(c, tr[k], now, seed).0.state == HalfOpen
  {
    assert StepAt(c, steps, tr, i);
    EpisodeStart(c, steps, tr, first, i);
    DeadlineReopens(c, tr[i], steps[i], tr[i + 1]);
    RunIsLawful(c, steps, tr);
    ReleasesKeepOpen(c, steps, tr, i + 1, k);
    LawfulCounters(c, steps, tr, i);
    LawfulCounters(c, steps, tr, i + 1);
    LawfulCounters(c, steps, tr, k);
    NeverWedgesOpen(c, steps, tr, k, now, seed);
  }

  lemma DeadlineReopens(c: Config, b: Core, s: Step, n: Core)
    requires IsStep(c, b, s, n) && b.state == HalfOpen && s.AcquireAt?
    requires s.now >= b.halfOpenStartedMs + c.halfOpenMaxMs
    ensures !Admits(s) && n.state == Open && n.openedAtMs == s.now && n.inflight == b.inflight
  {
  }

  // ---------------------------------------------------------------- the fast detector

  /** Failing releases since the last successful one, over the first k steps. */
  function FailuresSince(steps: seq<Step>, k: nat): nat
    requires k <= |steps|
  {
    if k == 0 || Succeeds(steps[k - 1]) then 0
    else FailuresSince(steps, k - 1) + if Fails(steps[k - 1]) then 1 else 0
  }

  /** The timeouts among them. */
  function TimeoutsSince(steps: seq<Step>, k: nat): nat
    requires k <= |steps|
  {
    if k == 0 || Succeeds(steps[k - 1]) then 0
    else TimeoutsSince(steps, k - 1) + if Fails(steps[k - 1]) && steps[k - 1].outcome == Timeout then 1 else 0
  }

  ghost predicate DetectorCounts(c: Config, steps: seq<Step>, b: Core, k: nat)
    requires k <= |steps|
  {
    && b.consecutiveFail == FailuresSince(steps, k)
    && b.consecutiveTimeout == TimeoutsSince(steps, k)
    && (c.consecutiveFailOpen >= 1 && c.consecutiveToOpen >= 1 && b.state == Closed ==>
          b.consecutiveFail < c.consecutiveFailOpen && b.consecutiveTimeout < c.consecutiveToOpen)
  }

  lemma {:induction false} LawfulDetector(c: Config, steps: seq<Step>, tr: seq<Core>, k: nat)
    requires Lawful(c, steps, tr) && tr[0] == Initial(c) && k <= |steps|
    ensures DetectorCounts(c, steps, tr[k], k)
  {
    if k > 0 {
      LawfulDetector(c, steps, tr, k - 1);
      assert Laws(c, tr[k - 1], steps[k - 1], tr[k]);
    }
  }

  /** In every run the fast detector counts the failing releases, and the timeouts, since the last success; in every
      reachable CLOSED state both counts are strictly below the thresholds that open the circuit, which the environment
      can only set to one or more. */
  lemma FastDetector(c: Config, steps: seq<Step>, tr: seq<Core>, k: nat)
    requires IsRun(c, steps, tr) && k <= |steps|
    ensures tr[k].consecutiveFail == FailuresSince(steps, k)
    ensures tr[k].consecutiveTimeout == TimeoutsSince(steps, k)
    ensures c.consecutiveFailOpen >= 1 && c.consecutiveToOpen >= 1 && tr[k].state == Closed ==>
              FailuresSince(steps, k) < c.consecutiveFailOpen && TimeoutsSince(steps, k) < c.consecutiveToOpen
  {
    RunIsLawful(c, steps, tr);
    LawfulDetector(c, steps, tr, k);
  }

  /** The fast detector fires on a failing release whose run of failures, or of timeouts, has reached its threshold. */
  predicate FastTrip(c: Config, steps: seq<Step>, k: nat)
    requires k < |steps|
  {
    && Fails(steps[k])
    && (|| FailuresSince(steps, k + 1) >= c.consecutiveFailOpen
        || (steps[k].outcome == Timeout && TimeoutsSince(steps, k + 1) >= c.consecutiveToOpen))
  }

  /** Exactly when a circuit opens. From CLOSED: on a release where the fast detector fires, or where the window holds enough
      samples and one of the three rates is at its threshold. From HALF_OPEN: on a failing release, or on an acquire the
      half-open time after the step that entered the episode. */
  lemma OpensExactlyWhen(c: Config, steps: seq<Step>, tr: seq<Core>, k: nat) returns (first: nat)
    requires IsRun(c, steps, tr) && k < |steps|
    ensures tr[k].state == Closed ==>
              (tr[k + 1].state == Open <==>
                || FastTrip(c, steps, k)
                || (&& (Succeeds(steps[k]) || Fails(steps[k]))
                    && var h := steps[k].health;
                       && h.total >= c.minSamples
                       && (h.errorRate >= c.errorRateOpen || h.timeoutRate >= c.timeoutRateOpen || h.p99Us >= c.p99UsOpen)))
    ensures tr[k].state == HalfOpen ==>
              && IsEpisode(tr, first, k)
              && (tr[k + 1].state == Open <==>
                    Fails(steps[k]) || (steps[k].AcquireAt? && steps[k].now >= steps[first].now + c.halfOpenMaxMs))
  {
    FastDetector(c, steps, tr, k);
    assert StepAt(c, steps, tr, k);
    StepOpens(c, tr[k], steps[k], tr[k + 1]);
    first := 0;
    if tr[k].state == HalfOpen {
      first := EpisodeOf(c, steps, tr, k);
      EpisodeStart(c, steps, tr, first, k);
    }
  }

  lemma StepOpens(c: Config, b: Core, s: Step, n: Core)
    requires IsStep(c, b, s, n)
    ensures b.state == Closed ==>
              (n.state == Open <==>
                || (Fails(s) && b.consecutiveFail + 1 >= c.consecutiveFailOpen)
                || (Fails(s) && s.outcome == Timeout && b.consecutiveTimeout + 1 >= c.consecutiveToOpen)
                || ((Succeeds(s) || Fails(s)) && ShouldOpen(c, s.health)))
    ensures b.state == HalfOpen ==>
              (n.state == Open <==>
                Fails(s) || (s.AcquireAt? && SaturatingSub(s.now, b.halfOpenStartedMs) >= c.halfOpenMaxMs))
  {
  }

  /** Exactly when a circuit closes: on a success in HALF_OPEN that is the last one needed, on a window whose p99 and error
      rate are within the recovery thresholds. */
  lemma ClosesExactlyWhen(c: Config, steps: seq<Step>, tr: seq<Core>, k: nat)
    requires IsRun(c, steps, tr) && k < |steps| && tr[k].state != Closed
    ensures tr[k + 1].state == Closed <==>
              && tr[k].state == HalfOpen && Succeeds(steps[k])
              && SuccessesIn(steps, tr, tr[k].halfOpenTotal, k) + 1 >= c.recoverySuccesses
              && steps[k].health.p99Us as real <= c.p99UsRecovery && steps[k].health.errorRate <= c.errorRateRecovery
  {
    RunIsLawful(c, steps, tr);
    LawfulEpisodes(c, steps, tr, tr[k].halfOpenTotal, k);
    assert StepAt(c, steps, tr, k);
    StepCloses(c, tr[k], steps[k], tr[k + 1]);
  }

  lemma StepCloses(c: Config, b: Core, s: Step, n: Core)
    requires IsStep(c, b, s, n) && b.state != Closed
    ensures n.state == Closed <==>
              && b.state == HalfOpen && Succeeds(s) && b.halfOpenSuccesses + 1 >= c.recoverySuccesses
              && s.health.p99Us as real <= c.p99UsRecovery && s.health.errorRate <= c.errorRateRecovery
  {
  }

  /** Exactly when a call is admitted. In CLOSED: while fewer calls than the limit are outstanding. In OPEN: once the cooldown
      has passed since the step that opened the circuit, if fewer calls than the probe limit are outstanding and probing is
      given any time. In HALF_OPEN: before its deadline, within the budget of the episode and the probe limit. */
  lemma AdmitsExactlyWhen(c: Config, steps: seq<Step>, tr: seq<Core>, k: nat) returns (since: nat)
    requires IsRun(c, steps, tr) && k < |steps| && steps[k].AcquireAt?
    ensures tr[k].state == Closed ==> (Admits(steps[k]) <==> Outstanding(steps, k) < c.maxInflight)
    ensures tr[k].state == Open ==>
              && OpenSince(c, steps, tr, since, k)
              && (Admits(steps[k]) <==>
                    && steps[k].now >= steps[since].now + tr[k].cooldownMs
                    && Outstanding(steps, k) < c.halfOpenProbes && c.halfOpenMaxMs > 0)
    ensures tr[k].state == HalfOpen ==>
              && IsEpisode(tr, since, k)
              && (Admits(steps[k]) <==>
                    && steps[k].now < steps[since].now + c.halfOpenMaxMs
                    && ProbesIn(steps, tr, tr[k].halfOpenTotal, k) < c.halfOpenProbes
                    && Outstanding(steps, k) < c.halfOpenProbes)
  {
    TransitionCounters(c, steps, tr, k);
    OutstandingIsNatural(c, steps, tr, k);
    assert StepAt(c, steps, tr, k);
    StepAdmits(c, tr[k], steps[k], tr[k + 1]);
    since := 0;
    if tr[k].state == Open {
      since := OpenQuarantine(c, steps, tr, k);
    } else if tr[k].state == HalfOpen {
      since := EpisodeOf(c, steps, tr, k);
      EpisodeStart(c, steps, tr, since, k);
      RunIsLawful(c, steps, tr);
      LawfulEpisodes(c, steps, tr, tr[k].halfOpenTotal, k);
    }
  }

  lemma StepAdmits(c: Config, b: Core, s: Step, n: Core)
    requires IsStep(c, b, s, n) && s.AcquireAt? && b.inflight >= 0
    ensures Admits(s) <==>
              match b.state
              case Closed => b.inflight < c.maxInflight
              case Open =>
                SaturatingSub(s.now, b.openedAtMs) >= b.cooldownMs && b.inflight < c.halfOpenProbes && c.halfOpenMaxMs > 0
              case HalfOpen =>
                && SaturatingSub(s.now, b.halfOpenStartedMs) < c.halfOpenMaxMs
                && b.probesDispatched < c.halfOpenProbes && b.inflight < c.halfOpenProbes
  {
  }

  // ---------------------------------------------------------------- the published counters

  /** The steps among the first k that satisfy a predicate. */
  function Steps(p: Step -> bool, steps: seq<Step>, k: nat): nat
    requires k <= |steps|
  {
    if k == 0 then 0 else Steps(p, steps, k - 1) + if p(steps[k - 1]) then 1 else 0
  }

  predicate Releases(s: Step) { s.ReleaseAt? }

  predicate Refuses(s: Step) { s.AcquireAt? && !s.admitted }

  predicate TimesOut(s: Step) { s.ReleaseAt? && s.outcome == Timeout }

  predicate Errs(s: Step) { s.ReleaseAt? && s.outcome == RedisError }

  ghost predicate CountersMove(b: Core, s: Step, n: Core) {
    && n.requestsTotal == b.requestsTotal + (if Releases(s) then 1 else 0)
    && n.rejectedTotal == b.rejectedTotal + (if Refuses(s) then 1 else 0)
    && n.successTotal == b.successTotal + (if Succeeds(s) then 1 else 0)
    && n.timeoutsTotal == b.timeoutsTotal + (if TimesOut(s) then 1 else 0)
    && n.errorsTotal == b.errorsTotal + (if Errs(s) then 1 else 0)
  }

  lemma StepCounts(c: Config, b: Core, s: Step, n: Core)
    requires IsStep(c, b, s, n)
    ensures CountersMove(b, s, n)
  {
    if s.ReleaseAt? {
      SettleCounts(c, Logged(b, s.now, s.outcome, s.latencyUs), s.health, s.now, s.seed, s.outcome);
    }
  }

  lemma SettleCounts(c: Config, b: Core, h: Health, now: nat, seed: nat, outcome: Outcome)
    ensures var n := Settle(c, b, h, now, seed, outcome);
            && n.requestsTotal == b.requestsTotal && n.rejectedTotal == b.rejectedTotal
            && n.successTotal == b.successTotal + (if outcome == Success then 1 else 0)
            && n.timeoutsTotal == b.timeoutsTotal + (if outcome == Timeout then 1 else 0)
            && n.errorsTotal == b.errorsTotal + (if outcome == RedisError then 1 else 0)
  {
  }

  /** In every run the published counters are the counts they name: releases, refused acquires, and releases by outcome. */
  lemma {:induction false} CountersCount(c: Config, steps: seq<Step>, tr: seq<Core>, k: nat)
    requires IsRun(c, steps, tr) && k <= |steps|
    ensures tr[k].requestsTotal == Steps(Releases, steps, k)
    ensures tr[k].rejectedTotal == Steps(Refuses, steps, k)
    ensures tr[k].successTotal == Steps(Succeeds, steps, k)
    ensures tr[k].timeoutsTotal == Steps(TimesOut, steps, k)
    ensures tr[k].errorsTotal == Steps(Errs, steps, k)
  {
    if k > 0 {
      CountersCount(c, steps, tr, k - 1);
      assert StepAt(c, steps, tr, k - 1);
      StepCounts(c, tr[k - 1], steps[k - 1], tr[k]);
    }
  }

  // ---------------------------------------------------------------- the detectors read the log

  /** The completed calls of the first k steps, as the window logs them. */
  function EventsOf(steps: seq<Step>, k: nat): seq<Event>
    requires k <= |steps|
  {
    if k == 0 then []
    else if steps[k - 1].ReleaseAt? then EventsOf(steps, k - 1) + [EventOf(steps[k - 1])]
    else EventsOf(steps, k - 1)
  }

  function EventOf(s: Step): Event
    requires s.ReleaseAt?
  {
    Event(SecondOfClock(s.now), s.outcome, s.latencyUs)
  }

  lemma StepRing(c: Config, b: Core, s: Step, n: Core)
    requires IsStep(c, b, s, n)
    ensures n.ring == if s.ReleaseAt? then RingRecord(b.ring, EventOf(s)) else b.ring
  {
    if s.ReleaseAt? {
      SettleKeepsRing(c, Logged(b, s.now, s.outcome, s.latencyUs), s.health, s.now, s.seed, s.outcome);
    }
  }

  lemma RingAtStep(c: Config, steps: seq<Step>, tr: seq<Core>, i: nat)
    requires IsRun(c, steps, tr) && i < |steps|
    ensures tr[i + 1].ring == if steps[i].ReleaseAt? then RingRecord(tr[i].ring, EventOf(steps[i])) else tr[i].ring
  {
    assert StepAt(c, steps, tr, i);
    StepRing(c, tr[i], steps[i], tr[i + 1]);
  }

  lemma RingSnoc(n: nat, log: seq<Event>, e: Event)
    requires n > 0
    ensures RingAfter(n, log + [e]) == RingRecord(RingAfter(n, log), e)
  {
    assert (log + [e])[..|log|] == log;
  }

  /** Each release of a run is recorded in its ring, and nothing else is. */
  ghost predicate RingsFollow(n: nat, steps: seq<Step>, tr: seq<Core>) {
    && n > 0 && |tr| == |steps| + 1 && tr[0].ring == RingAfter(n, [])
    && forall i :: 0 <= i < |steps| ==> RingFollows(steps[i], tr[i].ring, tr[i + 1].ring)
  }

  ghost predicate RingFollows(s: Step, before: Ring, after: Ring) {
    after == if s.ReleaseAt? then RingRecord(before, EventOf(s)) else before
  }

  lemma {:induction false} RingIsLog(n: nat, steps: seq<Step>, tr: seq<Core>, k: nat)
    requires RingsFollow(n, steps, tr) && k <= |steps|
    ensures tr[k].ring == RingAfter(n, EventsOf(steps, k))
  {
    if k > 0 {
      RingIsLog(n, steps, tr, k - 1);
      assert RingFollows(steps[k - 1], tr[k - 1].ring, tr[k].ring);
      if steps[k - 1].ReleaseAt? { RingSnoc(n, EventsOf(steps, k - 1), EventOf(steps[k - 1])); }
    }
  }

  lemma {:induction false} RunRing(c: Config, n: nat, steps: seq<Step>, tr: seq<Core>, k: nat)
    requires IsRun(c, steps, tr) && k <= |steps| && n == WindowSize(c)
    ensures tr[k].ring == RingAfter(n, EventsOf(steps, k))
  {
    forall i: nat | i < |steps| ensures RingFollows(steps[i], tr[i].ring, tr[i + 1].ring) {
      RingAtStep(c, steps, tr, i);
    }
    RingIsLog(n, steps, tr, k);
  }

  lemma {:induction false} EventsInOrder(steps: seq<Step>, k: nat, limit: nat)
    requires k <= |steps| && forall i, j :: 0 <= i < j < |steps| ==> steps[i].now <= steps[j].now
    requires forall i :: 0 <= i < k ==> steps[i].now <= limit
    requires limit < 1000 * 0x1_0000_0000
    ensures Nondecreasing(EventsOf(steps, k)) && UpTo(EventsOf(steps, k), SecondOfClock(limit))
  {
    if k > 0 {
      EventsInOrder(steps, k - 1, steps[k - 1].now);
    }
  }

  /** Right after a call is recorded, the ring covers exactly the n seconds up to its own. */
  lemma WindowOfLastEvent(n: nat, log: seq<Event>, e: Event, m: Measure)
    requires n > 0 && Nondecreasing(log + [e]) && UpTo(log + [e], e.ts)
    ensures StatsValue(Merged(RingAfter(n, log + [e]), e.ts, n), m) == Tally(log + [e], e.ts - n + 1, e.ts, m)
  {
    TallySnoc(log, e, e.ts, e.ts, Total);
    AggregateRefinesLog(n, log + [e], e.ts, m);
  }

  lemma {:induction false} RingAtRelease(c: Config, steps: seq<Step>, tr: seq<Core>, k: nat)
    requires IsRun(c, steps, tr) && k < |steps| && steps[k].ReleaseAt?
    requires 1 <= c.windowSecs <= 64 && steps[k].now < 1000 * 0x1_0000_0000
    ensures tr[k + 1].ring == RingAfter(c.windowSecs, EventsOf(steps, k + 1))
    ensures Nondecreasing(EventsOf(steps, k + 1)) && UpTo(EventsOf(steps, k + 1), EventOf(steps[k]).ts)
  {
    RunRing(c, c.windowSecs, steps, tr, k + 1);
    EventsInOrder(steps, k + 1, steps[k].now);
  }

  /** While the clock fits the ring's 32-bit seconds, every counter and band that a release reads is that of the
      calls completed in exactly the last `windowSecs` seconds of the run, its own call included. */
  lemma {:induction false} DetectorsReadTheLog(c: Config, steps: seq<Step>, tr: seq<Core>, k: nat, m: Measure)
    requires IsRun(c, steps, tr) && k < |steps| && steps[k].ReleaseAt?
    requires 1 <= c.windowSecs <= 64 && steps[k].now < 1000 * 0x1_0000_0000
    ensures var ts := EventOf(steps[k]).ts;
            StatsValue(Merged(tr[k + 1].ring, ts, c.windowSecs), m)
            == Tally(EventsOf(steps, k + 1), ts - c.windowSecs + 1, ts, m)
  {
    var e, log, ring := EventOf(steps[k]), EventsOf(steps, k + 1), tr[k + 1].ring;
    assert ring == RingAfter(c.windowSecs, log) && Nondecreasing(log) && UpTo(log, e.ts) by {
      RingAtRelease(c, steps, tr, k);
    }
    assert |log| > 0 && log[|log| - 1] == e by {
      LastEvent(steps, k);
    }
    LogWindow(c.windowSecs, log, e, ring, m);
  }

  lemma {:induction false} LastEvent(steps: seq<Step>, k: nat)
    requires k < |steps| && steps[k].ReleaseAt?
    ensures var log := EventsOf(steps, k + 1);
            |log| > 0 && log[|log| - 1] == EventOf(steps[k])
  {
  }

  lemma LogWindow(n: nat, log: seq<Event>, e: Event, ring: Ring, m: Measure)
    requires n > 0 && |log| > 0 && log[|log| - 1] == e && ring == RingAfter(n, log)
    requires Nondecreasing(log) && UpTo(log, e.ts)
    ensures StatsValue(Merged(ring, e.ts, n), m) == Tally(log, e.ts - n + 1, e.ts, m)
  {
    assert log == log[..|log| - 1] + [e];
    WindowOfLastEvent(n, log[..|log| - 1], e, m);
  }

  // ---------------------------------------------------------------- what a release reads, in terms of the run

  /** The latencies of the calls released in the seconds lo..hi, within the first k steps. */
  function LatenciesOf(steps: seq<Step>, k: nat, lo: int, hi: int): seq<nat>
    requires k <= |steps|
  {
    if k == 0 then []
    else
      var s, lats := steps[k - 1], LatenciesOf(steps, k - 1, lo, hi);
      if s.ReleaseAt? && lo <= s.now / 1000 <= hi then lats + [s.latencyUs] else lats
  }

  /** How many of them ended in an outcome. */
  function OutcomesOf(steps: seq<Step>, k: nat, lo: int, hi: int, o: Outcome): nat
    requires k <= |steps|
  {
    if k == 0 then 0
    else
      var s := steps[k - 1];
      OutcomesOf(steps, k - 1, lo, hi, o) + if s.ReleaseAt? && s.outcome == o && lo <= s.now / 1000 <= hi then 1 else 0
  }

  lemma {:induction false} LogIsRun(steps: seq<Step>, k: nat, lo: int, hi: int)
    requires k <= |steps| && forall i :: 0 <= i < k ==> steps[i].now < 1000 * 0x1_0000_0000
    ensures LatenciesIn(EventsOf(steps, k), lo, hi) == LatenciesOf(steps, k, lo, hi)
    ensures Tally(EventsOf(steps, k), lo, hi, Errors) == OutcomesOf(steps, k, lo, hi, RedisError)
    ensures Tally(EventsOf(steps, k), lo, hi, Timeouts) == OutcomesOf(steps, k, lo, hi, Timeout)
  {
    if k > 0 {
      LogIsRun(steps, k - 1, lo, hi);
      if steps[k - 1].ReleaseAt? {
        var log, e := EventsOf(steps, k - 1), EventOf(steps[k - 1]);
        assert (log + [e])[..|log|] == log;
        assert e.ts == steps[k - 1].now / 1000;
      }
    }
  }

  /** The statistics a release reads are those of the log. */
  lemma {:induction false} WindowIsLog(
      c: Config, steps: seq<Step>, tr: seq<Core>, k: nat, log: seq<Event>, lo: int, hi: int, stats: WindowStats)
    requires IsRun(c, steps, tr) && k < |steps| && steps[k].ReleaseAt?
    requires 1 <= c.windowSecs <= 64 && steps[k].now < 1000 * 0x1_0000_0000
    requires log == EventsOf(steps, k + 1) && hi == SecondOfClock(steps[k].now) && lo == hi - c.windowSecs + 1
    requires stats == Merged(tr[k + 1].ring, hi, c.windowSecs)
    ensures stats.errors == Tally(log, lo, hi, Errors) && stats.timeouts == Tally(log, lo, hi, Timeouts)
    ensures stats.total == |LatenciesIn(log, lo, hi)| && IsHistogram(Band, stats.hist, LatenciesIn(log, lo, hi))
  {
    forall m: Measure ensures StatsValue(stats, m) == Tally(log, lo, hi, m) {
      DetectorsReadTheLog(c, steps, tr, k, m);
    }
    StatsAreSample(stats, log, lo, hi);
  }

  lemma StatsAreSample(stats: WindowStats, log: seq<Event>, lo: int, hi: int)
    requires forall m: Measure :: StatsValue(stats, m) == Tally(log, lo, hi, m)
    ensures stats.errors == Tally(log, lo, hi, Errors) && stats.timeouts == Tally(log, lo, hi, Timeouts)
    ensures stats.total == |LatenciesIn(log, lo, hi)| && IsHistogram(Band, stats.hist, LatenciesIn(log, lo, hi))
  {
    assert StatsValue(stats, Errors) == Tally(log, lo, hi, Errors);
    assert StatsValue(stats, Timeouts) == Tally(log, lo, hi, Timeouts);
    assert StatsValue(stats, Total) == Tally(log, lo, hi, Total);
    TallyIsLength(log, lo, hi);
    forall b | 0 <= b < 18 ensures stats.hist[b] == Count(Band, LatenciesIn(log, lo, hi), b) {
      assert StatsValue(stats, InBand(b)) == Tally(log, lo, hi, InBand(b));
      TallyIsCount(log, lo, hi, b);
    }
  }

  /** What the health of a window says of a sample. */
  ghost predicate Describes(h: Health, sorted: seq<nat>, errors: nat, timeouts: nat, place: nat) {
    && h.total == |sorted| > 0
    && h.errorRate == errors as real / h.total as real
    && h.timeoutRate == timeouts as real / h.total as real
    && IsNearestRank(sorted, 99, place) && IsLeastBound(sorted[place], h.p99Us)
  }

  lemma HealthDescribes(stats: WindowStats, lats: seq<nat>, sorted: seq<nat>) returns (place: nat)
    requires stats.total == |lats| > 0 && IsHistogram(Band, stats.hist, lats)
    requires Sorted(sorted) && multiset(sorted) == multiset(lats)
    ensures Describes(HealthOf(stats), sorted, stats.errors, stats.timeouts, place)
  {
    assert |multiset(sorted)| == |multiset(lats)|;
    place := PercentileOfSample(stats, lats, sorted, 99);
  }

  lemma {:induction false} HealthOfRelease(c: Config, steps: seq<Step>, tr: seq<Core>, k: nat)
    requires IsRun(c, steps, tr) && k < |steps| && steps[k].ReleaseAt?
    ensures steps[k].health == HealthOf(Merged(tr[k + 1].ring, SecondOfClock(steps[k].now), c.windowSecs))
  {
    assert StepAt(c, steps, tr, k);
    HealthIsRead(c, tr[k], steps[k], tr[k + 1]);
  }

  lemma {:induction false} OwnCallCounts(steps: seq<Step>, k: nat, windowSecs: nat)
    requires k < |steps| && steps[k].ReleaseAt? && windowSecs >= 1
    ensures var s := steps[k].now / 1000;
            |LatenciesOf(steps, k + 1, s - windowSecs + 1, s)| > 0
  {
  }

  lemma ClockSecond(ms: nat)
    requires ms < 1000 * 0x1_0000_0000
    ensures SecondOfClock(ms) == ms / 1000
  {
  }

  /** The statistics a release reads are those of the run. */
  lemma {:induction false} WindowOfRun(c: Config, steps: seq<Step>, tr: seq<Core>, k: nat, lo: int, hi: int)
    returns (stats: WindowStats)
    requires IsRun(c, steps, tr) && k < |steps| && steps[k].ReleaseAt?
    requires 1 <= c.windowSecs <= 64 && steps[k].now < 1000 * 0x1_0000_0000
    requires hi == steps[k].now / 1000 && lo == hi - c.windowSecs + 1
    ensures steps[k].health == HealthOf(stats)
    ensures stats.errors == OutcomesOf(steps, k + 1, lo, hi, RedisError)
    ensures stats.timeouts == OutcomesOf(steps, k + 1, lo, hi, Timeout)
    ensures stats.total == |LatenciesOf(steps, k + 1, lo, hi)|
    ensures IsHistogram(Band, stats.hist, LatenciesOf(steps, k + 1, lo, hi))
  {
    stats := Merged(tr[k + 1].ring, SecondOfClock(steps[k].now), c.windowSecs);
    HealthOfRelease(c, steps, tr, k);
    ClockSecond(steps[k].now);
    WindowIsLog(c, steps, tr, k, EventsOf(steps, k + 1), lo, hi, stats);
    ClockBound(c, steps, tr, k);
    LogIsRun(steps, k + 1, lo, hi);
  }

  lemma {:induction false} ClockBound(c: Config, steps: seq<Step>, tr: seq<Core>, k: nat)
    requires IsRun(c, steps, tr) && k < |steps|
    ensures forall i :: 0 <= i < k + 1 ==> steps[i].now <= steps[k].now
  {
  }

  /** What a release acts on, in terms of the run alone: of the calls released in the last `windowSecs` seconds, its own
      included, their number, the shares that ended in an error and in a timeout, and the least band bound of their exact
      99th percentile. */
  lemma {:induction false} ReleaseReadsTheRun(
      c: Config, steps: seq<Step>, tr: seq<Core>, k: nat, lo: int, hi: int, sorted: seq<nat>)
    returns (place: nat)
    requires IsRun(c, steps, tr) && k < |steps| && steps[k].ReleaseAt?
    requires 1 <= c.windowSecs <= 64 && steps[k].now < 1000 * 0x1_0000_0000
    requires hi == steps[k].now / 1000 && lo == hi - c.windowSecs + 1
    requires Sorted(sorted) && multiset(sorted) == multiset(LatenciesOf(steps, k + 1, lo, hi))
    ensures Describes(steps[k].health, sorted, OutcomesOf(steps, k + 1, lo, hi, RedisError),
                      OutcomesOf(steps, k + 1, lo, hi, Timeout), place)
  {
    var stats := WindowOfRun(c, steps, tr, k, lo, hi);
    OwnCallCounts(steps, k, c.windowSecs);
    place := HealthDescribes(stats, LatenciesOf(steps, k + 1, lo, hi), sorted);
  }
}
