/** The circuit breaker with every atomic operation as a step of its own. Threads interleave freely between any two
    operations, so every shared word moves under a thread's feet. A clock reading is a step too, and its value, like the
    outcome of a call and what the window statistics say of it, is a choice of the schedule. */
module BreakerInterleaving {
  import opened RollingWindow
  import opened CircuitBreaker
  import opened Threads

  /** Where a thread stands in `acquire`, in its call, or in `release`; `now` is the clock reading it carries. */
  datatype Pc =
    | Idle
    | ReadClosed                            // loaded CLOSED; next: fetch_add on inflight
    | UndoClosed                            // over the limit; next: fetch_sub on inflight
    | ReadOpen                              // loaded OPEN; next: read the clock
    | LoadOpened(now: nat)
    | LoadCooldown(now: nat, since: nat)   // next: load the cooldown and compare
    | TryHalfOpen(now: nat)                 // cooldown over; next: CAS OPEN -> HALF_OPEN
    | ResetProbes(now: nat)                 // won the CAS; next: store 0 in the probe counter
    | StoreStarted(now: nat)
    | CountHalfOpen
    | Recheck                               // lost the CAS; next: load the state again
    | ReadHalfOpen                          // next: read the clock
    | LoadStarted(now: nat)                 // next: load the start of the episode and compare
    | TryReopen(now: nat)                   // deadline over; next: CAS HALF_OPEN -> OPEN
    | StoreReopened(now: nat)
    | StoreRecooled
    | CountReopen
    | TakeProbe                             // next: fetch_add on the probe counter
    | UndoProbe                             // next: fetch_sub on the probe counter
    | AddProbeCall                          // next: fetch_add on inflight
    | UndoProbeCall                         // over the limit; next: fetch_sub on inflight
    | CountRejected
    | Running                               // admitted; next: release begins with fetch_sub on inflight
    | CountRequest
    | Settling                              // next: the state change of release, if any
    | StoreOpened
    | StoreCooldown
    | CountTrip

  /** The shared words; and, as history, the number of `acquire` calls begun and the probes admitted since HALF_OPEN was
      last entered. */
  datatype Shared = Shared(
    state: State, openedAt: nat, cooldown: nat, startedAt: nat, probes: nat, inflight: int,
    openTotal: nat, halfOpenTotal: nat, requestsTotal: nat, rejectedTotal: nat,
    calls: nat, admitted: nat)

  datatype Sys = Sys(sh: Shared, pcs: map<nat, Pc>)

  /** What a release may do to the state. */
  datatype Act = Stay | Trip | Close

  /** What a schedule chooses at a thread's turn: the clock, the jitter seed, and the effect of a release. */
  datatype Choice = Choice(now: nat, seed: nat, act: Act)

  const U32: nat := 0x1_0000_0000

  const START := Shared(Closed, 0, 0, 0, 0, 0, 0, 0, 0, 0, 0, 0)

  function Start(threads: set<nat>): Sys {
    Sys(START, map t | t in threads :: Idle)
  }

  /** One atomic operation of a thread at pc. */
  function Op(c: Config, s: Shared, pc: Pc, choice: Choice): (Shared, Pc) {
    match pc
    case Idle =>
      (s.(calls := s.calls + 1),
       match s.state case Closed => ReadClosed case Open => ReadOpen case HalfOpen => ReadHalfOpen)
    case ReadClosed =>
      (s.(inflight := s.inflight + 1), if s.inflight >= c.maxInflight then UndoClosed else Running)
    case UndoClosed => (s.(inflight := s.inflight - 1), CountRejected)
    case ReadOpen => (s, LoadOpened(choice.now))
    case LoadOpened(now) => (s, LoadCooldown(now, s.openedAt))
    case LoadCooldown(now, since) =>
      (s, if SaturatingSub(now, since) >= s.cooldown then TryHalfOpen(now) else CountRejected)
    case TryHalfOpen(now) =>
      if s.state == Open then (s.(state := HalfOpen, admitted := 0), ResetProbes(now)) else (s, Recheck)
    case ResetProbes(now) => (s.(probes := 0), StoreStarted(now))
    case StoreStarted(now) => (s.(startedAt := now), CountHalfOpen)
    case CountHalfOpen => (s.(halfOpenTotal := s.halfOpenTotal + 1), ReadHalfOpen)
    case Recheck => (s, if s.state == Open then CountRejected else ReadHalfOpen)
    case ReadHalfOpen => (s, LoadStarted(choice.now))
    case LoadStarted(now) =>
      (s, if SaturatingSub(now, s.startedAt) >= c.halfOpenMaxMs then TryReopen(now) else TakeProbe)
    case TryReopen(now) =>
      if s.state == HalfOpen then (s.(state := Open), StoreReopened(now)) else (s, CountRejected)
    case StoreReopened(now) => (s.(openedAt := now), StoreRecooled)
    case StoreRecooled => (s.(cooldown := JitteredCooldown(c, choice.seed)), CountReopen)
    case CountReopen => (s.(openTotal := s.openTotal + 1), CountRejected)
    case TakeProbe =>
      (s.(probes := (s.probes + 1) % U32), if s.probes >= c.halfOpenProbes then UndoProbe else AddProbeCall)
    case UndoProbe => (s.(probes := (s.probes + U32 - 1) % U32), CountRejected)
    case AddProbeCall =>
      if s.inflight >= c.halfOpenProbes then (s.(inflight := s.inflight + 1), UndoProbeCall)
      else (s.(inflight := s.inflight + 1, admitted := s.admitted + 1), Running)
    case UndoProbeCall => (s.(inflight := s.inflight - 1), UndoProbe)
    case CountRejected => (s.(rejectedTotal := s.rejectedTotal + 1), Idle)
    case Running => (s.(inflight := s.inflight - 1), CountRequest)
    case CountRequest => (s.(requestsTotal := s.requestsTotal + 1), Settling)
    case Settling =>
      if choice.act == Trip && s.state != Open then (s.(state := Open), StoreOpened)
      else if choice.act == Close && s.state == HalfOpen then (s.(state := Closed), Idle)
      else (s, Idle)
    case StoreOpened => (s.(openedAt := choice.now), StoreCooldown)
    case StoreCooldown => (s.(cooldown := JitteredCooldown(c, choice.seed)), CountTrip)
    case CountTrip => (s.(openTotal := s.openTotal + 1), Idle)
  }

  function Step(c: Config, s: Sys, t: nat, choice: Choice): Sys
    requires t in s.pcs
  {
    var (sh, pc) := Op(c, s.sh, s.pcs[t], choice);
    Sys(sh, s.pcs[t := pc])
  }

  type Schedule = seq<(nat, Choice)>

  ghost predicate Scheduled(threads: set<nat>, sched: Schedule) {
    forall i :: 0 <= i < |sched| ==> sched[i].0 in threads
  }

  /** The system after a schedule, from all threads idle. */
  function Run(c: Config, threads: set<nat>, sched: Schedule): (s: Sys)
    requires Scheduled(threads, sched)
    ensures s.pcs.Keys == threads
  {
    if |sched| == 0 then Start(threads)
    else
      var s := Run(c, threads, sched[..|sched| - 1]);
      Step(c, s, sched[|sched| - 1].0, sched[|sched| - 1].1)
  }

  /** Threads that hold one unit of the gauge: running calls, and adds that are about to be undone. */
  predicate HoldsUnit(pc: Pc) {
    pc == Running || pc == UndoClosed || pc == UndoProbeCall
  }

  predicate IsRunning(pc: Pc) {
    pc == Running
  }

  /** Calls that are neither counted as a request nor as a rejection yet. */
  predicate Uncounted(pc: Pc) {
    !(pc.Idle? || pc.Settling? || pc.StoreOpened? || pc.StoreCooldown? || pc.CountTrip?)
  }

  ghost predicate Conserved(s: Sys) {
    && s.sh.inflight == CountIf(s.pcs, HoldsUnit)
    && s.sh.calls == s.sh.requestsTotal + s.sh.rejectedTotal + CountIf(s.pcs, Uncounted)
  }

  /** An operation moves the counters by what its change of program counter means. */
  lemma OpDelta(c: Config, s: Shared, pc: Pc, choice: Choice)
    ensures var (n, q) := Op(c, s, pc, choice);
            && n.inflight - s.inflight == (if HoldsUnit(q) then 1 else 0) - (if HoldsUnit(pc) then 1 else 0)
            && (n.calls - n.requestsTotal - n.rejectedTotal) - (s.calls - s.requestsTotal - s.rejectedTotal)
               == (if Uncounted(q) then 1 else 0) - (if Uncounted(pc) then 1 else 0)
  {
  }

  lemma StepConserves(c: Config, s: Sys, t: nat, choice: Choice)
    requires t in s.pcs && Conserved(s)
    ensures Conserved(Step(c, s, t, choice))
  {
    var q := Op(c, s.sh, s.pcs[t], choice).1;
    OpDelta(c, s.sh, s.pcs[t], choice);
    CountMove(s.pcs, t, q, HoldsUnit);
    CountMove(s.pcs, t, q, Uncounted);
  }

  lemma {:induction false} RunConserves(c: Config, threads: set<nat>, sched: Schedule)
    requires Scheduled(threads, sched)
    ensures Conserved(Run(c, threads, sched))
  {
    if |sched| == 0 {
      CountNone(Start(threads).pcs, HoldsUnit);
      CountNone(Start(threads).pcs, Uncounted);
    } else {
      RunConserves(c, threads, sched[..|sched| - 1]);
      var s := Run(c, threads, sched[..|sched| - 1]);
      StepConserves(c, s, sched[|sched| - 1].0, sched[|sched| - 1].1);
    }
  }

  /** In-flight conservation under every interleaving: the gauge is the number of running calls plus the threads
      between an add and its undo, so it is never negative; and once every thread is idle again it is back to zero
      and every call has been counted exactly once, as a request or as a rejection. */
  lemma InflightConservation(c: Config, threads: set<nat>, sched: Schedule)
    requires Scheduled(threads, sched)
    ensures var s := Run(c, threads, sched);
            && s.sh.inflight == CountIf(s.pcs, HoldsUnit)
            && 0 <= CountIf(s.pcs, IsRunning) <= s.sh.inflight
            && ((forall t :: t in threads ==> s.pcs[t] == Idle) ==>
                  s.sh.inflight == 0 && s.sh.calls == s.sh.requestsTotal + s.sh.rejectedTotal)
  {
    var s := Run(c, threads, sched);
    RunConserves(c, threads, sched);
    CountMonotone(s.pcs, IsRunning, HoldsUnit);
    if forall t :: t in threads ==> s.pcs[t] == Idle {
      CountNone(s.pcs, HoldsUnit);
      CountNone(s.pcs, Uncounted);
    }
  }

  /** Each admission leaves no more running calls than the limit it was checked against, whatever the other threads
      were doing between its load of the state and its add. */
  lemma AdmissionBound(c: Config, threads: set<nat>, sched: Schedule, t: nat, choice: Choice)
    requires Scheduled(threads, sched) && t in threads
    ensures var s := Run(c, threads, sched);
            var n := Step(c, s, t, choice);
            && (s.pcs[t] != Running && n.pcs[t] == Running ==> s.pcs[t] == ReadClosed || s.pcs[t] == AddProbeCall)
            && (s.pcs[t] == ReadClosed && n.pcs[t] == Running ==> CountIf(n.pcs, IsRunning) <= c.maxInflight)
            && (s.pcs[t] == AddProbeCall && n.pcs[t] == Running ==> CountIf(n.pcs, IsRunning) <= c.halfOpenProbes)
  {
    var s := Run(c, threads, sched);
    RunConserves(c, threads, sched);
    StepConserves(c, s, t, choice);
    CountMonotone(Step(c, s, t, choice).pcs, IsRunning, HoldsUnit);
  }

  // ---------------------------------------------------------------- the probe budget

  /** Between an add to the probe counter and the call it admits or its undo. */
  predicate InProbe(pc: Pc) {
    pc.AddProbeCall? || pc.UndoProbe? || pc.UndoProbeCall?
  }

  predicate Adding(pc: Pc) {
    pc.AddProbeCall?
  }

  /** The probe counter is exact: the probes admitted in this episode, and the adds not settled yet. */
  ghost predicate Exact(s: Sys) {
    s.sh.probes == s.sh.admitted + CountIf(s.pcs, InProbe)
  }

  /** Whether an operation enters HALF_OPEN. */
  predicate Enters(s: Shared, pc: Pc) {
    pc.TryHalfOpen? && s.state == Open
  }

  /** The probes that the counter has forgotten: a reset forgets those admitted in this episode before it and the adds not
      settled yet; a new episode owes nothing for the probes of the one before. */
  ghost function Forgotten(c: Config, threads: set<nat>, sched: Schedule): int
    requires Scheduled(threads, sched)
  {
    if |sched| == 0 then 0
    else
      var rest := sched[..|sched| - 1];
      var s := Run(c, threads, rest);
      ForgottenAfter(s, sched[|sched| - 1].0, Forgotten(c, threads, rest))
  }

  ghost function ForgottenAfter(s: Sys, t: nat, f: int): int
    requires t in s.pcs
  {
    if s.pcs[t].ResetProbes? then s.sh.admitted + CountIf(s.pcs, InProbe)
    else if Enters(s.sh, s.pcs[t]) then f - s.sh.admitted
    else f
  }

  ghost predicate ProbesAccounted(c: Config, s: Sys, f: int, threads: nat) {
    && s.sh.probes == (s.sh.admitted + CountIf(s.pcs, InProbe) - f) % U32
    && s.sh.admitted + CountIf(s.pcs, Adding) <= c.halfOpenProbes + f
    && f <= s.sh.admitted + threads
  }

  /** Any operation but an entry and a reset moves the counter and its meaning alike, modulo the width of the word. */
  lemma OpMovesProbes(c: Config, s: Shared, pc: Pc, choice: Choice)
    requires !Enters(s, pc) && !pc.ResetProbes? && s.probes < U32
    ensures var (n, q) := Op(c, s, pc, choice);
            var settled := n.admitted - s.admitted;
            var unsettled := (if InProbe(q) then 1 else 0) - (if InProbe(pc) then 1 else 0);
            && n.probes == (s.probes + settled + unsettled) % U32
            && 0 <= settled <= 1
            && settled + (if Adding(q) then 1 else 0) - (if Adding(pc) then 1 else 0)
               <= (if pc.TakeProbe? && s.probes < c.halfOpenProbes then 1 else 0)
  {
  }

  lemma CountAtMost(pcs: map<nat, Pc>, p: Pc -> bool, threads: set<nat>)
    requires pcs.Keys == threads
    ensures CountIf(pcs, p) <= |threads|
  {
    SubsetSize(Where(pcs, p), threads);
  }

  /** A probe that is let through finds room in the accounts, not only in the word. */
  lemma RoomIsReal(c: Config, x: int, f: int, adding: nat, inProbe: nat, admitted: nat, threads: nat)
    requires x == admitted + inProbe - f && x % U32 < c.halfOpenProbes && adding <= inProbe <= threads
    requires admitted + adding <= c.halfOpenProbes + f && f <= admitted + threads
    requires threads + c.halfOpenProbes < U32
    ensures admitted + adding + 1 <= c.halfOpenProbes + f
  {
    ModRange(x);
  }

  lemma ModRange(x: int)
    requires 0 < x + U32 && x < U32
    ensures x % U32 == if x < 0 then x + U32 else x
  {
  }

  lemma StepAccounts(c: Config, threads: set<nat>, s: Sys, t: nat, choice: Choice, f: int)
    requires s.pcs.Keys == threads && t in threads && |threads| + c.halfOpenProbes < U32
    requires ProbesAccounted(c, s, f, |threads|)
    ensures ProbesAccounted(c, Step(c, s, t, choice), ForgottenAfter(s, t, f), |threads|)
  {
    var n := Step(c, s, t, choice);
    var pc, q := s.pcs[t], n.pcs[t];
    CountMove(s.pcs, t, q, InProbe);
    CountMove(s.pcs, t, q, Adding);
    CountMonotone(s.pcs, Adding, InProbe);
    CountAtMost(s.pcs, InProbe, threads);
    if !Enters(s.sh, pc) && !pc.ResetProbes? {
      OpAccounts(c, s.sh, pc, choice, f, CountIf(s.pcs, InProbe), CountIf(s.pcs, Adding), |threads|);
    }
  }

  lemma OpAccounts(
      c: Config, s: Shared, pc: Pc, choice: Choice, f: int, inProbe: nat, adding: nat, threads: nat)
    requires !Enters(s, pc) && !pc.ResetProbes? && adding <= inProbe <= threads && threads + c.halfOpenProbes < U32
    requires s.probes == (s.admitted + inProbe - f) % U32
    requires s.admitted + adding <= c.halfOpenProbes + f && f <= s.admitted + threads
    ensures var (n, q) := Op(c, s, pc, choice);
            && n.probes
               == (n.admitted + inProbe + (if InProbe(q) then 1 else 0) - (if InProbe(pc) then 1 else 0) - f) % U32
            && n.admitted + adding + (if Adding(q) then 1 else 0) - (if Adding(pc) then 1 else 0) <= c.halfOpenProbes + f
            && f <= n.admitted + threads
  {
    OpMovesProbes(c, s, pc, choice);
    var (n, q) := Op(c, s, pc, choice);
    var x := s.admitted + inProbe - f;
    ModShift(x, n.admitted - s.admitted + (if InProbe(q) then 1 else 0) - (if InProbe(pc) then 1 else 0));
    if pc.TakeProbe? && s.probes < c.halfOpenProbes {
      RoomIsReal(c, x, f, adding, inProbe, s.admitted, threads);
    }
  }

  lemma ModShift(x: int, d: int)
    ensures (x % U32 + d) % U32 == (x + d) % U32
  {
  }

  /** A run and its forgotten probes, by the last step. */
  lemma {:induction false} LastStep(c: Config, threads: set<nat>, sched: Schedule)
    requires Scheduled(threads, sched) && |sched| > 0
    ensures var rest := sched[..|sched| - 1];
            var (t, choice) := sched[|sched| - 1];
            var s := Run(c, threads, rest);
            && Scheduled(threads, rest) && t in threads && s.pcs.Keys == threads
            && Run(c, threads, sched) == Step(c, s, t, choice)
            && Forgotten(c, threads, sched) == ForgottenAfter(s, t, Forgotten(c, threads, rest))
  {
  }

  lemma {:induction false} RunAccounts(c: Config, threads: set<nat>, sched: Schedule)
    requires Scheduled(threads, sched) && |threads| + c.halfOpenProbes < U32
    ensures ProbesAccounted(c, Run(c, threads, sched), Forgotten(c, threads, sched), |threads|)
  {
    if |sched| == 0 {
      CountNone(Start(threads).pcs, InProbe);
      CountNone(Start(threads).pcs, Adding);
    } else {
      LastStep(c, threads, sched);
      var rest := sched[..|sched| - 1];
      RunAccounts(c, threads, rest);
      StepAccounts(c, threads, Run(c, threads, rest), sched[|sched| - 1].0, sched[|sched| - 1].1, Forgotten(c, threads, rest));
    }
  }

  lemma ExactWhenNoneForgotten(c: Config, s: Sys, threads: set<nat>)
    requires ProbesAccounted(c, s, 0, |threads|) && s.pcs.Keys == threads && |threads| + c.halfOpenProbes < U32
    ensures Exact(s)
  {
    CountAtMost(s.pcs, InProbe, threads);
    ModRange(s.sh.admitted + CountIf(s.pcs, InProbe));
  }

  /** The accounts of the probe budget, in every run and under every interleaving. The counter is the probes admitted in this
      episode and the adds not settled yet, less the forgotten ones, modulo the width of the word; and the probes admitted
      exceed the budget by no more than the forgotten ones. */
  lemma {:induction false} ProbeAccounting(c: Config, threads: set<nat>, sched: Schedule)
    requires Scheduled(threads, sched) && |threads| + c.halfOpenProbes < U32
    ensures var s := Run(c, threads, sched);
            var forgotten := Forgotten(c, threads, sched);
            && s.sh.probes == (s.sh.admitted + CountIf(s.pcs, InProbe) - forgotten) % U32
            && s.sh.admitted + CountIf(s.pcs, Adding) <= c.halfOpenProbes + forgotten
            && (forgotten == 0 ==> Exact(s))
  {
    RunAccounts(c, threads, sched);
    if Forgotten(c, threads, sched) == 0 {
      ExactWhenNoneForgotten(c, Run(c, threads, sched), threads);
    }
  }

  /** Whether step k of a schedule is no reset, or one that forgets nothing. */
  ghost predicate ForgetsNothing(c: Config, threads: set<nat>, sched: Schedule, k: nat)
    requires Scheduled(threads, sched) && k < |sched|
  {
    var s := Run(c, threads, sched[..k]);
    s.pcs[sched[k].0].ResetProbes? ==> s.sh.admitted == 0 && CountIf(s.pcs, InProbe) == 0
  }

  lemma {:induction false} StepForgetsNothing(c: Config, threads: set<nat>, sched: Schedule)
    requires Scheduled(threads, sched) && |sched| > 0 && Scheduled(threads, sched[..|sched| - 1])
    requires Forgotten(c, threads, sched[..|sched| - 1]) <= 0 && ForgetsNothing(c, threads, sched, |sched| - 1)
    ensures Forgotten(c, threads, sched) <= 0
  {
    LastStep(c, threads, sched);
  }

  lemma {:induction false} NothingForgotten(c: Config, threads: set<nat>, sched: Schedule, from: nat)
    requires Scheduled(threads, sched) && from <= |sched|
    requires Forgotten(c, threads, sched[..from]) <= 0
    requires forall k :: from <= k < |sched| ==> ForgetsNothing(c, threads, sched, k)
    ensures Forgotten(c, threads, sched) <= 0
    decreases |sched|
  {
    if from == |sched| {
      assert sched[..from] == sched;
    } else {
      var rest := sched[..|sched| - 1];
      assert rest[..from] == sched[..from];
      forall k | from <= k < |rest| ensures ForgetsNothing(c, threads, rest, k) {
        PrefixForgets(c, threads, sched, k);
      }
      NothingForgotten(c, threads, rest, from);
      StepForgetsNothing(c, threads, sched);
    }
  }

  lemma {:induction false} PrefixForgets(c: Config, threads: set<nat>, sched: Schedule, k: nat)
    requires Scheduled(threads, sched) && k < |sched| - 1 && ForgetsNothing(c, threads, sched, k)
    ensures ForgetsNothing(c, threads, sched[..|sched| - 1], k)
  {
    assert sched[..|sched| - 1][..k] == sched[..k];
  }

  /** The budget holds whenever nothing is forgotten; and nothing is, from any point of a run on at which nothing is, as long
      as the resets after it forget nothing. What happened before that point does not matter. */
  lemma {:induction false} BudgetIfUndisturbed(c: Config, threads: set<nat>, sched: Schedule, from: nat)
    requires Scheduled(threads, sched) && from <= |sched| && |threads| + c.halfOpenProbes < U32
    requires Forgotten(c, threads, sched[..from]) <= 0
    requires forall k :: from <= k < |sched| ==> ForgetsNothing(c, threads, sched, k)
    ensures Forgotten(c, threads, sched) <= 0
    ensures Run(c, threads, sched).sh.admitted <= c.halfOpenProbes
  {
    NothingForgotten(c, threads, sched, from);
    ProbeAccounting(c, threads, sched);
  }

  /** A reset leaves the counter exact if and only if it forgets nothing. */
  lemma ResetIsExactIff(c: Config, s: Sys, t: nat, choice: Choice)
    requires t in s.pcs && s.pcs[t].ResetProbes?
    ensures Exact(Step(c, s, t, choice)) <==> s.sh.admitted == 0 && CountIf(s.pcs, InProbe) == 0
  {
    CountMove(s.pcs, t, Step(c, s, t, choice).pcs[t], InProbe);
  }

  // ---------------------------------------------------------------- runs under a clock

  /** The readings of a schedule never go back, and none is after `at`. */
  ghost predicate Clocked(sched: Schedule, at: nat) {
    && (forall i, j :: 0 <= i < j < |sched| ==> sched[i].1.now <= sched[j].1.now)
    && (forall i :: 0 <= i < |sched| ==> sched[i].1.now <= at)
  }

  ghost predicate Reachable(c: Config, threads: set<nat>, s: Sys, at: nat) {
    exists sched :: Scheduled(threads, sched) && Clocked(sched, at) && Run(c, threads, sched) == s
  }

  /** Reachability, as far as the runs below need it: it is kept by every step, and as time passes. */
  ghost predicate ClosedUnderSteps(c: Config, reach: (Sys, nat) -> bool) {
    && (forall s: Sys, t: nat, choice: Choice, at: nat {:trigger reach(s, at), Step(c, s, t, choice)} ::
          reach(s, at) && t in s.pcs && at <= choice.now ==> reach(Step(c, s, t, choice), choice.now))
    && (forall s: Sys, at: nat, later: nat :: reach(s, at) && at <= later ==> reach(s, later))
  }

  lemma ReachableIsClosed(c: Config, threads: set<nat>)
    ensures Reachable(c, threads, Start(threads), 0)
    ensures ClosedUnderSteps(c, (s: Sys, at: nat) => Reachable(c, threads, s, at))
  {
    assert Scheduled(threads, []) && Clocked([], 0) && Run(c, threads, []) == Start(threads);
    forall s: Sys, t: nat, choice: Choice, at: nat {:trigger Reachable(c, threads, s, at), Step(c, s, t, choice)}
      | Reachable(c, threads, s, at) && t in s.pcs && at <= choice.now
      ensures Reachable(c, threads, Step(c, s, t, choice), choice.now)
    {
      var sched :| Scheduled(threads, sched) && Clocked(sched, at) && Run(c, threads, sched) == s;
      var more := sched + [(t, choice)];
      assert more[..|more| - 1] == sched;
      assert Scheduled(threads, more) && Clocked(more, choice.now) && Run(c, threads, more) == Step(c, s, t, choice);
    }
    forall s: Sys, at: nat, later: nat | Reachable(c, threads, s, at) && at <= later ensures Reachable(c, threads, s, later) {
      var sched :| Scheduled(threads, sched) && Clocked(sched, at) && Run(c, threads, sched) == s;
      assert Clocked(sched, later);
    }
  }

  /** What one thread alone, at one moment, can make of the shared words and its own position. */
  ghost predicate ClosedAlone(c: Config, alone: (Shared, Pc) -> bool, choice: Choice) {
    forall s: Shared, pc: Pc :: alone(s, pc) ==> alone(Op(c, s, pc, choice).0, Op(c, s, pc, choice).1)
  }

  /** Reachable states that differ in the shared words and in the position of thread t. */
  ghost function Alone(reach: (Sys, nat) -> bool, pcs: map<nat, Pc>, t: nat, at: nat): (Shared, Pc) -> bool {
    (s: Shared, pc: Pc) => reach(Sys(s, pcs[t := pc]), at)
  }

  lemma AloneIsClosed(c: Config, reach: (Sys, nat) -> bool, s: Shared, pcs: map<nat, Pc>, t: nat, at: nat, choice: Choice)
    requires ClosedUnderSteps(c, reach) && reach(Sys(s, pcs), at) && t in pcs && at <= choice.now
    ensures ClosedAlone(c, Alone(reach, pcs, t, choice.now), choice)
    ensures Alone(reach, pcs, t, choice.now)(s, pcs[t])
  {
    var alone := Alone(reach, pcs, t, choice.now);
    assert pcs[t := pcs[t]] == pcs;
    forall s: Shared, pc: Pc | alone(s, pc) ensures alone(Op(c, s, pc, choice).0, Op(c, s, pc, choice).1) {
      var (m, q) := Op(c, s, pc, choice);
      assert pcs[t := pc][t := q] == pcs[t := q];
      assert Step(c, Sys(s, pcs[t := pc]), t, choice) == Sys(m, pcs[t := q]);
    }
  }

  /** One operation. */
  lemma Hop(c: Config, alone: (Shared, Pc) -> bool, s: Shared, pc: Pc, choice: Choice, m: Shared, q: Pc)
    requires ClosedAlone(c, alone, choice) && alone(s, pc) && Op(c, s, pc, choice) == (m, q)
    ensures alone(m, q)
  {
  }

  // ---------------------------------------------------------------- what one thread does alone

  /** A call in CLOSED is admitted. */
  lemma Admit(c: Config, alone: (Shared, Pc) -> bool, s: Shared, choice: Choice)
    requires ClosedAlone(c, alone, choice) && alone(s, Idle) && s.state == Closed && s.inflight < c.maxInflight
    ensures alone(s.(calls := s.calls + 1, inflight := s.inflight + 1), Running)
  {
    Hop(c, alone, s, Idle, choice, s.(calls := s.calls + 1), ReadClosed);
    Hop(c, alone, s.(calls := s.calls + 1), ReadClosed, choice,
        s.(calls := s.calls + 1, inflight := s.inflight + 1), Running);
  }

  /** A running call is counted as a request. */
  lemma End(c: Config, alone: (Shared, Pc) -> bool, s: Shared, choice: Choice)
    requires ClosedAlone(c, alone, choice) && alone(s, Running)
    ensures alone(s.(inflight := s.inflight - 1, requestsTotal := s.requestsTotal + 1), Settling)
  {
    var a := s.(inflight := s.inflight - 1);
    Hop(c, alone, s, Running, choice, a, CountRequest);
    Hop(c, alone, a, CountRequest, choice, a.(requestsTotal := a.requestsTotal + 1), Settling);
  }

  /** The words after a call that tripped the circuit. */
  function Tripped(c: Config, s: Shared, now: nat): Shared {
    s.(inflight := s.inflight - 1, requestsTotal := s.requestsTotal + 1, state := Open, openedAt := now,
       cooldown := JitteredCooldown(c, 0), openTotal := s.openTotal + 1)
  }

  /** A running call ends by tripping the circuit. */
  lemma EndInTrip(c: Config, alone: (Shared, Pc) -> bool, s: Shared, now: nat)
    requires ClosedAlone(c, alone, Choice(now, 0, Trip)) && alone(s, Running) && s.state != Open
    ensures alone(Tripped(c, s, now), Idle)
  {
    var choice := Choice(now, 0, Trip);
    var a := s.(inflight := s.inflight - 1, requestsTotal := s.requestsTotal + 1);
    End(c, alone, s, choice);
    Hop(c, alone, a, Settling, choice, a.(state := Open), StoreOpened);
    var b := a.(state := Open, openedAt := now);
    Hop(c, alone, a.(state := Open), StoreOpened, choice, b, StoreCooldown);
    StoreAndCount(c, alone, b, choice);
  }

  lemma StoreAndCount(c: Config, alone: (Shared, Pc) -> bool, s: Shared, choice: Choice)
    requires ClosedAlone(c, alone, choice) && alone(s, StoreCooldown)
    ensures alone(s.(cooldown := JitteredCooldown(c, choice.seed), openTotal := s.openTotal + 1), Idle)
  {
    var a := s.(cooldown := JitteredCooldown(c, choice.seed));
    Hop(c, alone, s, StoreCooldown, choice, a, CountTrip);
    Hop(c, alone, a, CountTrip, choice, a.(openTotal := a.openTotal + 1), Idle);
  }

  /** Past the cooldown a thread enters HALF_OPEN; the reset of the probe counter is its next operation. */
  lemma Enter(c: Config, alone: (Shared, Pc) -> bool, s: Shared, now: nat)
    requires ClosedAlone(c, alone, Choice(now, 0, Stay)) && alone(s, Idle)
    requires s.state == Open && SaturatingSub(now, s.openedAt) >= s.cooldown
    ensures alone(s.(calls := s.calls + 1, state := HalfOpen, admitted := 0), ResetProbes(now))
  {
    var choice := Choice(now, 0, Stay);
    var a := s.(calls := s.calls + 1);
    Hop(c, alone, s, Idle, choice, a, ReadOpen);
    Hop(c, alone, a, ReadOpen, choice, a, LoadOpened(now));
    Hop(c, alone, a, LoadOpened(now), choice, a, LoadCooldown(now, a.openedAt));
    Hop(c, alone, a, LoadCooldown(now, a.openedAt), choice, a, TryHalfOpen(now));
    Hop(c, alone, a, TryHalfOpen(now), choice, a.(state := HalfOpen, admitted := 0), ResetProbes(now));
  }

  /** The reset, the start of the episode and its count. */
  lemma Reset(c: Config, alone: (Shared, Pc) -> bool, s: Shared, now: nat)
    requires ClosedAlone(c, alone, Choice(now, 0, Stay)) && alone(s, ResetProbes(now))
    ensures alone(s.(probes := 0, startedAt := now, halfOpenTotal := s.halfOpenTotal + 1), ReadHalfOpen)
  {
    var choice := Choice(now, 0, Stay);
    var a := s.(probes := 0, startedAt := now);
    Hop(c, alone, s, ResetProbes(now), choice, s.(probes := 0), StoreStarted(now));
    Hop(c, alone, s.(probes := 0), StoreStarted(now), choice, a, CountHalfOpen);
    Hop(c, alone, a, CountHalfOpen, choice, a.(halfOpenTotal := a.halfOpenTotal + 1), ReadHalfOpen);
  }

  /** A probe is admitted. */
  lemma Probe(c: Config, alone: (Shared, Pc) -> bool, s: Shared, now: nat)
    requires ClosedAlone(c, alone, Choice(now, 0, Stay)) && alone(s, ReadHalfOpen)
    requires SaturatingSub(now, s.startedAt) < c.halfOpenMaxMs
    requires s.probes < c.halfOpenProbes < U32 - 1 && s.inflight < c.halfOpenProbes
    ensures alone(s.(probes := s.probes + 1, inflight := s.inflight + 1, admitted := s.admitted + 1), Running)
  {
    var choice := Choice(now, 0, Stay);
    var a := s.(probes := s.probes + 1);
    Hop(c, alone, s, ReadHalfOpen, choice, s, LoadStarted(now));
    Hop(c, alone, s, LoadStarted(now), choice, s, TakeProbe);
    Hop(c, alone, s, TakeProbe, choice, a, AddProbeCall);
    Hop(c, alone, a, AddProbeCall, choice, a.(inflight := a.inflight + 1, admitted := a.admitted + 1), Running);
  }

  /** A running probe ends without a change of state, and its thread makes the next call. */
  lemma EndAndCall(c: Config, alone: (Shared, Pc) -> bool, s: Shared, now: nat)
    requires ClosedAlone(c, alone, Choice(now, 0, Stay)) && alone(s, Running) && s.state == HalfOpen
    ensures alone(s.(inflight := s.inflight - 1, requestsTotal := s.requestsTotal + 1, calls := s.calls + 1), ReadHalfOpen)
  {
    var choice := Choice(now, 0, Stay);
    var a := s.(inflight := s.inflight - 1, requestsTotal := s.requestsTotal + 1);
    End(c, alone, s, choice);
    Hop(c, alone, a, Settling, choice, a, Idle);
    Hop(c, alone, a, Idle, choice, a.(calls := a.calls + 1), ReadHalfOpen);
  }

  /** k probes in a row: the counter and the admissions grow, and nothing else that matters to the episode moves. */
  ghost predicate Probed(s: Shared, n: Shared, k: nat) {
    n == s.(probes := s.probes + k, admitted := s.admitted + k, requestsTotal := n.requestsTotal, calls := n.calls)
  }

  lemma {:induction false} ProbeTimes(c: Config, alone: (Shared, Pc) -> bool, s: Shared, now: nat, k: nat)
    returns (n: Shared)
    requires ClosedAlone(c, alone, Choice(now, 0, Stay)) && alone(s, ReadHalfOpen)
    requires s.state == HalfOpen && SaturatingSub(now, s.startedAt) < c.halfOpenMaxMs
    requires s.probes + k <= c.halfOpenProbes < U32 - 1 && s.inflight == 0
    ensures alone(n, ReadHalfOpen) && Probed(s, n, k)
    decreases k
  {
    n := s;
    if k > 0 {
      n := ProbeTimes(c, alone, s, now, k - 1);
      Probe(c, alone, n, now);
      n := n.(probes := n.probes + 1, inflight := n.inflight + 1, admitted := n.admitted + 1);
      EndAndCall(c, alone, n, now);
      n := n.(inflight := n.inflight - 1, requestsTotal := n.requestsTotal + 1, calls := n.calls + 1);
    }
  }

  // ---------------------------------------------------------------- the wrapped counter

  /** A call in CLOSED is admitted and ends in a trip, at time 0. */
  lemma FirstTrip(c: Config, reach: (Sys, nat) -> bool, pcs: map<nat, Pc>, t: nat) returns (s: Shared)
    requires ClosedUnderSteps(c, reach) && reach(Sys(START, pcs), 0) && t in pcs && pcs[t] == Idle && c.maxInflight >= 1
    ensures reach(Sys(s, pcs), 0) && s == Tripped(c, START.(calls := 1, inflight := 1), 0)
  {
    var alone := Alone(reach, pcs, t, 0);
    AloneIsClosed(c, reach, START, pcs, t, 0, Choice(0, 0, Trip));
    Admit(c, alone, START, Choice(0, 0, Trip));
    EndInTrip(c, alone, START.(calls := 1, inflight := 1), 0);
    s := Tripped(c, START.(calls := 1, inflight := 1), 0);
    assert pcs[t := Idle] == pcs;
  }

  /** A refused probe has its add to undo. */
  lemma Refuse(c: Config, alone: (Shared, Pc) -> bool, s: Shared, now: nat)
    requires ClosedAlone(c, alone, Choice(now, 0, Stay)) && alone(s, Idle)
    requires s.state == HalfOpen && SaturatingSub(now, s.startedAt) < c.halfOpenMaxMs
    requires c.halfOpenProbes <= s.probes < U32 - 1
    ensures alone(s.(calls := s.calls + 1, probes := s.probes + 1), UndoProbe)
  {
    var choice := Choice(now, 0, Stay);
    var a := s.(calls := s.calls + 1);
    Hop(c, alone, s, Idle, choice, a, ReadHalfOpen);
    Hop(c, alone, a, ReadHalfOpen, choice, a, LoadStarted(now));
    Hop(c, alone, a, LoadStarted(now), choice, a, TakeProbe);
    Hop(c, alone, a, TakeProbe, choice, a.(probes := a.probes + 1), UndoProbe);
  }

  /** At the deadline a thread re-arms OPEN. */
  lemma Rearm(c: Config, alone: (Shared, Pc) -> bool, s: Shared, now: nat)
    requires ClosedAlone(c, alone, Choice(now, 0, Stay)) && alone(s, ReadHalfOpen)
    requires s.state == HalfOpen && SaturatingSub(now, s.startedAt) >= c.halfOpenMaxMs
    ensures alone(s.(state := Open, openedAt := now, cooldown := JitteredCooldown(c, 0), openTotal := s.openTotal + 1,
                     rejectedTotal := s.rejectedTotal + 1), Idle)
  {
    var choice := Choice(now, 0, Stay);
    Hop(c, alone, s, ReadHalfOpen, choice, s, LoadStarted(now));
    Hop(c, alone, s, LoadStarted(now), choice, s, TryReopen(now));
    Hop(c, alone, s, TryReopen(now), choice, s.(state := Open), StoreReopened(now));
    var a := s.(state := Open, openedAt := now);
    Hop(c, alone, s.(state := Open), StoreReopened(now), choice, a, StoreRecooled);
    RecoolAndCount(c, alone, a, choice);
  }

  lemma RecoolAndCount(c: Config, alone: (Shared, Pc) -> bool, s: Shared, choice: Choice)
    requires ClosedAlone(c, alone, choice) && alone(s, StoreRecooled)
    ensures alone(s.(cooldown := JitteredCooldown(c, choice.seed), openTotal := s.openTotal + 1,
                     rejectedTotal := s.rejectedTotal + 1), Idle)
  {
    var a := s.(cooldown := JitteredCooldown(c, choice.seed));
    var b := a.(openTotal := a.openTotal + 1);
    Hop(c, alone, s, StoreRecooled, choice, a, CountReopen);
    Hop(c, alone, a, CountReopen, choice, b, CountRejected);
    Hop(c, alone, b, CountRejected, choice, b.(rejectedTotal := b.rejectedTotal + 1), Idle);
  }

  /** Thread 1 has spent the budget of an episode, and thread 2 is about to undo its own add. */
  lemma ReachUndo(c: Config, reach: (Sys, nat) -> bool, threads: set<nat>) returns (s: Shared, pcs: map<nat, Pc>)
    requires ClosedUnderSteps(c, reach) && reach(Start(threads), 0) && {0, 1, 2} <= threads
    requires c.maxInflight >= 1 && 1 <= c.halfOpenProbes < U32 - 1 && c.halfOpenMaxMs > 0
    ensures var d := c.openCooldownMs;
            && reach(Sys(s, pcs), d) && pcs == Start(threads).pcs[1 := ReadHalfOpen][2 := UndoProbe]
            && s.state == HalfOpen && s.startedAt == d
  {
    var d := c.openCooldownMs;
    pcs := Start(threads).pcs;
    s := FirstTrip(c, reach, pcs, 0);
    AloneIsClosed(c, reach, s, pcs, 1, 0, Choice(d, 0, Stay));
    var alone := Alone(reach, pcs, 1, d);
    Enter(c, alone, s, d);
    s := s.(calls := s.calls + 1, state := HalfOpen, admitted := 0);
    Reset(c, alone, s, d);
    s := s.(probes := 0, startedAt := d, halfOpenTotal := s.halfOpenTotal + 1);
    s := ProbeTimes(c, alone, s, d, c.halfOpenProbes);
    pcs := pcs[1 := ReadHalfOpen];
    AloneIsClosed(c, reach, s, pcs, 2, d, Choice(d, 0, Stay));
    Refuse(c, Alone(reach, pcs, 2, d), s, d);
    s := s.(calls := s.calls + 1, probes := s.probes + 1);
    pcs := pcs[2 := UndoProbe];
  }

  /** Thread 1 enters the next episode and resets the counter, and then thread 2's undo lands. */
  lemma LateUndo(c: Config, reach: (Sys, nat) -> bool, s: Shared, pcs: map<nat, Pc>, at: nat, now: nat) returns (n: Sys)
    requires ClosedUnderSteps(c, reach) && reach(Sys(s, pcs), at) && at <= now
    requires 1 in pcs && pcs[1] == Idle && 2 in pcs && pcs[2] == UndoProbe
    requires s.state == Open && SaturatingSub(now, s.openedAt) >= s.cooldown
    ensures reach(n, now) && n.sh.state == HalfOpen && n.sh.probes == U32 - 1
  {
    var stay := Choice(now, 0, Stay);
    AloneIsClosed(c, reach, s, pcs, 1, at, stay);
    Enter(c, Alone(reach, pcs, 1, now), s, now);
    var sh := s.(calls := s.calls + 1, state := HalfOpen, admitted := 0);
    Hop(c, Alone(reach, pcs, 1, now), sh, ResetProbes(now), stay, sh.(probes := 0), StoreStarted(now));
    var sh0, pcs1 := sh.(probes := 0), pcs[1 := StoreStarted(now)];
    AloneIsClosed(c, reach, sh0, pcs1, 2, now, stay);
    Hop(c, Alone(reach, pcs1, 2, now), sh0, UndoProbe, stay, sh0.(probes := U32 - 1), CountRejected);
    n := Sys(sh0.(probes := U32 - 1), pcs1[2 := CountRejected]);
  }

  lemma Wrap(c: Config, reach: (Sys, nat) -> bool, threads: set<nat>) returns (s: Sys)
    requires ClosedUnderSteps(c, reach) && reach(Start(threads), 0) && {0, 1, 2} <= threads
    requires c.maxInflight >= 1 && 1 <= c.halfOpenProbes < U32 - 1 && c.halfOpenMaxMs > 0
    ensures reach(s, 2 * c.openCooldownMs + c.halfOpenMaxMs) && s.sh.state == HalfOpen && s.sh.probes == U32 - 1
  {
    var d := c.openCooldownMs;
    var deadline := d + c.halfOpenMaxMs;
    var sh, pcs := ReachUndo(c, reach, threads);
    AloneIsClosed(c, reach, sh, pcs, 1, d, Choice(deadline, 0, Stay));
    Rearm(c, Alone(reach, pcs, 1, deadline), sh, deadline);
    sh := sh.(state := Open, openedAt := deadline, cooldown := JitteredCooldown(c, 0), openTotal := sh.openTotal + 1,
              rejectedTotal := sh.rejectedTotal + 1);
    s := LateUndo(c, reach, sh, pcs[1 := Idle], deadline, deadline + d);
  }

  /** The counter can wrap, for every budget: a refused probe's undo lands after the counter was reset for the next
      episode. */
  lemma ProbeCounterWraps(c: Config, threads: set<nat>) returns (s: Sys)
    requires c.maxInflight >= 1 && 1 <= c.halfOpenProbes < U32 - 1 && c.halfOpenMaxMs > 0 && {0, 1, 2} <= threads
    ensures Reachable(c, threads, s, 2 * c.openCooldownMs + c.halfOpenMaxMs)
    ensures s.sh.state == HalfOpen && s.sh.probes == U32 - 1
  {
    var reach := (s: Sys, at: nat) => Reachable(c, threads, s, at);
    ReachableIsClosed(c, threads);
    s := Wrap(c, reach, threads);
  }

  /** What a wrapped counter does. A probe that finds no other refusal in progress is refused, and its undo wraps the
      counter again; one that arrives between the add and the undo of another is let through. */
  lemma WrappedCounter(c: Config, s: Shared, choice: Choice)
    requires s.probes == U32 - 1 && 1 <= c.halfOpenProbes < U32
    ensures var (n, q) := Op(c, s, TakeProbe, choice);
            && q == UndoProbe && Op(c, n, q, choice).0.probes == U32 - 1
            && Op(c, n, TakeProbe, choice).1 == AddProbeCall
  {
  }

  // ---------------------------------------------------------------- the budget overrun

  /** The circuit is OPEN since `at`, with nothing in flight; thread 0 is idle, and threads 1 to k entered HALF_OPEN in
      earlier episodes and have yet to reset the counter. */
  ghost predicate Stalled(c: Config, s: Shared, pcs: map<nat, Pc>, at: nat, k: nat, m: nat) {
    && s.state == Open && s.openedAt <= at && s.cooldown == c.openCooldownMs && s.startedAt == 0 && s.inflight == 0
    && (forall t: nat :: t <= m ==> t in pcs)
    && (forall t: nat :: t <= m ==> if 1 <= t <= k then pcs[t].ResetProbes? else pcs[t] == Idle)
  }

  /** Thread k enters and stalls; thread 0 finds the deadline of an episode that began long ago, and re-arms OPEN. */
  lemma StallOne(c: Config, reach: (Sys, nat) -> bool, s: Shared, pcs: map<nat, Pc>, at: nat, k: nat, m: nat, now: nat)
    returns (n: Shared, after: map<nat, Pc>)
    requires ClosedUnderSteps(c, reach) && reach(Sys(s, pcs), at) && Stalled(c, s, pcs, at, k, m) && k < m
    requires at + c.openCooldownMs <= now && c.halfOpenMaxMs <= now
    ensures reach(Sys(n, after), now) && Stalled(c, n, after, now, k + 1, m)
  {
    var stay := Choice(now, 0, Stay);
    AloneIsClosed(c, reach, s, pcs, k + 1, at, stay);
    Enter(c, Alone(reach, pcs, k + 1, now), s, now);
    n := s.(calls := s.calls + 1, state := HalfOpen, admitted := 0);
    after := pcs[k + 1 := ResetProbes(now)];
    AloneIsClosed(c, reach, n, after, 0, now, stay);
    var alone := Alone(reach, after, 0, now);
    Hop(c, alone, n, Idle, stay, n.(calls := n.calls + 1), ReadHalfOpen);
    n := n.(calls := n.calls + 1);
    Rearm(c, alone, n, now);
    n := n.(state := Open, openedAt := now, cooldown := JitteredCooldown(c, 0), openTotal := n.openTotal + 1,
            rejectedTotal := n.rejectedTotal + 1);
    assert after[0 := Idle] == after;
  }

  lemma {:induction false} StallMany(c: Config, reach: (Sys, nat) -> bool, pcs: map<nat, Pc>, k: nat, m: nat)
    returns (s: Shared, after: map<nat, Pc>, at: nat)
    requires ClosedUnderSteps(c, reach) && reach(Sys(START, pcs), 0) && c.maxInflight >= 1 && k <= m
    requires forall t: nat :: t <= m ==> t in pcs && pcs[t] == Idle
    ensures reach(Sys(s, after), at) && Stalled(c, s, after, at, k, m)
  {
    if k == 0 {
      after, at := pcs, 0;
      s := FirstTrip(c, reach, pcs, 0);
    } else {
      s, after, at := StallMany(c, reach, pcs, k - 1, m);
      s, after := StallOne(c, reach, s, after, at, k - 1, m, at + c.openCooldownMs + c.halfOpenMaxMs);
      at := at + c.openCooldownMs + c.halfOpenMaxMs;
    }
  }

  /** Thread 0 stands in HALF_OPEN, the budget is spent, and threads 1 to k have yet to reset the counter. */
  ghost predicate Spent(c: Config, s: Shared, pcs: map<nat, Pc>, now: nat, k: nat) {
    && s.state == HalfOpen && s.startedAt == now && s.inflight == 0 && s.probes == c.halfOpenProbes
    && 0 in pcs && pcs[0] == ReadHalfOpen
    && forall t: nat :: 1 <= t <= k ==> t in pcs && pcs[t].ResetProbes?
  }

  /** One of them does, and thread 0 spends the budget again. */
  lemma SpendAgain(c: Config, reach: (Sys, nat) -> bool, s: Shared, pcs: map<nat, Pc>, now: nat, k: nat)
    returns (n: Shared, after: map<nat, Pc>)
    requires ClosedUnderSteps(c, reach) && reach(Sys(s, pcs), now) && Spent(c, s, pcs, now, k) && 1 <= k
    requires c.halfOpenProbes < U32 - 1 && c.halfOpenMaxMs > 0
    ensures reach(Sys(n, after), now) && Spent(c, n, after, now, k - 1) && n.admitted == s.admitted + c.halfOpenProbes
  {
    var stay := Choice(now, 0, Stay);
    AloneIsClosed(c, reach, s, pcs, k, now, stay);
    Hop(c, Alone(reach, pcs, k, now), s, pcs[k], stay, s.(probes := 0), StoreStarted(pcs[k].now));
    after := pcs[k := StoreStarted(pcs[k].now)];
    AloneIsClosed(c, reach, s.(probes := 0), after, 0, now, stay);
    n := ProbeTimes(c, Alone(reach, after, 0, now), s.(probes := 0), now, c.halfOpenProbes);
    assert after[0 := ReadHalfOpen] == after;
  }

  lemma {:induction false} SpendMany(c: Config, reach: (Sys, nat) -> bool, s: Shared, pcs: map<nat, Pc>, now: nat, k: nat)
    returns (n: Sys)
    requires ClosedUnderSteps(c, reach) && reach(Sys(s, pcs), now) && Spent(c, s, pcs, now, k)
    requires c.halfOpenProbes < U32 - 1 && c.halfOpenMaxMs > 0
    ensures reach(n, now) && n.sh.state == HalfOpen && n.sh.admitted == s.admitted + k * c.halfOpenProbes
    decreases k
  {
    if k == 0 {
      n := Sys(s, pcs);
    } else {
      var again, after := SpendAgain(c, reach, s, pcs, now, k);
      n := SpendMany(c, reach, again, after, now, k - 1);
      assert c.halfOpenProbes + (k - 1) * c.halfOpenProbes == k * c.halfOpenProbes;
    }
  }

  lemma Overrun(c: Config, reach: (Sys, nat) -> bool, threads: set<nat>, m: nat) returns (s: Sys, now: nat)
    requires ClosedUnderSteps(c, reach) && reach(Start(threads), 0) && forall t: nat :: t <= m ==> t in threads
    requires c.maxInflight >= 1 && c.halfOpenProbes < U32 - 1 && c.halfOpenMaxMs > 0
    ensures reach(s, now) && s.sh.state == HalfOpen && s.sh.admitted == c.halfOpenProbes + m * c.halfOpenProbes
  {
    var sh, pcs, at := StallMany(c, reach, Start(threads).pcs, m, m);
    now := at + c.openCooldownMs;
    AloneIsClosed(c, reach, sh, pcs, 0, at, Choice(now, 0, Stay));
    var alone := Alone(reach, pcs, 0, now);
    Enter(c, alone, sh, now);
    sh := sh.(calls := sh.calls + 1, state := HalfOpen, admitted := 0);
    Reset(c, alone, sh, now);
    sh := sh.(probes := 0, startedAt := now, halfOpenTotal := sh.halfOpenTotal + 1);
    sh := ProbeTimes(c, alone, sh, now, c.halfOpenProbes);
    s := SpendMany(c, reach, sh, pcs[0 := ReadHalfOpen], now, m);
  }

  /** The budget overrun, by any multiple. For every budget and every m, and under a clock, a run leads to an episode of
      HALF_OPEN that has admitted its budget and m times as many again: m threads that entered earlier episodes and were
      delayed there reset the counter in this one, one after the other. */
  lemma ProbeBudgetOverrun(c: Config, threads: set<nat>, m: nat) returns (s: Sys, now: nat)
    requires c.maxInflight >= 1 && c.halfOpenProbes < U32 - 1 && c.halfOpenMaxMs > 0
    requires forall t: nat :: t <= m ==> t in threads
    ensures Reachable(c, threads, s, now) && s.sh.state == HalfOpen
    ensures s.sh.admitted == c.halfOpenProbes + m * c.halfOpenProbes
  {
    var reach := (s: Sys, at: nat) => Reachable(c, threads, s, at);
    ReachableIsClosed(c, threads);
    s, now := Overrun(c, reach, threads, m);
  }
}
