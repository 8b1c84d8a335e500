/** Slot accounting on the request path: the global concurrency gauge, the gates of `process_request` with their exits,
    and what the gauge means while requests overlap. */
module Backpressure {
  import opened Wrappers
  import opened Threads

  datatype CircuitState = Closed | Open | HalfOpen

  /** The limit a caller reads, or none when the global circuit is open. */
  datatype Limit = Rejecting | Admitting(limit: nat)

  function LimitFor(circuit: CircuitState, maxConcurrency: nat): (l: Limit)
    ensures circuit == Closed ==> l == Admitting(maxConcurrency)
    ensures circuit == HalfOpen ==> l.Admitting? && 1 <= l.limit && maxConcurrency < 10 * (l.limit + 1)
    ensures circuit == HalfOpen && l.limit > 1 ==> 10 * l.limit <= maxConcurrency
    ensures circuit == Open ==> l == Rejecting
  {
    match circuit
    case HalfOpen => Admitting(if maxConcurrency / 10 < 1 then 1 else maxConcurrency / 10)
    case Closed => Admitting(maxConcurrency)
    case Open => Rejecting
  }

  // ---------------------------------------------------------------- one request

  datatype WafStatus = TooLong | ForbiddenPattern | IpLimited

  datatype Violation = TooLarge | NotJson | MissingField | WrongType

  function WafCode(w: WafStatus): int {
    match w case TooLong => 400 case ForbiddenPattern => 403 case IpLimited => 429
  }

  function ViolationCode(v: Violation): int {
    match v case TooLarge => 413 case NotJson => 415 case MissingField => 400 case WrongType => 400
  }

  /** What each gate of the hot path answers for this request. */
  datatype Gates = Gates(
    nullPointer: bool,
    waf: Option<WafStatus>,
    authenticated: bool,
    wrongRegion: bool,
    serviceFound: bool,
    shedAnonymous: bool,
    violation: Option<Violation>,
    requireAuth: bool,
    rateAllowed: bool,
    quotaExceeded: bool,
    upstream: Option<string>)

  const GATES: nat := 11

  /** The gates in order: whether the i-th turns the request away, and with which status. */
  function Gate(admitted: bool, g: Gates, i: nat): (bool, int) {
    match i
    case 0 => (!admitted, 503)
    case 1 => (g.nullPointer, 500)
    case 2 => (g.waf.Some?, if g.waf.Some? then WafCode(g.waf.value) else 0)
    case 3 => (g.wrongRegion, 403)
    case 4 => (!g.serviceFound, 404)
    case 5 => (g.shedAnonymous && !g.authenticated, 503)
    case 6 => (g.violation.Some?, if g.violation.Some? then ViolationCode(g.violation.value) else 0)
    case 7 => (g.requireAuth && !g.authenticated, 401)
    case 8 => (!g.rateAllowed, 429)
    case 9 => (g.authenticated && g.quotaExceeded, 429)
    case _ => (g.upstream.None?, 503)
  }

  /** The first n gates let the request through. */
  ghost predicate Passed(admitted: bool, g: Gates, n: nat) {
    forall i: nat :: i < n ==> !Gate(admitted, g, i).0
  }

  /** The status is that of the first gate that turns the request away, and 200 when none does. */
  ghost predicate Decides(admitted: bool, g: Gates, status: int) {
    || (status == 200 && Passed(admitted, g, GATES))
    || (status != 200 && exists i: nat :: i < GATES && Gate(admitted, g, i) == (true, status) && Passed(admitted, g, i))
  }

  lemma Passes(admitted: bool, g: Gates, n: nat)
    requires Passed(admitted, g, n) && !Gate(admitted, g, n).0
    ensures Passed(admitted, g, n + 1)
  {
  }

  lemma PassedFacts(admitted: bool, g: Gates, n: nat)
    requires Passed(admitted, g, n)
    ensures n > 0 ==> admitted
    ensures n > 1 ==> !g.nullPointer
    ensures n > 2 ==> g.waf.None?
    ensures n > 3 ==> !g.wrongRegion
    ensures n > 4 ==> g.serviceFound
    ensures n > 5 ==> (g.shedAnonymous ==> g.authenticated)
    ensures n > 6 ==> g.violation.None?
    ensures n > 7 ==> (g.requireAuth ==> g.authenticated)
    ensures n > 8 ==> g.rateAllowed
    ensures n > 9 ==> !(g.authenticated && g.quotaExceeded)
    ensures n > 10 ==> g.upstream.Some?
  {
    assert (n > 0 ==> !Gate(admitted, g, 0).0) && (n > 1 ==> !Gate(admitted, g, 1).0);
    assert (n > 2 ==> !Gate(admitted, g, 2).0) && (n > 3 ==> !Gate(admitted, g, 3).0);
    assert (n > 4 ==> !Gate(admitted, g, 4).0) && (n > 5 ==> !Gate(admitted, g, 5).0);
    assert (n > 6 ==> !Gate(admitted, g, 6).0) && (n > 7 ==> !Gate(admitted, g, 7).0);
    assert (n > 8 ==> !Gate(admitted, g, 8).0) && (n > 9 ==> !Gate(admitted, g, 9).0);
    assert n > 10 ==> !Gate(admitted, g, 10).0;
  }

  /** What that comes to, gate by gate: a slot is needed before anything else, a request is routed before it is checked and
      checked before it is authenticated, limited and sent on. */
  lemma StatusExactly(admitted: bool, g: Gates, status: int)
    requires Decides(admitted, g, status)
    ensures !admitted ==> status == 503
    ensures admitted && g.nullPointer ==> status == 500
    ensures var seen := admitted && !g.nullPointer;
            var passed := seen && g.waf.None?;
            var routed := passed && !g.wrongRegion && g.serviceFound;
            var checked := routed && (g.shedAnonymous ==> g.authenticated) && g.violation.None?;
            var allowed := checked && (g.requireAuth ==> g.authenticated);
            && (seen && g.waf.Some? ==>
                  status == match g.waf.value case TooLong => 400 case ForbiddenPattern => 403 case IpLimited => 429)
            && (passed && g.wrongRegion ==> status == 403)
            && (passed && !g.wrongRegion && !g.serviceFound ==> status == 404)
            && (routed && g.shedAnonymous && !g.authenticated ==> status == 503)
            && (routed && (g.shedAnonymous ==> g.authenticated) && g.violation.Some? ==>
                  status == match g.violation.value case TooLarge => 413 case NotJson => 415 case _ => 400)
            && (checked && g.requireAuth && !g.authenticated ==> status == 401)
            && (allowed && (!g.rateAllowed || (g.authenticated && g.quotaExceeded)) ==> status == 429)
            && (allowed && g.rateAllowed && !(g.authenticated && g.quotaExceeded) ==>
                  status == if g.upstream.Some? then 200 else 503)
            && (status == 200 ==>
                  allowed && g.rateAllowed && !(g.authenticated && g.quotaExceeded) && g.upstream.Some?)
  {
    if status == 200 {
      PassedFacts(admitted, g, GATES);
    } else {
      var i: nat :| i < GATES && Gate(admitted, g, i) == (true, status) && Passed(admitted, g, i);
      PassedFacts(admitted, g, i);
    }
  }

  class Slots {
    var inFlight: int

    constructor ()
      ensures inFlight == 0
    {
      inFlight := 0;
    }

    method Acquire(circuit: CircuitState, maxConcurrency: nat) returns (ok: bool)
      modifies this
      ensures ok <==> LimitFor(circuit, maxConcurrency).Admitting? && old(inFlight) < LimitFor(circuit, maxConcurrency).limit
      ensures inFlight == old(inFlight) + if ok then 1 else 0
    {
      var limit := LimitFor(circuit, maxConcurrency);
      if limit.Rejecting? {
        return false;
      }
      var current := inFlight;
      inFlight := inFlight + 1;
      if current >= limit.limit {
        inFlight := inFlight - 1;
        return false;
      }
      ok := true;
    }

    method Release()
      modifies this
      ensures inFlight == old(inFlight) - 1
    {
      inFlight := inFlight - 1;
    }

    /** The hot path. On every exit a slot is left held exactly when the answer is 200, and 200 means that every gate
        let the request through. */
    method ProcessRequest(circuit: CircuitState, maxConcurrency: nat, g: Gates) returns (status: int)
      modifies this
      ensures inFlight == old(inFlight) + if status == 200 then 1 else 0
      ensures var limit := LimitFor(circuit, maxConcurrency);
              Decides(limit.Admitting? && old(inFlight) < limit.limit, g, status)
      ensures status in {200, 400, 401, 403, 404, 413, 415, 429, 500, 503}
    {
      var ok := Acquire(circuit, maxConcurrency);
      assert Passed(ok, g, 0);
      if !ok {
        assert Gate(ok, g, 0).0;
        return 503;
      }
      Passes(ok, g, 0);
      if g.nullPointer {
        assert Gate(ok, g, 1).0;
        Release();
        return 500;
      }
      Passes(ok, g, 1);
      match g.waf {
        case Some(w) =>
          assert Gate(ok, g, 2).0;
          Release();
          return WafCode(w);
        case None =>
      }
      Passes(ok, g, 2);
      if g.wrongRegion {
        assert Gate(ok, g, 3).0;
        Release();
        return 403;
      }
      Passes(ok, g, 3);
      if !g.serviceFound {
        assert Gate(ok, g, 4).0;
        Release();
        return 404;
      }
      Passes(ok, g, 4);
      if g.shedAnonymous && !g.authenticated {
        assert Gate(ok, g, 5).0;
        Release();
        return 503;
      }
      Passes(ok, g, 5);
      match g.violation {
        case Some(v) =>
          assert Gate(ok, g, 6).0;
          Release();
          return ViolationCode(v);
        case None =>
      }
      Passes(ok, g, 6);
      if g.requireAuth && !g.authenticated {
        assert Gate(ok, g, 7).0;
        Release();
        return 401;
      }
      Passes(ok, g, 7);
      if !g.rateAllowed {
        assert Gate(ok, g, 8).0;
        Release();
        return 429;
      }
      Passes(ok, g, 8);
      if g.authenticated && g.quotaExceeded {
        assert Gate(ok, g, 9).0;
        Release();
        return 429;
      }
      Passes(ok, g, 9);
      match g.upstream {
        case Some(_) =>
          Passes(ok, g, 10);
          return 200;
        case None =>
          assert Gate(ok, g, 10).0;
          Release();
          return 503;
      }
    }
  }

  // ---------------------------------------------------------------- overlapping requests

  /** Where a request stands: before its add, about to undo it, past the gate but not yet answered, about to release on an
      early exit, or answered 200 and holding its slot until the one `release_slot` that ends it. */
  datatype Pc = Outside | Adding(limit: nat) | Undoing | Inside | Leaving | Admitted

  datatype Sys = Sys(inFlight: int, pcs: map<nat, Pc>)

  /** What a schedule decides at a request's turn: the limit it reads (none while the circuit is open), and whether a
      gate turns it away. */
  datatype Choice = Choice(limit: Limit, turnedAway: bool)

  function Op(inFlight: int, pc: Pc, c: Choice): (int, Pc) {
    match pc
    case Outside => (inFlight, if c.limit.Admitting? then Adding(c.limit.limit) else Outside)
    case Adding(limit) => (inFlight + 1, if inFlight >= limit then Undoing else Inside)
    case Undoing => (inFlight - 1, Outside)
    case Inside => (inFlight, if c.turnedAway then Leaving else Admitted)
    case Leaving => (inFlight - 1, Outside)
    case Admitted => (inFlight - 1, Outside)
  }

  function Step(s: Sys, t: nat, c: Choice): Sys
    requires t in s.pcs
  {
    var (n, pc) := Op(s.inFlight, s.pcs[t], c);
    Sys(n, s.pcs[t := pc])
  }

  /** Requests that hold a slot. */
  predicate Holds(pc: Pc) {
    pc.Inside? || pc.Leaving? || pc.Admitted?
  }

  predicate HoldsOrUndoes(pc: Pc) {
    Holds(pc) || pc.Undoing?
  }

  ghost predicate Conserved(s: Sys) {
    s.inFlight == CountIf(s.pcs, HoldsOrUndoes)
  }

  ghost predicate IsRun(requests: set<nat>, sched: seq<(nat, Choice)>, tr: seq<Sys>) {
    && |tr| == |sched| + 1
    && tr[0] == Sys(0, map t | t in requests :: Outside)
    && forall i :: 0 <= i < |sched| ==> sched[i].0 in tr[i].pcs && tr[i + 1] == Step(tr[i], sched[i].0, sched[i].1)
  }

  lemma StepConserves(s: Sys, t: nat, c: Choice)
    requires t in s.pcs && Conserved(s)
    ensures Conserved(Step(s, t, c))
  {
    CountMove(s.pcs, t, Op(s.inFlight, s.pcs[t], c).1, HoldsOrUndoes);
  }

  lemma {:induction false} RunConserves(requests: set<nat>, sched: seq<(nat, Choice)>, tr: seq<Sys>, k: nat)
    requires IsRun(requests, sched, tr) && k <= |sched|
    ensures Conserved(tr[k])
  {
    if k == 0 {
      CountNone(tr[0].pcs, HoldsOrUndoes);
    } else {
      RunConserves(requests, sched, tr, k - 1);
      StepConserves(tr[k - 1], sched[k - 1].0, sched[k - 1].1);
    }
  }

  /** Slot conservation: under every interleaving the gauge is the number of held slots plus the requests between an add
      and its undo, so it is never negative; and the add that lets a request in leaves no more slots held than the limit
      that request read. */
  lemma SlotConservation(requests: set<nat>, sched: seq<(nat, Choice)>, tr: seq<Sys>, k: nat)
    requires IsRun(requests, sched, tr) && k <= |sched|
    ensures tr[k].inFlight == CountIf(tr[k].pcs, HoldsOrUndoes)
    ensures 0 <= CountIf(tr[k].pcs, Holds) <= tr[k].inFlight
    ensures k < |sched| && tr[k].pcs[sched[k].0].Adding? && tr[k + 1].pcs[sched[k].0].Inside? ==>
              CountIf(tr[k + 1].pcs, Holds) <= tr[k].pcs[sched[k].0].limit
  {
    RunConserves(requests, sched, tr, k);
    CountMonotone(tr[k].pcs, Holds, HoldsOrUndoes);
    if k < |sched| {
      RunConserves(requests, sched, tr, k + 1);
      CountMonotone(tr[k + 1].pcs, Holds, HoldsOrUndoes);
    }
  }
}
