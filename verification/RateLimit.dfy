/** The window limiter: one 64-bit word per slot, the Unix second in its upper half and the count of that second in its
    lower half, advanced by a compare-and-swap loop on the hot path and overwritten by the fleet-sync thread when the
    whole fleet has used the limit up. Any number of threads interleave between any two atomic operations. */
module RateLimit {
  import opened Wrappers

  const HALF: nat := 0x1_0000_0000

  /** A second and a count, packed into one word. */
  function Pack(ts: nat, count: nat): nat {
    ts * HALF + count
  }

  function TsOf(word: nat): nat {
    word / HALF
  }

  function CountOf(word: nat): nat {
    word % HALF
  }

  /** Packing and unpacking undo each other on 32-bit halves and on 64-bit words. */
  lemma PackRoundTrip(ts: nat, count: nat, word: nat)
    requires ts < HALF && count < HALF && word < HALF * HALF
    ensures TsOf(Pack(ts, count)) == ts && CountOf(Pack(ts, count)) == count && Pack(ts, count) < HALF * HALF
    ensures Pack(TsOf(word), CountOf(word)) == word && TsOf(word) < HALF && CountOf(word) < HALF
  {
  }

  // ---------------------------------------------------------------- one slot, many threads

  /** Where a thread stands: in the loop of a check made at second `now`, or in the sync thread's write for a window. */
  datatype Pc =
    | Idle
    | Checking(now: nat, current: nat)
    | Saturating(windowTs: nat, current: nat)

  datatype Sys = Sys(word: nat, pcs: map<nat, Pc>)

  /** One atomic operation: a first load, a compare-and-swap (which may fail spuriously), or the sync thread's pair. */
  datatype Event =
    | BeginCheck(t: nat, now: nat)
    | Swap(t: nat, spurious: bool)
    | BeginSync(t: nat, windowTs: nat)
    | SyncSwap(t: nat)

  datatype Verdict = Refuse | Propose(word: nat)

  /** What the loop decides from the word it has seen. */
  function Decide(current: nat, now: nat, max: nat): Verdict {
    if TsOf(current) != now then Propose(Pack(now, 1))
    else if CountOf(current) >= max then Refuse
    else Propose(Pack(now, CountOf(current) + 1))
  }

  /** A shared word, as one caller of the limiter finds it between the steps of others. */
  class Bucket {
    var word: nat

    constructor ()
      ensures word == 0
    {
      word := 0;
    }

    /** The check of one caller. A service without a limit and an anonymous caller always pass, and leave the word alone.
        Any other makes one attempt after another: `others` are the words it finds after its failed swaps, left by other
        threads or, where nothing changed, by a spurious failure. It is refused at the first word that refuses it, and
        swaps in its own word otherwise. */
    method CheckRateLimit(maxRps: nat, user: Option<string>, now: nat, others: seq<nat>) returns (allowed: bool)
      modifies this
      ensures maxRps == 0 || user.None? || user.value == "" ==> allowed && word == old(word)
      ensures maxRps > 0 && user.Some? && user.value != "" ==>
                Attempted([old(word)] + others, now, maxRps % HALF, allowed, word)
    {
      if maxRps == 0 || user.None? || user.value == "" {
        return true;
      }
      ghost var words := [word] + others;
      var current, i := word, 0;
      while true
        invariant i <= |others| && word == current == words[i]
        invariant forall j :: 0 <= j < i ==> Decide(words[j], now, maxRps % HALF).Propose?
        decreases |others| - i
      {
        var proposed;
        if TsOf(current) != now {
          proposed := Pack(now, 1);
        } else if CountOf(current) >= maxRps % HALF {
          return false;
        } else {
          proposed := Pack(now, CountOf(current) + 1);
        }
        if i == |others| {
          word := proposed;
          return true;
        }
        word := others[i];
        current, i := word, i + 1;
      }
    }
  }

  /** The outcome of attempts on the words found one after the other. */
  ghost predicate Attempted(words: seq<nat>, now: nat, max: nat, allowed: bool, after: nat)
    requires |words| > 0
  {
    if allowed then
      && (forall j :: 0 <= j < |words| ==> Decide(words[j], now, max).Propose?)
      && after == Decide(words[|words| - 1], now, max).word
    else
      exists i :: 0 <= i < |words| && Decide(words[i], now, max).Refuse? && after == words[i]
                  && forall j :: 0 <= j < i ==> Decide(words[j], now, max).Propose?
  }

  predicate Enabled(s: Sys, e: Event) {
    && e.t in s.pcs
    && match e
       case BeginCheck(t, now) => s.pcs[t].Idle? && now < HALF
       case Swap(t, _) => s.pcs[t].Checking?
       case BeginSync(t, windowTs) => s.pcs[t].Idle? && windowTs < HALF
       case SyncSwap(t) => s.pcs[t].Saturating?
  }

  function At(s: Sys, t: nat, pc: Pc): Sys {
    s.(pcs := s.pcs[t := pc])
  }

  function Step(max: nat, s: Sys, e: Event): Sys
    requires Enabled(s, e)
  {
    match e
    case BeginCheck(t, now) => At(s, t, Checking(now, s.word))
    case Swap(t, spurious) =>
      var pc := s.pcs[t];
      var v := Decide(pc.current, pc.now, max);
      if v.Refuse? then At(s, t, Idle)
      else if s.word == pc.current && !spurious then At(s.(word := v.word), t, Idle)
      else At(s, t, Checking(pc.now, s.word))
    case BeginSync(t, windowTs) => At(s, t, Saturating(windowTs, s.word))
    case SyncSwap(t) =>
      var pc := s.pcs[t];
      if s.word == pc.current then At(s.(word := Pack(pc.windowTs, max + 1)), t, Idle) else At(s, t, Idle)
  }

  /** Whether an event admits a request. */
  predicate Admits(max: nat, s: Sys, e: Event)
    requires Enabled(s, e)
  {
    && e.Swap? && !e.spurious && s.word == s.pcs[e.t].current
    && Decide(s.pcs[e.t].current, s.pcs[e.t].now, max).Propose?
  }

  ghost predicate StepAt(max: nat, events: seq<Event>, tr: seq<Sys>, i: nat)
    requires |tr| == |events| + 1 && i < |events|
  {
    Enabled(tr[i], events[i]) && tr[i + 1] == Step(max, tr[i], events[i])
  }

  /** A run from any word, with every thread outside the limiter at first. */
  ghost predicate IsRun(max: nat, events: seq<Event>, tr: seq<Sys>) {
    && |tr| == |events| + 1
    && tr[0].word < HALF * HALF
    && (forall t :: t in tr[0].pcs ==> tr[0].pcs[t].Idle?)
    && (forall i :: 0 <= i < |events| ==> StepAt(max, events, tr, i))
  }

  /** Threads carry 32-bit seconds. */
  ghost predicate Bounded(s: Sys) {
    && s.word < HALF * HALF
    && forall t :: t in s.pcs ==> match s.pcs[t]
         case Idle => true
         case Checking(now, _) => now < HALF
         case Saturating(windowTs, _) => windowTs < HALF
  }

  /** What one event does to the word, and when it admits. */
  ghost predicate StepLaw(max: nat, s: Sys, n: Sys, admitted: bool) {
    if admitted then
      if TsOf(n.word) == TsOf(s.word) then CountOf(n.word) == CountOf(s.word) + 1 <= max
      else CountOf(n.word) == 1
    else
      TsOf(n.word) == TsOf(s.word) ==> CountOf(n.word) >= CountOf(s.word) || CountOf(n.word) > max
  }

  lemma StepKeeps(max: nat, s: Sys, e: Event)
    requires 1 <= max < HALF - 1 && Bounded(s) && Enabled(s, e)
    ensures Bounded(Step(max, s, e))
    ensures StepLaw(max, s, Step(max, s, e), Admits(max, s, e))
  {
    var pc := s.pcs[e.t];
    if pc.Checking? {
      PackRoundTrip(pc.now, 1, s.word);
      if CountOf(s.word) < max { PackRoundTrip(pc.now, CountOf(s.word) + 1, s.word); }
    } else if pc.Saturating? {
      PackRoundTrip(pc.windowTs, max + 1, s.word);
    }
  }

  lemma {:induction false} RunIsBounded(max: nat, events: seq<Event>, tr: seq<Sys>, k: nat)
    requires 1 <= max < HALF - 1 && IsRun(max, events, tr) && k <= |events|
    ensures Bounded(tr[k])
  {
    if k > 0 {
      RunIsBounded(max, events, tr, k - 1);
      assert StepAt(max, events, tr, k - 1);
      StepKeeps(max, tr[k - 1], events[k - 1]);
    }
  }

  // ---------------------------------------------------------------- stretches

  ghost predicate AdmitsAt(max: nat, events: seq<Event>, tr: seq<Sys>, i: nat)
    requires |tr| == |events| + 1 && i < |events|
  {
    Enabled(tr[i], events[i]) && Admits(max, tr[i], events[i])
  }

  /** Admissions so far in the stretch of states with the timestamp half of state k, the event that began it included. */
  ghost function StretchAdmissions(max: nat, events: seq<Event>, tr: seq<Sys>, k: nat): nat
    requires |tr| == |events| + 1 && k <= |events|
  {
    if k == 0 then 0
    else
      var earlier := if TsOf(tr[k].word) == TsOf(tr[k - 1].word) then StretchAdmissions(max, events, tr, k - 1) else 0;
      earlier + if AdmitsAt(max, events, tr, k - 1) then 1 else 0
  }

  /** Under every interleaving, every stretch with an unchanged timestamp half contains at most `max` admissions, with the
      sync thread's saturating writes mixed in; and the low half never counts fewer than were admitted. */
  lemma {:induction false} WindowLimit(max: nat, events: seq<Event>, tr: seq<Sys>, k: nat)
    requires 1 <= max < HALF - 1 && IsRun(max, events, tr) && k <= |events|
    ensures StretchAdmissions(max, events, tr, k) <= max
    ensures StretchAdmissions(max, events, tr, k) <= CountOf(tr[k].word)
  {
    if k > 0 {
      WindowLimit(max, events, tr, k - 1);
      RunIsBounded(max, events, tr, k - 1);
      assert StepAt(max, events, tr, k - 1);
      StepKeeps(max, tr[k - 1], events[k - 1]);
    }
  }

  // ---------------------------------------------------------------- saturation

  /** A saturating write that takes effect. */
  ghost predicate SaturatesAt(max: nat, events: seq<Event>, tr: seq<Sys>, i: nat)
    requires |tr| == |events| + 1 && i < |events|
  {
    Enabled(tr[i], events[i]) && events[i].SyncSwap? && tr[i].word == tr[i].pcs[events[i].t].current
  }

  lemma {:induction false} StaysSaturated(max: nat, events: seq<Event>, tr: seq<Sys>, i: nat, k: nat)
    requires 1 <= max < HALF - 1 && IsRun(max, events, tr) && i < k <= |events| && SaturatesAt(max, events, tr, i)
    requires forall j :: i < j <= k ==> TsOf(tr[j].word) == TsOf(tr[i + 1].word)
    ensures CountOf(tr[k].word) >= max && TsOf(tr[k].word) == tr[i].pcs[events[i].t].windowTs
    decreases k
  {
    RunIsBounded(max, events, tr, k - 1);
    assert StepAt(max, events, tr, k - 1);
    if k == i + 1 {
      PackRoundTrip(tr[i].pcs[events[i].t].windowTs, max + 1, 0);
    } else {
      StaysSaturated(max, events, tr, i, k - 1);
      StepKeeps(max, tr[k - 1], events[k - 1]);
    }
  }

  /** A saturating write that takes effect closes its second: until the timestamp half changes, the word holds that second
      and no check of it is admitted. */
  lemma SaturationCloses(max: nat, events: seq<Event>, tr: seq<Sys>, i: nat, k: nat)
    requires 1 <= max < HALF - 1 && IsRun(max, events, tr) && i < k < |events| && SaturatesAt(max, events, tr, i)
    requires forall j :: i < j <= k ==> TsOf(tr[j].word) == TsOf(tr[i + 1].word)
    ensures TsOf(tr[k].word) == tr[i].pcs[events[i].t].windowTs
    ensures !(AdmitsAt(max, events, tr, k) && tr[k].pcs[events[k].t].now == tr[i].pcs[events[i].t].windowTs)
  {
    StaysSaturated(max, events, tr, i, k);
  }

  // ---------------------------------------------------------------- seconds

  /** Admissions of requests whose own clock read second ts, within the first k events. */
  ghost function AdmissionsIn(max: nat, events: seq<Event>, tr: seq<Sys>, ts: nat, k: nat): nat
    requires |tr| == |events| + 1 && k <= |events|
  {
    if k == 0 then 0
    else
      var one := if AdmitsAt(max, events, tr, k - 1) && tr[k - 1].pcs[events[k - 1].t].now == ts then 1 else 0;
      AdmissionsIn(max, events, tr, ts, k - 1) + one
  }

  /** The stretches that the word has spent at second ts, up to state k. */
  ghost function Stretches(tr: seq<Sys>, ts: nat, k: nat): nat
    requires k < |tr|
  {
    if k == 0 then (if TsOf(tr[0].word) == ts then 1 else 0)
    else Stretches(tr, ts, k - 1) + if TsOf(tr[k].word) == ts && TsOf(tr[k - 1].word) != ts then 1 else 0
  }

  lemma AdmissionStampsItsSecond(max: nat, s: Sys, e: Event)
    requires 1 <= max < HALF - 1 && Bounded(s) && Enabled(s, e) && Admits(max, s, e)
    ensures TsOf(Step(max, s, e).word) == s.pcs[e.t].now
  {
    var pc := s.pcs[e.t];
    PackRoundTrip(pc.now, 1, s.word);
    if CountOf(s.word) < max { PackRoundTrip(pc.now, CountOf(s.word) + 1, s.word); }
  }

  /** Admissions of a second, all but those of the current stretch charged to the earlier ones. */
  ghost predicate SecondCounts(max: nat, events: seq<Event>, tr: seq<Sys>, ts: nat, k: nat)
    requires |tr| == |events| + 1 && k <= |events|
  {
    var n, admitted := Stretches(tr, ts, k), AdmissionsIn(max, events, tr, ts, k);
    if TsOf(tr[k].word) == ts then n > 0 && admitted <= max * (n - 1) + StretchAdmissions(max, events, tr, k)
    else admitted <= max * n
  }

  lemma {:induction false} SecondIsCharged(max: nat, events: seq<Event>, tr: seq<Sys>, ts: nat, k: nat)
    requires 1 <= max < HALF - 1 && IsRun(max, events, tr) && k <= |events|
    ensures SecondCounts(max, events, tr, ts, k)
  {
    if k > 0 {
      SecondIsCharged(max, events, tr, ts, k - 1);
      RunIsBounded(max, events, tr, k - 1);
      assert StepAt(max, events, tr, k - 1);
      WindowLimit(max, events, tr, k - 1);
      if AdmitsAt(max, events, tr, k - 1) {
        AdmissionStampsItsSecond(max, tr[k - 1], events[k - 1]);
      }
      var n := Stretches(tr, ts, k - 1);
      assert n > 0 ==> max * (n - 1) + max == max * n;
    }
  }

  /** In every run, the requests of a second that are admitted number at most the limit for each stretch that the word
      spends at that second. */
  lemma SecondLimit(max: nat, events: seq<Event>, tr: seq<Sys>, ts: nat)
    requires 1 <= max < HALF - 1 && IsRun(max, events, tr)
    ensures AdmissionsIn(max, events, tr, ts, |events|) <= max * Stretches(tr, ts, |events|)
  {
    var n := Stretches(tr, ts, |events|);
    SecondIsCharged(max, events, tr, ts, |events|);
    WindowLimit(max, events, tr, |events|);
    assert n > 0 ==> max * (n - 1) + max == max * n;
  }

  /** No write takes the timestamp half back. */
  ghost predicate ForwardAt(tr: seq<Sys>, i: nat)
    requires i + 1 < |tr|
  {
    TsOf(tr[i].word) <= TsOf(tr[i + 1].word)
  }

  lemma {:induction false} ForwardIsOneStretch(tr: seq<Sys>, ts: nat, k: nat)
    requires k < |tr| && forall i :: 0 <= i < |tr| - 1 ==> ForwardAt(tr, i)
    ensures Stretches(tr, ts, k) <= 1
    ensures TsOf(tr[k].word) < ts ==> Stretches(tr, ts, k) == 0
  {
    if k > 0 {
      ForwardIsOneStretch(tr, ts, k - 1);
      assert ForwardAt(tr, k - 1);
    }
  }

  /** As long as no write takes the timestamp half back, at most the limit of any one second is admitted. */
  lemma ForwardLimit(max: nat, events: seq<Event>, tr: seq<Sys>, ts: nat)
    requires 1 <= max < HALF - 1 && IsRun(max, events, tr)
    requires forall i :: 0 <= i < |events| ==> ForwardAt(tr, i)
    ensures AdmissionsIn(max, events, tr, ts, |events|) <= max
  {
    SecondLimit(max, events, tr, ts);
    ForwardIsOneStretch(tr, ts, |events|);
    assert max * Stretches(tr, ts, |events|) <= max * 1;
  }

  // ---------------------------------------------------------------- late threads

  lemma {:induction false} PrefixCounts(max: nat, events: seq<Event>, tr: seq<Sys>, e: Event, n: Sys, ts: nat, k: nat)
    requires |tr| == |events| + 1 && k <= |events|
    ensures AdmissionsIn(max, events + [e], tr + [n], ts, k) == AdmissionsIn(max, events, tr, ts, k)
    ensures Stretches(tr + [n], ts, k) == Stretches(tr, ts, k)
  {
    if k > 0 {
      PrefixCounts(max, events, tr, e, n, ts, k - 1);
    }
  }

  /** A run with its admissions and its stretches of one second. */
  datatype Run = Run(events: seq<Event>, tr: seq<Sys>)

  ghost predicate Counted(max: nat, r: Run, s: Sys, ts: nat, admitted: nat, stretches: nat) {
    && IsRun(max, r.events, r.tr) && r.tr[|r.events|] == s
    && AdmissionsIn(max, r.events, r.tr, ts, |r.events|) == admitted
    && Stretches(r.tr, ts, |r.events|) == stretches
  }

  lemma Extend(max: nat, r: Run, s: Sys, ts: nat, admitted: nat, stretches: nat, e: Event) returns (n: Run)
    requires Counted(max, r, s, ts, admitted, stretches) && Enabled(s, e)
    ensures var one := if Admits(max, s, e) && s.pcs[e.t].now == ts then 1 else 0;
            var begun := if TsOf(Step(max, s, e).word) == ts && TsOf(s.word) != ts then 1 else 0;
            Counted(max, n, Step(max, s, e), ts, admitted + one, stretches + begun)
  {
    var next := Step(max, s, e);
    n := Run(r.events + [e], r.tr + [next]);
    PrefixCounts(max, r.events, r.tr, e, next, ts, |r.events|);
    forall i: nat | i < |n.events| ensures StepAt(max, n.events, n.tr, i) {
      if i < |r.events| { assert StepAt(max, r.events, r.tr, i); }
    }
    assert AdmitsAt(max, n.events, n.tr, |r.events|) == Admits(max, s, e);
  }

  /** A thread outside the limiter checks a second as often as its limit allows, each time with success. */
  lemma {:induction false} Fill(max: nat, r: Run, s: Sys, t: nat, ts: nat, admitted: nat, stretches: nat, k: nat)
    returns (n: Run)
    requires 1 <= k <= max < HALF - 1 && ts < HALF && t in s.pcs && s.pcs[t].Idle? && TsOf(s.word) != ts
    requires Counted(max, r, s, ts, admitted, stretches)
    ensures Counted(max, n, s.(word := Pack(ts, k)), ts, admitted + k, stretches + 1)
  {
    var before := s;
    n := r;
    if k > 1 {
      n := Fill(max, r, s, t, ts, admitted, stretches, k - 1);
      before := s.(word := Pack(ts, k - 1));
      PackRoundTrip(ts, k - 1, 0);
    }
    PackRoundTrip(ts, k, 0);
    var checking := At(before, t, Checking(ts, before.word));
    n := Extend(max, n, before, ts, admitted + k - 1, if k > 1 then stretches + 1 else stretches, BeginCheck(t, ts));
    n := Extend(max, n, checking, ts, admitted + k - 1, if k > 1 then stretches + 1 else stretches, Swap(t, false));
    assert Step(max, checking, Swap(t, false)).pcs == s.pcs;
  }

  /** A thread that read an earlier second and was delayed since fails once and then takes the word back to its second. */
  lemma TakeBack(max: nat, r: Run, s: Sys, t: nat, ts: nat, admitted: nat, stretches: nat) returns (n: Run)
    requires 1 <= max < HALF - 1 && 0 < ts < HALF && s.word == Pack(ts, max)
    requires t in s.pcs && s.pcs[t] == Checking(ts - 1, 0)
    requires Counted(max, r, s, ts, admitted, stretches)
    ensures Counted(max, n, At(s.(word := Pack(ts - 1, 1)), t, Idle), ts, admitted, stretches)
  {
    PackRoundTrip(ts, max, 0);
    PackRoundTrip(ts - 1, 1, 0);
    PackRoundTrip(ts - 1, 0, 0);
    var reread := At(s, t, Checking(ts - 1, s.word));
    n := Extend(max, r, s, ts, admitted, stretches, Swap(t, false));
    n := Extend(max, n, reread, ts, admitted, stretches, Swap(t, false));
    assert Step(max, reread, Swap(t, false)).pcs == At(s, t, Idle).pcs;
  }

  function AllIdle(n: nat): (pcs: map<nat, Pc>)
    ensures forall t: nat :: t in pcs <==> t <= n
    ensures forall t: nat :: t in pcs ==> pcs[t] == Idle
  {
    if n == 0 then map[0 := Idle] else AllIdle(n - 1)[n := Idle]
  }

  /** Threads 1 to n read second ts - 1 and the empty word. */
  lemma {:induction false} BeginLate(max: nat, n: nat, ts: nat) returns (r: Run, s: Sys)
    requires 1 <= max < HALF - 1 && 0 < ts < HALF
    ensures Counted(max, r, s, ts, 0, 0) && s.word == 0 && 0 in s.pcs && s.pcs[0] == Idle
    ensures forall t: nat :: 1 <= t <= n ==> t in s.pcs && s.pcs[t] == Checking(ts - 1, 0)
  {
    r, s := BeginSome(max, AllIdle(n), n, ts);
  }

  lemma {:induction false} BeginSome(max: nat, start: map<nat, Pc>, k: nat, ts: nat) returns (r: Run, s: Sys)
    requires 1 <= max < HALF - 1 && 0 < ts < HALF
    requires forall t: nat :: t in start ==> start[t] == Idle
    requires forall t: nat :: 0 <= t <= k ==> t in start
    ensures Counted(max, r, s, ts, 0, 0) && s.word == 0 && s.pcs.Keys == start.Keys
    ensures forall t: nat :: t in start ==> s.pcs[t] == if 1 <= t <= k then Checking(ts - 1, 0) else Idle
  {
    if k == 0 {
      s := Sys(0, start);
      r := Run([], [s]);
    } else {
      r, s := BeginSome(max, start, k - 1, ts);
      r := Extend(max, r, s, ts, 0, 0, BeginCheck(k, ts - 1));
      s := At(s, k, Checking(ts - 1, 0));
    }
  }

  /** One late thread, and another full limit. */
  lemma OneMore(max: nat, r: Run, s: Sys, t: nat, ts: nat, admitted: nat, stretches: nat) returns (n: Run, after: Sys)
    requires 1 <= max < HALF - 1 && 0 < ts < HALF && s.word == Pack(ts, max) && 0 < t
    requires t in s.pcs && s.pcs[t] == Checking(ts - 1, 0) && 0 in s.pcs && s.pcs[0] == Idle
    requires Counted(max, r, s, ts, admitted, stretches)
    ensures Counted(max, n, after, ts, admitted + max, stretches + 1)
    ensures after == At(s, t, Idle)
  {
    n := TakeBack(max, r, s, t, ts, admitted, stretches);
    var back := At(s.(word := Pack(ts - 1, 1)), t, Idle);
    PackRoundTrip(ts - 1, 1, 0);
    n := Fill(max, n, back, 0, ts, admitted, stretches, max);
    after := At(s, t, Idle);
    assert after == back.(word := Pack(ts, max));
  }

  lemma {:induction false} Reopen(max: nat, r: Run, s: Sys, admitted: nat, stretches: nat, k: nat, ts: nat)
    returns (n: Run, after: Sys)
    requires 1 <= max < HALF - 1 && 0 < ts < HALF && s.word == Pack(ts, max) && 0 in s.pcs && s.pcs[0] == Idle
    requires forall t: nat :: 1 <= t <= k ==> t in s.pcs && s.pcs[t] == Checking(ts - 1, 0)
    requires Counted(max, r, s, ts, admitted, stretches)
    ensures Counted(max, n, after, ts, admitted + max * k, stretches + k)
    decreases k
  {
    if k == 0 {
      n, after := r, s;
    } else {
      n, after := OneMore(max, r, s, k, ts, admitted, stretches);
      n, after := Reopen(max, n, after, admitted + max, stretches + 1, k - 1, ts);
      assert max + max * (k - 1) == max * k;
    }
  }

  /** The bound is reached, for every limit and every number of stretches: each late thread lets one more full limit of the
      same second in. */
  lemma LateThreadsReopenSecond(max: nat, late: nat, ts: nat) returns (r: Run, s: Sys)
    requires 1 <= max < HALF - 1 && 0 < ts < HALF
    ensures Counted(max, r, s, ts, max + max * late, 1 + late)
  {
    r, s := BeginLate(max, late, ts);
    r := Fill(max, r, s, 0, ts, 0, 0, max);
    r, s := Reopen(max, r, s.(word := Pack(ts, max)), max, 1, late, ts);
  }
}
