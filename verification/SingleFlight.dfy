/** Single-flight collapsing: the first caller of a key leads, later callers follow its in-flight entry and poll the
    entry's result slot, and a follower that waits too long takes over as a leader without registering again.

    The map lock makes `try_flight` one step. `complete_flight` is two: it removes the entry and then, still holding the
    map lock, writes the slot; followers poll slots without the map lock, so they run in between. */
module SingleFlight {
  import opened Wrappers
  import opened Threads

  datatype Pc =
    | Idle
    | Following(key: nat, entry: nat)
    | Leading(key: nat)
    | Publishing(entry: nat, status: int)

  /** `slots` holds the result of every entry ever made. The last five fields are history: the status of the completion
      that removed an entry, what followers returned, the keys of the take-overs, the keys of the completions that found no
      entry, and the calls of `try_flight`. */
  datatype Sys = Sys(
    flights: map<nat, nat>,
    slots: seq<Option<int>>,
    lock: Option<nat>,
    pcs: map<nat, Pc>,
    leaderTotal: nat, collapsedTotal: nat,
    removedBy: map<nat, int>, returned: set<(nat, int)>, takeovers: multiset<nat>,
    unfound: multiset<nat>, calls: nat)

  datatype Event =
    | TryFlight(t: nat, key: nat)
    | Poll(t: nat)
    | GiveUp(t: nat)
    | Complete(t: nat, status: int)
    | Publish(t: nat)

  function Start(threads: set<nat>): Sys {
    Sys(map[], [], None, map t | t in threads :: Idle, 0, 0, map[], {}, multiset{}, multiset{}, 0)
  }

  predicate Enabled(s: Sys, e: Event) {
    && e.t in s.pcs
    && match e
       case TryFlight(t, _) => s.pcs[t].Idle? && s.lock.None?
       case Poll(t) => s.pcs[t].Following? && s.pcs[t].entry < |s.slots|
       case GiveUp(t) => s.pcs[t].Following?
       case Complete(t, _) => s.pcs[t].Leading? && s.lock.None?
       case Publish(t) => s.pcs[t].Publishing? && s.pcs[t].entry < |s.slots|
  }

  function At(s: Sys, t: nat, pc: Pc): Sys {
    s.(pcs := s.pcs[t := pc])
  }

  function Step(s: Sys, e: Event): Sys
    requires Enabled(s, e)
  {
    match e
    case TryFlight(t, key) =>
      if key in s.flights then
        At(s.(collapsedTotal := s.collapsedTotal + 1, calls := s.calls + 1), t, Following(key, s.flights[key]))
      else
        At(s.(flights := s.flights[key := |s.slots|], slots := s.slots + [None],
              leaderTotal := s.leaderTotal + 1, calls := s.calls + 1), t, Leading(key))
    case Poll(t) =>
      var entry := s.pcs[t].entry;
      if s.slots[entry].Some? then At(s.(returned := s.returned + {(entry, s.slots[entry].value)}), t, Idle) else s
    case GiveUp(t) =>
      At(s.(takeovers := s.takeovers + multiset{s.pcs[t].key}), t, Leading(s.pcs[t].key))
    case Complete(t, status) =>
      var key := s.pcs[t].key;
      if key in s.flights then
        At(s.(flights := s.flights - {key}, lock := Some(t), removedBy := s.removedBy[s.flights[key] := status]),
           t, Publishing(s.flights[key], status))
      else At(s.(unfound := s.unfound + multiset{key}), t, Idle)
    case Publish(t) =>
      At(s.(slots := s.slots[s.pcs[t].entry := Some(s.pcs[t].status)], lock := None), t, Idle)
  }

  // ---------------------------------------------------------------- entries and their slots

  /** Entries in the map are distinct, unpublished and never completed. */
  ghost predicate FlightsOpen(s: Sys) {
    && (forall k :: k in s.flights ==>
          s.flights[k] < |s.slots| && s.slots[s.flights[k]].None? && s.flights[k] !in s.removedBy)
    && (forall k, l :: k in s.flights && l in s.flights && k != l ==> s.flights[k] != s.flights[l])
  }

  /** The holder of the map lock is the one thread that is publishing, and its entry is out of the map. */
  ghost predicate LockHeld(s: Sys) {
    && (forall t :: t in s.pcs && s.pcs[t].Publishing? ==> s.lock == Some(t))
    && (s.lock.Some? ==>
          && s.lock.value in s.pcs && s.pcs[s.lock.value].Publishing?
          && var pc := s.pcs[s.lock.value];
             && pc.entry < |s.slots| && s.slots[pc.entry].None?
             && pc.entry in s.removedBy && s.removedBy[pc.entry] == pc.status
             && (forall k :: k in s.flights ==> s.flights[k] != pc.entry))
  }

  ghost predicate InMap(s: Sys, entry: nat) {
    exists k :: k in s.flights && s.flights[k] == entry
  }

  ghost predicate BeingPublished(s: Sys, entry: nat) {
    s.lock.Some? && s.lock.value in s.pcs && s.pcs[s.lock.value].Publishing? && s.pcs[s.lock.value].entry == entry
  }

  ghost predicate Accounted(s: Sys, entry: nat)
    requires entry < |s.slots|
  {
    && (InMap(s, entry) || BeingPublished(s, entry) || s.slots[entry].Some?)
    && (s.slots[entry].Some? ==> entry in s.removedBy && s.removedBy[entry] == s.slots[entry].value)
  }

  ghost predicate Honest(s: Sys) {
    && (forall r :: r in s.returned ==> r.0 < |s.slots| && s.slots[r.0] == Some(r.1))
    && (forall t :: t in s.pcs && s.pcs[t].Following? ==> s.pcs[t].entry < |s.slots|)
    && (forall e :: e in s.removedBy ==> e < |s.slots|)
  }

  ghost predicate Inv(s: Sys) {
    && FlightsOpen(s) && LockHeld(s) && Honest(s)
    && (forall entry: nat :: entry < |s.slots| ==> Accounted(s, entry))
  }

  lemma StepFlights(s: Sys, e: Event)
    requires Inv(s) && Enabled(s, e)
    ensures FlightsOpen(Step(s, e))
  {
  }

  lemma StepHonest(s: Sys, e: Event)
    requires Inv(s) && Enabled(s, e)
    ensures Honest(Step(s, e))
  {
  }

  lemma StepLock(s: Sys, e: Event)
    requires Inv(s) && Enabled(s, e)
    ensures LockHeld(Step(s, e))
  {
  }

  lemma StepAccounts(s: Sys, e: Event, entry: nat)
    requires FlightsOpen(s) && LockHeld(s) && Enabled(s, e) && entry < |Step(s, e).slots|
    requires entry < |s.slots| ==> Accounted(s, entry)
    ensures Accounted(Step(s, e), entry)
  {
    var n := Step(s, e);
    if entry == |s.slots| {
      assert e.key in n.flights && n.flights[e.key] == entry;
    } else {
      if InMap(s, entry) {
        var k :| k in s.flights && s.flights[k] == entry;
        if k in n.flights {
          assert n.flights[k] == entry;
        } else {
          assert BeingPublished(n, entry);
        }
      }
    }
  }

  lemma StepKeeps(s: Sys, e: Event)
    requires Inv(s) && Enabled(s, e)
    ensures Inv(Step(s, e))
  {
    StepFlights(s, e);
    StepHonest(s, e);
    StepLock(s, e);
    forall entry: nat | entry < |Step(s, e).slots| ensures Accounted(Step(s, e), entry) {
      StepAccounts(s, e, entry);
    }
  }

  // ---------------------------------------------------------------- runs

  ghost predicate StepAt(events: seq<Event>, tr: seq<Sys>, i: nat)
    requires |tr| == |events| + 1 && i < |events|
  {
    Enabled(tr[i], events[i]) && tr[i + 1] == Step(tr[i], events[i])
  }

  ghost predicate IsRun(threads: set<nat>, events: seq<Event>, tr: seq<Sys>) {
    && |tr| == |events| + 1
    && tr[0] == Start(threads)
    && forall i :: 0 <= i < |events| ==> StepAt(events, tr, i)
  }

  lemma {:induction false} RunKeeps(threads: set<nat>, events: seq<Event>, tr: seq<Sys>, k: nat)
    requires IsRun(threads, events, tr) && k <= |events|
    ensures Inv(tr[k])
  {
    if k > 0 {
      RunKeeps(threads, events, tr, k - 1);
      assert StepAt(events, tr, k - 1);
      StepKeeps(tr[k - 1], events[k - 1]);
    }
  }

  /** Whoever holds the map lock sees this: an entry that is no longer in the map has its result published, and it is
      the status of the completion that removed it. */
  lemma AbsentMeansPublished(threads: set<nat>, events: seq<Event>, tr: seq<Sys>, k: nat, entry: nat)
    requires IsRun(threads, events, tr) && k <= |events|
    requires tr[k].lock.None? && entry < |tr[k].slots| && !InMap(tr[k], entry)
    ensures tr[k].slots[entry].Some?
    ensures entry in tr[k].removedBy && tr[k].removedBy[entry] == tr[k].slots[entry].value
  {
    RunKeeps(threads, events, tr, k);
    assert Accounted(tr[k], entry);
  }

  lemma StepWritesOnce(s: Sys, e: Event, entry: nat)
    requires Inv(s) && Enabled(s, e) && entry < |s.slots| && s.slots[entry].Some?
    ensures entry < |Step(s, e).slots| && Step(s, e).slots[entry] == s.slots[entry]
  {
  }

  /** A slot is written at most once: what it holds once, it holds for the rest of the run. */
  lemma {:induction false} SlotsAreWrittenOnce(
      threads: set<nat>, events: seq<Event>, tr: seq<Sys>, i: nat, k: nat, entry: nat)
    requires IsRun(threads, events, tr) && i <= k <= |events|
    requires entry < |tr[i].slots| && tr[i].slots[entry].Some?
    ensures entry < |tr[k].slots| && tr[k].slots[entry] == tr[i].slots[entry]
  {
    if i < k {
      SlotsAreWrittenOnce(threads, events, tr, i, k - 1, entry);
      RunKeeps(threads, events, tr, k - 1);
      assert StepAt(events, tr, k - 1);
      StepWritesOnce(tr[k - 1], events[k - 1], entry);
    }
  }

  /** Event i is the completion, by a leader of its key, that removes an entry from the map. */
  ghost predicate Removes(events: seq<Event>, tr: seq<Sys>, i: nat, entry: nat, status: int)
    requires |tr| == |events| + 1
  {
    && i < |events| && events[i].Complete? && events[i].status == status && events[i].t in tr[i].pcs
    && var pc := tr[i].pcs[events[i].t];
       pc.Leading? && pc.key in tr[i].flights && tr[i].flights[pc.key] == entry && pc.key !in tr[i + 1].flights
  }

  lemma {:induction false} RemovalHasEvent(threads: set<nat>, events: seq<Event>, tr: seq<Sys>, k: nat, entry: nat)
    returns (i: nat)
    requires IsRun(threads, events, tr) && k <= |events| && entry in tr[k].removedBy
    ensures i < k && Removes(events, tr, i, entry, tr[k].removedBy[entry])
  {
    assert StepAt(events, tr, k - 1);
    RunKeeps(threads, events, tr, k - 1);
    if entry in tr[k - 1].removedBy && tr[k - 1].removedBy[entry] == tr[k].removedBy[entry] {
      i := RemovalHasEvent(threads, events, tr, k - 1, entry);
    } else {
      i := k - 1;
    }
  }

  /** All followers of one entry that do not time out return the same status, the one that the completion gave which removed
      the entry. */
  lemma FollowersAgree(threads: set<nat>, events: seq<Event>, tr: seq<Sys>, k: nat, entry: nat, a: int, b: int)
    returns (i: nat)
    requires IsRun(threads, events, tr) && k <= |events|
    requires (entry, a) in tr[k].returned && (entry, b) in tr[k].returned
    ensures a == b
    ensures i < k && Removes(events, tr, i, entry, a)
  {
    RunKeeps(threads, events, tr, k);
    assert tr[k].slots[entry] == Some(a) && tr[k].slots[entry] == Some(b);
    assert Accounted(tr[k], entry);
    i := RemovalHasEvent(threads, events, tr, k, entry);
  }

  // ---------------------------------------------------------------- leaders

  function Leads(key: nat): Pc -> bool {
    (pc: Pc) => pc.Leading? && pc.key == key
  }

  /** The leader of the entry in the map, and those left over: each take-over adds one, and each completion that finds no
      entry is one of them ending. */
  ghost predicate LeadersAccounted(s: Sys, key: nat) {
    CountIf(s.pcs, Leads(key)) + s.unfound[key] == (if key in s.flights then 1 else 0) + s.takeovers[key]
  }

  lemma StepLeaders(s: Sys, e: Event, key: nat)
    requires LeadersAccounted(s, key) && Enabled(s, e)
    ensures LeadersAccounted(Step(s, e), key)
    ensures Step(s, e).leaderTotal + Step(s, e).collapsedTotal - Step(s, e).calls
         == s.leaderTotal + s.collapsedTotal - s.calls
  {
    var n := Step(s, e);
    if e.Poll? && s.slots[s.pcs[e.t].entry].None? {
      assert n == s;
    } else {
      CountMove(s.pcs, e.t, n.pcs[e.t], Leads(key));
      assert n.pcs == s.pcs[e.t := n.pcs[e.t]];
    }
  }

  /** Exactly how many leaders a key has, at any time of any run: one if the key is in the map, plus the take-overs so far,
      less the completions so far that found no entry. So there is more than one exactly when those take-overs outnumber
      those completions, by one more if the key is not in the map; and there is never more than one plus the take-overs.
      Every call of `try_flight` has been counted once, as a leader or as collapsed. */
  lemma {:induction false} LeaderBound(threads: set<nat>, events: seq<Event>, tr: seq<Sys>, k: nat, key: nat)
    requires IsRun(threads, events, tr) && k <= |events|
    ensures CountIf(tr[k].pcs, Leads(key)) + tr[k].unfound[key]
         == (if key in tr[k].flights then 1 else 0) + tr[k].takeovers[key]
    ensures CountIf(tr[k].pcs, Leads(key)) > 1 <==>
              tr[k].takeovers[key] > tr[k].unfound[key] + if key in tr[k].flights then 0 else 1
    ensures CountIf(tr[k].pcs, Leads(key)) <= 1 + tr[k].takeovers[key]
    ensures tr[k].leaderTotal + tr[k].collapsedTotal == tr[k].calls
  {
    if k == 0 {
      CountNone(tr[0].pcs, Leads(key));
    } else {
      LeaderBound(threads, events, tr, k - 1, key);
      assert StepAt(events, tr, k - 1);
      StepLeaders(tr[k - 1], events[k - 1], key);
    }
  }

  // ---------------------------------------------------------------- runs with two leaders

  /** A run grows by any event that is enabled in its last state. */
  lemma Extend(threads: set<nat>, events: seq<Event>, tr: seq<Sys>, e: Event) returns (more: seq<Event>, states: seq<Sys>)
    requires IsRun(threads, events, tr) && Enabled(tr[|events|], e)
    ensures IsRun(threads, more, states) && |more| == |events| + 1 && states[|more|] == Step(tr[|events|], e)
  {
    more, states := events + [e], tr + [Step(tr[|events|], e)];
    forall i: nat | i < |more| ensures StepAt(more, states, i) {
      if i < |events| { assert StepAt(events, tr, i); }
    }
  }

  /** Two requests for the same key are with the backend at once: the follower of a slow leader gives up waiting. */
  lemma TwoLeaders(key: nat) returns (events: seq<Event>, tr: seq<Sys>)
    ensures IsRun({0, 1}, events, tr) && CountIf(tr[|events|].pcs, Leads(key)) == 2
    ensures tr[|events|].takeovers[key] == 1 && key in tr[|events|].flights
  {
    events, tr := [], [Start({0, 1})];
    events, tr := Extend({0, 1}, events, tr, TryFlight(0, key));
    events, tr := Extend({0, 1}, events, tr, TryFlight(1, key));
    events, tr := Extend({0, 1}, events, tr, GiveUp(1));
    assert Where(tr[|events|].pcs, Leads(key)) == {0, 1};
  }

  /** And two registered leaders may be, when no take-over is any more: the take-over completes first and publishes for the
      slow leader, whose key is then free for a third caller. */
  lemma TwoRegisteredLeaders(key: nat, status: int) returns (events: seq<Event>, tr: seq<Sys>)
    ensures IsRun({0, 1, 2}, events, tr) && Where(tr[|events|].pcs, Leads(key)) == {0, 2}
    ensures CountIf(tr[|events|].pcs, Leads(key)) == 2
    ensures tr[|events|].leaderTotal == 2 && 1 in tr[|events|].pcs && tr[|events|].pcs[1] == Idle
  {
    events, tr := [], [Start({0, 1, 2})];
    events, tr := Extend({0, 1, 2}, events, tr, TryFlight(0, key));
    events, tr := Extend({0, 1, 2}, events, tr, TryFlight(1, key));
    events, tr := Extend({0, 1, 2}, events, tr, GiveUp(1));
    events, tr := Extend({0, 1, 2}, events, tr, Complete(1, status));
    events, tr := Extend({0, 1, 2}, events, tr, Publish(1));
    events, tr := Extend({0, 1, 2}, events, tr, TryFlight(2, key));
    assert Where(tr[|events|].pcs, Leads(key)) == {0, 2};
  }
}
