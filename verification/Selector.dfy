/** Upstream selection: a weighted hash ring, power-of-two-choices on two hash-derived slots, a failover walk, and the
    canary split with its fallback.

    Upstreams are named by their position in the region's list; whether a position is usable, its latency average and
    its confidence are sampled once and passed in, and the hash is any function. */
module Selector {
  import opened Wrappers

  datatype Upstream = Upstream(name: string, address: string, weight: nat, version: string)

  datatype CanaryPolicy = CanaryPolicy(version: string, percent: nat)

  datatype Service = Service(regionalUpstreams: map<string, seq<Upstream>>, canary: Option<CanaryPolicy>)

  /** What is known of each upstream; `unmeasured` is the latency average of one without samples. */
  datatype Signals = Signals(usable: nat -> bool, ema: nat -> real, confidence: nat -> real, unmeasured: real)

  const P2C_LATENCY_ADVANTAGE: real := 0.8
  const EPSILON: real := 1.0 / 4503599627370496.0

  function AtLeastOne(w: nat): nat {
    if w < 1 then 1 else w
  }

  // ---------------------------------------------------------------- the ring

  ghost predicate InRange(pool: seq<nat>, n: nat) {
    forall i :: 0 <= i < |pool| ==> pool[i] < n
  }

  function TotalWeight(weights: seq<nat>): nat {
    if |weights| == 0 then 0 else TotalWeight(weights[..|weights| - 1]) + AtLeastOne(weights[|weights| - 1])
  }

  /** Each position in turn, as often as its weight says. */
  function Expanded(weights: seq<nat>): seq<nat> {
    if |weights| == 0 then []
    else Expanded(weights[..|weights| - 1]) + Repeated(|weights| - 1, AtLeastOne(weights[|weights| - 1]))
  }

  function Repeated(p: nat, times: nat): seq<nat> {
    if times == 0 then [] else Repeated(p, times - 1) + [p]
  }

  lemma {:induction false} RepeatedCounts(p: nat, times: nat)
    ensures |Repeated(p, times)| == times && multiset(Repeated(p, times))[p] == times
    ensures forall i :: 0 <= i < times ==> Repeated(p, times)[i] == p
  {
    if times > 0 {
      RepeatedCounts(p, times - 1);
    }
  }

  ghost predicate Weighted(ring: seq<nat>, weights: seq<nat>) {
    && |ring| == TotalWeight(weights) && InRange(ring, |weights|)
    && forall p: nat :: p < |weights| ==> multiset(ring)[p] == AtLeastOne(weights[p])
  }

  lemma {:induction false} ExpandedIsWeighted(weights: seq<nat>)
    ensures Weighted(Expanded(weights), weights)
  {
    if |weights| > 0 {
      var n := |weights| - 1;
      ExpandedIsWeighted(weights[..n]);
      RepeatedCounts(n, AtLeastOne(weights[n]));
      WeightedGrows(Expanded(weights[..n]), Repeated(n, AtLeastOne(weights[n])), weights);
    }
  }

  lemma WeightedGrows(ring: seq<nat>, run: seq<nat>, weights: seq<nat>)
    requires |weights| > 0 && Weighted(ring, weights[..|weights| - 1])
    requires |run| == AtLeastOne(weights[|weights| - 1]) == multiset(run)[|weights| - 1]
    requires forall i :: 0 <= i < |run| ==> run[i] == |weights| - 1
    ensures Weighted(ring + run, weights)
  {
    var n := |weights| - 1;
    assert n !in ring;
    forall p: nat | p < |weights| ensures multiset(ring + run)[p] == AtLeastOne(weights[p]) {
      assert p < n ==> p !in run && weights[..n][p] == weights[p];
      assert multiset(ring + run)[p] == multiset(ring)[p] + multiset(run)[p];
    }
  }

  /** Each position occurs in the ring as often as its weight says, at least once, and nothing else does. */
  method BuildWeightRing(weights: seq<nat>) returns (ring: seq<nat>)
    ensures ring == Expanded(weights) && Weighted(ring, weights)
    ensures forall p: nat :: p < |weights| ==> p in ring
  {
    ring := [];
    for i := 0 to |weights|
      invariant ring == Expanded(weights[..i])
    {
      ghost var before: seq<nat> := ring;
      for k := 0 to AtLeastOne(weights[i])
        invariant ring == before + Repeated(i, k)
      {
        ring := ring + [i];
      }
      assert weights[..i + 1][..i] == weights[..i];
    }
    assert weights[..|weights|] == weights;
    ExpandedIsWeighted(weights);
    forall p: nat | p < |weights| ensures p in ring {
      assert p in multiset(ring);
    }
  }

  function HashIndex(hash: string -> nat, key: string, len: nat): (i: nat)
    ensures len > 0 ==> i < len
  {
    if len == 0 then 0 else hash(key) % len
  }

  // ---------------------------------------------------------------- choosing in a pool

  /** The usable positions of the ring, each looked at once. */
  method CollectHealthy(pool: seq<nat>, ring: seq<nat>, usable: nat -> bool) returns (healthy: set<nat>)
    requires InRange(ring, |pool|)
    ensures forall p :: p in healthy <==> p in ring && usable(pool[p])
  {
    var seen: set<nat> := {};
    healthy := {};
    for k := 0 to |ring|
      invariant forall p :: p in seen <==> p in ring[..k]
      invariant forall p :: p in healthy <==> p in seen && p in ring && usable(pool[p])
    {
      var pos := ring[k];
      assert ring[..k + 1] == ring[..k] + [pos];
      if pos in seen {
        continue;
      }
      seen := seen + {pos};
      if usable(pool[pos]) {
        healthy := healthy + {pos};
      }
    }
  }

  /** The latency average, penalised by low confidence. */
  function Score(sig: Signals, u: nat): real {
    sig.ema(u) * (1.0 + (100.0 - sig.confidence(u)) / 50.0)
  }

  /** The better of two usable slots, by latency penalised for low confidence; the primary when in doubt. */
  function PickP2C(pool: seq<nat>, a: nat, b: nat, healthy: set<nat>, sig: Signals): (r: Option<nat>)
    requires a < |pool| && b < |pool|
    ensures r.Some? <==> a in healthy || b in healthy
    ensures r.Some? ==> r.value in healthy && (r.value == a || r.value == b)
  {
    if a in healthy && b in healthy && a != b then
      var emaA, emaB := sig.ema(pool[a]), sig.ema(pool[b]);
      var scoreA, scoreB := Score(sig, pool[a]), Score(sig, pool[b]);
      if emaA >= sig.unmeasured && emaB >= sig.unmeasured then Some(a)
      else if scoreB < scoreA * P2C_LATENCY_ADVANTAGE then Some(b)
      else if scoreA < scoreB * P2C_LATENCY_ADVANTAGE then Some(a)
      else if -EPSILON < scoreA - scoreB < EPSILON then Some(a)
      else if scoreB < scoreA then Some(b)
      else Some(a)
    else if a in healthy then Some(a)
    else if b in healthy then Some(b)
    else None
  }

  lemma ScoreIsNatural(sig: Signals, u: nat)
    requires sig.ema(u) >= 0.0 && sig.confidence(u) <= 100.0
    ensures Score(sig, u) >= 0.0
  {
  }

  /** Which of two usable slots wins. With latencies that are not negative and confidences of at most 100, the alternative
      is taken exactly when one of the two has been measured and its score is lower, by a fifth or by the rounding
      tolerance; so the winner's score never exceeds the loser's by more than that tolerance. */
  lemma PickIsBetter(pool: seq<nat>, a: nat, b: nat, healthy: set<nat>, sig: Signals)
    requires a < |pool| && b < |pool| && a != b && a in healthy && b in healthy
    requires sig.ema(pool[a]) >= 0.0 && sig.confidence(pool[a]) <= 100.0
    requires sig.ema(pool[b]) >= 0.0 && sig.confidence(pool[b]) <= 100.0
    ensures var measured := sig.ema(pool[a]) < sig.unmeasured || sig.ema(pool[b]) < sig.unmeasured;
            var scoreA := sig.ema(pool[a]) * (1.0 + (100.0 - sig.confidence(pool[a])) / 50.0);
            var scoreB := sig.ema(pool[b]) * (1.0 + (100.0 - sig.confidence(pool[b])) / 50.0);
            var r := PickP2C(pool, a, b, healthy, sig);
            && (r == Some(b) <==>
                  measured && (scoreB < scoreA * 0.8 || scoreB <= scoreA - EPSILON))
            && (r == Some(b) ==> scoreB < scoreA)
            && (measured && r == Some(a) ==> scoreA < scoreB + EPSILON)
  {
    ScoreIsNatural(sig, pool[a]);
    ScoreIsNatural(sig, pool[b]);
  }

  /** The position found by walking `offset` slots clockwise. */
  function SlotAt(ring: seq<nat>, primary: nat, offset: nat): (pos: nat)
    requires |ring| > 0
    ensures pos in ring
  {
    ring[(primary + offset) % |ring|]
  }

  lemma ModOnce(x: nat, n: nat)
    requires 0 < n && x < 2 * n
    ensures x % n == if x < n then x else x - n
  {
    assert x >= n ==> x / n == 1;
  }

  /** The walk visits every slot: slot j lies at some offset below the length of the ring. */
  lemma WalkReaches(ring: seq<nat>, primary: nat, j: nat) returns (offset: nat)
    requires primary < |ring| && j < |ring|
    ensures offset < |ring| && SlotAt(ring, primary, offset) == ring[j]
  {
    offset := if primary <= j then j - primary else j + |ring| - primary;
    ModOnce(primary + offset, |ring|);
  }

  /** And it visits no slot twice. */
  lemma WalkVisitsOnce(n: nat, primary: nat, o: nat, q: nat)
    requires primary < n && o < q < n
    ensures (primary + o) % n != (primary + q) % n
  {
    ModOnce(primary + o, n);
    ModOnce(primary + q, n);
  }

  ghost predicate NoneBefore(ring: seq<nat>, primary: nat, healthy: set<nat>, offset: nat)
    requires |ring| > 0
  {
    forall o: nat :: o < offset ==> SlotAt(ring, primary, o) !in healthy
  }

  /** The walk comes to a position before it comes to any other usable one. */
  ghost predicate FirstOnWalk(ring: seq<nat>, primary: nat, healthy: set<nat>, pos: nat)
    requires |ring| > 0
  {
    exists offset: nat ::
      offset < |ring| && NoneBefore(ring, primary, healthy, offset) && SlotAt(ring, primary, offset) == pos
  }

  lemma WalkIsExhaustive(ring: seq<nat>, primary: nat, healthy: set<nat>)
    requires primary < |ring| && NoneBefore(ring, primary, healthy, |ring|)
    ensures forall p :: p in ring ==> p !in healthy
  {
    forall p | p in ring ensures p !in healthy {
      var j :| 0 <= j < |ring| && ring[j] == p;
      var offset := WalkReaches(ring, primary, j);
    }
  }

  /** The first usable position clockwise from the primary slot; nothing is found only when nothing is usable. */
  method Failover(ring: seq<nat>, primary: nat, healthy: set<nat>) returns (r: Option<nat>)
    requires primary < |ring|
    ensures r.None? <==> forall p :: p in ring ==> p !in healthy
    ensures r.Some? ==> r.value in healthy && FirstOnWalk(ring, primary, healthy, r.value)
  {
    for offset := 0 to |ring|
      invariant NoneBefore(ring, primary, healthy, offset)
    {
      var pos := SlotAt(ring, primary, offset);
      if pos in healthy {
        return Some(pos);
      }
    }
    WalkIsExhaustive(ring, primary, healthy);
    r := None;
  }

  /** The winner of the two choices when either is usable, and the first usable position of the walk otherwise. */
  ghost predicate Chosen(pool: seq<nat>, ring: seq<nat>, primary: nat, alt: nat, healthy: set<nat>, sig: Signals, pos: nat)
    requires primary < |ring| && alt < |ring| && InRange(ring, |pool|)
  {
    if ring[primary] in healthy || ring[alt] in healthy then
      PickP2C(pool, ring[primary], ring[alt], healthy, sig) == Some(pos)
    else
      pos in healthy && FirstOnWalk(ring, primary, healthy, pos)
  }

  ghost predicate HasUsable(pool: seq<nat>, usable: nat -> bool) {
    exists u :: u in pool && usable(u)
  }

  function KeyOf(user: Option<string>): string {
    if user.Some? then user.value else "anonymous"
  }

  function Weights(ups: seq<Upstream>, pool: seq<nat>): (weights: seq<nat>)
    requires InRange(pool, |ups|)
    ensures |weights| == |pool|
    ensures forall i :: 0 <= i < |pool| ==> weights[i] == ups[pool[i]].weight
  {
    if |pool| == 0 then [] else Weights(ups, pool[..|pool| - 1]) + [ups[pool[|pool| - 1]].weight]
  }

  /** Power-of-two-choices between the primary and the alternative slot, then failover. */
  method ChooseOnRing(pool: seq<nat>, ring: seq<nat>, primary: nat, alt: nat, healthy: set<nat>, sig: Signals)
    returns (r: Option<nat>)
    requires primary < |ring| && alt < |ring| && InRange(ring, |pool|)
    requires forall p :: p in healthy ==> p in ring
    ensures r.Some? <==> healthy != {}
    ensures r.Some? ==> r.value in healthy
    ensures r.Some? ==> Chosen(pool, ring, primary, alt, healthy, sig, r.value)
  {
    r := PickP2C(pool, ring[primary], ring[alt], healthy, sig);
    if r.Some? {
      return;
    }
    r := Failover(ring, primary, healthy);
  }

  /** The position a pool's ring leads a client to, by the two slots of its key. */
  ghost predicate LeadsTo(
      ups: seq<Upstream>, pool: seq<nat>, user: Option<string>, hash: string -> nat, sig: Signals, u: nat)
    requires InRange(pool, |ups|)
  {
    var ring := Expanded(Weights(ups, pool));
    && |ring| > 0 && InRange(ring, |pool|)
    && exists pos: nat ::
         pos < |pool| && pool[pos] == u
         && var key := if user.Some? then user.value else "anonymous";
            Chosen(pool, ring, hash(key) % |ring|, hash(key + ":p2c") % |ring|,
                   (set p | p in ring && sig.usable(pool[p])), sig, pos)
  }

  /** Selection in a pool: it yields a usable member exactly when there is one, and it is the one that the client's key
      leads to on the weighted ring. */
  method SelectFrom(ups: seq<Upstream>, pool: seq<nat>, user: Option<string>, hash: string -> nat, sig: Signals)
    returns (r: Option<nat>)
    requires InRange(pool, |ups|)
    ensures r.Some? <==> HasUsable(pool, sig.usable)
    ensures r.Some? ==> r.value in pool && sig.usable(r.value) && LeadsTo(ups, pool, user, hash, sig, r.value)
  {
    if |pool| == 0 {
      return None;
    }
    var key := KeyOf(user);
    var ring := BuildWeightRing(Weights(ups, pool));
    assert 0 in ring;
    var primary := HashIndex(hash, key, |ring|);
    var alt := HashIndex(hash, key + ":p2c", |ring|);
    var healthy := CollectHealthy(pool, ring, sig.usable);
    HealthyIffUsable(pool, ring, healthy, sig.usable);
    if healthy == {} {
      return None;
    }
    assert healthy == set p | p in ring && sig.usable(pool[p]);
    var pos := ChooseOnRing(pool, ring, primary, alt, healthy, sig);
    r := Some(pool[pos.value]);
  }

  lemma HealthyIffUsable(pool: seq<nat>, ring: seq<nat>, healthy: set<nat>, usable: nat -> bool)
    requires InRange(ring, |pool|) && forall i: nat :: i < |pool| ==> i in ring
    requires forall p :: p in healthy <==> p in ring && usable(pool[p])
    ensures healthy != {} <==> HasUsable(pool, usable)
  {
    if HasUsable(pool, usable) {
      var u :| u in pool && usable(u);
      var i :| 0 <= i < |pool| && pool[i] == u;
      assert i in healthy;
    }
    if healthy != {} {
      var p :| p in healthy;
      assert pool[p] in pool && usable(pool[p]);
    }
  }

  // ---------------------------------------------------------------- the canary split

  const BUCKETS: nat := 10_000

  function EffectivePercent(policy: CanaryPolicy): nat {
    if policy.percent < 100 then policy.percent else 100
  }

  /** Whether a client belongs to the canary-first group. */
  predicate CanaryFirst(policy: CanaryPolicy, user: Option<string>, hint: string, hash: string -> nat) {
    || hint == policy.version
    || HashIndex(hash, KeyOf(user) + ":canary", BUCKETS) < EffectivePercent(policy) * 100
  }

  /** A client is in the canary-first group by its hint, or when its bucket of the 10 000 is among the first hundred for each
      percent. Raising the percentage only ever moves clients into the canary-first group; at 100 everyone is in it. */
  lemma RolloutIsMonotone(version: string, p: nat, q: nat, user: Option<string>, hint: string, hash: string -> nat)
    ensures p <= q && CanaryFirst(CanaryPolicy(version, p), user, hint, hash) ==>
              CanaryFirst(CanaryPolicy(version, q), user, hint, hash)
    ensures CanaryFirst(CanaryPolicy(version, p), user, hint, hash) <==>
              || hint == version
              || hash((if user.Some? then user.value else "anonymous") + ":canary") % 10_000
                 < 100 * if p < 100 then p else 100
    ensures CanaryFirst(CanaryPolicy(version, 0), user, hint, hash) <==> hint == version
    ensures q >= 100 ==> CanaryFirst(CanaryPolicy(version, q), user, hint, hash)
  {
  }

  function Everyone(n: nat): (pool: seq<nat>)
    ensures InRange(pool, n) && forall u: nat :: u in pool <==> u < n
  {
    if n == 0 then [] else Everyone(n - 1) + [n - 1]
  }

  /** The positions that carry a version, or that do not, in order. */
  function MembersOf(ups: seq<Upstream>, version: string, carry: bool): (pool: seq<nat>)
    ensures InRange(pool, |ups|)
    ensures forall u: nat :: u in pool <==> u < |ups| && (ups[u].version == version) == carry
  {
    if |ups| == 0 then []
    else
      var rest, u := MembersOf(ups[..|ups| - 1], version, carry), |ups| - 1;
      if (ups[u].version == version) == carry then rest + [u] else rest
  }

  method Members(ups: seq<Upstream>, version: string, carry: bool) returns (pool: seq<nat>)
    ensures pool == MembersOf(ups, version, carry)
  {
    pool := [];
    for u := 0 to |ups|
      invariant pool == MembersOf(ups[..u], version, carry)
    {
      assert ups[..u + 1][..u] == ups[..u];
      if (ups[u].version == version) == carry {
        pool := pool + [u];
      }
    }
    assert ups[..|ups|] == ups;
  }

  /** Whether position u belongs to the subset that a client is tried on first. */
  predicate Preferred(ups: seq<Upstream>, policy: CanaryPolicy, first: bool, u: nat)
    requires u < |ups|
  {
    (ups[u].version == policy.version) == first
  }

  ghost predicate Routed(
      ups: seq<Upstream>, canary: Option<CanaryPolicy>, user: Option<string>, hint: string, hash: string -> nat,
      usable: nat -> bool, u: nat)
  {
    && u < |ups| && usable(u)
    && (canary.Some? && canary.value.version != "" ==>
          var first := CanaryFirst(canary.value, user, hint, hash);
          (exists w: nat :: w < |ups| && usable(w) && Preferred(ups, canary.value, first, w)) ==>
            Preferred(ups, canary.value, first, u))
  }

  /** Where the client's key leads: in the whole pool without a canary policy, and otherwise in the client's own group, or in
      the other one when its own has no usable member. */
  ghost predicate Led(
      ups: seq<Upstream>, canary: Option<CanaryPolicy>, user: Option<string>, hint: string, hash: string -> nat,
      sig: Signals, u: nat)
  {
    if canary.None? || canary.value.version == "" then
      LeadsTo(ups, Everyone(|ups|), user, hash, sig, u)
    else
      var first := CanaryFirst(canary.value, user, hint, hash);
      var own := MembersOf(ups, canary.value.version, first);
      LeadsTo(ups, if HasUsable(own, sig.usable) then own else MembersOf(ups, canary.value.version, !first),
              user, hash, sig, u)
  }

  ghost predicate Available(service: Option<Service>, region: string, usable: nat -> bool) {
    && service.Some? && region in service.value.regionalUpstreams
    && exists u: nat :: u < |service.value.regionalUpstreams[region]| && usable(u)
  }

  /** Selection keeps availability: an address comes back exactly when the region's pool has a usable member, it is that
      of a usable member, one of the client's own group whenever that group has one, and the one that the client's key
      leads to there. */
  method SelectUpstream(
      service: Option<Service>, region: string, user: Option<string>, hint: string, hash: string -> nat, sig: Signals)
    returns (r: Option<string>)
    ensures r.Some? <==> Available(service, region, sig.usable)
    ensures r.Some? ==>
              var ups := service.value.regionalUpstreams[region];
              exists u: nat :: u < |ups| && r.value == ups[u].address
                       && Routed(ups, service.value.canary, user, hint, hash, sig.usable, u)
                       && Led(ups, service.value.canary, user, hint, hash, sig, u)
  {
    if service.None? || region !in service.value.regionalUpstreams {
      return None;
    }
    var ups := service.value.regionalUpstreams[region];
    if |ups| == 0 {
      return None;
    }
    var pick := SelectPosition(ups, service.value.canary, user, hint, hash, sig);
    if pick.None? {
      return None;
    }
    r := Some(ups[pick.value].address);
  }

  method SelectPosition(
      ups: seq<Upstream>, canary: Option<CanaryPolicy>, user: Option<string>, hint: string, hash: string -> nat,
      sig: Signals)
    returns (pick: Option<nat>)
    ensures pick.Some? <==> exists u: nat :: u < |ups| && sig.usable(u)
    ensures pick.Some? ==> Routed(ups, canary, user, hint, hash, sig.usable, pick.value)
    ensures pick.Some? ==> Led(ups, canary, user, hint, hash, sig, pick.value)
  {
    if canary.None? || canary.value.version == "" {
      pick := SelectFrom(ups, Everyone(|ups|), user, hash, sig);
    } else {
      pick := SelectSplit(ups, canary.value, user, hint, hash, sig);
    }
  }

  method SelectSplit(
      ups: seq<Upstream>, policy: CanaryPolicy, user: Option<string>, hint: string, hash: string -> nat, sig: Signals)
    returns (pick: Option<nat>)
    requires policy.version != ""
    ensures pick.Some? <==> exists u: nat :: u < |ups| && sig.usable(u)
    ensures pick.Some? ==> Routed(ups, Some(policy), user, hint, hash, sig.usable, pick.value)
    ensures pick.Some? ==> Led(ups, Some(policy), user, hint, hash, sig, pick.value)
  {
    var canaries := Members(ups, policy.version, true);
    var stables := Members(ups, policy.version, false);
    assert forall u: nat :: u < |ups| ==> u in canaries || u in stables;
    if |canaries| == 0 {
      pick := SelectFrom(ups, stables, user, hash, sig);
      return;
    }
    if |stables| == 0 {
      pick := SelectFrom(ups, canaries, user, hash, sig);
      return;
    }
    if CanaryFirst(policy, user, hint, hash) {
      pick := SelectFrom(ups, canaries, user, hash, sig);
      if pick.None? {
        pick := SelectFrom(ups, stables, user, hash, sig);
      }
    } else {
      pick := SelectFrom(ups, stables, user, hash, sig);
      if pick.None? {
        pick := SelectFrom(ups, canaries, user, hash, sig);
      }
    }
  }
}
