/** The revocation snapshot and its delta sync. Publishers index revocations and token-version changes in two score
    indexes; each worker pulls only the members scored at or above its watermark less an overlap, rebuilds the snapshot
    from the previous one and the delta, and publishes it.

    Scores are 64-bit floats in the original: here they are reals with the two infinities. */
module Revocation {
  import opened Wrappers

  const U64_MAX: nat := 0xFFFF_FFFF_FFFF_FFFF

  // ---------------------------------------------------------------- scores

  datatype Score = NegInf | Fin(v: real) | PosInf

  predicate Le(a: Score, b: Score) {
    a == NegInf || b == PosInf || (a.Fin? && b.Fin? && a.v <= b.v)
  }

  /** The conversion of a score to an unsigned integer: it truncates, and it saturates at both ends. */
  function ToU64(s: Score): (n: nat)
    ensures n <= U64_MAX
    ensures s.Fin? && 0.0 <= s.v < 0x1_0000_0000_0000_0000 as real ==> n as real <= s.v < n as real + 1.0
    ensures s.NegInf? || (s.Fin? && s.v < 0.0) ==> n == 0
    ensures s.PosInf? || (s.Fin? && s.v >= 0x1_0000_0000_0000_0000 as real) ==> n == 0xFFFF_FFFF_FFFF_FFFF
  {
    match s
    case NegInf => 0
    case PosInf => U64_MAX
    case Fin(v) => if v < 0.0 then 0 else if v.Floor > U64_MAX then U64_MAX else v.Floor
  }

  /** Where a delta begins: the watermark less the overlap for clock skew. */
  function From(watermark: Score, overlap: real): Score {
    if watermark.Fin? then Fin(watermark.v - overlap) else watermark
  }

  const SKEW_OVERLAP_SECS: real := 60.0
  const SKEW_OVERLAP_MS: real := 60_000.0
  const MGET_CHUNK: nat := 500
  const GC_AGE_SECS: nat := 3600

  // ---------------------------------------------------------------- Redis and the worker

  type Index = map<string, Score>

  /** What a cycle reads: the two indexes, and the floor strings by user. */
  datatype Redis = Redis(revIndex: Index, tvIndex: Index, values: map<string, string>)

  datatype Snapshot = Snapshot(
    revoked: map<string, nat>, tvFloors: map<string, nat>, syncedAtMs: nat, generation: nat)

  const EMPTY_SNAPSHOT := Snapshot(map[], map[], 0, 0)

  /** The rows of a range query: the members scored at or above `from` with their scores, and no others. */
  ghost predicate IsRange(rows: seq<(string, Score)>, index: Index, from: Score) {
    && (forall i :: 0 <= i < |rows| ==> rows[i].0 in index && rows[i].1 == index[rows[i].0] && Le(from, rows[i].1))
    && (forall m :: m in index && Le(from, index[m]) ==> (m, index[m]) in rows)
  }

  /** The index restricted to a delta. */
  function Delta(index: Index, from: Score): Index {
    map m | m in index && Le(from, index[m]) :: index[m]
  }

  function FloorOf(redis: Redis, parse: string -> Option<nat>, user: string): Option<nat> {
    if user in redis.values then parse(redis.values[user]) else None
  }

  // ---------------------------------------------------------------- what a cycle computes

  /** The previous entries that have not expired, overwritten by the delta. */
  function RebuiltRevoked(prev: map<string, nat>, index: Index, from: Score, now: nat): map<string, nat> {
    (map k | k in prev && prev[k] > now :: prev[k]) + (map k | k in Delta(index, from) :: ToU64(index[k]))
  }

  /** The previous floors, with those of the changed users replaced, or dropped where Redis has none. */
  function RebuiltFloors(
      prev: map<string, nat>, redis: Redis, parse: string -> Option<nat>, from: Score): map<string, nat>
  {
    var changed := Delta(redis.tvIndex, from);
    (map u | u in prev && u !in changed :: prev[u])
    + (map u | u in changed && FloorOf(redis, parse, u).Some? :: FloorOf(redis, parse, u).value)
  }

  /** The greatest of a watermark and the scores of a delta. */
  ghost predicate IsTop(top: Score, watermark: Score, index: Index, from: Score) {
    && Le(watermark, top)
    && (forall m :: m in index && Le(from, index[m]) ==> Le(index[m], top))
    && (top == watermark || exists m :: m in index && Le(from, index[m]) && index[m] == top)
  }

  /** A watermark moves to the greatest score pulled, and stays where it is when that is not finite. */
  ghost predicate Advanced(before: Score, after: Score, index: Index, from: Score) {
    exists top :: IsTop(top, before, index, from) && after == if top.Fin? then top else before
  }

  /** What a worker keeps between cycles. */
  datatype Worker = Worker(snapshot: Snapshot, lastRev: Score, lastTv: Score)

  const FRESH_WORKER := Worker(EMPTY_SNAPSHOT, NegInf, NegInf)

  function RevFrom(w: Worker): Score {
    From(w.lastRev, SKEW_OVERLAP_SECS)
  }

  function TvFrom(w: Worker): Score {
    From(w.lastTv, SKEW_OVERLAP_MS)
  }

  /** The outcome of a successful cycle. */
  ghost predicate Synced(w: Worker, n: Worker, redis: Redis, parse: string -> Option<nat>, now: nat, nowMs: nat) {
    && n.snapshot.revoked == RebuiltRevoked(w.snapshot.revoked, redis.revIndex, RevFrom(w), now)
    && n.snapshot.tvFloors == RebuiltFloors(w.snapshot.tvFloors, redis, parse, TvFrom(w))
    && n.snapshot.syncedAtMs == nowMs
    && n.snapshot.generation == w.snapshot.generation + 1
    && Advanced(w.lastRev, n.lastRev, redis.revIndex, RevFrom(w))
    && Advanced(w.lastTv, n.lastTv, redis.tvIndex, TvFrom(w))
  }

  /** Index entries that expired more than an hour ago are dropped after a successful cycle. */
  function Collected(redis: Redis, now: nat): Redis {
    var cutoff := Fin((if now < GC_AGE_SECS then 0 else now - GC_AGE_SECS) as real);
    redis.(revIndex := map k | k in redis.revIndex && !Le(redis.revIndex[k], cutoff) :: redis.revIndex[k])
  }

  // ---------------------------------------------------------------- the sync thread

  /** Which command of a cycle fails, if any: the connection, one of the two range queries, or a floor fetch. */
  datatype Fault = NoFault | Connect | RevQuery | TvQuery | FloorFetch(chunk: nat)

  /** Whether a fault stops a cycle that has n floors to fetch: a failing fetch does when its chunk is reached. */
  predicate Interrupted(fault: Fault, n: nat) {
    match fault
    case NoFault => false
    case FloorFetch(chunk) => chunk * MGET_CHUNK < n
    case _ => true
  }

  /** Redis answers a range query; the order of the rows is its own. */
  method RangeByScore(index: Index, from: Score) returns (rows: seq<(string, Score)>)
    ensures IsRange(rows, index, from) && |rows| == |Delta(index, from)|
  {
    rows := [];
    var keys := index.Keys;
    ghost var found: set<string> := {};
    while keys != {}
      invariant keys <= index.Keys
      invariant |rows| == |found| && forall m :: m in found <==> m in index && m !in keys && Le(from, index[m])
      invariant forall i :: 0 <= i < |rows| ==>
                  rows[i].0 in index && rows[i].1 == index[rows[i].0] && Le(from, rows[i].1)
      invariant forall m :: m in index && m !in keys && Le(from, index[m]) ==> (m, index[m]) in rows
      decreases keys
    {
      var m :| m in keys;
      keys := keys - {m};
      if Le(from, index[m]) {
        rows := rows + [(m, index[m])];
        found := found + {m};
      }
    }
    assert Delta(index, from).Keys == found;
  }

  /** The next watermark, by a pass over the delta. */
  method NextWatermark(watermark: Score, rows: seq<(string, Score)>, ghost index: Index, ghost from: Score)
    returns (next: Score)
    requires IsRange(rows, index, from)
    ensures Advanced(watermark, next, index, from)
  {
    var top := watermark;
    for k := 0 to |rows|
      invariant Le(watermark, top) && forall i :: 0 <= i < k ==> Le(rows[i].1, top)
      invariant top == watermark || exists i :: 0 <= i < k && rows[i].1 == top
    {
      if !Le(rows[k].1, top) {
        top := rows[k].1;
      }
    }
    forall m | m in index && Le(from, index[m]) ensures Le(index[m], top) {
      var i :| 0 <= i < |rows| && rows[i] == (m, index[m]);
    }
    assert IsTop(top, watermark, index, from);
    next := if top.Fin? then top else watermark;
  }

  /** The floors of the changed users, fetched in chunks; a chunk that fails fails the cycle. */
  method FetchFloors(redis: Redis, parse: string -> Option<nat>, users: seq<string>, fault: Fault)
    returns (ok: bool, fetched: map<string, Option<nat>>)
    ensures ok <==> !(fault.FloorFetch? && fault.chunk * MGET_CHUNK < |users|)
    ensures ok ==> forall u :: u in fetched <==> u in users
    ensures ok ==> forall u :: u in fetched ==> fetched[u] == FloorOf(redis, parse, u)
  {
    fetched := map[];
    var done, chunk := 0, 0;
    while done < |users|
      invariant 0 <= done <= |users|
      invariant done == chunk * MGET_CHUNK || (done == |users| && |users| <= chunk * MGET_CHUNK)
      invariant fault.FloorFetch? ==> chunk <= fault.chunk
      invariant forall u :: u in fetched <==> u in users[..done]
      invariant forall u :: u in fetched ==> fetched[u] == FloorOf(redis, parse, u)
    {
      if fault == FloorFetch(chunk) {
        return false, map[];
      }
      var end := if done + MGET_CHUNK < |users| then done + MGET_CHUNK else |users|;
      for i := done to end
        invariant forall u :: u in fetched <==> u in users[..i]
        invariant forall u :: u in fetched ==> fetched[u] == FloorOf(redis, parse, u)
      {
        assert users[..i + 1] == users[..i] + [users[i]];
        fetched := fetched[users[i] := FloorOf(redis, parse, users[i])];
      }
      done, chunk := end, chunk + 1;
    }
    assert users[..done] == users;
    ok := true;
  }

  /** The revoked map of the new snapshot. */
  method RebuildRevoked(prev: map<string, nat>, rows: seq<(string, Score)>, now: nat, ghost index: Index, ghost from: Score)
    returns (revoked: map<string, nat>)
    requires IsRange(rows, index, from)
    ensures revoked == RebuiltRevoked(prev, index, from, now)
  {
    var kept := map k | k in prev && prev[k] > now :: prev[k];
    revoked := kept;
    ghost var pulled: map<string, nat> := map[];
    for i := 0 to |rows|
      invariant revoked == kept + pulled
      invariant forall k :: k in pulled ==> k in Delta(index, from) && pulled[k] == ToU64(index[k])
      invariant forall j :: 0 <= j < i ==> rows[j].0 in pulled
    {
      revoked := revoked[rows[i].0 := ToU64(rows[i].1)];
      pulled := pulled[rows[i].0 := ToU64(rows[i].1)];
    }
    PulledAll(rows, pulled, index, from);
  }

  lemma PulledAll(rows: seq<(string, Score)>, pulled: map<string, nat>, index: Index, from: Score)
    requires IsRange(rows, index, from)
    requires forall k :: k in pulled ==> k in Delta(index, from) && pulled[k] == ToU64(index[k])
    requires forall j :: 0 <= j < |rows| ==> rows[j].0 in pulled
    ensures pulled == map k | k in Delta(index, from) :: ToU64(index[k])
  {
    forall k | k in Delta(index, from) ensures k in pulled {
      var j :| 0 <= j < |rows| && rows[j] == (k, index[k]);
    }
  }

  /** The users of a delta. */
  method ChangedUsers(rows: seq<(string, Score)>, ghost index: Index, ghost from: Score) returns (users: seq<string>)
    requires IsRange(rows, index, from)
    ensures |users| == |rows| && forall u :: u in users <==> u in Delta(index, from)
  {
    users := [];
    for i := 0 to |rows|
      invariant |users| == i && forall j :: 0 <= j < i ==> users[j] == rows[j].0
    {
      users := users + [rows[i].0];
    }
    forall u | u in Delta(index, from) ensures u in users {
      var j :| 0 <= j < |rows| && rows[j] == (u, index[u]);
      assert users[j] == u;
    }
  }

  /** The changed users, and their floors. */
  method PullFloors(redis: Redis, parse: string -> Option<nat>, from: Score, fault: Fault)
    returns (ok: bool, rows: seq<(string, Score)>, fetched: map<string, Option<nat>>)
    requires !fault.Connect? && !fault.RevQuery?
    ensures ok <==> !Interrupted(fault, |Delta(redis.tvIndex, from)|)
    ensures ok ==> IsRange(rows, redis.tvIndex, from)
    ensures ok ==> forall u :: u in fetched <==> u in Delta(redis.tvIndex, from)
    ensures ok ==> forall u :: u in fetched ==> fetched[u] == FloorOf(redis, parse, u)
  {
    if fault.TvQuery? {
      return false, [], map[];
    }
    rows := RangeByScore(redis.tvIndex, from);
    var users := ChangedUsers(rows, redis.tvIndex, from);
    ok, fetched := FetchFloors(redis, parse, users, fault);
  }

  /** The floor map of the new snapshot. */
  method RebuildFloors(prev: map<string, nat>, fetched: map<string, Option<nat>>)
    returns (floors: map<string, nat>)
    ensures forall u :: u in floors <==>
              if u in fetched then fetched[u].Some? else u in prev
    ensures forall u :: u in floors ==> floors[u] == if u in fetched then fetched[u].value else prev[u]
  {
    floors := prev;
    var users := fetched.Keys;
    while users != {}
      invariant users <= fetched.Keys
      invariant forall u :: u in floors <==>
                  if u in fetched && u !in users then fetched[u].Some? else u in prev
      invariant forall u :: u in floors ==>
                  floors[u] == if u in fetched && u !in users then fetched[u].value else prev[u]
      decreases users
    {
      var u :| u in users;
      users := users - {u};
      match fetched[u] {
        case Some(v) => floors := floors[u := v];
        case None => floors := floors - {u};
      }
    }
  }

  lemma FloorsRebuilt(prev: map<string, nat>, fetched: map<string, Option<nat>>, floors: map<string, nat>,
                      redis: Redis, parse: string -> Option<nat>, from: Score)
    requires forall u :: u in fetched <==> u in Delta(redis.tvIndex, from)
    requires forall u :: u in fetched ==> fetched[u] == FloorOf(redis, parse, u)
    requires forall u :: u in floors <==> if u in fetched then fetched[u].Some? else u in prev
    requires forall u :: u in floors ==> floors[u] == if u in fetched then fetched[u].value else prev[u]
    ensures floors == RebuiltFloors(prev, redis, parse, from)
  {
  }

  class SyncThread {
    var snapshot: Snapshot
    var lastRev: Score
    var lastTv: Score

    ghost function View(): Worker
      reads this
    {
      Worker(snapshot, lastRev, lastTv)
    }

    constructor ()
      ensures View() == FRESH_WORKER
    {
      snapshot := EMPTY_SNAPSHOT;
      lastRev, lastTv := NegInf, NegInf;
    }

    /** One cycle: pull the deltas, rebuild the snapshot, publish it, and only then move the watermarks. A cycle that fails
        leaves everything as it was. */
    method SyncOnce(redis: Redis, parse: string -> Option<nat>, now: nat, nowMs: nat, fault: Fault)
      returns (ok: bool)
      modifies this
      ensures ok <==> !Interrupted(fault, |Delta(redis.tvIndex, TvFrom(old(View())))|)
      ensures ok ==> Synced(old(View()), View(), redis, parse, now, nowMs)
      ensures !ok ==> View() == old(View())
    {
      if fault.Connect? || fault.RevQuery? {
        return false;
      }
      ghost var w := View();
      var revRows := RangeByScore(redis.revIndex, From(lastRev, SKEW_OVERLAP_SECS));
      var tvRows, fetched;
      ok, tvRows, fetched := PullFloors(redis, parse, From(lastTv, SKEW_OVERLAP_MS), fault);
      if !ok {
        return;
      }
      var revoked := RebuildRevoked(snapshot.revoked, revRows, now, redis.revIndex, RevFrom(w));
      var floors := RebuildFloors(snapshot.tvFloors, fetched);
      FloorsRebuilt(snapshot.tvFloors, fetched, floors, redis, parse, TvFrom(w));
      var nextRev := NextWatermark(lastRev, revRows, redis.revIndex, RevFrom(w));
      var nextTv := NextWatermark(lastTv, tvRows, redis.tvIndex, TvFrom(w));
      snapshot := Snapshot(revoked, floors, nowMs, snapshot.generation + 1);
      lastRev, lastTv := nextRev, nextTv;
    }
  }

  // ---------------------------------------------------------------- reading a snapshot

  /** Whether an entry of a map still counts as revoked at a time. */
  predicate RevokedAt(revoked: map<string, nat>, key: string, t: nat) {
    key in revoked && revoked[key] > t
  }

  function Lookup(floors: map<string, nat>, user: string): Option<nat> {
    if user in floors then Some(floors[user]) else None
  }

  const REVOKED_JTI := "gateway:revoked:jti:"
  const REVOKED_TOKEN := "gateway:revoked:token:"

  /** The keys whose presence revokes a token: one for its id, unless that is absent or empty, and one for its hash. */
  function RevocationKeys(jti: Option<string>, hash: string): set<string> {
    (if jti.Some? && jti.value != "" then {REVOKED_JTI + jti.value} else {}) + {REVOKED_TOKEN + hash}
  }

  /** Whether a snapshot revokes a token: it looks for the id first and then for the hash. */
  predicate IsRevoked(snap: Snapshot, jti: Option<string>, hash: string, now: nat) {
    if jti.Some? && jti.value != "" && RevokedAt(snap.revoked, REVOKED_JTI + jti.value, now) then
      true
    else
      RevokedAt(snap.revoked, REVOKED_TOKEN + hash, now)
  }

  /** A token version is stale when the user has a floor and the version is not exactly that floor. */
  predicate TvStale(snap: Snapshot, user: string, tv: Option<nat>) {
    user in snap.tvFloors && tv != Some(snap.tvFloors[user])
  }

  /** A snapshot is stale when there is none yet, or it is older than three sync intervals and five seconds. */
  predicate SnapshotStale(snap: Snapshot, intervalSecs: nat, nowMs: nat) {
    snap.generation == 0 || nowMs > snap.syncedAtMs + intervalSecs * 3000 + 5000
  }

  // ---------------------------------------------------------------- runs

  datatype Sys = Sys(redis: Redis, w: Worker, lastSync: nat, successes: nat)

  datatype Event =
    | Publish(redis: Redis)
    | Cycle(ok: bool, now: nat, nowMs: nat, collected: bool)

  /** A score that a cycle pulls: any at all for a worker that has pulled nothing, and otherwise one no more than the overlap
      below the greatest that it has pulled. */
  ghost predicate Within(watermark: Score, score: Score, overlap: real) {
    match watermark
    case NegInf => true
    case Fin(w) => score.PosInf? || (score.Fin? && score.v >= w - overlap)
    case PosInf => score.PosInf?
  }

  /** For revocations the overlap is 60 seconds, on scores in seconds; for versions it is the same, in milliseconds. */
  lemma PullsWithinOverlap(w: Worker, score: Score)
    ensures Le(RevFrom(w), score) <==> Within(w.lastRev, score, 60.0)
    ensures Le(TvFrom(w), score) <==> Within(w.lastTv, score, 60_000.0)
  {
  }

  /** Publications between cycles: an index entry that is new, or whose score changed, and a user whose floor changed,
      are scored no more than 60 seconds below the greatest score pulled so far. */
  ghost predicate Reindexed(s: Sys, r: Redis) {
    && (forall k :: k in r.revIndex ==>
          || (k in s.redis.revIndex && s.redis.revIndex[k] == r.revIndex[k])
          || Within(s.w.lastRev, r.revIndex[k], 60.0))
    && (forall u :: u in r.tvIndex ==>
          || (&& u in s.redis.tvIndex && s.redis.tvIndex[u] == r.tvIndex[u]
              && (u in s.redis.values <==> u in r.values)
              && (u in r.values ==> s.redis.values[u] == r.values[u]))
          || Within(s.w.lastTv, r.tvIndex[u], 60_000.0))
  }

  ghost predicate IsStep(parse: string -> Option<nat>, s: Sys, e: Event, n: Sys) {
    match e
    case Publish(r) => Reindexed(s, r) && n == s.(redis := r)
    case Cycle(ok, now, nowMs, collected) =>
      && s.lastSync <= now
      && if ok then
           && Synced(s.w, n.w, s.redis, parse, now, nowMs)
           && n.redis == (if collected then Collected(s.redis, now) else s.redis)
           && n.lastSync == now && n.successes == s.successes + 1
         else n == s
  }

  /** What the snapshot already says of an indexed key: either it is still to be pulled, or the snapshot agrees with its
      score from the last sync on. */
  ghost predicate RevCovered(s: Sys, k: string)
    requires k in s.redis.revIndex
  {
    var expiry := ToU64(s.redis.revIndex[k]);
    || Le(RevFrom(s.w), s.redis.revIndex[k])
    || (k in s.w.snapshot.revoked && s.w.snapshot.revoked[k] == expiry)
    || (expiry <= s.lastSync && !RevokedAt(s.w.snapshot.revoked, k, s.lastSync))
  }

  ghost predicate TvCovered(parse: string -> Option<nat>, s: Sys, u: string)
    requires u in s.redis.tvIndex
  {
    Le(TvFrom(s.w), s.redis.tvIndex[u]) || Lookup(s.w.snapshot.tvFloors, u) == FloorOf(s.redis, parse, u)
  }

  ghost predicate Covered(parse: string -> Option<nat>, s: Sys) {
    && (forall k :: k in s.redis.revIndex ==> RevCovered(s, k))
    && (forall u :: u in s.redis.tvIndex ==> TvCovered(parse, s, u))
    && s.w.snapshot.generation == s.successes
  }

  /** The snapshot decides every indexed key, now and later, and every indexed user as Redis does. */
  ghost predicate Agrees(parse: string -> Option<nat>, w: Worker, redis: Redis, now: nat) {
    && (forall k, t :: k in redis.revIndex && now <= t ==>
          (RevokedAt(w.snapshot.revoked, k, t) <==> ToU64(redis.revIndex[k]) > t))
    && (forall k :: k in redis.revIndex && ToU64(redis.revIndex[k]) > now ==>
          k in w.snapshot.revoked && w.snapshot.revoked[k] == ToU64(redis.revIndex[k]))
    && (forall u :: u in redis.tvIndex ==>
          Lookup(w.snapshot.tvFloors, u) == if u in redis.values then parse(redis.values[u]) else None)
  }

  lemma CycleRev(s: Sys, n: Worker, parse: string -> Option<nat>, now: nat, nowMs: nat, k: string)
    requires Synced(s.w, n, s.redis, parse, now, nowMs) && s.lastSync <= now
    requires k in s.redis.revIndex && RevCovered(s, k)
    ensures var expiry := ToU64(s.redis.revIndex[k]);
            || (k in n.snapshot.revoked && n.snapshot.revoked[k] == expiry)
            || (expiry <= now && !RevokedAt(n.snapshot.revoked, k, now))
  {
  }

  lemma CycleTv(s: Sys, n: Worker, parse: string -> Option<nat>, now: nat, nowMs: nat, u: string)
    requires Synced(s.w, n, s.redis, parse, now, nowMs)
    requires u in s.redis.tvIndex && TvCovered(parse, s, u)
    ensures Lookup(n.snapshot.tvFloors, u) == FloorOf(s.redis, parse, u)
  {
  }

  lemma CycleAgrees(s: Sys, n: Worker, parse: string -> Option<nat>, now: nat, nowMs: nat)
    requires Covered(parse, s) && Synced(s.w, n, s.redis, parse, now, nowMs) && s.lastSync <= now
    ensures Agrees(parse, n, s.redis, now)
  {
    forall k | k in s.redis.revIndex
      ensures || (k in n.snapshot.revoked && n.snapshot.revoked[k] == ToU64(s.redis.revIndex[k]))
              || (ToU64(s.redis.revIndex[k]) <= now && !RevokedAt(n.snapshot.revoked, k, now))
    {
      CycleRev(s, n, parse, now, nowMs, k);
    }
    forall u | u in s.redis.tvIndex ensures Lookup(n.snapshot.tvFloors, u) == FloorOf(s.redis, parse, u) {
      CycleTv(s, n, parse, now, nowMs, u);
    }
  }

  lemma StepCovers(parse: string -> Option<nat>, s: Sys, e: Event, n: Sys)
    requires Covered(parse, s) && IsStep(parse, s, e, n)
    ensures Covered(parse, n)
  {
    match e
    case Publish(r) =>
      forall k | k in n.redis.revIndex ensures RevCovered(n, k) {
        PullsWithinOverlap(s.w, n.redis.revIndex[k]);
        if k in s.redis.revIndex { assert RevCovered(s, k); }
      }
      forall u | u in n.redis.tvIndex ensures TvCovered(parse, n, u) {
        PullsWithinOverlap(s.w, n.redis.tvIndex[u]);
        if u in s.redis.tvIndex { assert TvCovered(parse, s, u); }
      }
    case Cycle(ok, now, nowMs, collected) =>
      if ok {
        forall k | k in n.redis.revIndex ensures RevCovered(n, k) {
          CycleRev(s, n.w, parse, now, nowMs, k);
        }
        forall u | u in n.redis.tvIndex ensures TvCovered(parse, n, u) {
          CycleTv(s, n.w, parse, now, nowMs, u);
        }
      }
  }

  ghost predicate StepAt(parse: string -> Option<nat>, events: seq<Event>, tr: seq<Sys>, i: nat)
    requires |tr| == |events| + 1 && i < |events|
  {
    IsStep(parse, tr[i], events[i], tr[i + 1])
  }

  ghost predicate IsRun(parse: string -> Option<nat>, events: seq<Event>, tr: seq<Sys>) {
    && |tr| == |events| + 1
    && tr[0].w == FRESH_WORKER && tr[0].lastSync == 0 && tr[0].successes == 0
    && forall i :: 0 <= i < |events| ==> StepAt(parse, events, tr, i)
  }

  lemma {:induction false} RunCovers(parse: string -> Option<nat>, events: seq<Event>, tr: seq<Sys>, k: nat)
    requires IsRun(parse, events, tr) && k <= |events|
    ensures Covered(parse, tr[k])
  {
    if k > 0 {
      RunCovers(parse, events, tr, k - 1);
      assert StepAt(parse, events, tr, k - 1);
      StepCovers(parse, tr[k - 1], events[k - 1], tr[k]);
    }
  }

  /** Delta sync agrees with a full pull. In every run of publications and cycles, after every successful cycle the
      snapshot decides each indexed revocation as its score says, at that moment and at every later one, and holds for each
      indexed user exactly the floor in Redis; a failed cycle changes neither snapshot nor watermarks; and the generation
      counts the successes. */
  lemma DeltaSyncAgrees(parse: string -> Option<nat>, events: seq<Event>, tr: seq<Sys>, k: nat)
    requires IsRun(parse, events, tr) && k < |events| && events[k].Cycle?
    ensures events[k].ok ==> Agrees(parse, tr[k + 1].w, tr[k].redis, events[k].now)
    ensures !events[k].ok ==> tr[k + 1].w == tr[k].w
    ensures tr[k + 1].w.snapshot.generation == tr[k + 1].successes
  {
    RunCovers(parse, events, tr, k);
    RunCovers(parse, events, tr, k + 1);
    assert StepAt(parse, events, tr, k);
    if events[k].ok {
      CycleAgrees(tr[k], tr[k + 1].w, parse, events[k].now, events[k].nowMs);
    }
  }

  lemma QuietAt(parse: string -> Option<nat>, events: seq<Event>, tr: seq<Sys>, i: nat)
    requires IsRun(parse, events, tr) && i < |events| && !(events[i].Cycle? && events[i].ok)
    ensures tr[i + 1].w == tr[i].w
  {
    assert StepAt(parse, events, tr, i);
  }

  lemma AgreedEntry(parse: string -> Option<nat>, w: Worker, redis: Redis, now: nat, key: string)
    requires Agrees(parse, w, redis, now) && key in redis.revIndex && ToU64(redis.revIndex[key]) > now
    ensures key in w.snapshot.revoked && w.snapshot.revoked[key] == ToU64(redis.revIndex[key])
  {
  }

  /** Every snapshot but the first is that of a successful cycle, and carries its time. */
  lemma {:induction false} SnapshotHasCycle(parse: string -> Option<nat>, events: seq<Event>, tr: seq<Sys>, k: nat)
    returns (m: nat)
    requires IsRun(parse, events, tr) && k < |tr| && tr[k].w.snapshot.generation > 0
    ensures m < k && events[m].Cycle? && events[m].ok
    ensures tr[m + 1].w.snapshot == tr[k].w.snapshot && tr[k].w.snapshot.syncedAtMs == events[m].nowMs
  {
    if events[k - 1].Cycle? && events[k - 1].ok {
      m := k - 1;
      assert StepAt(parse, events, tr, k - 1);
    } else {
      QuietAt(parse, events, tr, k - 1);
      m := SnapshotHasCycle(parse, events, tr, k - 1);
    }
  }

  /** The index holds a key with an expiry. */
  ghost predicate Indexed(redis: Redis, key: string, expiry: nat) {
    key in redis.revIndex && ToU64(redis.revIndex[key]) == expiry
  }

  /** From a successful cycle on, the index keeps a key with its expiry, and no cycle comes after the expiry. */
  ghost predicate StaysIndexed(events: seq<Event>, tr: seq<Sys>, cycle: nat, key: string, expiry: nat) {
    && |tr| == |events| + 1 && cycle < |events| && events[cycle].Cycle? && events[cycle].ok
    && (forall i :: cycle <= i < |events| && events[i].Cycle? ==> events[i].now < expiry)
    && (forall i :: cycle <= i < |tr| ==> Indexed(tr[i].redis, key, expiry))
  }

  /** Then every later snapshot holds the key with its expiry. */
  lemma {:induction false} SnapshotsHold(
      parse: string -> Option<nat>, events: seq<Event>, tr: seq<Sys>, cycle: nat, m: nat, key: string, expiry: nat)
    requires IsRun(parse, events, tr) && StaysIndexed(events, tr, cycle, key, expiry) && cycle < m < |tr|
    ensures key in tr[m].w.snapshot.revoked && tr[m].w.snapshot.revoked[key] == expiry
  {
    if events[m - 1].Cycle? && events[m - 1].ok {
      DeltaSyncAgrees(parse, events, tr, m - 1);
      assert Indexed(tr[m - 1].redis, key, expiry);
      AgreedEntry(parse, tr[m].w, tr[m - 1].redis, events[m - 1].now, key);
    } else {
      QuietAt(parse, events, tr, m - 1);
      SnapshotsHold(parse, events, tr, cycle, m - 1, key, expiry);
    }
  }

  /** A full pull is what a fresh worker would make of the same Redis, and it decides the same. */
  lemma FullPullAgrees(redis: Redis, n: Worker, parse: string -> Option<nat>, now: nat, nowMs: nat)
    requires Synced(FRESH_WORKER, n, redis, parse, now, nowMs)
    ensures Agrees(parse, n, redis, now)
  {
    CycleAgrees(Sys(redis, FRESH_WORKER, 0, 0), n, parse, now, nowMs);
  }

  /** What the hypothesis on scores buys, exactly: an unexpired entry is in the snapshot after a cycle, with its expiry, if
      and only if its score is at or above the watermark less the overlap, or the snapshot had it already. */
  lemma PulledIffRecentOrKnown(w: Worker, n: Worker, redis: Redis, parse: string -> Option<nat>, now: nat, nowMs: nat, k: string)
    requires Synced(w, n, redis, parse, now, nowMs)
    requires k in redis.revIndex && ToU64(redis.revIndex[k]) > now
    ensures (k in n.snapshot.revoked && n.snapshot.revoked[k] == ToU64(redis.revIndex[k]))
       <==> || Within(w.lastRev, redis.revIndex[k], 60.0)
            || (k in w.snapshot.revoked && w.snapshot.revoked[k] == ToU64(redis.revIndex[k]))
  {
    PullsWithinOverlap(w, redis.revIndex[k]);
  }

  /** What a cycle leaves, entry by entry: a key is held exactly when this cycle pulled it, with the expiry of its score, or
      the snapshot had it and it has not expired, as it was; and a user's floor is the parsed Redis value when this cycle
      pulled the user, and as it was otherwise. */
  lemma CycleExactly(w: Worker, n: Worker, redis: Redis, parse: string -> Option<nat>, now: nat, nowMs: nat, k: string)
    requires Synced(w, n, redis, parse, now, nowMs)
    ensures var pulled := k in redis.revIndex && Within(w.lastRev, redis.revIndex[k], 60.0);
            && (k in n.snapshot.revoked <==> pulled || (k in w.snapshot.revoked && w.snapshot.revoked[k] > now))
            && (k in n.snapshot.revoked ==>
                  n.snapshot.revoked[k] == if pulled then ToU64(redis.revIndex[k]) else w.snapshot.revoked[k])
    ensures var pulled := k in redis.tvIndex && Within(w.lastTv, redis.tvIndex[k], 60_000.0);
            Lookup(n.snapshot.tvFloors, k)
            == if !pulled then Lookup(w.snapshot.tvFloors, k)
               else if k in redis.values then parse(redis.values[k]) else None
  {
    if k in redis.revIndex { PullsWithinOverlap(w, redis.revIndex[k]); }
    if k in redis.tvIndex { PullsWithinOverlap(w, redis.tvIndex[k]); }
  }

  /** Whether cycle i of a run pulls a key, and a user. */
  ghost predicate PullsKey(s: Sys, key: string) {
    key in s.redis.revIndex && Within(s.w.lastRev, s.redis.revIndex[key], 60.0)
  }

  ghost predicate PullsUser(s: Sys, user: string) {
    user in s.redis.tvIndex && Within(s.w.lastTv, s.redis.tvIndex[user], 60_000.0)
  }

  lemma {:induction false} CycleAt(parse: string -> Option<nat>, events: seq<Event>, tr: seq<Sys>, i: nat, key: string)
    requires IsRun(parse, events, tr) && i < |events| && events[i].Cycle? && events[i].ok
    ensures var before, after := tr[i].w.snapshot.revoked, tr[i + 1].w.snapshot.revoked;
            key in after ==>
              if PullsKey(tr[i], key) then after[key] == ToU64(tr[i].redis.revIndex[key])
              else key in before && after[key] == before[key]
    ensures var before, after := tr[i].w.snapshot.tvFloors, tr[i + 1].w.snapshot.tvFloors;
            key in after ==>
              if PullsUser(tr[i], key) then
                key in tr[i].redis.values && parse(tr[i].redis.values[key]) == Some(after[key])
              else key in before && after[key] == before[key]
  {
    assert StepAt(parse, events, tr, i);
    CycleExactly(tr[i].w, tr[i + 1].w, tr[i].redis, parse, events[i].now, events[i].nowMs, key);
  }

  /** Nothing is invented: whatever the snapshot revokes, some successful cycle of the run found in the index with that
      expiry. */
  lemma {:induction false} RevokedWasIndexed(
      parse: string -> Option<nat>, events: seq<Event>, tr: seq<Sys>, k: nat, key: string) returns (m: nat)
    requires IsRun(parse, events, tr) && k < |tr| && key in tr[k].w.snapshot.revoked
    ensures m < k && events[m].Cycle? && events[m].ok && Indexed(tr[m].redis, key, tr[k].w.snapshot.revoked[key])
  {
    if events[k - 1].Cycle? && events[k - 1].ok {
      CycleAt(parse, events, tr, k - 1, key);
      if PullsKey(tr[k - 1], key) {
        return k - 1;
      }
    } else {
      QuietAt(parse, events, tr, k - 1);
    }
    m := RevokedWasIndexed(parse, events, tr, k - 1, key);
  }

  /** Likewise, a floor is the parsed Redis value of an indexed user at some successful cycle. */
  lemma {:induction false} FloorWasPublished(
      parse: string -> Option<nat>, events: seq<Event>, tr: seq<Sys>, k: nat, user: string) returns (m: nat)
    requires IsRun(parse, events, tr) && k < |tr| && user in tr[k].w.snapshot.tvFloors
    ensures m < k && events[m].Cycle? && events[m].ok && user in tr[m].redis.tvIndex && user in tr[m].redis.values
    ensures parse(tr[m].redis.values[user]) == Some(tr[k].w.snapshot.tvFloors[user])
  {
    if events[k - 1].Cycle? && events[k - 1].ok {
      CycleAt(parse, events, tr, k - 1, user);
      if PullsUser(tr[k - 1], user) {
        return k - 1;
      }
    } else {
      QuietAt(parse, events, tr, k - 1);
    }
    m := FloorWasPublished(parse, events, tr, k - 1, user);
  }

  /** The collection after a cycle drops exactly the revocations that expired an hour ago or more, and so none that still
      counts. */
  lemma CollectionDropsOld(redis: Redis, now: nat, k: string)
    requires k in redis.revIndex && 3600 <= now && redis.revIndex[k].Fin?
    ensures k in Collected(redis, now).revIndex <==> redis.revIndex[k].v > (now - 3600) as real
    ensures ToU64(redis.revIndex[k]) > now ==> k in Collected(redis, now).revIndex
    ensures k in Collected(redis, now).revIndex ==> Collected(redis, now).revIndex[k] == redis.revIndex[k]
  {
  }

  /** The hypothesis matters, because the revocation score is the expiry: a worker that has pulled a revocation expiring
      late does not see one published afterwards that expires more than the overlap earlier, although it is unexpired. */
  lemma ShortLivedRevocationIsMissed(
      w: Worker, n: Worker, before: Redis, after: Redis, parse: string -> Option<nat>, t: nat, now: nat, late: string, soon: string)
    requires Synced(FRESH_WORKER, w, before, parse, t, 1000 * t) && Synced(w, n, after, parse, now, 1000 * now)
    requires forall k :: k in before.revIndex ==> before.revIndex[k].Fin?
    requires late in before.revIndex && soon !in before.revIndex
    requires soon in after.revIndex && after.revIndex[soon].Fin? && ToU64(after.revIndex[soon]) > now
    requires after.revIndex[soon].v + SKEW_OVERLAP_SECS < before.revIndex[late].v
    ensures !RevokedAt(n.snapshot.revoked, soon, now)
  {
    WatermarkReaches(w.lastRev, before.revIndex, late);
  }

  lemma WatermarkReaches(next: Score, index: Index, m: string)
    requires Advanced(NegInf, next, index, NegInf) && m in index
    requires forall k :: k in index ==> index[k].Fin?
    ensures next.Fin? && index[m].v <= next.v
  {
    var top :| IsTop(top, NegInf, index, NegInf) && next == if top.Fin? then top else NegInf;
    assert Le(index[m], top);
  }

  /** The worker a successful cycle leaves, given the watermarks it moves to. */
  function AfterCycle(w: Worker, redis: Redis, parse: string -> Option<nat>, now: nat, lastRev: Score, lastTv: Score): Worker {
    Worker(
      Snapshot(RebuiltRevoked(w.snapshot.revoked, redis.revIndex, RevFrom(w), now),
               RebuiltFloors(w.snapshot.tvFloors, redis, parse, TvFrom(w)), 1000 * now, w.snapshot.generation + 1),
      lastRev, lastTv)
  }

  lemma AfterCycleIsSynced(w: Worker, redis: Redis, parse: string -> Option<nat>, now: nat, lastRev: Score, lastTv: Score)
    requires IsTop(lastRev, w.lastRev, redis.revIndex, RevFrom(w)) && (lastRev.Fin? || lastRev == w.lastRev)
    requires IsTop(lastTv, w.lastTv, redis.tvIndex, TvFrom(w)) && (lastTv.Fin? || lastTv == w.lastTv)
    ensures Synced(w, AfterCycle(w, redis, parse, now, lastRev, lastTv), redis, parse, now, 1000 * now)
  {
  }

  /** Such a pair of cycles exists for any two keys: a fresh worker pulls a revocation until `a`, another until `b` is
      published, and the next cycle succeeds without it. */
  lemma MissedRevocationExists(late: string, soon: string, a: real, b: real, parse: string -> Option<nat>, now: nat)
    returns (w: Worker, n: Worker)
    requires late != soon && b + SKEW_OVERLAP_SECS < a && ToU64(Fin(b)) > now
    ensures Synced(FRESH_WORKER, w, Redis(map[late := Fin(a)], map[], map[]), parse, now, 1000 * now)
    ensures Synced(w, n, Redis(map[late := Fin(a), soon := Fin(b)], map[], map[]), parse, now, 1000 * now)
    ensures !RevokedAt(n.snapshot.revoked, soon, now)
  {
    var before, after := Redis(map[late := Fin(a)], map[], map[]), Redis(map[late := Fin(a), soon := Fin(b)], map[], map[]);
    assert late in before.revIndex && late in after.revIndex;
    w := AfterCycle(FRESH_WORKER, before, parse, now, Fin(a), NegInf);
    AfterCycleIsSynced(FRESH_WORKER, before, parse, now, Fin(a), NegInf);
    n := AfterCycle(w, after, parse, now, Fin(a), NegInf);
    AfterCycleIsSynced(w, after, parse, now, Fin(a), NegInf);
    ShortLivedRevocationIsMissed(w, n, before, after, parse, now, now, late, soon);
  }
}
