/** Token validation with a per-worker positive cache over the revocation snapshot.

    Base64, JSON, HMAC and SHA-256 are uninterpreted functions, passed in. A validation reads the clock, the snapshot and
    the configuration once. */
module Auth {
  import opened Wrappers
  import R = Revocation

  const U64: nat := 0x1_0000_0000_0000_0000
  const MAX_AGE_SECS: nat := 86_400
  const CACHE_CAPACITY: nat := 8_192

  datatype Header = Header(alg: string, kid: string)

  /** The claims of a payload; `altUserId` is its `user_id` field, used when `sub` is empty. */
  datatype Claims = Claims(
    sub: string, altUserId: Option<string>, homeRegion: Option<string>,
    exp: Option<nat>, nbf: Option<nat>, iat: Option<nat>,
    iss: Option<string>, aud: Option<string>, jti: Option<string>, tv: Option<nat>)

  datatype Identity = Identity(userId: string, homeRegion: Option<string>)

  datatype CachedToken = CachedToken(identity: Identity, expiresAt: nat, tv: Option<nat>)

  type Cache = map<string, CachedToken>

  datatype Config = Config(secret: string, keys: map<string, string>, issuer: string, audience: string)

  /** The libraries: decoded header, decoded claims, decoded bytes, the MAC of a signing input, the hash of a token. */
  datatype Lib = Lib(
    header: string -> Option<Header>,
    claims: string -> Option<Claims>,
    bytes: string -> Option<seq<nat>>,
    mac: (string, string) -> seq<nat>,
    hash: string -> string)

  /** What does not change while a worker runs. */
  datatype Env = Env(lib: Lib, ttl: nat, intervalSecs: nat)

  // ---------------------------------------------------------------- settings

  /** The cache lifetime: the configured value clamped, or the default. */
  function CacheTtl(setting: Option<nat>): (ttl: nat)
    ensures 1 <= ttl <= 300
    ensures setting.Some? && 1 <= setting.value <= 300 ==> ttl == setting.value
    ensures setting.Some? && ttl < setting.value ==> ttl == 300
    ensures setting.None? ==> ttl == 30
  {
    match setting
    case None => 30
    case Some(v) => if v < 1 then 1 else if v > 300 then 300 else v
  }

  /** When a cache entry stops being trusted: never after the token's expiry, nor after the lifetime, and at one of them
      unless the clock saturates. */
  function EffectiveCacheExpiry(exp: nat, now: nat, ttl: nat): (e: nat)
    ensures e <= exp && e <= now + ttl
    ensures now + ttl < U64 ==> e == exp || e == now + ttl
  {
    var end := if now + ttl < U64 then now + ttl else U64 - 1;
    if exp < end then exp else end
  }

  // ---------------------------------------------------------------- full validation

  /** The first dot at or after an index, or the length when there is none. */
  function Cut(s: string, i: nat): (at: nat)
    requires i <= |s|
    ensures i <= at <= |s|
    decreases |s| - i
  {
    if i == |s| || s[i] == '.' then i else Cut(s, i + 1)
  }

  datatype Parts = Parts(header: string, payload: string, signature: string)

  /** The three parts of a token. The last may hold further dots. */
  function Split(token: string): Option<Parts> {
    var i := Cut(token, 0);
    if i == |token| then None
    else
      var j := Cut(token, i + 1);
      if j == |token| then None else Some(Parts(token[..i], token[i + 1..j], token[j + 1..]))
  }

  lemma {:induction false} CutFindsDot(s: string, i: nat)
    requires i <= |s|
    ensures var at := Cut(s, i);
            (forall k :: i <= k < at ==> s[k] != '.') && (at < |s| ==> s[at] == '.')
    decreases |s| - i
  {
    if i < |s| && s[i] != '.' {
      CutFindsDot(s, i + 1);
    }
  }

  function Join(p: Parts): string {
    p.header + "." + p.payload + "." + p.signature
  }

  /** Splitting undoes joining: a token splits into three given parts exactly when it is those parts joined by dots and
      the first two hold none. */
  lemma SplitUndoesJoin(token: string, p: Parts)
    ensures Split(token) == Some(p) <==> token == Join(p) && '.' !in p.header && '.' !in p.payload
  {
    if Split(token) == Some(p) {
      SplitParts(token);
    }
    if token == Join(p) && '.' !in p.header && '.' !in p.payload {
      SplitJoined(p);
    }
  }

  lemma SplitParts(token: string)
    requires Split(token).Some?
    ensures var p := Split(token).value;
            token == Join(p) && '.' !in p.header && '.' !in p.payload
  {
    CutFindsDot(token, 0);
    var i := Cut(token, 0);
    CutFindsDot(token, i + 1);
    var j := Cut(token, i + 1);
    assert token == token[..i] + "." + token[i + 1..j] + "." + token[j + 1..];
  }

  lemma SplitJoined(p: Parts)
    requires '.' !in p.header && '.' !in p.payload
    ensures Split(Join(p)) == Some(p)
  {
    var token, h, q := Join(p), |p.header|, |p.header| + 1 + |p.payload|;
    assert token[h] == '.' && token[q] == '.';
    assert token[..h] == p.header && token[h + 1..q] == p.payload && token[q + 1..] == p.signature;
    forall k | 0 <= k < h ensures token[k] != '.' { assert token[k] == p.header[k]; }
    CutIs(token, 0, h);
    forall k | h < k < q ensures token[k] != '.' { assert token[k] == p.payload[k - h - 1]; }
    CutIs(token, h + 1, q);
  }

  lemma {:induction false} CutIs(s: string, i: nat, at: nat)
    requires i <= at < |s| && s[at] == '.' && forall k :: i <= k < at ==> s[k] != '.'
    ensures Cut(s, i) == at
    decreases at - i
  {
    if i < at {
      CutIs(s, i + 1, at);
    }
  }

  /** The secret a header selects: the primary one, or the one of its key id. */
  function SecretFor(cfg: Config, kid: string): Option<string> {
    if kid == "" then Some(cfg.secret) else if kid in cfg.keys then Some(cfg.keys[kid]) else None
  }

  /** Whether the parts carry the one accepted algorithm and the signature of a known secret. */
  predicate Signed(lib: Lib, cfg: Config, p: Parts) {
    var h := lib.header(p.header);
    && h.Some? && h.value.alg == "HS256"
    && var secret := SecretFor(cfg, h.value.kid);
       secret.Some? && lib.bytes(p.signature) == Some(lib.mac(secret.value, p.header + "." + p.payload))
  }

  /** The claims a token carries, whoever signed it. */
  function ClaimsOf(lib: Lib, token: string): Option<Claims> {
    var p := Split(token);
    if p.None? then None else lib.claims(p.value.payload)
  }

  function SanitizeHeader(v: string): Option<string> {
    if '\r' in v || '\n' in v || '\0' in v then None else Some(v)
  }

  function RawUser(c: Claims): Option<string> {
    if c.sub == "" then c.altUserId else Some(c.sub)
  }

  function IdentityOf(c: Claims): Option<Identity> {
    var raw := RawUser(c);
    if raw.None? then None
    else
      var user := SanitizeHeader(raw.value);
      if user.None? then None
      else if c.homeRegion.None? then Some(Identity(user.value, None))
      else
        var region := SanitizeHeader(c.homeRegion.value);
        if region.None? then None else Some(Identity(user.value, region))
  }

  /** The age check; the sum wraps as 64-bit arithmetic does. */
  predicate TooOld(c: Claims, now: nat) {
    c.iat.Some? && now > (c.iat.value + MAX_AGE_SECS) % U64
  }

  /** The claim checks that do not look at the snapshot. */
  predicate ClaimsHold(cfg: Config, c: Claims, now: nat) {
    && c.exp.Some? && now < c.exp.value
    && (c.nbf.Some? ==> c.nbf.value <= now)
    && !TooOld(c, now)
    && c.iss == Some(cfg.issuer) && c.aud == Some(cfg.audience)
  }

  /** The version check is skipped for a missing or empty user id. */
  predicate VersionHolds(snap: R.Snapshot, c: Claims) {
    var raw := RawUser(c);
    raw.Some? && raw.value != "" ==> !R.TvStale(snap, raw.value, c.tv)
  }

  datatype Validated = Validated(claims: Claims, exp: nat, identity: Identity)

  /** Everything a cache miss checks. */
  function FullCheck(lib: Lib, cfg: Config, snap: R.Snapshot, token: string, now: nat): Option<Validated> {
    var p := Split(token);
    var c := ClaimsOf(lib, token);
    if p.None? || !Signed(lib, cfg, p.value) || c.None? then None
    else if !ClaimsHold(cfg, c.value, now) then None
    else if R.IsRevoked(snap, c.value.jti, lib.hash(token), now) then None
    else if !VersionHolds(snap, c.value) then None
    else
      var id := IdentityOf(c.value);
      if id.None? then None else Some(Validated(c.value, c.value.exp.value, id.value))
  }

  // ---------------------------------------------------------------- what a full check vouches for

  /** The token is three parts joined by dots; its header names the one accepted algorithm and a known secret, and its
      signature is the MAC of its first two parts under that secret. */
  ghost predicate Bears(lib: Lib, cfg: Config, token: string, p: Parts, h: Header, secret: string) {
    && token == p.header + "." + p.payload + "." + p.signature && '.' !in p.header && '.' !in p.payload
    && lib.header(p.header) == Some(h) && h.alg == "HS256"
    && (if h.kid == "" then secret == cfg.secret else h.kid in cfg.keys && secret == cfg.keys[h.kid])
    && lib.bytes(p.signature) == Some(lib.mac(secret, p.header + "." + p.payload))
  }

  /** A key that revokes, held beyond a time. */
  ghost predicate Held(revoked: map<string, nat>, key: string, now: nat) {
    key in revoked && revoked[key] > now
  }

  /** The claims are for this gateway and this moment. */
  ghost predicate Timely(cfg: Config, c: Claims, exp: nat, now: nat) {
    && c.iss == Some(cfg.issuer) && c.aud == Some(cfg.audience)
    && c.exp == Some(exp) && now < exp
    && (c.nbf.Some? ==> c.nbf.value <= now)
    && (c.iat.Some? ==> now <= (c.iat.value + 86_400) % 0x1_0000_0000_0000_0000)
  }

  /** Neither the token's id nor its hash is revoked, and its version is the floor of its user, if there is one. */
  ghost predicate Current(snap: R.Snapshot, c: Claims, user: string, hash: string, now: nat) {
    && (c.jti.Some? && c.jti.value != "" ==> !Held(snap.revoked, "gateway:revoked:jti:" + c.jti.value, now))
    && !Held(snap.revoked, "gateway:revoked:token:" + hash, now)
    && (user != "" && user in snap.tvFloors ==> c.tv == Some(snap.tvFloors[user]))
  }

  ghost predicate HeaderSafe(v: string) {
    '\r' !in v && '\n' !in v && '\0' !in v
  }

  /** The identity is that of the claims, and safe to forward. */
  ghost predicate Names(c: Claims, id: Identity) {
    && (if c.sub != "" then id.userId == c.sub else c.altUserId == Some(id.userId)) && HeaderSafe(id.userId)
    && id.homeRegion == c.homeRegion && (c.homeRegion.Some? ==> HeaderSafe(c.homeRegion.value))
  }

  ghost predicate SignedClaims(lib: Lib, cfg: Config, token: string, c: Claims) {
    exists p: Parts, h: Header, secret: string :: Bears(lib, cfg, token, p, h, secret) && lib.claims(p.payload) == Some(c)
  }

  /** Everything an accepted token is, in terms of its own text, the libraries, the configuration and the snapshot. */
  ghost predicate Genuine(lib: Lib, cfg: Config, snap: R.Snapshot, token: string, now: nat, v: Validated) {
    && SignedClaims(lib, cfg, token, v.claims) && Timely(cfg, v.claims, v.exp, now)
    && Current(snap, v.claims, v.identity.userId, lib.hash(token), now) && Names(v.claims, v.identity)
  }

  lemma SignedIffBears(lib: Lib, cfg: Config, token: string, c: Claims)
    ensures SignedClaims(lib, cfg, token, c)
       <==> Split(token).Some? && Signed(lib, cfg, Split(token).value) && ClaimsOf(lib, token) == Some(c)
  {
    if SignedClaims(lib, cfg, token, c) {
      var p: Parts, h: Header, secret: string :|
        Bears(lib, cfg, token, p, h, secret) && lib.claims(p.payload) == Some(c);
      SplitUndoesJoin(token, p);
    }
    if Split(token).Some? && Signed(lib, cfg, Split(token).value) && ClaimsOf(lib, token) == Some(c) {
      var p := Split(token).value;
      SplitUndoesJoin(token, p);
      var h := lib.header(p.header).value;
      assert Bears(lib, cfg, token, p, h, SecretFor(cfg, h.kid).value) && lib.claims(p.payload) == Some(c);
    }
  }

  lemma ChecksAreExact(cfg: Config, snap: R.Snapshot, c: Claims, hash: string, now: nat, exp: nat, id: Identity)
    ensures c.exp == Some(exp) ==> (ClaimsHold(cfg, c, now) <==> Timely(cfg, c, exp, now))
    ensures IdentityOf(c) == Some(id) <==> Names(c, id)
    ensures Names(c, id) ==>
              (!R.IsRevoked(snap, c.jti, hash, now) && VersionHolds(snap, c) <==> Current(snap, c, id.userId, hash, now))
  {
  }

  /** A full check accepts a token, with its claims and its identity, exactly when it is genuine. */
  lemma FullCheckExactly(lib: Lib, cfg: Config, snap: R.Snapshot, token: string, now: nat, v: Validated)
    ensures FullCheck(lib, cfg, snap, token, now) == Some(v) <==> Genuine(lib, cfg, snap, token, now, v)
  {
    SignedIffBears(lib, cfg, token, v.claims);
    ChecksAreExact(cfg, snap, v.claims, lib.hash(token), now, v.exp, v.identity);
  }

  // ---------------------------------------------------------------- the cached validation

  const BEARER := "Bearer "

  function TokenIn(header: string): Option<string> {
    if BEARER <= header then Some(header[|BEARER|..]) else None
  }

  lemma BearerToken(header: string, token: string)
    ensures TokenIn(header) == Some(token) <==> header == "Bearer " + token
  {
    if BEARER <= header {
      assert header == BEARER + header[|BEARER|..];
    }
    if header == "Bearer " + token {
      assert header[|BEARER|..] == token;
    }
  }

  predicate Hit(cache: Cache, token: string, now: nat) {
    token in cache && cache[token].expiresAt > now
  }

  predicate Blocked(env: Env, snap: R.Snapshot, failClosed: bool, nowMs: nat) {
    failClosed && R.SnapshotStale(snap, env.intervalSecs, nowMs)
  }

  function Entry(ttl: nat, v: Validated, now: nat): CachedToken {
    CachedToken(v.identity, EffectiveCacheExpiry(v.exp, now, ttl), v.claims.tv)
  }

  /** The answer to a validation, and the cache it leaves, evictions aside. */
  datatype Served = Served(answer: Option<Identity>, cache: Cache)

  /** A hit is trusted for as long as the token's version is not stale; a miss is decided in full, and remembered when it is
      accepted. */
  function Serve(ttl: nat, snap: R.Snapshot, cache: Cache, token: string, full: Option<Validated>, now: nat): Served {
    if Hit(cache, token, now) then
      var e := cache[token];
      if R.TvStale(snap, e.identity.userId, e.tv) then Served(None, cache - {token}) else Served(Some(e.identity), cache)
    else if full.None? then
      Served(None, cache - {token})
    else
      Served(Some(full.value.identity), cache[token := Entry(ttl, full.value, now)])
  }

  function Validation(env: Env, cfg: Config, snap: R.Snapshot, cache: Cache, header: string, failClosed: bool, nowMs: nat)
    : Served
  {
    var token, now := TokenIn(header), nowMs / 1000;
    if token.None? || Blocked(env, snap, failClosed, nowMs) then Served(None, cache)
    else Serve(env.ttl, snap, cache, token.value, FullCheck(env.lib, cfg, snap, token.value, now), now)
  }

  lemma NothingLost(cache: Cache)
    ensures cache - {} == cache
  {
  }

  lemma PutAfterPop(cache: Cache, token: string, e: CachedToken)
    ensures (cache - {token})[token := e] == cache[token := e]
  {
  }

  lemma PutAfterLoss(cache: Cache, lost: set<string>, token: string, e: CachedToken)
    requires token !in lost
    ensures (cache - lost)[token := e] == cache[token := e] - lost
  {
  }

  // ---------------------------------------------------------------- the order of use

  function Without(s: seq<string>, t: string): seq<string> {
    if |s| == 0 then []
    else
      var rest := Without(s[..|s| - 1], t);
      if s[|s| - 1] == t then rest else rest + [s[|s| - 1]]
  }

  /** A token moves to the end, as the most recently used one. */
  function Touched(s: seq<string>, t: string): seq<string> {
    Without(s, t) + [t]
  }

  ghost predicate Distinct(s: seq<string>) {
    forall i, j :: 0 <= i < j < |s| ==> s[i] != s[j]
  }

  lemma {:induction false} WithoutKeeps(s: seq<string>, t: string)
    ensures forall u :: u in Without(s, t) <==> u in s && u != t
    ensures Distinct(s) ==> Distinct(Without(s, t))
    ensures |Without(s, t)| <= |s| && (t in s ==> |Without(s, t)| < |s|) && (t !in s ==> Without(s, t) == s)
  {
    if |s| > 0 {
      var rest, last := s[..|s| - 1], s[|s| - 1];
      WithoutKeeps(rest, t);
      assert s == rest + [last];
      assert Distinct(s) ==> last !in rest;
    }
  }

  lemma WithoutTouched(s: seq<string>, t: string)
    ensures Without(Touched(s, t), t) == Without(s, t) && Touched(Without(s, t), t) == Touched(s, t)
  {
    WithoutKeeps(s, t);
    WithoutKeeps(Without(s, t), t);
    assert Touched(s, t)[..|Without(s, t)|] == Without(s, t);
  }

  /** The entry that a full cache loses for a new one: the least recently used. */
  function Victims(recency: seq<string>, cached: bool): set<string> {
    if cached || |recency| < CACHE_CAPACITY then {} else {recency[0]}
  }

  ghost predicate Precedes(s: seq<string>, a: string, b: string) {
    exists i, j :: 0 <= i < j < |s| && s[i] == a && s[j] == b
  }

  lemma PrecedesSnoc(s: seq<string>, x: string, a: string, b: string)
    ensures Precedes(s + [x], a, b) <==> Precedes(s, a, b) || (b == x && a in s)
  {
    var t := s + [x];
    if Precedes(s, a, b) {
      var i, j :| 0 <= i < j < |s| && s[i] == a && s[j] == b;
      assert t[i] == a && t[j] == b;
    }
    if b == x && a in s {
      var i :| 0 <= i < |s| && s[i] == a;
      assert t[i] == a && t[|s|] == b;
    }
  }

  lemma {:induction false} WithoutOrders(s: seq<string>, t: string, a: string, b: string)
    requires a != t && b != t
    ensures Precedes(Without(s, t), a, b) <==> Precedes(s, a, b)
  {
    if |s| > 0 {
      var rest, last := s[..|s| - 1], s[|s| - 1];
      WithoutOrders(rest, t, a, b);
      WithoutKeeps(rest, t);
      PrecedesSnoc(rest, last, a, b);
      PrecedesSnoc(Without(rest, t), last, a, b);
      assert s == rest + [last];
    }
  }

  /** Using a token puts it after all others and leaves these in their order; and the entry that a full cache loses precedes
      all others: it is the one used least recently. */
  lemma UseOrders(s: seq<string>, t: string, a: string, b: string)
    requires Distinct(s)
    ensures Precedes(Touched(s, t), a, b) <==> a != t && a in s && (b == t || Precedes(s, a, b))
    ensures Victims(s, false) != {} && b in s && s[0] != b ==> Victims(s, false) == {s[0]} && Precedes(s, s[0], b)
  {
    WithoutKeeps(s, t);
    PrecedesSnoc(Without(s, t), t, a, b);
    if a != t && b != t { WithoutOrders(s, t, a, b); }
  }

  /** The order of use after a validation of a token that was in the cache or not, and was accepted or not. */
  function NextRecency(recency: seq<string>, cached: bool, accepted: bool, token: string): seq<string> {
    if !accepted then (if cached then Without(recency, token) else recency)
    else Touched(if Victims(recency, cached) == {} then recency else recency[1..], token)
  }

  class TokenCache {
    var entries: Cache
    var recency: seq<string>

    /** The order of use lists every entry once, the least recently used first. */
    ghost predicate Valid()
      reads this
    {
      Distinct(recency) && |recency| <= CACHE_CAPACITY && forall t :: t in entries <==> t in recency
    }

    constructor ()
      ensures Valid() && entries == map[] && recency == []
    {
      entries, recency := map[], [];
    }

    /** Adds an entry; a full cache loses the least recently used one first. */
    method Put(token: string, entry: CachedToken) returns (ghost lost: set<string>)
      requires Valid()
      modifies this
      ensures Valid()
      ensures lost == Victims(old(recency), token in old(entries)) && token !in lost
      ensures entries == old(entries)[token := entry] - lost
      ensures recency == NextRecency(old(recency), token in old(entries), true, token)
    {
      lost := Victims(recency, token in entries);
      assert |recency| > 0 ==> recency[0] in entries;
      PutAfterLoss(entries, lost, token, entry);
      if token !in entries && |recency| == CACHE_CAPACITY {
        Evict();
      } else {
        NothingLost(entries);
      }
      Store(token, entry);
    }

    method Store(token: string, entry: CachedToken)
      requires Valid() && (token in entries || |recency| < CACHE_CAPACITY)
      modifies this
      ensures Valid() && entries == old(entries)[token := entry] && recency == Touched(old(recency), token)
    {
      WithoutKeeps(recency, token);
      entries := entries[token := entry];
      recency := Touched(recency, token);
    }

    method Evict()
      requires Valid() && |recency| > 0
      modifies this
      ensures Valid() && entries == old(entries) - {old(recency)[0]} && recency == old(recency)[1..]
    {
      var victim := recency[0];
      assert recency == [victim] + recency[1..];
      entries := entries - {victim};
      recency := recency[1..];
    }

    method Pop(token: string)
      requires Valid()
      modifies this
      ensures Valid() && entries == old(entries) - {token} && recency == Without(old(recency), token)
    {
      WithoutKeeps(recency, token);
      entries := entries - {token};
      recency := Without(recency, token);
    }

    /** A lookup, which makes the entry the most recently used one. */
    method Get(token: string) returns (e: Option<CachedToken>)
      requires Valid()
      modifies this
      ensures Valid() && entries == old(entries)
      ensures e == if token in entries then Some(entries[token]) else None
      ensures recency == if token in entries then Touched(old(recency), token) else old(recency)
    {
      if token !in entries {
        return None;
      }
      WithoutKeeps(recency, token);
      recency := Touched(recency, token);
      e := Some(entries[token]);
    }

    /** The cache part: a hit answers, and an entry that is stale or expired is dropped. */
    method Consult(snap: R.Snapshot, token: string, now: nat) returns (hit: bool, r: Option<Identity>)
      requires Valid()
      modifies this
      ensures Valid() && hit == Hit(old(entries), token, now)
      ensures hit ==> forall full, ttl :: Serve(ttl, snap, old(entries), token, full, now) == Served(r, entries)
      ensures hit ==> recency == NextRecency(old(recency), true, r.Some?, token)
      ensures !hit ==> r.None? && entries == old(entries) - {token} && recency == Without(old(recency), token)
    {
      WithoutTouched(recency, token);
      WithoutKeeps(recency, token);
      var e := Get(token);
      if e.None? {
        assert entries == entries - {token};
        return false, None;
      }
      hit := e.value.expiresAt > now;
      if hit && !R.TvStale(snap, e.value.identity.userId, e.value.tv) {
        return true, Some(e.value.identity);
      }
      Pop(token);
      r := None;
    }

    /** The gate itself, in the order of its checks. Beside what a validation leaves in the cache, it loses at most the
        least recently used entry, and only to make room in a full cache for a token that was not in it. */
    method ValidateToken(env: Env, cfg: Config, snap: R.Snapshot, header: string, failClosed: bool, nowMs: nat)
      returns (r: Option<Identity>, ghost lost: set<string>)
      requires Valid()
      modifies this
      ensures Valid()
      ensures var served := Validation(env, cfg, snap, old(entries), header, failClosed, nowMs);
              r == served.answer && entries == served.cache - lost
      ensures var token := TokenIn(header);
              if token.None? || Blocked(env, snap, failClosed, nowMs) then
                lost == {} && recency == old(recency)
              else
                var cached := token.value in old(entries);
                && lost == (if r.Some? then Victims(old(recency), cached) else {}) && token.value !in lost
                && recency == NextRecency(old(recency), cached, r.Some?, token.value)
    {
      lost := {};
      var bearer := TokenIn(header);
      if bearer.None? {
        return None, {};
      }
      var token, now := bearer.value, nowMs / 1000;
      if failClosed && R.SnapshotStale(snap, env.intervalSecs, nowMs) {
        return None, {};
      }
      var hit;
      hit, r := Consult(snap, token, now);
      if hit {
        NothingLost(entries);
        return r, {};
      }
      var full := FullCheck(env.lib, cfg, snap, token, now);
      r, lost := Remember(env.ttl, snap, old(entries), old(recency), token, full, now);
    }

    /** The rest of a miss, once the token has been checked in full. */
    method Remember(
        ttl: nat, snap: R.Snapshot, ghost before: Cache, ghost order: seq<string>, token: string,
        full: Option<Validated>, now: nat)
      returns (r: Option<Identity>, ghost lost: set<string>)
      requires Valid() && entries == before - {token} && recency == Without(order, token) && !Hit(before, token, now)
      requires |order| <= CACHE_CAPACITY && forall t :: t in before <==> t in order
      modifies this
      ensures Valid()
      ensures var served := Serve(ttl, snap, before, token, full, now);
              r == served.answer && entries == served.cache - lost
      ensures lost == (if r.Some? then Victims(order, token in before) else {}) && token !in lost
      ensures recency == NextRecency(order, token in before, r.Some?, token)
    {
      WithoutKeeps(order, token);
      if full.None? {
        NothingLost(entries);
        return None, {};
      }
      PutAfterPop(before, token, Entry(ttl, full.value, now));
      WithoutTouched(order, token);
      lost := Put(token, Entry(ttl, full.value, now));
      r := Some(full.value.identity);
    }
  }

  // ---------------------------------------------------------------- runs

  datatype State = State(cfg: Config, snap: R.Snapshot, cache: Cache, clockMs: nat)

  datatype Action =
    | Publish(snap: R.Snapshot)
    | SetConfig(cfg: Config)
    | Evict(tokens: set<string>)
    | Validate(header: string, failClosed: bool, lost: set<string>)

  datatype Event = Event(ms: nat, action: Action)

  function Secs(e: Event): nat {
    e.ms / 1000
  }

  /** What a validation event does in a state. */
  function ServedAt(env: Env, s: State, e: Event): Served
    requires e.action.Validate?
  {
    Validation(env, s.cfg, s.snap, s.cache, e.action.header, e.action.failClosed, e.ms)
  }

  ghost predicate IsStep(env: Env, s: State, e: Event, n: State) {
    && s.clockMs <= e.ms
    && match e.action
       case Publish(snap) => n == s.(snap := snap, clockMs := e.ms)
       case SetConfig(cfg) => n == s.(cfg := cfg, clockMs := e.ms)
       case Evict(tokens) => n == s.(cache := s.cache - tokens, clockMs := e.ms)
       case Validate(_, _, lost) => n == s.(cache := ServedAt(env, s, e).cache - lost, clockMs := e.ms)
  }

  ghost predicate StepAt(env: Env, events: seq<Event>, tr: seq<State>, i: nat)
    requires |tr| == |events| + 1 && i < |events|
  {
    IsStep(env, tr[i], events[i], tr[i + 1])
  }

  /** A run starts with an empty cache; its clock never goes back. */
  ghost predicate IsRun(env: Env, events: seq<Event>, tr: seq<State>) {
    && |tr| == |events| + 1
    && tr[0].cache == map[]
    && forall i :: 0 <= i < |events| ==> StepAt(env, events, tr, i)
  }

  /** Event `j` of a run validated the token in full, and found these claims and this identity. */
  ghost predicate FullAt(env: Env, events: seq<Event>, tr: seq<State>, j: nat, token: string, v: Validated)
    requires |tr| == |events| + 1
  {
    && j < |events| && events[j].action.Validate? && TokenIn(events[j].action.header) == Some(token)
    && FullCheck(env.lib, tr[j].cfg, tr[j].snap, token, Secs(events[j])) == Some(v)
    && ServedAt(env, tr[j], events[j]).answer == Some(v.identity)
  }

  /** A cache entry stands for an earlier full validation. */
  ghost predicate Backed(env: Env, events: seq<Event>, tr: seq<State>, k: nat, token: string, e: CachedToken)
    requires |tr| == |events| + 1
  {
    exists j: nat, v ::
      j < k && FullAt(env, events, tr, j, token, v) && e == Entry(env.ttl, v, Secs(events[j]))
  }

  ghost predicate CacheBacked(env: Env, events: seq<Event>, tr: seq<State>, k: nat)
    requires |tr| == |events| + 1 && k < |tr|
  {
    forall token :: token in tr[k].cache ==> Backed(env, events, tr, k, token, tr[k].cache[token])
  }

  lemma FullCheckFacts(lib: Lib, cfg: Config, snap: R.Snapshot, token: string, now: nat)
    requires FullCheck(lib, cfg, snap, token, now).Some?
    ensures var v := FullCheck(lib, cfg, snap, token, now).value;
            && ClaimsOf(lib, token) == Some(v.claims) && v.claims.exp == Some(v.exp) && ClaimsHold(cfg, v.claims, now)
            && !R.IsRevoked(snap, v.claims.jti, lib.hash(token), now) && VersionHolds(snap, v.claims)
            && IdentityOf(v.claims) == Some(v.identity) && RawUser(v.claims) == Some(v.identity.userId)
  {
  }

  lemma {:induction false} RunBacked(env: Env, events: seq<Event>, tr: seq<State>, k: nat)
    requires IsRun(env, events, tr) && k < |tr|
    ensures CacheBacked(env, events, tr, k)
  {
    if k > 0 {
      RunBacked(env, events, tr, k - 1);
      assert StepAt(env, events, tr, k - 1);
      forall token | token in tr[k].cache ensures Backed(env, events, tr, k, token, tr[k].cache[token]) {
        EntryBacked(env, events, tr, k - 1, token);
      }
    }
  }

  /** An entry after a step was there before, or the step has just validated the token. */
  lemma EntryBacked(env: Env, events: seq<Event>, tr: seq<State>, i: nat, token: string)
    requires |tr| == |events| + 1 && i < |events|
    requires StepAt(env, events, tr, i) && CacheBacked(env, events, tr, i) && token in tr[i + 1].cache
    ensures Backed(env, events, tr, i + 1, token, tr[i + 1].cache[token])
  {
    var e := tr[i + 1].cache[token];
    if token in tr[i].cache && e == tr[i].cache[token] {
      assert Backed(env, events, tr, i, token, e);
      var j: nat, v :| j < i && FullAt(env, events, tr, j, token, v) && e == Entry(env.ttl, v, Secs(events[j]));
      assert j < i + 1;
    } else {
      StoredIsValidated(env, tr[i], events[i], tr[i + 1], token);
      var v := FullCheck(env.lib, tr[i].cfg, tr[i].snap, token, Secs(events[i])).value;
      assert FullAt(env, events, tr, i, token, v);
    }
  }

  lemma StoredIsValidated(env: Env, s: State, e: Event, n: State, token: string)
    requires IsStep(env, s, e, n) && token in n.cache && !(token in s.cache && n.cache[token] == s.cache[token])
    ensures e.action.Validate? && TokenIn(e.action.header) == Some(token)
    ensures var v := FullCheck(env.lib, s.cfg, s.snap, token, Secs(e));
            && v.Some? && n.cache[token] == Entry(env.ttl, v.value, Secs(e))
            && ServedAt(env, s, e).answer == Some(v.value.identity)
  {
    match e.action
    case Validate(header, _, _) =>
      assert TokenIn(header).Some?;
      var full := FullCheck(env.lib, s.cfg, s.snap, TokenIn(header).value, Secs(e));
      ServeStores(env.ttl, s.snap, s.cache, TokenIn(header).value, full, Secs(e), token);
    case _ =>
  }

  lemma ServeStores(
      ttl: nat, snap: R.Snapshot, cache: Cache, token: string, full: Option<Validated>, now: nat, key: string)
    requires var after := Serve(ttl, snap, cache, token, full, now).cache;
             key in after && !(key in cache && after[key] == cache[key])
    ensures var served := Serve(ttl, snap, cache, token, full, now);
            && key == token && full.Some? && served.cache[key] == Entry(ttl, full.value, now)
            && served.answer == Some(full.value.identity)
  {
  }

  lemma {:induction false} ClockAdvances(env: Env, events: seq<Event>, tr: seq<State>, j: nat, k: nat)
    requires IsRun(env, events, tr) && j <= k < |events|
    ensures events[j].ms <= events[k].ms && Secs(events[j]) <= Secs(events[k])
  {
    assert StepAt(env, events, tr, k);
    if j < k {
      ClockAdvances(env, events, tr, j, k - 1);
      assert StepAt(env, events, tr, k - 1);
    }
  }

  /** What an acceptance at event `k` rests on: the token was genuine at event `j`, no longer ago than the cache lifetime, and
      its version is still the floor of its user. */
  ghost predicate RestsOn(env: Env, events: seq<Event>, tr: seq<State>, j: nat, k: nat, token: string, v: Validated)
    requires |tr| == |events| + 1
  {
    && j <= k < |events| && FullAt(env, events, tr, j, token, v)
    && var t0, t := events[j].ms / 1000, events[k].ms / 1000;
    && Genuine(env.lib, tr[j].cfg, tr[j].snap, token, t0, v)
    && t0 <= t < t0 + env.ttl
    && v.claims.exp == Some(v.exp) && t < v.exp
    && (v.claims.nbf.Some? ==> v.claims.nbf.value <= t)
    && (v.claims.iat.Some? ==> t < v.claims.iat.value + 86_400 + env.ttl)
    && (v.identity.userId != "" && v.identity.userId in tr[k].snap.tvFloors ==>
          v.claims.tv == Some(tr[k].snap.tvFloors[v.identity.userId]))
  }

  lemma StillValid(cfg: Config, ttl: nat, v: Validated, t0: nat, t: nat)
    requires ClaimsHold(cfg, v.claims, t0) && v.claims.exp == Some(v.exp)
    requires (t0 <= t && t < EffectiveCacheExpiry(v.exp, t0, ttl)) || (t0 == t && 1 <= ttl)
    ensures t0 <= t < t0 + ttl && t < v.exp
    ensures v.claims.nbf.Some? ==> v.claims.nbf.value <= t
    ensures v.claims.iat.Some? ==> t < v.claims.iat.value + MAX_AGE_SECS + ttl
  {
    if v.claims.iat.Some? {
      WrapShrinks(v.claims.iat.value + MAX_AGE_SECS);
    }
  }

  lemma WrapShrinks(n: nat)
    ensures n % U64 <= n
  {
  }

  /** The full validation behind an acceptance, and how long the cache may hold on to it. */
  lemma AcceptanceIsBacked(env: Env, events: seq<Event>, tr: seq<State>, k: nat, token: string)
    returns (j: nat, v: Validated)
    requires IsRun(env, events, tr) && k < |events| && events[k].action.Validate?
    requires TokenIn(events[k].action.header) == Some(token) && ServedAt(env, tr[k], events[k]).answer.Some?
    ensures j <= k && FullAt(env, events, tr, j, token, v) && ServedAt(env, tr[k], events[k]).answer == Some(v.identity)
    ensures Secs(events[j]) <= Secs(events[k])
    ensures j == k || Secs(events[k]) < EffectiveCacheExpiry(v.exp, Secs(events[j]), env.ttl)
    ensures v.identity.userId != "" ==> !R.TvStale(tr[k].snap, v.identity.userId, v.claims.tv)
  {
    if Hit(tr[k].cache, token, Secs(events[k])) {
      j, v := HitIsBacked(env, events, tr, k, token);
    } else {
      j, v := k, FullCheck(env.lib, tr[k].cfg, tr[k].snap, token, Secs(events[k])).value;
      FullCheckFacts(env.lib, tr[j].cfg, tr[j].snap, token, Secs(events[j]));
    }
  }

  /** Bounded staleness of acceptance. In every run of publications, configuration changes, evictions and validations, an
      acceptance is of a bearer token that was validated in full, and found genuine, less than the cache lifetime ago; it
      is within the token's validity, and its version was checked against the snapshot in force now. Under fail-closed that snapshot is
      itself recent. */
  lemma BoundedStaleness(env: Env, events: seq<Event>, tr: seq<State>, k: nat)
    returns (token: string, j: nat, v: Validated)
    requires IsRun(env, events, tr) && 1 <= env.ttl && k < |events| && events[k].action.Validate?
    requires ServedAt(env, tr[k], events[k]).answer.Some?
    ensures events[k].action.header == "Bearer " + token && TokenIn(events[k].action.header) == Some(token)
    ensures RestsOn(env, events, tr, j, k, token, v) && ServedAt(env, tr[k], events[k]).answer == Some(v.identity)
    ensures events[k].action.failClosed ==>
              && tr[k].snap.generation > 0
              && events[k].ms <= tr[k].snap.syncedAtMs + 3000 * env.intervalSecs + 5000
  {
    token := TokenIn(events[k].action.header).value;
    BearerToken(events[k].action.header, token);
    j, v := AcceptanceIsBacked(env, events, tr, k, token);
    FullCheckFacts(env.lib, tr[j].cfg, tr[j].snap, token, Secs(events[j]));
    FullCheckExactly(env.lib, tr[j].cfg, tr[j].snap, token, Secs(events[j]), v);
    StillValid(tr[j].cfg, env.ttl, v, Secs(events[j]), Secs(events[k]));
  }

  // ---------------------------------------------------------------- revocation reaches the cache

  /** A snapshot holds one of the token's revocation keys with an expiry beyond a time. */
  ghost predicate RevokesBeyond(lib: Lib, snap: R.Snapshot, token: string, t: nat) {
    var c := ClaimsOf(lib, token);
    c.Some? && exists key :: key in R.RevocationKeys(c.value.jti, lib.hash(token)) && R.RevokedAt(snap.revoked, key, t)
  }

  lemma RevokedIffKeyHeld(snap: R.Snapshot, jti: Option<string>, hash: string, now: nat)
    ensures R.IsRevoked(snap, jti, hash, now)
       <==> exists key :: key in R.RevocationKeys(jti, hash) && R.RevokedAt(snap.revoked, key, now)
  {
    assert R.REVOKED_TOKEN + hash in R.RevocationKeys(jti, hash);
    if jti.Some? && jti.value != "" {
      assert R.REVOKED_JTI + jti.value in R.RevocationKeys(jti, hash);
    }
  }

  /** A token revoked in every snapshot in force after second `p` is not accepted from the cache lifetime after `p` on. */
  lemma RevokedIsRejected(env: Env, events: seq<Event>, tr: seq<State>, k: nat, token: string, p: nat)
    requires IsRun(env, events, tr) && 1 <= env.ttl && k < |events| && events[k].action.Validate?
    requires TokenIn(events[k].action.header) == Some(token) && Secs(events[k]) >= p + env.ttl
    requires forall i :: 0 <= i <= k && Secs(events[i]) > p ==>
               RevokesBeyond(env.lib, tr[i].snap, token, Secs(events[k]))
    ensures ServedAt(env, tr[k], events[k]).answer == None
  {
    if ServedAt(env, tr[k], events[k]).answer.Some? {
      var t1, j, v := BoundedStaleness(env, events, tr, k);
      FullCheckFacts(env.lib, tr[j].cfg, tr[j].snap, token, Secs(events[j]));
      assert RevokesBeyond(env.lib, tr[j].snap, token, Secs(events[k]));
      RevokedIffKeyHeld(tr[j].snap, v.claims.jti, env.lib.hash(token), Secs(events[j]));
      assert false;
    }
  }

  // ---------------------------------------------------------------- the cache is transparent

  /** A later check of the same token under the same configuration and snapshot differs only by the token's age. */
  lemma Recheck(lib: Lib, cfg: Config, snap: R.Snapshot, token: string, v: Validated, t0: nat, t: nat)
    requires FullCheck(lib, cfg, snap, token, t0) == Some(v) && t0 <= t < v.exp && !TooOld(v.claims, t)
    ensures FullCheck(lib, cfg, snap, token, t) == Some(v)
  {
    FullCheckFacts(lib, cfg, snap, token, t0);
  }

  /** Not under fail-closed, or with a snapshot no older than three sync intervals and five seconds. */
  ghost predicate Unblocked(env: Env, snap: R.Snapshot, failClosed: bool, nowMs: nat) {
    failClosed ==> snap.generation > 0 && nowMs <= snap.syncedAtMs + 3000 * env.intervalSecs + 5000
  }

  /** What a check without the cache would answer. */
  function Uncached(env: Env, s: State, token: string, now: nat): Option<Identity> {
    var full := FullCheck(env.lib, s.cfg, s.snap, token, now);
    if full.None? then None else Some(full.value.identity)
  }

  /** A floor on the empty user id that the token's version does not meet: a cache hit enforces it, a full check does not. */
  predicate EmptyUserStale(snap: R.Snapshot, c: Claims) {
    RawUser(c) == Some("") && R.TvStale(snap, "", c.tv)
  }

  /** Every check of a token but that of its version. */
  predicate PassesButVersion(env: Env, s: State, token: string, now: nat) {
    var p, c := Split(token), ClaimsOf(env.lib, token);
    && p.Some? && Signed(env.lib, s.cfg, p.value) && c.Some? && ClaimsHold(s.cfg, c.value, now)
    && !R.IsRevoked(s.snap, c.value.jti, env.lib.hash(token), now)
  }

  /** When a cache hit decides otherwise than a full check: it accepts a token that fails a check other than the version's,
      because a key or the issuer was rotated, the token was revoked or has grown too old since it was cached; or it
      refuses one of the empty user id for a floor that a full check ignores. */
  predicate HitDiffers(env: Env, s: State, token: string, c: Claims, now: nat)
    requires RawUser(c).Some?
  {
    var user := RawUser(c).value;
    var ok, stale := PassesButVersion(env, s, token, now), R.TvStale(s.snap, user, c.tv);
    (!ok && !stale) || (user == "" && ok && stale)
  }

  /** What a full check makes of a token that was once validated. */
  lemma UncachedDecides(env: Env, s: State, token: string, v: Validated, now: nat)
    requires ClaimsOf(env.lib, token) == Some(v.claims) && IdentityOf(v.claims) == Some(v.identity)
    requires RawUser(v.claims) == Some(v.identity.userId)
    ensures var stale := R.TvStale(s.snap, v.identity.userId, v.claims.tv);
            Uncached(env, s, token, now)
            == if PassesButVersion(env, s, token, now) && (v.identity.userId == "" || !stale) then Some(v.identity) else None
  {
  }

  /** The entry of a hit, and the validation it stands for. */
  lemma HitIsBacked(env: Env, events: seq<Event>, tr: seq<State>, k: nat, token: string) returns (j: nat, v: Validated)
    requires IsRun(env, events, tr) && k < |events| && Hit(tr[k].cache, token, Secs(events[k]))
    ensures j < k && FullAt(env, events, tr, j, token, v) && tr[k].cache[token] == Entry(env.ttl, v, Secs(events[j]))
    ensures Secs(events[j]) <= Secs(events[k]) < v.exp
  {
    RunBacked(env, events, tr, k);
    assert Backed(env, events, tr, k, token, tr[k].cache[token]);
    j, v :| j < k && FullAt(env, events, tr, j, token, v) && tr[k].cache[token] == Entry(env.ttl, v, Secs(events[j]));
    ClockAdvances(env, events, tr, j, k);
  }

  /** Exactly when the cache changes what is decided, in every run: on a miss never, and on a hit if and only if the token
      has come to fail a check other than the version's, or its user id is empty and has a floor it does not meet, and
      not both. Configuration and snapshot may have changed in any way since the entry was made. */
  lemma CacheDiffersExactlyWhen(env: Env, events: seq<Event>, tr: seq<State>, k: nat, token: string)
    requires IsRun(env, events, tr) && k < |events| && events[k].action.Validate?
    requires TokenIn(events[k].action.header) == Some(token)
    requires Unblocked(env, tr[k].snap, events[k].action.failClosed, events[k].ms)
    ensures var t, c := Secs(events[k]), ClaimsOf(env.lib, token);
            var differs := ServedAt(env, tr[k], events[k]).answer != Uncached(env, tr[k], token, t);
            if Hit(tr[k].cache, token, t) then
              c.Some? && RawUser(c.value).Some? && (differs <==> HitDiffers(env, tr[k], token, c.value, t))
            else !differs
  {
    if Hit(tr[k].cache, token, Secs(events[k])) {
      var j, v := HitIsBacked(env, events, tr, k, token);
      FullCheckFacts(env.lib, tr[j].cfg, tr[j].snap, token, Secs(events[j]));
      UncachedDecides(env, tr[k], token, v, Secs(events[k]));
    }
  }

  /** While configuration and snapshot stay the same, only two of those are left: the token has grown too old since it was
      cached, or its user id is empty and has a floor. */
  lemma CacheIsTransparent(env: Env, events: seq<Event>, tr: seq<State>, k: nat, token: string)
    requires IsRun(env, events, tr) && k < |events| && events[k].action.Validate?
    requires TokenIn(events[k].action.header) == Some(token)
    requires Unblocked(env, tr[k].snap, events[k].action.failClosed, events[k].ms)
    requires forall i :: 0 <= i <= k ==> tr[i].cfg == tr[k].cfg && tr[i].snap == tr[k].snap
    ensures var t := Secs(events[k]);
            var same := ServedAt(env, tr[k], events[k]).answer == Uncached(env, tr[k], token, t);
            && (!Hit(tr[k].cache, token, t) ==> same)
            && (Hit(tr[k].cache, token, t) ==>
                  && ClaimsOf(env.lib, token).Some?
                  && var c := ClaimsOf(env.lib, token).value;
                     same <==> (TooOld(c, t) <==> EmptyUserStale(tr[k].snap, c)))
  {
    if Hit(tr[k].cache, token, Secs(events[k])) {
      var j, v := HitIsBacked(env, events, tr, k, token);
      HitDecides(env, tr[k], token, v, Secs(events[j]), Secs(events[k]));
    }
  }

  /** A hit on an entry that was made under the same configuration and snapshot. */
  lemma HitDecides(env: Env, s: State, token: string, v: Validated, t0: nat, t: nat)
    requires FullCheck(env.lib, s.cfg, s.snap, token, t0) == Some(v) && t0 <= t < v.exp
    ensures ClaimsOf(env.lib, token) == Some(v.claims)
    ensures R.TvStale(s.snap, v.identity.userId, v.claims.tv) <==> EmptyUserStale(s.snap, v.claims)
    ensures Uncached(env, s, token, t) == if TooOld(v.claims, t) then None else Some(v.identity)
  {
    FullCheckFacts(env.lib, s.cfg, s.snap, token, t0);
    if TooOld(v.claims, t) {
      if FullCheck(env.lib, s.cfg, s.snap, token, t).Some? {
        FullCheckFacts(env.lib, s.cfg, s.snap, token, t);
        assert false;
      }
    } else {
      Recheck(env.lib, s.cfg, s.snap, token, v, t0, t);
    }
  }

  // ---------------------------------------------------------------- the exceptions happen

  /** A token is validated in second t0, a snapshot is published in the same second, and the token comes again at t. */
  lemma ValidateTwice(
      env: Env, cfg: Config, snap: R.Snapshot, later: R.Snapshot, token: string, v: Validated, t0: nat, t: nat)
    returns (events: seq<Event>, tr: seq<State>)
    requires FullCheck(env.lib, cfg, snap, token, t0) == Some(v) && t0 <= t
    ensures IsRun(env, events, tr) && |events| == 3
    ensures events[1] == Event(1000 * t0, Publish(later)) && events[2] == Event(1000 * t, Validate(BEARER + token, false, {}))
    ensures tr[0].snap == tr[1].snap == snap && tr[2].snap == later && forall i :: 0 <= i <= 2 ==> tr[i].cfg == cfg
    ensures TokenIn(events[2].action.header) == Some(token) && tr[2].cache == map[token := Entry(env.ttl, v, t0)]
  {
    var again := Validate(BEARER + token, false, {});
    events := [Event(1000 * t0, again), Event(1000 * t0, Publish(later)), Event(1000 * t, again)];
    assert TokenIn(BEARER + token) == Some(token);
    var start := State(cfg, snap, map[], 0);
    var one := start.(cache := ServedAt(env, start, events[0]).cache - {}, clockMs := 1000 * t0);
    assert one.cache == map[token := Entry(env.ttl, v, t0)];
    var two := one.(snap := later);
    tr := [start, one, two, two.(cache := ServedAt(env, two, events[2]).cache - {}, clockMs := 1000 * t)];
    assert StepAt(env, events, tr, 0) && StepAt(env, events, tr, 1) && StepAt(env, events, tr, 2);
  }

  /** Whatever the libraries, the configuration and the snapshot: a token that was validated and has grown too old is served
      while its cache entry lasts, although a full check refuses it. */
  lemma AgedTokenIsServed(env: Env, cfg: Config, snap: R.Snapshot, token: string, v: Validated, t0: nat, t: nat)
    returns (events: seq<Event>, tr: seq<State>)
    requires FullCheck(env.lib, cfg, snap, token, t0) == Some(v) && !EmptyUserStale(snap, v.claims)
    requires t0 <= t < EffectiveCacheExpiry(v.exp, t0, env.ttl) && TooOld(v.claims, t)
    ensures IsRun(env, events, tr) && |events| == 3 && tr[2].cfg == cfg && tr[2].snap == snap
    ensures events[2] == Event(1000 * t, Validate(BEARER + token, false, {}))
    ensures ServedAt(env, tr[2], events[2]).answer == Some(v.identity) && Uncached(env, tr[2], token, t) == None
  {
    events, tr := ValidateTwice(env, cfg, snap, snap, token, v, t0, t);
    HitDecides(env, tr[2], token, v, t0, t);
  }

  /** Whatever they are: a token of the empty user id that does not meet a floor published for it is accepted, and refused
      while its cache entry lasts, although a full check accepts it again. */
  lemma EmptyUserIsRefused(env: Env, cfg: Config, snap: R.Snapshot, token: string, v: Validated, t0: nat, t: nat)
    returns (events: seq<Event>, tr: seq<State>)
    requires FullCheck(env.lib, cfg, snap, token, t0) == Some(v) && EmptyUserStale(snap, v.claims)
    requires t0 <= t < EffectiveCacheExpiry(v.exp, t0, env.ttl) && !TooOld(v.claims, t)
    ensures IsRun(env, events, tr) && |events| == 3 && tr[2].cfg == cfg && tr[2].snap == snap
    ensures events[2] == Event(1000 * t, Validate(BEARER + token, false, {}))
    ensures ServedAt(env, tr[2], events[2]).answer == None && Uncached(env, tr[2], token, t) == Some(v.identity)
  {
    events, tr := ValidateTwice(env, cfg, snap, snap, token, v, t0, t);
    HitDecides(env, tr[2], token, v, t0, t);
  }

  /** And a token revoked right after it was validated, in second p, is still served in second p + ttl - 1, the last one
      before it must be rejected. */
  lemma RevokedTokenIsServed(
      env: Env, cfg: Config, snap: R.Snapshot, later: R.Snapshot, token: string, v: Validated, p: nat)
    returns (events: seq<Event>, tr: seq<State>)
    requires FullCheck(env.lib, cfg, snap, token, p) == Some(v) && 1 <= env.ttl
    requires var t := p + env.ttl - 1;
             && t < v.exp && t + 1 < U64
             && RevokesBeyond(env.lib, later, token, t) && !R.TvStale(later, v.identity.userId, v.claims.tv)
    ensures IsRun(env, events, tr) && |events| == 3 && Secs(events[1]) == p && events[1].action == Publish(later)
    ensures events[2] == Event(1000 * (p + env.ttl - 1), Validate(BEARER + token, false, {})) && tr[2].snap == later
    ensures ServedAt(env, tr[2], events[2]).answer == Some(v.identity)
    ensures Uncached(env, tr[2], token, p + env.ttl - 1) == None
  {
    var t := p + env.ttl - 1;
    events, tr := ValidateTwice(env, cfg, snap, later, token, v, p, t);
    FullCheckFacts(env.lib, cfg, snap, token, p);
    RevokedIffKeyHeld(later, v.claims.jti, env.lib.hash(token), t);
    UncachedDecides(env, tr[2], token, v, t);
  }

  // ---------------------------------------------------------------- their hypotheses can be met

  /** A library in which every token is well signed and carries the same claims. */
  function LibFor(c: Claims): Lib {
    Lib((h: string) => Some(Header("HS256", "")), (p: string) => Some(c), (b: string) => Some([]),
        (k: string, i: string) => [], (t: string) => t)
  }

  const EMPTY_PARTS := Parts("", "", "")

  /** Any claims that hold are those of some token that a full check accepts. */
  lemma SomeTokenIsValid(c: Claims, cfg: Config, snap: R.Snapshot, now: nat)
    requires ClaimsHold(cfg, c, now) && VersionHolds(snap, c) && IdentityOf(c).Some?
    requires snap.revoked == map[]
    ensures FullCheck(LibFor(c), cfg, snap, Join(EMPTY_PARTS), now) == Some(Validated(c, c.exp.value, IdentityOf(c).value))
  {
    SplitJoined(EMPTY_PARTS);
  }

  // ---------------------------------------------------------------- from the index to the gate

  /** From the index to the gate. A revocation that is in the index when a successful cycle runs, and stays there, is
      enforced: once the worker reads that cycle's snapshot or a later one, after second `p`, the token is rejected from the
      cache lifetime after `p` until the revocation expires. `origin` says which state of the sync run each snapshot
      in force comes from. */
  lemma RevocationIsEnforced(
      env: Env, events: seq<Event>, tr: seq<State>, k: nat, token: string, p: nat,
      parse: string -> Option<nat>, revEvents: seq<R.Event>, revTr: seq<R.Sys>, origin: seq<nat>,
      cycle: nat, key: string, expiry: nat)
    requires IsRun(env, events, tr) && 1 <= env.ttl && k < |events| && events[k].action.Validate?
    requires TokenIn(events[k].action.header) == Some(token) && p + env.ttl <= Secs(events[k]) < expiry
    requires R.IsRun(parse, revEvents, revTr) && R.StaysIndexed(revEvents, revTr, cycle, key, expiry)
    requires ClaimsOf(env.lib, token).Some?
    requires key in R.RevocationKeys(ClaimsOf(env.lib, token).value.jti, env.lib.hash(token))
    requires |origin| == |events| && forall i :: 0 <= i < |origin| ==> origin[i] < |revTr|
    requires forall i :: 0 <= i < |origin| ==> tr[i].snap == revTr[origin[i]].w.snapshot
    requires forall i :: 0 <= i < |origin| && Secs(events[i]) > p ==> cycle < origin[i]
    ensures ServedAt(env, tr[k], events[k]).answer == None
  {
    forall i | 0 <= i <= k && Secs(events[i]) > p
      ensures RevokesBeyond(env.lib, tr[i].snap, token, Secs(events[k]))
    {
      R.SnapshotsHold(parse, revEvents, revTr, cycle, origin[i], key, expiry);
      assert R.RevokedAt(tr[i].snap.revoked, key, Secs(events[k]));
    }
    RevokedIsRejected(env, events, tr, k, token, p);
  }

  // ---------------------------------------------------------------- fail-closed

  /** An accepted fail-closed validation has a snapshot, and a recent one. */
  lemma AcceptedIsFresh(env: Env, s: State, e: Event)
    requires e.action.Validate? && e.action.failClosed && ServedAt(env, s, e).answer.Some?
    ensures s.snap.generation > 0 && e.ms <= s.snap.syncedAtMs + 3000 * env.intervalSecs + 5000
  {
  }

  /** The bound of fail-closed. If every validation is fail-closed, and every successful cycle at or after millisecond q sees
      a key of the token in the index, then, however often cycles fail or do not run, the token is not accepted from three
      sync intervals, five seconds and the cache lifetime after q until the revocation expires. */
  lemma FailClosedEnforces(
      env: Env, events: seq<Event>, tr: seq<State>, k: nat, token: string, q: nat,
      parse: string -> Option<nat>, revEvents: seq<R.Event>, revTr: seq<R.Sys>, origin: seq<nat>, key: string, expiry: nat)
    requires IsRun(env, events, tr) && 1 <= env.ttl && k < |events| && events[k].action.Validate?
    requires TokenIn(events[k].action.header) == Some(token) && Secs(events[k]) < expiry
    requires events[k].ms >= q + 3000 * env.intervalSecs + 5000 + 1000 * env.ttl
    requires forall i :: 0 <= i <= k && events[i].action.Validate? ==> events[i].action.failClosed
    requires R.IsRun(parse, revEvents, revTr)
    requires forall m :: 0 <= m < |revEvents| && revEvents[m].Cycle? && revEvents[m].ok && revEvents[m].nowMs >= q ==>
               R.Indexed(revTr[m].redis, key, expiry) && revEvents[m].now < expiry
    requires ClaimsOf(env.lib, token).Some?
    requires key in R.RevocationKeys(ClaimsOf(env.lib, token).value.jti, env.lib.hash(token))
    requires |origin| == |events| && forall i :: 0 <= i < |origin| ==> origin[i] < |revTr|
    requires forall i :: 0 <= i < |origin| ==> tr[i].snap == revTr[origin[i]].w.snapshot
    ensures ServedAt(env, tr[k], events[k]).answer == None
  {
    if ServedAt(env, tr[k], events[k]).answer.Some? {
      var t1, j, v := BoundedStaleness(env, events, tr, k);
      AcceptedIsFresh(env, tr[j], events[j]);
      var m := R.SnapshotHasCycle(parse, revEvents, revTr, origin[j]);
      R.DeltaSyncAgrees(parse, revEvents, revTr, m);
      R.AgreedEntry(parse, revTr[m + 1].w, revTr[m].redis, revEvents[m].now, key);
      FullCheckFacts(env.lib, tr[j].cfg, tr[j].snap, token, Secs(events[j]));
      assert R.RevokedAt(tr[j].snap.revoked, key, Secs(events[j]));
      RevokedIffKeyHeld(tr[j].snap, v.claims.jti, env.lib.hash(token), Secs(events[j]));
      assert false;
    }
  }
}
