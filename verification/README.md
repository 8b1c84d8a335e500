# Verified model of the gateway's core

The gateway is an NGINX worker extension written in Rust (`rust-ext/`). On every request it authenticates, limits, sheds
and routes, and it protects itself from a failing Redis with a circuit breaker. This project models the parts where that
is hard to get right and proves what they promise, for every input, every run and every interleaving.

- **Redis circuit breaker.** `RollingWindow` is the ring of one-second buckets with its latency histogram, `CircuitBreaker`
  the state machine as an object over mutable fields, each method proved equal to a function on values. `BreakerRuns` has
  the theorems about whole runs, with one `acquire` or one `release` as a step and any number of calls overlapping between
  the two. `BreakerRecovery` builds runs: one that closes an open circuit again, from every reachable state, and two that
  close it too early. `BreakerInterleaving` has what survives, and what does not, when every atomic operation and every
  clock reading is a step of its own.
- **Authentication freshness.** `Revocation` is the delta sync from Redis to the local snapshot, `Auth` the token gate with
  its positive cache; the two meet in one theorem about how long a revoked token can still pass.
- **Statistics and arithmetic.** `Baselines` (median and deviation of the last 256 observations), `Quota` (calendar dates
  from day numbers), `Waf` (layered percent-decoding).
- **Concurrency and selection.** `RateLimit` (a packed counter under compare-and-swap), `SingleFlight` (leaders and
  followers), `Backpressure` (slot accounting), `Selector` (weighted ring, two choices, canary split).
- `Counting`, `Threads` and `Wrappers` hold shared definitions: counting values in a sequence, counting threads at a
  program point, and the optional value.

`dafny verify dfyconfig.toml` checks the whole project.

## What the proofs show about the code

Most promises hold as documented. These do not, and each has its exact condition or a concrete run:

- The header of `rust-ext/src/revocation.rs:9-11` calls the index score an event time; the code reads it as the expiry
  (`rust-ext/src/revocation.rs:251`, `:324`). The delta pull is then complete only while new scores stay at or above the
  watermark less a minute: `Revocation.PulledIffRecentOrKnown` gives the condition and
  `Revocation.ShortLivedRevocationIsMissed`, with `Revocation.MissedRevocationExists`, a revocation that expires sooner than
  an earlier one and is not pulled.
- The recovery test of the breaker ignores the timeout rate. The window on which a circuit closes would open it again exactly
  when it holds enough samples and its timeout rate is at the threshold (`BreakerRuns.RecoveryIgnoresTimeouts`), and that
  happens, under the default configuration too (`BreakerRecovery.DefaultsCloseThoughUnhealthy`). The latency and the error
  rate do keep their hysteresis.
- The successes that close a circuit need not be those of its probes: late calls admitted before it opened count as well, and
  a circuit can close without a single probe (`BreakerRecovery.ClosesWithoutProbe`). They are the probes' own when no call
  was outstanding as the episode began (`BreakerRuns.SuccessesAreProbes`).
- The probe budget does not hold under interleaving: a reset of the probe counter forgets the probes admitted before it. In
  every run an episode exceeds its budget by no more than the forgotten probes (`BreakerInterleaving.ProbeAccounting`), so
  not at all while the resets forget nothing (`BreakerInterleaving.BudgetIfUndisturbed`), and a reset leaves the counter
  exact if and only if it forgets nothing (`BreakerInterleaving.ResetIsExactIff`). Threads delayed between entering an
  episode and its reset make a later episode exceed its budget by any multiple (`BreakerInterleaving.ProbeBudgetOverrun`).
  The counter can also wrap, after which a probe that finds no other refusal in progress is refused
  (`BreakerInterleaving.ProbeCounterWraps`, `BreakerInterleaving.WrappedCounter`).
- The rate limiter bounds every stretch with one timestamp, so a second admits at most its limit for each stretch that the
  word spends at it: once, as long as no delayed thread takes the timestamp back. With delayed threads the bound is
  reached, for every limit and every number of stretches: `RateLimit.LateThreadsReopenSecond`.
- `rust-ext/src/single_flight.rs:10-11` promises at most one backend request at a time for identical work. Followers that
  time out become leaders too. `SingleFlight.LeaderBound` counts the leaders of a key exactly and says when there is more
  than one; `SingleFlight.TwoLeaders` and `SingleFlight.TwoRegisteredLeaders` are runs with two.
- The token cache changes a decision exactly when the token has come to fail a check other than the version's since it was
  cached, or has the empty user id with a floor it does not meet, but not both: `Auth.CacheDiffersExactlyWhen`. So a token
  revoked in second p is served until p+ttl-1 (`Auth.RevokedTokenIsServed`) and no longer (`Auth.RevokedIsRejected`). While
  configuration and snapshot stay the same, only its age and the empty user id are left (`Auth.CacheIsTransparent`), with a
  run for each in `Auth.AgedTokenIsServed` and `Auth.EmptyUserIsRefused`.
- In `rust-ext/src/load_balancing/selector.rs:142-151` the documented advantage of 20% decides nothing beyond a plain
  comparison, except between scores closer than the rounding tolerance: `Selector.PickIsBetter`.
- The comment `Max jitter added` at `rust-ext/src/redis_cb.rs:102` is not attained: the jitter is below its bound unless the
  bound is zero (`CircuitBreaker.JitteredCooldown`).

## Model

| member | source | states |
|---|---|---|
| RollingWindow.BandPartitions | rust-ext/src/redis_cb.rs:225-230 | A latency exceeds every bound before its band and lies within the bound of its band; only the last band is open-ended |
| RollingWindow.BandReportsLeastBound | rust-ext/src/redis_cb.rs:289-359 | What a band reports is the least bound that its latency does not exceed, and u64::MAX above two seconds |
| RollingWindow.SlotHolds | rust-ext/src/redis_cb.rs:276-299 | After any log in order, each bucket carries the second of its last call and exactly the counts of that second |
| RollingWindow.AggregateRefinesLog | rust-ext/src/redis_cb.rs:302-325 | The ring refines the log: every counter and band of the merged window equals the calls of the last W seconds, plus those of second now-W exactly when nothing was recorded in second now |
| RollingWindow.PercentileUs | rust-ext/src/redis_cb.rs:345-362 | The accumulating loop computes the percentile specification |
| RollingWindow.PercentileIsNearestRank | rust-ext/src/redis_cb.rs:345-362 | For every multiset of latencies the percentile is the least bound of the order statistic that fewer than pct percent of them precede and that, with it, makes at least pct percent; the scan ends in its band |
| RollingWindow.PercentileMonotone | rust-ext/src/redis_cb.rs:704-720 | A higher percentile is never smaller, so p50 <= p95 <= p99 |
| RollingWindow.WindowPercentile | rust-ext/src/redis_cb.rs:302-362 | A percentile read from the ring is the least bound of that order statistic of the latencies logged in the window, and 0 when there are none |
| RollingWindow.Window.constructor | rust-ext/src/redis_cb.rs:260-266 | A new ring is the ring of the empty log |
| RollingWindow.Window.Record | rust-ext/src/redis_cb.rs:276-299 | Recording in place is one step of the ring specification: the bucket of the second, cleared first when it is another's |
| RollingWindow.Window.Aggregate | rust-ext/src/redis_cb.rs:302-325 | Merging changes nothing and yields the merged statistics |
| CircuitBreaker.Normalize | rust-ext/src/redis_cb.rs:163-187 | No more successes are demanded than probes are allowed, a sound configuration is kept, and nothing else changes; what this makes possible is in BreakerRecovery.RecoveryIsPossible |
| CircuitBreaker.JitteredCooldown | rust-ext/src/redis_cb.rs:649-660 | The cooldown is at least the base and below base plus jitter, or the base without jitter |
| CircuitBreaker.JitterSpreads | rust-ext/src/redis_cb.rs:651-656 | Every cooldown of the range is drawn from some seed |
| CircuitBreaker.RejectionReason | rust-ext/src/redis_cb.rs:444-528 | The concurrency limit is the reason exactly when it is what refuses the call, and the open circuit otherwise |
| CircuitBreaker.Breaker.constructor | rust-ext/src/redis_cb.rs:407-430 | A new breaker is CLOSED with every counter at zero, an empty window and a normalised configuration |
| CircuitBreaker.Breaker.AcquireCall | rust-ext/src/redis_cb.rs:436-490 | The in-place steps of acquire, with their undo on rejection, give exactly the specified state and answer |
| CircuitBreaker.Breaker.AcquireProbe | rust-ext/src/redis_cb.rs:492-531 | The same for the probe path: deadline first, then the budget, then the in-flight limit |
| CircuitBreaker.Breaker.Trip | rust-ext/src/redis_cb.rs:662-688 | Tripping an open breaker changes nothing; any other opens with a fresh cooldown |
| CircuitBreaker.Breaker.CheckStatisticalOpen | rust-ext/src/redis_cb.rs:621-644 | The window trips the breaker on enough samples and one trigger |
| CircuitBreaker.Breaker.ReleaseCall | rust-ext/src/redis_cb.rs:537-617 | The in-place steps of release give exactly the specified state, with the window read after the call was recorded |
| CircuitBreaker.Breaker.WithCircuitBreaker | rust-ext/src/redis_cb.rs:778-805 | A call is made exactly when it is admitted and is released once; its result comes back unchanged, the gauge is as before, and it counts once, as a request or a rejection |
| BreakerRuns.TransitionCounters | rust-ext/src/redis_cb.rs:460-485 | In every reachable state the open count is the half-open count plus one exactly when OPEN, and the gauge is the outstanding calls |
| BreakerRuns.OpenQuarantine | rust-ext/src/redis_cb.rs:452-485 | Every OPEN episode has a cooldown in [base, base+jitter], admits nothing until it has elapsed, and no later step moves its start or length |
| BreakerRuns.EpisodeStart | rust-ext/src/redis_cb.rs:460-466 | Every HALF_OPEN episode starts, and its deadline counts, from the step that entered it |
| BreakerRuns.AdmitsExactlyWhen | rust-ext/src/redis_cb.rs:436-531 | In every run a call is admitted if and only if: CLOSED, fewer calls than the limit are outstanding; OPEN, the cooldown has passed since the opening step, there is room for a probe and probing is given any time; HALF_OPEN, it is before the deadline, within the budget of the episode and the probe limit |
| BreakerRuns.ProbeBudget | rust-ext/src/redis_cb.rs:492-531 | No HALF_OPEN episode of any run admits more probes than its budget |
| BreakerRuns.RecoveryIsEarned | rust-ext/src/redis_cb.rs:551-566 | A run closes only from HALF_OPEN, by a success, in an episode with enough successes and no failure; with recovery thresholds below the open ones, neither the p99 nor the error trigger holds on the window used |
| BreakerRuns.ClosesExactlyWhen | rust-ext/src/redis_cb.rs:551-566 | In every run a circuit closes if and only if a success in HALF_OPEN is the last one needed and p99 and error rate are within the recovery thresholds |
| BreakerRuns.RecoveryIgnoresTimeouts | rust-ext/src/redis_cb.rs:557-559 | At every closing step of every run, with recovery thresholds below the open ones, the window would open the circuit if and only if it holds enough samples and its timeout rate is at the threshold |
| BreakerRuns.SuccessesAreProbes | rust-ext/src/redis_cb.rs:551-566 | For every episode that closes, the calls outstanding at its start and its probes are its releases and the calls outstanding at its end; so with none outstanding at its start, the successes that closed it are at most its probes |
| BreakerRecovery.RecoveryIsPossible | rust-ext/src/redis_cb.rs:155-171 | Every run that stands in OPEN with no call outstanding has, for every moment past its cooldown and one window after its last step, a continuation up to that moment that closes the circuit, under a normalised configuration that lets fast successes pass |
| BreakerRecovery.ClosesWithoutProbe | rust-ext/src/redis_cb.rs:546-566 | A run, for a family of configurations, that closes the circuit although the episode admitted no probe |
| BreakerRecovery.ClosesThoughUnhealthy | rust-ext/src/redis_cb.rs:553-566 | A run, for a family of configurations, that closes the circuit on a window on which its detector would open it |
| BreakerRecovery.DefaultsCloseThoughUnhealthy | rust-ext/src/redis_cb.rs:118-150 | Such a run under the default configuration |
| BreakerRuns.ProbeIffRoom | rust-ext/src/redis_cb.rs:452-470 | Past the cooldown an acquire is admitted as a probe exactly when fewer calls than the limit are in flight and the half-open time is positive |
| BreakerRuns.NeverWedgesOpen | rust-ext/src/redis_cb.rs:452-470 | From every reachable OPEN state an acquire made base plus jitter after the opening is a probe |
| BreakerRuns.NeverWedgesHalfOpen | rust-ext/src/redis_cb.rs:497-530 | From every reachable HALF_OPEN state an acquire made the half-open time after the step that entered the episode reopens, and one made base plus jitter later is a probe, whatever is released between |
| BreakerRuns.FastDetector | rust-ext/src/redis_cb.rs:545-617 | In every run the two counters are the failures and the timeouts since the last success, and in every reachable CLOSED state both are below their thresholds |
| BreakerRuns.OpensExactlyWhen | rust-ext/src/redis_cb.rs:573-644 | A CLOSED circuit opens exactly on a release where a detector fires, by the counts of the run and the three rates; a HALF_OPEN one exactly on a failing release or an acquire the half-open time after the step that entered the episode |
| BreakerRuns.CountersCount | rust-ext/src/redis_cb.rs:537-617 | In every run the published counters are the releases, the refused acquires, and the releases by outcome |
| BreakerRuns.HealthIsRead | rust-ext/src/redis_cb.rs:555-559 | The health a release acts on is read from the window that already holds its call |
| BreakerRuns.DetectorsReadTheLog | rust-ext/src/redis_cb.rs:537-566 | Every counter and band a release reads is that of the calls of the run completed in the last W seconds |
| BreakerRuns.ReleaseReadsTheRun | rust-ext/src/redis_cb.rs:302-362 | What a release acts on, by the run alone: the number of calls released in the last W seconds, the shares that ended in an error and in a timeout, and the least bound of their exact 99th percentile |
| BreakerInterleaving.InflightConservation | rust-ext/src/redis_cb.rs:436-540 | Under every interleaving the gauge is the running calls plus the adds about to be undone; at quiescence it is zero and calls are requests plus rejections |
| BreakerInterleaving.AdmissionBound | rust-ext/src/redis_cb.rs:443-449 | Each CLOSED admission leaves at most `max_inflight` running calls and each HALF_OPEN one at most `half_open_probes` |
| BreakerInterleaving.ProbeAccounting | rust-ext/src/redis_cb.rs:460-530 | In every interleaving the probe counter is the probes admitted in the episode and the adds not settled, less the forgotten ones, modulo 2^32; and the admitted exceed the budget by no more than the forgotten |
| BreakerInterleaving.BudgetIfUndisturbed | rust-ext/src/redis_cb.rs:460-530 | From any point at which nothing is forgotten, the budget holds as long as the resets after it forget nothing, whatever happened before |
| BreakerInterleaving.ResetIsExactIff | rust-ext/src/redis_cb.rs:464 | A reset leaves the counter exact if and only if no probe of the episode was admitted before it and no add is unsettled |
| BreakerInterleaving.ProbeBudgetOverrun | rust-ext/src/redis_cb.rs:460-469 | For every budget and every m, a run under a clock to an episode that has admitted m + 1 times its budget, by m delayed resets |
| BreakerInterleaving.ProbeCounterWraps | rust-ext/src/redis_cb.rs:464-521 | For every budget, a run under a clock to a state in which the probe counter has wrapped |
| BreakerInterleaving.WrappedCounter | rust-ext/src/redis_cb.rs:516-522 | On a wrapped counter a probe that finds no other refusal in progress is refused and its undo wraps the counter again; one that comes between another's add and undo is let through |
| Revocation.RangeByScore | rust-ext/src/revocation.rs:252-278 | A range query yields the members scored at or above its start, and no others |
| Revocation.NextWatermark | rust-ext/src/revocation.rs:319-355 | The next watermark is the greatest of the old one and the scores pulled, or the old one when that is not finite |
| Revocation.FetchFloors | rust-ext/src/revocation.rs:289-302 | The chunked fetch yields the parsed floor of every changed user, or fails when one of its chunks fails |
| Revocation.RebuildRevoked | rust-ext/src/revocation.rs:313-325 | The loop yields the previous unexpired entries overwritten by the delta |
| Revocation.RebuildFloors | rust-ext/src/revocation.rs:334-345 | The loop sets or removes the floor of exactly the fetched users |
| Revocation.SyncThread.SyncOnce | rust-ext/src/revocation.rs:241-365 | A cycle succeeds exactly when no command it reaches fails; then it publishes the rebuilt snapshot and moves the watermarks, and otherwise it changes neither |
| Revocation.CycleAgrees | rust-ext/src/revocation.rs:311-352 | One successful cycle turns a covered state into a snapshot that decides every indexed key and user as Redis does |
| Revocation.PullsWithinOverlap | rust-ext/src/revocation.rs:252-271 | A cycle pulls every score at first, and then those no more than 60 seconds, or 60 000 milliseconds, below the greatest one pulled |
| Revocation.CycleExactly | rust-ext/src/revocation.rs:311-345 | After a cycle a key is held exactly when this cycle pulled it, with the expiry of its score, or it was held and has not expired; a floor is the parsed Redis value when this cycle pulled the user, and as it was otherwise |
| Revocation.RevokedWasIndexed | rust-ext/src/revocation.rs:313-325 | Whatever a snapshot of a run revokes, some successful cycle found in the index with that expiry |
| Revocation.FloorWasPublished | rust-ext/src/revocation.rs:334-345 | Whatever floor a snapshot of a run has, some successful cycle read from Redis for that indexed user |
| Revocation.CollectionDropsOld | rust-ext/src/revocation.rs:357-362 | The collection drops exactly the revocations that expired an hour ago or more, and none that still counts |
| Revocation.DeltaSyncAgrees | rust-ext/src/revocation.rs:239-365 | In every run, after every successful cycle all unexpired index entries are in the snapshot with their expiry and every indexed user's floor is the parsed Redis value; a failed cycle changes nothing; the generation counts the successes |
| Revocation.FullPullAgrees | rust-ext/src/revocation.rs:213-216 | A first pull of the whole index decides every indexed key and user the same way |
| Revocation.PulledIffRecentOrKnown | rust-ext/src/revocation.rs:250-263 | An unexpired entry is in the snapshot after a cycle exactly when its score is no more than 60 seconds below the greatest one pulled, or it was there already |
| Revocation.ShortLivedRevocationIsMissed | rust-ext/src/revocation.rs:250-256 | A revocation published after a longer-lived one, and expiring over a minute sooner, is not pulled |
| Revocation.MissedRevocationExists | rust-ext/src/revocation.rs:250-263 | For any two keys and such a pair of expiries there are two successful cycles after which the sooner one, unexpired, is not in the snapshot |
| Revocation.SnapshotsHold | rust-ext/src/revocation.rs:311-332 | Once a cycle has seen an indexed key, every later snapshot of the run holds it with its expiry |
| Auth.CacheTtl | rust-ext/src/auth.rs:102-112 | The cache lifetime lies between 1 and 300 seconds and is the configured one when that does |
| Auth.EffectiveCacheExpiry | rust-ext/src/auth.rs:116-118 | A cache entry ends at the token's expiry or at the end of the lifetime, never after either |
| Auth.SplitUndoesJoin | rust-ext/src/auth.rs:243-247 | A token splits into three parts exactly when it is those parts joined by dots and the first two hold none |
| Auth.RevokedIffKeyHeld | rust-ext/src/revocation.rs:76-90 | A token counts as revoked exactly when one of its revocation keys is held unexpired |
| Auth.FullCheckExactly | rust-ext/src/auth.rs:242-352 | A full check accepts a token, with its claims and identity, exactly when its text is three parts, its header names HS256 and a known secret, its signature is the MAC of the first two under that secret, issuer, audience and times hold, neither its id nor its hash is revoked, its version is its user's floor, and its identity is safe to forward |
| Auth.BearerToken | rust-ext/src/auth.rs:215 | A header carries a token exactly when it is that token after the bearer prefix |
| Auth.UseOrders | rust-ext/src/auth.rs:226-239 | Using a token puts it after all others and keeps their order, and the entry a full cache loses is the one used least recently |
| Auth.TokenCache.Put | rust-ext/src/auth.rs:358-367 | An entry becomes the most recently used one, within the capacity, at the cost of the least recently used one exactly when the cache is full and did not hold it |
| Auth.TokenCache.Consult | rust-ext/src/auth.rs:226-240 | A hit answers by the current floor; a stale or expired entry is dropped |
| Auth.TokenCache.ValidateToken | rust-ext/src/auth.rs:214-370 | The gate answers and updates its cache and the order of use as specified, and loses at most the least recently used entry, to a new one in a full cache |
| Auth.RunBacked | rust-ext/src/auth.rs:354-367 | In every run each cache entry stands for an earlier full validation of its token |
| Auth.BoundedStaleness | rust-ext/src/auth.rs:214-370 | In every run an acceptance at t is of a bearer token that was genuine, signature, issuer and audience included, at a full validation at t0 <= t < t0+ttl, with t < exp, nbf <= t, and its version the floor in the snapshot in force at t; under fail-closed that snapshot is recent (sections 4.1.4 and 4.1.5 of RFC 7519) |
| Auth.RevokedIsRejected | rust-ext/src/auth.rs:94-112 | A token revoked in every snapshot in force after second p, beyond t, is not accepted at t >= p+ttl |
| Auth.CacheDiffersExactlyWhen | rust-ext/src/auth.rs:225-336 | In every run a miss decides as a full check does, and a hit differs from it if and only if the token fails a check other than the version's and its version is not stale, or it passes them, its user id is empty and its version is stale |
| Auth.CacheIsTransparent | rust-ext/src/auth.rs:225-240 | While configuration and snapshot stay the same, a hit decides as a full check does if and only if the token is too old exactly when it has the empty user id and a floor it does not meet |
| Auth.RevokedTokenIsServed | rust-ext/src/auth.rs:94-101 | Whatever the libraries, a run in which a token revoked in second p is served in second p+ttl-1, the last one possible |
| Auth.AgedTokenIsServed | rust-ext/src/auth.rs:303-308 | Whatever the libraries, for every token that was validated and has grown too old, a run in which the cache serves it while a full check refuses it |
| Auth.EmptyUserIsRefused | rust-ext/src/auth.rs:325-336 | Whatever the libraries, for every such token of the empty user id, a run in which the cache refuses it while a full check accepts it |
| Auth.SomeTokenIsValid | rust-ext/src/auth.rs:242-352 | Any claims that hold are those of some token that a full check accepts, so the runs above exist |
| Auth.RevocationIsEnforced | rust-ext/src/revocation.rs:21-25 | From the index to the gate: a revocation seen by a successful cycle, and kept in the index, is enforced from the cache lifetime after its snapshot is in force until it expires |
| Auth.FailClosedEnforces | rust-ext/src/revocation.rs:22-25 | Under fail-closed, a revocation that every successful cycle from q on sees is enforced from three sync intervals, five seconds and the cache lifetime after q until it expires, however often cycles fail |
| Baselines.SortSorts | rust-ext/src/baselines.rs:54 | Sorting orders the values and keeps them |
| Baselines.MedianInBand | rust-ext/src/baselines.rs:48-61 | The median lies in every band that holds more than half of the values |
| Baselines.MadWithinBand | rust-ext/src/baselines.rs:64-81 | The deviation is at most the width of every such band |
| Baselines.FiniteValuesAre | rust-ext/src/baselines.rs:49-50 | The values summarised are the finite ones observed, as often as they were |
| Baselines.FlaggedExactly | rust-ext/src/baselines.rs:88-101 | With m the middle of the finite values in order and d the middle of their distances from m, a value is flagged if and only if there are two observations, it is finite, above the floor, and above m+1.4826kd, or above 1.5m when d is zero |
| Baselines.OutlierImmunity | rust-ext/src/baselines.rs:88-101 | With a majority in [lo,hi], every value above max(floor, hi+1.4826k(hi-lo), 1.5hi) is flagged whatever the others are, and nothing at or below a non-negative lo is |
| Baselines.RingIsRecent | rust-ext/src/baselines.rs:33-37 | The ring holds exactly the last min(n,256) observations |
| Baselines.MadBaseline.Observe | rust-ext/src/baselines.rs:33-37 | Observing appends to the history and keeps the ring tied to it |
| Baselines.MadBaseline.ContentsAreRecent | rust-ext/src/baselines.rs:33-41 | What is summarised is the last min(n,256) observations in some order |
| Baselines.MadBaseline.ImmuneToOutliers | rust-ext/src/baselines.rs:83-101 | Outlier immunity of the object, speaking of its recent observations |
| Baselines.MadBaseline.MedianNow | rust-ext/src/baselines.rs:48-61 | The method computes the median of the finite contents |
| Baselines.MadBaseline.MadNow | rust-ext/src/baselines.rs:64-81 | The method computes the median absolute deviation of the finite contents |
| Baselines.MadBaseline.IsAnomalous | rust-ext/src/baselines.rs:88-101 | The method decides the trigger rule, its degenerate cases included |
| Quota.DayRoundTrip | rust-ext/src/quota.rs:45-54 | Every day number gives a date of the Gregorian calendar (section 5.7 and Appendix C of RFC 3339), and the inverse gives the day back |
| Quota.DateRoundTrip | rust-ext/src/quota.rs:45-54 | Every date of the calendar is the date of its day number |
| Quota.DaysFollowTheCalendar | rust-ext/src/quota.rs:45-54 | Day n+1 is the calendar successor of day n |
| Quota.EpochIs1970 | rust-ext/src/quota.rs:45 | Day 0 is 1970-01-01 |
| Quota.DatesAreOrdered | rust-ext/src/quota.rs:45-54 | The map from days to dates is strictly increasing, hence injective |
| Quota.DayKeyNumber | rust-ext/src/quota.rs:55 | The key, read as a number, is yyyymmdd of the day, in eight digits up to the year 9999 |
| Quota.DayKeysAreRight | rust-ext/src/quota.rs:38-56 | Two moments share a key exactly when they are in the same UTC day, and keys grow with the days |
| Waf.UrlDecode | rust-ext/src/waf.rs:230-253 | The loop computes the decoding, with the dropped character of a truncated escape |
| Waf.UrlDecodeRecursive | rust-ext/src/waf.rs:218-228 | Passes with an early break are exactly three passes |
| Waf.DecodePlain | rust-ext/src/waf.rs:246-250 | Text without a percent sign keeps its characters, each plus sign a space |
| Waf.DecodeAfterPlain | rust-ext/src/waf.rs:230-253 | What follows plain text is decoded as if it stood alone |
| Waf.DecodeEscape | rust-ext/src/waf.rs:234-245 | There, an escape gives its character, two characters that are none stay with their percent sign, and one alone after it is lost |
| Waf.EscapeIsHex | rust-ext/src/waf.rs:236-237 | An escape of hexadecimal digits of either case is the character they number |
| Waf.OnlyHexDigits | rust-ext/src/waf.rs:236 | Nothing but a hexadecimal digit of either case begins or ends an escape |
| Waf.DecodeTimesShrinks | rust-ext/src/waf.rs:218-253 | Decoding never lengthens the text |
| Waf.DecodeUndoesEncode | rust-ext/src/waf.rs:235-238 | One pass undoes one percent-encoding (section 2.1 of RFC 3986), digits of either case |
| Waf.EncodeEncodes | rust-ext/src/waf.rs:235-238 | Every text below code point 256 has such an encoding, which can be encoded again |
| Waf.LayeredDecoding | rust-ext/src/waf.rs:113-228 | For every number of passes, three in the code, text encoded k times, no more often than that, comes out as the remaining decodings of the original, so as the original when that is a fixed point |
| Waf.FixedIffNothingToDecode | rust-ext/src/waf.rs:230-253 | A text is a fixed point exactly when no plus sign, no escape and no truncated escape reaches the decoder, a percent sign keeping the two characters after it from it |
| RateLimit.PackRoundTrip | rust-ext/src/rate_limit.rs:350-361 | Packing and unpacking second and count undo each other |
| RateLimit.Bucket.CheckRateLimit | rust-ext/src/rate_limit.rs:331-368 | No limit or no user passes and leaves the word alone; any other caller is refused at the first word that refuses it, whatever other threads leave there between its attempts, and swaps in its own word otherwise |
| RateLimit.WindowLimit | rust-ext/src/rate_limit.rs:343-368 | Under every interleaving each stretch with one timestamp admits at most the limit, the saturating writes of lines 284-297 mixed in; the per-IP limiter in rust-ext/src/waf.rs:183-207 is the same loop without them |
| RateLimit.SaturationCloses | rust-ext/src/rate_limit.rs:284-297 | After a saturating write that takes effect no check of its second is admitted until the timestamp changes |
| RateLimit.SecondLimit | rust-ext/src/rate_limit.rs:343-368 | In every run a second admits at most the limit for each stretch that the word spends at it |
| RateLimit.ForwardLimit | rust-ext/src/rate_limit.rs:343-368 | As long as no write takes the timestamp back, no second admits more than the limit |
| RateLimit.LateThreadsReopenSecond | rust-ext/src/rate_limit.rs:353-355 | For every limit and every number of late threads, a run in which each of them takes the timestamp back and lets another full limit of the same second in |
| SingleFlight.AbsentMeansPublished | rust-ext/src/single_flight.rs:109-115 | Under the map lock, an entry that is out of the map has its result published, by the completion that removed it |
| SingleFlight.SlotsAreWrittenOnce | rust-ext/src/single_flight.rs:109-115 | What a slot holds once, it holds for the rest of the run |
| SingleFlight.FollowersAgree | rust-ext/src/single_flight.rs:73-87 | All followers of an entry that do not time out return the same status, that of the completion event of the run that removed the entry |
| SingleFlight.LeaderBound | rust-ext/src/single_flight.rs:70-106 | Active leaders of a key are exactly one if it is in the map, plus the take-overs, less the completions that found no entry; so when there is more than one has an exact condition, and there is never more than one plus the take-overs; leaders and collapsed sum to the calls |
| SingleFlight.TwoLeaders | rust-ext/src/single_flight.rs:97-98 | A run in which the follower of a slow leader gives up, and a key has two leaders |
| SingleFlight.TwoRegisteredLeaders | rust-ext/src/single_flight.rs:101-115 | A run in which a take-over completes for the slow leader and the key is registered again, so that two registered leaders are active |
| Backpressure.LimitFor | rust-ext/src/backpressure.rs:24-35 | The limit is the whole capacity, a tenth of it but at least one, or none, by the circuit's state |
| Backpressure.Slots.Acquire | rust-ext/src/backpressure.rs:23-43 | A slot is taken exactly when the gauge was below the limit, and the gauge says so |
| Backpressure.Slots.ProcessRequest | rust-ext/src/lib.rs:251-422 | On every exit a slot stays held exactly when the status is 200, and the status is that of the first gate that turns the request away |
| Backpressure.StatusExactly | rust-ext/src/lib.rs:251-422 | The status of each gate, given what the gates before it let through; 200 only if every one of them does |
| Backpressure.SlotConservation | rust-ext/src/backpressure.rs:23-48 | Under every interleaving the gauge is the held slots plus the adds about to be undone, and each admission leaves the held slots within the limit that caller read |
| Selector.BuildWeightRing | rust-ext/src/load_balancing/ring.rs:12-21 | Each position occurs in the ring exactly max(1, weight) times |
| Selector.CollectHealthy | rust-ext/src/load_balancing/selector.rs:99-114 | The loop collects exactly the usable positions of the ring |
| Selector.PickP2C | rust-ext/src/load_balancing/selector.rs:116-159 | Of two slots a usable one is picked exactly when there is one |
| Selector.PickIsBetter | rust-ext/src/load_balancing/selector.rs:130-153 | Of two usable slots the alternative wins exactly when it has the lower score beyond the tolerance and one of the two is measured |
| Selector.WalkReaches | rust-ext/src/load_balancing/selector.rs:89-90 | The failover walk visits every slot |
| Selector.WalkVisitsOnce | rust-ext/src/load_balancing/selector.rs:89-90 | And no slot twice |
| Selector.Failover | rust-ext/src/load_balancing/selector.rs:88-96 | The first usable position clockwise is found, and none exactly when nothing is usable |
| Selector.SelectFrom | rust-ext/src/load_balancing/selector.rs:67-97 | A pool yields a usable member exactly when it has one, and it is the one the client's key leads to on the weighted ring: the better of its two slots, else the first usable one clockwise |
| Selector.RolloutIsMonotone | rust-ext/src/load_balancing/selector.rs:47-52 | A user is in the canary-first group by hint, or when its bucket of 10 000 is among the first hundred for each percent; raising the percentage never moves one out |
| Selector.SelectUpstream | rust-ext/src/load_balancing/selector.rs:23-64 | An address comes back exactly when the region has a usable member; it is that of one, of the user's own group whenever that group has one, and the one the user's key leads to in that group |

## Left out

- Counter widths: the breaker's and the metrics' counters do not overflow here. The widths that matter are explicit: 32-bit seconds in the ring, the probe counter under interleaving, the packed limiter word, saturating and wrapping token times.
- Floating point: rates, scores and observations are exact reals, beside a case for values that are not finite; rounding of the percentile rank is exact.
- Clocks: an atomic step reads one clock once and clocks do not go back, where the code reads them more than once in a call.
- BreakerInterleaving.InflightConservation: the effect of a release on the state is a free choice of the schedule; the window statistics and the success and failure counts behind it are not part of that model.
- BreakerRuns.DetectorsReadTheLog: as BreakerRuns.ReleaseReadsTheRun, for windows of 1 to 64 seconds and before the 32-bit second wraps; the environment allows at most 60 seconds.
- Auth.BoundedStaleness: a validation reads one snapshot and one configuration; a publication between two reads of the same validation is not modelled.
- Revocation.SyncThread.SyncOnce: the optional keyspace scan for publishers without an index is off.
- Revocation.DeltaSyncAgrees: publications happen between cycles, and each new or changed score is at or above the watermark less the overlap; without that the exact condition is in Revocation.PulledIffRecentOrKnown.
- SingleFlight.LeaderBound: a follower may time out at any moment; the two-second deadline and the polling delays are not modelled.
- RateLimit.WindowLimit: a slot is used with one limit; slots shared by users with different limits, and the message queue to the sync thread, are not modelled.
- BreakerRecovery.RecoveryIsPossible: before the 32-bit second wraps.
- CircuitBreaker.Breaker.WithCircuitBreaker: the call's result and its latency are inputs, and nothing else runs between its acquire and its release; overlapping calls are the subject of BreakerRuns.
- Backpressure.Slots.ProcessRequest: the answers of the gates are inputs; output buffers, logging and request ids are left out. One release per admitted request is the caller's part.
- Selector.SelectUpstream: whether an upstream is usable is sampled once per position; the hash is any function.
- Libraries: HMAC, SHA-256, base64, JSON and hashing are uninterpreted functions; pattern matching and the radix router are left out.
- Input and output: Redis, HTTP, shared memory, metrics export, environment parsing and logging.
- `rust-ext/src/adaptive_concurrency.rs` and `rust-ext/src/sentinel.rs`: their whole-run claims have nothing firm to stand on, and what remains is a clamp and a case split.
- `rust-ext/src/load_balancing/circuit_breaker.rs` and `rust-ext/src/health.rs`: smaller repeats of the Redis breaker; they appear only as the usable predicate.
- `rust-ext/src/debt.rs`, `rust-ext/src/entropy.rs`, `rust-ext/src/load_balancing/ema.rs`: smoothing and logarithms with little exact to prove.
- Response cache, CORS, body validation, configuration loading, telemetry and the quota decision: easy single-function facts.
