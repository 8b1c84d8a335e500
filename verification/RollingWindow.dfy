/** The health recorder of the Redis circuit breaker: a ring of one-second buckets, each with a
    latency histogram, merged on demand into window statistics and percentiles.

    The module states what the ring means: after any log of recorded calls, merging the ring gives
    the counts of the calls of the last seconds of that log, and a percentile read from the merged
    histogram is the upper bound of the band that holds the exact nearest-rank order statistic. */
module RollingWindow {
  import opened Counting

  const HIST_BANDS: nat := 18

  const HIST_BOUNDS_US: seq<nat> :=
    [500, 1_000, 2_000, 4_000, 8_000, 16_000, 32_000, 64_000,
     100_000, 150_000, 200_000, 300_000, 400_000, 500_000,
     750_000, 1_000_000, 2_000_000]

  const U64_MAX: nat := 0xFFFF_FFFF_FFFF_FFFF

  datatype Outcome = Success | RedisError | Timeout | CircuitOpen | ConcurrencyRejected

  type Hist = h: seq<nat> | |h| == 18 witness [0, 0, 0, 0, 0, 0, 0, 0, 0, 0, 0, 0, 0, 0, 0, 0, 0, 0]

  datatype TimeBucket = TimeBucket(
    ts: nat, total: nat, errors: nat, timeouts: nat, latencySum: nat, hist: Hist)

  datatype WindowStats = WindowStats(total: nat, errors: nat, timeouts: nat, hist: Hist) {
    function ErrorRate(): real {
      if total == 0 then 0.0 else errors as real / total as real
    }

    function TimeoutRate(): real {
      if total == 0 then 0.0 else timeouts as real / total as real
    }
  }

  /** One completed Redis call, as the log remembers it. */
  datatype Event = Event(ts: nat, outcome: Outcome, latencyUs: nat)

  function ZeroHist(): (h: Hist)
    ensures forall i :: 0 <= i < 18 ==> h[i] == 0
  {
    seq(18, _ => 0)
  }

  function EmptyBucket(ts: nat): TimeBucket {
    TimeBucket(ts, 0, 0, 0, 0, ZeroHist())
  }

  // ---------------------------------------------------------------- latency bands

  function BandFrom(latencyUs: nat, i: nat): (band: nat)
    requires i <= |HIST_BOUNDS_US|
    ensures i <= band <= |HIST_BOUNDS_US|
    decreases |HIST_BOUNDS_US| - i
  {
    if i == |HIST_BOUNDS_US| || latencyUs <= HIST_BOUNDS_US[i] then i else BandFrom(latencyUs, i + 1)
  }

  /** The band of a latency, found as `partition_point` does. */
  function Band(latencyUs: nat): (band: nat)
    ensures band < HIST_BANDS
  {
    BandFrom(latencyUs, 0)
  }

  /** What a percentile that falls in a band reports. */
  function BandUpper(band: nat): nat {
    if band < |HIST_BOUNDS_US| then HIST_BOUNDS_US[band] else U64_MAX
  }

  lemma {:induction false} BandFromPartitions(latencyUs: nat, i: nat)
    requires i <= |HIST_BOUNDS_US|
    ensures forall j :: i <= j < BandFrom(latencyUs, i) ==> HIST_BOUNDS_US[j] < latencyUs
    ensures BandFrom(latencyUs, i) < |HIST_BOUNDS_US| ==> latencyUs <= HIST_BOUNDS_US[BandFrom(latencyUs, i)]
    decreases |HIST_BOUNDS_US| - i
  {
    if i < |HIST_BOUNDS_US| && HIST_BOUNDS_US[i] < latencyUs {
      BandFromPartitions(latencyUs, i + 1);
    }
  }

  /** A latency is above every bound before its band and within the bound of its band. */
  lemma BandPartitions(latencyUs: nat)
    ensures forall j :: 0 <= j < Band(latencyUs) ==> HIST_BOUNDS_US[j] < latencyUs
    ensures latencyUs <= U64_MAX ==> latencyUs <= BandUpper(Band(latencyUs))
  {
    BandFromPartitions(latencyUs, 0);
  }

  /** The least bound that a latency does not exceed; the greatest 64-bit number above the last of them. */
  ghost predicate IsLeastBound(latencyUs: nat, bound: nat) {
    if latencyUs <= 2_000_000 then
      && bound in HIST_BOUNDS_US && latencyUs <= bound
      && forall b :: b in HIST_BOUNDS_US && latencyUs <= b ==> bound <= b
    else
      bound == 0xFFFF_FFFF_FFFF_FFFF
  }

  /** A band reports the least bound of its latencies. */
  lemma BandReportsLeastBound(latencyUs: nat)
    ensures IsLeastBound(latencyUs, BandUpper(Band(latencyUs)))
  {
    BandFromPartitions(latencyUs, 0);
    assert HIST_BOUNDS_US[16] == 2_000_000;
    if latencyUs <= 2_000_000 {
      BandWithinBound(latencyUs, 16);
      forall b | b in HIST_BOUNDS_US && latencyUs <= b ensures BandUpper(Band(latencyUs)) <= b {
        var j :| 0 <= j < |HIST_BOUNDS_US| && HIST_BOUNDS_US[j] == b;
        BandWithinBound(latencyUs, j);
      }
    }
  }

  lemma BandWithinBound(latencyUs: nat, j: nat)
    requires j < |HIST_BOUNDS_US| && latencyUs <= HIST_BOUNDS_US[j]
    ensures Band(latencyUs) <= j && BandUpper(Band(latencyUs)) <= HIST_BOUNDS_US[j]
  {
    BandFromPartitions(latencyUs, 0);
    BandUpperMonotone(Band(latencyUs), j);
  }

  lemma BandMonotone(a: nat, b: nat)
    requires a <= b
    ensures Band(a) <= Band(b)
  {
    BandFromPartitions(a, 0);
    BandFromPartitions(b, 0);
  }

  lemma BandUpperMonotone(a: nat, b: nat)
    requires a <= b < HIST_BANDS
    ensures BandUpper(a) <= BandUpper(b)
  {
  }

  // ---------------------------------------------------------------- counters, by name

  /** Every counter of a bucket or of the merged statistics, so that one proof serves them all. */
  datatype Measure = Total | Errors | Timeouts | InBand(band: nat)

  function Weight(e: Event, m: Measure): nat {
    match m
    case Total => 1
    case Errors => if e.outcome == RedisError then 1 else 0
    case Timeouts => if e.outcome == Timeout then 1 else 0
    case InBand(b) => if Band(e.latencyUs) == b then 1 else 0
  }

  function BucketValue(b: TimeBucket, m: Measure): nat {
    match m
    case Total => b.total
    case Errors => b.errors
    case Timeouts => b.timeouts
    case InBand(i) => if i < HIST_BANDS then b.hist[i] else 0
  }

  function StatsValue(s: WindowStats, m: Measure): nat {
    match m
    case Total => s.total
    case Errors => s.errors
    case Timeouts => s.timeouts
    case InBand(i) => if i < HIST_BANDS then s.hist[i] else 0
  }

  /** The share of a log that falls in the seconds lo..hi, counted under a measure. */
  function Tally(log: seq<Event>, lo: int, hi: int, m: Measure): nat {
    if |log| == 0 then 0
    else
      var e := log[|log| - 1];
      Tally(log[..|log| - 1], lo, hi, m) + if lo <= e.ts <= hi then Weight(e, m) else 0
  }

  // ---------------------------------------------------------------- recording

  /** One call folded into the bucket of its second; a bucket of another second is cleared first. */
  function Recorded(b: TimeBucket, e: Event): TimeBucket {
    var c := if b.ts != e.ts then EmptyBucket(e.ts) else b;
    var band := Band(e.latencyUs);
    TimeBucket(
      c.ts, c.total + 1,
      c.errors + (if e.outcome == RedisError then 1 else 0),
      c.timeouts + (if e.outcome == Timeout then 1 else 0),
      c.latencySum + e.latencyUs,
      c.hist[band := c.hist[band] + 1])
  }

  function RingRecord(ring: seq<TimeBucket>, e: Event): seq<TimeBucket>
    requires |ring| > 0
  {
    ring[e.ts % |ring| := Recorded(ring[e.ts % |ring|], e)]
  }

  /** The ring of n buckets after a whole log. */
  function RingAfter(n: nat, log: seq<Event>): (ring: seq<TimeBucket>)
    requires n > 0
    ensures |ring| == n
  {
    if |log| == 0 then seq(n, _ => EmptyBucket(0))
    else RingRecord(RingAfter(n, log[..|log| - 1]), log[|log| - 1])
  }

  // ---------------------------------------------------------------- merging

  function SaturatingSub(a: nat, b: nat): nat {
    if a < b then 0 else a - b
  }

  predicate InWindow(b: TimeBucket, now: nat, windowSecs: nat) {
    SaturatingSub(now, windowSecs) <= b.ts <= now
  }

  function AddHist(a: Hist, b: Hist): Hist {
    seq(18, i requires 0 <= i < 18 => a[i] + b[i])
  }

  function AddBucket(s: WindowStats, b: TimeBucket): WindowStats {
    WindowStats(s.total + b.total, s.errors + b.errors, s.timeouts + b.timeouts, AddHist(s.hist, b.hist))
  }

  const EMPTY_STATS := WindowStats(0, 0, 0, ZeroHist())

  function Merged(ring: seq<TimeBucket>, now: nat, windowSecs: nat): WindowStats {
    if |ring| == 0 then EMPTY_STATS
    else
      var s := Merged(ring[..|ring| - 1], now, windowSecs);
      var b := ring[|ring| - 1];
      if InWindow(b, now, windowSecs) then AddBucket(s, b) else s
  }

  lemma MergedValue(ring: seq<TimeBucket>, now: nat, windowSecs: nat, m: Measure)
    requires |ring| > 0
    ensures StatsValue(Merged(ring, now, windowSecs), m)
         == StatsValue(Merged(ring[..|ring| - 1], now, windowSecs), m)
          + (if InWindow(ring[|ring| - 1], now, windowSecs) then BucketValue(ring[|ring| - 1], m) else 0)
  {
  }

  // ---------------------------------------------------------------- what a slot holds

  ghost predicate Nondecreasing(log: seq<Event>) {
    forall i, j :: 0 <= i < j < |log| ==> log[i].ts <= log[j].ts
  }

  /** The second of the last event that went to slot i, or -1. */
  function LastAt(log: seq<Event>, n: nat, i: nat): (last: int)
    requires n > 0
    ensures last == -1 || (0 <= last && last % n == i)
  {
    if |log| == 0 then -1
    else if log[|log| - 1].ts % n == i then log[|log| - 1].ts
    else LastAt(log[..|log| - 1], n, i)
  }

  lemma {:induction false} TallyOutside(log: seq<Event>, lo: int, hi: int, m: Measure)
    requires forall e :: e in log ==> !(lo <= e.ts <= hi)
    ensures Tally(log, lo, hi, m) == 0
  {
    if |log| > 0 {
      TallyOutside(log[..|log| - 1], lo, hi, m);
    }
  }

  lemma {:induction false} LastAtIsGreatest(log: seq<Event>, n: nat, i: nat, e: Event)
    requires n > 0 && Nondecreasing(log) && e in log && e.ts % n == i
    ensures e.ts <= LastAt(log, n, i)
  {
    var k :| 0 <= k < |log| && log[k] == e;
    if log[|log| - 1].ts % n != i {
      var rest := log[..|log| - 1];
      assert rest[k] == e;
      LastAtIsGreatest(rest, n, i, e);
    }
  }

  lemma RecordedValue(b: TimeBucket, e: Event, m: Measure)
    ensures Recorded(b, e).ts == e.ts
    ensures BucketValue(Recorded(b, e), m) == (if b.ts == e.ts then BucketValue(b, m) else 0) + Weight(e, m)
  {
    match m
    case Total =>
    case Errors =>
    case Timeouts =>
    case InBand(i) => assert i < HIST_BANDS ==> ZeroHist()[i] == 0;
  }

  lemma {:induction false} LastInLog(log: seq<Event>, n: nat, i: nat)
    requires n > 0 && LastAt(log, n, i) >= 0
    ensures exists e :: e in log && e.ts == LastAt(log, n, i)
  {
    if log[|log| - 1].ts % n != i {
      LastInLog(log[..|log| - 1], n, i);
    } else {
      assert log[|log| - 1] in log;
    }
  }

  /** A second that is not the slot's last one, and not before it, has not been seen yet. */
  lemma LaterSecondIsEmpty(log: seq<Event>, n: nat, ts: nat, m: Measure)
    requires n > 0 && Nondecreasing(log)
    requires LastAt(log, n, ts % n) < ts
    ensures Tally(log, ts, ts, m) == 0
  {
    forall x | x in log ensures x.ts != ts {
      if x.ts == ts { LastAtIsGreatest(log, n, ts % n, x); }
    }
    TallyOutside(log, ts, ts, m);
  }

  ghost predicate Holds(b: TimeBucket, log: seq<Event>, last: int, m: Measure) {
    && b.ts == (if last < 0 then 0 else last)
    && BucketValue(b, m) == Tally(log, last, last, m)
  }

  lemma TallySnoc(rest: seq<Event>, e: Event, lo: int, hi: int, m: Measure)
    ensures Tally(rest + [e], lo, hi, m) == Tally(rest, lo, hi, m) + if lo <= e.ts <= hi then Weight(e, m) else 0
  {
    assert (rest + [e])[..|rest|] == rest;
  }

  lemma LastIsNotLater(n: nat, rest: seq<Event>, e: Event, i: nat)
    requires n > 0 && Nondecreasing(rest + [e])
    ensures Nondecreasing(rest) && LastAt(rest, n, i) <= e.ts
  {
    var log := rest + [e];
    forall i, j | 0 <= i < j < |rest| ensures rest[i].ts <= rest[j].ts {
      assert log[i].ts <= log[j].ts;
    }
    if LastAt(rest, n, i) >= 0 {
      LastInLog(rest, n, i);
      var k :| 0 <= k < |rest| && rest[k].ts == LastAt(rest, n, i);
      assert log[k].ts <= log[|rest|].ts;
    }
  }

  lemma RecordedHolds(b: TimeBucket, rest: seq<Event>, e: Event, last: int, m: Measure)
    requires Holds(b, rest, last, m) && last <= e.ts
    requires last < e.ts ==> Tally(rest, e.ts, e.ts, m) == 0
    requires last < 0 ==> BucketValue(b, m) == 0
    ensures Holds(Recorded(b, e), rest + [e], e.ts, m)
  {
    RecordedValue(b, e, m);
    TallySnoc(rest, e, e.ts, e.ts, m);
  }

  lemma SlotHit(b: TimeBucket, n: nat, rest: seq<Event>, e: Event, m: Measure)
    requires n > 0 && Nondecreasing(rest + [e])
    requires Holds(b, rest, LastAt(rest, n, e.ts % n), m)
    ensures Holds(Recorded(b, e), rest + [e], e.ts, m)
  {
    var last := LastAt(rest, n, e.ts % n);
    LastIsNotLater(n, rest, e, e.ts % n);
    if last < 0 { TallyOutside(rest, -1, -1, m); }
    if last < e.ts { LaterSecondIsEmpty(rest, n, e.ts, m); }
    RecordedHolds(b, rest, e, last, m);
  }

  /** A slot carries the second of its last event and exactly that second's counts. */
  lemma {:induction false} SlotHolds(n: nat, log: seq<Event>, i: nat, m: Measure)
    requires i < n && Nondecreasing(log)
    ensures Holds(RingAfter(n, log)[i], log, LastAt(log, n, i), m)
  {
    if |log| > 0 {
      var rest, e := log[..|log| - 1], log[|log| - 1];
      assert log == rest + [e];
      SlotHolds(n, rest, i, m);
      if e.ts % n == i {
        SlotHit(RingAfter(n, rest)[i], n, rest, e, m);
      } else {
        var last := LastAt(rest, n, i);
        assert last != e.ts;
        TallySnoc(rest, e, last, last, m);
      }
    }
  }

  // ---------------------------------------------------------------- the ring refines the log

  lemma MulAwayFromZero(n: nat, d: int)
    ensures d >= 1 ==> n * d >= n
    ensures d <= -1 ==> n * d + n <= 0
  {
  }

  lemma ModOfSum(n: nat, q: int, r: int)
    requires 0 <= r < n
    ensures (n * q + r) % n == r
  {
    var k := n * q + r;
    assert n * (q - k / n) == k % n - r;
    MulAwayFromZero(n, q - k / n);
  }

  /** The one second of the n seconds up to h that goes to slot i. */
  function SecondOf(h: int, n: nat, i: nat): int
    requires i < n
  {
    h - (h - i) % n
  }

  lemma SecondIsUnique(h: int, n: nat, x: int)
    requires n > 0
    ensures h - n < x <= h ==> SecondOf(h, n, x % n) == x
  {
    if h - n < x <= h {
      assert x == n * (x / n) + x % n;
      ModOfSum(n, x / n, h - x);
    }
  }

  lemma SecondHasSlot(h: int, n: nat, i: nat)
    requires i < n
    ensures SecondOf(h, n, i) % n == i && h - n < SecondOf(h, n, i) <= h
  {
    var q := (h - i) / n;
    assert h - i == n * q + (h - i) % n;
    ModOfSum(n, q, i);
  }

  lemma {:induction false} TallyZero(log: seq<Event>, lo: int, hi: int, m: Measure)
    requires Tally(log, lo, hi, Total) == 0
    ensures Tally(log, lo, hi, m) == 0
  {
    if |log| > 0 { TallyZero(log[..|log| - 1], lo, hi, m); }
  }

  lemma {:induction false} TallyNone(log: seq<Event>, lo: int, hi: int, e: Event)
    requires Tally(log, lo, hi, Total) == 0 && e in log
    ensures !(lo <= e.ts <= hi)
  {
    var k :| 0 <= k < |log| && log[k] == e;
    if k < |log| - 1 {
      assert log[..|log| - 1][k] == e;
      TallyNone(log[..|log| - 1], lo, hi, e);
    }
  }

  lemma TallySome(log: seq<Event>, ts: int)
    requires Tally(log, ts, ts, Total) != 0
    ensures exists e :: e in log && e.ts == ts
  {
    if forall e :: e in log ==> e.ts != ts { TallyOutside(log, ts, ts, Total); }
  }

  lemma {:induction false} TallySplit(log: seq<Event>, lo: int, mid: int, hi: int, m: Measure)
    requires lo <= mid + 1 && mid <= hi
    ensures Tally(log, lo, hi, m) == Tally(log, lo, mid, m) + Tally(log, mid + 1, hi, m)
  {
    if |log| > 0 { TallySplit(log[..|log| - 1], lo, mid, hi, m); }
  }

  ghost predicate UpTo(log: seq<Event>, now: int) {
    forall e :: e in log ==> e.ts <= now
  }

  /** The newest second that the merged window reaches: `now` once something was recorded in it. */
  function Newest(log: seq<Event>, now: nat): int {
    if Tally(log, now, now, Total) == 0 then now - 1 else now
  }

  function SlotValue(b: TimeBucket, now: nat, windowSecs: nat, m: Measure): nat {
    if InWindow(b, now, windowSecs) then BucketValue(b, m) else 0
  }

  /** What a slot adds to the merged statistics is its second of the window, and nothing else. */
  lemma SlotContribution(n: nat, log: seq<Event>, now: nat, i: nat, m: Measure)
    requires i < n && Nondecreasing(log) && UpTo(log, now)
    ensures SlotValue(RingAfter(n, log)[i], now, n, m)
         == Tally(log, SecondOf(Newest(log, now), n, i), SecondOf(Newest(log, now), n, i), m)
  {
    var h := Newest(log, now);
    var s := SecondOf(h, n, i);
    var last := LastAt(log, n, i);
    SlotHolds(n, log, i, m);
    SecondHasSlot(h, n, i);
    if last >= 0 {
      LastInLog(log, n, i);
      var x :| x in log && x.ts == last;
      if h < now { TallyNone(log, now, now, x); }
      SecondIsUnique(h, n, last);
      if last == now - n && h == now {
        SlotOfNow(log, now, n, i);
      }
    } else {
      TallyOutside(log, -1, -1, m);
    }
    if last != s {
      if s >= 0 { LaterSecondIsEmpty(log, n, s, m); } else { TallyOutside(log, s, s, m); }
    }
  }

  /** Once something was recorded in `now`, no slot still holds second now - n. */
  lemma SlotOfNow(log: seq<Event>, now: nat, n: nat, i: nat)
    requires i < n && Nondecreasing(log) && UpTo(log, now)
    requires Tally(log, now, now, Total) != 0 && n <= now
    ensures LastAt(log, n, i) != now - n
  {
    if LastAt(log, n, i) == now - n {
      assert now - n == n * ((now - n) / n) + i;
      assert now == n * ((now - n) / n + 1) + i;
      ModOfSum(n, (now - n) / n + 1, i);
      TallySome(log, now);
      var x :| x in log && x.ts == now;
      LastAtIsGreatest(log, n, i, x);
    }
  }

  /** The first k slots' seconds, added up. */
  function SlotSum(log: seq<Event>, h: int, n: nat, k: nat, m: Measure): nat
    requires k <= n
  {
    if k == 0 then 0
    else var s := SecondOf(h, n, k - 1); SlotSum(log, h, n, k - 1, m) + Tally(log, s, s, m)
  }

  lemma {:induction false} SlotSumSnoc(rest: seq<Event>, e: Event, h: int, n: nat, k: nat, m: Measure)
    requires k <= n
    ensures SlotSum(rest + [e], h, n, k, m)
         == SlotSum(rest, h, n, k, m) + if h - n < e.ts <= h && e.ts % n < k then Weight(e, m) else 0
  {
    if k > 0 {
      SlotSumSnoc(rest, e, h, n, k - 1, m);
      var s := SecondOf(h, n, k - 1);
      TallySnoc(rest, e, s, s, m);
      SecondHasSlot(h, n, k - 1);
      SecondIsUnique(h, n, e.ts);
    }
  }

  lemma {:induction false} SlotSumIsWindow(log: seq<Event>, h: int, n: nat, m: Measure)
    requires n > 0
    ensures SlotSum(log, h, n, n, m) == Tally(log, h - n + 1, h, m)
  {
    if |log| == 0 {
      SlotSumEmpty(h, n, n, m);
    } else {
      var rest, e := log[..|log| - 1], log[|log| - 1];
      assert log == rest + [e];
      SlotSumIsWindow(rest, h, n, m);
      SlotSumSnoc(rest, e, h, n, n, m);
    }
  }

  lemma {:induction false} SlotSumEmpty(h: int, n: nat, k: nat, m: Measure)
    requires k <= n
    ensures SlotSum([], h, n, k, m) == 0
  {
    if k > 0 { SlotSumEmpty(h, n, k - 1, m); }
  }

  lemma {:induction false} MergedIsSlotSum(
      ring: seq<TimeBucket>, log: seq<Event>, now: nat, n: nat, h: int, m: Measure)
    requires |ring| <= n
    requires forall i :: 0 <= i < |ring| ==>
               SlotValue(ring[i], now, n, m) == Tally(log, SecondOf(h, n, i), SecondOf(h, n, i), m)
    ensures StatsValue(Merged(ring, now, n), m) == SlotSum(log, h, n, |ring|, m)
  {
    if |ring| > 0 {
      MergedIsSlotSum(ring[..|ring| - 1], log, now, n, h, m);
      MergedValue(ring, now, n, m);
    }
  }

  /** Merging the ring counts exactly the n seconds up to the newest one. */
  lemma MergedIsWindow(n: nat, log: seq<Event>, now: nat, m: Measure)
    requires n > 0 && Nondecreasing(log) && UpTo(log, now)
    ensures StatsValue(Merged(RingAfter(n, log), now, n), m)
         == Tally(log, Newest(log, now) - n + 1, Newest(log, now), m)
  {
    var ring, h := RingAfter(n, log), Newest(log, now);
    forall i | 0 <= i < n
      ensures SlotValue(ring[i], now, n, m) == Tally(log, SecondOf(h, n, i), SecondOf(h, n, i), m)
    {
      SlotContribution(n, log, now, i, m);
    }
    MergedIsSlotSum(ring, log, now, n, h, m);
    SlotSumIsWindow(log, h, n, m);
  }

  lemma NewestWindow(n: nat, log: seq<Event>, now: nat, m: Measure)
    requires n > 0
    ensures Tally(log, Newest(log, now) - n + 1, Newest(log, now), m)
         == Tally(log, now - n + 1, now, m)
          + if Tally(log, now, now, Total) == 0 then Tally(log, now - n, now - n, m) else 0
  {
    if Tally(log, now, now, Total) == 0 {
      TallySplit(log, now - n, now - n, now - 1, m);
      TallySplit(log, now - n + 1, now - 1, now, m);
      TallyZero(log, now, now, m);
    }
  }

  /** The bucket ring refines the full log: every counter and every band of the merged statistics is
      that of the seconds now-n+1..now, plus second now-n exactly while second `now` is still empty. */
  lemma AggregateRefinesLog(n: nat, log: seq<Event>, now: nat, m: Measure)
    requires n > 0 && Nondecreasing(log) && UpTo(log, now)
    ensures StatsValue(Merged(RingAfter(n, log), now, n), m)
         == Tally(log, now - n + 1, now, m)
          + if Tally(log, now, now, Total) == 0 then Tally(log, now - n, now - n, m) else 0
  {
    MergedIsWindow(n, log, now, m);
    NewestWindow(n, log, now, m);
  }

  // ---------------------------------------------------------------- percentiles

  /** ceil(x / 100). */
  function CeilPercent(x: nat): (r: nat)
    ensures x <= 100 * r < x + 100
  {
    (x + 99) / 100
  }

  /** ceil(total * pct / 100). */
  function Rank(total: nat, pct: nat): nat {
    CeilPercent(total * pct)
  }

  lemma RankInRange(total: nat, pct: nat)
    requires total > 0 && 1 <= pct <= 100
    ensures 1 <= Rank(total, pct) <= total
  {
    assert total <= total * pct <= total * 100;
  }

  /** The place of the nearest-rank percentile in a sorted sample: the values before it are fewer than pct percent of the
      sample, and with it they are at least that many. */
  ghost predicate IsNearestRank(sorted: seq<nat>, pct: nat, place: nat) {
    place < |sorted| && 100 * place < |sorted| * pct <= 100 * (place + 1)
  }

  function Prefix(h: Hist, k: nat): nat
    requires k <= 18
  {
    if k == 0 then 0 else Prefix(h, k - 1) + h[k - 1]
  }

  function ScanFrom(h: Hist, target: nat, i: nat): nat
    requires i <= 18
    decreases 18 - i
  {
    if i == 18 then U64_MAX
    else if target <= Prefix(h, i + 1) then BandUpper(i)
    else ScanFrom(h, target, i + 1)
  }

  function PercentileOf(stats: WindowStats, pct: nat): nat {
    if stats.total == 0 then 0 else ScanFrom(stats.hist, Rank(stats.total, pct), 0)
  }

  method PercentileUs(stats: WindowStats, pct: nat) returns (us: nat)
    ensures us == PercentileOf(stats, pct)
  {
    if stats.total == 0 {
      return 0;
    }
    var target := Rank(stats.total, pct);
    var cumulative := 0;
    for i := 0 to HIST_BANDS
      invariant cumulative == Prefix(stats.hist, i)
      invariant ScanFrom(stats.hist, target, 0) == ScanFrom(stats.hist, target, i)
    {
      cumulative := cumulative + stats.hist[i];
      if cumulative >= target {
        return if i < |HIST_BOUNDS_US| then HIST_BOUNDS_US[i] else U64_MAX;
      }
    }
    us := U64_MAX;
  }

  /** The band where the running count first reaches the rank. */
  ghost predicate FirstReached(h: Hist, target: nat, band: nat) {
    band < 18 && target <= Prefix(h, band + 1) && forall j :: 0 < j <= band ==> Prefix(h, j) < target
  }

  lemma {:induction false} ScanFinds(h: Hist, target: nat, i: nat, band: nat)
    requires FirstReached(h, target, band) && i <= band
    ensures ScanFrom(h, target, i) == BandUpper(band)
    decreases band - i
  {
    if i < band {
      assert Prefix(h, i + 1) < target;
      ScanFinds(h, target, i + 1, band);
    }
  }

  ghost predicate IsHistogram(key: nat -> nat, h: Hist, lats: seq<nat>) {
    forall b :: 0 <= b < 18 ==> h[b] == Count(key, lats, b)
  }

  lemma {:induction false} PrefixCounts(key: nat -> nat, h: Hist, lats: seq<nat>, k: nat)
    requires IsHistogram(key, h, lats) && k <= 18
    ensures Prefix(h, k) == CountBelow(key, lats, k)
  {
    if k == 0 {
      CountBelowStep(key, lats, 0);
    } else {
      PrefixCounts(key, h, lats, k - 1);
      CountBelowStep(key, lats, k - 1);
    }
  }

  /** The running count first reaches rank r in the band of the r-th smallest latency. */
  lemma RankIsReached(key: nat -> nat, h: Hist, lats: seq<nat>, sorted: seq<nat>, r: nat)
    requires Monotone(key) && IsHistogram(key, h, lats)
    requires Sorted(sorted) && multiset(sorted) == multiset(lats)
    requires 0 < r <= |sorted| && key(sorted[r - 1]) < 18
    ensures FirstReached(h, r, key(sorted[r - 1]))
  {
    forall b | 0 <= b < 18 ensures h[b] == Count(key, sorted, b) {
      CountPermuted(key, sorted, lats, b);
    }
    forall k | 0 <= k <= 18 ensures r <= Prefix(h, k) <==> key(sorted[r - 1]) < k {
      PrefixCounts(key, h, sorted, k);
      CountBelowSorted(key, sorted, k, r);
    }
  }

  lemma BandIsMonotone()
    ensures Monotone(Band)
  {
    forall a: nat, b: nat | a <= b ensures Band(a) <= Band(b) { BandMonotone(a, b); }
  }

  /** The percentile of a histogram is the least bound of the exact nearest-rank order statistic; the running count does
      reach the rank in its band, so the fall-through is never taken. */
  lemma PercentileIsNearestRank(stats: WindowStats, lats: seq<nat>, sorted: seq<nat>, pct: nat) returns (place: nat)
    requires |sorted| > 0 && stats.total == |sorted| && IsHistogram(Band, stats.hist, lats)
    requires Sorted(sorted) && multiset(sorted) == multiset(lats)
    requires 1 <= pct <= 100
    ensures IsNearestRank(sorted, pct, place) && IsLeastBound(sorted[place], PercentileOf(stats, pct))
    ensures FirstReached(stats.hist, Rank(stats.total, pct), Band(sorted[place]))
  {
    BandIsMonotone();
    var r := Rank(stats.total, pct);
    RankInRange(stats.total, pct);
    place := r - 1;
    RankIsReached(Band, stats.hist, lats, sorted, r);
    ScanFinds(stats.hist, r, 0, Band(sorted[place]));
    BandReportsLeastBound(sorted[place]);
  }

  lemma PercentileMonotone(stats: WindowStats, p: nat, q: nat)
    requires p <= q
    ensures PercentileOf(stats, p) <= PercentileOf(stats, q)
  {
    assert stats.total * p <= stats.total * q;
    if stats.total > 0 {
      ScanMonotone(stats.hist, Rank(stats.total, p), Rank(stats.total, q), 0);
    }
  }

  lemma {:induction false} ScanMonotone(h: Hist, t: nat, u: nat, i: nat)
    requires t <= u && i <= 18
    ensures ScanFrom(h, t, i) <= ScanFrom(h, u, i)
    ensures i < 18 ==> BandUpper(i) <= ScanFrom(h, u, i)
    decreases 18 - i
  {
    if i < 18 {
      ScanMonotone(h, t, u, i + 1);
      if i < 17 { BandUpperMonotone(i, i + 1); }
    }
  }

  // ---------------------------------------------------------------- end to end

  /** The latencies recorded in the seconds lo..hi. */
  function LatenciesIn(log: seq<Event>, lo: int, hi: int): seq<nat> {
    if |log| == 0 then []
    else
      var e, lats := log[|log| - 1], LatenciesIn(log[..|log| - 1], lo, hi);
      if lo <= e.ts <= hi then lats + [e.latencyUs] else lats
  }

  lemma {:induction false} TallyIsLength(log: seq<Event>, lo: int, hi: int)
    ensures Tally(log, lo, hi, Total) == |LatenciesIn(log, lo, hi)|
  {
    if |log| > 0 { TallyIsLength(log[..|log| - 1], lo, hi); }
  }

  lemma {:induction false} TallyIsCount(log: seq<Event>, lo: int, hi: int, band: nat)
    ensures Tally(log, lo, hi, InBand(band)) == Count(Band, LatenciesIn(log, lo, hi), band)
  {
    if |log| > 0 {
      var rest, e := log[..|log| - 1], log[|log| - 1];
      var lats := LatenciesIn(rest, lo, hi);
      TallyIsCount(rest, lo, hi, band);
      CountSnoc(Band, lats, e.latencyUs, band);
    }
  }

  lemma MergedCountsLatencies(n: nat, log: seq<Event>, now: nat, b: nat)
    requires n > 0 && Nondecreasing(log) && UpTo(log, now) && b < 18
    ensures var lats := LatenciesIn(log, Newest(log, now) - n + 1, Newest(log, now));
            && Merged(RingAfter(n, log), now, n).total == |lats|
            && Merged(RingAfter(n, log), now, n).hist[b] == Count(Band, lats, b)
  {
    MergedIsWindow(n, log, now, Total);
    MergedIsWindow(n, log, now, InBand(b));
    TallyIsLength(log, Newest(log, now) - n + 1, Newest(log, now));
    TallyIsCount(log, Newest(log, now) - n + 1, Newest(log, now), b);
  }

  /** Whether a log has a call in a second. */
  ghost predicate Seen(log: seq<Event>, ts: nat) {
    exists e :: e in log && e.ts == ts
  }

  lemma NewestIsSeen(log: seq<Event>, now: nat)
    ensures Newest(log, now) == if Seen(log, now) then now else now - 1
  {
    if Tally(log, now, now, Total) != 0 {
      TallySome(log, now);
    } else if Seen(log, now) {
      var e :| e in log && e.ts == now;
      TallyNone(log, now, now, e);
    }
  }

  /** For every log, a percentile read from the ring is the least bound of the exact order statistic of the latencies of the
      last n seconds that it reads, and 0 exactly when there are none. */
  lemma WindowPercentile(n: nat, log: seq<Event>, now: nat, pct: nat, newest: int, sorted: seq<nat>) returns (place: nat)
    requires n > 0 && Nondecreasing(log) && UpTo(log, now) && 1 <= pct <= 100
    requires newest == if Seen(log, now) then now else now - 1
    requires Sorted(sorted) && multiset(sorted) == multiset(LatenciesIn(log, newest - n + 1, newest))
    ensures var p := PercentileOf(Merged(RingAfter(n, log), now, n), pct);
            if |sorted| == 0 then p == 0 else IsNearestRank(sorted, pct, place) && IsLeastBound(sorted[place], p)
  {
    NewestIsSeen(log, now);
    MergedIsHistogram(n, log, now);
    place := PercentileOfSample(Merged(RingAfter(n, log), now, n), LatenciesIn(log, newest - n + 1, newest), sorted, pct);
  }

  lemma MergedIsHistogram(n: nat, log: seq<Event>, now: nat)
    requires n > 0 && Nondecreasing(log) && UpTo(log, now)
    ensures var lats := LatenciesIn(log, Newest(log, now) - n + 1, Newest(log, now));
            var stats := Merged(RingAfter(n, log), now, n);
            stats.total == |lats| && IsHistogram(Band, stats.hist, lats)
  {
    MergedCountsLatencies(n, log, now, 0);
    forall b | 0 <= b < 18
      ensures Merged(RingAfter(n, log), now, n).hist[b]
           == Count(Band, LatenciesIn(log, Newest(log, now) - n + 1, Newest(log, now)), b)
    {
      MergedCountsLatencies(n, log, now, b);
    }
  }

  lemma PercentileOfSample(stats: WindowStats, lats: seq<nat>, sorted: seq<nat>, pct: nat) returns (place: nat)
    requires stats.total == |lats| && IsHistogram(Band, stats.hist, lats) && 1 <= pct <= 100
    requires Sorted(sorted) && multiset(sorted) == multiset(lats)
    ensures var p := PercentileOf(stats, pct);
            if |sorted| == 0 then p == 0 else IsNearestRank(sorted, pct, place) && IsLeastBound(sorted[place], p)
  {
    assert |multiset(sorted)| == |multiset(lats)|;
    place := 0;
    if |sorted| > 0 { place := PercentileIsNearestRank(stats, lats, sorted, pct); }
  }

  // ---------------------------------------------------------------- the window object

  class Window {
    const buckets: array<TimeBucket>

    constructor (size: nat)
      requires size > 0
      ensures fresh(buckets) && buckets.Length == size
      ensures buckets[..] == RingAfter(size, [])
    {
      buckets := new TimeBucket[size](_ => EmptyBucket(0));
    }

    /** Records one call in the bucket of its second, clearing that bucket first if it is another's. */
    method Record(ts: nat, outcome: Outcome, latencyUs: nat)
      requires buckets.Length > 0
      modifies buckets
      ensures buckets[..] == RingRecord(old(buckets[..]), Event(ts, outcome, latencyUs))
    {
      var i := ts % buckets.Length;
      var b := buckets[i];
      if b.ts != ts {
        b := EmptyBucket(ts);
      }
      b := b.(total := b.total + 1, latencySum := b.latencySum + latencyUs);
      var band := Band(latencyUs);
      b := b.(hist := b.hist[band := b.hist[band] + 1]);
      match outcome {
        case RedisError => b := b.(errors := b.errors + 1);
        case Timeout => b := b.(timeouts := b.timeouts + 1);
        case _ =>
      }
      buckets[i] := b;
    }

    /** Merges the buckets that are not stale. */
    method Aggregate(now: nat, windowSecs: nat) returns (stats: WindowStats)
      ensures stats == Merged(buckets[..], now, windowSecs)
    {
      var cutoff := SaturatingSub(now, windowSecs);
      var total: nat, errors: nat, timeouts: nat := 0, 0, 0;
      var hist: Hist := ZeroHist();
      for k := 0 to buckets.Length
        invariant WindowStats(total, errors, timeouts, hist) == Merged(buckets[..k], now, windowSecs)
      {
        var b := buckets[k];
        assert buckets[..k + 1][..k] == buckets[..k];
        if b.ts < cutoff || b.ts > now {
          continue;
        }
        total, errors, timeouts := total + b.total, errors + b.errors, timeouts + b.timeouts;
        ghost var before := hist;
        for band := 0 to HIST_BANDS
          invariant forall i :: 0 <= i < band ==> hist[i] == before[i] + b.hist[i]
          invariant forall i :: band <= i < 18 ==> hist[i] == before[i]
        {
          hist := hist[band := hist[band] + b.hist[band]];
        }
        assert hist == AddHist(before, b.hist);
      }
      assert buckets[..buckets.Length] == buckets[..];
      stats := WindowStats(total, errors, timeouts, hist);
    }
  }
}
