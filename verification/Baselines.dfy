/** Self-calibrating baselines: a ring of the last 256 observations, summarised by its median and its median absolute
    deviation.

    Floating point is modelled by exact reals beside the values that are not finite. The main result is the immunity
    that the estimator is chosen for: as long as more than half of the finite observations lie in a band, nothing that
    the other observations do can move the median out of the band, stretch the deviation past the width of the band,
    hide a value far above it, or flag a value below it. */
module Baselines {
  import C = Counting

  const RING_CAP: nat := 256

  datatype Sample = Finite(v: real) | NotFinite

  // ---------------------------------------------------------------- sorting and the middle

  ghost predicate Sorted(s: seq<real>) {
    forall i, j :: 0 <= i < j < |s| ==> s[i] <= s[j]
  }

  function Insert(s: seq<real>, x: real): seq<real> {
    if |s| == 0 || s[|s| - 1] <= x then s + [x]
    else Insert(s[..|s| - 1], x) + [s[|s| - 1]]
  }

  function Sort(s: seq<real>): seq<real> {
    if |s| == 0 then [] else Insert(Sort(s[..|s| - 1]), s[|s| - 1])
  }

  /** The middle value, or the mean of the two middle ones; 0 when there is none. */
  function MiddleOf(sorted: seq<real>): real {
    var mid := |sorted| / 2;
    if |sorted| == 0 then 0.0
    else if |sorted| % 2 == 1 then sorted[mid]
    else (sorted[mid - 1] + sorted[mid]) / 2.0
  }

  function Median(s: seq<real>): real {
    MiddleOf(Sort(s))
  }

  function Abs(x: real): real {
    if x < 0.0 then -x else x
  }

  /** How far each value lies from a centre. */
  function Deviations(s: seq<real>, centre: real): (d: seq<real>)
    ensures |d| == |s|
    ensures forall i :: 0 <= i < |s| ==> d[i] == if s[i] < centre then centre - s[i] else s[i] - centre
  {
    if |s| == 0 then [] else Deviations(s[..|s| - 1], centre) + [Abs(s[|s| - 1] - centre)]
  }

  /** How many values lie in [lo, hi]. */
  function CountIn(s: seq<real>, lo: real, hi: real): nat {
    if |s| == 0 then 0
    else CountIn(s[..|s| - 1], lo, hi) + if lo <= s[|s| - 1] <= hi then 1 else 0
  }

  ghost predicate Majority(s: seq<real>, lo: real, hi: real) {
    2 * CountIn(s, lo, hi) > |s|
  }

  lemma CountInSnoc(s: seq<real>, x: real, lo: real, hi: real)
    ensures CountIn(s + [x], lo, hi) == CountIn(s, lo, hi) + if lo <= x <= hi then 1 else 0
  {
    assert (s + [x])[..|s|] == s;
  }

  lemma {:induction false} InsertSorts(s: seq<real>, x: real)
    requires Sorted(s)
    ensures Sorted(Insert(s, x)) && |Insert(s, x)| == |s| + 1
    ensures forall y :: y in Insert(s, x) ==> y == x || y in s
    ensures multiset(Insert(s, x)) == multiset(s) + multiset{x}
  {
    if |s| > 0 && s[|s| - 1] > x {
      var rest, last := s[..|s| - 1], s[|s| - 1];
      InsertSorts(rest, x);
      assert s == rest + [last];
      var r := Insert(rest, x);
      forall i | 0 <= i < |r| ensures r[i] <= last { assert r[i] in r; }
    }
  }

  lemma {:induction false} InsertCounts(s: seq<real>, x: real, lo: real, hi: real)
    ensures CountIn(Insert(s, x), lo, hi) == CountIn(s, lo, hi) + if lo <= x <= hi then 1 else 0
  {
    if |s| == 0 || s[|s| - 1] <= x {
      CountInSnoc(s, x, lo, hi);
    } else {
      InsertCounts(s[..|s| - 1], x, lo, hi);
      CountInSnoc(Insert(s[..|s| - 1], x), s[|s| - 1], lo, hi);
    }
  }

  /** Sorting is sorting: ordered, and the same values. */
  lemma {:induction false} SortSorts(s: seq<real>)
    ensures Sorted(Sort(s)) && |Sort(s)| == |s| && multiset(Sort(s)) == multiset(s)
  {
    if |s| > 0 {
      SortSorts(s[..|s| - 1]);
      InsertSorts(Sort(s[..|s| - 1]), s[|s| - 1]);
      assert s == s[..|s| - 1] + [s[|s| - 1]];
    }
  }

  lemma {:induction false} SortCounts(s: seq<real>, lo: real, hi: real)
    ensures CountIn(Sort(s), lo, hi) == CountIn(s, lo, hi)
  {
    if |s| > 0 {
      SortCounts(s[..|s| - 1], lo, hi);
      InsertCounts(Sort(s[..|s| - 1]), s[|s| - 1], lo, hi);
    }
  }

  // ---------------------------------------------------------------- the breakdown point

  lemma {:induction false} CountAtMost(s: seq<real>, lo: real, hi: real, from: nat, to: nat)
    requires from <= to <= |s|
    requires forall i :: 0 <= i < |s| && !(from <= i < to) ==> !(lo <= s[i] <= hi)
    ensures CountIn(s, lo, hi) <= to - from
  {
    if |s| > 0 {
      if to == |s| > from {
        CountAtMost(s[..|s| - 1], lo, hi, from, to - 1);
      } else if to == |s| {
        CountAtMost(s[..|s| - 1], lo, hi, |s| - 1, |s| - 1);
      } else {
        CountAtMost(s[..|s| - 1], lo, hi, from, to);
      }
    }
  }

  /** In sorted order, a majority band holds both middle values. */
  lemma MiddleInBand(s: seq<real>, lo: real, hi: real, i: nat)
    requires Sorted(s) && Majority(s, lo, hi) && i < |s|
    requires |s| - 1 <= 2 * i <= |s|
    ensures lo <= s[i] <= hi
  {
    if s[i] > hi {
      CountAtMost(s, lo, hi, 0, i);
    } else if s[i] < lo {
      CountAtMost(s, lo, hi, i + 1, |s|);
    }
  }

  lemma MiddleBelowInBand(s: seq<real>, lo: real, hi: real, i: nat)
    requires Sorted(s) && Majority(s, lo, hi) && i < |s|
    requires |s| == 2 * i + 2
    ensures lo <= s[i] <= hi
  {
    if s[i] > hi {
      CountAtMost(s, lo, hi, 0, i);
    } else if s[i] < lo {
      CountAtMost(s, lo, hi, i + 1, |s|);
    }
  }

  lemma MiddleOfInBand(s: seq<real>, lo: real, hi: real)
    requires Sorted(s) && Majority(s, lo, hi)
    ensures lo <= MiddleOf(s) <= hi
  {
    CountAtMost(s, lo, hi, 0, |s|);
    MiddleInBand(s, lo, hi, |s| / 2);
    if |s| % 2 == 0 { MiddleBelowInBand(s, lo, hi, |s| / 2 - 1); }
  }

  /** The median of any values lies in every band that holds more than half of them. */
  lemma MedianInBand(s: seq<real>, lo: real, hi: real)
    requires Majority(s, lo, hi)
    ensures lo <= Median(s) <= hi
  {
    SortSorts(s);
    SortCounts(s, lo, hi);
    MiddleOfInBand(Sort(s), lo, hi);
  }

  lemma {:induction false} DeviationsInBand(s: seq<real>, centre: real, lo: real, hi: real)
    requires lo <= centre <= hi
    ensures CountIn(s, lo, hi) <= CountIn(Deviations(s, centre), 0.0, hi - lo)
  {
    if |s| > 0 {
      DeviationsInBand(s[..|s| - 1], centre, lo, hi);
      CountInSnoc(Deviations(s[..|s| - 1], centre), Abs(s[|s| - 1] - centre), 0.0, hi - lo);
    }
  }

  function Mad(s: seq<real>): real {
    Median(Deviations(s, Median(s)))
  }

  /** The median absolute deviation is at most the width of every band that holds more than half of the values. */
  lemma MadWithinBand(s: seq<real>, lo: real, hi: real)
    requires Majority(s, lo, hi)
    ensures 0.0 <= Mad(s) <= hi - lo
  {
    MedianInBand(s, lo, hi);
    DeviationsInBand(s, Median(s), lo, hi);
    MedianInBand(Deviations(s, Median(s)), 0.0, hi - lo);
  }

  // ---------------------------------------------------------------- the trigger

  function FiniteValues(s: seq<Sample>): seq<real> {
    if |s| == 0 then []
    else
      var vals := FiniteValues(s[..|s| - 1]);
      if s[|s| - 1].Finite? then vals + [s[|s| - 1].v] else vals
  }

  function Max(a: real, b: real): real {
    if a < b then b else a
  }

  function Bar(med: real, mad: real, k: real): real {
    if mad > 0.0 then med + Spread(k, mad) else med * 1.5
  }

  function Threshold(vals: seq<real>, k: real): real {
    Bar(Median(vals), Mad(vals), k)
  }

  predicate Exceeds(v: real, threshold: real, floor: real) {
    v > floor && v > Max(threshold, floor)
  }

  predicate Anomalous(ring: seq<Sample>, v: Sample, k: real, floor: real) {
    |ring| >= 2 && v.Finite? && Exceeds(v.v, Threshold(FiniteValues(ring), k), floor)
  }

  function Spread(k: real, mad: real): real {
    k * mad * 1.4826
  }

  /** The spread is monotone in the deviation. */
  lemma SpreadMonotone(k: real, a: real, b: real)
    requires k >= 0.0 && 0.0 <= a <= b
    ensures 0.0 <= Spread(k, a) <= Spread(k, b)
  {
    var x, y := k * a, k * b;
    assert x >= 0.0;
    assert y - x == k * (b - a) >= 0.0;
  }

  /** The highest threshold that a majority in [lo, hi] leaves room for. */
  function Ceiling(lo: real, hi: real, k: real): real {
    Max(hi + Spread(k, hi - lo), hi * 1.5)
  }

  /** A bar with the given spread, or half as high again as the median. */
  lemma Capped(med: real, spread: real, widest: real, lo: real, hi: real)
    requires lo <= med <= hi && 0.0 <= spread <= widest
    ensures med + spread <= Max(hi + widest, hi * 1.5) && med * 1.5 <= Max(hi + widest, hi * 1.5)
    ensures lo >= 0.0 ==> med + spread >= lo && med * 1.5 >= lo
  {
  }

  lemma BarCapped(med: real, mad: real, k: real, lo: real, hi: real)
    requires lo <= med <= hi && 0.0 <= mad <= hi - lo && k >= 0.0
    ensures Bar(med, mad, k) <= Ceiling(lo, hi, k)
    ensures lo >= 0.0 ==> Bar(med, mad, k) >= lo
  {
    SpreadMonotone(k, mad, hi - lo);
    Capped(med, Spread(k, mad), Spread(k, hi - lo), lo, hi);
  }

  lemma ThresholdInBand(vals: seq<real>, lo: real, hi: real, k: real)
    requires Majority(vals, lo, hi) && k >= 0.0
    ensures Threshold(vals, k) <= Ceiling(lo, hi, k)
    ensures lo >= 0.0 ==> Threshold(vals, k) >= lo
  {
    MedianInBand(vals, lo, hi);
    MadWithinBand(vals, lo, hi);
    BarCapped(Median(vals), Mad(vals), k, lo, hi);
  }

  // ---------------------------------------------------------------- the decision, exactly

  /** The finite values are those observed, as often as they were. */
  lemma {:induction false} FiniteValuesAre(s: seq<Sample>, x: real)
    ensures multiset(FiniteValues(s))[x] == multiset(s)[Finite(x)]
  {
    if |s| > 0 {
      FiniteValuesAre(s[..|s| - 1], x);
      assert s == s[..|s| - 1] + [s[|s| - 1]];
    }
  }

  /** The middle of a sorted sample: the middle value, or the mean of the two middle ones. */
  ghost predicate IsMiddle(s: seq<real>, m: real) {
    if |s| == 0 then m == 0.0
    else if |s| % 2 == 1 then m == s[|s| / 2]
    else m == (s[|s| / 2 - 1] + s[|s| / 2]) / 2.0
  }

  lemma MultisetInit(a: seq<real>)
    requires |a| > 0
    ensures multiset(a) == multiset(a[..|a| - 1]) + multiset{a[|a| - 1]}
  {
    assert a == a[..|a| - 1] + [a[|a| - 1]];
  }

  lemma Cancel(p: multiset<real>, q: multiset<real>, x: real)
    requires p + multiset{x} == q + multiset{x}
    ensures p == q
  {
    assert p == (p + multiset{x}) - multiset{x};
    assert q == (q + multiset{x}) - multiset{x};
  }

  lemma LastIsGreatest(a: seq<real>, b: seq<real>)
    requires Sorted(a) && |b| > 0 && multiset(a) == multiset(b)
    ensures |a| > 0 && b[|b| - 1] <= a[|a| - 1]
  {
    var x := b[|b| - 1];
    assert x in multiset(b);
    assert x in a;
  }

  lemma {:induction false} SortedIsUnique(a: seq<real>, b: seq<real>)
    requires Sorted(a) && Sorted(b) && multiset(a) == multiset(b)
    ensures a == b
  {
    if |a| == 0 {
      assert |multiset(b)| == 0;
    } else {
      LastIsGreatest(b, a);
      LastIsGreatest(a, b);
      MultisetInit(a);
      MultisetInit(b);
      Cancel(multiset(a[..|a| - 1]), multiset(b[..|b| - 1]), a[|a| - 1]);
      SortedIsUnique(a[..|a| - 1], b[..|b| - 1]);
      assert a == a[..|a| - 1] + [a[|a| - 1]];
    }
  }

  lemma MedianIsMiddle(vals: seq<real>, sorted: seq<real>, m: real)
    requires Sorted(sorted) && multiset(sorted) == multiset(vals) && IsMiddle(sorted, m)
    ensures Median(vals) == m
  {
    SortSorts(vals);
    SortedIsUnique(Sort(vals), sorted);
  }

  /** What is flagged, exactly. Let m be the middle of the finite observations in order, and d the middle of their distances
      from m in order. A value is flagged if and only if there are two observations, it is finite and above the floor, and
      it is above m + 1.4826kd, or above 1.5m when d is zero. */
  lemma FlaggedExactly(
      ring: seq<Sample>, v: Sample, k: real, floor: real, sorted: seq<real>, m: real, devs: seq<real>, d: real)
    requires Sorted(sorted) && multiset(sorted) == multiset(FiniteValues(ring)) && IsMiddle(sorted, m)
    requires Sorted(devs) && multiset(devs) == multiset(Deviations(FiniteValues(ring), m)) && IsMiddle(devs, d)
    ensures Anomalous(ring, v, k, floor) <==>
              && |ring| >= 2 && v.Finite? && v.v > floor
              && (if d > 0.0 then v.v > m + 1.4826 * k * d else v.v > 1.5 * m)
  {
    var vals := FiniteValues(ring);
    MedianIsMiddle(vals, sorted, m);
    MedianIsMiddle(Deviations(vals, m), devs, d);
    BarIs(m, d, k);
    if v.Finite? { ExceedsIs(v.v, Bar(m, d, k), floor); }
  }

  lemma BarIs(m: real, d: real, k: real)
    ensures Bar(m, d, k) == if d > 0.0 then m + 1.4826 * k * d else 1.5 * m
  {
    assert k * d * 1.4826 == 1.4826 * k * d;
  }

  lemma ExceedsIs(v: real, threshold: real, floor: real)
    ensures Exceeds(v, threshold, floor) <==> v > floor && v > threshold
  {
  }

  /** Outlier immunity. If more than half of the finite observations in the ring lie in [lo, hi], then whatever the
      others are: every finite value above the floor, above hi + 1.4826k(hi - lo) and above 1.5hi is flagged; and, for
      a band of non-negative values, nothing at or below lo ever is. */
  lemma OutlierImmunity(ring: seq<Sample>, lo: real, hi: real, k: real, floor: real, v: real)
    requires |ring| >= 2 && k >= 0.0 && Majority(FiniteValues(ring), lo, hi)
    ensures v > floor && v > hi + 1.4826 * k * (hi - lo) && v > 1.5 * hi ==> Anomalous(ring, Finite(v), k, floor)
    ensures lo >= 0.0 && v <= lo ==> !Anomalous(ring, Finite(v), k, floor)
  {
    var vals := FiniteValues(ring);
    ThresholdInBand(vals, lo, hi, k);
    CeilingIs(lo, hi, k);
    FlaggedAbove(ring, Threshold(vals, k), Ceiling(lo, hi, k), k, floor, v);
  }

  lemma CeilingIs(lo: real, hi: real, k: real)
    ensures Ceiling(lo, hi, k) == hi + 1.4826 * k * (hi - lo) || Ceiling(lo, hi, k) == 1.5 * hi
  {
    assert k * (hi - lo) * 1.4826 == 1.4826 * k * (hi - lo);
  }

  lemma ExceedsAbove(v: real, threshold: real, ceiling: real, floor: real)
    requires threshold <= ceiling
    ensures v > Max(floor, ceiling) ==> Exceeds(v, threshold, floor)
    ensures v <= threshold ==> !Exceeds(v, threshold, floor)
  {
  }

  lemma FlaggedAbove(ring: seq<Sample>, threshold: real, ceiling: real, k: real, floor: real, v: real)
    requires |ring| >= 2 && threshold == Threshold(FiniteValues(ring), k) && threshold <= ceiling
    ensures v > Max(floor, ceiling) ==> Anomalous(ring, Finite(v), k, floor)
    ensures v <= threshold ==> !Anomalous(ring, Finite(v), k, floor)
  {
    ExceedsAbove(v, threshold, ceiling, floor);
  }

  // ---------------------------------------------------------------- order does not matter

  /** 2 for a value in the band, 1 for another finite one, 0 for one that is not finite. */
  function BandKey(lo: real, hi: real): Sample -> nat {
    (x: Sample) => if x.NotFinite? then 0 else if lo <= x.v <= hi then 2 else 1
  }

  lemma {:induction false} FiniteCounts(s: seq<Sample>, lo: real, hi: real)
    ensures CountIn(FiniteValues(s), lo, hi) == C.Count(BandKey(lo, hi), s, 2)
    ensures |FiniteValues(s)| == C.Count(BandKey(lo, hi), s, 1) + C.Count(BandKey(lo, hi), s, 2)
  {
    if |s| > 0 {
      var x := s[|s| - 1];
      FiniteCounts(s[..|s| - 1], lo, hi);
      if x.Finite? { CountInSnoc(FiniteValues(s[..|s| - 1]), x.v, lo, hi); }
    }
  }

  lemma MajorityPermuted(s: seq<Sample>, t: seq<Sample>, lo: real, hi: real)
    requires multiset(s) == multiset(t) && Majority(FiniteValues(s), lo, hi)
    ensures Majority(FiniteValues(t), lo, hi)
  {
    FiniteCounts(s, lo, hi);
    FiniteCounts(t, lo, hi);
    C.CountPermuted(BandKey(lo, hi), s, t, 1);
    C.CountPermuted(BandKey(lo, hi), s, t, 2);
  }

  // ---------------------------------------------------------------- the ring

  /** The last min(n, 256) of the observations. */
  function Recent(history: seq<Sample>): seq<Sample> {
    if |history| <= RING_CAP then history else history[|history| - RING_CAP..]
  }

  lemma RotatedMultiset(s: seq<Sample>, t: seq<Sample>, r: nat)
    requires |s| == |t| && r <= |s|
    requires forall i :: 0 <= i < r ==> s[i] == t[|t| - r + i]
    requires forall i :: r <= i < |s| ==> s[i] == t[i - r]
    ensures multiset(s) == multiset(t)
  {
    var older, newer := t[..|t| - r], t[|t| - r..];
    assert s == newer + older;
    assert t == older + newer;
  }

  /** What the slots hold: the observations from the start, or, once the ring has wrapped, the newest ones below the
      write position and the older ones from it on. */
  ghost predicate RingHolds(ring: seq<Sample>, idx: nat, history: seq<Sample>) {
    && |ring| == RING_CAP && idx < RING_CAP
    && if |history| < RING_CAP then
         idx == |history| && ring[..idx] == history
       else
         && (forall i :: 0 <= i < idx ==> ring[i] == history[|history| - idx + i])
         && (forall i :: idx <= i < RING_CAP ==> ring[i] == history[|history| - RING_CAP - idx + i])
  }

  function NextIdx(idx: nat): nat {
    (idx + 1) % RING_CAP
  }

  lemma RingAdvances(ring: seq<Sample>, idx: nat, history: seq<Sample>, v: Sample)
    requires RingHolds(ring, idx, history)
    ensures RingHolds(ring[idx := v], NextIdx(idx), history + [v])
  {
    if |history| < RING_CAP - 1 {
      assert ring[idx := v][..idx + 1] == ring[..idx] + [v];
    }
  }

  /** The ring holds exactly the last min(n, 256) observations. */
  lemma RingIsRecent(ring: seq<Sample>, idx: nat, history: seq<Sample>)
    requires RingHolds(ring, idx, history)
    ensures |history| < RING_CAP ==> ring[..|history|] == history
    ensures |history| >= RING_CAP ==> multiset(ring) == multiset(history[|history| - RING_CAP..])
  {
    if |history| >= RING_CAP {
      RotatedMultiset(ring, history[|history| - RING_CAP..], idx);
    }
  }

  class MadBaseline {
    const buf: array<Sample>
    var idx: nat
    var filled: nat
    ghost var history: seq<Sample>

    ghost predicate Valid()
      reads this, buf
    {
      && RingHolds(buf[..], idx, history)
      && filled == if |history| < RING_CAP then |history| else RING_CAP
    }

    constructor ()
      ensures Valid() && fresh(buf) && history == []
    {
      buf := new Sample[RING_CAP](_ => Finite(0.0));
      idx, filled, history := 0, 0, [];
    }

    method Observe(v: Sample)
      requires Valid()
      modifies this, buf
      ensures Valid() && history == old(history) + [v]
    {
      RingAdvances(buf[..], idx, history, v);
      buf[idx] := v;
      idx := NextIdx(idx);
      filled := if filled + 1 < RING_CAP then filled + 1 else RING_CAP;
      history := history + [v];
    }

    /** The filled part of the buffer, whose order is that of the slots. */
    ghost function Contents(): seq<Sample>
      requires Valid()
      reads this, buf
    {
      buf[..filled]
    }

    /** What is summarised is the last min(n, 256) observations, in some order. */
    lemma ContentsAreRecent()
      requires Valid()
      ensures multiset(Contents()) == multiset(if |history| <= 256 then history else history[|history| - 256..])
    {
      RingIsRecent(buf[..], idx, history);
      assert filled == RING_CAP ==> Contents() == buf[..];
      assert |history| == RING_CAP ==> history[0..] == history;
    }

    /** Outlier immunity of the object: it speaks of the recent observations, however the ring happens to store them. */
    lemma ImmuneToOutliers(lo: real, hi: real, k: real, floor: real, v: real)
      requires Valid() && |history| >= 2 && k >= 0.0 && Majority(FiniteValues(Recent(history)), lo, hi)
      ensures v > floor && v > hi + 1.4826 * k * (hi - lo) && v > 1.5 * hi ==> Anomalous(Contents(), Finite(v), k, floor)
      ensures lo >= 0.0 && v <= lo ==> !Anomalous(Contents(), Finite(v), k, floor)
    {
      ContentsAreRecent();
      MajorityPermuted(Recent(history), Contents(), lo, hi);
      OutlierImmunity(Contents(), lo, hi, k, floor, v);
    }

    method MedianNow() returns (m: real)
      requires Valid()
      ensures m == Median(FiniteValues(Contents()))
    {
      var vals := Retained();
      var sorted := Sort(vals);
      SortSorts(vals);
      if |sorted| == 0 {
        return 0.0;
      }
      var mid := |sorted| / 2;
      if |sorted| % 2 == 1 {
        m := sorted[mid];
      } else {
        m := (sorted[mid - 1] + sorted[mid]) / 2.0;
      }
    }

    /** The finite values of the buffer, in slot order. */
    method Retained() returns (vals: seq<real>)
      requires Valid()
      ensures vals == FiniteValues(Contents())
    {
      vals := [];
      for i := 0 to filled
        invariant vals == FiniteValues(buf[..i])
      {
        assert buf[..i + 1][..i] == buf[..i];
        if buf[i].Finite? {
          vals := vals + [buf[i].v];
        }
      }
    }

    method MadNow() returns (m: real)
      requires Valid()
      ensures m == Mad(FiniteValues(Contents()))
    {
      var med := MedianNow();
      var vals := Retained();
      var devs := [];
      for i := 0 to |vals|
        invariant devs == Deviations(vals[..i], med)
      {
        assert vals[..i + 1][..i] == vals[..i];
        devs := devs + [Abs(vals[i] - med)];
      }
      assert vals[..|vals|] == vals;
      m := MiddleOf(Sort(devs));
    }

    method IsAnomalous(v: Sample, k: real, floor: real) returns (flagged: bool)
      requires Valid()
      ensures flagged == Anomalous(Contents(), v, k, floor)
    {
      if filled < 2 || !v.Finite? || v.v <= floor {
        return false;
      }
      var med := MedianNow();
      var mad := MadNow();
      var threshold := Bar(med, mad, k);
      flagged := v.v > Max(threshold, floor);
    }
  }
}
