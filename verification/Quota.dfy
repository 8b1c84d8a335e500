/** The day key of the quota counters: `yyyymmdd` of a UTC day number by integer arithmetic alone.

    The Gregorian calendar is defined here on its own, by leap years, month lengths and the successor of a date, and
    the arithmetic is proved to be exactly the walk through that calendar from 1970-01-01. */
module Quota {

  datatype Date = Date(y: int, m: int, d: int)

  // ---------------------------------------------------------------- the calendar

  predicate IsLeap(y: int) {
    y % 4 == 0 && (y % 100 != 0 || y % 400 == 0)
  }

  function MonthLength(y: int, m: int): int {
    if m == 2 then (if IsLeap(y) then 29 else 28)
    else if m == 4 || m == 6 || m == 9 || m == 11 then 30
    else 31
  }

  predicate ValidDate(t: Date) {
    1 <= t.m <= 12 && 1 <= t.d <= MonthLength(t.y, t.m)
  }

  function NextDate(t: Date): Date {
    if t.d < MonthLength(t.y, t.m) then t.(d := t.d + 1)
    else if t.m < 12 then Date(t.y, t.m + 1, 1)
    else Date(t.y + 1, 1, 1)
  }

  predicate Before(a: Date, b: Date) {
    a.y < b.y || (a.y == b.y && (a.m < b.m || (a.m == b.m && a.d < b.d)))
  }

  // ---------------------------------------------------------------- the arithmetic

  /** Civil date of a day number, day 0 being 1970-01-01. */
  function CivilFromDays(days: int): Date {
    var z := days + 719_468;
    var era := z / 146_097;
    var doe := z % 146_097;
    var yoe := (doe - doe / 1460 + doe / 36_524 - doe / 146_096) / 365;
    var y := yoe + era * 400;
    var doy := doe - (365 * yoe + yoe / 4 - yoe / 100);
    var mp := (5 * doy + 2) / 153;
    var d := doy - (153 * mp + 2) / 5 + 1;
    var m := if mp < 10 then mp + 3 else mp - 9;
    Date(if m <= 2 then y + 1 else y, m, d)
  }

  /** The inverse: the day number of a date. */
  function DaysFromCivil(t: Date): int {
    var y := if t.m <= 2 then t.y - 1 else t.y;
    var era := y / 400;
    var yoe := y % 400;
    var mp := if t.m > 2 then t.m - 3 else t.m + 9;
    var doy := (153 * mp + 2) / 5 + t.d - 1;
    var doe := yoe * 365 + yoe / 4 - yoe / 100 + doy;
    era * 146_097 + doe - 719_468
  }

  // ---------------------------------------------------------------- years of an era

  /** Days of a 400-year era before its year yoe, years beginning on 1 March. */
  function YearStart(yoe: int): int {
    365 * yoe + yoe / 4 - yoe / 100
  }

  function YearOfEra(doe: int): int {
    (doe - doe / 1460 + doe / 36_524 - doe / 146_096) / 365
  }

  /** A year of the era is century c, cycle q of four years, and year j of the cycle; it has a day 365 only when its
      February is that of a leap year. */
  predicate DayOfYear(c: int, q: int, j: int, k: int) {
    && 0 <= c < 4 && 0 <= q < 25 && 0 <= j < 4 && 0 <= k <= 365
    && (k == 365 ==> j == 3 && (q < 24 || c == 3))
  }

  lemma YearStartOf(c: int, q: int, j: int)
    requires 0 <= c < 4 && 0 <= q < 25 && 0 <= j < 4
    ensures YearStart(100 * c + 4 * q + j) == 36_524 * c + 1461 * q + 365 * j
  {
  }

  /** Day k of a year is recognised as a day of that year. */
  lemma YearOfEraOf(c: int, q: int, j: int, k: int)
    requires DayOfYear(c, q, j, k)
    ensures var doe := 36_524 * c + 1461 * q + 365 * j + k;
            && 0 <= doe < 146_097
            && YearOfEra(doe) == 100 * c + 4 * q + j
  {
    var doe := 36_524 * c + 1461 * q + 365 * j + k;
    var t := 24 * c + q + 365 * j + k;
    var e := if t >= 1460 then 1 else 0;
    assert doe == 1460 * (25 * c + q + e) + (t - 1460 * e);
    assert doe / 1460 == 25 * c + q + e;
    assert doe / 36_524 - doe / 146_096 == c;
  }

  /** Every day of an era is a day of one of its years. */
  lemma SplitDay(doe: int) returns (c: int, q: int, j: int, k: int)
    requires 0 <= doe < 146_097
    ensures DayOfYear(c, q, j, k) && doe == 36_524 * c + 1461 * q + 365 * j + k
  {
    c := if doe == 146_096 then 3 else doe / 36_524;
    var r := doe - 36_524 * c;
    q := r / 1461;
    var s := r - 1461 * q;
    j := if s == 1460 then 3 else s / 365;
    k := s - 365 * j;
  }

  lemma LeapOfParts(c: int, q: int)
    requires 0 <= c < 4 && 0 <= q < 25 && (q < 24 || c == 3)
    ensures IsLeap(100 * c + 4 * q + 4)
  {
  }

  lemma EraRoundTrip(doe: int)
    requires 0 <= doe < 146_097
    ensures 0 <= YearOfEra(doe) < 400
    ensures 0 <= doe - YearStart(YearOfEra(doe)) <= 365
    ensures doe - YearStart(YearOfEra(doe)) == 365 ==> IsLeap(YearOfEra(doe) + 1)
  {
    var c, q, j, k := SplitDay(doe);
    YearOfEraOf(c, q, j, k);
    YearStartOf(c, q, j);
    if k == 365 { LeapOfParts(c, q); }
  }

  lemma YearRoundTrip(yoe: int, k: int)
    requires 0 <= yoe < 400 && 0 <= k <= 365 && (k == 365 ==> IsLeap(yoe + 1))
    ensures 0 <= YearStart(yoe) + k < 146_097
    ensures YearOfEra(YearStart(yoe) + k) == yoe
  {
    var c, q, j := yoe / 100, yoe % 100 / 4, yoe % 4;
    assert yoe == 100 * c + 4 * q + j;
    YearStartOf(c, q, j);
    YearOfEraOf(c, q, j, k);
  }

  // ---------------------------------------------------------------- months of a year

  /** Days of a March-based year before its month mp. */
  function MonthStart(mp: int): int {
    (153 * mp + 2) / 5
  }

  function MonthIndex(m: int): int {
    if m > 2 then m - 3 else m + 9
  }

  lemma MonthHoldsDay(doy: int)
    requires 0 <= doy <= 365
    ensures var mp := (5 * doy + 2) / 153;
            0 <= mp <= 11 && MonthStart(mp) <= doy && (mp < 11 ==> doy < MonthStart(mp + 1))
  {
  }

  lemma MonthIsFound(mp: int, doy: int)
    requires 0 <= mp <= 11 && MonthStart(mp) <= doy <= 365 && (mp < 11 ==> doy < MonthStart(mp + 1))
    ensures (5 * doy + 2) / 153 == mp
  {
  }

  lemma MonthLengths(y: int, m: int)
    requires 1 <= m <= 12
    ensures m != 2 ==> MonthStart(MonthIndex(m) + 1) - MonthStart(MonthIndex(m)) == MonthLength(y, m)
    ensures m == 2 ==> MonthStart(MonthIndex(m)) == 337
  {
  }

  // ---------------------------------------------------------------- round trips

  lemma ModPlus4(a: int, x: int)
    ensures (4 * a + x) % 4 == x % 4
  {
    assert 4 * a + x == 4 * (a + x / 4) + x % 4;
  }

  lemma ModPlus100(a: int, x: int)
    ensures (100 * a + x) % 100 == x % 100
  {
    assert 100 * a + x == 100 * (a + x / 100) + x % 100;
  }

  lemma ModPlus400(a: int, x: int)
    ensures (400 * a + x) % 400 == x % 400
  {
    assert 400 * a + x == 400 * (a + x / 400) + x % 400;
  }

  lemma LeapInEra(era: int, yoe: int)
    ensures IsLeap(400 * era + yoe) == IsLeap(yoe)
  {
    ModPlus4(100 * era, yoe);
    ModPlus100(4 * era, yoe);
    ModPlus400(era, yoe);
  }

  /** The date of day d of month mp in year yoe of an era. */
  function Compose(era: int, yoe: int, mp: int, d: int): Date {
    var m := if mp < 10 then mp + 3 else mp - 9;
    var y := yoe + era * 400;
    Date(if m <= 2 then y + 1 else y, m, d)
  }

  lemma DaysOfCompose(era: int, yoe: int, mp: int, d: int)
    requires 0 <= yoe < 400 && 0 <= mp <= 11
    ensures DaysFromCivil(Compose(era, yoe, mp, d))
         == era * 146_097 + YearStart(yoe) + MonthStart(mp) + d - 1 - 719_468
  {
    assert (yoe + era * 400) / 400 == era;
  }

  lemma ComposeIsValid(era: int, yoe: int, mp: int, d: int)
    requires 0 <= mp <= 11 && 1 <= d
    requires mp < 11 ==> MonthStart(mp) + d - 1 < MonthStart(mp + 1)
    requires mp == 11 ==> d <= if IsLeap(yoe + 1) then 29 else 28
    ensures ValidDate(Compose(era, yoe, mp, d))
  {
    var t := Compose(era, yoe, mp, d);
    MonthLengths(t.y, t.m);
    LeapInEra(era, yoe + 1);
  }

  function CivilOfDoe(era: int, doe: int): Date {
    var yoe := YearOfEra(doe);
    CivilOfDoy(era, yoe, doe - YearStart(yoe))
  }

  lemma CivilByEra(days: int, era: int, doe: int)
    requires (days + 719_468) / 146_097 == era && (days + 719_468) % 146_097 == doe
    ensures CivilFromDays(days) == CivilOfDoe(era, doe)
  {
  }

  lemma EraOf(era: int, doe: int, z: int)
    requires 0 <= doe < 146_097 && z == era * 146_097 + doe
    ensures z / 146_097 == era && z % 146_097 == doe
  {
  }

  /** Day doy of year yoe of an era, as a date. */
  function CivilOfDoy(era: int, yoe: int, doy: int): Date {
    var mp := (5 * doy + 2) / 153;
    Compose(era, yoe, mp, doy - MonthStart(mp) + 1)
  }

  lemma DoyRoundTrip(era: int, yoe: int, doy: int)
    requires 0 <= yoe < 400 && 0 <= doy <= 365 && (doy == 365 ==> IsLeap(yoe + 1))
    ensures ValidDate(CivilOfDoy(era, yoe, doy))
    ensures DaysFromCivil(CivilOfDoy(era, yoe, doy)) == era * 146_097 + YearStart(yoe) + doy - 719_468
  {
    MonthHoldsDay(doy);
    var mp := (5 * doy + 2) / 153;
    DaysOfCompose(era, yoe, mp, doy - MonthStart(mp) + 1);
    ComposeIsValid(era, yoe, mp, doy - MonthStart(mp) + 1);
  }

  lemma SplitDate(days: int) returns (era: int, yoe: int, doy: int)
    ensures 0 <= yoe < 400 && 0 <= doy <= 365 && (doy == 365 ==> IsLeap(yoe + 1))
    ensures days == era * 146_097 + YearStart(yoe) + doy - 719_468
    ensures CivilFromDays(days) == CivilOfDoy(era, yoe, doy)
  {
    var z := days + 719_468;
    era := z / 146_097;
    var doe := z % 146_097;
    yoe := YearOfEra(doe);
    doy := doe - YearStart(yoe);
    EraRoundTrip(doe);
    CivilByEra(days, era, doe);
  }

  /** The arithmetic yields a date of the calendar, and its inverse gives the day back. */
  lemma DayRoundTrip(days: int)
    ensures ValidDate(CivilFromDays(days))
    ensures DaysFromCivil(CivilFromDays(days)) == days
  {
    var era, yoe, doy := SplitDate(days);
    DoyRoundTrip(era, yoe, doy);
  }

  predicate DayInMonth(yoe: int, mp: int, doy: int) {
    && 0 <= yoe < 400 && 0 <= mp <= 11
    && MonthStart(mp) <= doy <= 365 && (mp < 11 ==> doy < MonthStart(mp + 1))
    && (doy == 365 ==> IsLeap(yoe + 1))
  }

  /** A day of an era splits back into the year and the month it was made of. */
  lemma CivilOfParts(era: int, yoe: int, mp: int, doy: int)
    requires DayInMonth(yoe, mp, doy)
    ensures 0 <= YearStart(yoe) + doy < 146_097
    ensures CivilOfDoe(era, YearStart(yoe) + doy) == Compose(era, yoe, mp, doy - MonthStart(mp) + 1)
  {
    YearRoundTrip(yoe, doy);
    MonthIsFound(mp, doy);
  }

  /** Every date of the calendar is the date of its day number. */
  lemma DateRoundTrip(t: Date)
    requires ValidDate(t)
    ensures CivilFromDays(DaysFromCivil(t)) == t
  {
    var y := if t.m <= 2 then t.y - 1 else t.y;
    var era, yoe, mp := y / 400, y % 400, MonthIndex(t.m);
    var doy := MonthStart(mp) + t.d - 1;
    DayOfDate(t, era, yoe);
    CivilOfParts(era, yoe, mp, doy);
    EraOf(era, YearStart(yoe) + doy, DaysFromCivil(t) + 719_468);
    CivilByEra(DaysFromCivil(t), era, YearStart(yoe) + doy);
  }

  lemma DayOfDate(t: Date, era: int, yoe: int)
    requires ValidDate(t) && 0 <= yoe < 400
    requires 400 * era + yoe == if t.m <= 2 then t.y - 1 else t.y
    ensures DayInMonth(yoe, MonthIndex(t.m), MonthStart(MonthIndex(t.m)) + t.d - 1)
    ensures t == Compose(era, yoe, MonthIndex(t.m), t.d)
    ensures DaysFromCivil(t) + 719_468
         == era * 146_097 + (YearStart(yoe) + MonthStart(MonthIndex(t.m)) + t.d - 1)
  {
    MonthLengths(t.y, t.m);
    LeapInEra(era, yoe + 1);
    DaysOfCompose(era, yoe, MonthIndex(t.m), t.d);
  }

  // ---------------------------------------------------------------- the walk through the calendar

  /** The day number of 1 March. */
  function MarchFirst(y: int): int {
    y / 400 * 146_097 + YearStart(y % 400) - 719_468
  }

  lemma YearOfEraLength(yoe: int)
    requires 0 <= yoe < 400
    ensures (if yoe < 399 then YearStart(yoe + 1) else 146_097) - YearStart(yoe)
         == if IsLeap(yoe + 1) then 366 else 365
  {
  }

  lemma YearLength(y: int)
    ensures MarchFirst(y + 1) - MarchFirst(y) == if IsLeap(y + 1) then 366 else 365
  {
    var era, yoe := y / 400, y % 400;
    YearOfEraLength(yoe);
    LeapInEra(era, yoe + 1);
    assert yoe < 399 ==> (y + 1) / 400 == era && (y + 1) % 400 == yoe + 1;
    assert yoe == 399 ==> (y + 1) / 400 == era + 1 && (y + 1) % 400 == 0;
  }

  lemma DaysInYear(t: Date)
    requires 1 <= t.m <= 12
    ensures DaysFromCivil(t)
         == MarchFirst(if t.m <= 2 then t.y - 1 else t.y) + MonthStart(MonthIndex(t.m)) + t.d - 1
  {
  }

  lemma NextMonthBegins(t: Date)
    requires ValidDate(t) && t.d == MonthLength(t.y, t.m) && t.m != 2
    ensures ValidDate(NextDate(t)) && DaysFromCivil(NextDate(t)) == DaysFromCivil(t) + 1
  {
    DaysInYear(t);
    DaysInYear(NextDate(t));
    MonthLengths(t.y, t.m);
  }

  lemma MarchBegins(t: Date)
    requires t.m == 2 && t.d == MonthLength(t.y, 2)
    ensures ValidDate(NextDate(t)) && DaysFromCivil(NextDate(t)) == DaysFromCivil(t) + 1
  {
    var y := t.y;
    YearLength(y - 1);
    MonthLengths(y, 2);
    DaysInYear(t);
    DaysInYear(Date(y, 3, 1));
  }

  lemma SuccessorAddsOne(t: Date)
    requires ValidDate(t)
    ensures ValidDate(NextDate(t)) && DaysFromCivil(NextDate(t)) == DaysFromCivil(t) + 1
  {
    if t.d == MonthLength(t.y, t.m) {
      if t.m == 2 { MarchBegins(t); } else { NextMonthBegins(t); }
    }
  }

  /** Two maps between day numbers and dates that undo each other, the second counting one per successor. */
  ghost predicate IsCalendar(civil: int -> Date, day: Date -> int) {
    && (forall n :: ValidDate(civil(n)) && day(civil(n)) == n)
    && (forall t {:trigger civil(day(t))} :: ValidDate(t) ==> civil(day(t)) == t)
    && (forall t {:trigger NextDate(t)} :: ValidDate(t) ==> ValidDate(NextDate(t)) && day(NextDate(t)) == day(t) + 1)
  }

  lemma IsCalendarHere()
    ensures IsCalendar(CivilFromDays, DaysFromCivil)
  {
    forall n ensures ValidDate(CivilFromDays(n)) && DaysFromCivil(CivilFromDays(n)) == n { DayRoundTrip(n); }
    forall t | ValidDate(t) ensures CivilFromDays(DaysFromCivil(t)) == t { DateRoundTrip(t); }
    forall t | ValidDate(t)
      ensures ValidDate(NextDate(t)) && DaysFromCivil(NextDate(t)) == DaysFromCivil(t) + 1
    {
      SuccessorAddsOne(t);
    }
  }

  lemma CalendarWalks(civil: int -> Date, day: Date -> int, n: int)
    requires IsCalendar(civil, day)
    ensures civil(n + 1) == NextDate(civil(n))
  {
    assert civil(day(NextDate(civil(n)))) == NextDate(civil(n));
  }

  lemma BeforeNext(s: Date, t: Date)
    requires ValidDate(t) && (s == t || Before(s, t))
    ensures Before(s, NextDate(t))
  {
  }

  lemma {:induction false} CalendarAdvances(civil: int -> Date, day: Date -> int, a: int, n: nat)
    requires IsCalendar(civil, day) && n > 0
    ensures Before(civil(a), civil(a + n))
  {
    if n > 1 { CalendarAdvances(civil, day, a, n - 1); }
    CalendarWalks(civil, day, a + n - 1);
    BeforeNext(civil(a), civil(a + n - 1));
  }

  lemma CalendarOrders(civil: int -> Date, day: Date -> int, a: int, b: int)
    requires IsCalendar(civil, day)
    ensures Before(civil(a), civil(b)) <==> a < b
    ensures civil(a) == civil(b) <==> a == b
  {
    if a < b { CalendarAdvances(civil, day, a, b - a); }
    if b < a { CalendarAdvances(civil, day, b, a - b); }
  }

  /** Each day is the calendar successor of the one before. */
  lemma DaysFollowTheCalendar(days: int)
    ensures CivilFromDays(days + 1) == NextDate(CivilFromDays(days))
  {
    IsCalendarHere();
    CalendarWalks(CivilFromDays, DaysFromCivil, days);
  }

  lemma EpochIs1970()
    ensures CivilFromDays(0) == Date(1970, 1, 1)
  {
    CivilByEra(0, 4, 135_080);
    assert YearOfEra(135_080) == 369 && YearStart(369) == 134_774;
  }

  /** The map from days to dates is strictly increasing, hence injective. */
  lemma DatesAreOrdered(a: int, b: int)
    ensures Before(CivilFromDays(a), CivilFromDays(b)) <==> a < b
    ensures CivilFromDays(a) == CivilFromDays(b) <==> a == b
  {
    IsCalendarHere();
    CalendarOrders(CivilFromDays, DaysFromCivil, a, b);
  }

  // ---------------------------------------------------------------- the key

  function DigitChar(d: nat): char
    requires d < 10
  {
    '0' + d as char
  }

  /** The w lowest decimal digits of n. */
  function Digits(n: nat, w: nat): (s: string)
    ensures |s| == w
  {
    if w == 0 then "" else Digits(n / 10, w - 1) + [DigitChar(n % 10)]
  }

  function Width(n: nat): (w: nat)
    ensures w >= 1
  {
    if n < 10 then 1 else 1 + Width(n / 10)
  }

  /** n in decimal, zero-padded to at least w digits. */
  function Padded(n: nat, w: nat): string {
    Digits(n, if Width(n) < w then w else Width(n))
  }

  /** `yyyymmdd` of a second of Unix time. */
  function DayKey(secs: nat): string {
    var t := CivilFromDays(secs / 86_400);
    DayRoundTrip(secs / 86_400);
    YearIsNatural(secs / 86_400);
    Padded(t.y, 4) + Padded(t.m, 2) + Padded(t.d, 2)
  }

  lemma YearIsNatural(days: nat)
    ensures CivilFromDays(days).y >= 1970
  {
    EpochIs1970();
    DatesAreOrdered(days, 0);
    DayRoundTrip(days);
  }

  /** The number that a string of digits denotes. */
  function NumberOf(s: string): nat {
    if |s| == 0 then 0
    else
      var c := s[|s| - 1];
      10 * NumberOf(s[..|s| - 1]) + if '0' <= c <= '9' then (c - '0') as nat else 0
  }

  predicate Fits(n: nat, w: nat) {
    if w == 0 then n == 0 else Fits(n / 10, w - 1)
  }

  lemma {:induction false} WidthFits(n: nat, w: nat)
    requires w >= Width(n)
    ensures Fits(n, w)
  {
    if n >= 10 {
      WidthFits(n / 10, w - 1);
    } else {
      ZeroFits(w - 1);
    }
  }

  lemma {:induction false} ZeroFits(w: nat)
    ensures Fits(0, w)
  {
    if w > 0 { ZeroFits(w - 1); }
  }

  lemma NumberSnoc(s: string, d: nat)
    requires d < 10
    ensures NumberOf(s + [DigitChar(d)]) == 10 * NumberOf(s) + d
  {
    assert (s + [DigitChar(d)])[..|s|] == s;
  }

  lemma {:induction false} NumberOfDigits(n: nat, w: nat)
    requires Fits(n, w)
    ensures NumberOf(Digits(n, w)) == n
  {
    if w > 0 {
      NumberOfDigits(n / 10, w - 1);
      NumberSnoc(Digits(n / 10, w - 1), n % 10);
    }
  }

  lemma TwoDigits(s: string, n: nat)
    requires n < 100
    ensures NumberOf(s + Padded(n, 2)) == 100 * NumberOf(s) + n
    ensures |Padded(n, 2)| == 2
  {
    var high, low := DigitChar(n / 10), DigitChar(n % 10);
    assert Padded(n, 2) == [high, low] by {
      assert n >= 10 ==> Width(n / 10) == 1;
      assert Digits(n / 10, 1) == Digits(n / 10 / 10, 0) + [DigitChar(n / 10 % 10)] == [high];
      assert Digits(n, 2) == Digits(n / 10, 1) + [low];
    }
    NumberSnoc(s, n / 10);
    NumberSnoc(s + [high], n % 10);
    assert s + [high, low] == s + [high] + [low];
  }

  /** The key, read as a number, is yyyymmdd of the day; it has eight digits up to the year 9999. */
  lemma DayKeyNumber(secs: nat)
    ensures var t := CivilFromDays(secs / 86_400);
            && NumberOf(DayKey(secs)) == DateNumber(t)
            && (t.y <= 9999 ==> |DayKey(secs)| == 8)
  {
    var t := CivilFromDays(secs / 86_400);
    DayRoundTrip(secs / 86_400);
    YearIsNatural(secs / 86_400);
    KeyOfDate(t.y, t.m, t.d);
  }

  lemma KeyOfDate(y: nat, m: nat, d: nat)
    requires 1000 <= y && m < 100 && d < 100
    ensures NumberOf(Padded(y, 4) + Padded(m, 2) + Padded(d, 2)) == 10_000 * y + 100 * m + d
    ensures y <= 9999 ==> |Padded(y, 4) + Padded(m, 2) + Padded(d, 2)| == 8
  {
    WidthFits(y, |Padded(y, 4)|);
    NumberOfDigits(y, |Padded(y, 4)|);
    TwoDigits(Padded(y, 4), m);
    TwoDigits(Padded(y, 4) + Padded(m, 2), d);
    if y <= 9999 {
      assert Width(y) == 1 + Width(y / 10) == 2 + Width(y / 10 / 10) == 3 + Width(y / 10 / 10 / 10);
    }
  }

  function DateNumber(t: Date): int {
    10_000 * t.y + 100 * t.m + t.d
  }

  lemma DateNumbersAreOrdered(s: Date, t: Date)
    requires ValidDate(s) && ValidDate(t)
    ensures DateNumber(s) < DateNumber(t) <==> Before(s, t)
    ensures DateNumber(s) == DateNumber(t) <==> s == t
  {
  }

  lemma DayNumbersAreOrdered(a: int, b: int)
    ensures DateNumber(CivilFromDays(a)) < DateNumber(CivilFromDays(b)) <==> a < b
    ensures DateNumber(CivilFromDays(a)) == DateNumber(CivilFromDays(b)) <==> a == b
  {
    DayRoundTrip(a);
    DayRoundTrip(b);
    DatesAreOrdered(a, b);
    DateNumbersAreOrdered(CivilFromDays(a), CivilFromDays(b));
  }

  /** Two moments share a key exactly when they are in the same UTC day, and keys grow with the days. */
  lemma DayKeysAreRight(a: nat, b: nat)
    ensures DayKey(a) == DayKey(b) <==> a / 86_400 == b / 86_400
    ensures NumberOf(DayKey(a)) < NumberOf(DayKey(b)) <==> a / 86_400 < b / 86_400
  {
    DayKeyNumber(a);
    DayKeyNumber(b);
    DayNumbersAreOrdered(a / 86_400, b / 86_400);
  }
}
