/**
 * Proleptic Gregorian calendar arithmetic on integers: the part of
 * datetime.fromtimestamp(e, tz=timezone.utc) the Enricher relies on.
 * Timestamps count seconds since 1970-01-01T00:00:00Z without leap
 * seconds (POSIX.1-2017, Base Definitions, section 4.16); dates are
 * numbered as date.toordinal() numbers them, 0001-01-01 being day 1.
 */
module Civil {
  import opened Wrappers
  import opened Text

  predicate IsLeapYear(y: int) {
    y % 4 == 0 && (y % 100 != 0 || y % 400 == 0)
  }

  function DaysInYear(y: int): nat {
    if IsLeapYear(y) then 366 else 365
  }

  function DaysInMonth(y: int, m: int): (n: nat)
    requires 1 <= m <= 12
    ensures 28 <= n <= 31
  {
    if m == 2 then (if IsLeapYear(y) then 29 else 28)
    else if m == 4 || m == 6 || m == 9 || m == 11 then 30
    else 31
  }

  /** Days of year y before the first of month m (m == 13: the whole year). */
  function DaysBeforeMonth(y: int, m: int): nat
    requires 1 <= m <= 13
  {
    if m == 1 then 0 else DaysBeforeMonth(y, m - 1) + DaysInMonth(y, m - 1)
  }

  /** Days from 0001-01-01 to the first of January of year y, counted year by year. */
  function DaysBeforeYear(y: int): nat
    requires y >= 1
  {
    if y == 1 then 0 else DaysBeforeYear(y - 1) + DaysInYear(y - 1)
  }

  /** The closed form datetime's _days_before_year uses for the same count. */
  function YearStartFormula(y: int): int {
    var k := y - 1;
    365 * k + k / 4 - k / 100 + k / 400
  }

  datatype Date = Date(year: int, month: int, day: int)

  predicate ValidDate(d: Date) {
    1 <= d.year && 1 <= d.month <= 12 && 1 <= d.day <= DaysInMonth(d.year, d.month)
  }

  /** date.toordinal(). */
  function Ordinal(d: Date): int
    requires ValidDate(d)
  {
    DaysBeforeYear(d.year) + DaysBeforeMonth(d.year, d.month) + d.day
  }

  /** The twelve months fill the year exactly. */
  lemma MonthsFillYear(y: int)
    ensures DaysBeforeMonth(y, 13) == DaysInYear(y)
  {
    var f := if IsLeapYear(y) then 29 else 28;
    assert DaysBeforeMonth(y, 2) == 31;
    assert DaysBeforeMonth(y, 3) == 31 + f;
    assert DaysBeforeMonth(y, 4) == 62 + f;
    assert DaysBeforeMonth(y, 5) == 92 + f;
    assert DaysBeforeMonth(y, 6) == 123 + f;
    assert DaysBeforeMonth(y, 7) == 153 + f;
    assert DaysBeforeMonth(y, 8) == 184 + f;
    assert DaysBeforeMonth(y, 9) == 215 + f;
    assert DaysBeforeMonth(y, 10) == 245 + f;
    assert DaysBeforeMonth(y, 11) == 276 + f;
    assert DaysBeforeMonth(y, 12) == 306 + f;
  }

  /** The closed form grows by each year's own length. */
  lemma YearStartFormulaStep(y: int)
    ensures YearStartFormula(y + 1) == YearStartFormula(y) + DaysInYear(y)
  {
    var k := y - 1;
    assert (k + 1) / 4 - k / 4 == if (k + 1) % 4 == 0 then 1 else 0;
    assert (k + 1) / 100 - k / 100 == if (k + 1) % 100 == 0 then 1 else 0;
    assert (k + 1) / 400 - k / 400 == if (k + 1) % 400 == 0 then 1 else 0;
    assert (k + 1) % 400 == 0 ==> (k + 1) % 100 == 0;
    assert (k + 1) % 100 == 0 ==> (k + 1) % 4 == 0;
  }

  /** The closed form counts exactly the days of the years before y. */
  lemma {:induction false} DaysBeforeYearFormula(y: int)
    requires y >= 1
    ensures DaysBeforeYear(y) == YearStartFormula(y)
  {
    if y > 1 {
      DaysBeforeYearFormula(y - 1);
      YearStartFormulaStep(y - 1);
    }
  }

  lemma {:induction false} DaysBeforeYearMonotone(y1: int, y2: int)
    requires 1 <= y1 <= y2
    ensures DaysBeforeYear(y1) + (y2 - y1) * 365 <= DaysBeforeYear(y2)
    decreases y2
  {
    if y1 < y2 {
      DaysBeforeYearMonotone(y1, y2 - 1);
    }
  }

  lemma DivideBy4(k: int, q: int, r: int)
    requires 0 <= r < 4 && k == 4 * q + r
    ensures k / 4 == q && k % 4 == r
  {
  }

  lemma DivideBy100(k: int, q: int, r: int)
    requires 0 <= r < 100 && k == 100 * q + r
    ensures k / 100 == q && k % 100 == r
  {
  }

  lemma DivideBy400(k: int, q: int, r: int)
    requires 0 <= r < 400 && k == 400 * q + r
    ensures k / 400 == q && k % 400 == r
  {
  }

  /**
   * A year written as 1 + 400a + 100b + 4c + d, as the 400-, 100-, 4- and
   * 1-year cycles of the calendar decompose it: how many days precede it, and
   * whether it is a leap year.
   */
  lemma CycleDays(a: int, b: int, c: int, d: int)
    requires a >= 0 && 0 <= b <= 3 && 0 <= c <= 24 && 0 <= d <= 3
    ensures DaysBeforeYear(1 + 400 * a + 100 * b + 4 * c + d) == 146097 * a + 36524 * b + 1461 * c + 365 * d
    ensures IsLeapYear(1 + 400 * a + 100 * b + 4 * c + d) <==> d == 3 && (c != 24 || b == 3)
  {
    CycleStart(a, b, c, d);
    CycleLeap(a, b, c, d);
  }

  lemma CycleStart(a: int, b: int, c: int, d: int)
    requires a >= 0 && 0 <= b <= 3 && 0 <= c <= 24 && 0 <= d <= 3
    ensures DaysBeforeYear(1 + 400 * a + 100 * b + 4 * c + d) == 146097 * a + 36524 * b + 1461 * c + 365 * d
  {
    var y := 1 + 400 * a + 100 * b + 4 * c + d;
    DaysBeforeYearFormula(y);
    assert YearStartFormula(y) == 365 * (y - 1) + (y - 1) / 4 - (y - 1) / 100 + (y - 1) / 400;
    CycleFormula(a, b, c, d, y - 1);
  }

  lemma CycleFormula(a: int, b: int, c: int, d: int, k: int)
    requires a >= 0 && 0 <= b <= 3 && 0 <= c <= 24 && 0 <= d <= 3
    requires k == 400 * a + 100 * b + 4 * c + d
    ensures 365 * k + k / 4 - k / 100 + k / 400 == 146097 * a + 36524 * b + 1461 * c + 365 * d
  {
    DivideBy4(k, 100 * a + 25 * b + c, d);
    DivideBy100(k, 4 * a + b, 4 * c + d);
    DivideBy400(k, a, 100 * b + 4 * c + d);
    CycleSum(a, b, c, d, k);
  }

  lemma CycleSum(a: int, b: int, c: int, d: int, k: int)
    requires k == 400 * a + 100 * b + 4 * c + d
    ensures 365 * k + (100 * a + 25 * b + c) - (4 * a + b) + a == 146097 * a + 36524 * b + 1461 * c + 365 * d
  {
  }

  lemma CycleLeap(a: int, b: int, c: int, d: int)
    requires a >= 0 && 0 <= b <= 3 && 0 <= c <= 24 && 0 <= d <= 3
    ensures IsLeapYear(1 + 400 * a + 100 * b + 4 * c + d) <==> d == 3 && (c != 24 || b == 3)
  {
    var y := 1 + 400 * a + 100 * b + 4 * c + d;
    if d == 3 {
      DivideBy4(y, 100 * a + 25 * b + c + 1, 0);
    } else {
      DivideBy4(y, 100 * a + 25 * b + c, d + 1);
    }
    if 4 * c + d + 1 == 100 {
      DivideBy100(y, 4 * a + b + 1, 0);
    } else {
      DivideBy100(y, 4 * a + b, 4 * c + d + 1);
    }
    if 100 * b + 4 * c + d + 1 == 400 {
      DivideBy400(y, a + 1, 0);
    } else {
      DivideBy400(y, a, 100 * b + 4 * c + d + 1);
    }
  }

  /**
   * The year holding day n (n days after 0001-01-01) and the 0-based day
   * within that year; the divmod cascade datetime's _ord2ymd performs.
   */
  function YearAndDay(n: nat): (r: (int, nat))
    ensures r.0 >= 1 && r.1 < DaysInYear(r.0)
    ensures DaysBeforeYear(r.0) + r.1 == n
  {
    var n400, r400 := n / 146097, n % 146097;
    var n100, r100 := r400 / 36524, r400 % 36524;
    var n4, r4 := r100 / 1461, r100 % 1461;
    var n1, r1 := r4 / 365, r4 % 365;
    if n100 == 4 then
      // the last day of a 400-year cycle: 31 December of a year divisible by 400
      CycleDays(n400, 3, 24, 3);
      (400 * n400 + 400, 365)
    else if n1 == 4 then
      // the last day of a 4-year cycle: 31 December of a leap year
      CycleDays(n400, n100, n4, 3);
      (400 * n400 + 100 * n100 + 4 * n4 + 4, 365)
    else
      CycleDays(n400, n100, n4, n1);
      (1 + 400 * n400 + 100 * n100 + 4 * n4 + n1, r1)
  }

  /** The month holding day `rest` counted from the first of month m, and its day of month. */
  function FindMonth(y: int, rest: nat, m: int): (r: (int, int))
    requires 1 <= m <= 12 && DaysBeforeMonth(y, m) + rest < DaysInYear(y)
    ensures m <= r.0 <= 12 && 1 <= r.1 <= DaysInMonth(y, r.0)
    ensures DaysBeforeMonth(y, r.0) + r.1 - 1 == DaysBeforeMonth(y, m) + rest
    decreases 12 - m
  {
    if rest < DaysInMonth(y, m) then (m, rest + 1)
    else
      MonthsFillYear(y);
      FindMonth(y, rest - DaysInMonth(y, m), m + 1)
  }

  /** The date with a given ordinal: the inverse of date.toordinal(). */
  function FromOrdinal(o: int): (d: Date)
    requires o >= 1
    ensures ValidDate(d) && Ordinal(d) == o
  {
    var yd := YearAndDay(o - 1);
    var md := FindMonth(yd.0, yd.1, 1);
    Date(yd.0, md.0, md.1)
  }

  lemma {:induction false} DaysBeforeMonthMonotone(y: int, m1: int, m2: int)
    requires 1 <= m1 <= m2 <= 13
    ensures DaysBeforeMonth(y, m1) <= DaysBeforeMonth(y, m2)
    ensures m1 < m2 ==> DaysBeforeMonth(y, m1) + DaysInMonth(y, m1) <= DaysBeforeMonth(y, m2)
    decreases m2
  {
    if m1 < m2 {
      DaysBeforeMonthMonotone(y, m1, m2 - 1);
    }
  }

  /** Distinct valid dates have distinct ordinals. */
  lemma OrdinalInjective(d1: Date, d2: Date)
    requires ValidDate(d1) && ValidDate(d2) && Ordinal(d1) == Ordinal(d2)
    ensures d1 == d2
  {
    MonthsFillYear(d1.year);
    MonthsFillYear(d2.year);
    DaysBeforeMonthMonotone(d1.year, d1.month, 13);
    DaysBeforeMonthMonotone(d2.year, d2.month, 13);
    if d1.year < d2.year {
      DaysBeforeYearMonotone(d1.year + 1, d2.year);
      assert false;
    } else if d2.year < d1.year {
      DaysBeforeYearMonotone(d2.year + 1, d1.year);
      assert false;
    }
    if d1.month < d2.month {
      DaysBeforeMonthMonotone(d1.year, d1.month, d2.month);
      assert false;
    } else if d2.month < d1.month {
      DaysBeforeMonthMonotone(d1.year, d2.month, d1.month);
      assert false;
    }
  }

  /** FromOrdinal(d.toordinal()) == d: the two conversions are inverse both ways. */
  lemma FromOrdinalOfOrdinal(d: Date)
    requires ValidDate(d)
    ensures FromOrdinal(Ordinal(d)) == d
  {
    OrdinalInjective(FromOrdinal(Ordinal(d)), d);
  }

  /** date.weekday(): 0 is Monday, 6 is Sunday; 0001-01-01 was a Monday. */
  function Weekday(d: Date): (w: int)
    requires ValidDate(d)
    ensures 0 <= w <= 6
  {
    (Ordinal(d) + 6) % 7
  }

  // ---------------------------------------------------------------- timestamps

  const SecondsPerDay := 86400
  /** date(1970, 1, 1).toordinal() */
  const EpochOrdinal := 719163
  /** 0001-01-01T00:00:00Z, the earliest instant datetime represents */
  const MinTimestamp := -62135596800
  /** 9999-12-31T23:59:59Z, the latest whole second datetime represents */
  const MaxTimestamp := 253402300799

  datatype UtcDateTime = UtcDateTime(date: Date, hour: int, minute: int, second: int)

  predicate ValidDateTime(t: UtcDateTime) {
    ValidDate(t.date) && 0 <= t.hour <= 23 && 0 <= t.minute <= 59 && 0 <= t.second <= 59
  }

  /** calendar.timegm: seconds since the Epoch of a UTC date and time. */
  function ToTimestamp(t: UtcDateTime): int
    requires ValidDateTime(t)
  {
    (Ordinal(t.date) - EpochOrdinal) * SecondsPerDay + t.hour * 3600 + t.minute * 60 + t.second
  }

  /** The seconds of a day split into hours, minutes and seconds. */
  lemma SplitClock(secs: int)
    requires 0 <= secs < SecondsPerDay
    ensures 0 <= secs / 3600 <= 23 && 0 <= secs % 3600 / 60 <= 59 && 0 <= secs % 60 <= 59
    ensures secs == secs / 3600 * 3600 + secs % 3600 / 60 * 60 + secs % 60
  {
    var h, r := secs / 3600, secs % 3600;
    assert secs == h * 3600 + r;
    assert r == r / 60 * 60 + r % 60;
    assert r % 60 == secs % 60 by {
      DivideBy60(secs, h * 60 + r / 60, r % 60);
    }
  }

  lemma DivideBy60(k: int, q: int, r: int)
    requires 0 <= r < 60 && k == 60 * q + r
    ensures k / 60 == q && k % 60 == r
  {
  }

  lemma DivideByDay(k: int, q: int, r: int)
    requires 0 <= r < SecondsPerDay && k == SecondsPerDay * q + r
    ensures k / SecondsPerDay == q && k % SecondsPerDay == r
  {
  }

  /** The last ordinal datetime represents, 9999-12-31, still falls in year 9999. */
  lemma YearBound(d: Date)
    requires ValidDate(d) && Ordinal(d) <= 3652059
    ensures d.year <= 9999
  {
    if d.year > 9999 {
      DaysBeforeYearFormula(10000);
      DaysBeforeYearMonotone(10000, d.year);
    }
  }

  /**
   * datetime.fromtimestamp(e, tz=timezone.utc) for integer e; None where
   * Python raises because the year would fall outside 1..9999.
   */
  function FromTimestamp(e: int): (r: Option<UtcDateTime>)
    ensures r.Some? <==> MinTimestamp <= e <= MaxTimestamp
    ensures r.Some? ==> ValidDateTime(r.value) && r.value.date.year <= 9999
    ensures r.Some? ==> ToTimestamp(r.value) == e
  {
    if e < MinTimestamp || e > MaxTimestamp then None
    else
      var days, secs := e / SecondsPerDay, e % SecondsPerDay;
      assert 1 <= days + EpochOrdinal <= 3652059;
      var d := FromOrdinal(days + EpochOrdinal);
      YearBound(d);
      SplitClock(secs);
      Some(UtcDateTime(d, secs / 3600, secs % 3600 / 60, secs % 60))
  }

  lemma JoinClock(h: int, m: int, sec: int)
    requires 0 <= h <= 23 && 0 <= m <= 59 && 0 <= sec <= 59
    ensures var secs := h * 3600 + m * 60 + sec;
      0 <= secs < SecondsPerDay && secs / 3600 == h && secs % 3600 / 60 == m && secs % 60 == sec
  {
    var secs := h * 3600 + m * 60 + sec;
    assert secs / 3600 == h && secs % 3600 == m * 60 + sec;
    DivideBy60(m * 60 + sec, m, sec);
    DivideBy60(secs, h * 60 + m, sec);
  }

  /** Distinct valid instants have distinct timestamps. */
  lemma ToTimestampInjective(t: UtcDateTime, u: UtcDateTime)
    requires ValidDateTime(t) && ValidDateTime(u) && ToTimestamp(t) == ToTimestamp(u)
    ensures t == u
  {
    var e := ToTimestamp(t);
    JoinClock(t.hour, t.minute, t.second);
    JoinClock(u.hour, u.minute, u.second);
    DivideByDay(e, Ordinal(t.date) - EpochOrdinal, t.hour * 3600 + t.minute * 60 + t.second);
    DivideByDay(e, Ordinal(u.date) - EpochOrdinal, u.hour * 3600 + u.minute * 60 + u.second);
    OrdinalInjective(t.date, u.date);
  }

  /** Converting back gives the same instant: FromTimestamp inverts ToTimestamp on its range. */
  lemma FromTimestampOfToTimestamp(t: UtcDateTime)
    requires ValidDateTime(t) && MinTimestamp <= ToTimestamp(t) <= MaxTimestamp
    ensures FromTimestamp(ToTimestamp(t)) == Some(t)
  {
    ToTimestampInjective(FromTimestamp(ToTimestamp(t)).value, t);
  }

  /** One day later: the weekday moves on by one, modulo 7, and the clock reads the same. */
  lemma NextDay(e: int)
    requires MinTimestamp <= e && e + SecondsPerDay <= MaxTimestamp
    ensures var t, u := FromTimestamp(e).value, FromTimestamp(e + SecondsPerDay).value;
      Weekday(u.date) == (Weekday(t.date) + 1) % 7
      && u.hour == t.hour && u.minute == t.minute && u.second == t.second
  {
    var t := FromTimestamp(e).value;
    NextDayIs(e);
    WeekdayAfter(t);
  }

  lemma NextDayIs(e: int)
    requires MinTimestamp <= e && e + SecondsPerDay <= MaxTimestamp
    ensures FromTimestamp(e + SecondsPerDay).value == DayAfter(FromTimestamp(e).value)
  {
    ToTimestampInjective(DayAfter(FromTimestamp(e).value), FromTimestamp(e + SecondsPerDay).value);
  }

  lemma WeekdayAfter(t: UtcDateTime)
    requires ValidDateTime(t)
    ensures Weekday(DayAfter(t).date) == (Weekday(t.date) + 1) % 7
  {
    ModSevenStep(Ordinal(t.date) + 6);
  }

  /** The same clock time on the following day, 86400 seconds later. */
  function DayAfter(t: UtcDateTime): (r: UtcDateTime)
    requires ValidDateTime(t)
    ensures ValidDateTime(r) && Ordinal(r.date) == Ordinal(t.date) + 1
    ensures r.hour == t.hour && r.minute == t.minute && r.second == t.second
    ensures ToTimestamp(r) == ToTimestamp(t) + SecondsPerDay
  {
    var r := UtcDateTime(FromOrdinal(Ordinal(t.date) + 1), t.hour, t.minute, t.second);
    assert ToTimestamp(r) == (Ordinal(t.date) + 1 - EpochOrdinal) * SecondsPerDay + t.hour * 3600 + t.minute * 60 + t.second;
    r
  }

  lemma ModSevenStep(k: int)
    ensures (k + 1) % 7 == (k % 7 + 1) % 7
  {
    var q := k / 7;
    assert k == 7 * q + k % 7;
    if k % 7 == 6 {
      assert k + 1 == 7 * (q + 1);
    } else {
      assert k + 1 == 7 * q + (k % 7 + 1);
    }
  }

  // ---------------------------------------------------------------- text

  /** date.isoformat(): YYYY-MM-DD, zero-padded. */
  function IsoDate(d: Date): string {
    ZeroPad(if d.year < 0 then 0 else d.year, 4) + "-" + ZeroPad(if d.month < 0 then 0 else d.month, 2)
    + "-" + ZeroPad(if d.day < 0 then 0 else d.day, 2)
  }

  /** strftime("%Y-%m-%dT%H:%M:%SZ"): the RFC 3339 (section 5.6) form with a Z offset. */
  function IsoTimestamp(t: UtcDateTime): string
    requires ValidDateTime(t)
  {
    IsoDate(t.date) + "T" + ZeroPad(t.hour, 2) + ":" + ZeroPad(t.minute, 2) + ":" + ZeroPad(t.second, 2) + "Z"
  }

  /**
   * Every representable instant formats as exactly YYYY-MM-DDTHH:MM:SSZ,
   * the date being its first ten characters, and each of the six digit
   * fields is the zero-padded value of its component, so it reads back as
   * that component.
   */
  lemma IsoTimestampShape(t: UtcDateTime)
    requires ValidDateTime(t) && t.date.year <= 9999
    ensures |IsoDate(t.date)| == 10
    ensures |IsoTimestamp(t)| == 20 && IsoTimestamp(t)[..10] == IsoDate(t.date)
    ensures IsoTimestamp(t)[4] == '-' && IsoTimestamp(t)[7] == '-' && IsoTimestamp(t)[10] == 'T'
    ensures IsoTimestamp(t)[13] == ':' && IsoTimestamp(t)[16] == ':' && IsoTimestamp(t)[19] == 'Z'
    ensures IsoTimestamp(t)[..4] == ZeroPad(t.date.year, 4) && DigitsValue(IsoTimestamp(t)[..4]) == t.date.year
    ensures IsoTimestamp(t)[5..7] == ZeroPad(t.date.month, 2) && DigitsValue(IsoTimestamp(t)[5..7]) == t.date.month
    ensures IsoTimestamp(t)[8..10] == ZeroPad(t.date.day, 2) && DigitsValue(IsoTimestamp(t)[8..10]) == t.date.day
    ensures IsoTimestamp(t)[11..13] == ZeroPad(t.hour, 2) && DigitsValue(IsoTimestamp(t)[11..13]) == t.hour
    ensures IsoTimestamp(t)[14..16] == ZeroPad(t.minute, 2) && DigitsValue(IsoTimestamp(t)[14..16]) == t.minute
    ensures IsoTimestamp(t)[17..19] == ZeroPad(t.second, 2) && DigitsValue(IsoTimestamp(t)[17..19]) == t.second
  {
    IsoDateShape(t.date);
    ZeroPadWidth(t.hour, 2);
    ZeroPadWidth(t.minute, 2);
    ZeroPadWidth(t.second, 2);
    ZeroPadValue(t.hour, 2);
    ZeroPadValue(t.minute, 2);
    ZeroPadValue(t.second, 2);
    Stamped(IsoDate(t.date), ZeroPad(t.hour, 2), ZeroPad(t.minute, 2), ZeroPad(t.second, 2));
  }

  lemma Stamped(date: string, h: string, m: string, sec: string)
    requires |date| == 10 && |h| == 2 && |m| == 2 && |sec| == 2
    ensures var s := date + "T" + h + ":" + m + ":" + sec + "Z";
      |s| == 20 && s[..10] == date && s[4] == date[4] && s[7] == date[7]
      && s[10] == 'T' && s[13] == ':' && s[16] == ':' && s[19] == 'Z'
      && s[..4] == date[..4] && s[5..7] == date[5..7] && s[8..10] == date[8..10]
      && s[11..13] == h && s[14..16] == m && s[17..19] == sec
  {
    var s := date + "T" + h + ":" + m + ":" + sec + "Z";
    assert s[..10] == date;
    assert s[11..13] == h;
    assert s[14..16] == m;
    assert s[17..19] == sec;
  }

  /**
   * A date in years 1..9999 formats as exactly YYYY-MM-DD, each digit field
   * the zero-padded value of its component and reading back as it.
   */
  lemma IsoDateShape(d: Date)
    requires ValidDate(d) && d.year <= 9999
    ensures |IsoDate(d)| == 10 && IsoDate(d)[4] == '-' && IsoDate(d)[7] == '-'
    ensures IsoDate(d)[..4] == ZeroPad(d.year, 4) && DigitsValue(IsoDate(d)[..4]) == d.year
    ensures IsoDate(d)[5..7] == ZeroPad(d.month, 2) && DigitsValue(IsoDate(d)[5..7]) == d.month
    ensures IsoDate(d)[8..10] == ZeroPad(d.day, 2) && DigitsValue(IsoDate(d)[8..10]) == d.day
  {
    assert d.day < 100 && d.month < 100 && d.year < 10000;
    assert IsoDate(d) == ZeroPad(d.year, 4) + "-" + ZeroPad(d.month, 2) + "-" + ZeroPad(d.day, 2);
    DateText(d.year, d.month, d.day);
  }

  lemma DateText(y: nat, m: nat, day: nat)
    requires y < 10000 && m < 100 && day < 100
    ensures var s := ZeroPad(y, 4) + "-" + ZeroPad(m, 2) + "-" + ZeroPad(day, 2);
      |s| == 10 && s[4] == '-' && s[7] == '-'
      && s[..4] == ZeroPad(y, 4) && s[5..7] == ZeroPad(m, 2) && s[8..10] == ZeroPad(day, 2)
      && DigitsValue(s[..4]) == y && DigitsValue(s[5..7]) == m && DigitsValue(s[8..10]) == day
  {
    assert Pow10(2) == 100 && Pow10(4) == 10000;
    ZeroPadWidth(y, 4);
    ZeroPadWidth(m, 2);
    ZeroPadWidth(day, 2);
    ZeroPadValue(y, 4);
    ZeroPadValue(m, 2);
    ZeroPadValue(day, 2);
    Dashed(ZeroPad(y, 4), ZeroPad(m, 2), ZeroPad(day, 2));
  }

  lemma Dashed(y: string, m: string, d: string)
    requires |y| == 4 && |m| == 2 && |d| == 2
    ensures var s := y + "-" + m + "-" + d;
      |s| == 10 && s[4] == '-' && s[7] == '-'
      && s[..4] == y && s[5..7] == m && s[8..10] == d
  {
    var s := y + "-" + m + "-" + d;
    assert s[..4] == y;
    assert s[5..7] == m;
    assert s[8..10] == d;
  }

  /**
   * The Epoch itself (e == 0) is 1970-01-01T00:00:00Z, a Thursday. The year
   * is a parameter fixed by the requires so that the verifier reasons about
   * it symbolically instead of counting 1970 years one by one.
   */
  lemma EpochInstant(e: int, y: int)
    requires e == 0 && y == 1970
    ensures FromTimestamp(e) == Some(UtcDateTime(Date(y, 1, 1), 0, 0, 0))
    ensures Weekday(Date(y, 1, 1)) == 3
  {
    var d := Date(y, 1, 1);
    var t := UtcDateTime(d, 0, 0, 0);
    EpochOrdinalIs(y);
    assert ToTimestamp(t) == 0;
    FromTimestampOfToTimestamp(t);
    DivideBy7(EpochOrdinal + 6, 102738, 3);
  }

  lemma DivideBy7(k: int, q: int, r: int)
    requires 0 <= r < 7 && k == 7 * q + r
    ensures k % 7 == r
  {
  }

  lemma EpochOrdinalIs(y: int)
    requires y == 1970
    ensures ValidDate(Date(y, 1, 1)) && Ordinal(Date(y, 1, 1)) == EpochOrdinal
  {
    DaysBeforeYearFormula(y);
    assert YearStartFormula(y) == 719162 by {
      DivideBy4(y - 1, 492, 1);
      DivideBy100(y - 1, 19, 69);
      DivideBy400(y - 1, 4, 369);
    }
  }

  /**
   * The Epoch prints as 1970-01-01T00:00:00Z, its date as 1970-01-01 (the
   * instant is a parameter for the same reason as in EpochInstant).
   */
  lemma EpochText(t: UtcDateTime)
    requires t == UtcDateTime(Date(1970, 1, 1), 0, 0, 0)
    ensures ValidDateTime(t)
    ensures IsoDate(t.date) == "1970-01-01"
    ensures IsoTimestamp(t) == "1970-01-01T00:00:00Z"
    ensures NatToString(t.date.year) == "1970"
  {
    Year1970Text(t.date.year);
    EpochDateText(t.date);
    PadZero(t.hour);
    PadZero(t.minute);
    PadZero(t.second);
    EpochStampJoin(IsoDate(t.date), ZeroPad(t.hour, 2), ZeroPad(t.minute, 2), ZeroPad(t.second, 2));
  }

  lemma EpochDateText(d: Date)
    requires d == Date(1970, 1, 1)
    ensures IsoDate(d) == "1970-01-01"
  {
    Year1970Text(d.year);
    PadOne(d.month);
    PadOne(d.day);
    EpochDateJoin(ZeroPad(d.year, 4), ZeroPad(d.month, 2), ZeroPad(d.day, 2));
  }

  lemma EpochDateJoin(y: string, m: string, d: string)
    requires y == "1970" && m == "01" && d == "01"
    ensures y + "-" + m + "-" + d == "1970-01-01"
  {
  }

  lemma EpochStampJoin(date: string, h: string, m: string, s: string)
    requires date == "1970-01-01" && h == "00" && m == "00" && s == "00"
    ensures date + "T" + h + ":" + m + ":" + s + "Z" == "1970-01-01T00:00:00Z"
  {
  }

  lemma Year1970Text(y: nat)
    requires y == 1970
    ensures NatToString(y) == "1970" && ZeroPad(y, 4) == "1970"
  {
    assert NatToString(y / 1000) == "1";
    assert NatToString(y / 100) == "19";
    assert NatToString(y / 10) == "197";
  }

  lemma PadOne(n: nat)
    requires n == 1
    ensures ZeroPad(n, 2) == "01"
  {
    assert NatToString(n) == "1";
  }

  lemma PadZero(n: nat)
    requires n == 0
    ensures ZeroPad(n, 2) == "00"
  {
    assert NatToString(n) == "0";
  }
}
