/** The seconds-to-calendar conversion of deps/libc_time.c, proved against the proleptic
    Gregorian calendar. Months are counted from 0 and years from 1900 in the result, as in
    the C structure. */
module Calendar {
  import opened NumberTheory

  // ------------------------------------------------ C integer division (truncating)

  function TDiv(a: int, b: int): (r: int)
    requires b > 0
  {
    if a >= 0 then a / b else -((-a) / b)
  }

  function TMod(a: int, b: int): (r: int)
    requires b > 0
  {
    a - b * TDiv(a, b)
  }

  const INT_MAX: int := 2147483647
  const INT_MIN: int := -2147483648

  // -------------------------------------------------- the reference calendar

  predicate IsLeap(y: int) {
    y % 4 == 0 && (y % 100 != 0 || y % 400 == 0)
  }

  function YearLength(y: int): int {
    if IsLeap(y) then 366 else 365
  }

  function MonthLength(y: int, m: int): int
    requires 0 <= m < 12
  {
    if m == 1 then (if IsLeap(y) then 29 else 28)
    else if m == 3 || m == 5 || m == 8 || m == 10 then 30 else 31
  }

  /** Leap days in the years before y, counted from year 1. */
  function LeapDaysBefore(y: int): int {
    (y - 1) / 4 - (y - 1) / 100 + (y - 1) / 400
  }

  /** Days from 1970-01-01 to the first of January of year y. */
  function DaysBeforeYear(y: int): int {
    365 * (y - 1970) + LeapDaysBefore(y) - LeapDaysBefore(1970)
  }

  function DaysBeforeMonth(y: int, m: int): int
    requires 0 <= m <= 12
  {
    if m == 0 then 0 else DaysBeforeMonth(y, m - 1) + MonthLength(y, m - 1)
  }

  predicate ValidDate(y: int, m: int, d: int) {
    0 <= m < 12 && 1 <= d <= MonthLength(y, m)
  }

  /** Days from 1970-01-01 to the given date. */
  function DayNumber(y: int, m: int, d: int): int
    requires 0 <= m < 12
  {
    DaysBeforeYear(y) + DaysBeforeMonth(y, m) + d - 1
  }

  /** The closed form counts year by year from 1970. */
  lemma YearByYear(y: int)
    ensures DaysBeforeYear(1970) == 0
    ensures DaysBeforeYear(y + 1) == DaysBeforeYear(y) + YearLength(y)
  {
    OneMoreMultiple(y, 4);
    OneMoreMultiple(y, 100);
    OneMoreMultiple(y, 400);
  }

  lemma OneMoreMultiple(y: int, k: int)
    requires k == 4 || k == 100 || k == 400
    ensures y / k == (y - 1) / k + (if y % k == 0 then 1 else 0)
  {
  }

  lemma MonthTable(y: int)
    ensures var f := if IsLeap(y) then 1 else 0;
      && DaysBeforeMonth(y, 0) == 0 && DaysBeforeMonth(y, 1) == 31
      && DaysBeforeMonth(y, 2) == 59 + f && DaysBeforeMonth(y, 3) == 90 + f
      && DaysBeforeMonth(y, 4) == 120 + f && DaysBeforeMonth(y, 5) == 151 + f
      && DaysBeforeMonth(y, 6) == 181 + f && DaysBeforeMonth(y, 7) == 212 + f
      && DaysBeforeMonth(y, 8) == 243 + f && DaysBeforeMonth(y, 9) == 273 + f
      && DaysBeforeMonth(y, 10) == 304 + f && DaysBeforeMonth(y, 11) == 334 + f
      && DaysBeforeMonth(y, 12) == 365 + f
  {
    var f := if IsLeap(y) then 1 else 0;
    assert DaysBeforeMonth(y, 1) == 31;
    assert DaysBeforeMonth(y, 2) == 59 + f;
    assert DaysBeforeMonth(y, 4) == 120 + f;
    assert DaysBeforeMonth(y, 6) == 181 + f;
    assert DaysBeforeMonth(y, 8) == 243 + f;
    assert DaysBeforeMonth(y, 10) == 304 + f;
  }

  lemma {:induction false} YearsApart(y1: int, y2: int)
    requires y1 < y2
    ensures DaysBeforeYear(y1) + YearLength(y1) <= DaysBeforeYear(y2)
    decreases y2 - y1
  {
    YearByYear(y1);
    if y1 + 1 < y2 {
      YearsApart(y1 + 1, y2);
    }
  }

  /** A day number names one date only. */
  lemma DateIsUnique(y1: int, m1: int, d1: int, y2: int, m2: int, d2: int)
    requires ValidDate(y1, m1, d1) && ValidDate(y2, m2, d2)
    requires DayNumber(y1, m1, d1) == DayNumber(y2, m2, d2)
    ensures y1 == y2 && m1 == m2 && d1 == d2
  {
    MonthTable(y1);
    MonthTable(y2);
    if y1 < y2 {
      YearsApart(y1, y2);
    } else if y2 < y1 {
      YearsApart(y2, y1);
    }
  }

  // ------------------------------------------------------------ the conversion

  const LEAPOCH: int := 946684800 + 86400 * (31 + 29)
  const DAYS_PER_400Y: int := 365 * 400 + 97
  const DAYS_PER_100Y: int := 365 * 100 + 24
  const DAYS_PER_4Y: int := 365 * 4 + 1

  const DAYS_IN_MONTH: seq<int> := [31, 30, 31, 30, 31, 31, 30, 31, 30, 31, 31, 29]

  /** Days in the first m months of a year that starts in March. */
  function MarchSum(m: int): int
    requires 0 <= m <= 12
  {
    if m == 0 then 0 else MarchSum(m - 1) + DAYS_IN_MONTH[m - 1]
  }

  lemma MarchTable()
    ensures MarchSum(1) == 31 && MarchSum(2) == 61 && MarchSum(3) == 92 && MarchSum(4) == 122
    ensures MarchSum(5) == 153 && MarchSum(6) == 184 && MarchSum(7) == 214 && MarchSum(8) == 245
    ensures MarchSum(9) == 275 && MarchSum(10) == 306 && MarchSum(11) == 337 && MarchSum(12) == 366
  {
    assert MarchSum(2) == 61;
    assert MarchSum(4) == 122;
    assert MarchSum(6) == 184;
    assert MarchSum(8) == 245;
    assert MarchSum(10) == 306;
  }

  datatype Tm = Tm(year: int, mon: int, mday: int, wday: int, yday: int, hour: int, min: int, sec: int)

  /** tm is the broken-down time of the instant t. */
  ghost predicate Represents(tm: Tm, t: int) {
    && 0 <= tm.hour < 24 && 0 <= tm.min < 60 && 0 <= tm.sec < 60
    && ValidDate(tm.year + 1900, tm.mon, tm.mday)
    && t == DayNumber(tm.year + 1900, tm.mon, tm.mday) * 86400
            + tm.hour * 3600 + tm.min * 60 + tm.sec
    // 1970-01-01 was a Thursday
    && tm.wday == (4 + DayNumber(tm.year + 1900, tm.mon, tm.mday)) % 7
    && tm.yday == DaysBeforeMonth(tm.year + 1900, tm.mon) + tm.mday - 1
  }

  /** Seconds from the epoch to midnight of a day. */
  function Midnight(y: int, m: int, d: int): int
    requires 0 <= m < 12
  {
    DayNumber(y, m, d) * 86400
  }

  /** Days from 2000-03-01 to the first of March of year 2000 + years. */
  function MarchDays(years: int): int {
    365 * years + years / 4 - years / 100 + years / 400
  }

  lemma LeapDaysFrom2000(years: int)
    ensures LeapDaysBefore(2001 + years) == 485 + years / 4 - years / 100 + years / 400
  {
    assert (2000 + years) / 4 == 500 + years / 4;
    assert (2000 + years) / 100 == 20 + years / 100;
    assert (2000 + years) / 400 == 5 + years / 400;
  }

  lemma FirstOfMarch(y: int)
    ensures DayNumber(y, 2, 1) == DaysBeforeYear(y + 1) - 306
  {
    MonthTable(y);
    YearByYear(y);
  }

  /** days, counted from 2000-03-01, is day rem of the March-based year 2000 + years. */
  ghost predicate MarchDay(days: int, years: int, rem: int) {
    days == MarchDays(years) + rem && 0 <= rem < MarchDays(years + 1) - MarchDays(years)
  }

  lemma MarchDaysIsDayNumber(years: int)
    ensures DayNumber(2000 + years, 2, 1) == MarchDays(years) + 11017
    ensures LEAPOCH == 11017 * 86400
  {
    FirstOfMarch(2000 + years);
    LeapDaysFrom2000(years);
    assert LeapDaysBefore(1970) == 477;
  }

  /** The three cycle counters and the remaining years add up to whole years, and what is
      left over is a day of the year that starts on the first of March. */
  lemma CyclesAreYears(qc: int, c: int, q: int, r: int)
    requires 0 <= c <= 3 && 0 <= q <= 24 && 0 <= r <= 3
    ensures var years := r + 4 * q + 100 * c + 400 * qc;
      MarchDays(years) == DAYS_PER_400Y * qc + DAYS_PER_100Y * c + DAYS_PER_4Y * q + 365 * r
    ensures var years := r + 4 * q + 100 * c + 400 * qc;
      IsLeap(2000 + years) <==> r == 0 && (q != 0 || c == 0)
    ensures var years := r + 4 * q + 100 * c + 400 * qc;
      IsLeap(2001 + years) <==> r == 3 && (q != 24 || c == 3)
  {
    var years := r + 4 * q + 100 * c + 400 * qc;
    CycleDivision(qc, c, q, r);
    LeapFrom2000(years);
    LeapFrom2000(years + 1);
    NextMultiple(years, 4);
    NextMultiple(years, 100);
    NextMultiple(years, 400);
  }

  lemma CycleDivision(qc: int, c: int, q: int, r: int)
    requires 0 <= c <= 3 && 0 <= q <= 24 && 0 <= r <= 3
    ensures var years := r + 4 * q + 100 * c + 400 * qc;
      && years / 4 == 100 * qc + 25 * c + q && years % 4 == r
      && years / 100 == 4 * qc + c && years % 100 == 4 * q + r
      && years / 400 == qc && years % 400 == 100 * c + 4 * q + r
  {
  }

  lemma LeapFrom2000(n: int)
    ensures IsLeap(2000 + n) <==> n % 4 == 0 && (n % 100 != 0 || n % 400 == 0)
  {
    ModShift(n, 4, 500);
    ModShift(n, 100, 20);
    ModShift(n, 400, 5);
  }

  lemma NextMultiple(y: int, m: int)
    requires m == 4 || m == 100 || m == 400
    ensures (y + 1) % m == 0 <==> y % m == m - 1
  {
  }

  lemma {:induction false} MarchDaysMonotone(a: int, b: int)
    requires a <= b
    ensures MarchDays(a) <= MarchDays(b)
    decreases b - a
  {
    if a < b {
      MarchDaysMonotone(a + 1, b);
      OneMoreMultiple(a + 1, 4);
      OneMoreMultiple(a + 1, 100);
      OneMoreMultiple(a + 1, 400);
    }
  }

  /** A day number that is rem days after the first of March of a year lies in the March
      years lo..hi exactly when that year does. */
  lemma YearRange(years: int, rem: int, lo: int, hi: int)
    requires 0 <= rem < MarchDays(years + 1) - MarchDays(years)
    ensures lo <= years <= hi <==> MarchDays(lo) <= MarchDays(years) + rem < MarchDays(hi + 1)
  {
    if lo <= years {
      MarchDaysMonotone(lo, years);
    } else {
      MarchDaysMonotone(years + 1, lo);
    }
    if years <= hi {
      MarchDaysMonotone(years + 1, hi + 1);
    } else {
      MarchDaysMonotone(hi + 1, years);
    }
  }

  /** Month and day of a March-based year, renumbered to the calendar year. */
  lemma MarchToCalendar(years: int, months: int, rem: int)
    requires 0 <= months < 12 && 0 <= rem < DAYS_IN_MONTH[months]
    requires MarchSum(months) + rem < MarchDays(years + 1) - MarchDays(years)
    ensures var y := if months >= 10 then 2001 + years else 2000 + years;
            var m := if months >= 10 then months - 10 else months + 2;
            var leap := if IsLeap(2000 + years) then 1 else 0;
            var s := MarchSum(months) + rem + 59 + leap;
            && ValidDate(y, m, rem + 1)
            && DayNumber(y, m, rem + 1) == MarchDays(years) + 11017 + MarchSum(months) + rem
            && DaysBeforeMonth(y, m) + rem == (if s >= 365 + leap then s - 365 - leap else s)
  {
    if months < 10 {
      SpringToWinter(years, months, rem);
    } else {
      NewYear(years, months, rem);
    }
  }

  lemma SpringToWinter(years: int, months: int, rem: int)
    requires 0 <= months < 10 && 0 <= rem < DAYS_IN_MONTH[months]
    ensures var leap := if IsLeap(2000 + years) then 1 else 0;
            var s := MarchSum(months) + rem + 59 + leap;
            && ValidDate(2000 + years, months + 2, rem + 1)
            && DayNumber(2000 + years, months + 2, rem + 1) == MarchDays(years) + 11017 + MarchSum(months) + rem
            && DaysBeforeMonth(2000 + years, months + 2) + rem == s < 365 + leap
  {
    MonthTable(2000 + years);
    MarchTable();
    MarchDaysIsDayNumber(years);
  }

  lemma NewYear(years: int, months: int, rem: int)
    requires 10 <= months < 12 && 0 <= rem < DAYS_IN_MONTH[months]
    requires MarchSum(months) + rem < MarchDays(years + 1) - MarchDays(years)
    ensures var leap := if IsLeap(2000 + years) then 1 else 0;
            var s := MarchSum(months) + rem + 59 + leap;
            && ValidDate(2001 + years, months - 10, rem + 1)
            && DayNumber(2001 + years, months - 10, rem + 1) == MarchDays(years) + 11017 + MarchSum(months) + rem
            && DaysBeforeMonth(2001 + years, months - 10) + rem == s - 365 - leap >= 0
  {
    MonthTable(2000 + years);
    MonthTable(2001 + years);
    MarchTable();
    MarchDaysIsDayNumber(years);
    YearByYear(2000 + years);
    MarchYearLength(years);
  }

  lemma MarchYearLength(years: int)
    ensures MarchDays(years + 1) - MarchDays(years) == YearLength(2001 + years)
  {
    MarchDaysIsDayNumber(years);
    MarchDaysIsDayNumber(years + 1);
    FirstOfMarch(2000 + years);
    FirstOfMarch(2001 + years);
    YearByYear(2001 + years);
  }

  /** Which instants the year test lets through. */
  lemma AcceptedRange(t: int, days: int, remsecs: int, years: int, remdays: int)
    requires t - LEAPOCH == days * 86400 + remsecs && 0 <= remsecs < 86400
    requires MarchDay(days, years, remdays)
    ensures INT_MIN <= years + 100 <= INT_MAX <==>
            Midnight(INT_MIN + 1900, 2, 1) <= t < Midnight(INT_MAX + 1901, 2, 1)
  {
    YearRange(years, remdays, INT_MIN - 100, INT_MAX - 100);
    MarchDaysIsDayNumber(INT_MIN - 100);
    MarchDaysIsDayNumber(INT_MAX - 99);
    MarchDaysIsDayNumber(0);
  }

  /** The first filter rejects nothing that the year test would accept. */
  lemma FirstFilter(t: int)
    requires t < INT_MIN * 31622400 || t > INT_MAX * 31622400
    ensures !(Midnight(INT_MIN + 1900, 2, 1) <= t < Midnight(INT_MAX + 1901, 2, 1))
  {
    MarchDaysIsDayNumber(INT_MIN - 100);
    MarchDaysIsDayNumber(INT_MAX - 99);
  }

  /** When the year field leaves the int range. */
  lemma YearField(y: int, m: int, d: int, secs: int)
    requires ValidDate(y, m, d) && 0 <= secs < 86400
    ensures y <= INT_MAX + 1900 <==> DayNumber(y, m, d) * 86400 + secs < Midnight(INT_MAX + 1901, 0, 1)
  {
    MonthTable(y);
    YearByYear(y);
    if y <= INT_MAX + 1900 {
      YearsApart(y, INT_MAX + 1901);
    } else if y > INT_MAX + 1901 {
      YearsApart(INT_MAX + 1901, y);
    }
  }

  /** The whole function. It accepts exactly the instants from the first of March of the
      year INT_MIN + 1900 up to the first of March of the year INT_MAX + 1901, and its
      result is the calendar representation of t. The year field leaves the C int range
      exactly in the last January and February. */
  method SecsToTm(t: int) returns (ret: int, tm: Tm)
    ensures ret == 0 || ret == -1
    ensures ret == 0 <==> Midnight(INT_MIN + 1900, 2, 1) <= t < Midnight(INT_MAX + 1901, 2, 1)
    ensures ret == 0 ==> Represents(tm, t)
    ensures ret == 0 ==> INT_MIN <= tm.year
    ensures ret == 0 ==> (tm.year <= INT_MAX <==> t < Midnight(INT_MAX + 1901, 0, 1))
  {
    tm := Tm(0, 0, 0, 0, 0, 0, 0, 0);
    if t < INT_MIN * 31622400 || t > INT_MAX * 31622400 {
      FirstFilter(t);
      return -1, tm;
    }
    var days, remsecs, wday := SplitSeconds(t);
    var years, remdays, leap := SplitDays(days);
    AcceptedRange(t, days, remsecs, years, remdays);
    var yday := remdays + 31 + 28 + leap;
    if yday >= 365 + leap {
      yday := yday - (365 + leap);
    }
    MarchDayBound(days, years, remdays);
    var months, rem := SplitMonths(remdays);
    if years + 100 > INT_MAX || years + 100 < INT_MIN {
      return -1, tm;
    }
    var year, mon := years + 100, months + 2;
    if mon >= 12 {
      mon := mon - 12;
      year := year + 1;
    }
    tm := Tm(year, mon, rem + 1, wday, yday,
             TDiv(remsecs, 3600), TMod(TDiv(remsecs, 60), 60), TMod(remsecs, 60));
    FieldsCorrect(t, days, remsecs, years, months, rem, tm);
    return 0, tm;
  }

  /** The first instant whose year field does not fit: midnight of the first of January of
      the year INT_MAX + 1901 is accepted, and every correct result has the year field
      INT_MAX + 1. */
  lemma YearFieldOverflows(tm: Tm)
    ensures var t := Midnight(INT_MAX + 1901, 0, 1);
      && Midnight(INT_MIN + 1900, 2, 1) <= t < Midnight(INT_MAX + 1901, 2, 1)
      && (Represents(tm, t) ==> tm.year == INT_MAX + 1)
  {
    var y := INT_MAX + 1901;
    MonthTable(y);
    YearsApart(INT_MIN + 1900, y);
    MonthTable(INT_MIN + 1900);
    if Represents(tm, Midnight(y, 0, 1)) {
      DateIsUnique(tm.year + 1900, tm.mon, tm.mday, y, 0, 1);
    }
  }

  lemma MarchDayBound(days: int, years: int, rem: int)
    requires MarchDay(days, years, rem)
    ensures 0 <= rem < 366
  {
    MarchYearLength(years);
  }

  /** The fields the function fills in represent the instant. */
  lemma FieldsCorrect(t: int, days: int, remsecs: int, years: int, months: int, rem: int, tm: Tm)
    requires t - LEAPOCH == days * 86400 + remsecs && 0 <= remsecs < 86400
    requires 0 <= months < 12 && 0 <= rem < DAYS_IN_MONTH[months]
    requires MarchDay(days, years, MarchSum(months) + rem)
    requires tm.year == years + (if months >= 10 then 101 else 100)
    requires tm.mon == (if months >= 10 then months - 10 else months + 2) && tm.mday == rem + 1
    requires tm.wday == (3 + days) % 7
    requires var leap := if IsLeap(2000 + years) then 1 else 0;
             var s := MarchSum(months) + rem + 59 + leap;
             tm.yday == if s >= 365 + leap then s - (365 + leap) else s
    requires tm.hour == TDiv(remsecs, 3600) && tm.min == TMod(TDiv(remsecs, 60), 60)
    requires tm.sec == TMod(remsecs, 60)
    ensures Represents(tm, t)
    ensures tm.year <= INT_MAX <==> t < Midnight(INT_MAX + 1901, 0, 1)
  {
    MarchToCalendar(years, months, rem);
    FieldsFromDate(t, days, remsecs, tm);
  }

  lemma FieldsFromDate(t: int, days: int, remsecs: int, tm: Tm)
    requires t - LEAPOCH == days * 86400 + remsecs && 0 <= remsecs < 86400
    requires ValidDate(tm.year + 1900, tm.mon, tm.mday) && DayNumber(tm.year + 1900, tm.mon, tm.mday) == days + 11017
    requires tm.wday == (3 + days) % 7 && tm.yday == DaysBeforeMonth(tm.year + 1900, tm.mon) + tm.mday - 1
    requires tm.hour == TDiv(remsecs, 3600) && tm.min == TMod(TDiv(remsecs, 60), 60)
    requires tm.sec == TMod(remsecs, 60)
    ensures Represents(tm, t)
    ensures tm.year <= INT_MAX <==> t < Midnight(INT_MAX + 1901, 0, 1)
  {
    TimeOfDay(remsecs);
    WeekdayShift(days);
    YearField(tm.year + 1900, tm.mon, tm.mday, remsecs);
  }

  lemma TimeOfDay(s: int)
    requires 0 <= s < 86400
    ensures 0 <= TDiv(s, 3600) < 24 && 0 <= TMod(TDiv(s, 60), 60) < 60 && 0 <= TMod(s, 60) < 60
    ensures s == TDiv(s, 3600) * 3600 + TMod(TDiv(s, 60), 60) * 60 + TMod(s, 60)
  {
  }

  lemma WeekdayShift(days: int)
    ensures (3 + days) % 7 == (4 + (days + 11017)) % 7
  {
    assert 4 + days + 11017 == 3 + days + 7 * 1574;
  }

  /** Month and day of month, by subtracting month lengths. The table is never left: its
      twelve entries sum to more than any day number. */
  method SplitMonths(day: int) returns (months: int, rem: int)
    requires 0 <= day < 366
    ensures 0 <= months < 12 && 0 <= rem < DAYS_IN_MONTH[months]
    ensures day == MarchSum(months) + rem
  {
    MarchTable();
    months, rem := 0, day;
    while DAYS_IN_MONTH[months] <= rem
      invariant 0 <= months < 12 && 0 <= rem
      invariant day == MarchSum(months) + rem
      decreases 12 - months
    {
      rem := rem - DAYS_IN_MONTH[months];
      months := months + 1;
    }
  }

  /** Days since 2000-03-01, seconds of the day and the weekday. */
  method SplitSeconds(t: int) returns (days: int, remsecs: int, wday: int)
    ensures t - LEAPOCH == days * 86400 + remsecs && 0 <= remsecs < 86400
    ensures wday == (3 + days) % 7
  {
    var secs := t - LEAPOCH;
    days := TDiv(secs, 86400);
    remsecs := TMod(secs, 86400);
    if remsecs < 0 {
      remsecs := remsecs + 86400;
      days := days - 1;
    }
    wday := TMod(3 + days, 7);
    if wday < 0 {
      wday := wday + 7;
    }
  }

  method Split400(days: int) returns (qc: int, rem: int)
    ensures days == DAYS_PER_400Y * qc + rem && 0 <= rem < DAYS_PER_400Y
  {
    qc := TDiv(days, DAYS_PER_400Y);
    rem := TMod(days, DAYS_PER_400Y);
    if rem < 0 {
      rem := rem + DAYS_PER_400Y;
      qc := qc - 1;
    }
  }

  method Split100(n: int) returns (c: int, rem: int)
    requires 0 <= n < DAYS_PER_400Y
    ensures n == DAYS_PER_100Y * c + rem && 0 <= c <= 3
    ensures 0 <= rem < (if c == 3 then DAYS_PER_100Y + 1 else DAYS_PER_100Y)
  {
    c := TDiv(n, DAYS_PER_100Y);
    if c == 4 { c := c - 1; }
    rem := n - c * DAYS_PER_100Y;
  }

  method Split4(n: int, ghost lastCentury: bool) returns (q: int, rem: int)
    requires 0 <= n < (if lastCentury then DAYS_PER_100Y + 1 else DAYS_PER_100Y)
    ensures n == DAYS_PER_4Y * q + rem && 0 <= q <= 24
    ensures 0 <= rem < (if q == 24 && !lastCentury then DAYS_PER_4Y - 1 else DAYS_PER_4Y)
  {
    q := TDiv(n, DAYS_PER_4Y);
    if q == 25 { q := q - 1; }
    rem := n - q * DAYS_PER_4Y;
  }

  /** The cascade of clamped divisions: whole 400, 100, 4 and 1 year cycles and the rest. */
  method SplitCycles(days: int) returns (qc: int, c: int, q: int, r: int, rem: int)
    ensures days == DAYS_PER_400Y * qc + DAYS_PER_100Y * c + DAYS_PER_4Y * q + 365 * r + rem
    ensures 0 <= c <= 3 && 0 <= q <= 24 && 0 <= r <= 3
    ensures 0 <= rem < (if r == 3 && (q != 24 || c == 3) then 366 else 365)
  {
    qc, rem := Split400(days);
    c, rem := Split100(rem);
    q, rem := Split4(rem, c == 3);
    r := TDiv(rem, 365);
    if r == 4 { r := r - 1; }
    rem := rem - r * 365;
  }

  lemma CyclesCorrect(days: int, qc: int, c: int, q: int, r: int, rem: int)
    requires days == DAYS_PER_400Y * qc + DAYS_PER_100Y * c + DAYS_PER_4Y * q + 365 * r + rem
    requires 0 <= c <= 3 && 0 <= q <= 24 && 0 <= r <= 3
    requires 0 <= rem < (if r == 3 && (q != 24 || c == 3) then 366 else 365)
    ensures MarchDay(days, r + 4 * q + 100 * c + 400 * qc, rem)
    ensures IsLeap(2000 + (r + 4 * q + 100 * c + 400 * qc)) <==> r == 0 && (q != 0 || c == 0)
  {
    CyclesAreYears(qc, c, q, r);
    MarchYearLength(r + 4 * q + 100 * c + 400 * qc);
  }

  /** Years since March 2000, the day in that year, and whether its calendar year is a leap year. */
  method SplitDays(days: int) returns (years: int, remdays: int, leap: int)
    ensures MarchDay(days, years, remdays)
    ensures leap == if IsLeap(2000 + years) then 1 else 0
  {
    var qcCycles, cCycles, qCycles, remyears;
    qcCycles, cCycles, qCycles, remyears, remdays := SplitCycles(days);
    leap := if remyears == 0 && (qCycles != 0 || cCycles == 0) then 1 else 0;
    years := remyears + 4 * qCycles + 100 * cCycles + 400 * qcCycles;
    CyclesCorrect(days, qcCycles, cCycles, qCycles, remyears, remdays);
  }
}
