/**
 * `convert_timestamp`: an integer count of seconds since the epoch
 * rendered as `YYYY-MM-DD HH:MM:SS UTC`, the way
 * `datetime.utcfromtimestamp(t).strftime('%Y-%m-%d %H:%M:%S UTC')` does.
 *
 * Seconds since the epoch follow POSIX.1-2017, Base Definitions,
 * section 4.16: every day has 86400 seconds (no leap seconds) and dates
 * are in the proleptic Gregorian calendar.  Python's `datetime` only
 * represents the years 1 to 9999; any other instant is an error.
 */
module Timestamps {
  import opened Wrappers
  import opened Errors
  import opened PyText

  const SecondsPerDay := 86400
  /** Days from 0001-01-01 to 1970-01-01. */
  const EpochDayNumber := 719162
  /** 0001-01-01 00:00:00 UTC, the earliest instant `datetime` represents. */
  const MinTimestamp := -62135596800
  /** 9999-12-31 23:59:59 UTC, the latest instant `datetime` represents. */
  const MaxTimestamp := 253402300799

  predicate IsLeapYear(y: int) {
    y % 4 == 0 && (y % 100 != 0 || y % 400 == 0)
  }

  function DaysInYear(y: int): int {
    if IsLeapYear(y) then 366 else 365
  }

  function DaysInMonth(y: int, m: int): int
    requires 1 <= m <= 12
  {
    if m == 2 then (if IsLeapYear(y) then 29 else 28)
    else if m == 4 || m == 6 || m == 9 || m == 11 then 30
    else 31
  }

  /** Days in the months of year `y` before month `m`. */
  function DaysBeforeMonth(y: int, m: int): int
    requires 1 <= m <= 12
  {
    [0, 31, 59, 90, 120, 151, 181, 212, 243, 273, 304, 334][m - 1] + (if m > 2 && IsLeapYear(y) then 1 else 0)
  }

  /**
   * Days from 0001-01-01 to January 1 of year `y`: the lengths of the
   * years in between added up (subtracted for years before 1).
   */
  function DaysBeforeYear(y: int): int
    decreases if y < 1 then 1 - y else y - 1
  {
    if y == 1 then 0
    else if y > 1 then DaysBeforeYear(y - 1) + DaysInYear(y - 1)
    else DaysBeforeYear(y + 1) - DaysInYear(y)
  }

  datatype Date = Date(year: int, month: int, day: int)

  datatype DateTime = DateTime(date: Date, hour: int, minute: int, second: int)

  predicate ValidDate(d: Date) {
    1 <= d.month <= 12 && 1 <= d.day <= DaysInMonth(d.year, d.month)
  }

  predicate ValidDateTime(dt: DateTime) {
    ValidDate(dt.date) && 0 <= dt.hour < 24 && 0 <= dt.minute < 60 && 0 <= dt.second < 60
  }

  /** Days from 0001-01-01 to `d` (0 for 0001-01-01 itself, negative before it). */
  function DayNumber(d: Date): int
    requires 1 <= d.month <= 12
  {
    DaysBeforeYear(d.year) + DaysBeforeMonth(d.year, d.month) + d.day - 1
  }

  /** Seconds since the epoch of a UTC civil time: the reference meaning of a rendered timestamp. */
  function EpochSeconds(dt: DateTime): int
    requires 1 <= dt.date.month <= 12
  {
    (DayNumber(dt.date) - EpochDayNumber) * SecondsPerDay + dt.hour * 3600 + dt.minute * 60 + dt.second
  }

  /** The day `dayOfYear` days after the first of month `month`, found by walking the months of `year`. */
  function MonthDay(year: int, month: int, dayOfYear: int): (d: Date)
    requires 1 <= month <= 12
    requires 0 <= dayOfYear < DaysInYear(year) - DaysBeforeMonth(year, month)
    ensures d.year == year && ValidDate(d)
    ensures DaysBeforeMonth(year, d.month) + d.day - 1 == DaysBeforeMonth(year, month) + dayOfYear
    decreases 12 - month
  {
    if dayOfYear < DaysInMonth(year, month) then
      Date(year, month, dayOfYear + 1)
    else
      MonthDay(year, month + 1, dayOfYear - DaysInMonth(year, month))
  }

  /**
   * The date `n` days after 0001-01-01, found by splitting `n` into
   * 400-year, 100-year, 4-year and 1-year periods as CPython's
   * ordinal-to-date conversion does.  The last day of a 4-year or
   * 400-year period is December 31 of the leap year before `year`.
   */
  function CivilFromDayNumber(n: int): (d: Date)
    ensures ValidDate(d)
  {
    var n400, r400 := n / 146097, n % 146097;
    var n100, r100 := r400 / 36524, r400 % 36524;
    var n4, r4 := r100 / 1461, r100 % 1461;
    var n1, r1 := r4 / 365, r4 % 365;
    var year := 400 * n400 + 100 * n100 + 4 * n4 + n1 + 1;
    if n1 == 4 || n100 == 4 then
      Date(year - 1, 12, 31)
    else
      MonthDay(year, 1, r1)
  }

  /** `datetime.utcfromtimestamp(timestamp)`, before the year-range check. */
  function ToUtc(timestamp: int): (dt: DateTime)
    ensures ValidDateTime(dt)
  {
    var days, secs := timestamp / SecondsPerDay, timestamp % SecondsPerDay;
    var hour, rest := secs / 3600, secs % 3600;
    DateTime(CivilFromDayNumber(days + EpochDayNumber), hour, rest / 60, rest % 60)
  }

  /** `dt.strftime('%Y-%m-%d %H:%M:%S UTC')`: every field zero-padded to its fixed width. */
  function FormatUtc(dt: DateTime): (s: string)
    requires ValidDateTime(dt) && 1 <= dt.date.year <= 9999
    ensures |s| == 23
  {
    var y, mo, d := ZeroPad(dt.date.year, 4), ZeroPad(dt.date.month, 2), ZeroPad(dt.date.day, 2);
    var h, mi, se := ZeroPad(dt.hour, 2), ZeroPad(dt.minute, 2), ZeroPad(dt.second, 2);
    [y[0], y[1], y[2], y[3], '-', mo[0], mo[1], '-', d[0], d[1], ' ',
     h[0], h[1], ':', mi[0], mi[1], ':', se[0], se[1], ' ', 'U', 'T', 'C']
  }

  /** `convert_timestamp(timestamp)`: the rendered UTC time, or the error for a year outside 1..9999. */
  function ConvertTimestamp(timestamp: int): (r: Result<string, Failure>)
    ensures r.Ok? ==> |r.value| == 23 && r.value[19..] == " UTC"
    ensures r.Err? ==> r.error == TimestampOutOfRange(timestamp)
  {
    var dt := ToUtc(timestamp);
    if 1 <= dt.date.year <= 9999 then
      FormatUtcSuffix(dt);
      Ok(FormatUtc(dt))
    else
      Err(TimestampOutOfRange(timestamp))
  }

  /** Consecutive years: January 1 of `y + 1` comes `DaysInYear(y)` days after January 1 of `y`. */
  lemma DaysBeforeYearStep(y: int)
    ensures DaysBeforeYear(y + 1) == DaysBeforeYear(y) + DaysInYear(y)
  {
  }

  lemma QuotientSteps(x: int)
    ensures x / 4 - (x - 1) / 4 == if x % 4 == 0 then 1 else 0
    ensures x / 100 - (x - 1) / 100 == if x % 100 == 0 then 1 else 0
    ensures x / 400 - (x - 1) / 400 == if x % 400 == 0 then 1 else 0
  {
  }

  lemma LeapDivisibility(x: int)
    ensures x % 400 == 0 ==> x % 100 == 0
    ensures x % 100 == 0 ==> x % 4 == 0
  {
    if x % 400 == 0 {
      var q := 4 * (x / 400);
      assert x == 100 * q;
      MultipleMod(q);
    }
    if x % 100 == 0 {
      var q := 25 * (x / 100);
      assert x == 4 * q;
      MultipleMod(q);
    }
  }

  lemma MultipleMod(q: int)
    ensures (100 * q) % 100 == 0 && (4 * q) % 4 == 0
  {
  }

  /** The closed form grows by the length of year `x` from year `x` to year `x + 1`. */
  lemma ClosedFormStep(x: int)
    ensures (365 * x + x / 4 - x / 100 + x / 400) - (365 * (x - 1) + (x - 1) / 4 - (x - 1) / 100 + (x - 1) / 400)
            == DaysInYear(x)
  {
    QuotientSteps(x);
    LeapDivisibility(x);
  }

  /** The leap-year count in closed form, the formula CPython uses for `_days_before_year`. */
  lemma {:induction false} DaysBeforeYearFormula(y: int)
    ensures DaysBeforeYear(y) == 365 * (y - 1) + (y - 1) / 4 - (y - 1) / 100 + (y - 1) / 400
    decreases if y < 1 then 1 - y else y - 1
  {
    if y > 1 {
      DaysBeforeYearFormula(y - 1);
      ClosedFormStep(y - 1);
    } else if y < 1 {
      DaysBeforeYearFormula(y + 1);
      ClosedFormStep(y);
    }
  }

  /** Later years start later. */
  lemma {:induction false} DaysBeforeYearMonotone(a: int, b: int)
    requires a <= b
    ensures DaysBeforeYear(a) + 365 * (b - a) <= DaysBeforeYear(b)
    decreases b - a
  {
    if a < b {
      DaysBeforeYearMonotone(a, b - 1);
      DaysBeforeYearStep(b - 1);
    }
  }

  lemma PeriodDecomposition(n400: int, n100: int, n4: int, n1: int)
    requires 0 <= n100 <= 3 && 0 <= n4 <= 24 && 0 <= n1 <= 3
    ensures var p := 400 * n400 + 100 * n100 + 4 * n4 + n1;
            365 * p + p / 4 - p / 100 + p / 400 == 146097 * n400 + 36524 * n100 + 1461 * n4 + 365 * n1
  {
    var p := 400 * n400 + 100 * n100 + 4 * n4 + n1;
    assert p / 4 == 100 * n400 + 25 * n100 + n4;
    assert p / 100 == 4 * n400 + n100;
    assert p / 400 == n400;
  }

  /** The date of day `n` when `n` is the last day of a 400-year period. */
  lemma LastDayOf400Years(n400: int)
    ensures DayNumber(Date(400 * n400 + 400, 12, 31)) == 146097 * n400 + 146096
  {
    var y := 400 * n400 + 400;
    assert DaysBeforeYear(y) == 146097 * n400 + 145731 by {
      DaysBeforeYearFormula(y);
      PeriodDecomposition(n400, 3, 24, 3);
    }
    assert IsLeapYear(y) by {
      assert y == 400 * (n400 + 1);
      assert y % 400 == 0;
      LeapDivisibility(y);
    }
    assert DaysBeforeMonth(y, 12) == 335;
  }

  /** The date of day `n` when `n` is the last day of a 4-year period that ends in a leap year. */
  lemma LastDayOf4Years(n400: int, n100: int, n4: int)
    requires 0 <= n100 <= 3 && 0 <= n4 <= 23
    ensures var y := 400 * n400 + 100 * n100 + 4 * n4 + 4;
            DayNumber(Date(y, 12, 31)) == 146097 * n400 + 36524 * n100 + 1461 * n4 + 1460
  {
    var y := 400 * n400 + 100 * n100 + 4 * n4 + 4;
    assert DaysBeforeYear(y) == 146097 * n400 + 36524 * n100 + 1461 * n4 + 1095 by {
      DaysBeforeYearFormula(y);
      PeriodDecomposition(n400, n100, n4, 3);
    }
    FourYearEndIsLeap(n400, n100, n4);
    assert DaysBeforeMonth(y, 12) == 335;
  }

  /** The year that closes a 4-year period, other than a century year, is a leap year. */
  lemma FourYearEndIsLeap(n400: int, n100: int, n4: int)
    requires 0 <= n4 <= 23
    ensures IsLeapYear(400 * n400 + 100 * n100 + 4 * n4 + 4)
  {
    var y := 400 * n400 + 100 * n100 + 4 * n4 + 4;
    assert y % 4 == 0 by {
      ModOfMultiplePlus4(100 * n400 + 25 * n100 + n4 + 1, 0);
    }
    assert y % 100 == 4 * n4 + 4 by {
      ModOfMultiplePlus100(4 * n400 + n100, 4 * n4 + 4);
    }
  }

  lemma ModOfMultiplePlus4(a: int, b: int)
    requires 0 <= b < 4
    ensures (4 * a + b) % 4 == b
  {
  }

  lemma ModOfMultiplePlus100(a: int, b: int)
    requires 0 <= b < 100
    ensures (100 * a + b) % 100 == b
  {
  }

  /** The date of day `n` in every other case: `r1` days into year `year`. */
  lemma DayWithinYear(n400: int, n100: int, n4: int, n1: int, r1: int)
    requires 0 <= n100 <= 3 && 0 <= n4 <= 24 && 0 <= n1 <= 3 && 0 <= r1 < 365
    ensures var y := 400 * n400 + 100 * n100 + 4 * n4 + n1 + 1;
            DayNumber(MonthDay(y, 1, r1)) == 146097 * n400 + 36524 * n100 + 1461 * n4 + 365 * n1 + r1
  {
    var y := 400 * n400 + 100 * n100 + 4 * n4 + n1 + 1;
    assert DaysBeforeYear(y) == 146097 * n400 + 36524 * n100 + 1461 * n4 + 365 * n1 by {
      DaysBeforeYearFormula(y);
      PeriodDecomposition(n400, n100, n4, n1);
    }
  }

  /** The date found for day number `n` has day number `n`. */
  lemma DayNumberRoundTrip(n: int)
    ensures DayNumber(CivilFromDayNumber(n)) == n
  {
    var n400, r400 := n / 146097, n % 146097;
    var n100, r100 := r400 / 36524, r400 % 36524;
    var n4, r4 := r100 / 1461, r100 % 1461;
    var n1, r1 := r4 / 365, r4 % 365;
    assert n == 146097 * n400 + 36524 * n100 + 1461 * n4 + 365 * n1 + r1;
    if n100 == 4 {
      assert CivilFromDayNumber(n) == Date(400 * n400 + 400, 12, 31);
      LastDayOf400Years(n400);
    } else if n1 == 4 {
      assert CivilFromDayNumber(n) == Date(400 * n400 + 100 * n100 + 4 * n4 + 4, 12, 31);
      LastDayOf4Years(n400, n100, n4);
    } else {
      assert CivilFromDayNumber(n) == MonthDay(400 * n400 + 100 * n100 + 4 * n4 + n1 + 1, 1, r1);
      DayWithinYear(n400, n100, n4, n1, r1);
    }
  }

  /** Reading the broken-down time back as seconds since the epoch gives the input timestamp. */
  lemma ToUtcRoundTrip(timestamp: int)
    ensures EpochSeconds(ToUtc(timestamp)) == timestamp
  {
    var days, secs := timestamp / SecondsPerDay, timestamp % SecondsPerDay;
    var dt := ToUtc(timestamp);
    assert DayNumber(dt.date) == days + EpochDayNumber by {
      DayNumberRoundTrip(days + EpochDayNumber);
    }
    assert dt.hour * 3600 + dt.minute * 60 + dt.second == secs by {
      var rest := secs % 3600;
      assert secs == dt.hour * 3600 + rest;
      assert rest == dt.minute * 60 + dt.second;
    }
  }

  /**
   * The other direction of `ToUtcRoundTrip`: a valid UTC time is the one
   * found for its own seconds since the epoch, so no other valid time
   * stands for the same timestamp.
   */
  lemma ToUtcOfEpochSeconds(dt: DateTime)
    requires ValidDateTime(dt)
    ensures ToUtc(EpochSeconds(dt)) == dt
  {
    var t := EpochSeconds(dt);
    var days := DayNumber(dt.date) - EpochDayNumber;
    var rest := dt.minute * 60 + dt.second;
    var secs := dt.hour * 3600 + rest;
    assert t / SecondsPerDay == days && t % SecondsPerDay == secs by {
      SplitDays(days, secs);
    }
    assert secs / 3600 == dt.hour && secs % 3600 == rest by {
      SplitHours(dt.hour, rest);
    }
    assert rest / 60 == dt.minute && rest % 60 == dt.second by {
      SplitMinutes(dt.minute, dt.second);
    }
    CivilOfDayNumber(dt.date);
  }

  lemma SplitDays(q: int, r: int)
    requires 0 <= r < 86400
    ensures (q * 86400 + r) / 86400 == q && (q * 86400 + r) % 86400 == r
  {
  }

  lemma SplitHours(q: int, r: int)
    requires 0 <= r < 3600
    ensures (q * 3600 + r) / 3600 == q && (q * 3600 + r) % 3600 == r
  {
  }

  lemma SplitMinutes(q: int, r: int)
    requires 0 <= r < 60
    ensures (q * 60 + r) / 60 == q && (q * 60 + r) % 60 == r
  {
  }

  lemma DayOfYearBounds(d: Date)
    requires ValidDate(d)
    ensures 0 <= DaysBeforeMonth(d.year, d.month) + d.day - 1 < DaysInYear(d.year)
  {
  }

  /** A valid date falls between January 1 of its year and January 1 of the next. */
  lemma DateWithinYear(d: Date)
    requires ValidDate(d)
    ensures DaysBeforeYear(d.year) <= DayNumber(d) < DaysBeforeYear(d.year + 1)
  {
    DayOfYearBounds(d);
    DaysBeforeYearStep(d.year);
  }

  /** A month ends no later than any later month of the same year begins. */
  lemma MonthsDisjoint(y: int, m1: int, m2: int)
    requires 1 <= m1 < m2 <= 12
    ensures DaysBeforeMonth(y, m1) + DaysInMonth(y, m1) <= DaysBeforeMonth(y, m2)
  {
  }

  /** `a` comes before `b` in calendar order: by year, then month, then day. */
  predicate DateBefore(a: Date, b: Date) {
    || a.year < b.year
    || (a.year == b.year && a.month < b.month)
    || (a.year == b.year && a.month == b.month && a.day < b.day)
  }

  /** Day numbers follow calendar order. */
  lemma DayNumberOrder(a: Date, b: Date)
    requires ValidDate(a) && ValidDate(b) && DateBefore(a, b)
    ensures DayNumber(a) < DayNumber(b)
  {
    if a.year < b.year {
      DateWithinYear(a);
      DateWithinYear(b);
      DaysBeforeYearMonotone(a.year + 1, b.year);
    } else if a.month < b.month {
      MonthsDisjoint(a.year, a.month, b.month);
    }
  }

  /** Two valid dates have the same day number exactly when they are the same date. */
  lemma DayNumberInjective(a: Date, b: Date)
    requires ValidDate(a) && ValidDate(b)
    ensures DayNumber(a) == DayNumber(b) <==> a == b
  {
    if a != b {
      if DateBefore(a, b) {
        DayNumberOrder(a, b);
      } else {
        DayNumberOrder(b, a);
      }
    }
  }

  /**
   * The other direction of `DayNumberRoundTrip`: the date found for a valid
   * date's day number is that date, so the conversion is a bijection
   * between day numbers and valid dates.
   */
  lemma CivilOfDayNumber(d: Date)
    requires ValidDate(d)
    ensures CivilFromDayNumber(DayNumber(d)) == d
  {
    DayNumberRoundTrip(DayNumber(d));
    DayNumberInjective(CivilFromDayNumber(DayNumber(d)), d);
  }

  /** The days of the years 1 to 9999 are exactly the day numbers 0 to 3652058. */
  lemma DayNumberYearRange(n: int)
    ensures 1 <= CivilFromDayNumber(n).year <= 9999 <==> 0 <= n <= 3652058
  {
    var d := CivilFromDayNumber(n);
    DayNumberRoundTrip(n);
    DateYearRange(d);
  }

  /** A valid date lies in the years 1 to 9999 exactly when its day number is in 0 to 3652058. */
  lemma DateYearRange(d: Date)
    requires ValidDate(d)
    ensures 1 <= d.year <= 9999 <==> 0 <= DayNumber(d) <= 3652058
  {
    var y, n := d.year, DayNumber(d);
    assert DaysBeforeYear(y) <= n < DaysBeforeYear(y + 1) by {
      DateWithinYear(d);
    }
    assert DaysBeforeYear(10000) == 3652059 by {
      DaysBeforeYearFormula(10000);
    }
    if 1 <= y <= 9999 {
      assert DaysBeforeYear(1) <= DaysBeforeYear(y) by {
        DaysBeforeYearMonotone(1, y);
      }
      assert DaysBeforeYear(y + 1) <= DaysBeforeYear(10000) by {
        DaysBeforeYearMonotone(y + 1, 10000);
      }
    } else if y < 1 {
      assert DaysBeforeYear(y + 1) <= DaysBeforeYear(1) by {
        DaysBeforeYearMonotone(y + 1, 1);
      }
    } else {
      assert DaysBeforeYear(10000) <= DaysBeforeYear(y) by {
        DaysBeforeYearMonotone(10000, y);
      }
    }
  }

  /**
   * `convert_timestamp` succeeds exactly for the instants from
   * 0001-01-01 00:00:00 UTC to 9999-12-31 23:59:59 UTC.
   */
  lemma ConvertTimestampDomain(timestamp: int)
    ensures ConvertTimestamp(timestamp).Ok? <==> MinTimestamp <= timestamp <= MaxTimestamp
  {
    DayNumberYearRange(timestamp / SecondsPerDay + EpochDayNumber);
  }

  /** Reads `YYYY-MM-DD HH:MM:SS UTC` back into its fields. */
  function ParseUtc(s: string): Option<DateTime>
  {
    if && |s| == 23
       && AllDigits(s[0..4]) && s[4] == '-' && AllDigits(s[5..7]) && s[7] == '-' && AllDigits(s[8..10])
       && s[10] == ' '
       && AllDigits(s[11..13]) && s[13] == ':' && AllDigits(s[14..16]) && s[16] == ':' && AllDigits(s[17..19])
       && s[19..] == " UTC"
    then
      Some(DateTime(Date(DecimalValue(s[0..4]), DecimalValue(s[5..7]), DecimalValue(s[8..10])),
                    DecimalValue(s[11..13]), DecimalValue(s[14..16]), DecimalValue(s[17..19])))
    else
      None
  }

  /** The rendering is zero-padded to fixed width with fixed separators, so it reads back unchanged. */
  lemma FormatUtcRoundTrip(dt: DateTime)
    requires ValidDateTime(dt) && 1 <= dt.date.year <= 9999
    ensures ParseUtc(FormatUtc(dt)) == Some(dt)
  {
    FormatUtcDateFields(dt);
    FormatUtcTimeFields(dt);
    FormatUtcSuffix(dt);
  }

  lemma FormatUtcDateFields(dt: DateTime)
    requires ValidDateTime(dt) && 1 <= dt.date.year <= 9999
    ensures var s := FormatUtc(dt);
            && s[0..4] == ZeroPad(dt.date.year, 4) && s[4] == '-'
            && s[5..7] == ZeroPad(dt.date.month, 2) && s[7] == '-'
            && s[8..10] == ZeroPad(dt.date.day, 2) && s[10] == ' '
  {
    var s := FormatUtc(dt);
    assert s[0..4] == ZeroPad(dt.date.year, 4);
    assert s[5..7] == ZeroPad(dt.date.month, 2);
    assert s[8..10] == ZeroPad(dt.date.day, 2);
  }

  lemma FormatUtcTimeFields(dt: DateTime)
    requires ValidDateTime(dt) && 1 <= dt.date.year <= 9999
    ensures var s := FormatUtc(dt);
            && s[11..13] == ZeroPad(dt.hour, 2) && s[13] == ':'
            && s[14..16] == ZeroPad(dt.minute, 2) && s[16] == ':'
            && s[17..19] == ZeroPad(dt.second, 2)
  {
    var s := FormatUtc(dt);
    assert s[11..13] == ZeroPad(dt.hour, 2);
    assert s[14..16] == ZeroPad(dt.minute, 2);
    assert s[17..19] == ZeroPad(dt.second, 2);
  }

  lemma FormatUtcSuffix(dt: DateTime)
    requires ValidDateTime(dt) && 1 <= dt.date.year <= 9999
    ensures FormatUtc(dt)[19..] == " UTC"
  {
  }

  /**
   * For every timestamp in range, the text `convert_timestamp` returns
   * names a valid UTC time whose seconds since the epoch are the input.
   */
  lemma ConvertTimestampRoundTrip(timestamp: int)
    requires MinTimestamp <= timestamp <= MaxTimestamp
    ensures ConvertTimestamp(timestamp).Ok?
    ensures var parsed := ParseUtc(ConvertTimestamp(timestamp).value);
            parsed.Some? && ValidDateTime(parsed.value) && EpochSeconds(parsed.value) == timestamp
  {
    ConvertTimestampDomain(timestamp);
    FormatUtcRoundTrip(ToUtc(timestamp));
    ToUtcRoundTrip(timestamp);
  }

  /** The same round trip, stated for a text `convert_timestamp` returned. */
  lemma ConvertedTextRoundTrip(timestamp: int, text: string)
    requires ConvertTimestamp(timestamp) == Ok(text)
    ensures ParseUtc(text).Some? && ValidDateTime(ParseUtc(text).value)
    ensures EpochSeconds(ParseUtc(text).value) == timestamp
  {
    ConvertTimestampDomain(timestamp);
    ConvertTimestampRoundTrip(timestamp);
  }

  lemma FormatEpoch()
    ensures FormatUtc(DateTime(Date(1970, 1, 1), 0, 0, 0)) == "1970-01-01 00:00:00 UTC"
  {
    var dt := DateTime(Date(1970, 1, 1), 0, 0, 0);
    EpochFields();
    var s := FormatUtc(dt);
    var e := "1970-01-01 00:00:00 UTC";
    assert s[0] == e[0] && s[1] == e[1] && s[2] == e[2] && s[3] == e[3];
    assert s[5] == e[5] && s[6] == e[6] && s[8] == e[8] && s[9] == e[9];
    assert s[11] == e[11] && s[12] == e[12] && s[14] == e[14] && s[15] == e[15] && s[17] == e[17] && s[18] == e[18];
  }

  lemma EpochFields()
    ensures ZeroPad(1970, 4) == "1970" && ZeroPad(1, 2) == "01" && ZeroPad(0, 2) == "00"
  {
    assert ZeroPad(197, 3) == "197" by {
      assert ZeroPad(19, 2) == "19";
    }
  }

  /** The epoch itself, independent of any host time zone. */
  lemma ConvertTimestampEpoch()
    ensures ConvertTimestamp(0) == Ok("1970-01-01 00:00:00 UTC")
  {
    assert CivilFromDayNumber(EpochDayNumber) == Date(1970, 1, 1) by {
      assert EpochDayNumber / 146097 == 4 && EpochDayNumber % 146097 == 134774;
      assert 134774 / 36524 == 3 && 134774 % 36524 == 25202;
      assert 25202 / 1461 == 17 && 25202 % 1461 == 365;
      assert 365 / 365 == 1 && 365 % 365 == 0;
      assert MonthDay(1970, 1, 0) == Date(1970, 1, 1);
    }
    assert ToUtc(0) == DateTime(Date(1970, 1, 1), 0, 0, 0);
    FormatEpoch();
  }

  /**
   * Seconds since the Epoch as POSIX.1-2017, Base Definitions, section
   * 4.16 computes them from `tm_sec`, `tm_min`, `tm_hour`, `tm_yday` (day
   * of the year from 0) and `tm_year` (year minus 1900), with C's
   * truncating division; the standard states it for years from 1970 on.
   */
  function PosixSecondsSinceEpoch(tmSec: int, tmMin: int, tmHour: int, tmYday: int, tmYear: int): int
    requires tmYear >= 70
  {
    tmSec + tmMin * 60 + tmHour * 3600 + tmYday * 86400 + (tmYear - 70) * 31536000
    + ((tmYear - 69) / 4) * 86400 - ((tmYear - 1) / 100) * 86400 + ((tmYear + 299) / 400) * 86400
  }

  /** From 1970 on, the model's seconds since the epoch are the POSIX formula's. */
  lemma EpochSecondsMatchesPosix(dt: DateTime)
    requires ValidDateTime(dt) && dt.date.year >= 1970
    ensures var d := dt.date;
            EpochSeconds(dt)
            == PosixSecondsSinceEpoch(dt.second, dt.minute, dt.hour, DaysBeforeMonth(d.year, d.month) + d.day - 1, d.year - 1900)
  {
    var y := dt.date.year;
    var t := y - 1900;
    DaysBeforeYearFormula(y);
    assert (y - 1) / 4 == (t - 69) / 4 + 492;
    assert (y - 1) / 100 == (t - 1) / 100 + 19;
    assert (y - 1) / 400 == (t + 299) / 400 + 4;
  }
}
