/** The DateTime class of the DS1307 driver: calendar arithmetic on dates from
    2000-01-01 on, with every year divisible by 4 a leap year, and conversions
    to and from seconds since 2000 and Unix time.

    Fields are the driver's `uint8_t`s and `uint16_t`s as naturals, with the
    driver's truncations written out where they can happen. */
module Calendar {

  const SecondsPerDay: nat := 86400
  const SecondsFrom1970To2000: nat := 946684800

  /** The driver's PROGMEM table of month lengths in a common year. */
  const DaysInMonth: seq<nat> := [31, 28, 31, 30, 31, 30, 31, 31, 30, 31, 30, 31]

  /** The stored fields: year offset from 2000, month, day, hour, minute, second. */
  datatype DateTime = DateTime(yOff: nat, m: nat, d: nat, hh: nat, mm: nat, ss: nat)

  predicate IsLeap(yOff: nat)
  {
    yOff % 4 == 0
  }

  function YearLength(yOff: nat): nat
  {
    if IsLeap(yOff) then 366 else 365
  }

  /** Length of month `m` (1-12), February having 29 days in a leap year. */
  function MonthLength(m: nat, leap: bool): nat
    requires 1 <= m <= 12
  {
    DaysInMonth[m - 1] + (if leap && m == 2 then 1 else 0)
  }

  /** Days from 2000-01-01 to the first of January of year `2000 + yOff`. */
  function DaysBeforeYear(yOff: nat): nat
  {
    if yOff == 0 then 0 else DaysBeforeYear(yOff - 1) + YearLength(yOff - 1)
  }

  /** Days from the first of January to the first of month `m` (1-13). */
  function DaysBeforeMonth(m: nat, leap: bool): nat
    requires 1 <= m <= 13
  {
    if m == 1 then 0 else DaysBeforeMonth(m - 1, leap) + MonthLength(m - 1, leap)
  }

  /** The sum of the first `k` entries of the month table: date2days's loop. */
  function TableSum(k: nat): nat
    requires k <= 12
  {
    if k == 0 then 0 else TableSum(k - 1) + DaysInMonth[k - 1]
  }

  /** date2days: days since 2000-01-01, from a year (2000 is subtracted when the
      year is at least 2000), a month and a day; the result is a `uint16_t`.
      The table is read for every month below `m`, so `m` is at most 13. */
  function Date2Days(y: nat, m: nat, d: nat): (days: nat)
    requires y < 0x1_0000 && m <= 13 && d < 0x100
    ensures days < 0x1_0000
  {
    var y' := if y >= 2000 then y - 2000 else y;
    var sum := d + TableSum(if m >= 1 then m - 1 else 0) + (if m > 2 && y' % 4 == 0 then 1 else 0);
    (sum + 365 * y' + (y' + 3) / 4 - 1) % 0x1_0000
  }

  /** `(y + 3) / 4` counts the leap years before year `y`. */
  lemma {:induction false} DaysBeforeYearClosed(yOff: nat)
    ensures DaysBeforeYear(yOff) == 365 * yOff + (yOff + 3) / 4
  {
    if yOff > 0 {
      DaysBeforeYearClosed(yOff - 1);
    }
  }

  /** The table sum plus the leap day after February is the days before the month. */
  lemma {:induction false} TableSumIsDaysBeforeMonth(m: nat, leap: bool)
    requires 1 <= m <= 13
    ensures DaysBeforeMonth(m, leap) == TableSum(m - 1) + (if leap && m > 2 then 1 else 0)
  {
    if m > 1 {
      TableSumIsDaysBeforeMonth(m - 1, leap);
    }
  }

  /** The running sums of the month table. */
  lemma TableSumValues(k: nat)
    requires k <= 12
    ensures TableSum(k) == [0, 31, 59, 90, 120, 151, 181, 212, 243, 273, 304, 334, 365][k]
  {
    assert TableSum(0) == 0;
    assert TableSum(1) == 31;
    assert TableSum(2) == 59;
    assert TableSum(3) == 90;
    assert TableSum(4) == 120;
    assert TableSum(5) == 151;
    assert TableSum(6) == 181;
    assert TableSum(7) == 212;
    assert TableSum(8) == 243;
    assert TableSum(9) == 273;
    assert TableSum(10) == 304;
    assert TableSum(11) == 334;
    assert TableSum(12) == 365;
  }

  /** date2days counts the days since 2000-01-01: the days of the years before,
      of the months before, and of the month up to the day before `d`, as long
      as that count fits the `uint16_t` result. */
  lemma Date2DaysCounts(y: nat, m: nat, d: nat)
    requires y < 0x1_0000 && 1 <= m <= 13 && 1 <= d < 0x100
    requires var y' := if y >= 2000 then y - 2000 else y; DaysBeforeYear(y') + 366 + 0x100 <= 0x1_0000
    ensures var y' := if y >= 2000 then y - 2000 else y;
            Date2Days(y, m, d) == DaysBeforeYear(y') + DaysBeforeMonth(m, IsLeap(y')) + d - 1
  {
    var y' := if y >= 2000 then y - 2000 else y;
    DaysBeforeYearClosed(y');
    TableSumIsDaysBeforeMonth(m, IsLeap(y'));
    TableSumBound(m - 1);
    var raw := d + TableSum(m - 1) + (if m > 2 && y' % 4 == 0 then 1 else 0) + 365 * y' + (y' + 3) / 4 - 1;
    assert DaysBeforeYear(y') + DaysBeforeMonth(m, IsLeap(y')) + d - 1 == raw;
    assert 0 <= raw < 0x1_0000;
    assert Date2Days(y, m, d) == raw % 0x1_0000 == raw;
  }

  lemma TableSumBound(k: nat)
    requires k <= 12
    ensures TableSum(k) <= 365
  {
    TableSumValues(k);
  }

  /** date2days of 2000-01-01 is 0, and the second of January 2001 is day 367. */
  lemma Date2DaysExamples()
    ensures Date2Days(2000, 1, 1) == 0
    ensures Date2Days(0, 1, 1) == 0
    ensures Date2Days(2001, 1, 2) == 367
    ensures Date2Days(2000, 3, 1) == 60
  {
  }

  /** time2long: seconds of `days` days and a time of day, in a signed 32-bit
      `long`; larger values would overflow. */
  function TimeToLong(days: nat, h: nat, m: nat, s: nat): (t: nat)
    requires ((days * 24 + h) * 60 + m) * 60 + s < 0x8000_0000
    ensures t < 0x8000_0000
    ensures h < 24 && m < 60 && s < 60 ==> t % 60 == s && t / 60 % 60 == m && t / 60 / 60 % 24 == h && t / 60 / 60 / 24 == days
  {
    if h < 24 && m < 60 && s < 60 then
      MixedRadixDigits(days, h, m, s);
      ((days * 24 + h) * 60 + m) * 60 + s
    else
      ((days * 24 + h) * 60 + m) * 60 + s
  }

  /** What a loop that counts off whole years or months leaves: the year (or
      month) reached and the days left over in it. */
  datatype Split = Split(whole: nat, rest: nat)

  /** The year loop of `DateTime(uint32_t)`: whole years are taken off `days`
      from year offset `yOff` on while they fit. */
  function YearSplit(days: nat, yOff: nat): Split
    decreases days
  {
    if days < YearLength(yOff) then Split(yOff, days) else YearSplit(days - YearLength(yOff), yOff + 1)
  }

  /** The days of months `m..12`. */
  function DaysFromMonth(m: nat, leap: bool): nat
    requires 1 <= m <= 13
    decreases 13 - m
  {
    if m == 13 then 0 else MonthLength(m, leap) + DaysFromMonth(m + 1, leap)
  }

  /** The months before `m` and the months from `m` on make up the year. */
  lemma {:induction false} MonthsMakeYear(m: nat, leap: bool)
    requires 1 <= m <= 13
    ensures DaysBeforeMonth(m, leap) + DaysFromMonth(m, leap) == DaysBeforeMonth(13, leap)
    decreases 13 - m
  {
    if m < 13 {
      MonthsMakeYear(m + 1, leap);
    }
  }

  /** The month loop: whole months are taken off `days` from month `m` on while they fit. */
  function MonthSplit(days: nat, m: nat, leap: bool): (r: Split)
    requires 1 <= m <= 12
    requires days < DaysFromMonth(m, leap)
    ensures m <= r.whole <= 12
    decreases 13 - m
  {
    if days < MonthLength(m, leap) then Split(m, days)
    else MonthSplit(days - MonthLength(m, leap), m + 1, leap)
  }

  /** A common year has 365 days and a leap year 366, month by month. */
  lemma YearOfMonths(yOff: nat)
    ensures DaysFromMonth(1, IsLeap(yOff)) == YearLength(yOff)
  {
    MonthsMakeYear(1, IsLeap(yOff));
    TableSumIsDaysBeforeMonth(13, IsLeap(yOff));
    TableSumValues(12);
  }

  /** The year loop stops at the year the day falls in: the days of the years
      skipped plus what is left is the days it started from. */
  lemma {:induction false} YearSplitSpec(days: nat, yOff: nat)
    ensures yOff <= YearSplit(days, yOff).whole <= yOff + days / 365
    ensures DaysBeforeYear(YearSplit(days, yOff).whole) + YearSplit(days, yOff).rest == DaysBeforeYear(yOff) + days
    ensures YearSplit(days, yOff).rest < YearLength(YearSplit(days, yOff).whole)
    decreases days
  {
    if days >= YearLength(yOff) {
      YearSplitSpec(days - YearLength(yOff), yOff + 1);
    }
  }

  /** The month loop stops inside the month it reaches. */
  lemma {:induction false} MonthSplitStops(days: nat, m: nat, leap: bool)
    requires 1 <= m <= 12
    requires days < DaysFromMonth(m, leap)
    ensures MonthSplit(days, m, leap).rest < MonthLength(MonthSplit(days, m, leap).whole, leap)
    decreases 13 - m
  {
    if days >= MonthLength(m, leap) {
      MonthSplitStops(days - MonthLength(m, leap), m + 1, leap);
    }
  }

  /** The days of the months skipped plus what is left is the days the month
      loop started from. */
  lemma {:induction false} MonthSplitCounts(days: nat, m: nat, leap: bool)
    requires 1 <= m <= 12
    requires days < DaysFromMonth(m, leap)
    ensures DaysBeforeMonth(MonthSplit(days, m, leap).whole, leap) + MonthSplit(days, m, leap).rest
              == DaysBeforeMonth(m, leap) + days
    decreases 13 - m
  {
    if days >= MonthLength(m, leap) {
      MonthSplitCounts(days - MonthLength(m, leap), m + 1, leap);
    }
  }

  /** A calendar date: year offset from 2000, month and day. */
  datatype Date = Date(yOff: nat, m: nat, d: nat)

  /** The date part of `DateTime(uint32_t)`: the date `days` days after 2000-01-01. */
  function DateOfDays(days: nat): Date
  {
    var ys := YearSplit(days, 0);
    YearSplitFits(days);
    var ms := MonthSplit(ys.rest, 1, IsLeap(ys.whole));
    Date(ys.whole, ms.whole, ms.rest + 1)
  }

  /** What the year loop leaves is less than a year, counted month by month. */
  lemma YearSplitFits(days: nat)
    ensures YearSplit(days, 0).rest < DaysFromMonth(1, IsLeap(YearSplit(days, 0).whole))
  {
    YearSplitSpec(days, 0);
    YearOfMonths(YearSplit(days, 0).whole);
  }

  /** The decomposed date is a real date, and it is the day counted. */
  lemma DateOfDaysSpec(days: nat)
    ensures var date := DateOfDays(days);
            && 1 <= date.m <= 12 && 1 <= date.d <= MonthLength(date.m, IsLeap(date.yOff))
            && date.yOff <= days / 365
            && DaysBeforeYear(date.yOff) + DaysBeforeMonth(date.m, IsLeap(date.yOff)) + date.d - 1 == days
  {
    YearSplitSpec(days, 0);
    var ys := YearSplit(days, 0);
    YearOfMonths(ys.whole);
    MonthSplitStops(ys.rest, 1, IsLeap(ys.whole));
    MonthSplitCounts(ys.rest, 1, IsLeap(ys.whole));
  }

  /** Seconds since 2000-01-01 of Unix time `t`, as the driver's unsigned
      32-bit subtraction computes them (wrapping below the year 2000). */
  function SinceEpoch2000(t: nat): nat
  {
    (t - SecondsFrom1970To2000) % 0x1_0000_0000
  }

  /** `DateTime(uint32_t t)`: Unix time to fields. */
  function FromUnix(t: nat): (dt: DateTime)
    requires t < 0x1_0000_0000
    ensures dt.hh < 24 && dt.mm < 60 && dt.ss < 60
  {
    var t0 := SinceEpoch2000(t);
    var ss := t0 % 60;
    var t1 := t0 / 60;
    var mm := t1 % 60;
    var t2 := t1 / 60;
    var hh := t2 % 24;
    var date := DateOfDays(t2 / 24);
    DateTime(date.yOff, date.m, date.d, hh, mm, ss)
  }

  /** Every time decomposes into a valid date and time of day. */
  lemma FromUnixRanges(t: nat)
    requires t < 0x1_0000_0000
    ensures var dt := FromUnix(t);
            && 1 <= dt.m <= 12
            && 1 <= dt.d <= MonthLength(dt.m, IsLeap(dt.yOff))
            && dt.hh < 24 && dt.mm < 60 && dt.ss < 60
            && dt.yOff <= 136
  {
    DateOfDaysSpec(SinceEpoch2000(t) / 60 / 60 / 24);
  }

  /** The field ranges of a date and time of day the driver can take apart and
      put back together; `yOff` below 68 keeps the seconds since 2000 inside a
      signed 32-bit `long`. */
  predicate ValidDateTime(dt: DateTime)
  {
    && dt.yOff < 68
    && 1 <= dt.m <= 12 && 1 <= dt.d <= MonthLength(dt.m, IsLeap(dt.yOff))
    && dt.hh < 24 && dt.mm < 60 && dt.ss < 60
  }

  /** What secondstime needs of the fields: byte-sized, a month date2days can
      index its table with, and a count of seconds a `long` holds. */
  predicate Countable(dt: DateTime)
  {
    && dt.yOff < 0x100 && dt.m <= 13 && dt.d < 0x100
    && ((Date2Days(dt.yOff, dt.m, dt.d) * 24 + dt.hh) * 60 + dt.mm) * 60 + dt.ss < 0x8000_0000
  }

  /** secondstime: seconds since 2000-01-01 00:00:00. */
  function SecondsTime(dt: DateTime): (t: nat)
    requires Countable(dt)
    ensures t < 0x8000_0000
  {
    TimeToLong(Date2Days(dt.yOff, dt.m, dt.d), dt.hh, dt.mm, dt.ss)
  }

  /** unixtime: seconds since 1970-01-01, as a `uint32_t`. The `long` addition
      is taken to wrap as two's-complement arithmetic does. */
  function Unixtime(dt: DateTime): (t: nat)
    requires Countable(dt)
    ensures t < 0x1_0000_0000
  {
    (SecondsTime(dt) + SecondsFrom1970To2000) % 0x1_0000_0000
  }

  /** dayOfWeek: 0 is Sunday. The day count always fits its `uint16_t`, since
      secondstime is below 2^31. */
  function DayOfWeek(dt: DateTime): (w: nat)
    requires Countable(dt)
    ensures w < 7
  {
    (SecondsTime(dt) / SecondsPerDay + 6) % 7
  }

  /** Seconds, minutes, hours and days are the digits of a mixed-radix number. */
  lemma MixedRadix(t: nat)
    ensures ((t / 60 / 60 / 24 * 24 + t / 60 / 60 % 24) * 60 + t / 60 % 60) * 60 + t % 60 == t
  {
  }

  /** A mixed-radix number with in-range digits gives its digits back. */
  lemma MixedRadixDigits(days: nat, hh: nat, mm: nat, ss: nat)
    requires hh < 24 && mm < 60 && ss < 60
    ensures var t := ((days * 24 + hh) * 60 + mm) * 60 + ss;
            && t % 60 == ss && t / 60 % 60 == mm && t / 60 / 60 % 24 == hh && t / 60 / 60 / 24 == days
  {
    var t1 := (days * 24 + hh) * 60 + mm;
    assert ((days * 24 + hh) * 60 + mm) * 60 + ss == t1 * 60 + ss;
    var t2 := days * 24 + hh;
    assert t1 == t2 * 60 + mm;
  }

  /** Below 2^31 seconds since 2000, unixtime does not wrap. */
  lemma UnixtimeAdds(dt: DateTime)
    requires Countable(dt)
    ensures Unixtime(dt) == SecondsTime(dt) + SecondsFrom1970To2000
  {
    var secs := SecondsTime(dt);
    assert secs < 0x8000_0000;
    assert Unixtime(dt) == (secs + SecondsFrom1970To2000) % 0x1_0000_0000;
  }

  /** The fields `DateTime(uint32_t)` produces, spelled out. */
  lemma FromUnixFields(t: nat)
    requires t < 0x1_0000_0000
    ensures var t0 := SinceEpoch2000(t);
            var date := DateOfDays(t0 / 60 / 60 / 24);
            FromUnix(t) == DateTime(date.yOff, date.m, date.d, t0 / 60 / 60 % 24, t0 / 60 % 60, t0 % 60)
  {
  }

  /** unixtime undoes `DateTime(uint32_t)` for every time from 2000-01-01 on
      whose seconds since 2000 fit a signed 32-bit `long`. */
  lemma UnixRoundTrip(t: nat)
    requires SecondsFrom1970To2000 <= t < SecondsFrom1970To2000 + 0x8000_0000
    ensures Countable(FromUnix(t)) && Unixtime(FromUnix(t)) == t
  {
    var t0 := SinceEpoch2000(t);
    assert t0 == t - SecondsFrom1970To2000;
    var days := t0 / 60 / 60 / 24;
    MixedRadix(t0);
    DateOfDaysSpec(days);
    var date := DateOfDays(days);
    DaysBeforeYearClosed(date.yOff);
    Date2DaysCounts(date.yOff, date.m, date.d);
    assert Date2Days(date.yOff, date.m, date.d) == days;
    var dt := FromUnix(t);
    FromUnixFields(t);
    assert dt.yOff == date.yOff && dt.m == date.m && dt.d == date.d;
    assert ((days * 24 + dt.hh) * 60 + dt.mm) * 60 + dt.ss == t0;
    assert Countable(dt);
    assert SecondsTime(dt) == t0;
    UnixtimeAdds(dt);
  }

  /** Days before a year grow with the year. */
  lemma DaysBeforeYearMono(a: nat, b: nat)
    requires a <= b
    ensures DaysBeforeYear(a) <= DaysBeforeYear(b)
  {
    DaysBeforeYearClosed(a);
    DaysBeforeYearClosed(b);
  }

  /** Started at year `y0`, the year loop lands in year `y` with `rest` days
      left whenever the count is the days from `y0` to that day. */
  lemma {:induction false} YearSplitAt(days: nat, y0: nat, y: nat, rest: nat)
    requires y0 <= y && rest < YearLength(y)
    requires days + DaysBeforeYear(y0) == DaysBeforeYear(y) + rest
    ensures YearSplit(days, y0) == Split(y, rest)
    decreases y - y0
  {
    if y0 < y {
      DaysBeforeYearMono(y0 + 1, y);
      YearSplitAt(days - YearLength(y0), y0 + 1, y, rest);
    }
  }

  /** Days before a month grow with the month. */
  lemma DaysBeforeMonthBound(m: nat, leap: bool)
    requires 1 <= m <= 12
    ensures DaysBeforeMonth(m, leap) + MonthLength(m, leap) <= DaysBeforeMonth(13, leap)
  {
    MonthsMakeYear(m + 1, leap);
  }

  /** A day of month `m` counted from month `m0` is within the months from `m0` on. */
  lemma MonthDayFits(days: nat, m0: nat, m: nat, rest: nat, leap: bool)
    requires 1 <= m0 <= m <= 12 && rest < MonthLength(m, leap)
    requires days + DaysBeforeMonth(m0, leap) == DaysBeforeMonth(m, leap) + rest
    ensures days < DaysFromMonth(m0, leap)
  {
    DaysBeforeMonthBound(m, leap);
    MonthsMakeYear(m0, leap);
  }

  /** Started at month `m0`, the month loop lands in month `m` with `rest`
      days left whenever the count is the days from `m0` to that day. */
  lemma {:induction false} MonthSplitAt(days: nat, m0: nat, m: nat, rest: nat, leap: bool)
    requires 1 <= m0 <= m <= 12 && rest < MonthLength(m, leap)
    requires days + DaysBeforeMonth(m0, leap) == DaysBeforeMonth(m, leap) + rest
    requires days < DaysFromMonth(m0, leap)
    ensures MonthSplit(days, m0, leap) == Split(m, rest)
    decreases m - m0
  {
    if m0 < m {
      DaysBeforeMonthMono(m0 + 1, m, leap);
      MonthDayFits(days - MonthLength(m0, leap), m0 + 1, m, rest, leap);
      MonthSplitAt(days - MonthLength(m0, leap), m0 + 1, m, rest, leap);
    }
  }

  lemma {:induction false} DaysBeforeMonthMono(a: nat, b: nat, leap: bool)
    requires 1 <= a <= b <= 13
    ensures DaysBeforeMonth(a, leap) <= DaysBeforeMonth(b, leap)
    decreases b - a
  {
    if a < b {
      DaysBeforeMonthMono(a, b - 1, leap);
    }
  }

  /** The day of a date within its year is less than the year's length. */
  lemma DayOfYearBound(date: Date)
    requires 1 <= date.m <= 12 && 1 <= date.d <= MonthLength(date.m, IsLeap(date.yOff))
    ensures DaysBeforeMonth(date.m, IsLeap(date.yOff)) + date.d - 1 < YearLength(date.yOff)
  {
    DaysBeforeMonthBound(date.m, IsLeap(date.yOff));
    YearOfMonths(date.yOff);
    MonthsMakeYear(1, IsLeap(date.yOff));
  }

  /** Decomposing the count of a date gives the date back. */
  lemma DateOfDaysAt(date: Date)
    requires 1 <= date.m <= 12 && 1 <= date.d <= MonthLength(date.m, IsLeap(date.yOff))
    ensures DateOfDays(DaysBeforeYear(date.yOff) + DaysBeforeMonth(date.m, IsLeap(date.yOff)) + date.d - 1) == date
  {
    var leap := IsLeap(date.yOff);
    var inYear := DaysBeforeMonth(date.m, leap) + date.d - 1;
    DayOfYearBound(date);
    var days := DaysBeforeYear(date.yOff) + inYear;
    YearSplitAt(days, 0, date.yOff, inYear);
    MonthDayFits(inYear, 1, date.m, date.d - 1, leap);
    MonthSplitAt(inYear, 1, date.m, date.d - 1, leap);
  }

  /** Taking 1970-2000 off a unixtime gives secondstime back. */
  lemma SinceEpochOfUnixtime(dt: DateTime)
    requires Countable(dt)
    ensures SinceEpoch2000(Unixtime(dt)) == SecondsTime(dt)
  {
    var secs := SecondsTime(dt);
    UnixtimeAdds(dt);
    assert SinceEpoch2000(secs + SecondsFrom1970To2000) == secs % 0x1_0000_0000;
  }

  /** date2days of a valid date is its day count, and stays below the first
      day of 2068. */
  lemma ValidDays(dt: DateTime)
    requires ValidDateTime(dt)
    ensures Date2Days(dt.yOff, dt.m, dt.d) == DaysBeforeYear(dt.yOff) + DaysBeforeMonth(dt.m, IsLeap(dt.yOff)) + dt.d - 1
    ensures Date2Days(dt.yOff, dt.m, dt.d) < 24837
  {
    DayOfYearBound(Date(dt.yOff, dt.m, dt.d));
    DaysBeforeYearClosed(dt.yOff);
    DaysBeforeYearMono(dt.yOff + 1, 68);
    DaysBeforeYearClosed(68);
    Date2DaysCounts(dt.yOff, dt.m, dt.d);
  }

  /** `DateTime(uint32_t)` undoes unixtime: every date and time from 2000 to
      2067 is rebuilt from its Unix time. */
  lemma UnixInverse(dt: DateTime)
    requires ValidDateTime(dt)
    ensures Countable(dt) && FromUnix(Unixtime(dt)) == dt
  {
    ValidDays(dt);
    var days := Date2Days(dt.yOff, dt.m, dt.d);
    MixedRadixDigits(days, dt.hh, dt.mm, dt.ss);
    var secs := ((days * 24 + dt.hh) * 60 + dt.mm) * 60 + dt.ss;
    assert Countable(dt);
    assert SecondsTime(dt) == secs;
    SinceEpochOfUnixtime(dt);
    var t := Unixtime(dt);
    assert SinceEpoch2000(t) == secs;
    DateOfDaysAt(Date(dt.yOff, dt.m, dt.d));
    assert DateOfDays(secs / 60 / 60 / 24) == Date(dt.yOff, dt.m, dt.d);
    FromUnixFields(t);
  }

  /** A time of day below 24:00:00 leaves the day count intact when
      secondstime is divided by the seconds of a day. */
  lemma DaysOfSeconds(days: nat, hh: nat, mm: nat, ss: nat)
    requires hh < 24 && mm < 60 && ss < 60
    ensures (((days * 24 + hh) * 60 + mm) * 60 + ss) / SecondsPerDay == days
  {
    var within := (hh * 60 + mm) * 60 + ss;
    assert ((days * 24 + hh) * 60 + mm) * 60 + ss == days * 86400 + within;
  }

  /** dayOfWeek is a weekday, 0 (Sunday) to 6, and it is the day count since
      2000-01-01, a Saturday, taken modulo the week. */
  lemma DayOfWeekSpec(dt: DateTime)
    requires Countable(dt) && dt.hh < 24 && dt.mm < 60 && dt.ss < 60
    ensures DayOfWeek(dt) < 7
    ensures DayOfWeek(dt) == (Date2Days(dt.yOff, dt.m, dt.d) + 6) % 7
  {
    DaysOfSeconds(Date2Days(dt.yOff, dt.m, dt.d), dt.hh, dt.mm, dt.ss);
  }

  /** 2000-01-01 and 2009-12-26 were Saturdays, 2024-01-01 a Monday. */
  lemma DayOfWeekExamples()
    ensures Countable(DateTime(0, 1, 1, 0, 0, 0)) && DayOfWeek(DateTime(0, 1, 1, 0, 0, 0)) == 6
    ensures Countable(DateTime(9, 12, 26, 12, 34, 56)) && DayOfWeek(DateTime(9, 12, 26, 12, 34, 56)) == 6
    ensures Countable(DateTime(24, 1, 1, 0, 0, 0)) && DayOfWeek(DateTime(24, 1, 1, 0, 0, 0)) == 1
  {
    TableSumValues(11);
    assert Date2Days(0, 1, 1) == 0;
    assert Date2Days(9, 12, 26) == 3647;
    assert Date2Days(24, 1, 1) == 8766;
    DayOfWeekSpec(DateTime(0, 1, 1, 0, 0, 0));
    DayOfWeekSpec(DateTime(9, 12, 26, 12, 34, 56));
    DayOfWeekSpec(DateTime(24, 1, 1, 0, 0, 0));
  }

  /** The field constructor: a year from 2000 on is stored as its offset, an
      earlier one as it is, in a `uint8_t`. */
  function FromFields(year: nat, month: nat, day: nat, hour: nat, min: nat, sec: nat): (dt: DateTime)
    requires year < 0x1_0000 && month < 0x100 && day < 0x100 && hour < 0x100 && min < 0x100 && sec < 0x100
    ensures dt.yOff < 0x100
    ensures 2000 <= year < 2256 ==> dt.yOff == year - 2000
  {
    DateTime((if year >= 2000 then year - 2000 else year) % 0x100, month, day, hour, min, sec)
  }

  /** year(): `2000 + yOff` as a `uint16_t`. */
  function Year(dt: DateTime): (year: nat)
    ensures year < 0x1_0000
    ensures dt.yOff < 0x100 ==> year == 2000 + dt.yOff
  {
    (2000 + dt.yOff) % 0x1_0000
  }

  /** The years 2000-2255 survive the field constructor; a two-digit year
      `y` below 256 is read as `2000 + y`. The other fields are kept. */
  lemma FromFieldsYear(year: nat, month: nat, day: nat, hour: nat, min: nat, sec: nat)
    requires year < 0x1_0000 && month < 0x100 && day < 0x100 && hour < 0x100 && min < 0x100 && sec < 0x100
    ensures 2000 <= year < 2256 ==> Year(FromFields(year, month, day, hour, min, sec)) == year
    ensures year < 0x100 ==> Year(FromFields(year, month, day, hour, min, sec)) == 2000 + year
    ensures var dt := FromFields(year, month, day, hour, min, sec);
            dt.m == month && dt.d == day && dt.hh == hour && dt.mm == min && dt.ss == sec
  {
  }

  predicate IsDigit(c: char)
  {
    '0' <= c <= '9'
  }

  /** The value of a digit character. Characters are taken as unsigned code
      points, while AVR's `char` is signed; the two agree on the ASCII of
      `__DATE__` and `__TIME__`. */
  function DigitValue(c: char): int
  {
    c as int - '0' as int
  }

  /** conv2d: two characters as a two-digit number; a first character that is
      not a digit (the space `__DATE__` pads single-digit days with) counts as
      0. The `int` result is truncated to a `uint8_t`. */
  function Conv2d(p: seq<char>): (v: nat)
    requires |p| >= 2
    ensures v < 0x100
  {
    var v := if IsDigit(p[0]) then DigitValue(p[0]) else 0;
    (10 * v + DigitValue(p[1])) % 0x100
  }

  /** Two digits read as their decimal value; a leading space as a single digit. */
  lemma Conv2dDigits(p: seq<char>)
    requires |p| >= 2 && (IsDigit(p[0]) || p[0] == ' ') && IsDigit(p[1])
    ensures Conv2d(p) < 100
    ensures Conv2d(p) == (if p[0] == ' ' then 0 else 10 * DigitValue(p[0])) + DigitValue(p[1])
  {
  }

  /** The month abbreviations of `__DATE__`. */
  const MonthNames: seq<string> := ["Jan", "Feb", "Mar", "Apr", "May", "Jun", "Jul", "Aug", "Sep", "Oct", "Nov", "Dec"]

  /** The month switch of the string constructor. A first letter that starts no
      month name leaves the month unassigned: `unset` is whatever it held. */
  function MonthOf(date: seq<char>, unset: nat): (m: nat)
    requires |date| >= 3
    ensures 1 <= m <= 12 || m == unset
  {
    match date[0]
    case 'J' => if date[1] == 'a' then 1 else if date[2] == 'n' then 6 else 7
    case 'F' => 2
    case 'A' => if date[2] == 'r' then 4 else 8
    case 'M' => if date[2] == 'r' then 3 else 5
    case 'S' => 9
    case 'O' => 10
    case 'N' => 11
    case 'D' => 12
    case _ => unset
  }

  /** Each of the twelve abbreviations selects its month. */
  lemma MonthOfNames(k: nat, unset: nat)
    requires k < 12
    ensures MonthOf(MonthNames[k], unset) == k + 1
  {
  }

  /** `DateTime(const char* date, const char* time)` for `__DATE__`
      ("Mmm dd yyyy") and `__TIME__` ("hh:mm:ss"); only the last two digits of
      the year are read. */
  function FromStrings(date: seq<char>, time: seq<char>, unset: nat): (dt: DateTime)
    requires |date| >= 11 && |time| >= 8
    ensures dt.yOff < 100 || !IsDigit(date[9]) || !IsDigit(date[10])
    ensures 1 <= dt.m <= 12 || dt.m == unset
    ensures dt.yOff < 0x100 && dt.d < 0x100 && dt.hh < 0x100 && dt.mm < 0x100 && dt.ss < 0x100
  {
    DateTime(Conv2d(date[9..]), MonthOf(date, unset), Conv2d(date[4..]),
             Conv2d(time), Conv2d(time[3..]), Conv2d(time[6..]))
  }

  /** The string constructor reads each field from its place in the strings. */
  lemma FromStringsReads(date: seq<char>, time: seq<char>, unset: nat, k: nat)
    requires |date| >= 11 && |time| >= 8 && k < 12 && date[..3] == MonthNames[k]
    requires (IsDigit(date[4]) || date[4] == ' ') && IsDigit(date[5]) && IsDigit(date[9]) && IsDigit(date[10])
    requires IsDigit(time[0]) && IsDigit(time[1]) && IsDigit(time[3]) && IsDigit(time[4])
    requires IsDigit(time[6]) && IsDigit(time[7])
    ensures var dt := FromStrings(date, time, unset);
            && dt.yOff == 10 * DigitValue(date[9]) + DigitValue(date[10])
            && dt.m == k + 1
            && dt.d == (if date[4] == ' ' then 0 else 10 * DigitValue(date[4])) + DigitValue(date[5])
            && dt.hh == 10 * DigitValue(time[0]) + DigitValue(time[1])
            && dt.mm == 10 * DigitValue(time[3]) + DigitValue(time[4])
            && dt.ss == 10 * DigitValue(time[6]) + DigitValue(time[7])
  {
    MonthOfNames(k, unset);
    assert MonthOf(date, unset) == MonthOf(MonthNames[k], unset);
    Conv2dDigits(date[9..]);
    Conv2dDigits(date[4..]);
    Conv2dDigits(time);
    Conv2dDigits(time[3..]);
    Conv2dDigits(time[6..]);
  }

  /** The constructor's own sample input, and a padded single-digit day. */
  lemma FromStringsExamples(unset: nat)
    ensures FromStrings("Dec 26 2009", "12:34:56", unset) == DateTime(9, 12, 26, 12, 34, 56)
    ensures FromStrings("Jan  1 2020", "00:00:00", unset) == DateTime(20, 1, 1, 0, 0, 0)
  {
    FromStringsReads("Dec 26 2009", "12:34:56", unset, 11);
    FromStringsReads("Jan  1 2020", "00:00:00", unset, 0);
  }
}
