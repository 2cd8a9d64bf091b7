/**
 * The part of ECMAScript's Date semantics that the liturgical calendar relies
 * on, on whole days. A time value is represented by its day number: day 0 is
 * 1970-01-01 (UTC), as in ECMAScript's Day(t). The milliseconds-per-day factor
 * is dropped: every time value the calendar builds is a UTC midnight, so
 * comparing or shifting day numbers is the same as comparing or shifting the
 * time values.
 */
module JsDate {

  /** JavaScript's `%` operator on integers: a truncated remainder, whose sign
      follows the dividend. */
  function Rem(x: int, y: int): (r: int)
    requires y > 0
    ensures -y < r < y
    ensures x >= 0 ==> r == x % y
    ensures x <= 0 ==> r <= 0 && r == -((-x) % y)
  {
    if x >= 0 then x % y else -((-x) % y)
  }

  /** ECMAScript InLeapYear, by the Gregorian rule. */
  predicate InLeapYear(y: int) {
    y % 4 == 0 && (y % 100 != 0 || y % 400 == 0)
  }

  /** ECMAScript DaysInYear. */
  function DaysInYear(y: int): int {
    if InLeapYear(y) then 366 else 365
  }

  /** ECMAScript DayFromYear: the day number of January 1 of year y. */
  function DayFromYear(y: int): int {
    365 * (y - 1970) + (y - 1969) / 4 - (y - 1901) / 100 + (y - 1601) / 400
  }

  /** The number of days of year y before the first day of month mn
      (0-based, as in JavaScript); DaysBeforeMonth(y, 12) is the whole year.
      In a common year this is 0, 31, 59, 90, 120, 151, 181, 212, 243, 273,
      304, 334, 365: from March on the months alternate 31 and 30 days in a
      5-month pattern of 153 days, which the division by 5 spells out. */
  function DaysBeforeMonth(y: int, mn: int): int
    requires 0 <= mn <= 12
  {
    if mn < 2 then 31 * mn
    else (153 * mn - 304) / 5 + 59 + (if InLeapYear(y) then 1 else 0)
  }

  /** The first day of each month, counted from January 1 (one day later from
      March on in a leap year). */
  lemma MonthStarts(y: int)
    ensures var L := if InLeapYear(y) then 1 else 0;
      && DaysBeforeMonth(y, 0) == 0 && DaysBeforeMonth(y, 1) == 31
      && DaysBeforeMonth(y, 2) == 59 + L && DaysBeforeMonth(y, 3) == 90 + L
      && DaysBeforeMonth(y, 4) == 120 + L && DaysBeforeMonth(y, 5) == 151 + L
      && DaysBeforeMonth(y, 6) == 181 + L && DaysBeforeMonth(y, 7) == 212 + L
      && DaysBeforeMonth(y, 8) == 243 + L && DaysBeforeMonth(y, 9) == 273 + L
      && DaysBeforeMonth(y, 10) == 304 + L && DaysBeforeMonth(y, 11) == 334 + L
      && DaysBeforeMonth(y, 12) == 365 + L
  {
  }

  /** No month starts after the end of the year. */
  lemma DaysBeforeMonthBound(y: int, mn: int)
    requires 0 <= mn <= 12
    ensures DaysBeforeMonth(y, mn) <= DaysBeforeMonth(y, 12)
  {
  }

  /** The number of days of month m (1-based) of year y. */
  function DaysInMonth(y: int, m: int): (n: int)
    requires 1 <= m <= 12
    ensures 28 <= n <= 31
    ensures n == 29 <==> m == 2 && InLeapYear(y)
  {
    DaysBeforeMonth(y, m) - DaysBeforeMonth(y, m - 1)
  }

  /** A year is one day longer than the previous year's start-to-start span
      exactly when it is a leap year. */
  lemma {:induction false} NextYear(y: int)
    ensures DayFromYear(y + 1) == DayFromYear(y) + DaysInYear(y)
    ensures DaysInYear(y) == DaysBeforeMonth(y, 12)
  {
    StepAt4(y);
    StepAt100(y);
    StepAt400(y);
    DivisorChain(y);
    var s4 := if y % 4 == 0 then 1 else 0;
    var s100 := if y % 100 == 0 then 1 else 0;
    var s400 := if y % 400 == 0 then 1 else 0;
    assert DayFromYear(y + 1) == DayFromYear(y) + 365 + s4 - s100 + s400;
    assert s4 - s100 + s400 == if InLeapYear(y) then 1 else 0;
  }

  /** A multiple of 400 is a multiple of 100, which is a multiple of 4. */
  lemma DivisorChain(y: int)
    ensures y % 400 == 0 ==> y % 100 == 0
    ensures y % 100 == 0 ==> y % 4 == 0
  {
    var q400, q100 := y / 400, y / 100;
    assert y == 400 * q400 + y % 400 && y == 100 * q100 + y % 100;
    if y % 400 == 0 {
      assert y % 100 == (100 * (4 * q400)) % 100 == 0;
    }
    if y % 100 == 0 {
      assert y % 4 == (4 * (25 * q100)) % 4 == 0;
    }
  }

  /** Stepping from y to y + 1, the leap-day count of DayFromYear goes up at
      multiples of 4 ... */
  lemma StepAt4(y: int)
    ensures (y - 1968) / 4 - (y - 1969) / 4 == if y % 4 == 0 then 1 else 0
  {
    var q, r := (y - 1969) / 4, (y - 1969) % 4;
    if r == 3 {
      assert y - 1968 == 4 * (q + 1);
    } else {
      assert y - 1968 == 4 * q + (r + 1);
    }
  }

  /** ... steps down at multiples of 100 ... */
  lemma StepAt100(y: int)
    ensures (y - 1900) / 100 - (y - 1901) / 100 == if y % 100 == 0 then 1 else 0
  {
    var q, r := (y - 1901) / 100, (y - 1901) % 100;
    if r == 99 {
      assert y - 1900 == 100 * (q + 1);
    } else {
      assert y - 1900 == 100 * q + (r + 1);
    }
  }

  /** ... and steps up again at multiples of 400. */
  lemma StepAt400(y: int)
    ensures (y - 1600) / 400 - (y - 1601) / 400 == if y % 400 == 0 then 1 else 0
  {
    var q, r := (y - 1601) / 400, (y - 1601) % 400;
    if r == 399 {
      assert y - 1600 == 400 * (q + 1);
    } else {
      assert y - 1600 == 400 * q + (r + 1);
    }
  }

  /** Every year is 365 or 366 days long. */
  lemma YearLength(y: int)
    ensures DayFromYear(y) + 365 <= DayFromYear(y + 1) <= DayFromYear(y) + 366
  {
    NextYear(y);
  }

  /** DayFromYear is strictly increasing. */
  lemma {:induction false} DayFromYearMonotone(y1: int, y2: int)
    requires y1 < y2
    ensures DayFromYear(y1 + 1) <= DayFromYear(y2)
    decreases y2 - y1
  {
    if y1 + 1 < y2 {
      DayFromYearMonotone(y1 + 1, y2);
      NextYear(y1 + 1);
    }
  }

  /** January 1 of year y + 1 in closed form, for any y: with
      y == 100 * b + 4 * i + k and b == 4 * d + e, it is
      365 * (y - 1969) + 24 * b + i + d - 477. */
  lemma DayFromYearAfter(y: int)
    ensures DayFromYear(y + 1)
         == 365 * (y - 1969) + 24 * (y / 100) + (y % 100) / 4 + (y / 100) / 4 - 477
  {
    var b, c := y / 100, y % 100;
    var d, e := b / 4, b % 4;
    var i, k := c / 4, c % 4;
    assert y - 1968 == 4 * (25 * b + i - 492) + k;
    assert (y - 1968) / 4 == 25 * b + i - 492;
    assert y - 1900 == 100 * (b - 19) + c;
    assert (y - 1900) / 100 == b - 19;
    assert y - 1600 == 400 * (d - 4) + (100 * e + c);
    assert (y - 1600) / 400 == d - 4;
  }

  /** ECMAScript MakeDay(year, month, date) on integer arguments: the month
      may lie outside 0..11 and carries into the year; the date may lie
      outside the month and carries into the following or earlier months. */
  function MakeDay(year: int, month: int, date: int): int {
    var ym := year + month / 12;
    var mn := month % 12;
    DayFromYear(ym) + DaysBeforeMonth(ym, mn) + date - 1
  }

  /** Date.UTC(year, month, date) as a day number. A year from 0 to 99 is read
      as 1900 + year (MakeFullYear). */
  function Utc(year: int, month: int, date: int): int {
    MakeDay(MakeFullYear(year), month, date)
  }

  /** ECMAScript MakeFullYear: Date.UTC reads a year from 0 to 99 as 1900 + year. */
  function MakeFullYear(year: int): int {
    if 0 <= year <= 99 then 1900 + year else year
  }

  /** MakeDay with a month from 0 to 11: the month does not carry. */
  lemma MakeDayInYear(year: int, month: int, date: int)
    requires 0 <= month <= 11
    ensures MakeDay(year, month, date) == DayFromYear(year) + DaysBeforeMonth(year, month) + date - 1
  {
    assert month / 12 == 0 && month % 12 == month;
  }

  /** Date.UTC with a month from 0 to 11: the month does not carry. */
  lemma UtcInYear(year: int, month: int, date: int)
    requires 0 <= month <= 11
    ensures Utc(year, month, date)
         == DayFromYear(MakeFullYear(year)) + DaysBeforeMonth(MakeFullYear(year), month) + date - 1
  {
    MakeDayInYear(MakeFullYear(year), month, date);
  }

  /** ECMAScript WeekDay, as returned by getUTCDay: 0 is Sunday. */
  function WeekDay(t: int): (w: int)
    ensures 0 <= w <= 6
  {
    (t + 4) % 7
  }

  /** Moving n days moves the weekday by n, modulo 7. */
  lemma WeekDayShift(t: int, n: int)
    ensures WeekDay(t + n) == (WeekDay(t) + n) % 7
  {
    var q := (t + 4) / 7;
    assert t + 4 == 7 * q + WeekDay(t);
    assert t + n + 4 == 7 * q + (WeekDay(t) + n);
  }

  /** Walks up from year y, which starts on or before day t, to the year holding t. */
  function YearSearchUp(t: int, y: int): (r: int)
    requires DayFromYear(y) <= t
    ensures DayFromYear(r) <= t < DayFromYear(r + 1)
    decreases t - DayFromYear(y)
  {
    var next := DayFromYear(y + 1);
    if t < next then y
    else
      YearLength(y);
      YearSearchUp(t, y + 1)
  }

  /** A year that starts before day t: two years below the estimate from the
      mean Gregorian year of 146097 / 400 days. */
  function YearBelow(t: int): (y: int)
    ensures DayFromYear(y) <= t
  {
    var q := (400 * t) / 146097;
    var n := q - 2;
    assert 146097 * q <= 400 * t;
    assert 4 * ((n + 1) / 4) <= n + 1;
    assert 100 * ((n + 69) / 100) > n - 31;
    assert 400 * ((n + 369) / 400) <= n + 369;
    1970 + n
  }

  /** ECMAScript YearFromTime, as returned by getUTCFullYear: the year whose
      span holds day t, found by walking up from a year that starts before t. */
  function YearFromTime(t: int): (y: int)
    ensures DayFromYear(y) <= t < DayFromYear(y + 1)
  {
    YearSearchUp(t, YearBelow(t))
  }

  /** YearFromTime is the only year whose span holds t. */
  lemma YearFromTimeUnique(t: int, y: int)
    requires DayFromYear(y) <= t < DayFromYear(y + 1)
    ensures YearFromTime(t) == y
  {
    var r := YearFromTime(t);
    if r < y {
      DayFromYearMonotone(r, y);
    } else if y < r {
      DayFromYearMonotone(y, r);
    }
  }

  /** ECMAScript DayWithinYear. */
  function DayWithinYear(t: int): (n: int)
    ensures 0 <= n < DaysBeforeMonth(YearFromTime(t), 12)
  {
    var y := YearFromTime(t);
    NextYear(y);
    t - DayFromYear(y)
  }

  /** Walks the months of year y from mn on to the one holding day n of the year. */
  function MonthSearch(y: int, n: int, mn: int): (r: int)
    requires 0 <= mn <= 11
    requires DaysBeforeMonth(y, mn) <= n < DaysBeforeMonth(y, 12)
    ensures mn <= r <= 11
    ensures DaysBeforeMonth(y, r) <= n < DaysBeforeMonth(y, r + 1)
    decreases 11 - mn
  {
    if n < DaysBeforeMonth(y, mn + 1) then mn else MonthSearch(y, n, mn + 1)
  }

  /** ECMAScript MonthFromTime, as returned by getUTCMonth (0-based). */
  function MonthFromTime(t: int): (mn: int)
    ensures 0 <= mn <= 11
    ensures DaysBeforeMonth(YearFromTime(t), mn) <= DayWithinYear(t)
                                                < DaysBeforeMonth(YearFromTime(t), mn + 1)
  {
    MonthSearch(YearFromTime(t), DayWithinYear(t), 0)
  }

  /** ECMAScript DateFromTime, as returned by getUTCDate. */
  function DateFromTime(t: int): (dt: int)
    ensures 1 <= dt <= DaysInMonth(YearFromTime(t), MonthFromTime(t) + 1)
  {
    DayWithinYear(t) - DaysBeforeMonth(YearFromTime(t), MonthFromTime(t)) + 1
  }

  /** Only one month of a year holds a given day of that year. */
  lemma MonthUnique(y: int, n: int, m1: int, m2: int)
    requires 0 <= m1 <= 11 && 0 <= m2 <= 11
    requires DaysBeforeMonth(y, m1) <= n < DaysBeforeMonth(y, m1 + 1)
    requires DaysBeforeMonth(y, m2) <= n < DaysBeforeMonth(y, m2 + 1)
    ensures m1 == m2
  {
  }

  /** A valid civil date: a month from 1 to 12 and a day inside that month. */
  predicate ValidCivil(year: int, month: int, day: int) {
    1 <= month <= 12 && 1 <= day <= DaysInMonth(year, month)
  }

  /** Reading back a date built by Date.UTC from a valid civil date gives the
      date back, unless the year is one that Date.UTC moves into the 1900s. */
  lemma {:induction false} UtcRoundTrip(year: int, month: int, day: int)
    requires ValidCivil(year, month, day) && !(0 <= year <= 99)
    ensures YearFromTime(Utc(year, month - 1, day)) == year
    ensures MonthFromTime(Utc(year, month - 1, day)) == month - 1
    ensures DateFromTime(Utc(year, month - 1, day)) == day
  {
    var t := Utc(year, month - 1, day);
    UtcInYear(year, month - 1, day);
    assert MakeFullYear(year) == year;
    DaysBeforeMonthBound(year, month);
    NextYear(year);
    YearFromTimeUnique(t, year);
    var y, n := YearFromTime(t), DayWithinYear(t);
    assert y == year && n == DaysBeforeMonth(year, month - 1) + day - 1;
    assert n < DaysBeforeMonth(year, month);
    MonthUnique(y, n, MonthFromTime(t), month - 1);
  }
}
