/** Proleptic Gregorian calendar arithmetic: what JavaScript's `Date` computes
    for a date at local midnight, stated on calendar fields.

    Months are JavaScript month indexes (0 = January .. 11 = December).
    Days are numbered from 1 Jan 1 CE, which is day 1, so `DayNumber` is the
    ordinal ("Rata Die") of a date. */
module Gregorian {

  /** The year, month index and day-of-month fields of a JavaScript `Date`. */
  datatype CalendarDate = CalendarDate(year: int, month: int, day: int)

  /** `new Date(y, m, d)` and `Date.UTC(y, m, d)` read a year argument in
      0..99 as 1900..1999; every other year is taken as it is. */
  function MakeFullYear(y: int): (r: int)
    ensures r < 0 || r >= 100
    ensures (y < 0 || y >= 100) ==> r == y
    ensures 0 <= y <= 99 ==> r - y == 1900
  {
    if 0 <= y <= 99 then y + 1900 else y
  }

  predicate IsLeapYear(y: int)
  {
    y % 4 == 0 && (y % 100 != 0 || y % 400 == 0)
  }

  /** The last day of month `m`: what `new Date(y, m + 1, 0).getDate()` gives. */
  function DaysInMonth(y: int, m: int): (n: int)
    requires 0 <= m < 12
    ensures 28 <= n <= 31
    ensures m == 1 ==> (n == 29 <==> IsLeapYear(y)) && (n == 28 <==> !IsLeapYear(y))
    ensures m != 1 ==> (n == 30 <==> m == 3 || m == 5 || m == 8 || m == 10)
    ensures m != 1 && m != 3 && m != 5 && m != 8 && m != 10 ==> n == 31
  {
    if m == 1 then (if IsLeapYear(y) then 29 else 28)
    else if m == 3 || m == 5 || m == 8 || m == 10 then 30
    else 31
  }

  /** Days of year `y` that come before month `m`. */
  function DaysBeforeMonth(y: int, m: int): int
    requires 0 <= m <= 12
  {
    if m == 0 then 0 else DaysBeforeMonth(y, m - 1) + DaysInMonth(y, m - 1)
  }

  /** Days of the proleptic Gregorian calendar before 1 January of year `y`,
      counted from 1 Jan 1 CE (Euclidean division is floor division here,
      so this holds for years before 1 CE too). */
  function DaysBeforeYear(y: int): int
  {
    365 * (y - 1) + (y - 1) / 4 - (y - 1) / 100 + (y - 1) / 400
  }

  /** The ordinal of a date: 1 Jan 1 CE is day 1. */
  function DayNumber(y: int, m: int, d: int): int
    requires 0 <= m < 12
  {
    DaysBeforeYear(y) + DaysBeforeMonth(y, m) + d
  }

  /** What `getDay()` returns for the date: 0 = Sunday .. 6 = Saturday
      (1 Jan 1 CE, day 1, was a Monday). */
  function DayOfWeek(y: int, m: int, d: int): (w: int)
    requires 0 <= m < 12
    ensures 0 <= w < 7
  {
    DayNumber(y, m, d) % 7
  }

  /** A date whose fields a `Date` object can report. */
  predicate ValidDate(dt: CalendarDate)
  {
    0 <= dt.month < 12 && 1 <= dt.day <= DaysInMonth(dt.year, dt.month)
  }

  function Ordinal(dt: CalendarDate): int
    requires 0 <= dt.month < 12
  {
    DayNumber(dt.year, dt.month, dt.day)
  }

  /** The calendar date one day after `dt`. */
  function NextDay(dt: CalendarDate): (r: CalendarDate)
    requires ValidDate(dt)
    ensures ValidDate(r)
  {
    if dt.day < DaysInMonth(dt.year, dt.month) then CalendarDate(dt.year, dt.month, dt.day + 1)
    else if dt.month < 11 then CalendarDate(dt.year, dt.month + 1, 1)
    else CalendarDate(dt.year + 1, 0, 1)
  }

  /** A whole year has 365 days, or 366 in a leap year. */
  lemma YearLength(y: int)
    ensures DaysBeforeMonth(y, 12) == if IsLeapYear(y) then 366 else 365
  {
    var feb := DaysInMonth(y, 1);
    assert DaysBeforeMonth(y, 1) == 31;
    assert DaysBeforeMonth(y, 2) == 31 + feb;
    assert DaysBeforeMonth(y, 3) == 62 + feb;
    assert DaysBeforeMonth(y, 4) == 92 + feb;
    assert DaysBeforeMonth(y, 5) == 123 + feb;
    assert DaysBeforeMonth(y, 6) == 153 + feb;
    assert DaysBeforeMonth(y, 7) == 184 + feb;
    assert DaysBeforeMonth(y, 8) == 215 + feb;
    assert DaysBeforeMonth(y, 9) == 245 + feb;
    assert DaysBeforeMonth(y, 10) == 276 + feb;
    assert DaysBeforeMonth(y, 11) == 306 + feb;
  }

  /** The leap-year rule and the closed form of `DaysBeforeYear` agree:
      consecutive years start `DaysBeforeMonth(y, 12)` days apart. */
  lemma YearStart(y: int)
    ensures DaysBeforeYear(y + 1) == DaysBeforeYear(y) + DaysBeforeMonth(y, 12)
  {
    YearLength(y);
    QuotientStep4(y);
    QuotientStep100(y);
    QuotientStep400(y);
    Multiples(y);
    assert DaysBeforeYear(y + 1) - DaysBeforeYear(y) ==
      365 + (y / 4 - (y - 1) / 4) - (y / 100 - (y - 1) / 100) + (y / 400 - (y - 1) / 400);
  }

  lemma Multiples(y: int)
    ensures y % 400 == 0 ==> y % 100 == 0
    ensures y % 100 == 0 ==> y % 4 == 0
  {
    if y % 400 == 0 {
      var m := 4 * (y / 400);
      assert y == 100 * m;
      assert y / 100 == m;
    }
    if y % 100 == 0 {
      var m := 25 * (y / 100);
      assert y == 4 * m;
      assert y / 4 == m;
    }
  }

  /** The quotients by 4, 100 and 400 grow by one exactly at multiples. */
  lemma QuotientStep4(y: int)
    ensures y / 4 - (y - 1) / 4 == if y % 4 == 0 then 1 else 0
  {
    var q, r := (y - 1) / 4, (y - 1) % 4;
    assert y == 4 * q + r + 1;
    if r == 3 {
      assert y == 4 * (q + 1);
    } else {
      assert y / 4 == q && y % 4 == r + 1;
    }
  }

  lemma QuotientStep100(y: int)
    ensures y / 100 - (y - 1) / 100 == if y % 100 == 0 then 1 else 0
  {
    var q, r := (y - 1) / 100, (y - 1) % 100;
    assert y == 100 * q + r + 1;
    if r == 99 {
      assert y == 100 * (q + 1);
    } else {
      assert y / 100 == q && y % 100 == r + 1;
    }
  }

  lemma QuotientStep400(y: int)
    ensures y / 400 - (y - 1) / 400 == if y % 400 == 0 then 1 else 0
  {
    var q, r := (y - 1) / 400, (y - 1) % 400;
    assert y == 400 * q + r + 1;
    if r == 399 {
      assert y == 400 * (q + 1);
    } else {
      assert y / 400 == q && y % 400 == r + 1;
    }
  }

  /** Day numbers are consecutive across day, month and year boundaries. */
  lemma NextDayNumber(dt: CalendarDate)
    requires ValidDate(dt)
    ensures Ordinal(NextDay(dt)) == Ordinal(dt) + 1
  {
    if dt.day == DaysInMonth(dt.year, dt.month) && dt.month == 11 {
      YearStart(dt.year);
    }
  }

  /** Within a month, the weekday advances by one per day. */
  lemma WeekdayInMonth(y: int, m: int, d: int)
    requires 0 <= m < 12
    ensures DayOfWeek(y, m, d) == (DayOfWeek(y, m, 1) + d - 1) % 7
  {
  }

  /** Every date of year 1 CE or later has a positive day number. */
  lemma DayNumberPositive(y: int, m: int, d: int)
    requires y >= 1 && 0 <= m < 12 && d >= 1
    ensures DayNumber(y, m, d) >= 1
  {
    DaysBeforeMonthNonNegative(y, m);
  }

  lemma {:induction false} DaysBeforeMonthNonNegative(y: int, m: int)
    requires 0 <= m <= 12
    ensures DaysBeforeMonth(y, m) >= 0
  {
    if m > 0 {
      DaysBeforeMonthNonNegative(y, m - 1);
    }
  }

  /** The Unix epoch, 1 Jan 1970, is day 719163, and was a Thursday. */
  lemma UnixEpoch()
    ensures DayNumber(1970, 0, 1) == 719163
    ensures DayOfWeek(1970, 0, 1) == 4
  {
  }
}
