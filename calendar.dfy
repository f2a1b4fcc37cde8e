/**
 * The calendar arithmetic the ingestion relies on: the proleptic Gregorian
 * calendar as JavaScript `Date` and dayjs count it, with days numbered
 * from 1 January of the year 0 and times as wall-clock minutes since then.
 */
module Calendar {

  type Month = m: int | 1 <= m <= 12 witness 1

  const MinutesPerDay: nat := 1440

  predicate IsLeapYear(y: int) {
    y % 4 == 0 && (y % 100 != 0 || y % 400 == 0)
  }

  function DaysInMonth(y: int, m: Month): (n: nat)
    ensures 28 <= n <= 31
  {
    if m == 2 then (if IsLeapYear(y) then 29 else 28)
    else if m == 4 || m == 6 || m == 9 || m == 11 then 30
    else 31
  }

  /** The number of leap years among the years `0 .. y - 1`. */
  function LeapsBefore(y: nat): nat {
    (y + 3) / 4 - (y + 99) / 100 + (y + 399) / 400
  }

  /** Moving past a multiple of 4, 100 or 400 adds one to the quotient. */
  lemma Quotient4(y: nat)
    ensures (y + 4) / 4 == (y + 3) / 4 + (if y % 4 == 0 then 1 else 0)
  {
  }

  lemma Quotient100(y: nat)
    ensures (y + 100) / 100 == (y + 99) / 100 + (if y % 100 == 0 then 1 else 0)
  {
  }

  lemma Quotient400(y: nat)
    ensures (y + 400) / 400 == (y + 399) / 400 + (if y % 400 == 0 then 1 else 0)
  {
  }

  /** A multiple of 100 is a multiple of 4, and a multiple of 400 one of 100. */
  lemma Multiples(y: nat)
    ensures y % 100 == 0 ==> y % 4 == 0
    ensures y % 400 == 0 ==> y % 100 == 0
  {
    if y % 100 == 0 {
      var q := y / 100;
      assert y == 4 * (25 * q);
    }
    if y % 400 == 0 {
      var q := y / 400;
      assert y == 100 * (4 * q);
    }
  }

  /** `LeapsBefore` counts the leap years: it grows by one exactly past a leap year. */
  lemma LeapsStep(y: nat)
    ensures LeapsBefore(y + 1) == LeapsBefore(y) + if IsLeapYear(y) then 1 else 0
  {
    Quotient4(y);
    Quotient100(y);
    Quotient400(y);
    Multiples(y);
    var a, b, c := y % 4 == 0, y % 100 == 0, y % 400 == 0;
    assert LeapsBefore(y + 1) == LeapsBefore(y) + (if a then 1 else 0) - (if b then 1 else 0) + (if c then 1 else 0);
  }

  /** The number of the day 1 January of year `y`. */
  function YearStart(y: nat): int {
    365 * y + LeapsBefore(y)
  }

  /** The days of the months of year `y` before month `m`. */
  function DaysBeforeMonth(y: nat, m: Month): nat {
    [0, 31, 59, 90, 120, 151, 181, 212, 243, 273, 304, 334][m - 1] + if m > 2 && IsLeapYear(y) then 1 else 0
  }

  /** The number of the first day of month `m` of year `y`. */
  function MonthStart(y: nat, m: Month): int {
    YearStart(y) + DaysBeforeMonth(y, m)
  }

  /** The month after month `m` of year `y`. */
  function NextMonth(y: nat, m: Month): (nat, Month) {
    if m == 12 then (y + 1, 1) else (y, m + 1)
  }

  /** Months follow each other without gap or overlap. */
  lemma MonthStartStep(y: nat, m: Month)
    ensures var (y', m') := NextMonth(y, m);
      MonthStart(y', m') == MonthStart(y, m) + DaysInMonth(y, m)
  {
    if m == 12 {
      LeapsStep(y);
    }
  }

  /**
   * The year JavaScript's `new Date(year, month, …)` uses: a year from 0
   * to 99 counts from 1900.
   */
  function JsYear(y: nat): (r: nat)
    ensures r >= 100
  {
    if y <= 99 then 1900 + y else y
  }

  /**
   * The month `new Date(year, monthIndex, …)` lands in: month indexes
   * outside 0 .. 11 roll over into earlier or later years.
   */
  function JsMonth(year: nat, monthIndex: int): (ym: (nat, Month))
    requires year >= 1 && monthIndex >= -12
    ensures (ym.0 - year) * 12 + ym.1 - 1 == monthIndex
  {
    (year + monthIndex / 12, monthIndex % 12 + 1)
  }

  /** The window `[lo, hi)`, in minutes, between the start of month `m` and the start of the next. */
  function MonthWindow(y: nat, m: Month): (w: (int, int))
    ensures w.1 - w.0 == DaysInMonth(y, m) * MinutesPerDay
  {
    var (y', m') := NextMonth(y, m);
    MonthStartStep(y, m);
    (MonthStart(y, m) * MinutesPerDay, MonthStart(y', m') * MinutesPerDay)
  }
}
