/** The proleptic Gregorian calendar as JavaScript's `Date` sees it: the
    day-number arithmetic of section 21.4.1 of ECMA-262 (DayFromYear,
    MakeDay, TimeClip) and the month lengths that `Date.UTC(y, m + 1, 0)`
    reveals. Day numbers count days from 1 January 1970. */
module Calendar {

  predicate IsLeapYear(y: int) {
    y % 4 == 0 && (y % 100 != 0 || y % 400 == 0)
  }

  /** DaysInYear of ECMA-262: 366 in a leap year, 365 otherwise. */
  function DaysInYear(y: int): int {
    if IsLeapYear(y) then 366 else 365
  }

  /** The number of days in month m (1 = January) of year y. */
  function DaysInMonth(y: int, m: int): (n: int)
    requires 1 <= m <= 12
    ensures 28 <= n <= 31
  {
    if m == 2 then (if IsLeapYear(y) then 29 else 28)
    else if m == 4 || m == 6 || m == 9 || m == 11 then 30
    else 31
  }

  /** DayFromYear of ECMA-262: the day number of 1 January of year y. */
  function DayFromYear(y: int): int {
    365 * (y - 1970) + (y - 1969) / 4 - (y - 1901) / 100 + (y - 1601) / 400
  }

  /** The days of year y before the first of month mn (0 = January): the
      table by which MonthFromTime and DateFromTime split a year. */
  function DaysBeforeMonth(y: int, mn: int): int
    requires 0 <= mn <= 11
  {
    var leap := if IsLeapYear(y) then 1 else 0;
    if mn == 0 then 0
    else if mn == 1 then 31
    else if mn == 2 then 59 + leap
    else if mn == 3 then 90 + leap
    else if mn == 4 then 120 + leap
    else if mn == 5 then 151 + leap
    else if mn == 6 then 181 + leap
    else if mn == 7 then 212 + leap
    else if mn == 8 then 243 + leap
    else if mn == 9 then 273 + leap
    else if mn == 10 then 304 + leap
    else 334 + leap
  }

  /** MakeDay of ECMA-262 on integers: the day number of day `date` of month
      `month` (0-based, any integer, carried into the year) of year `year`. */
  function MakeDay(year: int, month: int, date: int): int {
    var ym := year + month / 12;
    var mn := month % 12;
    DayFromYear(ym) + DaysBeforeMonth(ym, mn) + date - 1
  }

  /** TimeClip accepts a time value of at most 8.64e15 milliseconds either
      side of the epoch, that is 100,000,000 days of 86,400,000 ms. */
  const MaxDays := 100_000_000

  predicate InTimeRange(day: int) {
    -MaxDays <= day <= MaxDays
  }

  /** A year is DaysInYear days long: the floors of DayFromYear step exactly
      at the leap-year rule. */
  lemma YearLength(y: int)
    ensures DayFromYear(y + 1) == DayFromYear(y) + DaysInYear(y)
  {
    FloorStep4(y);
    FloorStep100(y);
    FloorStep400(y);
    DivisibilityChain(y);
  }

  /** Every fourth-century year is a century year, and every century year a fourth year. */
  lemma DivisibilityChain(y: int)
    ensures y % 400 == 0 ==> y % 100 == 0
    ensures y % 100 == 0 ==> y % 4 == 0
  {
    if y % 400 == 0 {
      var k := y / 400;
      assert y == 100 * (4 * k);
      MultipleOf100(4 * k);
    }
    if y % 100 == 0 {
      var k := y / 100;
      assert y == 4 * (25 * k);
      MultipleOf4(25 * k);
    }
  }

  lemma MultipleOf4(j: int)
    ensures (4 * j) % 4 == 0
  {
  }

  lemma MultipleOf100(j: int)
    ensures (100 * j) % 100 == 0
  {
  }

  // One step of each floor in DayFromYear: it rises by one exactly at the
  // years divisible by 4, 100 and 400.

  lemma FloorStep4(y: int)
    ensures (y - 1968) / 4 == (y - 1969) / 4 + (if y % 4 == 0 then 1 else 0)
  {
    var q, r := (y - 1969) / 4, (y - 1969) % 4;
    assert y - 1968 == 4 * q + r + 1;
    assert y % 4 == (r + 1) % 4;
  }

  lemma FloorStep100(y: int)
    ensures (y - 1900) / 100 == (y - 1901) / 100 + (if y % 100 == 0 then 1 else 0)
  {
    var q, r := (y - 1901) / 100, (y - 1901) % 100;
    assert y - 1900 == 100 * q + r + 1;
    assert y % 100 == (r + 1) % 100;
  }

  lemma FloorStep400(y: int)
    ensures (y - 1600) / 400 == (y - 1601) / 400 + (if y % 400 == 0 then 1 else 0)
  {
    var q, r := (y - 1601) / 400, (y - 1601) % 400;
    assert y - 1600 == 400 * q + r + 1;
    assert y % 400 == (r + 1) % 400;
  }

  /** Day 0 of the following month, as `Date.UTC(y, m, 0)` asks for with a
      0-based m, is the last day of month m (1-based): the day numbered
      DaysInMonth(y, m) of that month. */
  lemma LastDayOfMonth(y: int, m: int)
    requires 1 <= m <= 12
    ensures MakeDay(y, m, 0) == MakeDay(y, m - 1, DaysInMonth(y, m))
  {
    if m == 12 {
      assert m / 12 == 1 && m % 12 == 0 && (m - 1) / 12 == 0 && (m - 1) % 12 == 11;
      YearLength(y);
    } else {
      assert m / 12 == 0 && m % 12 == m && (m - 1) / 12 == 0 && (m - 1) % 12 == m - 1;
      MonthStep(y, m);
    }
  }

  /** The first of month mn + 1 (1-based) comes DaysInMonth days after the first of month mn. */
  lemma MonthStep(y: int, mn: int)
    requires 1 <= mn <= 11
    ensures DaysBeforeMonth(y, mn) == DaysBeforeMonth(y, mn - 1) + DaysInMonth(y, mn)
  {
  }

  /** Later years start later. */
  lemma {:induction false} DayFromYearMonotone(a: int, b: int)
    requires a <= b
    ensures DayFromYear(a) <= DayFromYear(b)
    decreases b - a
  {
    if a < b {
      YearLength(a);
      DayFromYearMonotone(a + 1, b);
    }
  }
}
