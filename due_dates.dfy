/** `calculateNextDueDate`: from the last paid month "YYYY-MM", a recurrence
    in months and a recurrence day of the month, the next due date as a
    "YYYY-MM-DD" string, or null. The intermediate `Date` objects of the
    JavaScript code are local, so the calculation is a pure function. */
module DueDates {
  import opened Wrappers
  import opened Text
  import opened Calendar

  datatype Date = Date(year: int, month: int, day: int)

  /** Why no date comes out. JavaScript returns null for both. */
  datatype CalcError =
    | InvalidInput      // an argument failed the checks before any arithmetic
    | CalculationError  // the `Date` arithmetic left the representable range

  /** `/^\d{4}-\d{2}$/`: four digits, a dash, two digits. The month is not range-checked. */
  predicate IsMonthShape(s: string) {
    |s| == 7 && AllDigits(s[..4]) && s[4] == '-' && AllDigits(s[5..])
  }

  /** The two numbers of `s.split('-').map(Number)`. */
  function ShapeYear(s: string): nat
    requires IsMonthShape(s)
  {
    DigitsValue(s[..4])
  }

  function ShapeMonth(s: string): nat
    requires IsMonthShape(s)
  {
    DigitsValue(s[5..])
  }

  /** The argument checks of calculateNextDueDate: a month string of the
      right shape, a positive month count, a day from 1 to 31. */
  predicate ValidArguments(lastPaidMonth: string, months: int, day: int) {
    IsMonthShape(lastPaidMonth) && months > 0 && 1 <= day <= 31
  }

  /** `Date.UTC` reads a year from 0 to 99 as 1900 to 1999. */
  function UtcYear(y: int): int {
    if 0 <= y <= 99 then 1900 + y else y
  }

  /** The due month as a month count year * 12 + (month - 1): the first of the
      start month, moved on by `months` months through `setUTCMonth`. */
  function DueMonthIndex(lastPaidMonth: string, months: int): int
    requires IsMonthShape(lastPaidMonth)
  {
    UtcYear(ShapeYear(lastPaidMonth)) * 12 + (ShapeMonth(lastPaidMonth) - 1) + months
  }

  /** September 275760 is the first month whose last day lies beyond the
      range TimeClip allows. */
  const FirstUnrepresentableMonth := 275760 * 12 + 8

  predicate IsCalendarDate(d: Date) {
    1 <= d.month <= 12 && 1 <= d.day <= DaysInMonth(d.year, d.month)
  }

  function Min(a: int, b: int): int {
    if a <= b then a else b
  }

  /** The date calculateNextDueDate formats, or why it returns null.
      The due month is month index / 12 and month index % 12 + 1 as MakeDay
      carries it; the day is the requested day clamped to the days of that
      month, which the code reads off `Date.UTC(year, month, 0)`. When that
      last day is outside the range of TimeClip, the `Date` becomes NaN and
      the code's `isNaN` check turns it into null. */
  function DueDate(lastPaidMonth: string, months: int, day: int): (r: Result<Date, CalcError>)
    ensures r == Failure(InvalidInput) <==> !ValidArguments(lastPaidMonth, months, day)
    ensures r.Success? ==> IsCalendarDate(r.value) && r.value.year >= 100
    ensures r.Success? ==> r.value.day == day || r.value.day == DaysInMonth(r.value.year, r.value.month) < day
  {
    if !ValidArguments(lastPaidMonth, months, day) then Failure(InvalidInput)
    else
      var index := DueMonthIndex(lastPaidMonth, months);
      var year, month := index / 12, index % 12 + 1;
      if !InTimeRange(MakeDay(year, month, 0)) then Failure(CalculationError)
      else Success(Date(year, month, Min(day, DaysInMonth(year, month))))
  }

  /** The `${yyyy}-${mm}-${dd}` template: the year as `String` writes it, the
      month and day padded to two digits with '0'. FormatRoundTrip reads it back. */
  function FormatDate(d: Date): string
    requires d.year >= 0 && 0 <= d.month && 0 <= d.day
  {
    Decimal(d.year) + "-" + PadStart(Decimal(d.month), 2, '0') + "-" + PadStart(Decimal(d.day), 2, '0')
  }

  /** calculateNextDueDate (app.js): the formatted due date, or None for null. */
  function CalculateNextDueDate(lastPaidMonth: string, months: int, day: int): (r: Option<string>)
    ensures r.None? <==> DueDate(lastPaidMonth, months, day).Failure?
  {
    match DueDate(lastPaidMonth, months, day)
    case Success(d) => Some(FormatDate(d))
    case Failure(_) => None
  }

  /** Reads a "Y-MM-DD" string back: decimal digits for the year, then two
      dash-separated two-digit fields. */
  function ParseDate(s: string): Option<Date> {
    if |s| >= 7 && s[|s| - 6] == '-' && s[|s| - 3] == '-'
       && AllDigits(s[..|s| - 6]) && AllDigits(s[|s| - 5..|s| - 3]) && AllDigits(s[|s| - 2..])
    then Some(Date(DigitsValue(s[..|s| - 6]), DigitsValue(s[|s| - 5..|s| - 3]), DigitsValue(s[|s| - 2..])))
    else None
  }

  /** The pieces of "Y-MM-DD" sit at fixed distances from the end. */
  lemma DashJoinPieces(y: string, mm: string, dd: string)
    requires |mm| == 2 && |dd| == 2
    ensures var s := y + "-" + mm + "-" + dd;
      |s| == |y| + 6 && s[|s| - 6] == '-' && s[|s| - 3] == '-'
      && s[..|s| - 6] == y && s[|s| - 5..|s| - 3] == mm && s[|s| - 2..] == dd
  {
  }

  /** ParseDate takes a joined "Y-MM-DD" apart into its three numbers. */
  lemma ParseJoined(y: string, mm: string, dd: string)
    requires |y| >= 1 && |mm| == 2 && |dd| == 2 && AllDigits(y) && AllDigits(mm) && AllDigits(dd)
    ensures ParseDate(y + "-" + mm + "-" + dd) == Some(Date(DigitsValue(y), DigitsValue(mm), DigitsValue(dd)))
  {
    DashJoinPieces(y, mm, dd);
  }

  /** Reading a formatted date back gives the same year, month and day. */
  lemma FormatRoundTrip(d: Date)
    requires d.year >= 0 && 0 <= d.month < 100 && 0 <= d.day < 100
    ensures ParseDate(FormatDate(d)) == Some(d)
  {
    DecimalDigits(d.year);
    TwoDigits(d.month);
    TwoDigits(d.day);
    ParseJoined(Decimal(d.year), PadStart(Decimal(d.month), 2, '0'), PadStart(Decimal(d.day), 2, '0'));
  }

  /** A due date in a four-digit year is written as exactly "YYYY-MM-DD". */
  lemma FourDigitYearFormat(d: Date)
    requires IsCalendarDate(d) && 1000 <= d.year <= 9999
    ensures var s := FormatDate(d);
      |s| == 10 && AllDigits(s[..4]) && s[4] == '-' && AllDigits(s[5..7]) && s[7] == '-' && AllDigits(s[8..])
  {
    var y := Decimal(d.year);
    var mm := PadStart(Decimal(d.month), 2, '0');
    var dd := PadStart(Decimal(d.day), 2, '0');
    assert Pow10(3) == 1000 && Pow10(4) == 10000;
    DecimalWidth(d.year, 4);
    DecimalDigits(d.year);
    TwoDigits(d.month);
    TwoDigits(d.day);
    DashJoinPieces(y, mm, dd);
  }

  /** Parsing the string calculateNextDueDate returns gives back exactly the
      computed year, month and day. */
  lemma NextDueDateParsesBack(lastPaidMonth: string, months: int, day: int)
    requires CalculateNextDueDate(lastPaidMonth, months, day).Some?
    ensures DueDate(lastPaidMonth, months, day).Success?
    ensures ParseDate(CalculateNextDueDate(lastPaidMonth, months, day).value)
            == Some(DueDate(lastPaidMonth, months, day).value)
  {
    FormatRoundTrip(DueDate(lastPaidMonth, months, day).value);
  }

  /** Adding months one at a time: December is followed by January of the next year. */
  function AddMonths(year: int, month: int, n: nat): (int, int)
    decreases n
  {
    if n == 0 then (year, month)
    else if month == 12 then AddMonths(year + 1, 1, n - 1)
    else AddMonths(year, month + 1, n - 1)
  }

  lemma {:induction false} AddMonthsIndex(year: int, month: int, n: nat)
    requires 1 <= month <= 12
    ensures var (y, m) := AddMonths(year, month, n);
      1 <= m <= 12 && y * 12 + (m - 1) == year * 12 + (month - 1) + n
    decreases n
  {
    if n > 0 {
      if month == 12 {
        AddMonthsIndex(year + 1, 1, n - 1);
      } else {
        AddMonthsIndex(year, month + 1, n - 1);
      }
    }
  }

  /** Carry law: the due (year, month) is the start (year, month) advanced by
      `months` single months, each December carrying into the next year. The
      start is the first of the given month after `Date.UTC` has read the
      year and carried a month of 00 or 13 to 99 into it. */
  lemma DueMonthIsCarry(lastPaidMonth: string, months: int, day: int)
    requires DueDate(lastPaidMonth, months, day).Success?
    ensures var d := DueDate(lastPaidMonth, months, day).value;
      var start := UtcYear(ShapeYear(lastPaidMonth)) * 12 + (ShapeMonth(lastPaidMonth) - 1);
      (d.year, d.month) == AddMonths(start / 12, start % 12 + 1, months)
  {
    var d := DueDate(lastPaidMonth, months, day).value;
    var start := UtcYear(ShapeYear(lastPaidMonth)) * 12 + (ShapeMonth(lastPaidMonth) - 1);
    AddMonthsIndex(start / 12, start % 12 + 1, months);
  }

  /** For a month from 01 to 12 the start is the given year (after the
      two-digit rule) and month. */
  lemma StartIsGivenMonth(lastPaidMonth: string)
    requires IsMonthShape(lastPaidMonth) && 1 <= ShapeMonth(lastPaidMonth) <= 12
    ensures var start := UtcYear(ShapeYear(lastPaidMonth)) * 12 + (ShapeMonth(lastPaidMonth) - 1);
      start / 12 == UtcYear(ShapeYear(lastPaidMonth)) && start % 12 + 1 == ShapeMonth(lastPaidMonth)
  {
  }

  /** With valid arguments, null comes out exactly when the due month is
      September 275760 or later, where `Date` runs out of range. */
  lemma CalculationErrorIff(lastPaidMonth: string, months: int, day: int)
    requires ValidArguments(lastPaidMonth, months, day)
    ensures DueDate(lastPaidMonth, months, day) == Failure(CalculationError)
            <==> DueMonthIndex(lastPaidMonth, months) >= FirstUnrepresentableMonth
  {
    var index := DueMonthIndex(lastPaidMonth, months);
    var year, month := index / 12, index % 12 + 1;
    assert index == year * 12 + (month - 1);
    assert DueDate(lastPaidMonth, months, day).Failure? <==> !InTimeRange(MakeDay(year, month, 0));
    LastDayInRange(year, month);
  }

  /** The last day of a month from year 100 on is in the range of TimeClip
      exactly when the month comes before September 275760. */
  lemma LastDayInRange(year: int, month: int)
    requires year >= 100 && 1 <= month <= 12
    ensures InTimeRange(MakeDay(year, month, 0)) <==> year * 12 + (month - 1) < FirstUnrepresentableMonth
  {
    var last := MakeDay(year, month, 0);
    LastDayBounds(year, month);
    DayFromYearMonotone(100, year);
    if year * 12 + (month - 1) >= FirstUnrepresentableMonth {
      if year == 275760 {
        assert month >= 9;
        if month < 12 {
          assert last == DayFromYear(275760) + DaysBeforeMonth(275760, month) - 1;
        } else {
          YearLength(275760);
        }
      } else {
        DayFromYearMonotone(275761, year);
        YearLength(275760);
      }
      assert !InTimeRange(last);
    } else {
      if year == 275760 {
        assert month <= 8;
        assert last == DayFromYear(275760) + DaysBeforeMonth(275760, month) - 1;
      } else {
        DayFromYearMonotone(year + 1, 275760);
      }
      assert InTimeRange(last);
    }
  }

  /** Day 0 of month m (1-based) lies in year y, after its first day. */
  lemma LastDayBounds(y: int, m: int)
    requires 1 <= m <= 12
    ensures DayFromYear(y) <= MakeDay(y, m, 0) + 1 <= DayFromYear(y + 1)
    ensures m < 12 ==> MakeDay(y, m, 0) == DayFromYear(y) + DaysBeforeMonth(y, m) - 1
  {
    YearLength(y);
    if m == 12 {
      assert m / 12 == 1 && m % 12 == 0;
    } else {
      assert m / 12 == 0 && m % 12 == m;
    }
  }
}
