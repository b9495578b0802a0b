/** Worked cases of calculateNextDueDate: the carry, the clamp in leap and
    common years, and the inputs the code lets through unchanged. */
module DueDateExamples {
  import opened Wrappers
  import opened Text
  import opened DueDates
  import Calendar

  // Helpers that evaluate the digit conversions on concrete strings.

  lemma YearDigits(n: nat, y: string)
    requires 1000 <= n <= 9999 && |y| == 4
    requires y[0] == DigitChar(n / 1000) && y[1] == DigitChar(n / 100 % 10)
    requires y[2] == DigitChar(n / 10 % 10) && y[3] == DigitChar(n % 10)
    ensures Decimal(n) == y
  {
    var q1 := n / 10; var q2 := q1 / 10; var q3 := q2 / 10;
    assert q3 == n / 1000 && q2 % 10 == n / 100 % 10;
    assert Decimal(q3) == [y[0]];
    assert Decimal(q2) == [y[0]] + [y[1]];
    assert Decimal(q1) == [y[0], y[1]] + [y[2]];
    assert Decimal(n) == [y[0], y[1], y[2]] + [y[3]];
  }

  lemma FourDigitValue(s: string)
    requires |s| == 4 && AllDigits(s)
    ensures DigitsValue(s) == DigitValue(s[0]) * 1000 + DigitValue(s[1]) * 100 + DigitValue(s[2]) * 10 + DigitValue(s[3])
  {
    var a, b, c := s[..3], s[..2], s[..1];
    assert a[..2] == b && b[..1] == c && c[..0] == [];
    assert DigitsValue(s) == DigitsValue(a) * 10 + DigitValue(s[3]);
    assert DigitsValue(a) == DigitsValue(b) * 10 + DigitValue(s[2]);
    assert DigitsValue(b) == DigitsValue(c) * 10 + DigitValue(s[1]);
  }
  lemma TwoDigitValue(s: string)
    requires |s| == 2 && AllDigits(s)
    ensures DigitsValue(s) == DigitValue(s[0]) * 10 + DigitValue(s[1])
  {
    assert s[..1][..0] == [];
    assert DigitsValue(s) == DigitsValue(s[..1]) * 10 + DigitValue(s[1]);
  }
  lemma ReadsAs(s: string)
    requires IsMonthShape(s)
    ensures ShapeYear(s) == DigitValue(s[0]) * 1000 + DigitValue(s[1]) * 100 + DigitValue(s[2]) * 10 + DigitValue(s[3])
    ensures ShapeMonth(s) == DigitValue(s[5]) * 10 + DigitValue(s[6])
  {
    FourDigitValue(s[..4]);
    TwoDigitValue(s[5..]);
  }

  lemma PaddedDigits(n: nat, p: string)
    requires n < 100 && |p| == 2 && p[0] == DigitChar(n / 10) && p[1] == DigitChar(n % 10)
    ensures PadStart(Decimal(n), 2, '0') == p
  {
    if n >= 10 {
      assert Decimal(n) == Decimal(n / 10) + [DigitChar(n % 10)];
    }
  }

  lemma FormatsAs(d: Date, s: string)
    requires d.year >= 0 && 0 <= d.month < 100 && 0 <= d.day < 100 && |s| == 10 && s[4] == '-' && s[7] == '-'
    requires Decimal(d.year) == s[..4]
    requires PadStart(Decimal(d.month), 2, '0') == s[5..7]
    requires PadStart(Decimal(d.day), 2, '0') == s[8..]
    ensures FormatDate(d) == s
  {
    assert [s[4]] == "-" && [s[7]] == "-";
    SplitTen(s);
  }

  lemma SplitTen(s: string)
    requires |s| == 10
    ensures s == s[..4] + [s[4]] + s[5..7] + [s[7]] + s[8..]
  {
  }

  /** DueDate on a concrete month string, with the digit reading and the carry done by hand. */
  lemma DueCase(s: string, months: int, day: int, y: int, m: int, d: int)
    requires ValidArguments(s, months, day) && 1 <= m <= 12
    requires UtcYear(DigitValue(s[0]) * 1000 + DigitValue(s[1]) * 100 + DigitValue(s[2]) * 10 + DigitValue(s[3])) * 12
             + (DigitValue(s[5]) * 10 + DigitValue(s[6]) - 1) + months == y * 12 + (m - 1)
    requires Calendar.InTimeRange(Calendar.MakeDay(y, m, 0))
    requires d == Min(day, Calendar.DaysInMonth(y, m))
    ensures DueDate(s, months, day) == Success(Date(y, m, d))
  {
    ReadsAs(s);
    var index := DueMonthIndex(s, months);
    assert index == y * 12 + (m - 1);
    assert index / 12 == y && index % 12 + 1 == m;
  }

  /** FormatDate on a concrete date, digit by digit. */
  lemma FormatCase(d: Date, s: string)
    requires 1000 <= d.year <= 9999 && 0 <= d.month < 100 && 0 <= d.day < 100
    requires |s| == 10 && s[4] == '-' && s[7] == '-'
    requires s[0] == DigitChar(d.year / 1000) && s[1] == DigitChar(d.year / 100 % 10)
    requires s[2] == DigitChar(d.year / 10 % 10) && s[3] == DigitChar(d.year % 10)
    requires s[5] == DigitChar(d.month / 10) && s[6] == DigitChar(d.month % 10)
    requires s[8] == DigitChar(d.day / 10) && s[9] == DigitChar(d.day % 10)
    ensures FormatDate(d) == s
  {
    YearDigits(d.year, s[..4]);
    PaddedDigits(d.month, s[5..7]);
    PaddedDigits(d.day, s[8..]);
    FormatsAs(d, s);
  }

  /** The whole calculation on a concrete case: the date by DueCase, the text by FormatCase. */
  lemma Example(s: string, months: int, day: int, y: int, m: int, d: int, out: string)
    requires ValidArguments(s, months, day) && 1 <= m <= 12
    requires UtcYear(DigitValue(s[0]) * 1000 + DigitValue(s[1]) * 100 + DigitValue(s[2]) * 10 + DigitValue(s[3])) * 12
             + (DigitValue(s[5]) * 10 + DigitValue(s[6]) - 1) + months == y * 12 + (m - 1)
    requires Calendar.InTimeRange(Calendar.MakeDay(y, m, 0))
    requires d == Min(day, Calendar.DaysInMonth(y, m))
    requires 1000 <= y <= 9999 && 0 <= d < 100
    requires |out| == 10 && out[4] == '-' && out[7] == '-'
    requires out[0] == DigitChar(y / 1000) && out[1] == DigitChar(y / 100 % 10)
    requires out[2] == DigitChar(y / 10 % 10) && out[3] == DigitChar(y % 10)
    requires out[5] == DigitChar(m / 10) && out[6] == DigitChar(m % 10)
    requires out[8] == DigitChar(d / 10) && out[9] == DigitChar(d % 10)
    ensures CalculateNextDueDate(s, months, day) == Some(out)
  {
    DueCase(s, months, day, y, m, d);
    FormatCase(Date(y, m, d), out);
  }

  /** November 2024 plus three months is February 2025. */
  lemma CarryIntoNextYear()
    ensures CalculateNextDueDate("2024-11", 3, 15) == Some("2025-02-15")
  {
    Example("2024-11", 3, 15, 2025, 2, 15, "2025-02-15");
  }

  /** Day 30 clamps to 29 February in the leap year 2024. */
  lemma ClampInLeapYear()
    ensures CalculateNextDueDate("2024-01", 1, 30) == Some("2024-02-29")
  {
    Example("2024-01", 1, 30, 2024, 2, 29, "2024-02-29");
  }

  /** Day 30 clamps to 28 February in the common year 2025. */
  lemma ClampInCommonYear()
    ensures CalculateNextDueDate("2025-01", 1, 30) == Some("2025-02-28")
  {
    Example("2025-01", 1, 30, 2025, 2, 28, "2025-02-28");
  }

  /** A day that the month has is kept. */
  lemma ExactDay()
    ensures CalculateNextDueDate("2025-03", 1, 15) == Some("2025-04-15")
  {
    Example("2025-03", 1, 15, 2025, 4, 15, "2025-04-15");
  }

  /** Month 13 passes the shape check and is carried: it reads as January 2026. */
  lemma MonthThirteenCarried()
    ensures DueDate("2025-13", 1, 15) == Success(Date(2026, 2, 15))
  {
    DueCase("2025-13", 1, 15, 2026, 2, 15);
  }

  /** Month 00 reads as December of the year before. */
  lemma MonthZeroCarried()
    ensures CalculateNextDueDate("2025-00", 1, 15) == Some("2025-01-15")
  {
    Example("2025-00", 1, 15, 2025, 1, 15, "2025-01-15");
  }

  /** `Date.UTC` reads year 0050 as 1950. */
  lemma TwoDigitYearRead()
    ensures DueDate("0050-01", 1, 15) == Success(Date(1950, 2, 15))
  {
    DueCase("0050-01", 1, 15, 1950, 2, 15);
  }

  /** A two-digit year, a month count of 0 or a day of 32 give null. */
  lemma InvalidArgumentsGiveNull()
    ensures CalculateNextDueDate("25-01", 1, 15) == None
    ensures CalculateNextDueDate("2025-01", 0, 15) == None
    ensures CalculateNextDueDate("2025-01", 1, 32) == None
  {
  }

  /** August 275760 is the last due month `Date` can hold; one month more gives null. */
  lemma RangeBoundary()
    ensures CalculateNextDueDate("9999-12", 3189128, 15).Some?
    ensures CalculateNextDueDate("9999-12", 3189129, 15) == None
  {
    ReadsAs("9999-12");
    CalculationErrorIff("9999-12", 3189128, 15);
    CalculationErrorIff("9999-12", 3189129, 15);
  }
}
