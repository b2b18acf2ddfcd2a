/** The part of Python's `datetime.date` that the arXiv query needs: a day is its proleptic
    Gregorian ordinal (`date.toordinal()`, 0001-01-01 is day 1, 9999-12-31 the last day),
    `timedelta(days=k)` arithmetic is integer arithmetic on ordinals, and `strftime('%Y%m%d')`
    writes the civil date of an ordinal. */
module Calendar {
  import opened PyStr

  /** `date.max.toordinal()` */
  const MaxOrdinal: int := 3652059

  /** A value of Python's `date` type, as its ordinal. */
  type Day = n: int | 1 <= n <= MaxOrdinal witness 1

  predicate IsLeap(y: int) {
    y % 4 == 0 && (y % 100 != 0 || y % 400 == 0)
  }

  function DaysInYear(y: int): int {
    if IsLeap(y) then 366 else 365
  }

  function DaysInMonth(y: int, m: int): int
    requires 1 <= m <= 12
  {
    if m == 2 then (if IsLeap(y) then 29 else 28)
    else if m == 4 || m == 6 || m == 9 || m == 11 then 30
    else 31
  }

  /** Days in the year `y` before the first of month `m`. */
  function DaysBeforeMonth(y: int, m: int): int
    requires 1 <= m <= 12
  {
    [0, 31, 59, 90, 120, 151, 181, 212, 243, 273, 304, 334][m - 1]
      + (if m > 2 && IsLeap(y) then 1 else 0)
  }

  /** Days before January 1st of year `y`. */
  function DaysBeforeYear(y: int): int
    requires y >= 1
  {
    var p := y - 1;
    p * 365 + p / 4 - p / 100 + p / 400
  }

  datatype Date = Date(year: int, month: int, day: int)

  predicate Valid(d: Date) {
    1 <= d.year <= 9999 && 1 <= d.month <= 12 && 1 <= d.day <= DaysInMonth(d.year, d.month)
  }

  function ToOrdinal(d: Date): int
    requires Valid(d)
  {
    DaysBeforeYear(d.year) + DaysBeforeMonth(d.year, d.month) + d.day
  }

  lemma DaysBeforeYearStep(y: int)
    requires y >= 1
    ensures DaysBeforeYear(y + 1) == DaysBeforeYear(y) + DaysInYear(y)
  {
    DivSteps(y);
    CenturyOf400(y);
    QuadOfCentury(y);
    LeapCountStep((y - 1) / 4, y / 4, (y - 1) / 100, y / 100, (y - 1) / 400, y / 400,
                  y % 4 == 0, y % 100 == 0, y % 400 == 0);
  }

  /** Counters of multiples of 4, 100 and 400 that each step by their own flag add up to a
      leap-year count that steps by the leap rule. */
  lemma LeapCountStep(a4: int, b4: int, a100: int, b100: int, a400: int, b400: int,
                      m4: bool, m100: bool, m400: bool)
    requires b4 == a4 + (if m4 then 1 else 0)
    requires b100 == a100 + (if m100 then 1 else 0)
    requires b400 == a400 + (if m400 then 1 else 0)
    requires m400 ==> m100
    requires m100 ==> m4
    ensures b4 - b100 + b400 == a4 - a100 + a400 + (if m4 && (!m100 || m400) then 1 else 0)
  {
  }

  /** The three leap-year counters each grow by one exactly at their multiples. */
  lemma DivSteps(y: int)
    ensures y / 4 == (y - 1) / 4 + (if y % 4 == 0 then 1 else 0)
    ensures y / 100 == (y - 1) / 100 + (if y % 100 == 0 then 1 else 0)
    ensures y / 400 == (y - 1) / 400 + (if y % 400 == 0 then 1 else 0)
  {
  }

  /** A multiple of 400 is a multiple of 100. */
  lemma CenturyOf400(y: int)
    ensures y % 400 == 0 ==> y % 100 == 0
  {
    if y % 400 == 0 {
      var k := y / 400;
      assert y == 100 * (4 * k);
    }
  }

  /** A multiple of 100 is a multiple of 4. */
  lemma QuadOfCentury(y: int)
    ensures y % 100 == 0 ==> y % 4 == 0
  {
    if y % 100 == 0 {
      var k := y / 100;
      assert y == 4 * (25 * k);
    }
  }

  lemma DaysBeforeYearMonotone(a: int, b: int)
    requires 1 <= a <= b
    ensures DaysBeforeYear(a) + 365 * (b - a) <= DaysBeforeYear(b)
    decreases b - a
  {
    if a < b {
      DaysBeforeYearMonotone(a + 1, b);
      DaysBeforeYearStep(a);
    }
  }

  lemma MonthStep(y: int, m: int)
    requires 1 <= m <= 12
    ensures m < 12 ==> DaysBeforeMonth(y, m + 1) == DaysBeforeMonth(y, m) + DaysInMonth(y, m)
    ensures m == 12 ==> DaysBeforeMonth(y, m) + DaysInMonth(y, m) == DaysInYear(y)
  {
  }

  /** The date `rem` days into year `y` counting from its month `m`. */
  function FindMonth(y: int, m: int, rem: int): (d: Date)
    requires 1 <= y <= 9999 && 1 <= m <= 12
    requires 1 <= rem <= DaysInYear(y) - DaysBeforeMonth(y, m)
    ensures Valid(d) && d.year == y
    ensures DaysBeforeMonth(y, d.month) + d.day == DaysBeforeMonth(y, m) + rem
    decreases 12 - m
  {
    MonthStep(y, m);
    if rem > DaysInMonth(y, m) then FindMonth(y, m + 1, rem - DaysInMonth(y, m))
    else Date(y, m, rem)
  }

  /** The date `rem` days after the end of year `y - 1`. */
  function FindYear(y: int, rem: int): (d: Date)
    requires y >= 1 && rem >= 1 && DaysBeforeYear(y) + rem <= MaxOrdinal
    ensures Valid(d) && ToOrdinal(d) == DaysBeforeYear(y) + rem
    decreases rem
  {
    DaysBeforeYearStep(y);
    if rem > DaysInYear(y) then FindYear(y + 1, rem - DaysInYear(y))
    else
      assert y <= 9999 by {
        if y > 9999 {
          DaysBeforeYearMonotone(10000, y);
        }
      }
      FindMonth(y, 1, rem)
  }

  /** `date.fromordinal(n)`: the civil date of a day. */
  function FromOrdinal(n: Day): (d: Date)
    ensures Valid(d) && ToOrdinal(d) == n
  {
    FindYear(1, n)
  }

  /** A valid date's day of the year never runs past the year's end. */
  lemma DayOfYearBound(d: Date)
    requires Valid(d)
    ensures 1 <= DaysBeforeMonth(d.year, d.month) + d.day <= DaysInYear(d.year)
  {
    var m := d.month;
    while m < 12
      invariant d.month <= m <= 12
      invariant DaysBeforeMonth(d.year, d.month) + d.day <= DaysBeforeMonth(d.year, m) + DaysInMonth(d.year, m)
    {
      MonthStep(d.year, m);
      m := m + 1;
    }
    MonthStep(d.year, 12);
  }

  /** Distinct valid dates have distinct ordinals. */
  lemma ToOrdinalInjective(a: Date, b: Date)
    requires Valid(a) && Valid(b) && ToOrdinal(a) == ToOrdinal(b)
    ensures a == b
  {
    if a.year < b.year {
      YearsOrdered(a, b);
    } else if b.year < a.year {
      YearsOrdered(b, a);
    } else if a.month < b.month {
      MonthsOrdered(a.year, a.month, b.month);
    } else if b.month < a.month {
      MonthsOrdered(a.year, b.month, a.month);
    }
  }

  /** A date in an earlier year has a smaller ordinal. */
  lemma YearsOrdered(a: Date, b: Date)
    requires Valid(a) && Valid(b) && a.year < b.year
    ensures ToOrdinal(a) < ToOrdinal(b)
  {
    DayOfYearBound(a);
    DaysBeforeYearStep(a.year);
    DaysBeforeYearMonotone(a.year + 1, b.year);
    assert ToOrdinal(a) <= DaysBeforeYear(a.year + 1);
    assert DaysBeforeYear(b.year) < ToOrdinal(b);
  }

  lemma MonthsOrdered(y: int, m1: int, m2: int)
    requires 1 <= m1 < m2 <= 12
    ensures DaysBeforeMonth(y, m1) + DaysInMonth(y, m1) <= DaysBeforeMonth(y, m2)
  {
  }

  /** `date.fromordinal` and `toordinal` are inverse. */
  lemma FromToOrdinal(d: Date)
    requires Valid(d)
    ensures 1 <= ToOrdinal(d) <= MaxOrdinal && FromOrdinal(ToOrdinal(d)) == d
  {
    DayOfYearBound(d);
    DaysBeforeYearStep(d.year);
    DaysBeforeYearMonotone(d.year + 1, 10000);
    ToOrdinalInjective(FromOrdinal(ToOrdinal(d)), d);
  }

  /** `strftime('%Y%m%d')`: four-digit year, two-digit month, two-digit day. */
  function FormatYmd(d: Date): (s: string)
    requires Valid(d)
    ensures |s| == 8 && AllDigits(s)
  {
    DecimalLength(d.year, 4);
    DecimalLength(d.month, 2);
    DecimalLength(d.day, 2);
    PadDecimal(d.year, 4) + PadDecimal(d.month, 2) + PadDecimal(d.day, 2)
  }

  /** Read a `YYYYMMDD` numeral back into its three fields. */
  function ParseYmd(s: string): Date
    requires |s| == 8 && AllDigits(s)
  {
    Date(DigitsValue(s[..4]), DigitsValue(s[4..6]), DigitsValue(s[6..]))
  }

  /** The formatted date determines the date: its three digit fields read back as the year,
      month and day. */
  lemma FormatYmdParses(d: Date)
    requires Valid(d)
    ensures ParseYmd(FormatYmd(d)) == d
  {
    var s := FormatYmd(d);
    DecimalLength(d.year, 4);
    DecimalLength(d.month, 2);
    DecimalLength(d.day, 2);
    assert s[..4] == PadDecimal(d.year, 4);
    assert s[4..6] == PadDecimal(d.month, 2);
    assert s[6..] == PadDecimal(d.day, 2);
    PadDecimalValue(d.year, 4);
    PadDecimalValue(d.month, 2);
    PadDecimalValue(d.day, 2);
  }

  /** Different days format differently. */
  lemma FormatDayInjective(a: Day, b: Day)
    requires FormatYmd(FromOrdinal(a)) == FormatYmd(FromOrdinal(b))
    ensures a == b
  {
    FormatYmdParses(FromOrdinal(a));
    FormatYmdParses(FromOrdinal(b));
  }
}
