/**
 * Proleptic Gregorian dates as Python's `datetime.date` represents them: a date is its
 * ordinal (0001-01-01 is day 1, 9999-12-31 is `MaxOrdinal`), convertible to and from a
 * year, month and day; `Weekday` is `date.weekday()` (Monday is 0).
 */
module Calendar {

  /** The last year a Python `date` can hold. */
  const MaxYear := 9999

  /** `date.max.toordinal()`, the ordinal of 9999-12-31. */
  const MaxOrdinal := 3652059

  datatype Ymd = Ymd(year: int, month: int, day: int)

  predicate IsLeap(year: int) {
    year % 4 == 0 && (year % 100 != 0 || year % 400 == 0)
  }

  function DaysInYear(year: int): int {
    if IsLeap(year) then 366 else 365
  }

  /** `calendar.monthrange(year, month)[1]`. */
  function DaysInMonth(year: int, month: int): (r: int)
    requires 1 <= month <= 12
    ensures 28 <= r <= 31
    ensures month == 2 ==> (r == 29 <==> IsLeap(year))
  {
    if month == 2 then (if IsLeap(year) then 29 else 28)
    else if month == 4 || month == 6 || month == 9 || month == 11 then 30
    else 31
  }

  /** Days of `year` before the first of `month`; month 13 stands for the whole year. */
  function DaysBeforeMonth(year: int, month: int): int
    requires 1 <= month <= 13
  {
    [0, 31, 59, 90, 120, 151, 181, 212, 243, 273, 304, 334, 365][month - 1]
      + (if month > 2 && IsLeap(year) then 1 else 0)
  }

  /** Days before January 1 of `year`, counted from 0001-01-01. */
  function DaysBeforeYear(year: int): int
    requires year >= 1
  {
    var y := year - 1;
    y * 365 + y / 4 - y / 100 + y / 400
  }

  /** The month lengths are the steps of the cumulative table, and they add up to the year. */
  lemma MonthLength(year: int, month: int)
    requires 1 <= month <= 12
    ensures DaysBeforeMonth(year, month + 1) == DaysBeforeMonth(year, month) + DaysInMonth(year, month)
    ensures DaysBeforeMonth(year, 13) == DaysInYear(year)
  {
  }

  lemma DaysBeforeMonthMonotone(year: int, a: int, b: int)
    requires 1 <= a <= b <= 13
    ensures DaysBeforeMonth(year, a) <= DaysBeforeMonth(year, b)
  {
  }

  /** The closed formula for the days before a year adds up the lengths of the years. */
  lemma DaysBeforeNextYear(year: int)
    requires year >= 1
    ensures DaysBeforeYear(year + 1) == DaysBeforeYear(year) + DaysInYear(year)
  {
    var y := year - 1;
    DivStep4(y);
    DivStep100(y);
    DivStep400(y);
    var d4, d100, d400 := year / 4 - y / 4, year / 100 - y / 100, year / 400 - y / 400;
    assert DaysBeforeYear(year + 1) - DaysBeforeYear(year) == 365 + d4 - d100 + d400;
    assert d4 == (if year % 4 == 0 then 1 else 0);
    assert d100 == (if year % 100 == 0 then 1 else 0);
    assert d400 == (if year % 400 == 0 then 1 else 0);
    CenturyDivisibility(year);
  }

  lemma DivStep4(y: int)
    ensures (y + 1) / 4 == y / 4 + (if (y + 1) % 4 == 0 then 1 else 0)
  {
  }

  lemma DivStep100(y: int)
    ensures (y + 1) / 100 == y / 100 + (if (y + 1) % 100 == 0 then 1 else 0)
  {
  }

  lemma DivStep400(y: int)
    ensures (y + 1) / 400 == y / 400 + (if (y + 1) % 400 == 0 then 1 else 0)
  {
  }

  /** A year divisible by 400 is divisible by 100, and one divisible by 100 by 4. */
  lemma CenturyDivisibility(year: int)
    ensures year % 400 == 0 ==> year % 100 == 0
    ensures year % 100 == 0 ==> year % 4 == 0
  {
    var q400, q100, q4 := year / 400, year / 100, year / 4;
    if year % 400 == 0 {
      assert 100 * q100 <= 400 * q400 < 100 * q100 + 100;
      assert q100 == 4 * q400;
    }
    if year % 100 == 0 {
      assert 4 * q4 <= 100 * q100 < 4 * q4 + 4;
      assert q4 == 25 * q100;
    }
  }

  lemma {:induction false} DaysBeforeYearMonotone(a: int, b: int)
    requires 1 <= a <= b
    ensures DaysBeforeYear(b) - DaysBeforeYear(a) >= 365 * (b - a)
    decreases b - a
  {
    if a < b {
      DaysBeforeYearMonotone(a, b - 1);
      DaysBeforeNextYear(b - 1);
    }
  }

  /** `MaxOrdinal` is the number of days up to the end of `MaxYear`. */
  lemma LastOrdinal()
    ensures DaysBeforeYear(MaxYear + 1) == MaxOrdinal
  {
  }

  predicate ValidDate(d: Ymd) {
    1 <= d.year <= MaxYear && 1 <= d.month <= 12 && 1 <= d.day <= DaysInMonth(d.year, d.month)
  }

  /** `date(year, month, day).toordinal()`. */
  function ToOrdinal(d: Ymd): (n: int)
    requires ValidDate(d)
    ensures DaysBeforeYear(d.year) < n <= DaysBeforeYear(d.year + 1)
    ensures 1 <= n <= MaxOrdinal
  {
    MonthLength(d.year, d.month);
    DaysBeforeMonthMonotone(d.year, d.month + 1, 13);
    DaysBeforeNextYear(d.year);
    DaysBeforeYearMonotone(d.year + 1, MaxYear + 1);
    LastOrdinal();
    DaysBeforeYear(d.year) + DaysBeforeMonth(d.year, d.month) + d.day
  }

  /** The year, searched upwards from `year`, whose days contain ordinal `n`. */
  function YearOf(n: int, year: int): (r: int)
    requires 1 <= year && DaysBeforeYear(year) < n
    ensures year <= r && DaysBeforeYear(r) < n <= DaysBeforeYear(r + 1)
    decreases n - DaysBeforeYear(year)
  {
    DaysBeforeNextYear(year);
    if n <= DaysBeforeYear(year + 1) then year else YearOf(n, year + 1)
  }

  /** The month, searched upwards from `month`, that holds day `k` of `year`. */
  function MonthOf(year: int, k: int, month: int): (r: int)
    requires 1 <= month <= 12 && DaysBeforeMonth(year, month) < k <= DaysInYear(year)
    ensures month <= r <= 12 && DaysBeforeMonth(year, r) < k <= DaysBeforeMonth(year, r + 1)
    decreases 12 - month
  {
    MonthLength(year, month);
    if k <= DaysBeforeMonth(year, month + 1) then month else MonthOf(year, k, month + 1)
  }

  /** `date.fromordinal(n)`: a valid date whose ordinal is `n`. */
  function FromOrdinal(n: int): (d: Ymd)
    requires 1 <= n <= MaxOrdinal
    ensures ValidDate(d) && ToOrdinal(d) == n
  {
    var year := YearOf(n, 1);
    DaysBeforeNextYear(year);
    assert year <= MaxYear by {
      if year > MaxYear { DaysBeforeYearMonotone(MaxYear + 1, year); }
    }
    var k := n - DaysBeforeYear(year);
    var month := MonthOf(year, k, 1);
    MonthLength(year, month);
    Ymd(year, month, k - DaysBeforeMonth(year, month))
  }

  /** At most one year holds a given ordinal. */
  lemma YearUnique(a: int, b: int, n: int)
    requires 1 <= a && DaysBeforeYear(a) < n <= DaysBeforeYear(a + 1)
    requires 1 <= b && DaysBeforeYear(b) < n <= DaysBeforeYear(b + 1)
    ensures a == b
  {
    if a < b {
      DaysBeforeYearMonotone(a + 1, b);
    } else if a > b {
      DaysBeforeYearMonotone(b + 1, a);
    }
  }

  /** At most one month of `year` holds day `k` of that year. */
  lemma MonthUnique(year: int, a: int, b: int, k: int)
    requires 1 <= a <= 12 && DaysBeforeMonth(year, a) < k <= DaysBeforeMonth(year, a + 1)
    requires 1 <= b <= 12 && DaysBeforeMonth(year, b) < k <= DaysBeforeMonth(year, b + 1)
    ensures a == b
  {
    if a < b {
      DaysBeforeMonthMonotone(year, a + 1, b);
    } else if a > b {
      DaysBeforeMonthMonotone(year, b + 1, a);
    }
  }

  /** Converting a valid date to its ordinal and back gives the same date. */
  lemma FromToOrdinal(d: Ymd)
    requires ValidDate(d)
    ensures FromOrdinal(ToOrdinal(d)) == d
  {
    var n := ToOrdinal(d);
    var e := FromOrdinal(n);
    YearUnique(e.year, d.year, n);
    MonthLength(d.year, d.month);
    MonthLength(d.year, e.month);
    MonthUnique(d.year, e.month, d.month, n - DaysBeforeYear(d.year));
  }

  /** Two valid dates with the same ordinal are the same date. */
  lemma ToOrdinalInjective(d: Ymd, e: Ymd)
    requires ValidDate(d) && ValidDate(e) && ToOrdinal(d) == ToOrdinal(e)
    ensures d == e
  {
    FromToOrdinal(d);
    FromToOrdinal(e);
  }

  /** The ordinals from the first to the last day of a month are the days of that month. */
  lemma OrdinalsOfMonth(year: int, month: int, k: int)
    requires 1 <= year <= MaxYear && 1 <= month <= 12 && 1 <= k <= MaxOrdinal
    ensures var u := FromOrdinal(k);
            ToOrdinal(Ymd(year, month, 1)) <= k <= ToOrdinal(Ymd(year, month, DaysInMonth(year, month)))
            <==> (u.year == year && u.month == month)
  {
    var first := ToOrdinal(Ymd(year, month, 1));
    if first <= k <= ToOrdinal(Ymd(year, month, DaysInMonth(year, month))) {
      var day := Ymd(year, month, k - first + 1);
      assert ValidDate(day) && ToOrdinal(day) == k;
      FromToOrdinal(day);
    }
  }

  /** `date.weekday()` of the date with ordinal `n`: Monday is 0, Sunday is 6. */
  function Weekday(n: int): (r: int)
    ensures 0 <= r < 7
  {
    (n + 6) % 7
  }

  /** The weekdays repeat every seven days, and the day after `n` is the next weekday. */
  lemma WeekdayCycle(n: int)
    ensures Weekday(n + 7) == Weekday(n)
    ensures Weekday(n + 1) == (Weekday(n) + 1) % 7
  {
  }

  /** 0001-01-01, day 1, was a Monday. */
  lemma FirstDayMonday()
    ensures Weekday(ToOrdinal(Ymd(1, 1, 1))) == 0
  {
  }

  /** 2021-01-01 was a Friday. */
  lemma NewYear2021Friday()
    ensures Weekday(ToOrdinal(Ymd(2021, 1, 1))) == 4
  {
    assert DaysBeforeYear(2021) == 737790;
  }

  /** 9999-12-31, the last day a date can hold, was a Friday. */
  lemma LastDayFriday()
    ensures Weekday(ToOrdinal(Ymd(MaxYear, 12, 31))) == 4
  {
    DaysBeforeNextYear(MaxYear);
    LastOrdinal();
  }
}
