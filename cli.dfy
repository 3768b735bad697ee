/**
 * codenotes/cli/__init__.py: which search options were given, and the date or date
 * range a search covers. "Now" is a parameter (the ordinal of today's date) instead of a
 * read of the clock.
 */
module Cli {
  import opened Builtins
  import opened Calendar

  /** The search options the date helpers read (`args.text` is the list of search words). */
  datatype SearchArgs = SearchArgs(month: bool, text: seq<string>, today: bool, week: bool, yesterday: bool)

  /** What `dates_to_search` returns: None, one date, or a [first, last] pair. */
  datatype SearchDate = NoDate | Day(day: int) | Range(first: int, last: int)

  /** `OutOfRange` is the `OverflowError` Python raises for a date before 0001-01-01 or after 9999-12-31. */
  datatype DateResult = Resolved(date: SearchDate) | OutOfRange

  /** The Monday-to-Sunday week holding `now`. */
  predicate IsWeekOf(d: SearchDate, now: int) {
    d.Range? && Weekday(d.first) == 0 && d.last == d.first + 6 && d.first <= now <= d.last
  }

  /** The first and last day of the month holding `now`. */
  predicate IsMonthOf(d: SearchDate, now: int)
    requires 1 <= now <= MaxOrdinal
  {
    var t := FromOrdinal(now);
    && d.Range?
    && 1 <= d.first <= d.last <= MaxOrdinal
    && FromOrdinal(d.first) == Ymd(t.year, t.month, 1)
    && FromOrdinal(d.last) == Ymd(t.year, t.month, DaysInMonth(t.year, t.month))
  }

  /**
   * The `args.week` branch of `dates_to_search`: the Monday on or before `now` and the
   * Sunday six days later, or the overflow when that Sunday is past 9999-12-31.
   */
  function WeekRange(now: int): (r: DateResult)
    requires 1 <= now <= MaxOrdinal
    ensures r == OutOfRange <==> now > MaxOrdinal - 5
    ensures r.Resolved? ==> IsWeekOf(r.date, now)
  {
    var first := now - Weekday(now);
    var last := first + 6;
    if last > MaxOrdinal then OutOfRange else Resolved(Range(first, last))
  }

  /**
   * The `args.month` branch of `dates_to_search`: the first day of the month holding
   * `now` and its last, `calendar.monthrange(...)[1]`.
   */
  function MonthRange(now: int): (r: SearchDate)
    requires 1 <= now <= MaxOrdinal
    ensures IsMonthOf(r, now)
  {
    var t := FromOrdinal(now);
    var first := Ymd(t.year, t.month, 1);
    var last := Ymd(t.year, t.month, DaysInMonth(t.year, t.month));
    MonthLength(t.year, t.month);
    FromToOrdinal(first);
    FromToOrdinal(last);
    Range(ToOrdinal(first), ToOrdinal(last))
  }

  /** `dates_to_search(args)` with `now` the ordinal of today. */
  function DatesToSearch(args: SearchArgs, now: int): (r: DateResult)
    requires 1 <= now <= MaxOrdinal
    ensures args.today ==> r == Resolved(Day(now))
    ensures !args.today && args.yesterday ==>
              (r == OutOfRange <==> now == 1) && (now > 1 ==> r == Resolved(Day(now - 1)))
    ensures !args.today && !args.yesterday && args.week ==>
              (r == OutOfRange <==> now > MaxOrdinal - 5) && (r.Resolved? ==> IsWeekOf(r.date, now))
    ensures !args.today && !args.yesterday && !args.week && args.month ==>
              r.Resolved? && IsMonthOf(r.date, now)
    ensures !args.today && !args.yesterday && !args.week && !args.month ==> r == Resolved(NoDate)
  {
    if args.today then
      Resolved(Day(now))
    else if args.yesterday then
      if now - 1 < 1 then OutOfRange else Resolved(Day(now - 1))
    else if args.week then
      WeekRange(now)
    else if args.month then
      Resolved(MonthRange(now))
    else
      Resolved(NoDate)
  }

  /**
   * `date_args_empty(args)`: true exactly when no search word and no date option was
   * given; then no date is searched, whatever the day.
   */
  function DateArgsEmpty(args: SearchArgs): (r: bool)
    ensures r <==> !args.month && |args.text| == 0 && !args.today && !args.week && !args.yesterday
    ensures r ==> forall now :: 1 <= now <= MaxOrdinal ==> DatesToSearch(args, now) == Resolved(NoDate)
  {
    var needed := [args.month, |args.text| > 0, args.today, args.week, args.yesterday];
    assert needed[0] == args.month && needed[1] == (|args.text| > 0) && needed[2] == args.today;
    assert needed[3] == args.week && needed[4] == args.yesterday;
    !Any(needed)
  }

  /** The week range is the only Monday-to-Sunday range holding `now`. */
  lemma WeekIsUnique(now: int, first: int)
    requires 1 <= now <= MaxOrdinal - 5
    requires Weekday(first) == 0 && first <= now <= first + 6
    ensures DatesToSearch(SearchArgs(false, [], false, true, false), now) == Resolved(Range(first, first + 6))
  {
    assert first == now - Weekday(now);
  }

  /** A day lies in the month range exactly when it has the year and month of `now`. */
  lemma MonthRangeIsMonth(now: int, k: int)
    requires 1 <= now <= MaxOrdinal && 1 <= k <= MaxOrdinal
    ensures var d := DatesToSearch(SearchArgs(true, [], false, false, false), now).date;
            var t, u := FromOrdinal(now), FromOrdinal(k);
            d.first <= k <= d.last <==> (u.year == t.year && u.month == t.month)
  {
    var d := DatesToSearch(SearchArgs(true, [], false, false, false), now).date;
    var t, u := FromOrdinal(now), FromOrdinal(k);
    MonthLength(t.year, t.month);
    OrdinalsOfMonth(t.year, t.month, k);
  }

  /** The month range spans the month's 28 to 31 days; February spans 29 in a leap year. */
  lemma MonthRangeLength(now: int)
    requires 1 <= now <= MaxOrdinal
    ensures var d := DatesToSearch(SearchArgs(true, [], false, false, false), now).date;
            var t := FromOrdinal(now);
            && d.last - d.first + 1 == DaysInMonth(t.year, t.month)
            && 28 <= d.last - d.first + 1 <= 31
            && (t.month == 2 ==> (d.last - d.first + 1 == 29 <==> IsLeap(t.year)))
  {
    var t := FromOrdinal(now);
    MonthLength(t.year, t.month);
  }
}
