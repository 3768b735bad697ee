/**
 * codenotes/util/args.py: joining argument words into one trimmed text, and second
 * copies of the date helpers of codenotes/cli/__init__.py.
 */
module Args {
  import opened Builtins
  import opened Calendar
  import Cli

  /**
   * `format_argument_text(words)`: the words joined with spaces, with the leading and
   * trailing whitespace removed and nothing else changed.
   */
  function FormatArgumentText(words: seq<string>): (r: string)
    ensures |words| == 0 ==> r == ""
    ensures r == "" || (!IsWhitespace(r[0]) && !IsWhitespace(r[|r| - 1]))
    ensures r == "" <==> IsBlank(Join(words, ' '))
  {
    var text := Join(words, ' ');
    var r := Strip(text);
    assert |words| == 0 ==> text == "";
    r
  }

  /** The result is the joined text with only blank text cut from either end. */
  lemma FormatArgumentTextTrims(words: seq<string>)
    ensures IsTrimOf(FormatArgumentText(words), Join(words, ' '))
  {
    StripFrames(Join(words, ' '));
  }

  /** Formatting the result again, as a single word, gives it back unchanged. */
  lemma FormatArgumentTextIdempotent(words: seq<string>)
    ensures FormatArgumentText([FormatArgumentText(words)]) == FormatArgumentText(words)
  {
    var r := FormatArgumentText(words);
    assert Join([r], ' ') == r;
    StripIdempotent(Join(words, ' '));
  }

  /** This copy of `date_args_empty` answers as the one in codenotes/cli/__init__.py. */
  function DateArgsEmpty(args: Cli.SearchArgs): (r: bool)
    ensures r == Cli.DateArgsEmpty(args)
  {
    var needed := [args.month, |args.text| > 0, args.today, args.week, args.yesterday];
    assert needed[0] == args.month && needed[1] == (|args.text| > 0) && needed[2] == args.today;
    assert needed[3] == args.week && needed[4] == args.yesterday;
    !Any(needed)
  }

  /**
   * This copy of `dates_to_search` answers as the one in codenotes/cli/__init__.py: the
   * same day, week range and month range, and no date when no date option is set.
   */
  function DatesToSearch(args: Cli.SearchArgs, now: int): (r: Cli.DateResult)
    requires 1 <= now <= MaxOrdinal
    ensures r == Cli.DatesToSearch(args, now)
  {
    if args.today then
      Cli.Resolved(Cli.Day(now))
    else if args.yesterday then
      if now - 1 < 1 then Cli.OutOfRange else Cli.Resolved(Cli.Day(now - 1))
    else if args.week then
      Cli.WeekRange(now)
    else if args.month then
      Cli.Resolved(Cli.MonthRange(now))
    else
      Cli.Resolved(Cli.NoDate)
  }
}
