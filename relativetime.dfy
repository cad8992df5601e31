/**
 * `parse_relative_time` (main.py:563-601): Facebook shows when a post was
 * made as "3小时前" (three hours ago), as "2024年5月1日12:30", as "5月1日", or
 * in some other way. The text is tried against three patterns in turn with
 * `re.match` (anchored at the start, not at the end) and turned into
 * "YYYY-MM-DD HH:MM:SS"; text no pattern accepts gives the current moment.
 * The current moment, read from the clock in the source, is a parameter.
 */
module RelativeTime {
  import opened Results
  import opened Text
  import opened Calendar

  // ------------------------------------------------ (\d+)(分钟|小时|天)

  datatype TimeUnit = Minutes | Hours | Days

  /** The word for each unit, as the `time_units` table spells it. */
  function UnitText(u: TimeUnit): (w: string)
    ensures w != [] && !IsDigit(w[0])
  {
    match u
    case Minutes => "分钟"
    case Hours => "小时"
    case Days => "天"
  }

  /** The length of each unit in seconds (`timedelta(minutes=1)` and so on). */
  function UnitSeconds(u: TimeUnit): (k: nat)
    ensures k > 0
  {
    match u
    case Minutes => 60
    case Hours => 3600
    case Days => 86400
  }

  /** The unit word `rest` starts with, if any. */
  function UnitAt(rest: string): (r: Option<TimeUnit>)
    ensures r.Some? ==> StartsWith(rest, UnitText(r.value))
  {
    if |rest| >= 2 && rest[0] == '分' && rest[1] == '钟' then Some(Minutes)
    else if |rest| >= 2 && rest[0] == '小' && rest[1] == '时' then Some(Hours)
    else if |rest| >= 1 && rest[0] == '天' then Some(Days)
    else None
  }

  /**
   * `re.match(r'(\d+)(分钟|小时|天)', s)`: the amount and the unit. `\d+` is
   * greedy, and giving back a digit cannot help, because no unit word starts
   * with a digit, so the longest digit run is the only candidate.
   */
  function RelativeMatch(s: string): (r: Option<(nat, TimeUnit)>)
    ensures r.Some? ==> DigitRun(s) != [] && r.value.0 == NatOf(DigitRun(s))
  {
    var d := DigitRun(s);
    if d == [] then None
    else
      match UnitAt(s[|d|..])
      case None => None
      case Some(u) => Some((NatOf(d), u))
  }

  // ------------------------------------------- (\d{4})年(\d{1,2})月...

  /**
   * `\d{1,2}` at position `i` followed by the character `c`: the number and the
   * position just after `c`. Two digits are tried first; when `c` is not a
   * digit, the two alternatives cannot both apply.
   */
  function DigitsThen(s: string, i: nat, c: char): (r: Option<(nat, nat)>)
    ensures r.Some? ==> r.value.0 <= 99 && i + 2 <= r.value.1 <= i + 3 && r.value.1 <= |s|
    ensures r.Some? ==> s[r.value.1 - 1] == c && AllDigits(s[i..r.value.1 - 1])
  {
    if i + 2 < |s| && IsDigit(s[i]) && IsDigit(s[i + 1]) && s[i + 2] == c then
      Some((TwoDigits(s[i], s[i + 1]), i + 3))
    else if i + 1 < |s| && IsDigit(s[i]) && s[i + 1] == c then
      Some((DigitValue(s[i]), i + 2))
    else None
  }

  /**
   * The five groups of `re.match(r'(\d{4})年(\d{1,2})月(\d{1,2})日(\d{1,2}):(\d{2})', s)`
   * as the fields of a moment with zero seconds; the moment is not yet checked
   * to exist.
   */
  function AbsoluteMatch(s: string): (r: Option<DateTime>)
    ensures r.Some? ==> 5 <= |s| && AllDigits(s[..4]) && s[4] == '年'
    ensures r.Some? ==> r.value.year == NatOf(s[..4]) && r.value.second == 0
  {
    if 5 <= |s| && AllDigits(s[..4]) && s[4] == '年' then
      match DigitsThen(s, 5, '月')
      case None => None
      case Some((month, i)) =>
        match DigitsThen(s, i, '日')
        case None => None
        case Some((day, j)) =>
          match DigitsThen(s, j, ':')
          case None => None
          case Some((hour, k)) =>
            if k + 1 < |s| && IsDigit(s[k]) && IsDigit(s[k + 1])
            then Some(DateTime(NatOf(s[..4]), month, day, hour, TwoDigits(s[k], s[k + 1]), 0))
            else None
    else None
  }

  // --------------------------------------------------- (\d{1,2})月(\d{1,2})日

  /** The two groups of `re.match(r'(\d{1,2})月(\d{1,2})日', s)`: month and day. */
  function MonthDayMatch(s: string): (r: Option<(nat, nat)>)
    ensures r.Some? ==> r.value.0 <= 99 && r.value.1 <= 99
  {
    match DigitsThen(s, 0, '月')
    case None => None
    case Some((month, i)) =>
      match DigitsThen(s, i, '日')
      case None => None
      case Some((day, _)) => Some((month, day))
  }

  /** The day `(y, m, d)` is not later than the day `now` falls on. */
  predicate OnOrBefore(y: int, m: int, d: int, now: DateTime)
  {
    y < now.year || (y == now.year && (m < now.month || (m == now.month && d <= now.day)))
  }

  /**
   * The year a month and day without a year are read in: the current year,
   * or the one before when that day is still to come this year. It is the
   * latest year in which that month and day are not in the future.
   */
  function YearFor(now: DateTime, month: int, day: int): (y: int)
    ensures OnOrBefore(y, month, day, now) && !OnOrBefore(y + 1, month, day, now)
  {
    if now.month < month || (now.month == month && now.day < day) then now.year - 1 else now.year
  }

  // ------------------------------------------------------------ the parser

  /**
   * The moment `parse_relative_time(s)` builds before printing it, with the
   * clock reading `now`. The only failure is the OverflowError of going back
   * past 0001-01-01 00:00:00 (or of building a `timedelta` larger than Python
   * allows, which is further back still). A moment that does not exist (a
   * 13th month, a 30th of February) makes the pattern it came from fall
   * through to the next one.
   */
  function MomentOf(s: string, now: DateTime): (r: Result<DateTime>)
    requires Valid(now)
    ensures r.Ok? ==> Valid(r.value)
    ensures r.Fail? ==> RelativeMatch(s).Some? && RelativeMatch(s).value.0 > 0
  {
    match RelativeMatch(s)
    case Some((n, u)) => Minus(now, n * UnitSeconds(u))
    case None =>
      var a := AbsoluteMatch(s);
      if a.Some? && Valid(a.value) then Ok(a.value)
      else
        match MonthDayMatch(s)
        case Some((month, day)) =>
          var y := YearFor(now, month, day);
          if ValidDate(y, month, day) then Ok(DateTime(y, month, day, 0, 0, 0)) else Ok(now)
        case None => Ok(now)
  }

  /** `parse_relative_time(s)`: the moment as "YYYY-MM-DD HH:MM:SS", which reads back as that moment. */
  function ParseRelativeTime(s: string, now: DateTime): (r: Result<string>)
    requires Valid(now)
    ensures r.Ok? <==> MomentOf(s, now).Ok?
    ensures r.Ok? ==> IsCanonical(r.value) && ParseTimestamp(r.value) == Some(MomentOf(s, now).value)
  {
    match MomentOf(s, now)
    case Ok(dt) => FormatRoundTrip(dt); Ok(Format(dt))
    case Fail(msg) => Fail(msg)
  }

  // ------------------------------------------------------------ properties

  /** A number of one or two digits, the character after it, and the rest of the text. */
  function NumberThen(n: nat, padded: bool, c: char, rest: string): (s: string)
    requires n <= 99
    ensures |s| == |Written(n, padded)| + 1 + |rest|
  {
    Written(n, padded) + [c] + rest
  }

  /** A number written at `|pre|` in `s` and followed by `c` is matched by `DigitsThen`. */
  lemma DigitsThenWritten(s: string, pre: string, n: nat, padded: bool, c: char, rest: string)
    requires n <= 99 && !IsDigit(c) && s == pre + NumberThen(n, padded, c, rest)
    ensures DigitsThen(s, |pre|, c) == Some((n, |pre| + |Written(n, padded)| + 1))
    ensures s == (pre + Written(n, padded) + [c]) + rest
  {
    var w := Written(n, padded);
    assert s[|pre|] == w[0];
    if |w| == 2 {
      assert s[|pre| + 1] == w[1] && s[|pre| + 2] == c;
    } else {
      assert s[|pre| + 1] == c;
    }
  }

  /** The amount and unit of "<digits><unit>..." are read off exactly. */
  lemma RelativeMatchOf(d: string, u: TimeUnit, tail: string)
    requires d != [] && AllDigits(d)
    ensures RelativeMatch(d + (UnitText(u) + tail)) == Some((NatOf(d), u))
  {
    DigitRunConcat(d, UnitText(u) + tail);
    assert (d + (UnitText(u) + tail))[|d|..] == UnitText(u) + tail;
  }

  /**
   * "<n><unit>..." (such as "3小时前") is the moment `n` units before `now`:
   * it succeeds exactly when that moment is not before 0001-01-01, and its
   * text then reads back as a moment exactly that many seconds earlier.
   */
  lemma RelativeForm(d: string, u: TimeUnit, tail: string, now: DateTime)
    requires d != [] && AllDigits(d) && Valid(now)
    ensures var r := ParseRelativeTime(d + (UnitText(u) + tail), now);
      && (r.Ok? <==> NatOf(d) * UnitSeconds(u) <= ToSeconds(now))
      && (r.Ok? ==> ParseTimestamp(r.value).Some?
                    && ToSeconds(ParseTimestamp(r.value).value) == ToSeconds(now) - NatOf(d) * UnitSeconds(u))
  {
    RelativeMatchOf(d, u, tail);
  }

  /** A year of four digits and '年', then the rest of the text. */
  predicate YearPrefix(s: string)
  {
    5 <= |s| && AllDigits(s[..4]) && s[4] == '年'
  }

  /** Text that starts with a year is never read as a relative amount or a month and day. */
  lemma NothingElseAfterYear(s: string)
    requires YearPrefix(s)
    ensures RelativeMatch(s) == None && MonthDayMatch(s) == None
  {
    assert s == s[..4] + s[4..];
    assert s[4..][0] == '年';
    DigitRunConcat(s[..4], s[4..]);
    assert IsDigit(s[..4][1]) && IsDigit(s[..4][2]);
  }

  lemma YearPrefixOf(y: nat, rest: string)
    requires y <= 9999
    ensures YearPrefix(Padded(y, 4) + ['年'] + rest)
    ensures (Padded(y, 4) + ['年'] + rest)[..4] == Padded(y, 4) && NatOf(Padded(y, 4)) == y
  {
    var s := Padded(y, 4) + ['年'] + rest;
    assert s[..4] == Padded(y, 4);
    assert s[4] == '年';
    PaddedRoundTrip(y, 4);
  }

  /** The absolute form written out, with any text after it. */
  function AbsoluteText(y: nat, month: nat, pmonth: bool, day: nat, pday: bool,
                        hour: nat, phour: bool, minute: nat, tail: string): string
    requires month <= 99 && day <= 99 && hour <= 99
  {
    Padded(y, 4) + ['年'] + NumberThen(month, pmonth, '月',
                             NumberThen(day, pday, '日',
                               NumberThen(hour, phour, ':', Padded(minute, 2) + tail)))
  }

  lemma MinuteField(pre: string, minute: nat, tail: string)
    requires minute <= 99
    ensures var s := pre + (Padded(minute, 2) + tail);
      |pre| + 1 < |s| && IsDigit(s[|pre|]) && IsDigit(s[|pre| + 1])
      && TwoDigits(s[|pre|], s[|pre| + 1]) == minute
  {
    var s := pre + (Padded(minute, 2) + tail);
    var mm := Padded(minute, 2);
    assert s[|pre|] == mm[0] && s[|pre| + 1] == mm[1];
    PaddedRoundTrip(minute, 2);
    NatOfTwo(mm);
  }

  /** "YYYY年M月D日" as written, without the text after it. */
  function DatePrefix(y: nat, month: nat, pmonth: bool, day: nat, pday: bool): string
    requires month <= 99 && day <= 99
  {
    Padded(y, 4) + ['年'] + Written(month, pmonth) + ['月'] + Written(day, pday) + ['日']
  }

  /** The year, month and day groups of a written date, with any text after it. */
  lemma DateGroups(s: string, y: nat, month: nat, pmonth: bool, day: nat, pday: bool, rest: string)
    requires y <= 9999 && month <= 99 && day <= 99
    requires s == Padded(y, 4) + ['年'] + NumberThen(month, pmonth, '月', NumberThen(day, pday, '日', rest))
    ensures var i := 5 + |Written(month, pmonth)| + 1;
      && YearPrefix(s) && NatOf(s[..4]) == y
      && DigitsThen(s, 5, '月') == Some((month, i))
      && DigitsThen(s, i, '日') == Some((day, |DatePrefix(y, month, pmonth, day, pday)|))
      && s == DatePrefix(y, month, pmonth, day, pday) + rest
  {
    var r1 := NumberThen(day, pday, '日', rest);
    var p1 := Padded(y, 4) + ['年'];
    var p2 := p1 + Written(month, pmonth) + ['月'];
    assert YearPrefix(s) && NatOf(s[..4]) == y by {
      YearPrefixOf(y, NumberThen(month, pmonth, '月', r1));
    }
    assert DigitsThen(s, 5, '月') == Some((month, |p2|)) && s == p2 + r1 by {
      DigitsThenWritten(s, p1, month, pmonth, '月', r1);
    }
    DigitsThenWritten(s, p2, day, pday, '日', rest);
  }

  /** `AbsoluteMatch` from the matches of its groups. */
  lemma AbsoluteMatchSteps(s: string, month: nat, i: nat, day: nat, j: nat, hour: nat, k: nat)
    requires YearPrefix(s)
    requires DigitsThen(s, 5, '月') == Some((month, i))
    requires DigitsThen(s, i, '日') == Some((day, j))
    requires DigitsThen(s, j, ':') == Some((hour, k))
    requires k + 1 < |s| && IsDigit(s[k]) && IsDigit(s[k + 1])
    ensures AbsoluteMatch(s) == Some(DateTime(NatOf(s[..4]), month, day, hour, TwoDigits(s[k], s[k + 1]), 0))
  {
  }

  lemma AbsoluteMatchOf(y: nat, month: nat, pmonth: bool, day: nat, pday: bool,
                        hour: nat, phour: bool, minute: nat, tail: string)
    requires y <= 9999 && month <= 99 && day <= 99 && hour <= 99 && minute <= 99
    ensures AbsoluteMatch(AbsoluteText(y, month, pmonth, day, pday, hour, phour, minute, tail))
         == Some(DateTime(y, month, day, hour, minute, 0))
  {
    var s := AbsoluteText(y, month, pmonth, day, pday, hour, phour, minute, tail);
    var r3 := Padded(minute, 2) + tail;
    var r2 := NumberThen(hour, phour, ':', r3);
    var p3 := DatePrefix(y, month, pmonth, day, pday);
    var p4 := p3 + Written(hour, phour) + [':'];
    DateGroups(s, y, month, pmonth, day, pday, r2);
    assert DigitsThen(s, |p3|, ':') == Some((hour, |p4|)) && s == p4 + r3 by {
      DigitsThenWritten(s, p3, hour, phour, ':', r3);
    }
    assert |p4| + 1 < |s| && IsDigit(s[|p4|]) && IsDigit(s[|p4| + 1])
        && TwoDigits(s[|p4|], s[|p4| + 1]) == minute by {
      MinuteField(p4, minute, tail);
    }
    AbsoluteMatchSteps(s, month, 5 + |Written(month, pmonth)| + 1, day, |p3|, hour, |p4|);
  }

  /**
   * "YYYY年M月D日H:MM..." is that moment when it exists; a moment that does
   * not exist (month 13, hour 24, year 0) falls through to the current moment.
   */
  lemma AbsoluteForm(y: nat, month: nat, pmonth: bool, day: nat, pday: bool,
                     hour: nat, phour: bool, minute: nat, tail: string, now: DateTime)
    requires y <= 9999 && month <= 99 && day <= 99 && hour <= 99 && minute <= 99 && Valid(now)
    ensures var m := MomentOf(AbsoluteText(y, month, pmonth, day, pday, hour, phour, minute, tail), now);
      var dt := DateTime(y, month, day, hour, minute, 0);
      && (Valid(dt) ==> m == Ok(dt))
      && (!Valid(dt) ==> m == Ok(now))
  {
    var s := AbsoluteText(y, month, pmonth, day, pday, hour, phour, minute, tail);
    AbsoluteMatchOf(y, month, pmonth, day, pday, hour, phour, minute, tail);
    NothingElseAfterYear(s);
  }

  /**
   * A date with a year but without the time of day ("2024年5月1日") matches
   * none of the patterns, so it gives the current moment and not that date.
   */
  lemma DateWithoutTime(y: nat, month: nat, pmonth: bool, day: nat, pday: bool, now: DateTime)
    requires y <= 9999 && month <= 99 && day <= 99 && Valid(now)
    ensures MomentOf(Padded(y, 4) + ['年'] + NumberThen(month, pmonth, '月', NumberThen(day, pday, '日', [])), now)
         == Ok(now)
  {
    var s := Padded(y, 4) + ['年'] + NumberThen(month, pmonth, '月', NumberThen(day, pday, '日', []));
    DateGroups(s, y, month, pmonth, day, pday, []);
    assert AbsoluteMatch(s) == None;
    NothingElseAfterYear(s);
  }

  /** The month and day of "M月D日..." are read off exactly. */
  lemma MonthDayMatchOf(month: nat, pmonth: bool, day: nat, pday: bool, tail: string)
    requires month <= 99 && day <= 99
    ensures MonthDayMatch(NumberThen(month, pmonth, '月', NumberThen(day, pday, '日', tail))) == Some((month, day))
  {
    var w := Written(month, pmonth);
    var r1 := NumberThen(day, pday, '日', tail);
    var s := NumberThen(month, pmonth, '月', r1);
    assert [] + s == s && [] + w == w;
    assert DigitsThen(s, 0, '月') == Some((month, |w| + 1)) && s == (w + ['月']) + r1 by {
      DigitsThenWritten(s, [], month, pmonth, '月', r1);
    }
    assert DigitsThen(s, |w| + 1, '日').Some? && DigitsThen(s, |w| + 1, '日').value.0 == day by {
      DigitsThenWritten(s, w + ['月'], day, pday, '日', tail);
    }
  }

  /** Text that starts with a month is neither a relative amount nor a full date. */
  lemma MonthFirst(month: nat, pmonth: bool, rest: string)
    requires month <= 99
    ensures var s := NumberThen(month, pmonth, '月', rest);
      RelativeMatch(s) == None && !YearPrefix(s)
  {
    var w := Written(month, pmonth);
    var s := NumberThen(month, pmonth, '月', rest);
    assert s[|w|] == '月';
    if 5 <= |s| {
      assert s[..4][|w|] == '月';
    }
    assert s == w + (['月'] + rest);
    DigitRunConcat(w, ['月'] + rest);
  }

  /**
   * "M月D日..." is midnight of the latest such day that is not in the future,
   * when that day exists; otherwise the current moment.
   */
  lemma MonthDayForm(month: nat, pmonth: bool, day: nat, pday: bool, tail: string, now: DateTime)
    requires month <= 99 && day <= 99 && Valid(now)
    ensures var m := MomentOf(NumberThen(month, pmonth, '月', NumberThen(day, pday, '日', tail)), now);
      var y := YearFor(now, month, day);
      && (ValidDate(y, month, day) ==> m == Ok(DateTime(y, month, day, 0, 0, 0)))
      && (!ValidDate(y, month, day) ==> m == Ok(now))
  {
    MonthDayMatchOf(month, pmonth, day, pday, tail);
    MonthFirst(month, pmonth, NumberThen(day, pday, '日', tail));
  }

  /** Text that does not start with a digit ("昨天", "") is the current moment. */
  lemma Fallback(s: string, now: DateTime)
    requires Valid(now) && (s == [] || !IsDigit(s[0]))
    ensures ParseRelativeTime(s, now) == Ok(Format(now))
  {
    if s != [] && |s| >= 4 {
      assert !IsDigit(s[..4][0]);
    }
  }

  /**
   * A digit run followed by a character that starts none of the three forms
   * ("1 小时前", "2 天前", "5号") is the current moment as well.
   */
  lemma DigitsThenOther(d: string, c: char, tail: string, now: DateTime)
    requires d != [] && AllDigits(d) && Valid(now)
    requires !IsDigit(c) && c != '分' && c != '小' && c != '天' && c != '月' && c != '年'
    ensures ParseRelativeTime(d + ([c] + tail), now) == Ok(Format(now))
  {
    var s := d + ([c] + tail);
    assert s[|d|] == c;
    assert RelativeMatch(s) == None by {
      DigitRunConcat(d, [c] + tail);
      assert s[|d|..] == [c] + tail;
    }
    assert AbsoluteMatch(s) == None by {
      if |d| < 4 {
        if |s| >= 5 {
          assert s[..4][|d|] == c;
        }
      } else if |d| == 4 {
        assert s[4] == c;
      } else {
        assert IsDigit(s[4]) && s[4] == d[4];
      }
    }
    assert MonthDayMatch(s) == None by {
      if |d| >= 2 {
        assert IsDigit(s[0]) && IsDigit(s[1]);
        assert |d| == 2 ==> s[2] == c;
        assert |d| > 2 ==> IsDigit(s[2]) && s[2] == d[2];
      } else {
        assert s[1] == c;
      }
    }
  }

  // -------------------------------------------------------------- examples

  lemma HoursAgoMoment()
    ensures Minus(DateTime(2024, 5, 10, 12, 0, 0), 3 * 3600) == Ok(DateTime(2024, 5, 10, 9, 0, 0))
  {
    MinusWithinDay(DateTime(2024, 5, 10, 12, 0, 0), 3, 0);
  }

  lemma HoursAgoDate()
    ensures Triple(2024, 4, '-', 5, 10) == "2024-05-10"
  {
    PaddedNext(2, 0, "");
    PaddedNext(20, 1, "2");
    PaddedNext(202, 2, "20");
    PaddedNext(2024, 3, "202");
    PaddedNext(0, 0, "");
    PaddedNext(5, 1, "0");
    PaddedNext(1, 0, "");
    PaddedNext(10, 1, "1");
    TripleOf(2024, 4, '-', 5, 10, "2024", "05", "10");
  }

  lemma HoursAgoTime()
    ensures Triple(9, 2, ':', 0, 0) == "09:00:00"
  {
    assert Padded(9, 2) == "09";
    assert Padded(0, 2) == "00";
    TripleOf(9, 2, ':', 0, 0, "09", "00", "00");
  }

  lemma HoursAgoText()
    ensures Format(DateTime(2024, 5, 10, 9, 0, 0)) == "2024-05-10 09:00:00"
  {
    HoursAgoDate();
    HoursAgoTime();
  }

  /** "3小时前" read at 2024-05-10 12:00:00. */
  lemma HoursAgoExample()
    ensures ParseRelativeTime("3小时前", DateTime(2024, 5, 10, 12, 0, 0)) == Ok("2024-05-10 09:00:00")
  {
    assert "3小时前" == "3" + (UnitText(Hours) + "前");
    RelativeMatchOf("3", Hours, "前");
    assert NatOf("3") == 3;
    HoursAgoMoment();
    HoursAgoText();
  }

  lemma LastYearInput()
    ensures NumberThen(12, false, '月', NumberThen(25, false, '日', "")) == "12月25日"
  {
    assert Written(12, false) == "12" && Written(25, false) == "25";
  }

  lemma LastYearDate()
    ensures Triple(2023, 4, '-', 12, 25) == "2023-12-25"
  {
    PaddedNext(2, 0, "");
    PaddedNext(20, 1, "2");
    PaddedNext(202, 2, "20");
    PaddedNext(2023, 3, "202");
    PaddedNext(1, 0, "");
    PaddedNext(12, 1, "1");
    PaddedNext(25, 1, "2");
    TripleOf(2023, 4, '-', 12, 25, "2023", "12", "25");
  }

  lemma LastYearText()
    ensures Format(DateTime(2023, 12, 25, 0, 0, 0)) == "2023-12-25 00:00:00"
  {
    LastYearDate();
    assert Triple(0, 2, ':', 0, 0) == "00:00:00";
  }

  /** "12月25日" read in May 2024 is Christmas 2023. */
  lemma LastYearExample()
    ensures ParseRelativeTime("12月25日", DateTime(2024, 5, 10, 12, 0, 0)) == Ok("2023-12-25 00:00:00")
  {
    MonthDayForm(12, false, 25, false, "", DateTime(2024, 5, 10, 12, 0, 0));
    LastYearInput();
    LastYearText();
  }
}
