/**
 * `adjust_tiktok_date` (main.py:55-70): TikTok shows a post's date either as
 * "YYYY-MM-DD", as "M-D" / "MM-DD" within the current year, or as some other
 * text (such as "3天前") that is passed through. The two date forms go through
 * `datetime.strptime(..., "%Y-%m-%d")`, which is modelled here field by field,
 * and come out as "YYYY-MM-DD 00:00:00". The current year, read from the clock
 * in the source, is a parameter.
 */
module TikTokDate {
  import opened Results
  import opened Text
  import opened Calendar

  // --------------------------------------------------- strptime("%Y-%m-%d")

  /** One field matched by a `strptime` directive: its value and the characters it took. */
  datatype Field = Field(value: nat, width: nat)

  /** Two characters matched by the two-character alternatives of `%m`: `1[0-2]|0[1-9]`. */
  predicate TwoDigitMonth(a: char, b: char)
  {
    (a == '1' && '0' <= b <= '2') || (a == '0' && '1' <= b <= '9')
  }

  /**
   * `%m` at position `i`, where the format needs a '-' right after it. Of the
   * alternatives `1[0-2]|0[1-9]|[1-9]` at most one is followed by '-', so the
   * backtracking regex match has exactly this outcome.
   */
  function MonthField(t: string, i: nat): (f: Option<Field>)
    ensures f.Some? ==> 1 <= f.value.value <= 12 && 1 <= f.value.width <= 2
    ensures f.Some? ==> i + f.value.width < |t| && t[i + f.value.width] == '-'
  {
    if i + 2 < |t| && t[i + 2] == '-' && TwoDigitMonth(t[i], t[i + 1]) then
      Some(Field(10 * DigitValue(t[i]) + DigitValue(t[i + 1]), 2))
    else if i + 1 < |t| && t[i + 1] == '-' && '1' <= t[i] <= '9' then
      Some(Field(DigitValue(t[i]), 1))
    else None
  }

  /** Two characters matched by the two-digit alternatives of `%d`: `3[01]|[12]\d|0[1-9]`. */
  predicate TwoDigitDay(a: char, b: char)
  {
    (a == '3' && (b == '0' || b == '1')) || ((a == '1' || a == '2') && IsDigit(b)) || (a == '0' && '1' <= b <= '9')
  }

  /**
   * `%d` at position `i`: the first of `3[01]|[12]\d|0[1-9]|[1-9]| [1-9]`
   * that matches. Nothing follows `%d` in the format, so the regex match takes
   * that alternative and `strptime` then rejects any characters left over.
   */
  function DayField(t: string, i: nat): (f: Option<Field>)
    ensures f.Some? ==> 1 <= f.value.value <= 31 && 1 <= f.value.width <= 2 && i + f.value.width <= |t|
  {
    if i + 1 < |t| && TwoDigitDay(t[i], t[i + 1]) then
      Some(Field(10 * DigitValue(t[i]) + DigitValue(t[i + 1]), 2))
    else if i < |t| && '1' <= t[i] <= '9' then
      Some(Field(DigitValue(t[i]), 1))
    else if i + 1 < |t| && t[i] == ' ' && '1' <= t[i + 1] <= '9' then
      Some(Field(DigitValue(t[i + 1]), 2))
    else None
  }

  /** Four ASCII digits and a '-' at the start of `t`: `%Y-`. */
  predicate YearField(t: string)
  {
    |t| >= 5 && IsDigit(t[0]) && IsDigit(t[1]) && IsDigit(t[2]) && IsDigit(t[3]) && t[4] == '-'
  }

  /**
   * `datetime.strptime(t, "%Y-%m-%d")`: the date at midnight, or a failure
   * where Python raises ValueError (no match, unconverted data left over, or
   * a date `datetime` rejects, such as year 0 or February 30).
   */
  function StrptimeYmd(t: string): (r: Result<DateTime>)
    ensures r.Ok? ==> Valid(r.value) && r.value.hour == 0 && r.value.minute == 0 && r.value.second == 0
    ensures r.Ok? ==> YearField(t) && r.value.year == NatOf(t[..4]) && |t| <= 10
  {
    if !YearField(t) then Fail("time data does not match format '%Y-%m-%d'")
    else
      match MonthField(t, 5)
      case None => Fail("time data does not match format '%Y-%m-%d'")
      case Some(m) =>
        match DayField(t, 6 + m.width)
        case None => Fail("time data does not match format '%Y-%m-%d'")
        case Some(d) =>
          if 6 + m.width + d.width < |t| then Fail("unconverted data remains")
          else
            assert AllDigits(t[..4]);
            var y := NatOf(t[..4]);
            if ValidDate(y, m.value, d.value) then Ok(DateTime(y, m.value, d.value, 0, 0, 0))
            else Fail("day is out of range for month")
  }

  // ------------------------------------------------------ adjust_tiktok_date

  /** `re.match(r"\d{4}-\d{2}-\d{2}", s)`. */
  predicate FullDatePrefix(s: string)
  {
    && |s| >= 10 && IsDigit(s[0]) && IsDigit(s[1]) && IsDigit(s[2]) && IsDigit(s[3]) && s[4] == '-'
    && IsDigit(s[5]) && IsDigit(s[6]) && s[7] == '-' && IsDigit(s[8]) && IsDigit(s[9])
  }

  /** `re.match(r"\d{1,2}-\d{1,2}", s)`: one or two digits, '-', a digit. */
  predicate ShortDatePrefix(s: string)
  {
    || (|s| >= 3 && IsDigit(s[0]) && s[1] == '-' && IsDigit(s[2]))
    || (|s| >= 4 && IsDigit(s[0]) && IsDigit(s[1]) && s[2] == '-' && IsDigit(s[3]))
  }

  /** A canonical timestamp at 00:00:00. */
  predicate IsMidnight(s: string)
  {
    ParseTimestamp(s).Some? && s[10..] == " 00:00:00"
  }

  lemma MidnightText()
    ensures Triple(0, 2, ':', 0, 0) == "00:00:00"
  {
  }

  /** `.strftime("%Y-%m-%d 00:00:00")` of a parsed date. */
  function AtMidnight(r: Result<DateTime>): (out: Result<string>)
    requires r.Ok? ==> Valid(r.value) && r.value.hour == 0 && r.value.minute == 0 && r.value.second == 0
    ensures out.Ok? <==> r.Ok?
    ensures out.Ok? ==> IsMidnight(out.value) && ParseTimestamp(out.value) == Some(r.value)
  {
    match r
    case Ok(dt) =>
      FormatRoundTrip(dt);
      MidnightText();
      Ok(Format(dt))
    case Fail(msg) => Fail(msg)
  }

  /**
   * `adjust_tiktok_date(s)` in the year `currentYear`: a full date or a
   * month-day date becomes a midnight timestamp, an invalid one of those
   * fails (the ValueError propagates to the TikTok adapter), anything else
   * is returned unchanged.
   */
  function AdjustTikTokDate(s: string, currentYear: int): (r: Result<string>)
    requires MinYear <= currentYear <= MaxYear
    ensures r.Ok? ==> r.value == s || IsMidnight(r.value)
  {
    if FullDatePrefix(s) then AtMidnight(StrptimeYmd(s))
    else if ShortDatePrefix(s) then AtMidnight(StrptimeYmd(DecimalString(currentYear) + "-" + s))
    else Ok(s)
  }

  // ------------------------------------------------------------ properties

  lemma MonthFieldOf(pre: string, m: nat, pm: bool, rest: string)
    requires 1 <= m <= 12
    ensures MonthField(pre + Written(m, pm) + "-" + rest, |pre|) == Some(Field(m, |Written(m, pm)|))
  {
    var t := pre + Written(m, pm) + "-" + rest;
    var w := Written(m, pm);
    assert t[|pre|] == w[0];
    if |w| == 2 {
      assert t[|pre| + 1] == w[1] && t[|pre| + 2] == '-';
    } else {
      assert t[|pre| + 1] == '-';
    }
  }

  lemma DayFieldOf(pre: string, d: nat, pd: bool)
    requires 1 <= d <= 31
    ensures DayField(pre + Written(d, pd), |pre|) == Some(Field(d, |Written(d, pd)|))
  {
    var t := pre + Written(d, pd);
    var w := Written(d, pd);
    assert t[|pre|] == w[0];
    if |w| == 2 {
      assert t[|pre| + 1] == w[1];
    }
  }

  lemma YearFieldOf(y: nat, rest: string)
    requires 1 <= y <= 9999
    ensures YearField(Padded(y, 4) + "-" + rest)
    ensures (Padded(y, 4) + "-" + rest)[..4] == Padded(y, 4)
    ensures NatOf(Padded(y, 4)) == y
  {
    var t := Padded(y, 4) + "-" + rest;
    assert t[..4] == Padded(y, 4);
    assert forall k :: 0 <= k < 4 ==> t[k] == Padded(y, 4)[k];
    PaddedRoundTrip(y, 4);
  }

  /**
   * `strptime(t, "%Y-%m-%d")` on a four-digit year and a month and a day in
   * either written form succeeds exactly when the day exists in that month,
   * and then yields that date.
   */
  lemma StrptimeWritten(y: nat, m: nat, pm: bool, d: nat, pd: bool)
    requires 1 <= y <= 9999 && 1 <= m <= 12 && 1 <= d <= 31
    ensures var r := StrptimeYmd(Padded(y, 4) + "-" + Written(m, pm) + "-" + Written(d, pd));
      && (r.Ok? <==> d <= DaysInMonth(y, m))
      && (r.Ok? ==> r.value == DateTime(y, m, d, 0, 0, 0))
  {
    var pre := Padded(y, 4) + "-";
    var wm, wd := Written(m, pm), Written(d, pd);
    var t := pre + wm + "-" + wd;
    assert YearField(t) && NatOf(t[..4]) == y by {
      assert t == Padded(y, 4) + "-" + (wm + "-" + wd);
      YearFieldOf(y, wm + "-" + wd);
    }
    assert MonthField(t, 5) == Some(Field(m, |wm|)) by {
      MonthFieldOf(pre, m, pm, wd);
    }
    assert DayField(t, 6 + |wm|) == Some(Field(d, |wd|)) by {
      DayFieldOf(pre + wm + "-", d, pd);
    }
  }

  lemma TwoDigitFields(a: char, b: char)
    requires IsDigit(a) && IsDigit(b)
    ensures TwoDigitMonth(a, b) <==> 1 <= TwoDigits(a, b) <= 12
    ensures TwoDigitDay(a, b) <==> 1 <= TwoDigits(a, b) <= 31
  {
  }

  /** `strptime` on text that starts like a full date. */
  lemma StrptimeFull(s: string)
    requires FullDatePrefix(s)
    ensures var r := StrptimeYmd(s);
      && (r.Ok? <==> |s| == 10 && TwoDigitMonth(s[5], s[6]) && TwoDigitDay(s[8], s[9])
                     && ValidDate(NatOf(s[..4]), TwoDigits(s[5], s[6]), TwoDigits(s[8], s[9])))
      && (r.Ok? ==> r.value == DateTime(NatOf(s[..4]), TwoDigits(s[5], s[6]), TwoDigits(s[8], s[9]), 0, 0, 0))
  {
    assert AllDigits(s[..4]);
  }

  /** The canonical-timestamp reading of a full date followed by " 00:00:00". */
  lemma TimestampFull(s: string)
    requires FullDatePrefix(s) && |s| == 10
    ensures var p := ParseTimestamp(s + " 00:00:00");
      && (p.Some? <==> TwoDigitMonth(s[5], s[6]) && TwoDigitDay(s[8], s[9])
                       && ValidDate(NatOf(s[..4]), TwoDigits(s[5], s[6]), TwoDigits(s[8], s[9])))
      && (p.Some? ==> p.value == DateTime(NatOf(s[..4]), TwoDigits(s[5], s[6]), TwoDigits(s[8], s[9]), 0, 0, 0))
  {
    var x := s + " 00:00:00";
    assert x[0..4] == s[..4];
    assert x[5..7] == [s[5], s[6]] && x[8..10] == [s[8], s[9]];
    assert x[11..13] == "00" && x[14..16] == "00" && x[17..19] == "00";
    assert AllDigits(s[..4]);
    NatOfTwo(x[5..7]);
    NatOfTwo(x[8..10]);
    NatOfTwo("00");
    TwoDigitFields(s[5], s[6]);
    TwoDigitFields(s[8], s[9]);
  }

  /**
   * A "YYYY-MM-DD..." input is accepted exactly when it is a whole canonical
   * date, one that `Calendar.ParseTimestamp` reads once " 00:00:00" is
   * appended, and it then comes back with " 00:00:00" appended.
   */
  lemma FullDateBranch(s: string, currentYear: int)
    requires MinYear <= currentYear <= MaxYear
    requires FullDatePrefix(s)
    ensures var r := AdjustTikTokDate(s, currentYear);
      && (r.Ok? <==> |s| == 10 && ParseTimestamp(s + " 00:00:00").Some?)
      && (r.Ok? ==> r.value == s + " 00:00:00")
  {
    StrptimeFull(s);
    if |s| == 10 {
      TimestampFull(s);
      var x := s + " 00:00:00";
      if ParseTimestamp(x).Some? {
        ParseTimestampCanonical(x);
      }
    }
  }

  /**
   * A "M-D" or "MM-DD" input (each number with or without its leading zero)
   * is a date of the current year: accepted exactly when the day exists in
   * that month of that year, and then printed as its midnight timestamp.
   */
  lemma ShortDateBranch(m: nat, pm: bool, d: nat, pd: bool, currentYear: int)
    requires 1000 <= currentYear <= MaxYear && 1 <= m <= 12 && 1 <= d <= 31
    ensures var r := AdjustTikTokDate(Written(m, pm) + "-" + Written(d, pd), currentYear);
      && (r.Ok? <==> d <= DaysInMonth(currentYear, m))
      && (r.Ok? ==> r.value == Format(DateTime(currentYear, m, d, 0, 0, 0)))
  {
    var s := Written(m, pm) + "-" + Written(d, pd);
    assert s[|Written(m, pm)|] == '-' && s[0] == Written(m, pm)[0];
    assert |Written(m, pm)| == 2 ==> s[1] == Written(m, pm)[1];
    assert s[|Written(m, pm)| + 1] == Written(d, pd)[0];
    DecimalStringOfFourDigits(currentYear);
    assert DecimalString(currentYear) + "-" + s == Padded(currentYear, 4) + "-" + Written(m, pm) + "-" + Written(d, pd);
    StrptimeWritten(currentYear, m, pm, d, pd);
  }

  /** Text that starts with neither date form, such as "3天前", "12天前" or "2024年5月", comes back unchanged. */
  lemma NonDateUntouched(s: string, currentYear: int)
    requires MinYear <= currentYear <= MaxYear
    requires !FullDatePrefix(s) && !ShortDatePrefix(s)
    ensures AdjustTikTokDate(s, currentYear) == Ok(s)
  {
  }

  /** The two characters `%m` or `%d` took, read back as a two-digit written number. */
  lemma TwoWritten(a: char, b: char)
    requires IsDigit(a) && IsDigit(b)
    ensures TwoDigits(a, b) <= 99 && Written(TwoDigits(a, b), true) == [a, b]
  {
    var n := TwoDigits(a, b);
    assert n / 10 == DigitValue(a) && n % 10 == DigitValue(b);
  }

  /** The one character `%m` or `%d` took, read back as a one-digit written number. */
  lemma OneWritten(a: char)
    requires IsDigit(a)
    ensures Written(DigitValue(a), false) == [a]
  {
  }

  /** The month part of a short date that `strptime` accepted after a five-character year prefix. */
  lemma ShortMonth(t: string, s: string) returns (m: nat, pm: bool)
    requires |t| == 5 + |s| && t[5..] == s && ShortDatePrefix(s) && MonthField(t, 5).Some?
    ensures 1 <= m <= 12 && MonthField(t, 5).value == Field(m, |Written(m, pm)|)
    ensures s[..|Written(m, pm)|] == Written(m, pm) && s[|Written(m, pm)|] == '-'
    ensures |Written(m, pm)| + 1 < |s| && IsDigit(s[|Written(m, pm)| + 1])
  {
    assert t[5] == s[0] && t[6] == s[1];
    var f := MonthField(t, 5).value;
    m := f.value;
    if f.width == 2 {
      assert t[7] == s[2];
      pm := true;
      TwoWritten(s[0], s[1]);
      assert s[..2] == [s[0], s[1]];
    } else {
      pm := false;
      OneWritten(s[0]);
      assert s[..1] == [s[0]];
    }
  }

  /** The day part of a short date that `strptime` accepted, given where `%d` starts in `s`. */
  lemma ShortDay(t: string, s: string, j: nat) returns (d: nat, pd: bool)
    requires |t| == 5 + |s| && t[5..] == s && j < |s| && IsDigit(s[j])
    requires DayField(t, 5 + j).Some? && 5 + j + DayField(t, 5 + j).value.width == |t|
    ensures 1 <= d <= 31 && s[j..] == Written(d, pd)
    ensures DayField(t, 5 + j).value == Field(d, |Written(d, pd)|)
  {
    assert t[5 + j] == s[j];
    var f := DayField(t, 5 + j).value;
    d := f.value;
    if f.width == 2 {
      assert t[6 + j] == s[j + 1];
      pd := true;
      TwoWritten(s[j], s[j + 1]);
      assert s[j..] == [s[j], s[j + 1]];
    } else {
      pd := false;
      OneWritten(s[j]);
      assert s[j..] == [s[j]];
    }
  }

  /** What `strptime` accepts after a five-character year prefix, when it starts like a short date. */
  lemma ShortFields(t: string, s: string) returns (m: nat, pm: bool, d: nat, pd: bool)
    requires |t| == 5 + |s| && t[5..] == s && ShortDatePrefix(s) && StrptimeYmd(t).Ok?
    ensures 1 <= m <= 12 && 1 <= d <= 31 && s == Written(m, pm) + "-" + Written(d, pd)
  {
    m, pm := ShortMonth(t, s);
    var w := |Written(m, pm)|;
    d, pd := ShortDay(t, s, w + 1);
    assert s == s[..w] + "-" + s[w + 1..];
  }

  /**
   * Text that starts with `\d{1,2}-\d{1,2}` is accepted exactly when it is
   * a whole "M-D" or "MM-DD" date whose day exists in the current year; any
   * other such text ("13-1", "5-1x", "2-30") raises.
   */
  lemma ShortDateShape(s: string, currentYear: int)
    requires 1000 <= currentYear <= MaxYear && ShortDatePrefix(s)
    ensures AdjustTikTokDate(s, currentYear).Ok? <==>
      exists m: nat, pm: bool, d: nat, pd: bool :: 1 <= m <= 12 && 1 <= d <= DaysInMonth(currentYear, m)
        && s == Written(m, pm) + "-" + Written(d, pd)
  {
    if AdjustTikTokDate(s, currentYear).Ok? {
      var t := DecimalString(currentYear) + "-" + s;
      DecimalStringOfFourDigits(currentYear);
      assert t[5..] == s;
      var m, pm, d, pd := ShortFields(t, s);
      ShortDateBranch(m, pm, d, pd, currentYear);
    } else {
      forall m: nat, pm: bool, d: nat, pd: bool | 1 <= m <= 12 && 1 <= d <= DaysInMonth(currentYear, m)
        ensures s != Written(m, pm) + "-" + Written(d, pd)
      {
        ShortDateBranch(m, pm, d, pd, currentYear);
      }
    }
  }

  /**
   * The output of a successful conversion is not an input the function
   * accepts again: a canonical timestamp starts like a full date but leaves
   * " HH:MM:SS" unconverted, so `strptime` raises.
   */
  lemma NotReapplicable(dt: DateTime, currentYear: int)
    requires Valid(dt) && MinYear <= currentYear <= MaxYear
    ensures AdjustTikTokDate(Format(dt), currentYear).Fail?
  {
    var s := Format(dt);
    FormatRoundTrip(dt);
    assert s[0..4][0] == s[0] && s[0..4][1] == s[1] && s[0..4][2] == s[2] && s[0..4][3] == s[3];
    assert s[5..7][0] == s[5] && s[5..7][1] == s[6] && s[8..10][0] == s[8] && s[8..10][1] == s[9];
    FullDateBranch(s, currentYear);
  }

  // -------------------------------------------------------------- examples

  lemma ShortExampleText()
    ensures Written(5, false) + "-" + Written(1, false) == "5-1"
  {
  }

  lemma ShortExampleFormat()
    ensures Format(DateTime(2024, 5, 1, 0, 0, 0)) == "2024-05-01 00:00:00"
  {
    ShortExampleDate();
    MidnightText();
  }

  lemma ShortExampleDate()
    ensures Triple(2024, 4, '-', 5, 1) == "2024-05-01"
  {
    PaddedNext(2, 0, "");
    PaddedNext(20, 1, "2");
    PaddedNext(202, 2, "20");
    PaddedNext(2024, 3, "202");
    PaddedNext(0, 0, "");
    PaddedNext(5, 1, "0");
    PaddedNext(1, 1, "0");
    TripleOf(2024, 4, '-', 5, 1, "2024", "05", "01");
  }

  lemma ShortExample()
    ensures AdjustTikTokDate("5-1", 2024) == Ok("2024-05-01 00:00:00")
  {
    ShortDateBranch(5, false, 1, false, 2024);
    ShortExampleText();
    ShortExampleFormat();
  }

  lemma FullExampleShape()
    ensures "2023-12-31" + " 00:00:00" == "2023-12-31 00:00:00"
    ensures FullDatePrefix("2023-12-31")
  {
  }

  lemma FullExampleText()
    ensures Format(DateTime(2023, 12, 31, 0, 0, 0)) == "2023-12-31 00:00:00"
  {
    FullExampleDate();
    MidnightText();
  }

  lemma FullExampleDate()
    ensures Triple(2023, 4, '-', 12, 31) == "2023-12-31"
  {
    PaddedNext(2, 0, "");
    PaddedNext(20, 1, "2");
    PaddedNext(202, 2, "20");
    PaddedNext(2023, 3, "202");
    PaddedNext(1, 0, "");
    PaddedNext(12, 1, "1");
    PaddedNext(3, 0, "");
    PaddedNext(31, 1, "3");
    TripleOf(2023, 4, '-', 12, 31, "2023", "12", "31");
  }

  lemma FullExample()
    ensures AdjustTikTokDate("2023-12-31", 2024) == Ok("2023-12-31 00:00:00")
  {
    FullExampleShape();
    FullExampleText();
    FormatRoundTrip(DateTime(2023, 12, 31, 0, 0, 0));
    FullDateBranch("2023-12-31", 2024);
  }

  lemma NoSuchDayExample()
    ensures AdjustTikTokDate("2023-02-30", 2024).Fail?
  {
    var s := "2023-02-30";
    assert FullDatePrefix(s) && |s| == 10;
    TimestampFull(s);
    assert TwoDigits(s[8], s[9]) == 30;
    FullDateBranch(s, 2024);
  }

  lemma RelativeTextExample()
    ensures AdjustTikTokDate("3天前", 2024) == Ok("3天前")
  {
    NonDateUntouched("3天前", 2024);
  }

  lemma LongerTextExamples()
    ensures AdjustTikTokDate("12天前", 2024) == Ok("12天前")
    ensures AdjustTikTokDate("2024年5月", 2024) == Ok("2024年5月")
  {
    NonDateUntouched("12天前", 2024);
    NonDateUntouched("2024年5月", 2024);
  }
}
