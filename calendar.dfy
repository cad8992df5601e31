/**
 * The proleptic Gregorian calendar of Python's `datetime` (years 1 to 9999):
 * leap years, days per month, a day count since 0001-01-01, the second count
 * that `datetime - timedelta` works on, and the canonical
 * `'%Y-%m-%d %H:%M:%S'` text that every normalised timestamp takes.
 */
module Calendar {
  import opened Results
  import opened Text

  const MinYear: int := 1
  const MaxYear: int := 9999

  predicate IsLeap(y: int)
  {
    y % 4 == 0 && (y % 100 != 0 || y % 400 == 0)
  }

  function DaysInYear(y: int): int
  {
    if IsLeap(y) then 366 else 365
  }

  function DaysInMonth(y: int, m: int): int
    requires 1 <= m <= 12
  {
    if m == 2 then (if IsLeap(y) then 29 else 28)
    else if m == 4 || m == 6 || m == 9 || m == 11 then 30
    else 31
  }

  /** A `datetime` value with whole seconds (microseconds never reach the output). */
  datatype DateTime = DateTime(year: int, month: int, day: int, hour: int, minute: int, second: int)

  /** What `datetime(year, month, day)` accepts without raising ValueError. */
  predicate ValidDate(y: int, m: int, d: int)
  {
    MinYear <= y <= MaxYear && 1 <= m <= 12 && 1 <= d <= DaysInMonth(y, m)
  }

  /** What `datetime(year, month, day, hour, minute, second)` accepts. */
  predicate Valid(dt: DateTime)
  {
    ValidDate(dt.year, dt.month, dt.day)
    && 0 <= dt.hour < 24 && 0 <= dt.minute < 60 && 0 <= dt.second < 60
  }

  // ------------------------------------------------------------ day count

  /** Days in the years before `y`, counted from 0001-01-01. */
  function DaysBeforeYear(y: int): int
    requires y >= 1
  {
    var p := y - 1;
    365 * p + p / 4 - p / 100 + p / 400
  }

  lemma DaysBeforeYearStep(y: int)
    requires y >= 1
    ensures DaysBeforeYear(y + 1) == DaysBeforeYear(y) + DaysInYear(y)
  {
    var p := y - 1;
    assert (p + 1) / 4 - p / 4 == if y % 4 == 0 then 1 else 0;
    assert (p + 1) / 100 - p / 100 == if y % 100 == 0 then 1 else 0;
    assert (p + 1) / 400 - p / 400 == if y % 400 == 0 then 1 else 0;
  }

  lemma {:induction false} DaysBeforeYearGrows(a: int, b: int)
    requires 1 <= a <= b
    ensures DaysBeforeYear(b) >= DaysBeforeYear(a) + 365 * (b - a)
    decreases b - a
  {
    if a < b {
      DaysBeforeYearStep(b - 1);
      DaysBeforeYearGrows(a, b - 1);
    }
  }

  /** A day offset within a year determines the year. */
  lemma YearUnique(y1: int, r1: int, y2: int, r2: int)
    requires y1 >= 1 && y2 >= 1
    requires 0 <= r1 < DaysInYear(y1) && 0 <= r2 < DaysInYear(y2)
    requires DaysBeforeYear(y1) + r1 == DaysBeforeYear(y2) + r2
    ensures y1 == y2 && r1 == r2
  {
    if y1 < y2 {
      DaysBeforeYearStep(y1);
      DaysBeforeYearGrows(y1 + 1, y2);
    } else if y2 < y1 {
      DaysBeforeYearStep(y2);
      DaysBeforeYearGrows(y2 + 1, y1);
    }
  }

  /** Days in the months of year `y` before month `m` (`m == 13` gives the whole year). */
  function DaysBeforeMonth(y: int, m: int): (n: int)
    requires 1 <= m <= 13
    ensures m == 13 ==> n == DaysInYear(y)
  {
    [0, 31, 59, 90, 120, 151, 181, 212, 243, 273, 304, 334, 365][m - 1]
    + (if m > 2 && IsLeap(y) then 1 else 0)
  }

  lemma DaysBeforeMonthStep(y: int, m: int)
    requires 1 <= m <= 12
    ensures DaysBeforeMonth(y, m + 1) == DaysBeforeMonth(y, m) + DaysInMonth(y, m)
  {
  }

  lemma {:induction false} DaysBeforeMonthGrows(y: int, a: int, b: int)
    requires 1 <= a <= b <= 13
    ensures DaysBeforeMonth(y, b) >= DaysBeforeMonth(y, a)
    decreases b - a
  {
    if a < b {
      DaysBeforeMonthStep(y, b - 1);
      DaysBeforeMonthGrows(y, a, b - 1);
    }
  }

  /** 0 for 0001-01-01, one more for each day after it (Python's `toordinal() - 1`). */
  function DayIndex(y: int, m: int, d: int): (n: nat)
    requires ValidDate(y, m, d)
    ensures DaysBeforeYear(y) <= n < DaysBeforeYear(y) + DaysInYear(y)
  {
    DaysBeforeMonthStep(y, m);
    DaysBeforeMonthGrows(y, m + 1, 13);
    DaysBeforeYearGrows(1, y);
    DaysBeforeYear(y) + DaysBeforeMonth(y, m) + d - 1
  }

  /** The number of days from 0001-01-01 to 9999-12-31 inclusive. */
  const DayCount: nat := 3652059

  lemma DayCountIsEndOfRange()
    ensures DaysBeforeYear(MaxYear + 1) == DayCount
  {
  }

  /** Finds the year holding day `n` of the years from `y` on, and the offset within it. */
  function YearSplit(y: int, n: nat): (r: (int, nat))
    requires y >= 1
    ensures r.0 >= y && r.1 < DaysInYear(r.0)
    ensures DaysBeforeYear(r.0) + r.1 == DaysBeforeYear(y) + n
    decreases n
  {
    if n < DaysInYear(y) then (y, n)
    else
      DaysBeforeYearStep(y);
      YearSplit(y + 1, n - DaysInYear(y))
  }

  /** Finds the month, from `m` on, that holds day offset `n` of year `y`. */
  function MonthSplit(y: int, m: int, n: int): (r: int)
    requires 1 <= m <= 12 && DaysBeforeMonth(y, m) <= n < DaysInYear(y)
    ensures m <= r <= 12 && DaysBeforeMonth(y, r) <= n < DaysBeforeMonth(y, r + 1)
    decreases 12 - m
  {
    if n < DaysBeforeMonth(y, m + 1) then m else MonthSplit(y, m + 1, n)
  }

  /** The date of day `n` (Python's `date.fromordinal(n + 1)`). */
  function DateOfIndex(n: nat): (r: (int, int, int))
    requires n < DayCount
    ensures ValidDate(r.0, r.1, r.2) && DayIndex(r.0, r.1, r.2) == n
  {
    var (y, k) := YearSplit(1, n);
    if y > MaxYear then
      DaysBeforeYearGrows(MaxYear + 1, y);
      assert false;
      (0, 0, 0)
    else
      var m := MonthSplit(y, 1, k);
      DaysBeforeMonthStep(y, m);
      (y, m, k - DaysBeforeMonth(y, m) + 1)
  }

  /** Different valid dates have different day indexes. */
  lemma DayIndexInjective(y1: int, m1: int, d1: int, y2: int, m2: int, d2: int)
    requires ValidDate(y1, m1, d1) && ValidDate(y2, m2, d2)
    requires DayIndex(y1, m1, d1) == DayIndex(y2, m2, d2)
    ensures y1 == y2 && m1 == m2 && d1 == d2
  {
    var r1 := DayIndex(y1, m1, d1) - DaysBeforeYear(y1);
    var r2 := DayIndex(y2, m2, d2) - DaysBeforeYear(y2);
    YearUnique(y1, r1, y2, r2);
    DaysBeforeMonthStep(y1, m1);
    DaysBeforeMonthStep(y1, m2);
    if m1 < m2 {
      DaysBeforeMonthGrows(y1, m1 + 1, m2);
    } else if m2 < m1 {
      DaysBeforeMonthGrows(y1, m2 + 1, m1);
    }
  }

  // -------------------------------------------------------------- seconds

  const SecondsPerDay: nat := 86400

  /** Seconds since 0001-01-01 00:00:00. */
  function ToSeconds(dt: DateTime): (t: nat)
    requires Valid(dt)
    ensures t < DayCount * SecondsPerDay
  {
    DaysBeforeYearGrows(dt.year + 1, MaxYear + 1);
    DaysBeforeYearStep(dt.year);
    DayIndex(dt.year, dt.month, dt.day) * SecondsPerDay + dt.hour * 3600 + dt.minute * 60 + dt.second
  }

  /** The moment `t` seconds after 0001-01-01 00:00:00. */
  function FromSeconds(t: nat): (dt: DateTime)
    requires t < DayCount * SecondsPerDay
    ensures Valid(dt) && ToSeconds(dt) == t
  {
    var (y, m, d) := DateOfIndex(t / SecondsPerDay);
    var r := t % SecondsPerDay;
    DateTime(y, m, d, r / 3600, r % 3600 / 60, r % 3600 % 60)
  }

  /** Different valid moments have different second counts. */
  lemma ToSecondsInjective(a: DateTime, b: DateTime)
    requires Valid(a) && Valid(b) && ToSeconds(a) == ToSeconds(b)
    ensures a == b
  {
    var da, db := DayIndex(a.year, a.month, a.day), DayIndex(b.year, b.month, b.day);
    var ta, tb := a.hour * 3600 + a.minute * 60 + a.second, b.hour * 3600 + b.minute * 60 + b.second;
    assert da * SecondsPerDay + ta == db * SecondsPerDay + tb;
    assert da == db;
    DayIndexInjective(a.year, a.month, a.day, b.year, b.month, b.day);
  }

  lemma SecondsRoundTrip(dt: DateTime)
    requires Valid(dt)
    ensures FromSeconds(ToSeconds(dt)) == dt
  {
    ToSecondsInjective(FromSeconds(ToSeconds(dt)), dt);
  }

  /**
   * `now - timedelta(seconds=k)`: the moment `k` seconds earlier, or the
   * OverflowError Python raises when that falls before 0001-01-01 00:00:00.
   */
  function Minus(now: DateTime, k: nat): (r: Result<DateTime>)
    requires Valid(now)
    ensures r.Ok? <==> k <= ToSeconds(now)
    ensures r.Ok? ==> Valid(r.value) && ToSeconds(r.value) == ToSeconds(now) - k
  {
    if k <= ToSeconds(now) then Ok(FromSeconds(ToSeconds(now) - k))
    else Fail("date value out of range")
  }

  /** Going back less than the time already elapsed today stays on the same day. */
  lemma MinusWithinDay(now: DateTime, h: int, m: int)
    requires Valid(now) && 0 <= h <= now.hour && 0 <= m
    requires h * 3600 + m * 60 <= now.hour * 3600 + now.minute * 60
    ensures Minus(now, h * 3600 + m * 60).Ok?
    ensures Minus(now, h * 3600 + m * 60).value.year == now.year
    ensures Minus(now, h * 3600 + m * 60).value.month == now.month
    ensures Minus(now, h * 3600 + m * 60).value.day == now.day
    ensures Minus(now, h * 3600 + m * 60).value.second == now.second
    ensures Minus(now, h * 3600 + m * 60).value.hour * 60 + Minus(now, h * 3600 + m * 60).value.minute
            == now.hour * 60 + now.minute - (h * 60 + m)
  {
    var left := now.hour * 60 + now.minute - (h * 60 + m);
    var expected := DateTime(now.year, now.month, now.day, left / 60, left % 60, now.second);
    assert Valid(expected);
    assert ToSeconds(expected) == ToSeconds(now) - (h * 3600 + m * 60);
    ToSecondsInjective(Minus(now, h * 3600 + m * 60).value, expected);
  }

  // ------------------------------------------------------ canonical text

  /** `'%Y-%m-%d'`, and `'%H:%M:%S'`: a number, a separator, a number, a separator, a number. */
  function Triple(a: nat, wa: nat, sep: char, b: nat, c: nat): (s: string)
    ensures |s| == wa + 6
  {
    Padded(a, wa) + [sep] + Padded(b, 2) + [sep] + Padded(c, 2)
  }

  /** `Triple` from the padded texts of its three parts. */
  lemma TripleOf(a: nat, wa: nat, sep: char, b: nat, c: nat, ta: string, tb: string, tc: string)
    requires Padded(a, wa) == ta && Padded(b, 2) == tb && Padded(c, 2) == tc
    ensures Triple(a, wa, sep, b, c) == ta + [sep] + tb + [sep] + tc
  {
  }

  /** `dt.strftime('%Y-%m-%d %H:%M:%S')`. */
  function Format(dt: DateTime): (s: string)
    requires Valid(dt)
    ensures |s| == 19
  {
    Triple(dt.year, 4, '-', dt.month, dt.day) + " " + Triple(dt.hour, 2, ':', dt.minute, dt.second)
  }

  lemma TripleParts(a: nat, wa: nat, sep: char, b: nat, c: nat)
    ensures Triple(a, wa, sep, b, c)[..wa] == Padded(a, wa)
    ensures Triple(a, wa, sep, b, c)[wa] == sep && Triple(a, wa, sep, b, c)[wa + 3] == sep
    ensures Triple(a, wa, sep, b, c)[wa + 1..wa + 3] == Padded(b, 2)
    ensures Triple(a, wa, sep, b, c)[wa + 4..] == Padded(c, 2)
  {
  }

  lemma TripleOfParts(s: string, wa: nat)
    requires |s| == wa + 6 && AllDigits(s[..wa]) && AllDigits(s[wa + 1..wa + 3]) && AllDigits(s[wa + 4..])
    requires s[wa] == s[wa + 3]
    ensures Triple(NatOf(s[..wa]), wa, s[wa], NatOf(s[wa + 1..wa + 3]), NatOf(s[wa + 4..])) == s
  {
    PaddedOfNatOf(s[..wa]);
    PaddedOfNatOf(s[wa + 1..wa + 3]);
    PaddedOfNatOf(s[wa + 4..]);
    assert s == s[..wa] + [s[wa]] + s[wa + 1..wa + 3] + [s[wa]] + s[wa + 4..];
  }

  /** Reads a canonical `YYYY-MM-DD HH:MM:SS` string back; None for any other text. */
  function ParseTimestamp(s: string): Option<DateTime>
  {
    if |s| == 19 && s[4] == '-' && s[7] == '-' && s[10] == ' ' && s[13] == ':' && s[16] == ':'
       && AllDigits(s[0..4]) && AllDigits(s[5..7]) && AllDigits(s[8..10])
       && AllDigits(s[11..13]) && AllDigits(s[14..16]) && AllDigits(s[17..19])
    then
      var dt := DateTime(NatOf(s[0..4]), NatOf(s[5..7]), NatOf(s[8..10]),
                         NatOf(s[11..13]), NatOf(s[14..16]), NatOf(s[17..19]));
      if Valid(dt) then Some(dt) else None
    else None
  }

  /** A digit string of width `w` is the padding of its own value. */
  lemma {:induction false} PaddedOfNatOf(s: string)
    requires AllDigits(s)
    ensures Padded(NatOf(s), |s|) == s
  {
    if s != [] {
      var init := s[..|s| - 1];
      PaddedOfNatOf(init);
      var n := NatOf(s);
      assert n / 10 == NatOf(init) && n % 10 == DigitValue(s[|s| - 1]);
      assert DigitChar(n % 10) == s[|s| - 1];
      assert s == init + [s[|s| - 1]];
    }
  }

  /** Every valid moment reads back from its canonical text. */
  lemma FormatRoundTrip(dt: DateTime)
    requires Valid(dt)
    ensures ParseTimestamp(Format(dt)) == Some(dt)
  {
    var s := Format(dt);
    var d, t := Triple(dt.year, 4, '-', dt.month, dt.day), Triple(dt.hour, 2, ':', dt.minute, dt.second);
    TripleParts(dt.year, 4, '-', dt.month, dt.day);
    TripleParts(dt.hour, 2, ':', dt.minute, dt.second);
    assert s[0..4] == d[..4] && s[5..7] == d[5..7] && s[8..10] == d[8..];
    assert s[11..13] == t[..2] && s[14..16] == t[3..5] && s[17..19] == t[6..];
    PaddedRoundTrip(dt.year, 4);
    PaddedRoundTrip(dt.month, 2);
    PaddedRoundTrip(dt.day, 2);
    PaddedRoundTrip(dt.hour, 2);
    PaddedRoundTrip(dt.minute, 2);
    PaddedRoundTrip(dt.second, 2);
  }

  /** Text that reads as a moment is exactly that moment's canonical text. */
  lemma ParseTimestampCanonical(s: string)
    requires ParseTimestamp(s).Some?
    ensures Format(ParseTimestamp(s).value) == s
  {
    var d, t := s[..10], s[11..];
    assert Triple(NatOf(s[0..4]), 4, '-', NatOf(s[5..7]), NatOf(s[8..10])) == d by {
      assert d[..4] == s[0..4] && d[5..7] == s[5..7] && d[8..] == s[8..10];
      TripleOfParts(d, 4);
    }
    assert Triple(NatOf(s[11..13]), 2, ':', NatOf(s[14..16]), NatOf(s[17..19])) == t by {
      assert t[..2] == s[11..13] && t[3..5] == s[14..16] && t[6..] == s[17..19];
      TripleOfParts(t, 2);
    }
    assert s == d + " " + t;
  }

  /** Canonical text is the image of `Format`: it holds digits and separators in fixed places. */
  predicate IsCanonical(s: string)
  {
    ParseTimestamp(s).Some?
  }
}
