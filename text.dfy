/**
 * The slice of Python's `str` behaviour that the normalisers rely on:
 * ASCII digits and their values, `str.isspace`, `strip`, `replace`,
 * `in`, `split` and `join`.
 */
module Text {
  import opened Results

  // ---------------------------------------------------------------- digits

  predicate IsDigit(c: char) { '0' <= c <= '9' }

  predicate AllDigits(s: string) { forall i :: 0 <= i < |s| ==> IsDigit(s[i]) }

  function DigitValue(c: char): (n: nat)
    requires IsDigit(c)
    ensures n < 10
  {
    c as int - '0' as int
  }

  function DigitChar(n: nat): (c: char)
    requires n < 10
    ensures IsDigit(c) && DigitValue(c) == n
  {
    ('0' as int + n) as char
  }

  function Pow10(k: nat): (p: nat)
    ensures p >= 1
  {
    if k == 0 then 1 else 10 * Pow10(k - 1)
  }

  /** The value of a string of decimal digits, as `int()` reads it (the empty string reads as 0). */
  function NatOf(s: string): nat
    requires AllDigits(s)
  {
    if s == [] then 0 else NatOf(s[..|s| - 1]) * 10 + DigitValue(s[|s| - 1])
  }

  lemma {:induction false} NatOfBound(s: string)
    requires AllDigits(s)
    ensures NatOf(s) < Pow10(|s|)
  {
    if s != [] {
      NatOfBound(s[..|s| - 1]);
    }
  }

  lemma {:induction false} NatOfConcat(a: string, b: string)
    requires AllDigits(a) && AllDigits(b)
    ensures AllDigits(a + b) && NatOf(a + b) == NatOf(a) * Pow10(|b|) + NatOf(b)
  {
    if b != [] {
      var b' := b[..|b| - 1];
      assert (a + b)[..|a + b| - 1] == a + b';
      NatOfConcat(a, b');
      ShiftDigit(NatOf(a), Pow10(|b'|), NatOf(b'), DigitValue(b[|b| - 1]));
    } else {
      assert a + b == a;
    }
  }

  /** `n` written with exactly `w` digits, zero-padded on the left (as `%02d`, `%04d`). */
  function Padded(n: nat, w: nat): (r: string)
    ensures |r| == w && AllDigits(r)
  {
    if w == 0 then "" else Padded(n / 10, w - 1) + [DigitChar(n % 10)]
  }

  /** One more digit of `Padded`, from the text of the digits before it. */
  lemma PaddedNext(n: nat, w: nat, t: string)
    requires Padded(n / 10, w) == t
    ensures Padded(n, w + 1) == t + [DigitChar(n % 10)]
  {
  }

  lemma ShiftDigit(x: int, p: int, y: int, d: int)
    ensures (x * p + y) * 10 + d == x * (10 * p) + (y * 10 + d)
  {
  }

  /** Reading back a padded number that fits in its width gives the number. */
  lemma {:induction false} PaddedRoundTrip(n: nat, w: nat)
    requires n < Pow10(w)
    ensures NatOf(Padded(n, w)) == n
  {
    if w > 0 {
      PaddedRoundTrip(n / 10, w - 1);
      var s := Padded(n, w);
      assert s[..|s| - 1] == Padded(n / 10, w - 1);
    }
  }

  /** `str(n)` for a natural number: its decimal digits without padding. */
  function DecimalString(n: nat): (r: string)
    ensures |r| >= 1 && AllDigits(r)
  {
    if n < 10 then [DigitChar(n)] else DecimalString(n / 10) + [DigitChar(n % 10)]
  }

  lemma {:induction false} DecimalStringRoundTrip(n: nat)
    ensures NatOf(DecimalString(n)) == n
  {
    var s := DecimalString(n);
    if n >= 10 {
      DecimalStringRoundTrip(n / 10);
      assert s[..|s| - 1] == DecimalString(n / 10);
    } else {
      assert s[..|s| - 1] == [];
    }
  }

  /** A four-digit year prints the same with `str()` and with `%Y`. */
  lemma DecimalStringOfFourDigits(n: nat)
    requires 1000 <= n <= 9999
    ensures DecimalString(n) == Padded(n, 4)
  {
    assert n / 10 / 10 == n / 100 && n / 100 / 10 == n / 1000;
    assert DecimalString(n / 1000) == Padded(n / 1000, 1);
    assert DecimalString(n / 100) == Padded(n / 100, 2);
    assert DecimalString(n / 10) == Padded(n / 10, 3);
  }

  /** The longest prefix of `s` made of ASCII digits (`\d+` taken greedily). */
  function DigitRun(s: string): (r: string)
    ensures |r| <= |s| && r == s[..|r|] && AllDigits(r)
    ensures |r| < |s| ==> !IsDigit(s[|r|])
  {
    if s != [] && IsDigit(s[0]) then [s[0]] + DigitRun(s[1..]) else ""
  }

  /** A digit run is unchanged by whatever follows a non-digit. */
  lemma {:induction false} DigitRunConcat(a: string, b: string)
    requires AllDigits(a)
    requires b == [] || !IsDigit(b[0])
    ensures DigitRun(a + b) == a
  {
    if a != [] {
      assert (a + b)[1..] == a[1..] + b;
      DigitRunConcat(a[1..], b);
    } else {
      assert a + b == b;
    }
  }

  // --------------------------------------------------- two-digit numbers

  /** A number below 100 as written in a date: one digit, or two with a leading zero below 10. */
  function Written(n: nat, padded: bool): (w: string)
    requires n <= 99
    ensures 1 <= |w| <= 2 && AllDigits(w)
  {
    if padded || n >= 10 then [DigitChar(n / 10), DigitChar(n % 10)] else [DigitChar(n)]
  }

  /** `%m` and `%d` print a number below 100 as its padded written form; `str()` prints the unpadded one. */
  lemma WrittenForms(n: nat)
    requires n <= 99
    ensures Padded(n, 2) == Written(n, true)
    ensures DecimalString(n) == Written(n, false)
  {
    assert Padded(n / 10, 1) == [DigitChar(n / 10)];
    if n >= 10 {
      assert DecimalString(n / 10) == [DigitChar(n / 10)];
    }
  }

  /** The number two digit characters stand for. */
  function TwoDigits(a: char, b: char): nat
    requires IsDigit(a) && IsDigit(b)
  {
    10 * DigitValue(a) + DigitValue(b)
  }

  lemma NatOfTwo(s: string)
    requires |s| == 2 && AllDigits(s)
    ensures NatOf(s) == TwoDigits(s[0], s[1])
  {
    var h := s[..1];
    assert h[..0] == [] && h[0] == s[0];
    assert NatOf(h) == DigitValue(s[0]);
    assert NatOf(s) == NatOf(h) * 10 + DigitValue(s[1]);
  }

  // ----------------------------------------------------------- whitespace

  /** Python's `str.isspace` for one character (the characters `strip()` and `\s` treat as blank). */
  predicate IsSpace(c: char)
  {
    ('\t' <= c <= '\r') || ('\U{1C}' <= c <= '\U{1F}') || c == ' ' || c == '\U{85}' || c == '\U{A0}'
    || c == '\U{1680}' || ('\U{2000}' <= c <= '\U{200A}') || c == '\U{2028}' || c == '\U{2029}'
    || c == '\U{202F}' || c == '\U{205F}' || c == '\U{3000}'
  }

  predicate AllSpace(s: string) { forall i :: 0 <= i < |s| ==> IsSpace(s[i]) }

  /** `s.lstrip()`: drops the leading whitespace and nothing else. */
  function StripLeft(s: string): (r: string)
    ensures |r| <= |s| && r == s[|s| - |r|..]
    ensures AllSpace(s[..|s| - |r|])
    ensures r != [] ==> !IsSpace(r[0])
  {
    if s != [] && IsSpace(s[0]) then StripLeft(s[1..]) else s
  }

  /** `s.rstrip()`: drops the trailing whitespace and nothing else. */
  function StripRight(s: string): (r: string)
    ensures |r| <= |s| && r == s[..|r|]
    ensures AllSpace(s[|r|..])
    ensures r != [] ==> !IsSpace(r[|r| - 1])
  {
    if s != [] && IsSpace(s[|s| - 1]) then
      var r := StripRight(s[..|s| - 1]);
      assert s[|r|..] == s[..|s| - 1][|r|..] + [s[|s| - 1]];
      r
    else
      s
  }

  /** `s.strip()`. */
  function Strip(s: string): string
  {
    StripRight(StripLeft(s))
  }

  /** `not s.strip()`: the string is empty or all whitespace. */
  lemma StripEmptyIffBlank(s: string)
    ensures Strip(s) == [] <==> AllSpace(s)
  {
    var l := StripLeft(s);
    if Strip(s) == [] {
      forall i | 0 <= i < |s| ensures IsSpace(s[i]) {
        if i < |s| - |l| {
          assert s[i] == s[..|s| - |l|][i];
        }
      }
    }
  }

  /** Stripping keeps a prefix that starts and ends with non-blank characters. */
  lemma StripConcat(p: string, t: string)
    requires p != [] && !IsSpace(p[0]) && !IsSpace(p[|p| - 1])
    ensures Strip(p + t) == p + StripRight(t)
  {
    assert StripLeft(p + t) == p + t;
    StripRightConcat(p, t);
  }

  lemma {:induction false} StripRightConcat(p: string, t: string)
    requires p != [] && !IsSpace(p[|p| - 1])
    ensures StripRight(p + t) == p + StripRight(t)
  {
    if t != [] && IsSpace(t[|t| - 1]) {
      assert (p + t)[..|p + t| - 1] == p + t[..|t| - 1];
      StripRightConcat(p, t[..|t| - 1]);
    } else if t == [] {
      assert p + t == p;
    }
  }

  /** `s.strip(c)`: drops every leading and trailing `c`. */
  function StripChar(s: string, c: char): (r: string)
    ensures |r| <= |s|
    ensures r != [] ==> r[0] != c && r[|r| - 1] != c
    ensures c !in s ==> r == s
  {
    StripCharRight(StripCharLeft(s, c), c)
  }

  function StripCharLeft(s: string, c: char): (r: string)
    ensures |r| <= |s| && r == s[|s| - |r|..]
    ensures r != [] ==> r[0] != c
    ensures c !in s ==> r == s
  {
    if s != [] && s[0] == c then StripCharLeft(s[1..], c) else s
  }

  function StripCharRight(s: string, c: char): (r: string)
    ensures |r| <= |s| && r == s[..|r|]
    ensures r != [] ==> r[|r| - 1] != c
    ensures r != [] && s[0] != c ==> r[0] != c
    ensures c !in s ==> r == s
  {
    if s != [] && s[|s| - 1] == c then StripCharRight(s[..|s| - 1], c) else s
  }

  // ------------------------------------------------------------- replace

  /** `s.replace(c, "")`. */
  function Remove(s: string, c: char): (r: string)
    ensures |r| <= |s| && c !in r
    ensures c !in s ==> r == s
  {
    if s == [] then "" else (if s[0] == c then "" else [s[0]]) + Remove(s[1..], c)
  }

  lemma {:induction false} RemoveConcat(a: string, b: string, c: char)
    ensures Remove(a + b, c) == Remove(a, c) + Remove(b, c)
  {
    if a != [] {
      assert (a + b)[1..] == a[1..] + b;
      RemoveConcat(a[1..], b, c);
    } else {
      assert a + b == b;
    }
  }

  /** `s.replace(a, b)` for single characters. */
  function ReplaceChar(s: string, a: char, b: char): (r: string)
    ensures |r| == |s|
    ensures forall i :: 0 <= i < |s| ==> r[i] == if s[i] == a then b else s[i]
  {
    if s == [] then "" else [if s[0] == a then b else s[0]] + ReplaceChar(s[1..], a, b)
  }

  // ------------------------------------------------- substrings and split

  /** `pat` occurs in `s` starting at index `i`. */
  predicate OccursAt(s: string, pat: string, i: nat)
  {
    i + |pat| <= |s| && s[i..i + |pat|] == pat
  }

  /** `pat in s`. */
  predicate Contains(s: string, pat: string)
  {
    exists j: nat :: j <= |s| && OccursAt(s, pat, j)
  }

  predicate StartsWith(s: string, pat: string)
  {
    |pat| <= |s| && s[..|pat|] == pat
  }

  function IndexFrom(s: string, pat: string, i: nat): (r: Option<nat>)
    requires i <= |s|
    ensures r.Some? ==> i <= r.value <= |s| && OccursAt(s, pat, r.value)
    ensures r.Some? ==> forall j: nat :: i <= j < r.value ==> !OccursAt(s, pat, j)
    ensures r.None? ==> forall j: nat :: i <= j <= |s| ==> !OccursAt(s, pat, j)
    decreases |s| - i
  {
    if OccursAt(s, pat, i) then Some(i) else if i == |s| then None else IndexFrom(s, pat, i + 1)
  }

  /** `s.find(pat)`: the first index at which `pat` occurs, if any. */
  function IndexOf(s: string, pat: string): (r: Option<nat>)
    ensures r.Some? <==> Contains(s, pat)
    ensures r.Some? ==> r.value <= |s| && OccursAt(s, pat, r.value)
    ensures r.Some? ==> forall j: nat :: j < r.value ==> !OccursAt(s, pat, j)
  {
    IndexFrom(s, pat, 0)
  }

  /** `sep.join(parts)`. */
  function Join(parts: seq<string>, sep: string): string
  {
    if |parts| == 0 then "" else if |parts| == 1 then parts[0] else parts[0] + sep + Join(parts[1..], sep)
  }

  /** A prefix of `s` that ends before the first occurrence of `pat` holds no occurrence of it. */
  lemma PrefixBeforeFirst(s: string, pat: string, i: nat)
    requires |pat| > 0 && i <= |s|
    requires forall j: nat :: j < i ==> !OccursAt(s, pat, j)
    ensures !Contains(s[..i], pat)
  {
    forall j: nat | j <= i && OccursAt(s[..i], pat, j) ensures false {
      assert s[..i][j..j + |pat|] == s[j..j + |pat|];
      assert OccursAt(s, pat, j);
    }
  }

  /** A text is what comes before an occurrence, the occurrence, and what follows it. */
  lemma Around(s: string, pat: string, i: nat)
    requires OccursAt(s, pat, i)
    ensures s == s[..i] + pat + s[i + |pat|..]
  {
    assert s == s[..i] + s[i..i + |pat|] + s[i + |pat|..];
  }

  /** The middle of a concatenation occurs where the first part ends. */
  lemma Middle(pre: string, mid: string, post: string)
    ensures OccursAt(pre + mid + post, mid, |pre|)
    ensures (pre + mid + post)[|pre| + |mid|..] == post
  {
    assert (pre + mid + post)[|pre|..|pre| + |mid|] == mid;
  }

  /**
   * `s.split(sep)`: the pieces between the occurrences of `sep`, found left to
   * right without overlap. Joining them back with `sep` gives `s`, and no piece
   * holds `sep`.
   */
  function Split(s: string, sep: string): (r: seq<string>)
    requires |sep| > 0
    ensures |r| >= 1
    ensures Join(r, sep) == s
    ensures forall k :: 0 <= k < |r| ==> !Contains(r[k], sep)
    ensures |r| == 1 <==> IndexOf(s, sep).None?
    decreases |s|
  {
    match IndexOf(s, sep)
    case None => [s]
    case Some(i) =>
      PrefixBeforeFirst(s, sep, i);
      var rest := Split(s[i + |sep|..], sep);
      var r := [s[..i]] + rest;
      assert r[1..] == rest;
      assert Join(r, sep) == s[..i] + sep + Join(rest, sep);
      Around(s, sep, i);
      assert forall k :: 1 <= k < |r| ==> r[k] == rest[k - 1];
      r
  }

  /** `s.split(sep)[0]`: everything before the first `sep`, or all of `s`. */
  lemma SplitFirst(s: string, sep: string)
    requires |sep| > 0
    ensures IndexOf(s, sep).None? ==> Split(s, sep)[0] == s
    ensures IndexOf(s, sep).Some? ==> Split(s, sep)[0] == s[..IndexOf(s, sep).value]
  {
  }

  /** `s.split(sep)[1]`, which raises IndexError when `sep` does not occur. */
  function SplitSecond(s: string, sep: string): (r: Option<string>)
    requires |sep| > 0
    ensures r.Some? <==> Contains(s, sep)
    ensures r.Some? ==> !Contains(r.value, sep)
  {
    var parts := Split(s, sep);
    if |parts| >= 2 then Some(parts[1]) else None
  }

  /**
   * `head + sep` has no occurrence of `sep` before the one that closes it: the
   * condition under which the first `sep` in `head + sep + rest` is the one
   * after `head` (an occurrence may otherwise straddle the end of `head`).
   */
  predicate NoEarlySep(head: string, sep: string)
    requires |sep| > 0
  {
    !Contains(head + sep[..|sep| - 1], sep)
  }

  /** With `head` ahead of it, the first `sep` is the one that follows `head`. */
  lemma FirstOccurrence(head: string, sep: string, rest: string)
    requires |sep| > 0 && NoEarlySep(head, sep)
    ensures IndexOf(head + sep + rest, sep) == Some(|head|)
  {
    var s := head + sep + rest;
    var h := head + sep[..|sep| - 1];
    assert s[|head|..|head| + |sep|] == sep;
    assert OccursAt(s, sep, |head|);
    var i := IndexOf(s, sep).value;
    if i < |head| {
      assert s[i..i + |sep|] == h[i..i + |sep|];
      assert OccursAt(h, sep, i);
    }
  }

  /** For a one-character separator, `NoEarlySep` just says `head` does not hold it. */
  lemma NoEarlySepOneChar(head: string, sep: string)
    requires |sep| == 1
    ensures NoEarlySep(head, sep) <==> !Contains(head, sep)
  {
    assert head + sep[..0] == head;
  }

  /** Splitting peels `head` off as the first piece. */
  lemma SplitAfterHead(head: string, sep: string, rest: string)
    requires |sep| > 0 && NoEarlySep(head, sep)
    ensures Split(head + sep + rest, sep) == [head] + Split(rest, sep)
  {
    var s := head + sep + rest;
    FirstOccurrence(head, sep, rest);
    assert s[..|head|] == head;
    assert s[|head| + |sep|..] == rest;
  }

  /** `s.split(sep)[1]` is what lies between the first and the second `sep`. */
  lemma SplitSecondIsBetween(head: string, sep: string, mid: string, tail: string)
    requires |sep| > 0
    requires NoEarlySep(head, sep) && NoEarlySep(mid, sep)
    ensures SplitSecond(head + sep + mid + sep + tail, sep) == Some(mid)
  {
    assert head + sep + mid + sep + tail == head + sep + (mid + sep + tail);
    SplitAfterHead(head, sep, mid + sep + tail);
    SplitAfterHead(mid, sep, tail);
  }

  /** When `sep` occurs once only, `s.split(sep)[1]` is everything after it. */
  lemma SplitSecondIsRest(head: string, sep: string, rest: string)
    requires |sep| > 0
    requires NoEarlySep(head, sep) && !Contains(rest, sep)
    ensures SplitSecond(head + sep + rest, sep) == Some(rest)
  {
    SplitAfterHead(head, sep, rest);
  }

  /** A text lacking one of the characters of `pat` does not contain `pat`. */
  lemma MissingChar(s: string, pat: string, c: char)
    requires c in pat && c !in s
    ensures !Contains(s, pat)
  {
    var k :| 0 <= k < |pat| && pat[k] == c;
    forall j: nat | j <= |s| ensures !OccursAt(s, pat, j) {
      if j + |pat| <= |s| {
        assert s[j + k] in s;
        assert s[j..j + |pat|][k] == s[j + k];
      }
    }
  }

  /** `s.split(sep)[0]`: everything before the first `sep`. */
  function TrimAt(s: string, sep: string): (r: string)
    requires |sep| > 0
    ensures |r| <= |s| && r == s[..|r|] && !Contains(r, sep)
    ensures Contains(s, sep) ==> OccursAt(s, sep, |r|)
    ensures !Contains(s, sep) ==> r == s
  {
    SplitFirst(s, sep);
    var r := Split(s, sep)[0];
    if IndexOf(s, sep).Some? then
      PrefixBeforeFirst(s, sep, IndexOf(s, sep).value);
      r
    else r
  }

  lemma TrimAtSeparator(head: string, sep: string, rest: string)
    requires |sep| > 0 && NoEarlySep(head, sep)
    ensures TrimAt(head + sep + rest, sep) == head
  {
    SplitAfterHead(head, sep, rest);
  }

  /** Splitting undoes joining when no piece holds the one-character separator. */
  lemma {:induction false} SplitJoin(parts: seq<string>, sep: string)
    requires |sep| == 1 && |parts| >= 1
    requires forall k :: 0 <= k < |parts| ==> !Contains(parts[k], sep)
    ensures Split(Join(parts, sep), sep) == parts
    decreases |parts|
  {
    if |parts| == 1 {
      assert Split(parts[0], sep) == [parts[0]];
    } else {
      NoEarlySepOneChar(parts[0], sep);
      SplitAfterHead(parts[0], sep, Join(parts[1..], sep));
      SplitJoin(parts[1..], sep);
      assert parts == [parts[0]] + parts[1..];
    }
  }
}
