/**
 * `parse_number` (main.py:533-560): scraped count text such as "1.2万",
 * "3.4K", "2M" or "1,234 likes" becomes an integer.
 *
 * Python's `re.IGNORECASE` folds a few non-ASCII letters onto ASCII ones; the
 * letter classes below include them (U+0130 and U+0131 for `i`, U+017F for
 * `s`, the Kelvin sign U+212A for `k`). Digits are ASCII only, and the
 * `float` product of the original is computed exactly and then truncated.
 */
module Counts {
  import opened Results
  import opened Text

  /** What a scraped count may be before normalisation: a Python `int`, a `str`, or `None`. */
  datatype RawCount = Int(value: int) | Str(text: string) | NoneValue

  // ------------------------------------------------- `(likes?|次赞)`, removed

  predicate IsL(c: char) { c == 'l' || c == 'L' }
  predicate IsI(c: char) { c == 'i' || c == 'I' || c == '\U{130}' || c == '\U{131}' }
  predicate IsK(c: char) { c == 'k' || c == 'K' || c == '\U{212A}' }
  predicate IsE(c: char) { c == 'e' || c == 'E' }
  predicate IsS(c: char) { c == 's' || c == 'S' || c == '\U{17F}' }
  predicate IsM(c: char) { c == 'm' || c == 'M' }

  /** A label can only begin with one of these characters. */
  predicate StartsLabel(c: char) { IsL(c) || c == '次' }

  /** The length of the label `likes?|次赞` (case-insensitive) at the start of `s`; 0 when there is none. */
  function LabelAt(s: string): (k: nat)
    ensures k <= |s|
    ensures k > 0 ==> StartsLabel(s[0])
  {
    if |s| >= 4 && IsL(s[0]) && IsI(s[1]) && IsK(s[2]) && IsE(s[3]) then
      (if |s| >= 5 && IsS(s[4]) then 5 else 4)
    else if |s| >= 2 && s[0] == '次' && s[1] == '赞' then 2
    else 0
  }

  /** `re.sub(r"(likes?|次赞)", "", s, flags=re.IGNORECASE)`: one left-to-right pass. */
  function RemoveLabels(s: string): (r: string)
    ensures |r| <= |s|
    decreases |s|
  {
    if s == [] then ""
    else if LabelAt(s) > 0 then RemoveLabels(s[LabelAt(s)..])
    else [s[0]] + RemoveLabels(s[1..])
  }

  /** Text in which no label can begin passes through unchanged, and the rest is processed after it. */
  lemma {:induction false} RemoveLabelsConcat(p: string, t: string)
    requires forall i :: 0 <= i < |p| ==> !StartsLabel(p[i])
    ensures RemoveLabels(p + t) == p + RemoveLabels(t)
  {
    if p != [] {
      assert (p + t)[1..] == p[1..] + t;
      RemoveLabelsConcat(p[1..], t);
    } else {
      assert p + t == t;
    }
  }

  /** A label on its own is removed entirely. */
  lemma RemoveWholeLabel(word: string)
    requires word != [] && LabelAt(word) == |word|
    ensures RemoveLabels(word) == ""
  {
  }

  // ------------------------------------------- `(\d+(\.\d+)?)\s?<unit>`, matched

  /** The three magnitude suffixes, in the order the source tries them. */
  datatype Unit = Wan | Thousand | Million

  predicate IsUnitChar(u: Unit, c: char)
  {
    match u
    case Wan => c == '万'
    case Thousand => IsK(c)
    case Million => IsM(c)
  }

  function Multiplier(u: Unit): nat
  {
    match u
    case Wan => 10000
    case Thousand => 1000
    case Million => 1000000
  }

  /** The digits before and after the point of `\d+(\.\d+)?`; `frac` is empty when there is no point. */
  datatype Decimal = Decimal(whole: string, frac: string)

  predicate WellFormed(d: Decimal)
  {
    d.whole != [] && AllDigits(d.whole) && AllDigits(d.frac)
  }

  /** How the decimal is written: `whole`, or `whole.frac`. */
  function DecimalText(d: Decimal): string
  {
    d.whole + (if d.frac == [] then "" else "." + d.frac)
  }

  /**
   * `(\d+(\.\d+)?)` matched at the start of `s`: the number and the text after
   * it. The match is greedy, and backtracking never finds another one, since
   * what may follow a digit run is never itself a digit.
   */
  function LeadingDecimal(s: string): (r: Option<(Decimal, string)>)
    ensures r.Some? ==> WellFormed(r.value.0) && s == DecimalText(r.value.0) + r.value.1
    ensures r.None? <==> (s == [] || !IsDigit(s[0]))
  {
    var w := DigitRun(s);
    if w == [] then None
    else
      var after := s[|w|..];
      if |after| >= 2 && after[0] == '.' && IsDigit(after[1]) then
        var f := DigitRun(after[1..]);
        assert after == "." + f + after[1 + |f|..];
        Some((Decimal(w, f), after[1 + |f|..]))
      else
        Some((Decimal(w, ""), after))
  }

  /** `\s?<unit>` at the start of `rest`. */
  predicate UnitFollows(rest: string, u: Unit)
  {
    (|rest| >= 1 && IsUnitChar(u, rest[0])) || (|rest| >= 2 && IsSpace(rest[0]) && IsUnitChar(u, rest[1]))
  }

  /** `int(float(d) * k)`, computed exactly: the product truncated toward zero. */
  function Scale(d: Decimal, k: nat): nat
    requires WellFormed(d)
  {
    ScaledDigits(NatOf(d.whole), Pow10(|d.frac|), NatOf(d.frac), k) / Pow10(|d.frac|)
  }

  /** The digits of `whole.frac` read as one integer (`p` is 10 to the number of fraction digits), times `k`. */
  function ScaledDigits(whole: nat, p: nat, frac: nat, k: nat): nat
  {
    (whole * p + frac) * k
  }

  /** `re.match(r"(\d+(\.\d+)?)\s?<unit>", s)` and the scaled value when it matches. */
  function SuffixValue(s: string, u: Unit): Option<nat>
  {
    match LeadingDecimal(s)
    case None => None
    case Some((d, rest)) => if UnitFollows(rest, u) then Some(Scale(d, Multiplier(u))) else None
  }

  // ---------------------------------------------------------------- `int()`

  /** Digits with single underscores between them, as `int()` accepts them. */
  predicate IsDigitGroups(t: string)
  {
    && t != [] && IsDigit(t[0]) && IsDigit(t[|t| - 1])
    && (forall i :: 0 <= i < |t| ==> IsDigit(t[i]) || t[i] == '_')
    && (forall i :: 0 <= i < |t| - 1 ==> t[i] == '_' ==> t[i + 1] != '_')
  }

  /** The digits of `t`, underscores dropped. */
  function DigitsOf(t: string): (r: string)
    ensures AllDigits(r)
    ensures AllDigits(t) ==> r == t
  {
    if t == [] then "" else (if IsDigit(t[0]) then [t[0]] else "") + DigitsOf(t[1..])
  }

  /** `int(s)` for already stripped text: Some(value), or None where Python raises ValueError. */
  function IntLiteral(s: string): (r: Option<int>)
    ensures r.Some? && r.value < 0 ==> s != [] && s[0] == '-'
    ensures AllDigits(s) && s != [] ==> r == Some(NatOf(s))
  {
    if s != [] && (s[0] == '+' || s[0] == '-') then
      if IsDigitGroups(s[1..]) then
        var n: int := NatOf(DigitsOf(s[1..]));
        var v: int := if s[0] == '-' then -n else n;
        Some(v)
      else None
    else if IsDigitGroups(s) then Some(NatOf(DigitsOf(s)))
    else None
  }

  // ------------------------------------------------------------- the parser

  /** `re.sub(...)` applied to `text.strip()`. */
  function Unlabelled(text: string): string
  {
    RemoveLabels(Strip(text))
  }

  /** `t.replace(",", "").replace(" ", "").strip()`. */
  function Compact(t: string): string
  {
    Strip(Remove(Remove(t, ','), ' '))
  }

  /** The value of compacted, non-blank text: the suffix forms first, then `int()`, else 0. */
  function ValueOf(u: string): int
  {
    match SuffixValue(u, Wan)
    case Some(v) => v
    case None =>
      match SuffixValue(u, Thousand)
      case Some(v) => v
      case None =>
        match SuffixValue(u, Million)
        case Some(v) => v
        case None =>
          match IntLiteral(u)
          case Some(v) => v
          case None => 0
  }

  /** `parse_number` on a `str`. */
  function ParseCountText(text: string): int
  {
    var t := Unlabelled(text);
    if AllSpace(t) then 0 else ValueOf(Compact(t))
  }

  /**
   * `parse_number(x)`: an `int` comes back unchanged, a `str` is parsed, and
   * `None` raises AttributeError (on `None.strip()`), which the calling adapter
   * turns into its failure result.
   */
  function ParseNumber(x: RawCount): (r: Result<int>)
    ensures x.Int? ==> r == Ok(x.value)
    ensures x.NoneValue? ==> r.Fail?
    ensures x.Str? ==> r.Ok? && r.value == ParseCountText(x.text)
  {
    match x
    case Int(n) => Ok(n)
    case Str(s) => Ok(ParseCountText(s))
    case NoneValue => Fail("'NoneType' object has no attribute 'strip'")
  }

  // ------------------------------------------------------------- properties

  /** Empty text, blank text and a bare label all count as 0. */
  lemma BlankIsZero(text: string)
    requires AllSpace(Unlabelled(text))
    ensures ParseCountText(text) == 0
  {
  }

  lemma AllSpaceStripRight(t: string)
    requires AllSpace(t)
    ensures StripRight(t) == ""
  {
  }

  lemma AllSpaceRemove(t: string, c: char)
    requires AllSpace(t)
    ensures AllSpace(Remove(t, c))
  {
    assert forall x :: x in Remove(t, c) ==> x in t by {
      RemoveKeeps(t, c);
    }
  }

  lemma {:induction false} RemoveKeeps(t: string, c: char)
    ensures forall x :: x in Remove(t, c) ==> x in t
  {
    if t != [] {
      RemoveKeeps(t[1..], c);
    }
  }

  lemma UnitCharClasses(u: Unit, c: char)
    requires IsUnitChar(u, c)
    ensures !StartsLabel(c) && !IsSpace(c) && !IsDigit(c) && c != ',' && c != ' ' && c != '.'
    ensures forall v :: IsUnitChar(v, c) ==> v == u
  {
  }

  /** Text that starts and ends with a non-blank character where no label can begin survives `strip` and the label removal. */
  lemma UnlabelledPrefix(p: string, tail: string)
    requires p != [] && !IsSpace(p[0]) && !IsSpace(p[|p| - 1])
    requires forall i :: 0 <= i < |p| ==> !StartsLabel(p[i])
    ensures Unlabelled(p + tail) == p + RemoveLabels(StripRight(tail))
  {
    StripConcat(p, tail);
    RemoveLabelsConcat(p, StripRight(tail));
  }

  /** Such text without commas or spaces also survives `Compact`. */
  lemma CompactPrefix(p: string, x: string)
    requires p != [] && !IsSpace(p[0]) && !IsSpace(p[|p| - 1])
    requires ',' !in p && ' ' !in p
    ensures Compact(p + x) == p + StripRight(Remove(Remove(x, ','), ' '))
  {
    RemoveConcat(p, x, ',');
    RemoveConcat(p, Remove(x, ','), ' ');
    StripConcat(p, Remove(Remove(x, ','), ' '));
  }

  /** A decimal followed by a character that cannot extend it is matched as exactly that decimal. */
  lemma LeadingDecimalOf(d: Decimal, rest: string)
    requires WellFormed(d)
    requires rest == [] || (!IsDigit(rest[0]) && rest[0] != '.')
    ensures LeadingDecimal(DecimalText(d) + rest) == Some((d, rest))
  {
    if d.frac == [] {
      LeadingWhole(d.whole, rest);
    } else {
      LeadingFraction(d.whole, d.frac, rest);
    }
  }

  lemma LeadingWhole(w: string, rest: string)
    requires w != [] && AllDigits(w)
    requires rest == [] || (!IsDigit(rest[0]) && rest[0] != '.')
    ensures LeadingDecimal(w + rest) == Some((Decimal(w, ""), rest))
  {
    DigitRunConcat(w, rest);
    assert (w + rest)[|w|..] == rest;
  }

  lemma LeadingFraction(w: string, f: string, rest: string)
    requires w != [] && AllDigits(w) && f != [] && AllDigits(f)
    requires rest == [] || !IsDigit(rest[0])
    ensures LeadingDecimal(w + ("." + f) + rest) == Some((Decimal(w, f), rest))
  {
    var after := "." + f + rest;
    var s := w + after;
    assert w + ("." + f) + rest == s;
    assert DigitRun(s) == w && s[|w|..] == after by {
      DigitRunConcat(w, after);
    }
    assert |after| >= 2 && after[0] == '.' && after[1] == f[0] && IsDigit(f[0]);
    assert DigitRun(after[1..]) == f && after[1 + |f|..] == rest by {
      assert after[1..] == f + rest;
      DigitRunConcat(f, rest);
    }
  }

  /** The characters of a written decimal: digits and at most a point. */
  lemma DecimalTextChars(d: Decimal)
    requires WellFormed(d)
    ensures var t := DecimalText(d); t != [] && IsDigit(t[0]) && IsDigit(t[|t| - 1])
    ensures forall i :: 0 <= i < |DecimalText(d)| ==> IsDigit(DecimalText(d)[i]) || DecimalText(d)[i] == '.'
  {
  }

  /** The value of a decimal followed by a unit character. */
  lemma ValueOfSuffixed(d: Decimal, c: char, rest: string, u: Unit)
    requires WellFormed(d) && IsUnitChar(u, c)
    ensures ValueOf(DecimalText(d) + [c] + rest) == Scale(d, Multiplier(u))
  {
    UnitCharClasses(u, c);
    assert DecimalText(d) + [c] + rest == DecimalText(d) + ([c] + rest);
    LeadingDecimalOf(d, [c] + rest);
  }

  /** A decimal and its unit character start with a digit and hold nothing that strip, label removal or compaction touch. */
  lemma SuffixedPrefix(d: Decimal, c: char, u: Unit)
    requires WellFormed(d) && IsUnitChar(u, c)
    ensures var p := DecimalText(d) + [c];
      && p != [] && IsDigit(p[0]) && !IsSpace(p[|p| - 1])
      && ',' !in p && ' ' !in p
      && (forall i :: 0 <= i < |p| ==> !StartsLabel(p[i]))
  {
    UnitCharClasses(u, c);
    DecimalTextChars(d);
    var p := DecimalText(d) + [c];
    assert forall i :: 0 <= i < |p| ==> p[i] == c || IsDigit(p[i]) || p[i] == '.';
  }

  /** Text whose label-free form starts with a digit is valued by `ValueOf`. */
  lemma ParseNonBlank(text: string)
    requires Unlabelled(text) != [] && !IsSpace(Unlabelled(text)[0])
    ensures ParseCountText(text) == ValueOf(Compact(Unlabelled(text)))
  {
    var t := Unlabelled(text);
    assert !AllSpace(t);
  }

  /** Text whose label-free form `t` starts with a non-blank character and compacts to `u` has the value of `u`. */
  lemma ParsedVia(text: string, t: string, u: string)
    requires Unlabelled(text) == t && t != [] && !IsSpace(t[0]) && Compact(t) == u
    ensures ParseCountText(text) == ValueOf(u)
  {
    ParseNonBlank(text);
  }

  /**
   * A leading decimal number followed by `万`, `K`/`k` or `M`/`m` gives the
   * number times 10000, 1000 or 1000000, truncated; whatever text follows the
   * suffix is ignored. At most one suffix class can match, so the order in
   * which the source tries them never changes a result.
   */
  lemma SuffixedCount(d: Decimal, c: char, tail: string, u: Unit)
    requires WellFormed(d) && IsUnitChar(u, c)
    ensures ParseCountText(DecimalText(d) + [c] + tail) == Scale(d, Multiplier(u))
  {
    var p := DecimalText(d) + [c];
    var rest := RemoveLabels(StripRight(tail));
    var rest' := StripRight(Remove(Remove(rest, ','), ' '));
    SuffixedPrefix(d, c, u);
    UnlabelledPrefix(p, tail);
    CompactPrefix(p, rest);
    ValueOfSuffixed(d, c, rest', u);
    ParseNonBlank(p + tail);
  }

  /** The value of a decimal, one whitespace character and a unit character. */
  lemma ValueOfSpaced(d: Decimal, w: char, c: char, rest: string, u: Unit)
    requires WellFormed(d) && IsSpace(w) && IsUnitChar(u, c)
    ensures ValueOf(DecimalText(d) + [w] + [c] + rest) == Scale(d, Multiplier(u))
  {
    var r := [w] + [c] + rest;
    var x := DecimalText(d) + r;
    assert DecimalText(d) + [w] + [c] + rest == x;
    UnitCharClasses(u, c);
    assert r[0] == w && r[1] == c;
    assert forall v :: UnitFollows(r, v) <==> v == u by {
      forall v ensures !IsUnitChar(v, w) {
      }
    }
    LeadingDecimalOf(d, r);
    assert forall v :: SuffixValue(x, v) == if v == u then Some(Scale(d, Multiplier(u))) else None;
  }

  /** With a whitespace character other than ' ' between them, the decimal and its unit still survive strip, label removal and compaction. */
  lemma SpacedPrefix(d: Decimal, w: char, c: char, u: Unit)
    requires WellFormed(d) && IsSpace(w) && w != ' ' && IsUnitChar(u, c)
    ensures var p := DecimalText(d) + [w] + [c];
      && p != [] && IsDigit(p[0]) && !IsSpace(p[|p| - 1])
      && ',' !in p && ' ' !in p
      && (forall i :: 0 <= i < |p| ==> !StartsLabel(p[i]))
  {
    UnitCharClasses(u, c);
    DecimalTextChars(d);
    var p := DecimalText(d) + [w] + [c];
    assert forall i :: 0 <= i < |p| ==> p[i] == c || p[i] == w || IsDigit(p[i]) || p[i] == '.';
  }

  /**
   * The `\s?` of the suffix patterns: one whitespace character between the
   * number and its unit is allowed. Only ' ' is removed before matching
   * (main.py:542), so a tab or U+00A0 there is the character the pattern
   * skips, and the value is the same as without it.
   */
  lemma SpacedSuffixedCount(d: Decimal, w: char, c: char, tail: string, u: Unit)
    requires WellFormed(d) && IsSpace(w) && w != ' ' && IsUnitChar(u, c)
    ensures ParseCountText(DecimalText(d) + [w] + [c] + tail) == Scale(d, Multiplier(u))
  {
    var p := DecimalText(d) + [w] + [c];
    var rest := RemoveLabels(StripRight(tail));
    var rest' := StripRight(Remove(Remove(rest, ','), ' '));
    SpacedPrefix(d, w, c, u);
    UnlabelledPrefix(p, tail);
    CompactPrefix(p, rest);
    ValueOfSpaced(d, w, c, rest', u);
    ParseNonBlank(p + tail);
  }

  /** Digits with thousands commas, starting and ending with a digit: "1,234". */
  predicate Grouped(g: string)
  {
    && g != [] && IsDigit(g[0]) && IsDigit(g[|g| - 1])
    && forall i :: 0 <= i < |g| ==> IsDigit(g[i]) || g[i] == ','
  }

  /** What may follow a count: blank space, then nothing or one label such as "likes" or "次赞". */
  predicate Trailer(sp: string, word: string)
  {
    AllSpace(sp) && (word == [] || LabelAt(word) == |word|)
  }

  /**
   * A grouped count, then optionally blank space and a label, reads as the
   * value of its digits: "1,234 likes" is 1234.
   */
  lemma PlainCount(g: string, sp: string, word: string)
    requires Grouped(g) && Trailer(sp, word)
    ensures AllDigits(Remove(g, ','))
    ensures ParseCountText(g + sp + word) == NatOf(Remove(g, ','))
  {
    ValueOfGrouped(g);
    if word != [] {
      UnlabelledLabelled(g, sp, word);
      CompactGrouped(g, sp);
      ParsedVia(g + sp + word, g + sp, Remove(g, ','));
    } else {
      assert g + sp + word == g + sp;
      UnlabelledBare(g, sp);
      CompactGrouped(g, "");
      assert g + "" == g;
      ParsedVia(g + sp, g, Remove(g, ','));
    }
  }

  lemma ValueOfGrouped(g: string)
    requires Grouped(g)
    ensures AllDigits(Remove(g, ','))
    ensures ValueOf(Remove(g, ',')) == NatOf(Remove(g, ','))
  {
    DigitsAfterRemove(g);
    GroupedDigits(g);
    ValueOfDigits(Remove(g, ','));
  }

  /** Plain digits are read by `int()`. */
  lemma ValueOfDigits(digits: string)
    requires digits != [] && AllDigits(digits)
    ensures ValueOf(digits) == NatOf(digits)
  {
    LeadingWhole(digits, "");
    assert digits + "" == digits;
  }

  lemma CompactGrouped(g: string, sp: string)
    requires Grouped(g) && AllSpace(sp)
    ensures Compact(g + sp) == Remove(g, ',')
  {
    GroupedDigits(g);
    BlankCompacts(sp);
    CompactParts(g, sp);
  }

  lemma CompactParts(g: string, sp: string)
    requires Remove(g, ',') != [] && !IsSpace(Remove(g, ',')[0]) && !IsSpace(Remove(g, ',')[|Remove(g, ',')| - 1])
    requires ' ' !in Remove(g, ',')
    requires StripRight(Remove(Remove(sp, ','), ' ')) == ""
    ensures Compact(g + sp) == Remove(g, ',')
  {
    RemoveBothConcat(g, sp);
    StripConcat(Remove(g, ','), Remove(Remove(sp, ','), ' '));
    assert Remove(g, ',') + "" == Remove(g, ',');
  }

  /** Digits with commas lose only the commas. */
  lemma GroupedDigits(g: string)
    requires Grouped(g)
    ensures var digits := Remove(g, ',');
      && digits != [] && !IsSpace(digits[0]) && !IsSpace(digits[|digits| - 1])
      && ' ' !in digits
  {
    RemoveHead(g);
    RemoveLast(g);
    DigitsAfterRemove(g);
  }

  lemma RemoveBothConcat(a: string, b: string)
    ensures Remove(Remove(a + b, ','), ' ') == Remove(Remove(a, ','), ' ') + Remove(Remove(b, ','), ' ')
  {
    RemoveConcat(a, b, ',');
    RemoveConcat(Remove(a, ','), Remove(b, ','), ' ');
  }

  lemma BlankCompacts(sp: string)
    requires AllSpace(sp)
    ensures StripRight(Remove(Remove(sp, ','), ' ')) == ""
  {
    AllSpaceRemove(sp, ',');
    AllSpaceRemove(Remove(sp, ','), ' ');
    AllSpaceStripRight(Remove(Remove(sp, ','), ' '));
  }

  /** Digits, commas and blank space hold no label start. */
  lemma NoLabelInDigits(g: string, sp: string)
    requires Grouped(g) && AllSpace(sp)
    ensures forall i :: 0 <= i < |g + sp| ==> !StartsLabel((g + sp)[i])
  {
    forall i | 0 <= i < |g + sp|
      ensures !StartsLabel((g + sp)[i])
    {
      if i < |g| {
        assert (g + sp)[i] == g[i];
      } else {
        assert (g + sp)[i] == sp[i - |g|];
      }
    }
  }

  lemma UnlabelledLabelled(g: string, sp: string, word: string)
    requires Grouped(g) && AllSpace(sp)
    requires word != [] && LabelAt(word) == |word|
    ensures Unlabelled(g + sp + word) == g + sp
    ensures IsDigit((g + sp)[0])
  {
    NoLabelInDigits(g, sp);
    assert (g + sp)[0] == g[0];
    StrippedLabelled(g + sp, word);
    RemoveLabelsConcat(g + sp, word);
    RemoveWholeLabel(word);
    assert g + sp + "" == g + sp;
  }

  lemma UnlabelledBare(g: string, sp: string)
    requires Grouped(g) && AllSpace(sp)
    ensures Unlabelled(g + sp) == g
  {
    StrippedBlank(g, sp);
    NoLabelInDigits(g, "");
    assert g + "" == g;
    RemoveLabelsConcat(g, "");
  }

  /** Text that starts with a non-blank character and ends in a label is its own `strip`. */
  lemma StrippedLabelled(q: string, word: string)
    requires q != [] && !IsSpace(q[0])
    requires word != [] && LabelAt(word) == |word|
    ensures Strip(q + word) == q + word
  {
    var p := q + word;
    assert p[0] == q[0];
    assert p[|p| - 1] == word[|word| - 1];
    StripConcat(p, "");
    assert p + "" == p;
  }

  /** Text that starts and ends with non-blank characters, then blank space, strips to the text. */
  lemma StrippedBlank(g: string, sp: string)
    requires g != [] && !IsSpace(g[0]) && !IsSpace(g[|g| - 1])
    requires AllSpace(sp)
    ensures Strip(g + sp) == g
  {
    StripConcat(g, sp);
    AllSpaceStripRight(sp);
    assert g + "" == g;
  }

  lemma {:induction false} DigitsAfterRemove(g: string)
    requires forall i :: 0 <= i < |g| ==> IsDigit(g[i]) || g[i] == ','
    ensures AllDigits(Remove(g, ','))
  {
    if g != [] {
      DigitsAfterRemove(g[1..]);
    }
  }

  lemma RemoveHead(g: string)
    requires g != [] && g[0] != ','
    ensures Remove(g, ',') != [] && Remove(g, ',')[0] == g[0]
  {
  }

  lemma {:induction false} RemoveLast(g: string)
    requires g != [] && g[|g| - 1] != ','
    ensures Remove(g, ',') != [] && Remove(g, ',')[|Remove(g, ',')| - 1] == g[|g| - 1]
  {
    if |g| > 1 {
      RemoveLast(g[1..]);
    }
  }

  // ---------------------------------------------------------- sign and examples

  lemma {:induction false} RemoveLabelsFree(s: string, x: char)
    requires x !in s
    ensures x !in RemoveLabels(s)
    decreases |s|
  {
    if s != [] {
      if LabelAt(s) > 0 {
        assert forall i :: 0 <= i < |s[LabelAt(s)..]| ==> s[LabelAt(s)..][i] == s[LabelAt(s) + i];
        RemoveLabelsFree(s[LabelAt(s)..], x);
      } else {
        assert forall i :: 0 <= i < |s[1..]| ==> s[1..][i] == s[1 + i];
        RemoveLabelsFree(s[1..], x);
      }
    }
  }

  lemma {:induction false} RemoveFree(s: string, c: char, x: char)
    requires x !in s
    ensures x !in Remove(s, c)
  {
    if s != [] {
      assert forall i :: 0 <= i < |s[1..]| ==> s[1..][i] == s[1 + i];
      RemoveFree(s[1..], c, x);
    }
  }

  lemma StripFree(s: string, x: char)
    requires x !in s
    ensures x !in Strip(s)
  {
    var l := StripLeft(s);
    SliceFree(s, |s| - |l|, |s|, x);
    SliceFree(l, 0, |StripRight(l)|, x);
  }

  lemma SliceFree(s: string, a: nat, b: nat, x: char)
    requires a <= b <= |s| && x !in s
    ensures x !in s[a..b]
  {
    assert forall i :: 0 <= i < b - a ==> s[a..b][i] == s[a + i];
  }

  /** Every count is 0 or the value of the compacted text. */
  lemma ParseCases(text: string)
    ensures ParseCountText(text) == 0 || ParseCountText(text) == ValueOf(Compact(Unlabelled(text)))
  {
  }

  lemma ValueOfWithoutMinus(u: string)
    requires '-' !in u
    ensures ValueOf(u) >= 0
  {
    assert u != [] ==> u[0] != '-';
  }

  /**
   * A count can only come out negative when its text holds a minus sign:
   * `int()` accepts a sign, so "-5" is -5, and nothing else keeps counts
   * non-negative.
   */
  lemma NonNegativeWithoutMinus(text: string)
    requires '-' !in text
    ensures ParseCountText(text) >= 0
  {
    var t := Unlabelled(text);
    StripFree(text, '-');
    RemoveLabelsFree(Strip(text), '-');
    RemoveFree(t, ',', '-');
    RemoveFree(Remove(t, ','), ' ', '-');
    StripFree(Remove(Remove(t, ','), ' '), '-');
    ValueOfWithoutMinus(Compact(t));
    ParseCases(text);
  }

  /** Text with nothing for `strip`, the label removal or the compaction to take away is valued as it stands. */
  lemma ValuedAsWritten(p: string)
    requires p != [] && !IsSpace(p[0]) && !IsSpace(p[|p| - 1])
    requires forall i :: 0 <= i < |p| ==> !StartsLabel(p[i])
    requires ',' !in p && ' ' !in p
    ensures ParseCountText(p) == ValueOf(p)
  {
    UnlabelledPrefix(p, "");
    assert p + "" == p;
    CompactPrefix(p, "");
    ParsedVia(p, p, p);
  }

  /** The concrete decimals used by the examples below, written out and scaled. */
  lemma ExampleDecimals()
    ensures DecimalText(Decimal("1", "2")) + ['万'] + "" == "1.2万"
    ensures DecimalText(Decimal("3", "4")) + ['K'] + "" == "3.4K"
    ensures DecimalText(Decimal("2", "")) + ['M'] + "" == "2M"
    ensures DecimalText(Decimal("1", "5")) + ['k'] + " views" == "1.5k views"
    ensures Scale(Decimal("1", "2"), 10000) == 12000
    ensures Scale(Decimal("3", "4"), 1000) == 3400
    ensures Scale(Decimal("2", ""), 1000000) == 2000000
    ensures Scale(Decimal("1", "5"), 1000) == 1500
  {
  }

  lemma ValueOfMinusFive()
    ensures ValueOf("-5") == -5
  {
    assert LeadingDecimal("-5").None?;
    assert IsDigitGroups("5");
  }

  lemma ValueOfOnePointFive()
    ensures ValueOf("1.5") == 0
  {
    LeadingFraction("1", "5", "");
    assert "1" + ("." + "5") + "" == "1.5";
    assert !IsDigitGroups("1.5") by { assert "1.5"[1] == '.'; }
  }

  lemma ValueOfLetters()
    ensures ValueOf("abc") == 0
  {
    assert LeadingDecimal("abc").None?;
    assert !IsDigitGroups("abc") by { assert !IsDigit("abc"[0]); }
  }

  lemma NegativeExample()
    ensures ParseCountText("-5") == -5
  {
    ValuedAsWritten("-5");
    ValueOfMinusFive();
  }

  lemma FractionWithoutUnitExample()
    ensures ParseCountText("1.5") == 0
  {
    ValuedAsWritten("1.5");
    ValueOfOnePointFive();
  }

  lemma NonNumericExample()
    ensures ParseCountText("abc") == 0
  {
    ValuedAsWritten("abc");
    ValueOfLetters();
  }

  lemma EmptyExample()
    ensures ParseCountText("") == 0
  {
    BlankIsZero("");
  }

  lemma WanExample()
    ensures ParseCountText("1.2万") == 12000
  {
    SuffixedCount(Decimal("1", "2"), '万', "", Wan);
    ExampleDecimals();
  }

  lemma ThousandExample()
    ensures ParseCountText("3.4K") == 3400
  {
    SuffixedCount(Decimal("3", "4"), 'K', "", Thousand);
    ExampleDecimals();
  }

  lemma MillionExample()
    ensures ParseCountText("2M") == 2000000
  {
    SuffixedCount(Decimal("2", ""), 'M', "", Million);
    ExampleDecimals();
  }

  lemma TrailingTextExample()
    ensures ParseCountText("1.5k views") == 1500
  {
    SuffixedCount(Decimal("1", "5"), 'k', " views", Thousand);
    ExampleDecimals();
  }

  lemma LabelledExample()
    ensures ParseCountText("1,234 likes") == 1234
  {
    GroupedExample();
    TrailerExample();
    PlainCount("1,234", " ", "likes");
    RemoveCommaExample();
    NatOfExample();
  }

  lemma GroupedExample()
    ensures Grouped("1,234")
  {
    var g := "1,234";
    assert forall i :: 0 <= i < |g| ==> i == 1 || IsDigit(g[i]);
  }

  lemma TrailerExample()
    ensures Trailer(" ", "likes")
    ensures "1,234" + " " + "likes" == "1,234 likes"
  {
  }

  lemma RemoveCommaExample()
    ensures Remove("1,234", ',') == "1234"
  {
    var t := "234";
    assert ',' !in t by {
      assert t[0] == '2' && t[1] == '3' && t[2] == '4';
    }
    assert Remove(t, ',') == t;
    assert ",234"[0] == ',' && ",234"[1..] == t;
    assert "1,234"[0] == '1' && "1,234"[1..] == ",234";
  }

  lemma NatOfExample()
    ensures NatOf("1234") == 1234
  {
    assert "1234"[..3] == "123";
    assert "123"[..2] == "12";
    assert "12"[..1] == "1";
    assert "1"[..0] == "";
  }
}
