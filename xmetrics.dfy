/**
 * The counters of an X post (main.py:116-141). The `aria-label` of the
 * post's action bar reads like "5 replies, 10 reposts, 20 likes, 2 bookmarks,
 * 100 views" (or its Chinese form). It is split at every ',', and each piece
 * that holds a digit run and one of the keywords sets one counter to that
 * run. The first keyword pair that matches decides the counter; a later
 * piece for the same counter overwrites an earlier one.
 */
module XMetrics {
  import opened Results
  import opened Text

  /** A counter: still the integer 0 it starts as, or the digit string read for it. */
  datatype Value = Unset | Count(digits: string)

  datatype Metrics = Metrics(comments: Value, share: Value, likes: Value, loves: Value, views: Value)

  const NoMetrics := Metrics(Unset, Unset, Unset, Unset, Unset)

  /** The five counters, in the order the keyword tests are tried. */
  datatype Kind = Comments | Shares | Likes | Loves | Views

  function Rank(k: Kind): nat
  {
    match k
    case Comments => 0
    case Shares => 1
    case Likes => 2
    case Loves => 3
    case Views => 4
  }

  function Chinese(k: Kind): string
  {
    match k
    case Comments => "回复"
    case Shares => "转帖"
    case Likes => "喜欢"
    case Loves => "书签"
    case Views => "观看"
  }

  function English(k: Kind): string
  {
    match k
    case Comments => "replies"
    case Shares => "reposts"
    case Likes => "likes"
    case Loves => "bookmarks"
    case Views => "views"
  }

  predicate Mentions(item: string, k: Kind)
  {
    Contains(item, Chinese(k)) || Contains(item, English(k))
  }

  /** The `if`/`elif` chain: the first counter whose keywords the piece mentions. */
  function KindOf(item: string): Option<Kind>
  {
    if Mentions(item, Comments) then Some(Comments)
    else if Mentions(item, Shares) then Some(Shares)
    else if Mentions(item, Likes) then Some(Likes)
    else if Mentions(item, Loves) then Some(Loves)
    else if Mentions(item, Views) then Some(Views)
    else None
  }

  /** The chain picks a counter the piece mentions, and none mentioned earlier. */
  lemma KindOfIsFirst(item: string)
    ensures KindOf(item).Some? ==> Mentions(item, KindOf(item).value)
    ensures KindOf(item).Some? ==> forall k: Kind :: Rank(k) < Rank(KindOf(item).value) ==> !Mentions(item, k)
    ensures KindOf(item).None? <==> forall k: Kind :: !Mentions(item, k)
  {
    var r := KindOf(item);
    if r.None? {
      forall k: Kind ensures !Mentions(item, k) {
        match k {
          case Comments => case Shares => case Likes => case Loves => case Views =>
        }
      }
    } else {
      forall k: Kind | Rank(k) < Rank(r.value) ensures !Mentions(item, k) {
        match k {
          case Comments =>
          case Shares => assert r != Some(Comments);
          case Likes => assert r != Some(Comments) && r != Some(Shares);
          case Loves => assert r != Some(Comments) && r != Some(Shares) && r != Some(Likes);
          case Views =>
        }
      }
    }
  }

  /** `re.search(r'(\d+)', item).group(1)`: the leftmost maximal run of digits. */
  function FirstDigits(s: string): (r: Option<string>)
    ensures r.Some? ==> r.value != [] && AllDigits(r.value)
    ensures r.None? <==> forall i :: 0 <= i < |s| ==> !IsDigit(s[i])
  {
    if s == [] then None
    else if IsDigit(s[0]) then Some(DigitRun(s))
    else FirstDigits(s[1..])
  }

  /** Digits after a digit-free prefix and before a non-digit are the first run. */
  lemma {:induction false} FirstDigitsOf(pre: string, d: string, post: string)
    requires forall i :: 0 <= i < |pre| ==> !IsDigit(pre[i])
    requires d != [] && AllDigits(d) && (post == [] || !IsDigit(post[0]))
    ensures FirstDigits(pre + d + post) == Some(d)
    decreases |pre|
  {
    if pre == [] {
      assert pre + d + post == d + post;
      DigitRunConcat(d, post);
    } else {
      assert (pre + d + post)[1..] == pre[1..] + d + post;
      FirstDigitsOf(pre[1..], d, post);
    }
  }

  /** What one piece of the label sets: a counter and its digits, or nothing. */
  function Reading(item: string): Option<(Kind, string)>
  {
    match FirstDigits(item)
    case None => None
    case Some(v) =>
      match KindOf(item)
      case None => None
      case Some(k) => Some((k, v))
  }

  /** The reading of every piece, in order. */
  function Readings(items: seq<string>): (r: seq<Option<(Kind, string)>>)
    ensures |r| == |items|
    ensures forall i :: 0 <= i < |items| ==> r[i] == Reading(items[i])
  {
    seq(|items|, i requires 0 <= i < |items| => Reading(items[i]))
  }

  function Field(m: Metrics, k: Kind): Value
  {
    match k
    case Comments => m.comments
    case Shares => m.share
    case Likes => m.likes
    case Loves => m.loves
    case Views => m.views
  }

  /** `m` with counter `k` set to `v` and the other four untouched. */
  function With(m: Metrics, k: Kind, v: Value): (r: Metrics)
    ensures Field(r, k) == v
    ensures forall j: Kind :: j != k ==> Field(r, j) == Field(m, j)
  {
    match k
    case Comments => m.(comments := v)
    case Shares => m.(share := v)
    case Likes => m.(likes := v)
    case Loves => m.(loves := v)
    case Views => m.(views := v)
  }

  /** The counters after the readings `rs`, in order. */
  function MetricsAfter(rs: seq<Option<(Kind, string)>>): Metrics
  {
    if rs == [] then NoMetrics
    else
      var m := MetricsAfter(rs[..|rs| - 1]);
      match rs[|rs| - 1]
      case None => m
      case Some((k, v)) => With(m, k, Count(v))
  }

  /** The pieces the loop walks: none when there is no action bar or its label is empty. */
  function ItemsOf(ariaLabel: Option<string>): seq<string>
  {
    match ariaLabel
    case None => []
    case Some(s) => if s == "" then [] else Split(s, ",")
  }

  /** The loop of main.py:122-141 over the five counters. */
  method ReadMetrics(ariaLabel: Option<string>) returns (comments: Value, share: Value, likes: Value, loves: Value, views: Value)
    ensures Metrics(comments, share, likes, loves, views) == MetricsAfter(Readings(ItemsOf(ariaLabel)))
  {
    share, likes, loves, comments, views := Unset, Unset, Unset, Unset, Unset;
    if ariaLabel.None? || ariaLabel.value == "" {
      return;
    }
    var items := Split(ariaLabel.value, ",");
    ghost var rs := Readings(items);
    var i := 0;
    while i < |items|
      invariant 0 <= i <= |items|
      invariant Metrics(comments, share, likes, loves, views) == MetricsAfter(rs[..i])
    {
      assert rs[..i + 1][..i] == rs[..i];
      match Reading(items[i]) {
        case None =>
        case Some((kind, value)) =>
          match kind {
            case Comments => comments := Count(value);
            case Shares => share := Count(value);
            case Likes => likes := Count(value);
            case Loves => loves := Count(value);
            case Views => views := Count(value);
          }
      }
      i := i + 1;
    }
    assert rs[..i] == rs;
  }

  // ------------------------------------------------------------ properties

  /** The reading sets counter `k`. */
  predicate Sets(r: Option<(Kind, string)>, k: Kind)
  {
    r.Some? && r.value.0 == k
  }

  /** Reading `i` sets counter `k` to `v`, and no later reading sets `k`. */
  predicate LastSetsAt(rs: seq<Option<(Kind, string)>>, k: Kind, v: string, i: int)
  {
    0 <= i < |rs| && rs[i] == Some((k, v)) && forall j :: i < j < |rs| ==> !Sets(rs[j], k)
  }

  lemma LastReadingStep(rs: seq<Option<(Kind, string)>>, k: Kind)
    requires rs != []
    ensures Field(MetricsAfter(rs), k) ==
      if Sets(rs[|rs| - 1], k) then Count(rs[|rs| - 1].value.1) else Field(MetricsAfter(rs[..|rs| - 1]), k)
  {
  }

  /** Past a reading that does not set `k`, the last setter of `k` is the one before it. */
  lemma LastSetsAtSkip(rs: seq<Option<(Kind, string)>>, k: Kind, v: string, i: int)
    requires rs != [] && !Sets(rs[|rs| - 1], k)
    ensures LastSetsAt(rs, k, v, i) <==> LastSetsAt(rs[..|rs| - 1], k, v, i)
  {
    var n := |rs| - 1;
    if LastSetsAt(rs, k, v, i) {
      forall j | i < j < n ensures !Sets(rs[..n][j], k) {
        assert rs[..n][j] == rs[j];
      }
    }
    if LastSetsAt(rs[..n], k, v, i) {
      forall j | i < j < |rs| ensures !Sets(rs[j], k) {
        if j < n {
          assert rs[..n][j] == rs[j];
        }
      }
    }
  }

  /** After a reading that sets `k`, that reading is the last setter of `k`. */
  lemma LastSetsAtHit(rs: seq<Option<(Kind, string)>>, k: Kind, v: string, i: int)
    requires rs != [] && Sets(rs[|rs| - 1], k)
    ensures LastSetsAt(rs, k, v, i) <==> i == |rs| - 1 && rs[i].value.1 == v
  {
  }

  /**
   * Each counter ends as the digits of the LAST piece that sets it, and stays
   * the integer 0 exactly when no piece sets it.
   */
  lemma {:induction false} LastPieceWins(rs: seq<Option<(Kind, string)>>, k: Kind)
    ensures Field(MetricsAfter(rs), k) == Unset <==> forall i :: 0 <= i < |rs| ==> !Sets(rs[i], k)
    ensures forall v :: Field(MetricsAfter(rs), k) == Count(v) <==> exists i :: LastSetsAt(rs, k, v, i)
    decreases |rs|
  {
    if rs != [] {
      var n := |rs| - 1;
      var init := rs[..n];
      LastPieceWins(init, k);
      LastReadingStep(rs, k);
      assert forall i :: 0 <= i < n ==> init[i] == rs[i];
      forall v ensures Field(MetricsAfter(rs), k) == Count(v) <==> exists i :: LastSetsAt(rs, k, v, i) {
        if Sets(rs[n], k) {
          LastSetsAtHit(rs, k, v, n);
          if exists i :: LastSetsAt(rs, k, v, i) {
            var i :| LastSetsAt(rs, k, v, i);
            LastSetsAtHit(rs, k, v, i);
          }
        } else {
          if exists i :: LastSetsAt(rs, k, v, i) {
            var i :| LastSetsAt(rs, k, v, i);
            LastSetsAtSkip(rs, k, v, i);
          }
          if exists i :: LastSetsAt(init, k, v, i) {
            var i :| LastSetsAt(init, k, v, i);
            LastSetsAtSkip(rs, k, v, i);
          }
        }
      }
    }
  }

  // ------------------------------------------------------ the usual label

  /** One piece of an English label: the count, a space, and the counter's word. */
  function Piece(lead: string, n: nat, k: Kind): string
  {
    lead + DecimalString(n) + " " + English(k)
  }

  /** A character that is no digit, no space and not in `word` is not in the piece either. */
  lemma NotInPiece(lead: string, n: nat, k: Kind, c: char)
    requires lead == "" || lead == " "
    requires !IsDigit(c) && c != ' ' && c !in English(k)
    ensures c !in Piece(lead, n, k)
  {
  }

  /** A letter of the English word for `j` that the word for the later counter `k` lacks. */
  function Telltale(j: Kind, k: Kind): (c: char)
    requires Rank(j) < Rank(k)
    ensures c in English(j) && c !in English(k) && !IsDigit(c) && c != ' '
  {
    match j
    case Comments => if k == Shares then 'l' else if k == Loves then 'p' else 'r'
    case Shares => if k == Loves then 'p' else 'r'
    case Likes => 'l'
    case Loves => 'b'
  }

  /** A piece mentions no counter whose keyword is tried before its own. */
  lemma PieceSkipsEarlier(lead: string, n: nat, k: Kind, j: Kind)
    requires lead == "" || lead == " "
    requires Rank(j) < Rank(k)
    ensures !Mentions(Piece(lead, n, k), j)
  {
    var p := Piece(lead, n, k);
    var zh := Chinese(j)[0];
    NotInPiece(lead, n, k, zh);
    MissingChar(p, Chinese(j), zh);
    var en := Telltale(j, k);
    NotInPiece(lead, n, k, en);
    MissingChar(p, English(j), en);
  }

  lemma PieceMentionsOwn(lead: string, n: nat, k: Kind)
    ensures Mentions(Piece(lead, n, k), k)
  {
    var d := DecimalString(n);
    assert OccursAt(Piece(lead, n, k), English(k), |lead| + |d| + 1);
  }

  /** The keyword chain sends a piece to its own counter. */
  lemma PieceKind(lead: string, n: nat, k: Kind)
    requires lead == "" || lead == " "
    ensures KindOf(Piece(lead, n, k)) == Some(k)
  {
    PieceMentionsOwn(lead, n, k);
    match k {
      case Comments =>
      case Shares =>
        PieceSkipsEarlier(lead, n, k, Comments);
      case Likes =>
        PieceSkipsEarlier(lead, n, k, Comments);
        PieceSkipsEarlier(lead, n, k, Shares);
      case Loves =>
        PieceSkipsEarlier(lead, n, k, Comments);
        PieceSkipsEarlier(lead, n, k, Shares);
        PieceSkipsEarlier(lead, n, k, Likes);
      case Views =>
        PieceSkipsEarlier(lead, n, k, Comments);
        PieceSkipsEarlier(lead, n, k, Shares);
        PieceSkipsEarlier(lead, n, k, Likes);
        PieceSkipsEarlier(lead, n, k, Loves);
    }
  }

  /** A piece sets its own counter to the decimal digits of its count. */
  lemma PieceReading(lead: string, n: nat, k: Kind)
    requires lead == "" || lead == " "
    ensures Reading(Piece(lead, n, k)) == Some((k, DecimalString(n)))
  {
    var d := DecimalString(n);
    assert Piece(lead, n, k) == lead + d + (" " + English(k));
    FirstDigitsOf(lead, d, " " + English(k));
    PieceKind(lead, n, k);
  }

  /** The pieces of the usual English label, before they are joined with ','. */
  function UsualPieces(replies: nat, reposts: nat, likes: nat, bookmarks: nat, views: nat): seq<string>
  {
    [Piece("", replies, Comments), Piece(" ", reposts, Shares), Piece(" ", likes, Likes),
     Piece(" ", bookmarks, Loves), Piece(" ", views, Views)]
  }

  /** The usual English label sets all five counters to the numbers it shows. */
  lemma EnglishLabel(replies: nat, reposts: nat, likes: nat, bookmarks: nat, views: nat)
    ensures MetricsAfter(Readings(ItemsOf(Some(Join(UsualPieces(replies, reposts, likes, bookmarks, views), ","))))) ==
      Metrics(Count(DecimalString(replies)), Count(DecimalString(reposts)), Count(DecimalString(likes)),
              Count(DecimalString(bookmarks)), Count(DecimalString(views)))
  {
    UsualSplit(replies, reposts, likes, bookmarks, views);
    UsualReadings(replies, reposts, likes, bookmarks, views);
    FiveReadings(Readings(UsualPieces(replies, reposts, likes, bookmarks, views)),
                 DecimalString(replies), DecimalString(reposts), DecimalString(likes),
                 DecimalString(bookmarks), DecimalString(views));
  }

  lemma UsualSplit(replies: nat, reposts: nat, likes: nat, bookmarks: nat, views: nat)
    ensures ItemsOf(Some(Join(UsualPieces(replies, reposts, likes, bookmarks, views), ","))) ==
      UsualPieces(replies, reposts, likes, bookmarks, views)
  {
    var parts := UsualPieces(replies, reposts, likes, bookmarks, views);
    PieceNoComma("", replies, Comments);
    PieceNoComma(" ", reposts, Shares);
    PieceNoComma(" ", likes, Likes);
    PieceNoComma(" ", bookmarks, Loves);
    PieceNoComma(" ", views, Views);
    SplitJoin(parts, ",");
    assert Join(parts, ",") != "" by {
      assert Join(parts, ",") == parts[0] + "," + Join(parts[1..], ",");
    }
  }

  lemma UsualReadings(replies: nat, reposts: nat, likes: nat, bookmarks: nat, views: nat)
    ensures
      var rs := Readings(UsualPieces(replies, reposts, likes, bookmarks, views));
      |rs| == 5 && rs[0] == Some((Comments, DecimalString(replies))) && rs[1] == Some((Shares, DecimalString(reposts)))
      && rs[2] == Some((Likes, DecimalString(likes))) && rs[3] == Some((Loves, DecimalString(bookmarks)))
      && rs[4] == Some((Views, DecimalString(views)))
  {
    var parts := UsualPieces(replies, reposts, likes, bookmarks, views);
    var rs := Readings(parts);
    assert rs[0] == Some((Comments, DecimalString(replies))) by {
      PieceReading("", replies, Comments);
    }
    assert rs[1] == Some((Shares, DecimalString(reposts))) by {
      PieceReading(" ", reposts, Shares);
    }
    assert rs[2] == Some((Likes, DecimalString(likes))) by {
      PieceReading(" ", likes, Likes);
    }
    assert rs[3] == Some((Loves, DecimalString(bookmarks))) by {
      PieceReading(" ", bookmarks, Loves);
    }
    assert rs[4] == Some((Views, DecimalString(views))) by {
      PieceReading(" ", views, Views);
    }
  }

  lemma PieceNoComma(lead: string, n: nat, k: Kind)
    requires lead == "" || lead == " "
    ensures !Contains(Piece(lead, n, k), ",")
  {
    NotInPiece(lead, n, k, ',');
    MissingChar(Piece(lead, n, k), ",", ',');
  }

  /** One reading for each counter, in the usual order, sets each counter. */
  lemma FiveReadings(rs: seq<Option<(Kind, string)>>, a: string, b: string, c: string, d: string, e: string)
    requires |rs| == 5 && rs[0] == Some((Comments, a)) && rs[1] == Some((Shares, b)) && rs[2] == Some((Likes, c))
    requires rs[3] == Some((Loves, d)) && rs[4] == Some((Views, e))
    ensures MetricsAfter(rs) == Metrics(Count(a), Count(b), Count(c), Count(d), Count(e))
  {
    assert rs[..1][..0] == [];
    assert MetricsAfter(rs[..1]) == Metrics(Count(a), Unset, Unset, Unset, Unset);
    assert MetricsAfter(rs[..2]) == Metrics(Count(a), Count(b), Unset, Unset, Unset) by {
      assert rs[..2][..1] == rs[..1];
    }
    assert MetricsAfter(rs[..3]) == Metrics(Count(a), Count(b), Count(c), Unset, Unset) by {
      assert rs[..3][..2] == rs[..2];
    }
    assert MetricsAfter(rs[..4]) == Metrics(Count(a), Count(b), Count(c), Count(d), Unset) by {
      assert rs[..4][..3] == rs[..3];
    }
    assert rs[..5] == rs;
  }
}
