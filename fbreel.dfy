/**
 * The counters of a Facebook reel page (main.py:444-461). Up to three
 * action-bar blocks are visited in page order; a block holding a child
 * labelled 赞 ("like"), 评论 ("comment") or 分享 ("share") sets that counter to
 * the block's whole text, or to the integer 0 when that text is blank.
 *
 * The share branch (main.py:458-460) tests `like_count.strip()` where the
 * other two branches test the value just read. `ReelCountsAsWritten` keeps
 * that test: it raises AttributeError when `like_count` is still the integer
 * 0, and it never resets a blank share. `ReelCounts` tests the share text, as
 * the two sibling branches do.
 */
module FbReel {
  import opened Results
  import opened Text
  import opened Counts

  /** One visited block: its text and which labelled children it holds. */
  datatype Block = Block(text: string, like: bool, comment: bool, share: bool)

  datatype Counters = Counters(like: RawCount, comments: RawCount, share: RawCount)

  const Start := Counters(Int(0), Int(0), Int(0))

  /**
   * `x = text; if not x.strip(): x = 0`. The stripped text is empty exactly
   * when the text is all whitespace (`Text.StripEmptyIffBlank`), which is the
   * test written here.
   */
  function Blanked(text: string): (r: RawCount)
    ensures r == Int(0) <==> Strip(text) == []
    ensures r != Int(0) ==> r == Str(text)
  {
    StripEmptyIffBlank(text);
    if AllSpace(text) then Int(0) else Str(text)
  }

  /** The like and comment branches, shared by both versions. */
  function LikeAndComment(c: Counters, b: Block): Counters
  {
    var c1 := if b.like then c.(like := Blanked(b.text)) else c;
    if b.comment then c1.(comments := Blanked(b.text)) else c1
  }

  // ------------------------------------------------------------ as written

  /** One block as main.py:447-460 handles it, with the share branch testing `like_count`. */
  function StepAsWritten(c: Counters, b: Block): Result<Counters>
  {
    var c2 := LikeAndComment(c, b);
    if !b.share then Ok(c2)
    else
      match c2.like
      case Str(t) => Ok(c2.(share := if AllSpace(t) then Int(0) else Str(b.text)))
      case _ => Fail("'int' object has no attribute 'strip'")
  }

  function CountsAsWritten(blocks: seq<Block>): Result<Counters>
  {
    if blocks == [] then Ok(Start)
    else
      match CountsAsWritten(blocks[..|blocks| - 1])
      case Fail(m) => Fail(m)
      case Ok(c) => StepAsWritten(c, blocks[|blocks| - 1])
  }

  lemma {:induction false} AsWrittenFailSticks(blocks: seq<Block>, n: nat)
    requires n <= |blocks| && CountsAsWritten(blocks[..n]).Fail?
    ensures CountsAsWritten(blocks) == CountsAsWritten(blocks[..n])
    decreases |blocks| - n
  {
    if n < |blocks| {
      assert blocks[..n + 1][..n] == blocks[..n];
      AsWrittenFailSticks(blocks, n + 1);
    } else {
      assert blocks[..n] == blocks;
    }
  }

  lemma AsWrittenPrefix(blocks: seq<Block>, i: nat)
    requires i < |blocks|
    ensures CountsAsWritten(blocks[..i + 1]) ==
      match CountsAsWritten(blocks[..i]) case Fail(m) => Fail(m) case Ok(c) => StepAsWritten(c, blocks[i])
  {
    assert blocks[..i + 1][..i] == blocks[..i];
  }

  /** The loop of main.py:444-460 as written. */
  method ReelCountsAsWritten(blocks: seq<Block>) returns (r: Result<Counters>)
    ensures r == CountsAsWritten(blocks)
  {
    var likeCount, comments, share := Int(0), Int(0), Int(0);
    var i := 0;
    while i < |blocks|
      invariant 0 <= i <= |blocks|
      invariant CountsAsWritten(blocks[..i]) == Ok(Counters(likeCount, comments, share))
    {
      var b := blocks[i];
      AsWrittenPrefix(blocks, i);
      ghost var before := Counters(likeCount, comments, share);
      if b.like {
        likeCount := Blanked(b.text);
      }
      if b.comment {
        comments := Blanked(b.text);
      }
      if b.share {
        if !likeCount.Str? {
          AsWrittenFailSticks(blocks, i + 1);
          return Fail("'int' object has no attribute 'strip'");
        }
        share := if AllSpace(likeCount.text) then Int(0) else Str(b.text);
      }
      i := i + 1;
    }
    assert blocks[..i] == blocks;
    return Ok(Counters(likeCount, comments, share));
  }

  // -------------------------------------------------------------- intended

  /** One block with the share branch testing the share text. */
  function Step(c: Counters, b: Block): Counters
  {
    var c2 := LikeAndComment(c, b);
    if b.share then c2.(share := Blanked(b.text)) else c2
  }

  function ReelCountsOf(blocks: seq<Block>): Counters
  {
    if blocks == [] then Start else Step(ReelCountsOf(blocks[..|blocks| - 1]), blocks[|blocks| - 1])
  }

  /** The loop with the share branch corrected. */
  method ReelCounts(blocks: seq<Block>) returns (likeCount: RawCount, comments: RawCount, share: RawCount)
    ensures Counters(likeCount, comments, share) == ReelCountsOf(blocks)
  {
    likeCount, comments, share := Int(0), Int(0), Int(0);
    var i := 0;
    while i < |blocks|
      invariant 0 <= i <= |blocks|
      invariant ReelCountsOf(blocks[..i]) == Counters(likeCount, comments, share)
    {
      var b := blocks[i];
      assert blocks[..i + 1][..i] == blocks[..i];
      if b.like {
        likeCount := Str(b.text);
        if AllSpace(b.text) {
          likeCount := Int(0);
        }
      }
      if b.comment {
        comments := Str(b.text);
        if AllSpace(b.text) {
          comments := Int(0);
        }
      }
      if b.share {
        share := Str(b.text);
        if AllSpace(b.text) {
          share := Int(0);
        }
      }
      i := i + 1;
    }
    assert blocks[..i] == blocks;
  }

  // ------------------------------------------------------------ properties

  datatype Label = Like | Comment | Share

  predicate Has(b: Block, l: Label)
  {
    match l
    case Like => b.like
    case Comment => b.comment
    case Share => b.share
  }

  function Field(c: Counters, l: Label): RawCount
  {
    match l
    case Like => c.like
    case Comment => c.comments
    case Share => c.share
  }

  /** Block `i` carries label `l` and no later block does. */
  predicate LastWithAt(blocks: seq<Block>, l: Label, i: int)
  {
    0 <= i < |blocks| && Has(blocks[i], l) && forall j :: i < j < |blocks| ==> !Has(blocks[j], l)
  }

  lemma StepField(c: Counters, b: Block, l: Label)
    ensures Field(Step(c, b), l) == if Has(b, l) then Blanked(b.text) else Field(c, l)
  {
  }

  /**
   * Each counter is the blank-checked text of the last block carrying its
   * label, and the integer 0 when no block carries it.
   */
  lemma {:induction false} LastBlockWins(blocks: seq<Block>, l: Label)
    ensures (forall i :: 0 <= i < |blocks| ==> !Has(blocks[i], l)) ==> Field(ReelCountsOf(blocks), l) == Int(0)
    ensures forall i :: LastWithAt(blocks, l, i) ==> Field(ReelCountsOf(blocks), l) == Blanked(blocks[i].text)
    decreases |blocks|
  {
    if blocks != [] {
      var n := |blocks| - 1;
      var init := blocks[..n];
      LastBlockWins(init, l);
      assert ReelCountsOf(blocks) == Step(ReelCountsOf(init), blocks[n]);
      StepField(ReelCountsOf(init), blocks[n], l);
      assert forall i :: 0 <= i < n ==> init[i] == blocks[i];
      forall i | LastWithAt(blocks, l, i) ensures Field(ReelCountsOf(blocks), l) == Blanked(blocks[i].text) {
        if i < n {
          assert !Has(blocks[n], l);
          assert LastWithAt(init, l, i);
          assert Field(ReelCountsOf(init), l) == Blanked(init[i].text);
        } else {
          assert i == n && Has(blocks[n], l);
        }
      }
    }
  }

  /** A counter is never left holding blank text. */
  lemma {:induction false} NoBlankCounter(blocks: seq<Block>, l: Label)
    ensures Clean(Field(ReelCountsOf(blocks), l))
    decreases |blocks|
  {
    if blocks != [] {
      NoBlankCounter(blocks[..|blocks| - 1], l);
      StepField(ReelCountsOf(blocks[..|blocks| - 1]), blocks[|blocks| - 1], l);
    }
  }

  /** The integer 0 or non-blank text: all a blank-checked counter can hold. */
  predicate Clean(x: RawCount)
  {
    x == Int(0) || (x.Str? && !AllSpace(x.text))
  }

  /**
   * Where the as-written loop does not raise, it agrees with the corrected
   * one on like and comments, and on share up to a blank text that
   * `parse_number` reads as 0 anyway.
   */
  lemma {:induction false} AsWrittenAgreesUnlessRaising(blocks: seq<Block>)
    requires CountsAsWritten(blocks).Ok?
    ensures Clean(CountsAsWritten(blocks).value.like)
    ensures CountsAsWritten(blocks).value.like == ReelCountsOf(blocks).like
    ensures CountsAsWritten(blocks).value.comments == ReelCountsOf(blocks).comments
    ensures ParseNumber(CountsAsWritten(blocks).value.share) == ParseNumber(ReelCountsOf(blocks).share)
    decreases |blocks|
  {
    if blocks != [] {
      var init := blocks[..|blocks| - 1];
      var b := blocks[|blocks| - 1];
      AsWrittenAgreesUnlessRaising(init);
      var c := LikeAndComment(CountsAsWritten(init).value, b);
      assert Clean(c.like);
      if b.share && AllSpace(b.text) {
        StripEmptyIffBlank(b.text);
        assert Unlabelled(b.text) == [];
        BlankIsZero(b.text);
      }
    }
  }

  /** While every like block so far is blank, the as-written `like_count` is still the integer 0. */
  lemma {:induction false} NoLikeYet(blocks: seq<Block>, n: nat)
    requires n <= |blocks|
    requires forall j :: 0 <= j < n && blocks[j].like ==> AllSpace(blocks[j].text)
    ensures CountsAsWritten(blocks[..n]).Ok? ==> CountsAsWritten(blocks[..n]).value.like == Int(0)
    decreases n
  {
    if n > 0 {
      NoLikeYet(blocks, n - 1);
      AsWrittenPrefix(blocks, n - 1);
    } else {
      assert blocks[..0] == [];
    }
  }

  /**
   * A share block with no non-blank like block at or before it makes the
   * as-written loop raise, whatever else the page holds.
   */
  lemma ShareBeforeLikeRaises(blocks: seq<Block>, i: nat)
    requires i < |blocks| && blocks[i].share
    requires forall j :: 0 <= j <= i && blocks[j].like ==> AllSpace(blocks[j].text)
    ensures CountsAsWritten(blocks).Fail?
  {
    NoLikeYet(blocks, i);
    AsWrittenPrefix(blocks, i);
    AsWrittenFailSticks(blocks, i + 1);
  }

  /** Block `i` is a share block reached while the like counter is the integer 0. */
  predicate ShareWithoutLikeAt(blocks: seq<Block>, i: int)
  {
    0 <= i < |blocks| && blocks[i].share && ReelCountsOf(blocks[..i + 1]).like == Int(0)
  }

  /** One as-written step raises exactly on a share block whose like counter, after the like branch, is not text. */
  lemma StepAsWrittenFails(c: Counters, b: Block)
    ensures StepAsWritten(c, b).Fail? <==> b.share && !LikeAndComment(c, b).like.Str?
  {
  }

  /** A prefix of at least `i + 1` blocks judges block `i` as the whole page does. */
  lemma ShareWithoutLikePrefix(blocks: seq<Block>, n: nat, i: nat)
    requires i < n <= |blocks|
    ensures ShareWithoutLikeAt(blocks[..n], i) <==> ShareWithoutLikeAt(blocks, i)
  {
    assert blocks[..n][..i + 1] == blocks[..i + 1];
  }

  /** From a prefix that did not raise, the last block raises exactly when it is such a share block. */
  lemma RaisesAtLast(blocks: seq<Block>)
    requires blocks != [] && CountsAsWritten(blocks[..|blocks| - 1]).Ok?
    ensures CountsAsWritten(blocks).Fail? <==> ShareWithoutLikeAt(blocks, |blocks| - 1)
  {
    var n := |blocks| - 1;
    var init, b := blocks[..n], blocks[n];
    var c := CountsAsWritten(init).value;
    assert CountsAsWritten(blocks) == StepAsWritten(c, b);
    StepAsWrittenFails(c, b);
    AsWrittenAgreesUnlessRaising(init);
    assert blocks[..n + 1] == blocks;
    assert ReelCountsOf(blocks).like == LikeAndComment(c, b).like by {
      assert ReelCountsOf(blocks) == Step(ReelCountsOf(init), b);
    }
    NoBlankCounter(blocks, Like);
    assert Clean(ReelCountsOf(blocks).like);
  }

  /**
   * The loop as written raises exactly when some share block is reached while
   * `like_count` is the integer 0: no like block before it, or the last one
   * before it blank. The corrected loop's like counter is that value
   * (`LastBlockWins`), and the two loops agree on it until the raise.
   */
  lemma {:induction false} RaisesIffShareWithoutLike(blocks: seq<Block>)
    ensures CountsAsWritten(blocks).Fail? <==> exists i :: ShareWithoutLikeAt(blocks, i)
    decreases |blocks|
  {
    if blocks == [] {
      return;
    }
    var n := |blocks| - 1;
    var init := blocks[..n];
    RaisesIffShareWithoutLike(init);
    if CountsAsWritten(init).Fail? {
      var i :| ShareWithoutLikeAt(init, i);
      ShareWithoutLikePrefix(blocks, n, i);
      AsWrittenFailSticks(blocks, n);
    } else {
      forall i | 0 <= i < n ensures !ShareWithoutLikeAt(blocks, i) {
        ShareWithoutLikePrefix(blocks, n, i);
      }
      RaisesAtLast(blocks);
    }
  }

  /** After a non-blank like block, a blank share text is kept as written, where the corrected loop gives 0. */
  lemma BlankShareKept()
    ensures CountsAsWritten([Block("5", true, false, false), Block(" ", false, false, true)])
         == Ok(Counters(Str("5"), Int(0), Str(" ")))
    ensures ReelCountsOf([Block("5", true, false, false), Block(" ", false, false, true)])
         == Counters(Str("5"), Int(0), Int(0))
  {
    var like, share := Block("5", true, false, false), Block(" ", false, false, true);
    var blocks := [like, share];
    assert blocks[..1] == [like] && [like][..0] == [];
    assert !AllSpace("5") by {
      assert "5"[0] == '5' && !IsSpace('5');
    }
    assert AllSpace(" ") by {
      assert forall i :: 0 <= i < |" "| ==> " "[i] == ' ';
    }
    var c := Counters(Str("5"), Int(0), Int(0));
    assert CountsAsWritten([like]) == Ok(c) by {
      assert StepAsWritten(Start, like) == Ok(c);
    }
    assert StepAsWritten(c, share) == Ok(Counters(Str("5"), Int(0), Str(" ")));
    assert ReelCountsOf([like]) == c by {
      assert Step(Start, like) == c;
    }
    assert Step(c, share) == c;
  }
}
