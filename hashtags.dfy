/**
 * Hashtags collected from the `href` of every tag link on a post page. Each
 * platform cuts the tag name out of the link in its own way:
 *   X (main.py:95-101): the text after "/hashtag/" up to any '?', into a set;
 *   Instagram (main.py:641-646): the text after "/explore/tags/" with slashes
 *     stripped, into a set, and "#None" for a link without an `href`;
 *   TikTok (main.py:194-199): the text after "/tag/", into a list that keeps
 *     order and duplicates.
 * An `href` is `None` when the attribute is absent.
 */
module Hashtags {
  import opened Results
  import opened Text

  datatype TagStyle = XStyle | InstagramStyle | TikTokStyle

  /** What one link contributes: nothing, a tag, or the exception it raises. */
  datatype Step = Skip | Add(tag: string) | Crash(message: string)

  /** X: "#" and what follows "/hashtag/" up to the first '?'; an empty or absent `href` is skipped. */
  function XStep(href: Option<string>): (r: Step)
    ensures r.Add? ==> |r.tag| >= 1 && r.tag[0] == '#' && !Contains(r.tag[1..], "?")
    ensures r.Crash? <==> href.Some? && href.value != [] && !Contains(href.value, "/hashtag/")
  {
    match href
    case None => Skip
    case Some(h) =>
      if h == [] then Skip
      else
        match SplitSecond(h, "/hashtag/")
        case None => Crash("list index out of range")
        case Some(t) =>
          var name := TrimAt(t, "?");
          assert ("#" + name)[1..] == name;
          Add("#" + name)
  }

  /**
   * Instagram: "#" and what follows "/explore/tags/" with '/' stripped from
   * both ends; without an `href` the tag name is None, printed as "#None".
   */
  function InstagramStep(href: Option<string>): (r: Step)
    ensures r.Skip? == false
    ensures r.Add? ==> |r.tag| >= 1 && r.tag[0] == '#'
    ensures r.Crash? <==> href.Some? && href.value != [] && !Contains(href.value, "/explore/tags/")
  {
    match href
    case None => Add("#None")
    case Some(h) =>
      if h == [] then Add("#None")
      else
        match SplitSecond(h, "/explore/tags/")
        case None => Crash("list index out of range")
        case Some(t) => Add("#" + StripChar(t, '/'))
  }

  /** TikTok: "#" and what follows "/tag/"; a link without "/tag/" is skipped, an absent `href` raises TypeError. */
  function TikTokStep(href: Option<string>): (r: Step)
    ensures r.Add? ==> |r.tag| >= 1 && r.tag[0] == '#'
    ensures r.Crash? <==> href.None?
    ensures r.Skip? <==> href.Some? && !Contains(href.value, "/tag/")
  {
    match href
    case None => Crash("argument of type 'NoneType' is not iterable")
    case Some(h) =>
      match SplitSecond(h, "/tag/")
      case None => Skip
      case Some(t) => Add("#" + t)
  }

  function StepOf(style: TagStyle, href: Option<string>): Step
  {
    match style
    case XStyle => XStep(href)
    case InstagramStyle => InstagramStep(href)
    case TikTokStyle => TikTokStep(href)
  }

  /** The step of every link, in page order. */
  function Steps(style: TagStyle, hrefs: seq<Option<string>>): (r: seq<Step>)
    ensures |r| == |hrefs|
    ensures forall i :: 0 <= i < |hrefs| ==> r[i] == StepOf(style, hrefs[i])
  {
    seq(|hrefs|, i requires 0 <= i < |hrefs| => StepOf(style, hrefs[i]))
  }

  // -------------------------------------------------------- specifications

  /** The set the loop has built after the steps `steps`, or the first exception. */
  function SetOf(steps: seq<Step>): Result<set<string>>
  {
    if steps == [] then Ok({})
    else
      match SetOf(steps[..|steps| - 1])
      case Fail(m) => Fail(m)
      case Ok(tags) =>
        match steps[|steps| - 1]
        case Skip => Ok(tags)
        case Add(t) => Ok(tags + {t})
        case Crash(m) => Fail(m)
  }

  /** The list the loop has built after the steps `steps`, or the first exception. */
  function ListOf(steps: seq<Step>): Result<seq<string>>
  {
    if steps == [] then Ok([])
    else
      match ListOf(steps[..|steps| - 1])
      case Fail(m) => Fail(m)
      case Ok(tags) =>
        match steps[|steps| - 1]
        case Skip => Ok(tags)
        case Add(t) => Ok(tags + [t])
        case Crash(m) => Fail(m)
  }

  // ---------------------------------------------------------------- loops

  /** An exception part of the way through stays the outcome however many links follow. */
  lemma {:induction false} SetOfFailSticks(steps: seq<Step>, n: nat)
    requires n <= |steps| && SetOf(steps[..n]).Fail?
    ensures SetOf(steps) == SetOf(steps[..n])
    decreases |steps| - n
  {
    if n < |steps| {
      assert steps[..n + 1][..n] == steps[..n];
      SetOfFailSticks(steps, n + 1);
    } else {
      assert steps[..n] == steps;
    }
  }

  lemma {:induction false} ListOfFailSticks(steps: seq<Step>, n: nat)
    requires n <= |steps| && ListOf(steps[..n]).Fail?
    ensures ListOf(steps) == ListOf(steps[..n])
    decreases |steps| - n
  {
    if n < |steps| {
      assert steps[..n + 1][..n] == steps[..n];
      ListOfFailSticks(steps, n + 1);
    } else {
      assert steps[..n] == steps;
    }
  }

  /** The X and Instagram loops: every link's tag goes into a set (main.py:95-101, 641-646). */
  method CollectSet(style: TagStyle, hrefs: seq<Option<string>>) returns (r: Result<set<string>>)
    ensures r == SetOf(Steps(style, hrefs))
  {
    ghost var steps := Steps(style, hrefs);
    var tags: set<string> := {};
    var i := 0;
    while i < |hrefs|
      invariant 0 <= i <= |hrefs|
      invariant SetOf(steps[..i]) == Ok(tags)
    {
      assert steps[..i + 1][..i] == steps[..i];
      match StepOf(style, hrefs[i]) {
        case Skip =>
        case Add(t) =>
          tags := tags + {t};
        case Crash(m) =>
          SetOfFailSticks(steps, i + 1);
          return Fail(m);
      }
      i := i + 1;
    }
    assert steps[..i] == steps;
    return Ok(tags);
  }

  /** The TikTok loop: every link's tag is appended to a list (main.py:194-199). */
  method CollectList(style: TagStyle, hrefs: seq<Option<string>>) returns (r: Result<seq<string>>)
    ensures r == ListOf(Steps(style, hrefs))
  {
    ghost var steps := Steps(style, hrefs);
    var tags: seq<string> := [];
    var i := 0;
    while i < |hrefs|
      invariant 0 <= i <= |hrefs|
      invariant ListOf(steps[..i]) == Ok(tags)
    {
      assert steps[..i + 1][..i] == steps[..i];
      match StepOf(style, hrefs[i]) {
        case Skip =>
        case Add(t) =>
          tags := tags + [t];
        case Crash(m) =>
          ListOfFailSticks(steps, i + 1);
          return Fail(m);
      }
      i := i + 1;
    }
    assert steps[..i] == steps;
    return Ok(tags);
  }

  // ------------------------------------------------------------ properties

  /** Some step raises. */
  predicate SomeCrash(steps: seq<Step>)
  {
    exists i :: 0 <= i < |steps| && steps[i].Crash?
  }

  /** Some step yields the tag `t`. */
  predicate Yields(steps: seq<Step>, t: string)
  {
    exists i :: 0 <= i < |steps| && steps[i] == Add(t)
  }

  /**
   * The set loop fails exactly when some link raises, and otherwise holds
   * exactly the tags the links yield: each once, in no particular order.
   */
  lemma {:induction false} SetOfContents(steps: seq<Step>)
    ensures SetOf(steps).Fail? <==> SomeCrash(steps)
    ensures SetOf(steps).Ok? ==> forall t :: t in SetOf(steps).value <==> Yields(steps, t)
    decreases |steps|
  {
    if steps != [] {
      var init := steps[..|steps| - 1];
      var last := steps[|steps| - 1];
      SetOfContents(init);
      if SomeCrash(init) {
        var i :| 0 <= i < |init| && init[i].Crash?;
        assert steps[i].Crash?;
      }
      if SomeCrash(steps) && !last.Crash? {
        var i :| 0 <= i < |steps| && steps[i].Crash?;
        assert init[i].Crash?;
      }
      if SetOf(steps).Ok? {
        forall t ensures t in SetOf(steps).value <==> Yields(steps, t) {
          if Yields(steps, t) && last != Add(t) {
            var i :| 0 <= i < |steps| && steps[i] == Add(t);
            assert init[i] == Add(t);
          }
          if Yields(init, t) {
            var i :| 0 <= i < |init| && init[i] == Add(t);
            assert steps[i] == Add(t);
          }
        }
      }
    }
  }

  /** The tags of `steps` in order: the reference for `ListOf`. */
  function TagsIn(steps: seq<Step>): seq<string>
  {
    if steps == [] then []
    else (if steps[0].Add? then [steps[0].tag] else []) + TagsIn(steps[1..])
  }

  lemma {:induction false} TagsInConcat(a: seq<Step>, b: seq<Step>)
    ensures TagsIn(a + b) == TagsIn(a) + TagsIn(b)
    decreases |a|
  {
    if a != [] {
      assert (a + b)[0] == a[0] && (a + b)[1..] == a[1..] + b;
      TagsInConcat(a[1..], b);
    } else {
      assert a + b == b;
    }
  }

  /**
   * The list loop fails exactly when some link raises, and otherwise holds
   * the tags of the links in their order, duplicates included.
   */
  lemma {:induction false} ListOfContents(steps: seq<Step>)
    ensures ListOf(steps).Fail? <==> SomeCrash(steps)
    ensures ListOf(steps).Ok? ==> ListOf(steps).value == TagsIn(steps)
    decreases |steps|
  {
    if steps != [] {
      var init := steps[..|steps| - 1];
      var last := steps[|steps| - 1];
      ListOfContents(init);
      assert steps == init + [last];
      TagsInConcat(init, [last]);
      assert [last][1..] == [];
      if SomeCrash(init) {
        var i :| 0 <= i < |init| && init[i].Crash?;
        assert steps[i].Crash?;
      }
      if SomeCrash(steps) && !last.Crash? {
        var i :| 0 <= i < |steps| && steps[i].Crash?;
        assert init[i].Crash?;
      }
    }
  }

  /** Two links to the same tag: the set holds it once, the list twice. */
  lemma DuplicatesCollapseOnlyInSets(t: string)
    ensures SetOf([Add(t), Add(t)]) == Ok({t})
    ensures ListOf([Add(t), Add(t)]) == Ok([t, t])
  {
    var one := [Add(t)];
    var steps := one + one;
    assert one[..0] == [] && steps[..1] == one;
    assert {} + {t} == {t} && {t} + {t} == {t};
    assert [] + [t] == [t];
    assert SetOf(one) == Ok({t}) && ListOf(one) == Ok([t]);
    assert steps[|steps| - 1] == Add(t);
    assert SetOf(steps) == Ok({t});
    assert [t] + [t] == [t, t];
    assert ListOf(steps) == Ok([t, t]);
    assert steps == [Add(t), Add(t)];
  }

  // -------------------------------------------------------- per platform

  /** X: "/hashtag/<name>?<query>" gives "#<name>". */
  lemma XHashtagLink(pre: string, name: string, query: string)
    requires NoEarlySep(pre, "/hashtag/") && !Contains(name, "/hashtag/") && !Contains(query, "/hashtag/")
    requires NoEarlySep(name, "?")
    ensures XStep(Some(pre + "/hashtag/" + (name + "?" + query))) == Add("#" + name)
  {
    assert !Contains(name + "?" + query, "/hashtag/") by {
      NoTagAcross(name, query);
    }
    SplitSecondIsRest(pre, "/hashtag/", name + "?" + query);
    TrimAtSeparator(name, "?", query);
  }

  /** Text of the form `name + "?" + query` holds "/hashtag/" only where one of its parts does. */
  lemma NoTagAcross(name: string, query: string)
    requires !Contains(name, "/hashtag/") && !Contains(query, "/hashtag/")
    ensures !Contains(name + "?" + query, "/hashtag/")
  {
    var s := name + "?" + query;
    var pat := "/hashtag/";
    forall j: nat | j <= |s| ensures !OccursAt(s, pat, j) {
      if j + |pat| <= |s| {
        if j + |pat| <= |name| {
          assert s[j..j + |pat|] == name[j..j + |pat|];
          assert !OccursAt(name, pat, j);
        } else if j > |name| {
          assert s[j..j + |pat|] == query[j - |name| - 1..j - |name| - 1 + |pat|];
          assert !OccursAt(query, pat, j - |name| - 1);
        } else {
          assert s[j..j + |pat|][|name| - j] == '?';
          assert '?' !in pat;
        }
      }
    }
  }

  /** Instagram: an absent `href` still adds a tag, "#None". */
  lemma InstagramMissingHref()
    ensures InstagramStep(None) == Add("#None")
  {
  }

  /** Instagram: "/explore/tags/<name>/" gives "#<name>". */
  lemma InstagramTagLink(pre: string, name: string)
    requires NoEarlySep(pre, "/explore/tags/") && name != [] && '/' !in name
    ensures InstagramStep(Some(pre + "/explore/tags/" + (name + "/"))) == Add("#" + name)
  {
    var rest := name + "/";
    OneSlash(name, "/explore/tags/");
    SplitSecondIsRest(pre, "/explore/tags/", rest);
    assert StripCharLeft(rest, '/') == rest;
    assert rest[..|rest| - 1] == name;
  }

  /** A text with a single '/', at its end, holds no pattern with two slashes. */
  lemma OneSlash(name: string, pat: string)
    requires '/' !in name && |pat| >= 2 && pat[0] == '/' && pat[|pat| - 1] == '/'
    ensures !Contains(name + "/", pat)
  {
    var s := name + "/";
    forall j: nat | j <= |s| ensures !OccursAt(s, pat, j) {
      if j + |pat| <= |s| && j < |name| {
        assert s[j] == name[j] && name[j] in name;
        assert s[j..j + |pat|][0] == s[j];
      }
    }
  }

  /** TikTok: "/tag/<name>" gives "#<name>". */
  lemma TikTokTagLink(pre: string, name: string)
    requires NoEarlySep(pre, "/tag/") && !Contains(name, "/tag/")
    ensures TikTokStep(Some(pre + "/tag/" + name)) == Add("#" + name)
  {
    SplitSecondIsRest(pre, "/tag/", name);
  }
}
