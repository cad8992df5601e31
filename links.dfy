/**
 * Identifiers cut out of page URLs and link targets: the Instagram post id
 * (main.py:47-52), the TikTok video id (main.py:188-191), the X post id and
 * profile (main.py:87-92) and the Facebook link trimming (main.py:330-345,
 * 386-387, 407-411).
 */
module Links {
  import opened Results
  import opened Text

  // -------------------------------------------------------- re.search

  /** The two search patterns, each with one group. */
  datatype Pattern =
    | PostPath   // r"/(?:p|reel)/([^/]+)/"
    | VideoPath  // r"/video/(\d+)"

  /** The longest prefix of `s` without a slash (`[^/]+` taken greedily). */
  function NonSlashRun(s: string): (r: string)
    ensures |r| <= |s| && r == s[..|r|] && '/' !in r
    ensures |r| < |s| ==> s[|r|] == '/'
  {
    if s != [] && s[0] != '/' then [s[0]] + NonSlashRun(s[1..]) else ""
  }

  /**
   * `([^/]+)/` at position `j`. Giving back characters of the greedy run
   * cannot help, since the character after a shorter run is not a slash.
   */
  function SegmentThenSlash(url: string, j: nat): (r: Option<string>)
    requires j <= |url|
    ensures r.Some? ==> r.value != [] && '/' !in r.value
    ensures r.Some? ==> j + |r.value| < |url| && url[j..j + |r.value|] == r.value && url[j + |r.value|] == '/'
  {
    var seg := NonSlashRun(url[j..]);
    if seg != [] && j + |seg| < |url| then Some(seg) else None
  }

  /**
   * The group of pattern `p` when the match starts at position `i`. For
   * `PostPath`, "/p/" and "/reel/" cannot both start at `i`, so trying the
   * second alternative after the first has failed changes nothing.
   */
  function GroupAt(p: Pattern, url: string, i: nat): (r: Option<string>)
    requires i <= |url|
    ensures r.Some? ==> r.value != [] && i < |url| && url[i] == '/'
    ensures r.Some? && p == PostPath ==> '/' !in r.value
    ensures r.Some? && p == VideoPath ==> AllDigits(r.value)
  {
    match p
    case PostPath =>
      if OccursAt(url, "/p/", i) then SegmentThenSlash(url, i + 3)
      else if OccursAt(url, "/reel/", i) then SegmentThenSlash(url, i + 6)
      else None
    case VideoPath =>
      if OccursAt(url, "/video/", i) && DigitRun(url[i + 7..]) != [] then Some(DigitRun(url[i + 7..]))
      else None
  }

  /** `re.search(p, url[i:])` for these patterns: the group of the leftmost match. */
  function Search(p: Pattern, url: string, i: nat): (r: Option<string>)
    requires i <= |url|
    ensures r.Some? ==> r.value != []
    ensures r.Some? && p == PostPath ==> '/' !in r.value
    ensures r.Some? && p == VideoPath ==> AllDigits(r.value)
    decreases |url| - i
  {
    if i == |url| then None
    else if GroupAt(p, url, i).Some? then GroupAt(p, url, i)
    else Search(p, url, i + 1)
  }

  /** A match starts at `k`: the group there exists. */
  predicate MatchesAt(p: Pattern, url: string, k: nat)
    requires k <= |url|
  {
    GroupAt(p, url, k).Some?
  }

  /**
   * `Search` is the leftmost match: it finds something exactly when some
   * position from `i` on starts a match, and then it is the group of the
   * first such position.
   */
  lemma {:induction false} SearchIsLeftmost(p: Pattern, url: string, i: nat)
    requires i <= |url|
    ensures Search(p, url, i).Some? <==> exists k :: i <= k < |url| && MatchesAt(p, url, k)
    ensures Search(p, url, i).Some? ==>
      exists k :: i <= k < |url| && GroupAt(p, url, k) == Search(p, url, i)
                  && forall k' :: i <= k' < k ==> !MatchesAt(p, url, k')
    decreases |url| - i
  {
    if i < |url| {
      if MatchesAt(p, url, i) {
        assert GroupAt(p, url, i) == Search(p, url, i);
      } else {
        assert Search(p, url, i) == Search(p, url, i + 1);
        SearchIsLeftmost(p, url, i + 1);
        if Search(p, url, i).Some? {
          var k :| i + 1 <= k < |url| && GroupAt(p, url, k) == Search(p, url, i + 1)
                   && forall k' :: i + 1 <= k' < k ==> !MatchesAt(p, url, k');
          assert forall k' :: i <= k' < k ==> !MatchesAt(p, url, k');
        }
      }
    }
  }

  /** A search from a position where a match starts finds that match. */
  lemma SearchHit(p: Pattern, url: string, i: nat)
    requires i < |url| && MatchesAt(p, url, i)
    ensures Search(p, url, i) == GroupAt(p, url, i)
  {
  }

  /** Positions that hold no slash cannot start a match and are passed over. */
  lemma {:induction false} SkipNoSlash(p: Pattern, url: string, lo: nat, hi: nat)
    requires lo <= hi <= |url|
    requires forall k :: lo <= k < hi ==> url[k] != '/'
    ensures Search(p, url, lo) == Search(p, url, hi)
    decreases hi - lo
  {
    if lo < hi {
      SkipNoSlash(p, url, lo + 1, hi);
    }
  }

  /** A host name that cannot itself be mistaken for a path step. */
  predicate Host(host: string)
  {
    '/' !in host && |host| > 5
  }

  /** No pattern starts at `k` when the characters where its slashes would be are not slashes. */
  lemma NoMatchAt(p: Pattern, url: string, k: nat)
    requires k + 6 < |url| && url[k + 2] != '/' && url[k + 5] != '/' && url[k + 6] != '/'
    ensures !MatchesAt(p, url, k)
  {
    assert url[k..k + 3][2] == url[k + 2];
    assert url[k..k + 6][5] == url[k + 5];
    assert url[k..k + 7][6] == url[k + 6];
  }

  /** Nothing in "https://<host>" starts a match. */
  lemma SkipOrigin(p: Pattern, host: string, path: string)
    requires Host(host)
    ensures Search(p, "https://" + host + path, 0) == Search(p, "https://" + host + path, 8 + |host|)
  {
    var url := "https://" + host + path;
    forall k | 0 <= k < 6 ensures url[k] != '/' {
      assert url[k] == "https:"[k];
    }
    SkipNoSlash(p, url, 0, 6);
    forall k | 8 <= k < 14 ensures url[k] == host[k - 8] && url[k] != '/' {
      assert host[k - 8] in host;
    }
    NoMatchAt(p, url, 6);
    NoMatchAt(p, url, 7);
    forall k | 8 <= k < 8 + |host| ensures url[k] != '/' {
      assert url[k] == host[k - 8] && host[k - 8] in host;
    }
    SkipNoSlash(p, url, 8, 8 + |host|);
  }

  // ---------------------------------------------------------- Instagram

  /** `instagram_extract_post_id(url)`: the segment after the first "/p/" or "/reel/" that a slash closes. */
  function InstagramPostId(url: string): (r: Option<string>)
    ensures r.Some? ==> r.value != [] && '/' !in r.value
  {
    Search(PostPath, url, 0)
  }

  /** The greedy run of non-slashes stops at the first slash. */
  lemma {:induction false} NonSlashOf(id: string, rest: string)
    requires '/' !in id && (rest == [] || rest[0] == '/')
    ensures NonSlashRun(id + rest) == id
  {
    if id == [] {
      assert id + rest == rest;
    } else {
      assert (id + rest)[1..] == id[1..] + rest;
      assert id[0] in id;
      NonSlashOf(id[1..], rest);
    }
  }

  /** Where "/p/" or "/reel/" occurs at `i` and a segment and slash follow it, that segment is the group. */
  lemma PostGroupAt(url: string, i: nat, mid: string, id: string)
    requires mid == "/p/" || mid == "/reel/"
    requires OccursAt(url, mid, i) && SegmentThenSlash(url, i + |mid|) == Some(id)
    ensures GroupAt(PostPath, url, i) == Some(id)
  {
    if mid == "/reel/" {
      assert !OccursAt(url, "/p/", i) by {
        assert url[i..i + 3][1] == url[i + 1] == url[i..i + |mid|][1];
      }
    }
  }

  /** The segment after `pre + mid` in a link, up to the slash that closes it. */
  lemma SegmentAfter(pre: string, mid: string, id: string, rest: string)
    requires id != [] && '/' !in id
    ensures var url := pre + (mid + (id + ("/" + rest)));
      OccursAt(url, mid, |pre|) && SegmentThenSlash(url, |pre| + |mid|) == Some(id)
  {
    assert pre + (mid + (id + ("/" + rest))) == pre + mid + (id + ("/" + rest));
    Middle(pre, mid, id + ("/" + rest));
    NonSlashOf(id, "/" + rest);
  }

  /** "/p/<id>/" or "/reel/<id>/" at position |pre| starts a match whose group is `id`. */
  lemma PostAt(pre: string, mid: string, id: string, rest: string)
    requires mid == "/p/" || mid == "/reel/"
    requires id != [] && '/' !in id
    ensures GroupAt(PostPath, pre + (mid + (id + ("/" + rest))), |pre|) == Some(id)
  {
    SegmentAfter(pre, mid, id, rest);
    PostGroupAt(pre + (mid + (id + ("/" + rest))), |pre|, mid, id);
  }

  /** A canonical post or reel link gives its id, whatever follows the closing slash. */
  lemma InstagramLink(host: string, kind: string, id: string, rest: string)
    requires Host(host) && (kind == "p" || kind == "reel")
    requires id != [] && '/' !in id
    ensures InstagramPostId("https://" + host + ("/" + kind + "/") + id + ("/" + rest)) == Some(id)
  {
    var mid := "/" + kind + "/";
    var path := mid + (id + ("/" + rest));
    assert "https://" + host + mid + id + ("/" + rest) == "https://" + host + path;
    if kind == "p" {
      assert mid == "/p/";
    } else {
      assert mid == "/reel/";
    }
    SkipOrigin(PostPath, host, path);
    PostAt("https://" + host, mid, id, rest);
  }

  /**
   * A post match needs a closing slash at least four characters after its
   * start, so once no slash is left from `i + 3` on, nothing from `i` on matches.
   */
  lemma {:induction false} NoPostFrom(url: string, i: nat)
    requires i <= |url|
    requires forall j :: i + 3 <= j < |url| ==> url[j] != '/'
    ensures Search(PostPath, url, i) == None
    decreases |url| - i
  {
    if i < |url| {
      NoPostFrom(url, i + 1);
    }
  }

  /** A post link without the slash after the id gives no id. */
  lemma InstagramNoClosingSlash(host: string, id: string)
    requires Host(host) && '/' !in id
    ensures InstagramPostId("https://" + host + ("/p/" + id)) == None
  {
    var url := "https://" + host + ("/p/" + id);
    SkipOrigin(PostPath, host, "/p/" + id);
    var i := 8 + |host|;
    forall j | i + 3 <= j < |url| ensures url[j] != '/' {
      assert url[j] == id[j - i - 3] && id[j - i - 3] in id;
    }
    NoPostFrom(url, i);
  }

  // ------------------------------------------------------------- TikTok

  /** The video id of a TikTok page URL: the digits after the first "/video/" they follow, or "". */
  function TikTokVideoId(url: string): (r: string)
    ensures AllDigits(r)
    ensures r == "" <==> Search(VideoPath, url, 0).None?
  {
    match Search(VideoPath, url, 0)
    case None => ""
    case Some(d) => d
  }

  /** The path of a TikTok video page. */
  function VideoPage(user: string, id: string, rest: string): string
  {
    "/@" + user + "/video/" + id + rest
  }

  /** "/video/" cannot start where the next character is not 'v'. */
  lemma NotVideoAt(url: string, i: nat)
    requires i + 1 < |url| && url[i + 1] != 'v'
    ensures !MatchesAt(VideoPath, url, i)
  {
    if i + 7 <= |url| {
      assert url[i..i + 7][1] == url[i + 1];
    }
  }

  /** The characters of a video page path: "/@", then the user name. */
  lemma VideoPageChars(pre: string, user: string, id: string, rest: string)
    ensures var url := pre + VideoPage(user, id, rest);
      |pre| + 2 + |user| <= |url| && url[|pre| + 1] == '@'
      && url[|pre| + 2..|pre| + 2 + |user|] == user
  {
    var page := VideoPage(user, id, rest);
    assert page == "/@" + user + ("/video/" + id + rest);
    assert page[2..2 + |user|] == user;
  }

  /** "/@<user>" is passed over. */
  lemma SkipUser(url: string, i: nat, user: string)
    requires i + 2 + |user| <= |url| && url[i + 1] == '@'
    requires url[i + 2..i + 2 + |user|] == user && '/' !in user
    ensures Search(VideoPath, url, i) == Search(VideoPath, url, i + 2 + |user|)
  {
    NotVideoAt(url, i);
    SkipSlashFree(VideoPath, url, i + 2, user);
  }

  /** A stretch of the URL equal to slash-free text is passed over. */
  lemma SkipSlashFree(p: Pattern, url: string, lo: nat, seg: string)
    requires lo + |seg| <= |url| && url[lo..lo + |seg|] == seg && '/' !in seg
    ensures Search(p, url, lo) == Search(p, url, lo + |seg|)
  {
    forall k | lo <= k < lo + |seg| ensures url[k] != '/' {
      assert url[k] == seg[k - lo] && seg[k - lo] in seg;
    }
    SkipNoSlash(p, url, lo, lo + |seg|);
  }

  /** "/video/<digits>" after the user starts a match whose group is those digits. */
  lemma VideoAt(pre: string, user: string, id: string, rest: string)
    requires id != [] && AllDigits(id) && (rest == [] || !IsDigit(rest[0]))
    ensures var url := pre + VideoPage(user, id, rest);
      GroupAt(VideoPath, url, |pre| + 2 + |user|) == Some(id)
  {
    var url := pre + VideoPage(user, id, rest);
    var v := |pre| + 2 + |user|;
    var head := pre + "/@" + user;
    assert url == head + "/video/" + (id + rest);
    assert OccursAt(url, "/video/", v) && url[v + 7..] == id + rest by {
      Middle(head, "/video/", id + rest);
    }
    DigitRunConcat(id, rest);
  }

  /** A video page "https://<host>/@<user>/video/<digits>..." gives those digits. */
  lemma TikTokLink(host: string, user: string, id: string, rest: string)
    requires Host(host) && '/' !in user
    requires id != [] && AllDigits(id) && (rest == [] || !IsDigit(rest[0]))
    ensures TikTokVideoId("https://" + host + VideoPage(user, id, rest)) == id
  {
    var pre := "https://" + host;
    var url := pre + VideoPage(user, id, rest);
    assert Search(VideoPath, url, |pre|) == Some(id) by {
      VideoPageChars(pre, user, id, rest);
      VideoAt(pre, user, id, rest);
      VideoAfterUser(url, |pre|, user, id);
    }
    SkipOrigin(VideoPath, host, VideoPage(user, id, rest));
  }

  /** After "/@<user>", a video match right behind the user name is the first one. */
  lemma VideoAfterUser(url: string, i: nat, user: string, id: string)
    requires i + 2 + |user| <= |url| && url[i + 1] == '@'
    requires url[i + 2..i + 2 + |user|] == user && '/' !in user
    requires GroupAt(VideoPath, url, i + 2 + |user|) == Some(id)
    ensures Search(VideoPath, url, i) == Some(id)
  {
    SkipUser(url, i, user);
    SearchHit(VideoPath, url, i + 2 + |user|);
  }

  // ------------------------------------------------------------------ X

  /** `s.split('/')[-1]`: what follows the last slash, or all of `s`. */
  function LastSegment(s: string): (r: string)
    ensures |r| <= |s| && r == s[|s| - |r|..] && '/' !in r
    ensures |r| < |s| ==> s[|s| - |r| - 1] == '/'
  {
    if s == [] || s[|s| - 1] == '/' then "" else LastSegment(s[..|s| - 1]) + [s[|s| - 1]]
  }

  /** Text after a last slash is the last segment. */
  lemma {:induction false} LastSegmentOf(pre: string, t: string)
    requires '/' !in t
    ensures LastSegment(pre + "/" + t) == t
    decreases |t|
  {
    var s := pre + "/" + t;
    if t == [] {
      assert s[|s| - 1] == '/';
    } else {
      var init := t[..|t| - 1];
      assert s[..|s| - 1] == pre + "/" + init;
      assert s[|s| - 1] == t[|t| - 1] && t[|t| - 1] in t;
      LastSegmentOf(pre, init);
      assert t == init + [t[|t| - 1]];
    }
  }

  /** Text without a slash is its own last segment. */
  lemma {:induction false} LastSegmentWhole(s: string)
    requires '/' !in s
    ensures LastSegment(s) == s
    decreases |s|
  {
    if s != [] {
      assert s[|s| - 1] in s;
      LastSegmentWhole(s[..|s| - 1]);
      assert s == s[..|s| - 1] + [s[|s| - 1]];
    }
  }

  /** A slash ahead of `rest` leaves the last segment of `rest` as it was. */
  lemma {:induction false} LastSegmentOfSuffix(pre: string, rest: string)
    ensures LastSegment(pre + "/" + rest) == LastSegment(rest)
    decreases |rest|
  {
    var s := pre + "/" + rest;
    if rest == [] {
      assert s[|s| - 1] == '/';
    } else {
      assert s[|s| - 1] == rest[|rest| - 1];
      if rest[|rest| - 1] != '/' {
        assert s[..|s| - 1] == pre + "/" + rest[..|rest| - 1];
        LastSegmentOfSuffix(pre, rest[..|rest| - 1]);
      }
    }
  }

  /** The last segment is the last piece `split('/')` gives. */
  lemma {:induction false} LastSegmentIsLastPiece(s: string)
    ensures var parts := Split(s, "/"); LastSegment(s) == parts[|parts| - 1]
    decreases |s|
  {
    match IndexOf(s, "/")
    case None =>
      assert Split(s, "/") == [s];
      assert '/' !in s by {
        forall k | 0 <= k < |s| ensures s[k] != '/' {
          assert s[k..k + 1] == [s[k]];
          assert !OccursAt(s, "/", k);
        }
      }
      LastSegmentWhole(s);
    case Some(i) =>
      var rest := s[i + 1..];
      var tail := Split(rest, "/");
      assert Split(s, "/") == [s[..i]] + tail;
      LastSegmentIsLastPiece(rest);
      assert s[i..i + 1] == "/";
      assert s == s[..i] + "/" + rest;
      LastSegmentOfSuffix(s[..i], rest);
  }

  /** The X post id: the last path segment of the page URL (a trailing slash gives ""). */
  function XPostId(pageUrl: string): (r: string)
    ensures '/' !in r
  {
    LastSegment(pageUrl)
  }

  lemma XPostIdExample()
    ensures XPostId("https://x.com/jack/status/20") == "20"
  {
    assert "https://x.com/jack/status/20" == "https://x.com/jack/status" + "/" + "20";
    LastSegmentOf("https://x.com/jack/status", "20");
  }

  /** The profile id and profile URL an X post page yields. */
  datatype XProfile = XProfile(id: string, url: string)

  /**
   * main.py:85-92, from the first profile link's `href`: every '/' becomes
   * '@' for the id, and the URL is "https://x.com/" and the id without its
   * '@'. An absent attribute (None) reaches `.replace` and raises
   * AttributeError.
   */
  function XProfileOf(href: Option<string>): (r: Result<XProfile>)
    ensures r.Ok? <==> href.Some?
    ensures r.Ok? ==> |r.value.id| == |href.value| && '/' !in r.value.id
    ensures r.Ok? ==> forall i :: 0 <= i < |href.value| ==>
      r.value.id[i] == if href.value[i] == '/' then '@' else href.value[i]
    ensures r.Ok? ==> r.value.url == "https://x.com/" + Remove(Remove(href.value, '/'), '@')
  {
    match href
    case None => Fail("'NoneType' object has no attribute 'replace'")
    case Some(h) =>
      var id := if h == "" then h else ReplaceChar(h, '/', '@');
      RemoveReplaced(h);
      Ok(XProfile(id, "https://x.com/" + Remove(id, '@')))
  }

  /** Turning '/' into '@' and then dropping '@' drops both. */
  lemma {:induction false} RemoveReplaced(s: string)
    ensures Remove(ReplaceChar(s, '/', '@'), '@') == Remove(Remove(s, '/'), '@')
    decreases |s|
  {
    if s != [] {
      var x := ReplaceChar(s, '/', '@');
      assert x == [x[0]] + ReplaceChar(s[1..], '/', '@');
      assert x[1..] == ReplaceChar(s[1..], '/', '@');
      RemoveReplaced(s[1..]);
      var head := if s[0] == '/' then "" else [s[0]];
      assert Remove(s, '/') == head + Remove(s[1..], '/');
      RemoveConcat(head, Remove(s[1..], '/'), '@');
    }
  }

  /** The usual `href="/<handle>"` gives "@<handle>" and "https://x.com/<handle>". */
  lemma XProfileOfHandle(handle: string)
    requires '/' !in handle && '@' !in handle
    ensures XProfileOf(Some("/" + handle)) == Ok(XProfile("@" + handle, "https://x.com/" + handle))
  {
    var h := "/" + handle;
    var id := ReplaceChar(h, '/', '@');
    assert id == "@" + handle by {
      assert forall k :: 1 <= k < |h| ==> h[k] == handle[k - 1];
    }
    assert Remove(id, '@') == handle by {
      RemoveConcat("@", handle, '@');
    }
  }

  // ----------------------------------------------------------- Facebook

  const FacebookOrigin := "https://www.facebook.com"

  /**
   * main.py:341-345: the owner link of a post, as a full URL without its query:
   * cut at the first '&' on a reel page and at the first "/?" otherwise. An
   * absent or empty `href` is kept as it is.
   */
  function FbProfileUrl(href: Option<string>, reelPage: bool): (r: Option<string>)
    ensures href.None? || href.value == [] ==> r == href
    ensures href.Some? && href.value != [] ==> r.Some? && StartsWith(r.value, FacebookOrigin)
  {
    match href
    case Some(h) =>
      if h == [] then href
      else Some(FacebookOrigin + TrimAt(h, if reelPage then "&" else "/?"))
    case None => href
  }

  lemma FbProfileTrimmed(path: string, query: string, reelPage: bool)
    requires path != []
    requires reelPage ==> '&' !in path
    requires !reelPage ==> NoEarlySep(path, "/?")
    ensures FbProfileUrl(Some(path + (if reelPage then "&" else "/?") + query), reelPage) == Some(FacebookOrigin + path)
  {
    var sep := if reelPage then "&" else "/?";
    if reelPage {
      NoEarlySepOneChar(path, sep);
      forall j: nat | j <= |path| ensures !OccursAt(path, sep, j) {
        if j < |path| {
          assert path[j] in path;
        }
      }
    }
    TrimAtSeparator(path, sep, query);
  }

  /** main.py:386-387: the owner link of a feed post, cut at the first "/?". */
  function FbFeedProfile(href: Option<string>): (r: Option<string>)
    ensures r.None? <==> href.None?
    ensures r.Some? ==> !Contains(r.value, "/?") && |r.value| <= |href.value| && r.value == href.value[..|r.value|]
    ensures r.Some? && Contains(href.value, "/?") ==> OccursAt(href.value, "/?", |r.value|)
    ensures r.Some? && !Contains(href.value, "/?") ==> r.value == href.value
  {
    match href
    case Some(h) => if h == [] then href else Some(TrimAt(h, "/?"))
    case None => href
  }

  /** main.py:329-331: the link a reel's video id stands for, or "" without one. */
  function FbReelLink(videoId: Option<string>): (r: string)
    ensures r == "" <==> videoId.None? || videoId.value == []
    ensures r != "" ==> r == FacebookOrigin + "/reel/" + videoId.value
  {
    match videoId
    case Some(v) => if v == [] then "" else FacebookOrigin + "/reel/" + v
    case None => ""
  }

  /** The link and id of a feed post. */
  datatype FbPost = FbPost(link: Option<string>, id: string)

  /**
   * main.py:407-411: the post link is cut at the first "/?", and the id is
   * what lies between its first and second "/posts/". A link without
   * "/posts/" raises IndexError.
   */
  function FbPostOf(link: Option<string>): (r: Result<FbPost>)
    ensures link.None? || link.value == [] ==> r == Ok(FbPost(link, ""))
    ensures r.Fail? <==> link.Some? && link.value != [] && TrimAt(link.value, "/?") != []
                         && !Contains(TrimAt(link.value, "/?"), "/posts/")
    ensures r.Ok? && r.value.id != [] ==> !Contains(r.value.id, "/posts/")
  {
    match link
    case None => Ok(FbPost(link, ""))
    case Some(l) =>
      if l == [] then Ok(FbPost(link, ""))
      else
        var t := TrimAt(l, "/?");
        if t == [] then Ok(FbPost(Some(t), ""))
        else
          match SplitSecond(t, "/posts/")
          case None => Fail("list index out of range")
          case Some(id) => Ok(FbPost(Some(t), id))
  }

  /** "…/posts/<id>/?<query>" gives the link without its query and `<id>`. */
  lemma FbPostLink(base: string, id: string, query: string)
    requires NoEarlySep(base, "/posts/") && !Contains(id, "/posts/")
    requires NoEarlySep(base + "/posts/" + id, "/?")
    ensures FbPostOf(Some(base + "/posts/" + id + "/?" + query)) == Ok(FbPost(Some(base + "/posts/" + id), id))
  {
    TrimAtSeparator(base + "/posts/" + id, "/?", query);
    SplitSecondIsRest(base, "/posts/", id);
  }
}
