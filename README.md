# Post scraper core, in Dafny

`main.py` is a FastAPI service that scrapes one post from each of four social
platforms: Instagram, Facebook, TikTok and X. It drives a browser with
Playwright, reads attributes and texts out of the page, and normalises them
into one record. The record holds the post id, the profile link, a timestamp
in `YYYY-MM-DD HH:MM:SS` form, the hashtags, and the like, comment, share and
view counts.

This project models the pure core of that normalisation. Each part below is
one Dafny module:

- **Counts.** `parse_number`, which turns count text such as "1.2万", "3.4K",
  "2M" or "1,234 likes" into an integer.
- **TikTokDate.** `adjust_tiktok_date`, with the `strptime("%Y-%m-%d")` it
  relies on.
- **RelativeTime.** `parse_relative_time`, which reads Facebook's "3小时前",
  "2024年5月1日12:30" and "5月1日" forms. It relies on the calendar, the
  timestamp text and `datetime - timedelta`, which are modelled in
  **Calendar**.
- **Links.** The identifiers cut out of URLs and link targets:
  - the Instagram post id and the TikTok video id, found with `re.search`
  - the X post id and profile
  - the four Facebook trims
- **Hashtags.** The three hashtag loops. X and Instagram collect into a set.
  TikTok collects into a list.
- **XMetrics.** The loop that reads X's action-bar `aria-label`.
- **FbReel.** The loop that reads a Facebook reel's counters. It has a
  defect, recorded under Findings.
- **Dispatch.** The `/scrape` dispatch on the request's "type".

Two supporting modules hold shared definitions:

- **Results.** `Option`, and a `Result` whose `Fail` stands for a Python
  exception or a failure answer.
- **Text.** Its operations are `strip`, `split`, `replace`, substring search,
  decimal digit runs and zero-padded numbers.

## How to read the model

- **Inputs from outside are parameters.** A value read from the browser
  becomes a parameter of the operation. An attribute that may be absent is an
  `Option<string>`, where `None` stands for Python's `None`.
- **The clock is a parameter.** The current moment and the current year are
  read from the system clock in the source. Here they are parameters.
- **Exceptions are `Fail`.** An exception the source would raise is a `Fail`
  result. The adapter that calls the code turns it into its failure answer.
- **Loops are methods.** Each loop is a method proved against a function that
  specifies it:
  - `ReadMetrics` (X metrics)
  - `CollectSet` and `CollectList` (hashtags)
  - `ReelCountsAsWritten` and `ReelCounts` (Facebook reel)

  The lemmas are proved about those specifying functions.

## Model

| member | source | states |
|---|---|---|
| Counts.ParseNumber | main.py:533-560 | An `int` comes back unchanged. `None` fails, as `None.strip()` raises. Any `str` gives an integer, never an error. |
| Counts.BlankIsZero | main.py:538-540 | Text that is blank once the like labels are removed counts as 0. |
| Counts.SuffixedCount | main.py:544-554 | A decimal followed by 万, K/k or M/m counts as that decimal times 10000, 1000 or 1000000, truncated. Any text may follow. |
| Counts.SpacedSuffixedCount | main.py:542-554 | The `\s?` of the three patterns: one whitespace character other than ' ' (a tab, U+00A0) between the decimal and its unit gives the same value. Only ' ' is removed before matching. |
| Counts.PlainCount | main.py:537-558 | A comma-grouped digit string, optionally followed by a space and "like", "likes" or "次赞", counts as its digits without commas. |
| Counts.NonNegativeWithoutMinus | main.py:533-560 | A text without '-' never counts below 0. |
| Counts.WanExample | main.py:544-546 | "1.2万" counts as 12000. |
| Counts.ThousandExample | main.py:548-550 | "3.4K" counts as 3400. |
| Counts.MillionExample | main.py:552-554 | "2M" counts as 2000000. |
| Counts.TrailingTextExample | main.py:548-550 | "1.5k views" counts as 1500, because the match is anchored only at the start. |
| Counts.LabelledExample | main.py:537-558 | "1,234 likes" counts as 1234. |
| Counts.NegativeExample | main.py:557-558 | "-5" counts as -5, because `int()` accepts a sign. |
| Counts.FractionWithoutUnitExample | main.py:557-560 | "1.5" counts as 0, because `int()` rejects it. |
| Counts.NonNumericExample | main.py:557-560 | "abc" counts as 0. |
| Counts.EmptyExample | main.py:538-540 | "" counts as 0. |
| TikTokDate.AdjustTikTokDate | main.py:55-70 | A successful result is either the input unchanged or a midnight timestamp. |
| TikTokDate.StrptimeYmd | main.py:62 | A parsed date is a valid calendar date at midnight, and its year is the text's first four digits. |
| TikTokDate.StrptimeWritten | main.py:62 | "Y-M-D", with or without zero padding, parses exactly when the day exists in that month, and gives that date. |
| TikTokDate.FullDateBranch | main.py:60-62 | Text that starts with `\d{4}-\d{2}-\d{2}` succeeds exactly when it is those ten characters and a real date. It then gives "YYYY-MM-DD 00:00:00". |
| TikTokDate.ShortDateBranch | main.py:65-67 | "M-D" succeeds exactly when the day exists in the current year. It then gives that date in the current year at midnight. |
| TikTokDate.NonDateUntouched | main.py:69-70 | Text that starts with neither `\d{4}-\d{2}-\d{2}` nor `\d{1,2}-\d{1,2}` comes back unchanged. |
| TikTokDate.ShortDateShape | main.py:65-67 | Text that starts with `\d{1,2}-\d{1,2}` succeeds exactly when it is a whole "M-D" or "MM-DD" whose day exists in the current year. Any other such text, such as "13-1" or "5-1x", raises. |
| TikTokDate.NotReapplicable | main.py:55-70 | An already-adjusted timestamp makes a second adjustment raise. |
| TikTokDate.ShortExample | main.py:65-67 | "5-1" in 2024 gives "2024-05-01 00:00:00". |
| TikTokDate.FullExample | main.py:60-62 | "2023-12-31" gives "2023-12-31 00:00:00". |
| TikTokDate.NoSuchDayExample | main.py:60-62 | "2023-02-30" raises. |
| TikTokDate.RelativeTextExample | main.py:69-70 | "3天前" comes back unchanged. |
| TikTokDate.LongerTextExamples | main.py:69-70 | "12天前" and "2024年5月" come back unchanged. |
| Calendar.FormatRoundTrip | main.py:579 | Reading back the `'%Y-%m-%d %H:%M:%S'` text of a datetime gives that datetime. |
| Calendar.ParseTimestampCanonical | main.py:579 | Any text that reads as a timestamp is the formatting of what it reads as. |
| Calendar.SecondsRoundTrip | main.py:578-579 | A datetime's second count since 0001-01-01 determines it. |
| Calendar.Minus | main.py:578-579 | `now - delta` succeeds exactly when the result is not before year 1. It is then `delta` seconds earlier. |
| Calendar.YearUnique | main.py:578-579 | Two day counts in the year ranges of their years are equal only for the same year and day. |
| Calendar.DateOfIndex | main.py:578-579 | Every day count below the end of year 9999 is the count of some valid date. |
| RelativeTime.RelativeMatchOf | main.py:573-576 | Digits followed by 分钟, 小时 or 天 match as that number and unit, whatever follows. |
| RelativeTime.ParseRelativeTime | main.py:563-601 | The result succeeds exactly when the moment is computed. The result is then canonical timestamp text that reads back as that moment. |
| RelativeTime.MomentOf | main.py:563-601 | Every computed moment is a valid datetime. The only failure is a relative form that reaches back before year 1. |
| RelativeTime.RelativeForm | main.py:573-579 | "N分钟/小时/天…" succeeds exactly when N units fit before now. It is then exactly N units earlier. |
| RelativeTime.AbsoluteMatchOf | main.py:581-583 | "YYYY年M月D日H:MM…" matches with exactly those fields, padded or not. |
| RelativeTime.AbsoluteForm | main.py:581-587 | "YYYY年M月D日H:MM…" gives that moment when it is a real one. Otherwise it gives the current moment, because the month-day pattern cannot match either. |
| RelativeTime.DateWithoutTime | main.py:581-601 | "YYYY年M月D日" with no time gives the current moment. |
| RelativeTime.MonthDayMatchOf | main.py:589-591 | "M月D日…" matches with exactly that month and day. |
| RelativeTime.YearFor | main.py:592-595 | The year chosen for "M月D日" is the latest one in which that day is not after today. |
| RelativeTime.MonthDayForm | main.py:589-599 | "M月D日…" gives midnight of that day in the chosen year when the date exists. Otherwise it gives the current moment. |
| RelativeTime.Fallback | main.py:601 | Text that does not start with a digit gives the current moment. |
| RelativeTime.DigitsThenOther | main.py:573-601 | A digit run followed by a character that starts none of the three forms, as in "1 小时前", "2 天前" or "5号", gives the current moment. |
| RelativeTime.HoursAgoExample | main.py:573-579 | "3小时前" at 2024-05-10 12:00:00 gives "2024-05-10 09:00:00". |
| RelativeTime.LastYearExample | main.py:589-599 | "12月25日" on 2024-05-10 gives "2023-12-25 00:00:00". |
| Links.InstagramPostId | main.py:47-52 | A found id is non-empty and holds no slash. |
| Links.SearchIsLeftmost | main.py:49 | `re.search` finds something exactly when the pattern matches somewhere. What it finds is the group of the leftmost match. |
| Links.InstagramLink | main.py:47-52 | For "https://host/p/ID/…" and "https://host/reel/ID/…", the id is ID. |
| Links.InstagramNoClosingSlash | main.py:49-52 | A post path without the closing slash gives no id. |
| Links.TikTokVideoId | main.py:188-191 | The id is all digits. It is empty exactly when no "/video/<digits>" occurs. |
| Links.TikTokLink | main.py:188-191 | For "https://host/@user/video/ID…", the id is ID. |
| Links.XProfileOf | main.py:87-91 | It fails exactly when the `href` is `None`. Otherwise the handle is the `href` with each '/' made '@', and the profile URL is "https://x.com/" plus the `href` without '/' or '@'. |
| Links.XProfileOfHandle | main.py:87-91 | "/name" gives handle "@name" and URL "https://x.com/name". |
| Links.LastSegment | main.py:92 | The result is the longest slash-free suffix. |
| Links.LastSegmentIsLastPiece | main.py:92 | The result is the last element of `split('/')`. |
| Links.XPostId | main.py:92 | The post id holds no slash. |
| Links.XPostIdExample | main.py:92 | "https://x.com/jack/status/20" gives "20". |
| Links.FbReelLink | main.py:329-331 | The link is empty exactly when the video id is missing or empty. Otherwise it is the reel URL for that id. |
| Links.FbProfileUrl | main.py:341-345 | A missing or empty `href` is kept as it is. Any other `href` becomes a link on www.facebook.com. |
| Links.FbProfileTrimmed | main.py:341-345 | The `href` is cut at the first '&' on a reel page, and at the first "/?" otherwise. |
| Links.FbFeedProfile | main.py:386-387 | The result is the prefix of the `href` before its first "/?". It is `None` exactly when the `href` is. |
| Links.FbPostOf | main.py:407-411 | It raises exactly when the trimmed link is non-empty and lacks "/posts/". A missing or empty link gives an empty id. |
| Links.FbPostLink | main.py:407-411 | For ".../posts/ID/?query", the link is ".../posts/ID" and the id is ID. |
| Hashtags.XStep | main.py:97-100 | A tag is "#" plus a name with no '?'. The link raises exactly when it is non-empty and lacks "/hashtag/". |
| Hashtags.XHashtagLink | main.py:100 | ".../hashtag/NAME?query" gives "#NAME". |
| Hashtags.InstagramStep | main.py:642-645 | Every link contributes, always beginning with '#'. The link raises exactly when it is non-empty and lacks "/explore/tags/". |
| Hashtags.InstagramTagLink | main.py:644-645 | ".../explore/tags/NAME/" gives "#NAME". |
| Hashtags.InstagramMissingHref | main.py:644-645 | A link without `href` gives "#None". |
| Hashtags.TikTokStep | main.py:195-199 | A missing `href` raises. An `href` without "/tag/" is skipped. Otherwise "/tag/NAME" gives "#NAME". |
| Hashtags.TikTokTagLink | main.py:197-199 | ".../tag/NAME" gives "#NAME". |
| Hashtags.CollectSet | main.py:95-101 | The set loop computes the set fold of the contributions. |
| Hashtags.CollectList | main.py:194-199 | The list loop computes the list fold of the contributions. |
| Hashtags.SetOfContents | main.py:95-101 | The set loop raises exactly when some link raises. Otherwise a tag is in the set exactly when some link yields it. |
| Hashtags.ListOfContents | main.py:194-199 | The list loop raises exactly when some link raises. Otherwise the list is every yielded tag, in page order. |
| Hashtags.DuplicatesCollapseOnlyInSets | main.py:95-101 | Two links that yield the same tag give one tag in a set, and two in the TikTok list. |
| XMetrics.ReadMetrics | main.py:116-141 | The five counters are those left by reading the pieces of the `aria-label` in order. |
| XMetrics.KindOfIsFirst | main.py:132-141 | A piece's counter is the first one in test order whose keyword it mentions. It has none exactly when it mentions none. |
| XMetrics.FirstDigits | main.py:129-131 | A piece's number is its first run of digits. It has none exactly when it holds no digit. |
| XMetrics.FirstDigitsOf | main.py:129-131 | The digits after a digit-free lead are taken whole. |
| XMetrics.LastPieceWins | main.py:128-141 | A counter stays 0 exactly when no piece sets it. Otherwise it is the value of the last piece that sets it. |
| XMetrics.PieceReading | main.py:129-141 | "N replies", "N reposts", "N likes", "N bookmarks" and "N views" each set their own counter to N. |
| XMetrics.EnglishLabel | main.py:123-141 | The usual English label "a replies, b reposts, c likes, d bookmarks, e views" sets all five counters. |
| XMetrics.With | main.py:132-141 | Setting one counter leaves the other four as they were. |
| FbReel.Blanked | main.py:449-456 | A block's text becomes 0 exactly when it strips to nothing, and is kept otherwise. |
| FbReel.ReelCountsAsWritten | main.py:444-461 | The loop as written computes the fold that tests `like_count` in the share branch. |
| FbReel.ShareBeforeLikeRaises | main.py:446-461 | On any page, a share block with no non-blank like block at or before it makes the loop as written raise. |
| FbReel.BlankShareKept | main.py:457-461 | After a non-blank like block, a blank share text is kept as written, where the corrected loop gives 0. |
| FbReel.RaisesIffShareWithoutLike | main.py:444-461 | The loop as written raises exactly when some share block is reached while the like counter is the integer 0, that is when the corrected loop's like counter up to that block is 0. |
| FbReel.ReelCounts | main.py:444-461 | The corrected loop computes the fold in which every branch tests its own text. |
| FbReel.LastBlockWins | main.py:446-461 | Each counter is the blank-checked text of the last block carrying its label, and 0 when none does. |
| FbReel.NoBlankCounter | main.py:446-461 | No counter is left holding blank text. |
| FbReel.AsWrittenAgreesUnlessRaising | main.py:444-461 | Where the loop as written does not raise, like and comments agree with the corrected loop, and share parses to the same number. |
| Dispatch.PlatformOf | main.py:824-835 | A request is dispatched only for its own platform name. Anything else fails with "not support platform:" followed by the value. |
| Dispatch.NameSelects | main.py:826-833 | Each platform's name selects that platform. |
| Dispatch.SupportedIffNamed | main.py:826-835 | A request is served exactly when "type" is one of the four names. |
| Dispatch.RefusedExamples | main.py:835 | A missing "type" gives "not support platform:None". "X" is refused, because the comparison is case-sensitive. |

## Left out

- Browser work is not modelled: Playwright, page loading, the DOM queries,
  login cookies and screenshots. Their results are parameters.
- The FastAPI routes, argparse, logging and the `Result` wrapper's JSON form
  are not modelled.
- The clock is not modelled. `datetime.now()` becomes the `now` and
  `currentYear` parameters.
- Counts.ParseNumber: a Python `float` input is not modelled.
- Counts.ParseNumber: float rounding is not modelled. The suffix forms compute
  `float(x) * 10000`, `* 1000` or `* 1000000` exactly on decimals and then
  truncate. Python's IEEE-754 product can land just below a whole number:
  `float("1.001") * 1000` is 1000.9999999999999, so "1.001K" gives 1000 in
  Python and 1001 here.
- Counts.ParseNumber: a suffixed whole part above 2^53 loses digits in
  Python's `float`, so Python's value can differ from the model's by many
  units.
- Counts.ParseNumber: Python raises OverflowError when a suffixed value
  exceeds the float range (about 1.8e308, for example a number of more than
  308 digits followed by "K"). `int(inf)` raises there, and main.py:557-560
  does not catch it. The model returns the exact value.
- Counts.ParseNumber: Python's `int()` limit of 4300 digits is not
  modelled. Beyond it, `int()` raises ValueError, which main.py:559 catches,
  so Python gives 0. The model gives the exact integer.
- `\d` is ASCII digits only throughout. Python's `re` and `int()` also
  accept other Unicode decimal digits. This applies to:
  - Counts.ParseNumber
  - TikTokDate.AdjustTikTokDate: FullDatePrefix, ShortDatePrefix and the
    `strptime` fields
  - RelativeTime.ParseRelativeTime: RelativeMatch, AbsoluteMatch and
    MonthDayMatch
  - XMetrics.FirstDigits
  - Links.TikTokVideoId
- Counts.ParseNumber: a negative count passes through unchanged ("-5" gives
  -5). This follows the code. The code does not restrict counts to be
  non-negative.
- Failure messages are not modelled exactly. A `Fail` carries
  a short message, not Python's exact exception text.
- TikTokDate.ShortDateBranch and TikTokDate.ShortDateShape: they are proved
  only for current years from 1000. Below that, `f"{current_year}-..."` is
  not four digits, so the text `strptime` reads differs.
- Calendar.Format always pads the year to four digits. Python's `'%Y'`
  output for years below 1000 depends on the platform's C library. This
  reaches RelativeTime.ParseRelativeTime results before year 1000. It also
  reaches TikTokDate.AdjustTikTokDate results before year 1000.
- TikTokDate.AdjustTikTokDate: a `None` date, which would raise in
  `re.match`, is not modelled. The input is a string.
- Calendar.Minus: microseconds are not modelled. `datetime.now()` has them,
  but `'%S'` drops them.
- Calendar.Minus: `OverflowError` past year 9999 cannot happen, because
  subtraction only moves backwards.
- Calendar.Minus: dates before year 1 are a `Fail`.
- RelativeTime.DateWithoutTime: a date with no time gives the current
  moment. This model follows the code.
- The ISO reformatting of X's `datetime` attribute (main.py:108-114) is not
  modelled.
- Links.InstagramLink: it requires a host of more than five characters with
  no slash. This keeps "https://" plus the host from forming "/p/" on its
  own. InstagramPostId itself has no such restriction.
- Links.TikTokLink: it restricts the host in the same way.
- Hashtags.CollectSet: the order of `list(set)` is Python's hash order. It is
  modelled as a set, not a list.
- Hashtags.XStep: no lemma pairs it with a whole page. XHashtagLink covers one
  link.
- Dispatch.PlatformOf: a JSON "type" that is not a string (a number, say) is
  not modelled. It is an `Option<string>`.
- XMetrics.ReadMetrics: an `aria-label` that is `None` on a matched bar cannot
  happen, because the selector requires the attribute. `None` here means that
  no bar matched.
- XMetrics.KindOfIsFirst: the repost test uses "转帖" as main.py:134 writes
  it, not the "次转贴" of the selector at main.py:122. A Chinese repost piece
  therefore sets no counter, following the code.
- The Instagram adapter's failure answer when `instagram_extract_post_id`
  gives `None` is not modelled. The model stops at the id.

## Findings

| source | as written | input that shows it | evidently intended | confidence | as-written member | corrected member |
|---|---|---|---|---|---|---|
| main.py:460-461 | the share branch tests `like_count.strip()` | a share block before any like block, or after a blank one: `like_count` is the integer 0, so `.strip()` raises AttributeError; and a blank share text is never reset to 0 | `if not share.strip(): share = 0`, as the like and comment branches test their own text | not executed | FbReel.ShareBeforeLikeRaises, FbReel.RaisesIffShareWithoutLike, FbReel.BlankShareKept | FbReel.ReelCounts, FbReel.LastBlockWins |
