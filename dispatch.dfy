/**
 * The `/scrape` dispatch (main.py:826-835): the request's "type" picks the
 * platform adapter, compared case-sensitively; anything else, including a
 * missing "type", is answered with a failure naming it.
 */
module Dispatch {
  import opened Results

  datatype Platform = Instagram | Facebook | TikTok | X

  /** The "type" value that selects each adapter. */
  function Name(p: Platform): string
  {
    match p
    case Instagram => "instagram"
    case Facebook => "facebook"
    case TikTok => "tiktok"
    case X => "x"
  }

  /** `f"{type_}"` for a "type" that is a string or missing (`None`). */
  function Shown(t: Option<string>): string
  {
    match t
    case None => "None"
    case Some(s) => s
  }

  /** The adapter the request goes to, or the "not support platform" failure. */
  function PlatformOf(t: Option<string>): (r: Result<Platform>)
    ensures r.Ok? ==> t == Some(Name(r.value))
    ensures r.Fail? ==> r.message == "not support platform:" + Shown(t)
  {
    if t == Some("instagram") then Ok(Instagram)
    else if t == Some("facebook") then Ok(Facebook)
    else if t == Some("tiktok") then Ok(TikTok)
    else if t == Some("x") then Ok(X)
    else Fail("not support platform:" + Shown(t))
  }

  /** Every adapter is reachable by its own name. */
  lemma NameSelects(p: Platform)
    ensures PlatformOf(Some(Name(p))) == Ok(p)
  {
  }

  /** The request is served exactly when "type" is one of the four names. */
  lemma SupportedIffNamed(t: Option<string>)
    ensures PlatformOf(t).Ok? <==> exists p: Platform :: t == Some(Name(p))
  {
    if PlatformOf(t).Ok? {
      assert t == Some(Name(PlatformOf(t).value));
    } else {
      forall p: Platform ensures t != Some(Name(p)) {
        NameSelects(p);
      }
    }
  }

  /** A missing "type" and a capitalised name are both refused. */
  lemma RefusedExamples()
    ensures PlatformOf(None) == Fail("not support platform:None")
    ensures PlatformOf(Some("X")) == Fail("not support platform:X")
  {
  }
}
