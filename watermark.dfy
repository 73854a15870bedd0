/**
 * `get_no_watermark_url` (app.py:212-257): three strategies tried in order
 * inside ONE `try`.
 *
 *  1. POST to the ssstik service; on status 200 the first `a.download`
 *     anchor whose lower-cased text contains "without watermark" gives its
 *     `href` (an anchor without `href` raises `KeyError`).
 *  2. GET from the tikmate service; on status 200 the decoded body's
 *     `videoUrl` entry, when `'videoUrl' in data`.
 *  3. A fixed download URL built from the video id.
 *
 * Because the `try` encloses all three, an exception in strategy 1 or 2
 * ends the whole chain with `None`: it does not fall through to the next
 * strategy. The services are not modelled: each request's outcome is a
 * parameter, with the anchors already selected from the returned HTML and
 * the JSON body already decoded.
 */
module Watermark {
  import opened Wrappers
  import opened Text
  import opened JsonValues

  /** An `a.download` anchor of the ssstik page: its text and its `href`, if any. */
  datatype Anchor = Anchor(text: string, href: Option<string>)

  /** The outcome of one service request: it raised, or it replied with a status and a body. */
  datatype Reply<T> = Raised | Replied(status: int, body: T)

  /** What one strategy does with its reply: fall through, return a URL, or raise. */
  datatype Step = Next | Return(url: Json) | Abort

  const Phrase := "without watermark"

  /** The anchor's lower-cased text contains "without watermark". */
  predicate Advertises(a: Anchor) {
    Contains(Lower(a.text), Phrase)
  }

  /** What the anchor loop ends with: no advertised anchor, its `href`, or the `KeyError` of a missing one. */
  datatype LinkSearch = NoLink | Found(href: string) | MissingHref

  /** `link['href']` of an advertised anchor. */
  function HrefOf(a: Anchor): (r: LinkSearch)
    ensures r != NoLink
    ensures r.Found? <==> a.href.Some?
    ensures r.Found? ==> a.href == Some(r.href)
  {
    match a.href
    case Some(h) => Found(h)
    case None => MissingHref
  }

  /** The specification of the anchor loop: the first advertised anchor decides. */
  function FirstWatermarkFree(anchors: seq<Anchor>): LinkSearch
    decreases |anchors|
  {
    if anchors == [] then NoLink
    else if Advertises(anchors[0]) then HrefOf(anchors[0])
    else FirstWatermarkFree(anchors[1..])
  }

  /** The loop of app.py:233-235, returning at the first advertised anchor. */
  method FindWatermarkFree(anchors: seq<Anchor>) returns (r: LinkSearch)
    ensures r == FirstWatermarkFree(anchors)
  {
    for i := 0 to |anchors|
      invariant FirstWatermarkFree(anchors[i..]) == FirstWatermarkFree(anchors)
    {
      assert anchors[i..][1..] == anchors[i + 1..];
      var link := anchors[i];
      if Contains(Lower(link.text), Phrase) {
        match link.href
        case Some(h) => return Found(h);
        case None => return MissingHref;
      }
    }
    return NoLink;
  }

  /**
   * The loop settles on the FIRST advertised anchor: there is none exactly
   * when no anchor advertises, and otherwise the result is that anchor's
   * `href` (or its `KeyError`).
   */
  lemma FirstWatermarkFreeIsFirst(anchors: seq<Anchor>)
    ensures FirstWatermarkFree(anchors) == NoLink <==> forall i :: 0 <= i < |anchors| ==> !Advertises(anchors[i])
    ensures FirstWatermarkFree(anchors) != NoLink ==>
      exists i :: 0 <= i < |anchors| && Advertises(anchors[i])
        && (forall j :: 0 <= j < i ==> !Advertises(anchors[j]))
        && FirstWatermarkFree(anchors) == HrefOf(anchors[i])
  {
    NoLinkExactly(anchors);
    if FirstWatermarkFree(anchors) != NoLink {
      var i := FirstAdvertised(anchors);
    }
  }

  lemma {:induction false} NoLinkExactly(anchors: seq<Anchor>)
    ensures FirstWatermarkFree(anchors) == NoLink <==> forall i :: 0 <= i < |anchors| ==> !Advertises(anchors[i])
    decreases |anchors|
  {
    if anchors != [] && !Advertises(anchors[0]) {
      NoLinkExactly(anchors[1..]);
      assert forall i :: 0 < i < |anchors| ==> anchors[i] == anchors[1..][i - 1];
    }
  }

  lemma {:induction false} FirstAdvertised(anchors: seq<Anchor>) returns (i: nat)
    requires FirstWatermarkFree(anchors) != NoLink
    ensures i < |anchors| && Advertises(anchors[i])
    ensures forall j :: 0 <= j < i ==> !Advertises(anchors[j])
    ensures FirstWatermarkFree(anchors) == HrefOf(anchors[i])
    decreases |anchors|
  {
    if Advertises(anchors[0]) {
      i := 0;
    } else {
      var k := FirstAdvertised(anchors[1..]);
      i := k + 1;
      NoneShift(anchors, Advertises, k);
    }
  }

  /** Skipping one element that fails `p` shifts a `p`-free prefix by one. */
  lemma NoneShift<T>(s: seq<T>, p: T -> bool, k: nat)
    requires k < |s| - 1 && !p(s[0])
    requires forall j :: 0 <= j < k ==> !p(s[1..][j])
    ensures s[k + 1] == s[1..][k]
    ensures forall j :: 0 <= j < k + 1 ==> !p(s[j])
  {
    forall j | 0 < j < k + 1
      ensures !p(s[j])
    {
      assert s[j] == s[1..][j - 1];
    }
  }

  /** `lower()` works character by character, so it distributes over concatenation. */
  lemma LowerAppend(a: string, b: string)
    ensures Lower(a + b) == Lower(a) + Lower(b)
  {
    var l, r := Lower(a + b), Lower(a) + Lower(b);
    forall i | 0 <= i < |l| ensures l[i] == r[i] {
      if i < |a| {
        assert (a + b)[i] == a[i];
      } else {
        assert (a + b)[i] == b[i - |a|];
      }
    }
  }

  /**
   * The phrase is found in any capitalisation, anywhere in the anchor text:
   * every spelling `w` that lowers to "without watermark" advertises.
   */
  lemma CapitalisedPhraseAdvertises(before: string, w: string, after: string, href: Option<string>)
    requires Lower(w) == Phrase
    ensures Advertises(Anchor(before + w + after, href))
  {
    var t := before + w + after;
    LowerAppend(before + w, after);
    LowerAppend(before, w);
    var low := Lower(before) + Phrase + Lower(after);
    assert Lower(t) == low;
    assert low[|Lower(before)|..][..|Phrase|] == Phrase;
    assert OccursAt(low, Phrase, |Lower(before)|);
  }

  /** "Without Watermark", as the ssstik page spells it, lowers to the phrase. */
  lemma TitleCasePhrase()
    ensures Lower("Without Watermark") == Phrase
  {
  }

  // ---------------------------------------------------------------------
  // The three strategies
  // ---------------------------------------------------------------------

  /** Strategy 1 (app.py:216-235): ssstik's page, read only on status 200. */
  function FirstStrategy(reply: Reply<seq<Anchor>>): (step: Step)
    ensures step.Abort? <==> reply.Raised? || (reply.status == 200 && FirstWatermarkFree(reply.body) == MissingHref)
    ensures step.Return? <==> reply.Replied? && reply.status == 200 && FirstWatermarkFree(reply.body).Found?
    ensures step.Return? ==> step.url == JString(FirstWatermarkFree(reply.body).href)
  {
    match reply
    case Raised => Abort
    case Replied(status, anchors) =>
      if status != 200 then Next
      else
        match FirstWatermarkFree(anchors)
        case NoLink => Next
        case Found(h) => Return(JString(h))
        case MissingHref => Abort
  }

  /**
   * The `videoUrl` lookup of app.py:248-249 for any decoded body:
   * on an object it looks up the key; on a list or a string the membership
   * test works but, when it holds, the string index raises; on a number, a
   * boolean or null the membership test itself raises.
   */
  function LookupVideoUrl(data: Json): (step: Step)
    ensures data.JObject? ==> (step.Return? <==> "videoUrl" in data.fields)
    ensures data.JObject? && "videoUrl" in data.fields ==> step == Return(data.fields["videoUrl"])
    ensures data.JObject? && "videoUrl" !in data.fields ==> step == Next
    ensures !data.JObject? ==> !step.Return?
    ensures data.JArray? ==> (step.Abort? <==> JString("videoUrl") in data.items)
    ensures data.JString? ==> (step.Abort? <==> Contains(data.s, "videoUrl"))
    ensures data.JNumber? || data.JBool? || data.JNull? ==> step.Abort?
  {
    match data
    case JObject(fields) => if "videoUrl" in fields then Return(fields["videoUrl"]) else Next
    case JArray(items) => if JString("videoUrl") in items then Abort else Next
    case JString(s) => if Contains(s, "videoUrl") then Abort else Next
    case _ => Abort
  }

  /**
   * Strategy 2 (app.py:238-249): tikmate's JSON, read only on status 200;
   * a body that is not JSON (`None`) makes `response.json()` raise.
   */
  function SecondStrategy(reply: Reply<Option<Json>>): (step: Step)
    ensures reply.Raised? ==> step.Abort?
    ensures reply.Replied? && reply.status != 200 ==> step.Next?
    ensures reply.Replied? && reply.status == 200 && reply.body.None? ==> step.Abort?
    ensures reply.Replied? && reply.status == 200 && reply.body.Some? ==> step == LookupVideoUrl(reply.body.value)
  {
    match reply
    case Raised => Abort
    case Replied(status, body) =>
      if status != 200 then Next
      else
        match body
        case None => Abort
        case Some(data) => LookupVideoUrl(data)
  }

  const TemplateHead := "https://api16-normal-c-useast1a.tiktokv.com/aweme/v1/play/?video_id="
  /**
   * The text after the id. Its leading `&`, which ends the id's digits, is
   * written as a literal of its own so that proofs can name that first
   * character: the verifier does not index into a literal this long.
   */
  const TemplateTail := "&" + "line=0&is_play_url=1&source=PackSourceEnum_FEED"

  /** Strategy 3 (app.py:253): the download URL built from the video id. */
  function FallbackUrl(videoId: string): (u: string)
    ensures TemplateHead <= u && |u| == |TemplateHead| + |videoId| + |TemplateTail|
    ensures u[|TemplateHead|..|TemplateHead| + |videoId|] == videoId
    ensures u[|TemplateHead| + |videoId|..] == TemplateTail
  {
    TemplateHead + videoId + TemplateTail
  }

  /**
   * The fallback URL carries exactly the video id: it sits right after
   * `video_id=`, and for a digit id the run of digits there is the id and
   * nothing more.
   */
  lemma FallbackUrlCarriesId(videoId: string)
    requires AllDigits(videoId)
    ensures TemplateHead <= FallbackUrl(videoId)
    ensures FallbackUrl(videoId)[|TemplateHead|..|TemplateHead| + |videoId|] == videoId
    ensures DigitRun(FallbackUrl(videoId)[|TemplateHead|..]) == |videoId|
  {
    var u := FallbackUrl(videoId);
    var t := u[|TemplateHead|..];
    assert t == videoId + TemplateTail;
    assert t[..|videoId|] == videoId;
    assert TemplateTail[0] == '&';
    assert t[|videoId|] == TemplateTail[0];
    assert forall j :: 0 <= j < |videoId| ==> IsDigit(t[j]) by {
      forall j | 0 <= j < |videoId| ensures IsDigit(t[j]) { assert t[j] == videoId[j]; }
    }
    var n := DigitRun(t);
    assert forall j :: 0 <= j < n ==> t[..n][j] == t[j];
  }

  /** Different ids give different fallback URLs. */
  lemma FallbackUrlInjective(a: string, b: string)
    requires FallbackUrl(a) == FallbackUrl(b)
    ensures a == b
  {
    var h, t := |TemplateHead|, |TemplateTail|;
    assert |a| == |b|;
    assert a == FallbackUrl(a)[h..h + |a|];
    assert b == FallbackUrl(b)[h..h + |b|];
  }

  // ---------------------------------------------------------------------
  // The chain
  // ---------------------------------------------------------------------

  /**
   * `get_no_watermark_url(url, video_id)`, from the two service outcomes
   * (`url` only feeds those requests). `None` is the `except` of app.py:255.
   */
  function NoWatermarkUrl(videoId: string, first: Reply<seq<Anchor>>, second: Reply<Option<Json>>): (r: Option<Json>)
    ensures r.Some? ==>
      || FirstStrategy(first) == Return(r.value)
      || (FirstStrategy(first).Next? && SecondStrategy(second) == Return(r.value))
      || (FirstStrategy(first).Next? && SecondStrategy(second).Next? && r.value == JString(FallbackUrl(videoId)))
  {
    match FirstStrategy(first)
    case Abort => None
    case Return(u) => Some(u)
    case Next =>
      match SecondStrategy(second)
      case Abort => None
      case Return(u) => Some(u)
      case Next => Some(JString(FallbackUrl(videoId)))
  }

  /** A watermark-free link from strategy 1 wins, whatever strategy 2 would have said. */
  lemma FirstStrategyWins(videoId: string, anchors: seq<Anchor>, second: Reply<Option<Json>>, h: string)
    requires FirstWatermarkFree(anchors) == Found(h)
    ensures NoWatermarkUrl(videoId, Replied(200, anchors), second) == Some(JString(h))
  {
  }

  /** When strategy 1 falls through, tikmate's `videoUrl` is next. */
  lemma SecondStrategyNext(videoId: string, first: Reply<seq<Anchor>>, fields: JsonObject)
    requires FirstStrategy(first).Next?
    requires "videoUrl" in fields
    ensures NoWatermarkUrl(videoId, first, Replied(200, Some(JObject(fields)))) == Some(fields["videoUrl"])
  {
  }

  /** When both services fall through, the template is used. */
  lemma TemplateLast(videoId: string, first: Reply<seq<Anchor>>, second: Reply<Option<Json>>)
    requires FirstStrategy(first).Next? && SecondStrategy(second).Next?
    ensures NoWatermarkUrl(videoId, first, second) == Some(JString(FallbackUrl(videoId)))
    ensures Truthy(JString(FallbackUrl(videoId)))
  {
    assert |FallbackUrl(videoId)| >= |TemplateHead| > 0;
  }

  /**
   * The chain fails exactly when a strategy raises before one has
   * returned; a raise in strategy 1 skips strategies 2 and 3.
   */
  lemma NoWatermarkUrlFailsExactly(videoId: string, first: Reply<seq<Anchor>>, second: Reply<Option<Json>>)
    ensures NoWatermarkUrl(videoId, first, second).None? <==>
      FirstStrategy(first).Abort? || (FirstStrategy(first).Next? && SecondStrategy(second).Abort?)
    ensures first.Raised? ==> NoWatermarkUrl(videoId, first, second).None?
  {
  }

  /** Strategy 1 that never returns and never raises leaves the choice to strategy 2 or the template. */
  lemma NoAdvertisedAnchorFallsThrough(videoId: string, anchors: seq<Anchor>, second: Reply<Option<Json>>)
    requires forall i :: 0 <= i < |anchors| ==> !Advertises(anchors[i])
    ensures NoWatermarkUrl(videoId, Replied(200, anchors), second) == NoWatermarkUrl(videoId, Replied(404, []), second)
  {
    FirstWatermarkFreeIsFirst(anchors);
  }
}
