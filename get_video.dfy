/**
 * The `/get_video` route of the Flask scraper (main.py:17-26). The page
 * request is not modelled: its outcome is a parameter, `None` when
 * `requests.get` raised. Nothing catches that exception, so Flask answers
 * with its own internal-error page, modelled as `Crash`.
 */
module GetVideo {
  import opened Wrappers
  import PlayAddr
  import Text

  /** The route's answer. */
  datatype Answer =
    | VideoJson(videoUrl: string)
    | ErrorJson(status: int, error: string)
    | Crash

  const MissingUrl := ErrorJson(400, "URL do TikTok não fornecida")
  const NoLink := ErrorJson(500, "Não foi possível extrair o link")

  /**
   * `get_video()` for the query parameter `url` (`None` when absent) and the
   * page text. A missing or empty parameter is refused before the page is
   * requested; a link is answered only when it is non-empty.
   */
  function GetVideo(url: Option<string>, page: Option<string>): (a: Answer)
    ensures (url.None? || url == Some([])) <==> a == MissingUrl
    ensures a.VideoJson? ==> page.Some? && PlayAddr.ExtractVideoUrl(page.value) == Some(a.videoUrl) && a.videoUrl != []
    ensures a == NoLink <==>
      url.Some? && url.value != [] && page.Some?
      && (PlayAddr.ExtractVideoUrl(page.value).None? || PlayAddr.ExtractVideoUrl(page.value) == Some([]))
    ensures a == Crash <==> url.Some? && url.value != [] && page.None?
    ensures
      (&& url.Some? && url.value != [] && page.Some?
       && PlayAddr.ExtractVideoUrl(page.value).Some? && PlayAddr.ExtractVideoUrl(page.value).value != [])
      ==> a == VideoJson(PlayAddr.ExtractVideoUrl(page.value).value)
  {
    if url.None? || url.value == [] then MissingUrl
    else
      match page
      case None => Crash
      case Some(text) =>
        match PlayAddr.ExtractVideoUrl(text)
        case Some(link) => if link != [] then VideoJson(link) else NoLink
        case None => NoLink
  }

  /** A missing or empty `url` gets 400 whatever the page would have been: no request is made. */
  lemma MissingUrlBeforeFetch(url: Option<string>, page: Option<string>, other: Option<string>)
    requires url.None? || url == Some([])
    ensures GetVideo(url, page) == MissingUrl
    ensures GetVideo(url, page) == GetVideo(url, other)
  {
  }

  /** A page without any `playAddr` capture gets 500 with the error message. */
  lemma NoCaptureAnswers500(url: string, text: string)
    requires url != []
    requires forall i: nat, c: string :: !PlayAddr.CaptureAt(text, i, c)
    ensures GetVideo(Some(url), Some(text)) == NoLink
  {
  }

  /** A returned link is free of escaped slashes, quotes and newlines. */
  lemma AnsweredLinkIsClean(url: Option<string>, page: Option<string>)
    requires GetVideo(url, page).VideoJson?
    ensures !Text.Occurs(GetVideo(url, page).videoUrl, PlayAddr.EscapedSlash)
    ensures '"' !in GetVideo(url, page).videoUrl && '\n' !in GetVideo(url, page).videoUrl
  {
    PlayAddr.ExtractedLinkIsClean(page.value);
  }

  /** A page embedding an escaped link answers with the link itself. */
  lemma EmbeddedLinkAnswered(url: string, before: string, link: string, after: string)
    requires url != [] && link != []
    requires forall j: nat :: j < |before| ==> !Text.OccursAt(before + PlayAddr.Key + PlayAddr.Escape(link) + "\"" + after, PlayAddr.Key, j)
    requires '\\' !in link && '"' !in link && '\n' !in link
    ensures GetVideo(Some(url), Some(before + PlayAddr.Key + PlayAddr.Escape(link) + "\"" + after)) == VideoJson(link)
  {
    PlayAddr.EmbeddedLinkExtracted(before, link, after);
  }
}
