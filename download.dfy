/**
 * The `/api/download` endpoint (app.py:62-104) and the extraction it calls,
 * `extract_video_data_real` (app.py:116-210), as a decision function from
 * the outcomes of the outbound requests to the response.
 *
 * The requests are not modelled; their outcomes are the fields of
 * `Network`: the redirect target of the short link (`None` when resolution
 * raised), the page's decoded JSON-LD payloads (`None` when the page request
 * raised, including on an error status), and the replies of the two
 * services of the watermark-free chain.
 */
module Download {
  import opened Wrappers
  import opened JsonValues
  import opened Watermark
  import UrlShape
  import ShortLink
  import VideoId
  import JsonLd
  import Metadata

  /** The body of a successful response (`DownloadResponse`, without `audio_url`). */
  datatype VideoData = VideoData(videoUrl: Json, author: Json, title: Json, cover: Json, duration: int, downloadUrl: Json)

  /** The endpoint's answer: the video data, or an error with status, code and message. */
  datatype Response = Ok(data: VideoData) | Error(status: int, error: string, message: string)

  const InvalidUrl := Error(400, "invalid_url", "Invalid TikTok URL format")
  const VideoNotFound := Error(404, "video_not_found", "Video not found or is private")
  const ServerError := Error(500, "server_error", "Failed to process the video")

  /** What the outbound requests of one call return. */
  datatype Network = Network(
    redirect: Option<string>,
    page: Option<seq<JsonLd.Payload>>,
    first: Reply<seq<Anchor>>,
    second: Reply<Option<Json>>)

  /**
   * `extract_video_data_real(url)`: `None` when the page request raises,
   * when the URL has no video id, when reading the metadata raises, or when
   * the watermark-free chain gives nothing usable; otherwise the response
   * body, whose video and download URLs are the same truthy value.
   */
  function ExtractVideoData(url: string, net: Network): (r: Option<VideoData>)
    ensures net.page.None? ==> r.None?
    ensures VideoId.ExtractVideoId(url).None? ==> r.None?
    ensures r.Some? ==> r.value.videoUrl == r.value.downloadUrl && Truthy(r.value.videoUrl)
    ensures r.Some? ==>
      var md := Metadata.ReadMetadata(JsonLd.FirstVideoObject(net.page.value));
      && md.Some?
      && r.value.title == md.value.title && r.value.author == md.value.author
      && r.value.cover == md.value.cover && r.value.duration == md.value.duration
    ensures r.Some? ==> NoWatermarkUrl(VideoId.ExtractVideoId(url).value, net.first, net.second) == Some(r.value.videoUrl)
    ensures
      && net.page.Some?
      && VideoId.ExtractVideoId(url).Some?
      && Metadata.ReadMetadata(JsonLd.FirstVideoObject(net.page.value)).Some?
      && NoWatermarkUrl(VideoId.ExtractVideoId(url).value, net.first, net.second).Some?
      && Truthy(NoWatermarkUrl(VideoId.ExtractVideoId(url).value, net.first, net.second).value)
      ==>
      var md := Metadata.ReadMetadata(JsonLd.FirstVideoObject(net.page.value)).value;
      var u := NoWatermarkUrl(VideoId.ExtractVideoId(url).value, net.first, net.second).value;
      r == Some(VideoData(u, md.author, md.title, md.cover, md.duration, u))
  {
    match net.page
    case None => None
    case Some(payloads) =>
      match VideoId.ExtractVideoId(url)
      case None => None
      case Some(videoId) =>
        match Metadata.ReadMetadata(JsonLd.FirstVideoObject(payloads))
        case None => None
        case Some(md) =>
          match NoWatermarkUrl(videoId, net.first, net.second)
          case None => None
          case Some(u) =>
            if !Truthy(u) then None
            else Some(VideoData(u, md.author, md.title, md.cover, md.duration, u))
  }

  /**
   * `download_video`: a URL of the wrong shape is refused with 400 before
   * any request; otherwise the (resolved) URL is extracted, and nothing
   * extracted is a 404. No stage lets an exception escape, so the 500 of
   * app.py:99-104 is never produced.
   */
  function DownloadVideo(url: string, net: Network): (r: Response)
    ensures !UrlShape.Accepts(url) <==> r == InvalidUrl
    ensures r == InvalidUrl || r == VideoNotFound || r.Ok?
    ensures r != ServerError
    ensures r.Ok? ==> r.data.videoUrl == r.data.downloadUrl && Truthy(r.data.videoUrl)
    ensures r.Ok? ==> ExtractVideoData(ShortLink.TargetUrl(url, net.redirect), net) == Some(r.data)
    ensures UrlShape.Accepts(url) ==>
      (r == VideoNotFound <==> ExtractVideoData(ShortLink.TargetUrl(url, net.redirect), net).None?)
    ensures UrlShape.Accepts(url) && ExtractVideoData(ShortLink.TargetUrl(url, net.redirect), net).Some? ==>
      r == Ok(ExtractVideoData(ShortLink.TargetUrl(url, net.redirect), net).value)
  {
    if !UrlShape.Accepts(url) then InvalidUrl
    else
      match ExtractVideoData(ShortLink.TargetUrl(url, net.redirect), net)
      case None => VideoNotFound
      case Some(data) => Ok(data)
  }

  // ---------------------------------------------------------------------
  // Properties
  // ---------------------------------------------------------------------

  /** A URL of the wrong shape gets 400 whatever the network would have said: no request is made. */
  lemma InvalidUrlRejectedEarly(url: string, net: Network, other: Network)
    requires !UrlShape.Accepts(url)
    ensures DownloadVideo(url, net) == InvalidUrl
    ensures DownloadVideo(url, net) == DownloadVideo(url, other)
  {
  }

  /** Only a URL containing `vm.tiktok.com` consults the redirect. */
  lemma RedirectOnlyForShortLinks(url: string, net: Network)
    requires !ShortLink.IsShortened(url)
    ensures DownloadVideo(url, net) == DownloadVideo(url, net.(redirect := None))
  {
  }

  /**
   * A URL without `/video/<digits>` (after resolution) is not found, and
   * neither service is consulted.
   */
  lemma NoVideoIdNotFound(url: string, net: Network, first: Reply<seq<Anchor>>, second: Reply<Option<Json>>)
    requires UrlShape.Accepts(url)
    requires VideoId.ExtractVideoId(ShortLink.TargetUrl(url, net.redirect)).None?
    ensures DownloadVideo(url, net) == VideoNotFound
    ensures DownloadVideo(url, net) == DownloadVideo(url, net.(first := first, second := second))
  {
  }

  /** A failed page request ends as 404, not as a server error. */
  lemma FetchFailureNotFound(url: string, net: Network)
    requires UrlShape.Accepts(url) && net.page.None?
    ensures DownloadVideo(url, net) == VideoNotFound
  {
  }

  /** Metadata that raises (an empty `thumbnailUrl` list, say) ends as 404. */
  lemma BadMetadataNotFound(url: string, net: Network)
    requires UrlShape.Accepts(url) && net.page.Some?
    requires Metadata.ReadMetadata(JsonLd.FirstVideoObject(net.page.value)).None?
    ensures DownloadVideo(url, net) == VideoNotFound
  {
  }

  /**
   * End to end with strategy 1: an accepted URL with a video id, readable
   * metadata and a non-empty advertised link answers with that link as both
   * video and download URL.
   */
  lemma FirstStrategyEndToEnd(url: string, net: Network, anchors: seq<Anchor>, h: string)
    requires UrlShape.Accepts(url) && net.page.Some?
    requires VideoId.ExtractVideoId(ShortLink.TargetUrl(url, net.redirect)).Some?
    requires Metadata.ReadMetadata(JsonLd.FirstVideoObject(net.page.value)).Some?
    requires net.first == Replied(200, anchors) && FirstWatermarkFree(anchors) == Found(h) && h != []
    ensures DownloadVideo(url, net).Ok?
    ensures DownloadVideo(url, net).data.videoUrl == JString(h)
    ensures DownloadVideo(url, net).data.downloadUrl == JString(h)
  {
    var target := ShortLink.TargetUrl(url, net.redirect);
    var videoId := VideoId.ExtractVideoId(target).value;
    var md := Metadata.ReadMetadata(JsonLd.FirstVideoObject(net.page.value)).value;
    FirstStrategyWins(videoId, anchors, net.second, h);
    assert ExtractVideoData(target, net) == Some(VideoData(JString(h), md.author, md.title, md.cover, md.duration, JString(h)));
  }

  /**
   * End to end with strategy 2: when strategy 1 falls through, a non-empty
   * `videoUrl` string from tikmate is the answer's video and download URL.
   */
  lemma SecondStrategyEndToEnd(url: string, net: Network, fields: JsonObject, v: string)
    requires UrlShape.Accepts(url) && net.page.Some?
    requires VideoId.ExtractVideoId(ShortLink.TargetUrl(url, net.redirect)).Some?
    requires Metadata.ReadMetadata(JsonLd.FirstVideoObject(net.page.value)).Some?
    requires FirstStrategy(net.first).Next?
    requires net.second == Replied(200, Some(JObject(fields)))
    requires "videoUrl" in fields && fields["videoUrl"] == JString(v) && v != []
    ensures DownloadVideo(url, net).Ok?
    ensures DownloadVideo(url, net).data.videoUrl == JString(v)
    ensures DownloadVideo(url, net).data.downloadUrl == JString(v)
  {
    var target := ShortLink.TargetUrl(url, net.redirect);
    var videoId := VideoId.ExtractVideoId(target).value;
    var md := Metadata.ReadMetadata(JsonLd.FirstVideoObject(net.page.value)).value;
    SecondStrategyNext(videoId, net.first, fields);
    assert ExtractVideoData(target, net) == Some(VideoData(JString(v), md.author, md.title, md.cover, md.duration, JString(v)));
  }

  /** An empty advertised link is returned by the chain but is falsy, so the answer is 404. */
  lemma EmptyLinkNotFound(url: string, net: Network, anchors: seq<Anchor>)
    requires UrlShape.Accepts(url)
    requires net.first == Replied(200, anchors) && FirstWatermarkFree(anchors) == Found([])
    ensures DownloadVideo(url, net) == VideoNotFound
  {
  }

  /**
   * When both services fall through, the template guarantees an answer:
   * the response carries the fallback URL built from the video id.
   */
  lemma FallbackAnswers(url: string, net: Network)
    requires UrlShape.Accepts(url) && net.page.Some?
    requires VideoId.ExtractVideoId(ShortLink.TargetUrl(url, net.redirect)).Some?
    requires Metadata.ReadMetadata(JsonLd.FirstVideoObject(net.page.value)).Some?
    requires FirstStrategy(net.first).Next? && SecondStrategy(net.second).Next?
    ensures DownloadVideo(url, net).Ok?
    ensures DownloadVideo(url, net).data.videoUrl
         == JString(FallbackUrl(VideoId.ExtractVideoId(ShortLink.TargetUrl(url, net.redirect)).value))
  {
    var target := ShortLink.TargetUrl(url, net.redirect);
    var videoId := VideoId.ExtractVideoId(target).value;
    var md := Metadata.ReadMetadata(JsonLd.FirstVideoObject(net.page.value)).value;
    var u := JString(FallbackUrl(videoId));
    TemplateLast(videoId, net.first, net.second);
    assert ExtractVideoData(target, net) == Some(VideoData(u, md.author, md.title, md.cover, md.duration, u));
  }

  /**
   * A strategy-1 request that raises ends the request as 404 even though
   * the template of strategy 3 would have answered: the single `try`
   * around the chain skips the remaining strategies.
   */
  lemma RaisingServiceNotFound(url: string, net: Network)
    requires UrlShape.Accepts(url) && net.first.Raised?
    ensures DownloadVideo(url, net) == VideoNotFound
  {
  }

  /** Without a VideoObject block every successful answer carries the default metadata. */
  lemma NoJsonLdDefaults(url: string, net: Network)
    requires DownloadVideo(url, net).Ok?
    requires JsonLd.FirstVideoObject(net.page.value).None?
    ensures DownloadVideo(url, net).data.title == Metadata.DefaultTitle
    ensures DownloadVideo(url, net).data.author == Metadata.DefaultAuthor
    ensures DownloadVideo(url, net).data.cover == Metadata.DefaultCover
    ensures DownloadVideo(url, net).data.duration == 30
  {
  }
}
