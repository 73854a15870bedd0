/**
 * The metadata read from the selected JSON-LD block in
 * `extract_video_data_real` (app.py:159-183): title, author name, cover
 * image and duration, each with its default. The values are not checked
 * for type, so they stay JSON values; the attribute and index errors the
 * lines can raise are modelled as `None` (they are caught at app.py:208
 * and end the extraction).
 */
module Metadata {
  import opened Wrappers
  import opened Text
  import opened JsonValues
  import Duration

  const DefaultTitle := JString("TikTok Video")
  const DefaultAuthor := JString("TikTok User")
  const DefaultCover := JString("")

  datatype VideoMetadata = VideoMetadata(title: Json, author: Json, cover: Json, duration: int)

  /** The four initial values of app.py:160-163. */
  const Defaults := VideoMetadata(DefaultTitle, DefaultAuthor, DefaultCover, Duration.DefaultSeconds)

  /** Python's `dict.get(key, default)`. */
  function Get(obj: JsonObject, key: string, default: Json): (v: Json)
    ensures key in obj ==> v == obj[key]
    ensures key !in obj ==> v == default
  {
    if key in obj then obj[key] else default
  }

  /** The title: the block's `name`, or the default title. */
  function Title(obj: JsonObject): (title: Json)
    ensures "name" in obj ==> title == obj["name"]
    ensures "name" !in obj ==> title == DefaultTitle
  {
    Get(obj, "name", DefaultTitle)
  }

  /**
   * The author: the `name` inside the block's `author` object, or the
   * default author when either is missing. Only a missing author
   * or an author object has `.get`; any other value raises.
   */
  function AuthorName(obj: JsonObject): (author: Option<Json>)
    ensures "author" !in obj ==> author == Some(DefaultAuthor)
    ensures "author" in obj ==> (author.Some? <==> obj["author"].JObject?)
    ensures "author" in obj && obj["author"].JObject? && "name" in obj["author"].fields ==>
      author == Some(obj["author"].fields["name"])
    ensures author.Some? && "author" in obj && "name" !in obj["author"].fields ==> author == Some(DefaultAuthor)
  {
    match Get(obj, "author", JObject(map[]))
    case JObject(fields) => Some(Get(fields, "name", DefaultAuthor))
    case _ => None
  }

  /**
   * app.py:168: a list-valued `thumbnailUrl` gives its first element (an
   * empty list raises `IndexError`); any other value is the cover itself;
   * without the key the cover is "".
   */
  function Cover(obj: JsonObject): (cover: Option<Json>)
    ensures "thumbnailUrl" !in obj ==> cover == Some(DefaultCover)
    ensures "thumbnailUrl" in obj && !obj["thumbnailUrl"].JArray? ==> cover == Some(obj["thumbnailUrl"])
    ensures "thumbnailUrl" in obj && obj["thumbnailUrl"].JArray? ==>
      (cover.None? <==> obj["thumbnailUrl"].items == [])
    ensures "thumbnailUrl" in obj && obj["thumbnailUrl"].JArray? && obj["thumbnailUrl"].items != [] ==>
      cover == Some(obj["thumbnailUrl"].items[0])
  {
    match Get(obj, "thumbnailUrl", DefaultCover)
    case JArray(items) => if items == [] then None else Some(items[0])
    case other => Some(other)
  }

  /**
   * app.py:170-183 for any value of `duration`: `'PT' in iso_duration` is a
   * substring test on a string, a membership test on a list (of the string
   * "PT") or on an object (its keys), and raises on a number, a boolean or
   * null. When it holds for a list or object, `.replace` raises.
   */
  function DurationOf(obj: JsonObject): (duration: Option<int>)
    ensures "duration" !in obj ==> duration == Some(Duration.DefaultSeconds)
    ensures "duration" in obj && obj["duration"].JString? ==> duration == Duration.IsoSeconds(obj["duration"].s)
    ensures "duration" in obj && (obj["duration"].JNumber? || obj["duration"].JBool? || obj["duration"].JNull?) ==>
      duration.None?
    ensures "duration" in obj && obj["duration"].JArray? ==>
      duration == (if JString("PT") in obj["duration"].items then None else Some(Duration.DefaultSeconds))
    ensures "duration" in obj && obj["duration"].JObject? ==>
      duration == (if "PT" in obj["duration"].fields then None else Some(Duration.DefaultSeconds))
  {
    if "duration" !in obj then Some(Duration.DefaultSeconds)
    else
      match obj["duration"]
      case JString(iso) => Duration.IsoSeconds(iso)
      case JArray(items) => if JString("PT") in items then None else Some(Duration.DefaultSeconds)
      case JObject(fields) => if "PT" in fields then None else Some(Duration.DefaultSeconds)
      case _ => None
  }

  /** The metadata lines 159-183 leave behind, or `None` when one of them raises. */
  function ReadMetadata(jsonLd: Option<JsonObject>): (md: Option<VideoMetadata>)
    ensures jsonLd.None? ==> md == Some(Defaults)
    ensures jsonLd.Some? ==>
      (md.Some? <==> AuthorName(jsonLd.value).Some? && Cover(jsonLd.value).Some? && DurationOf(jsonLd.value).Some?)
    ensures jsonLd.Some? && md.Some? ==>
      md.value == VideoMetadata(Title(jsonLd.value), AuthorName(jsonLd.value).value,
                                Cover(jsonLd.value).value, DurationOf(jsonLd.value).value)
  {
    match jsonLd
    case None => Some(Defaults)
    case Some(obj) =>
      match AuthorName(obj)
      case None => None
      case Some(author) =>
        match Cover(obj)
        case None => None
        case Some(cover) =>
          match DurationOf(obj)
          case None => None
          case Some(duration) => Some(VideoMetadata(Title(obj), author, cover, duration))
  }

  // ---------------------------------------------------------------------
  // Properties
  // ---------------------------------------------------------------------

  /** A block without any of the four keys leaves every default in place. */
  lemma MissingKeysKeepDefaults(obj: JsonObject)
    requires "name" !in obj && "author" !in obj && "thumbnailUrl" !in obj && "duration" !in obj
    ensures ReadMetadata(Some(obj)) == Some(Defaults)
  {
  }

  /** An empty `thumbnailUrl` list raises, whatever else the block holds. */
  lemma EmptyThumbnailListFails(obj: JsonObject)
    requires "thumbnailUrl" in obj && obj["thumbnailUrl"] == JArray([])
    ensures ReadMetadata(Some(obj)) == None
  {
  }

  /** A non-object author (a string, say) raises, whatever else the block holds. */
  lemma NonObjectAuthorFails(obj: JsonObject)
    requires "author" in obj && !obj["author"].JObject?
    ensures ReadMetadata(Some(obj)) == None
  {
  }

  /** Reading succeeds exactly when none of the three risky lines raises. */
  lemma ReadMetadataFailsExactly(obj: JsonObject)
    ensures ReadMetadata(Some(obj)).None? <==>
      ("author" in obj && !obj["author"].JObject?)
      || ("thumbnailUrl" in obj && obj["thumbnailUrl"] == JArray([]))
      || DurationOf(obj).None?
  {
    if "thumbnailUrl" in obj && obj["thumbnailUrl"].JArray? {
      assert Cover(obj).None? <==> obj["thumbnailUrl"] == JArray([]);
    }
  }

  /** A block whose `duration` is "PT1M30S" reads a duration of 90 seconds. */
  lemma DurationOfExample(obj: JsonObject)
    requires "duration" in obj && obj["duration"] == JString("PT1M30S")
    ensures DurationOf(obj) == Some(90)
  {
    Duration.ExampleMinutesAndSeconds();
  }

  /** A `duration` with hours raises, so the whole read fails. */
  lemma HoursDurationFails(obj: JsonObject)
    requires "duration" in obj && obj["duration"] == JString("PT1H2M")
    ensures ReadMetadata(Some(obj)) == None
  {
    Duration.ExampleHours();
  }
}
