# TikTok downloader: the decision rules, verified

This project models two small web services that turn a TikTok video URL into a
watermark-free download link. It proves properties of the model in Dafny.

- `app.py` is a FastAPI endpoint, `/api/download`. It works in these steps:
  - it validates the URL's shape;
  - it resolves `vm.tiktok.com` short links;
  - it fetches the video page and takes the video id from the URL;
  - it reads title, author, cover and ISO-8601 duration from the page's JSON-LD `VideoObject` block;
  - it gets a watermark-free URL from a chain of three strategies: the ssstik service, then the tikmate service, then a fixed URL template built from the video id.
- `main.py` is a Flask route, `/get_video`. It scrapes the `playAddr` field out of the page text and un-escapes `/`.

Neither service is modelled as network code. Every outbound request becomes an
input to pure decision functions:

- the redirect target of a short link (`None` when resolution raised);
- the page's decoded JSON-LD payloads (`None` for a payload that fails to parse or is not an object);
- the ssstik reply (raised, or a status and the `a.download` anchors);
- the tikmate reply (raised, or a status and the decoded JSON);
- the page text of the Flask route.

Exceptions that the source catches are modelled as `None`, or as an `Abort`
step in the watermark-free chain.

Where the source loops or reassigns variables step by step, the model has a
method with a loop or early returns. Each such method is proved equal to the
specification function the rest of the model uses:

- the JSON-LD scan, `JsonLd.SelectJsonLd`;
- the duration parser, `Duration.ParseDuration`;
- the anchor loop, `Watermark.FindWatermarkFree`.

Python's `in` on strings, `str.replace`, `str.split`, `int()` and `lower()` are
modelled in `Text`, with the lemmas the rules need.

Behaviours of the code worth knowing:

- A failed page request, including an error status from `raise_for_status`, is caught at app.py:208. It gives 404, not a server error.
- The three watermark-free strategies share one `try` (app.py:214/255). An exception in strategy 1 or 2 therefore ends the chain with `None`, and the request with 404. It does not fall through to the next strategy, and the template is never reached (`Download.RaisingServiceNotFound`).
- Every stage catches its own exceptions, so the 500 `server_error` branch of app.py:99-104 is unreachable (`Download.DownloadVideo` ensures `r != ServerError`).
- The shape validation is a prefix match: anything may follow an accepted URL.

## Model

| member | source | states |
|---|---|---|
| UrlShape.Accepts | app.py:75 | an accepted URL starts with `http://` or `https://` |
| UrlShape.AcceptsIffPrefixMatches | app.py:75 | the validator accepts exactly the URLs with a prefix in the pattern's language (anchored at the start only) |
| UrlShape.AcceptsExtension | app.py:75 | if `s` is accepted then `s + t` is accepted for every `t` |
| UrlShape.HandleRun | app.py:75 | the handle class `[\w.-]+` consumes a maximal run of handle characters |
| UrlShape.HandleRunEndsAt | app.py:75 | the run stops exactly at the first non-handle character |
| UrlShape.HandleAndVideoAheadSound | app.py:75 | the matcher's test for `tiktok.com/@handle/video/digits` finds a matching prefix |
| UrlShape.HandleAndVideoAheadComplete | app.py:75 | every matching prefix of that alternative is found by the matcher |
| UrlShape.BodyAheadSound | app.py:75 | the matcher's test for the part after the scheme finds a matching prefix |
| UrlShape.BodyAheadComplete | app.py:75 | every matching prefix of the part after the scheme is found by the matcher |
| ShortLink.IsShortened | app.py:82 | a URL is resolved exactly when `vm.tiktok.com` occurs anywhere in it |
| ShortLink.ResolveShortened | app.py:106-114 | resolution is total: the redirect target, or the input URL unchanged when the request raised |
| ShortLink.TargetUrl | app.py:82-83 | a URL without `vm.tiktok.com` is kept; a short link whose resolution succeeded becomes its redirect target, and one whose resolution failed is kept |
| ShortLink.ShortShapeIsResolved | app.py:75-83 | every URL accepted through the `vm.tiktok.com/<token>` alternative is sent to resolution |
| VideoId.SearchFrom | app.py:135 | the leftmost position at or after `from` where `/video/` is followed by a digit, or none |
| VideoId.DigitsAfter | app.py:135-137 | the group is the whole non-empty digit run after `/video/` |
| VideoId.ExtractVideoId | app.py:133-141 | the id is the maximal digit run of the leftmost `/video/<digits>`; `None` exactly when no such occurrence exists |
| JsonLd.IsVideoObject | app.py:152 | a block is selected when its `@type` entry is the string "VideoObject" |
| JsonLd.FirstVideoObject | app.py:148-157 | a selected block is a `VideoObject` |
| JsonLd.FirstVideoObjectIsFirst | app.py:148-157 | the selected block is the first payload that parses and is a `VideoObject`; `None` exactly when there is none |
| JsonLd.LaterPayloadsIgnored | app.py:153-154 | once a `VideoObject` is found, appending more blocks changes nothing (`break`) |
| JsonLd.SelectJsonLd | app.py:147-157 | the scan loop with `continue` and `break` returns the first `VideoObject` |
| Metadata.Get | app.py:166-168 | `dict.get`: the value when the key is present, the default otherwise |
| Metadata.Title | app.py:160-166 | the title is `name` when present, else "TikTok Video" |
| Metadata.AuthorName | app.py:161-167 | the author is "TikTok User" without `author`; the author object's `name` when present; a non-object author raises |
| Metadata.Cover | app.py:162-168 | a list gives its first element, an empty list raises, any other value is kept, a missing key gives "" |
| Metadata.DurationOf | app.py:163-183 | no `duration` key keeps 30; a string is converted; a number, boolean or null raises; a list holding "PT" or an object with a "PT" key raises at `replace`, and any other list or object keeps 30 |
| Metadata.ReadMetadata | app.py:159-183 | without a JSON-LD block all defaults hold; with one, the read fails exactly when author, cover or duration raises, and otherwise holds their values |
| Metadata.MissingKeysKeepDefaults | app.py:160-168 | a block with none of the four keys leaves every default |
| Metadata.EmptyThumbnailListFails | app.py:168 | an empty `thumbnailUrl` list makes the read fail |
| Metadata.NonObjectAuthorFails | app.py:167 | a non-object `author` makes the read fail |
| Metadata.ReadMetadataFailsExactly | app.py:159-183 | the read fails if and only if the author is not an object, the cover list is empty, or the duration raises |
| Metadata.DurationOfExample | app.py:170-183 | a block with duration "PT1M30S" gives 90 |
| Metadata.HoursDurationFails | app.py:170-183 | a block with duration "PT1H2M" makes the read fail |
| Duration.ParseDuration | app.py:170-183 | the step-by-step parser computes the specification `IsoSeconds` |
| Duration.LeadingPT | app.py:172-173 | after a single leading "PT", the rest is converted as it stands |
| Duration.SecondsPartOfDigits | app.py:180-182 | a seconds component `<b>S`, for any non-empty digit string `b`, reads back as the value of `b` |
| Duration.SplitAfterDigits | app.py:176-179 | a digit string `a`, then `M`, then a `rest` without `M` splits on `M` into exactly `a` and `rest` |
| Duration.MinutesSecondsOfPieces | app.py:176-183 | parsed minutes `m` and seconds `s` give `m * 60 + s` |
| Duration.MinutesSecondsOfDigits | app.py:176-183 | `<a>M<b>S` after "PT" is deleted converts to `a * 60 + b` for any non-empty digit strings |
| Duration.MinutesAndSeconds | app.py:172-183 | `PT<a>M<b>S` converts to `a * 60 + b` seconds for any non-empty digit strings `a` and `b`, leading zeros included |
| Duration.ParsedMinutesAndSeconds | app.py:172-183 | whenever `int()` reads `m` from `a` and `s` from `b`, `PT<a>M<b>S` converts to `m * 60 + s` |
| Duration.ShownMinutesAndSeconds | app.py:172-183 | `PT<m>M<s>S` written with `str(m)` and `str(s)` converts back to `m * 60 + s` for all `m`, `s` |
| Duration.SecondsOnly | app.py:172-183 | `PT<b>S` converts to `b` for any non-empty digit string: a missing minutes component counts as 0 |
| Duration.MinutesOnly | app.py:172-183 | `PT<a>M` converts to `a * 60` for any non-empty digit string: a missing seconds component counts as 0 |
| Duration.HoursRejected | app.py:176-178 | `PT<h>H<m>M`, for any digit strings `h` and `m`, raises, because the minutes text contains `H` and is not an integer |
| Duration.IsoSeconds | app.py:172-183 | a converted duration is never negative in this model, because `ParseInt` rejects signs (in the source "PT-1M" gives -60) |
| Duration.NoComponentsGiveZero | app.py:172-183 | a string with "PT" but without `M` and `S` gives 0, not the default |
| Duration.MinutesSeconds | app.py:174-183 | what the text left after deleting "PT" converts to: `minutes * 60 + seconds`, a missing component counting as 0, `None` when `int()` raises |
| Duration.SecondsPart | app.py:180-182 | the seconds: `int()` of the text before the first `S`, or 0 without an `S` |
| Duration.NoPTKeepsDefault | app.py:163-172 | every string without "PT" keeps the default of 30 |
| Duration.ExampleDays | app.py:163-172 | "P1D" has no "PT" and keeps 30 |
| Duration.ExampleMinutesAndSeconds | app.py:170-183 | "PT1M30S" is 90 |
| Duration.ExampleLeadingZeros | app.py:170-183 | "PT01M05S" is 65 |
| Duration.ExampleSecondsOnly | app.py:170-183 | "PT45S" is 45 |
| Duration.ExampleMinutesOnly | app.py:170-183 | "PT2M" is 120 |
| Duration.ExampleHours | app.py:170-183 | "PT1H2M" raises |
| Watermark.Advertises | app.py:234 | an anchor advertises when "without watermark" occurs in its lower-cased text |
| Watermark.HrefOf | app.py:235 | an advertised anchor gives its `href`, or the `KeyError` of a missing one |
| Watermark.FirstWatermarkFree | app.py:233-235 | the specification of the anchor loop: the `href` outcome of the first anchor that advertises, or no link (its properties are stated by `Watermark.FirstWatermarkFreeIsFirst`) |
| Watermark.FindWatermarkFree | app.py:233-235 | the anchor loop with early return computes `FirstWatermarkFree` |
| Watermark.FirstWatermarkFreeIsFirst | app.py:233-235 | the result comes from the first anchor whose lower-cased text contains "without watermark"; there is none exactly when no anchor advertises |
| Watermark.LowerAppend | app.py:234 | `lower()` distributes over concatenation |
| Watermark.CapitalisedPhraseAdvertises | app.py:234 | any spelling whose `lower()` is "without watermark", anywhere in the text, advertises |
| Watermark.TitleCasePhrase | app.py:234 | "Without Watermark" lowers to the phrase |
| Watermark.FirstStrategy | app.py:216-235 | strategy 1 raises exactly on a failed request or a missing `href`, and returns exactly on status 200 with an advertised link, which it returns |
| Watermark.LookupVideoUrl | app.py:247-249 | on an object the `videoUrl` value when present, and a fall-through to the template when absent; a list or string holding "videoUrl" raises; a number, boolean or null raises |
| Watermark.SecondStrategy | app.py:238-249 | strategy 2 raises on a failed request or a non-JSON body, falls through on another status, and otherwise looks up `videoUrl` |
| Watermark.FallbackUrl | app.py:253 | the template URL starts with the fixed prefix ending in `video_id=`, the id follows it, and the fixed tail comes after |
| Watermark.FallbackUrlCarriesId | app.py:253 | the template URL holds the video id right after `video_id=`, and the digit run there is exactly the id |
| Watermark.FallbackUrlInjective | app.py:253 | different ids give different template URLs |
| Watermark.NoWatermarkUrl | app.py:212-257 | a result comes from strategy 1, else from strategy 2 after strategy 1 fell through, else is the template after both fell through |
| Watermark.FirstStrategyWins | app.py:233-235 | a link from strategy 1 is returned whatever strategy 2 would say |
| Watermark.SecondStrategyNext | app.py:246-249 | when strategy 1 falls through, tikmate's `videoUrl` is returned |
| Watermark.TemplateLast | app.py:251-253 | when both services fall through, the template URL is returned |
| Watermark.NoWatermarkUrlFailsExactly | app.py:214-257 | the chain gives `None` exactly when a strategy raises before one returned; a raise in strategy 1 skips the rest |
| Watermark.NoAdvertisedAnchorFallsThrough | app.py:229-235 | a 200 page without an advertised anchor behaves like a non-200 reply |
| Download.ExtractVideoData | app.py:116-210 | `None` on a failed page request or without a video id; a result carries the metadata read and the chain's URL as both video and download URL, and that URL is truthy; conversely, a page, an id, readable metadata and a truthy chain URL give exactly that result |
| Download.DownloadVideo | app.py:62-104 | 400 exactly for a URL the validator refuses; for an accepted URL, 404 exactly when extraction gives nothing and otherwise the extracted data; never 500; a success has `video_url == download_url` |
| Download.InvalidUrlRejectedEarly | app.py:75-79 | a refused URL gets 400 whatever the network would return: no request is made |
| Download.RedirectOnlyForShortLinks | app.py:82-83 | the redirect is consulted only for URLs containing `vm.tiktok.com` |
| Download.NoVideoIdNotFound | app.py:133-141 | no video id gives 404, and neither watermark-free service is consulted |
| Download.FetchFailureNotFound | app.py:129-130 | a failed page request gives 404 |
| Download.BadMetadataNotFound | app.py:159-183 | metadata that raises gives 404 |
| Download.FirstStrategyEndToEnd | app.py:62-104 | a non-empty link from strategy 1 is the answer's video and download URL |
| Download.SecondStrategyEndToEnd | app.py:238-249 | when strategy 1 falls through, a non-empty tikmate `videoUrl` is the answer's video and download URL |
| JsonValues.Truthy | app.py:192 | Python truthiness of a JSON value: an empty string, list or object, zero, `false` and null are falsy |
| Download.EmptyLinkNotFound | app.py:192-194 | an empty link is falsy and gives 404 |
| Download.FallbackAnswers | app.py:197-253 | when both services fall through, the answer carries the template URL built from the video id |
| Download.RaisingServiceNotFound | app.py:214-257 | a raising strategy-1 request gives 404 although the template would have answered |
| Download.NoJsonLdDefaults | app.py:160-165 | without a `VideoObject` block a successful answer carries the default title, author, cover and 30 seconds |
| PlayAddr.StopFrom | main.py:12 | the first `"` or newline at or after a position, or none |
| PlayAddr.CaptureFrom | main.py:12 | a capture found at a position is a match of the lazy group there |
| PlayAddr.CaptureFromComplete | main.py:12 | every capture at a position is the one found there |
| PlayAddr.CaptureUnique | main.py:12 | the lazy group is unique per start position: it ends at the first `"` |
| PlayAddr.SearchFrom | main.py:12 | the leftmost match position at or after `from`, or none |
| PlayAddr.FindPlayAddr | main.py:12-13 | the group of the leftmost match; `None` exactly when the page holds no match |
| PlayAddr.ExtractVideoUrl | main.py:12-15 | `None` exactly when there is no match |
| PlayAddr.ExtractedLinkIsClean | main.py:12-14 | the returned link holds no `\u002F`, no `"` and no newline |
| PlayAddr.UnescapeIdempotent | main.py:14 | replacing `/` again changes nothing |
| PlayAddr.UnescapeEscape | main.py:14 | the replacement undoes the page's `/` escaping for a link without backslashes |
| PlayAddr.EmbeddedLinkExtracted | main.py:12-14 | a page holding an escaped link in its first `playAddr` field (the key occurs nowhere earlier) yields the link |
| GetVideo.GetVideo | main.py:17-26 | a missing or empty `url` gets exactly the 400; a non-empty extracted link is answered as `{"video_url": link}`, and only such a link; no or empty link gets exactly the 500; a raising page request escapes |
| GetVideo.MissingUrlBeforeFetch | main.py:19-21 | a missing or empty `url` gets 400 whatever the page would be: no request is made |
| GetVideo.NoCaptureAnswers500 | main.py:23-26 | a page without a `playAddr` capture gets the 500 error |
| GetVideo.AnsweredLinkIsClean | main.py:14-25 | an answered link holds no `\u002F`, no `"` and no newline |
| GetVideo.EmbeddedLinkAnswered | main.py:12-25 | a page embedding an escaped link in its first `playAddr` field is answered with the link itself |
| Text.DigitRun | app.py:135 | the greedy `\d+`: a maximal run of ASCII digits |
| Text.IndexOf | app.py:82 | the first occurrence of a substring; none exactly when it does not occur |
| Text.Contains | app.py:172 | Python's substring `in` holds exactly when the substring occurs |
| Text.ReplaceAll | main.py:14 | `str.replace` by a text no longer than the pattern never lengthens the string, and by a longer one never shortens it |
| Text.ReplaceAllWithoutOccurrence | main.py:14 | `str.replace` leaves a string without the pattern unchanged |
| Text.ReplaceAllRemovesPattern | main.py:14 | replacing a pattern by a character not in it leaves no occurrence |
| Text.ReplaceAllKeepsCharAbsent | main.py:14 | replacement adds no character that neither the input nor the replacement has |
| Text.Split | app.py:177-181 | `str.split` on one character: at least one piece, none holds the separator, joining them gives the input, two or more pieces exactly when the separator occurs |
| Text.SplitAtFirst | app.py:177-179 | the first piece ends at the first separator |
| Text.ParseInt | app.py:178 | `int()` succeeds exactly on a non-empty digit string |
| Text.LeadingZero | app.py:178 | `int("0" + t) == int(t)` for every non-empty digit string `t` |
| Text.ParseShowNat | app.py:178-182 | `int(str(n)) == n`, and `str(n)` is a non-empty digit string |
| Text.Lower | app.py:234 | ASCII `lower()` keeps the length and lowers each character |

## Left out

- HTTP I/O is not modelled: httpx and requests calls, redirects, timeouts, headers and the ssstik/tikmate form data. Each request's outcome is an input.
- HTML parsing (BeautifulSoup) and `json.loads` are not modelled. The page is given as its decoded JSON-LD payloads, the ssstik page as its `a.download` anchors, and tikmate's body as decoded JSON or `None` when it is not JSON.
- A JSON-LD payload that is not an object is modelled as `None`, like one that fails to parse. In the source it is never selected (app.py:152): for a list or a string `'@type' in data` is false, or holds and the string indexing raises; for a number, a boolean or null the `in` test itself raises `TypeError`; every raise skips the block.
- The `url` argument of `get_no_watermark_url` only feeds the two service requests, so `Watermark.NoWatermarkUrl` takes their replies instead.
- pydantic `HttpUrl` normalisation of the input (app.py:37, 71) is not modelled. The shape validation is applied to the URL as given.
- Validation of the response model is not modelled. A non-string title, author or cover (a JSON number, say) would make FastAPI itself answer 500. So would a truthy tikmate `videoUrl` that is not a string (a number, a list or an object): it becomes both `video_url` and `download_url`.
- The optional `audio_url` field is not modelled; it is never set.
- FastAPI/Flask routing, CORS, the generic exception handler, logging and the launchers are left out. They are framework glue.
- `async`/`await` is left out; nothing in this code runs concurrently.
- JSON numbers are integers; fractions are not modelled.
- Text.ParseInt: models `int()` only on non-empty ASCII digit strings. Surrounding whitespace, signs, underscores and non-ASCII digits, which `int()` accepts, are rejected.
- Duration.IsoSeconds: a signed or space-padded minutes or seconds component (as in "PT-1M" or "PT 5S") gives `None` here. The source converts it to a number, possibly negative ("PT-1M" gives -60). The model therefore promises a non-negative duration where the source does not.
- Text.Lower: lowers ASCII letters only. Unicode case mapping is not modelled.
- UrlShape.Accepts: `\w` and `\d` are taken as ASCII classes, not Python's Unicode classes.
- VideoId.ExtractVideoId: the `\d+` of the id pattern is ASCII here. A URL whose id uses non-ASCII digits gives `None` in the model and an id in the source.
- Text.DigitRun: counts ASCII digits only, where Python's `\d` also matches other Unicode decimal digits.
- GetVideo.GetVideo: an exception from `requests.get` is modelled only as a `Crash` answer, not as Flask's error page.
