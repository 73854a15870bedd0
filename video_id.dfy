/**
 * Video-id extraction of `extract_video_data_real` (app.py:133-141):
 *
 *   when the URL contains `/video/`, search it for `/video/` followed by
 *   one or more digits and take those digits.
 *
 * `re.search` takes the LEFTMOST position where `/video/` is followed by a
 * digit (an earlier `/video/` followed by something else is passed over),
 * and the greedy `\d+` takes the whole run of digits there.
 */
module VideoId {
  import opened Wrappers
  import opened Text

  const Marker := "/video/"

  /** `/video/` followed by a digit starts at index `i`. */
  predicate IdStartsAt(url: string, i: nat) {
    OccursAt(url, Marker, i) && i + |Marker| < |url| && IsDigit(url[i + |Marker|])
  }

  /** `id` is the whole run of digits after the `/video/` at `i`. */
  ghost predicate IdAt(url: string, i: nat, id: string) {
    && IdStartsAt(url, i)
    && id != [] && AllDigits(id)
    && i + |Marker| + |id| <= |url|
    && url[i + |Marker|..i + |Marker| + |id|] == id
    && (i + |Marker| + |id| == |url| || !IsDigit(url[i + |Marker| + |id|]))
  }

  /** The leftmost match position at or after `from`. */
  function SearchFrom(url: string, from: nat): (r: Option<nat>)
    ensures r.Some? ==> from <= r.value && IdStartsAt(url, r.value)
    ensures r.Some? ==> forall j: nat :: from <= j < r.value ==> !IdStartsAt(url, j)
    ensures r.None? ==> forall j: nat :: from <= j ==> !IdStartsAt(url, j)
    decreases |url| - from
  {
    if from + |Marker| >= |url| then None
    else if IdStartsAt(url, from) then Some(from)
    else SearchFrom(url, from + 1)
  }

  /** The digits after the `/video/` at `i`. */
  function DigitsAfter(url: string, i: nat): (id: string)
    requires IdStartsAt(url, i)
    ensures IdAt(url, i, id)
  {
    var start := i + |Marker|;
    var n := DigitRun(url[start..]);
    assert url[start..][0] == url[start];
    assert url[start..][..n] == url[start..start + n];
    url[start..start + n]
  }

  /**
   * The video id, when some `/video/<digits>` occurs: the non-empty digit
   * run of the leftmost such occurrence. `None` exactly when there is none.
   */
  function ExtractVideoId(url: string): (r: Option<string>)
    ensures r.Some? ==> exists i: nat :: IdAt(url, i, r.value) && forall j: nat :: j < i ==> !IdStartsAt(url, j)
    ensures r.None? <==> forall i: nat :: !IdStartsAt(url, i)
  {
    if !Contains(url, Marker) then None
    else
      match SearchFrom(url, 0)
      case None => None
      case Some(i) => Some(DigitsAfter(url, i))
  }
}
