/**
 * `extract_video_url` of the Flask scraper (main.py:7-15): the page text is
 * searched for the key `"playAddr":"` followed by a lazy group and a
 * closing quote, and every `\u002F` (the JSON escape of `/`) in the captured group is
 * replaced by `/`. The page request is not modelled; its text is the input.
 *
 * The search tries start positions from the left. At a position holding
 * `"playAddr":"`, the lazy `.*?` (which never crosses a newline) extends to
 * the first `"` after the key, provided no newline comes first; otherwise
 * that position fails and the search moves on.
 */
module PlayAddr {
  import opened Wrappers
  import opened Text

  /** `"playAddr":"` */
  const Key := "\"playAddr\":\""
  /** The six characters `\u002F`. */
  const EscapedSlash := "\\u002F"

  /** `cap` is the group captured by a match starting at `i`. */
  ghost predicate CaptureAt(page: string, i: nat, cap: string) {
    && OccursAt(page, Key, i)
    && i + |Key| + |cap| < |page|
    && page[i + |Key|..i + |Key| + |cap|] == cap
    && page[i + |Key| + |cap|] == '"'
    && '"' !in cap && '\n' !in cap
  }

  predicate Stops(c: char) { c == '"' || c == '\n' }

  /** The first `"` or newline at or after `j`. */
  function StopFrom(page: string, j: nat): (k: Option<nat>)
    ensures k.Some? ==> j <= k.value < |page| && Stops(page[k.value])
    ensures k.Some? ==> forall m :: j <= m < k.value ==> !Stops(page[m])
    ensures k.None? ==> forall m :: j <= m < |page| ==> !Stops(page[m])
    decreases |page| - j
  {
    if j >= |page| then None
    else if Stops(page[j]) then Some(j)
    else StopFrom(page, j + 1)
  }

  /** The group of a match starting at `i`, when the match succeeds there. */
  function CaptureFrom(page: string, i: nat): (cap: Option<string>)
    requires OccursAt(page, Key, i)
    ensures cap.Some? ==> CaptureAt(page, i, cap.value)
  {
    var start := i + |Key|;
    match StopFrom(page, start)
    case None => None
    case Some(k) =>
      if page[k] == '"' then
        var c := page[start..k];
        assert forall m :: 0 <= m < |c| ==> c[m] == page[start + m];
        Some(c)
      else None
  }

  /** Any capture at `i` is the one `CaptureFrom` finds. */
  lemma CaptureFromComplete(page: string, i: nat, cap: string)
    requires CaptureAt(page, i, cap)
    ensures CaptureFrom(page, i) == Some(cap)
  {
    var start := i + |Key|;
    var end := start + |cap|;
    assert forall m :: start <= m < end ==> !Stops(page[m]) by {
      forall m | start <= m < end ensures !Stops(page[m]) {
        assert page[m] == cap[m - start];
      }
    }
    var k := StopFrom(page, start);
    assert k.Some? && k.value <= end;
    assert k.value >= end;
  }

  /** The lazy group is unique: at most one capture per start position. */
  lemma CaptureUnique(page: string, i: nat, a: string, b: string)
    requires CaptureAt(page, i, a) && CaptureAt(page, i, b)
    ensures a == b
  {
    CaptureFromComplete(page, i, a);
    CaptureFromComplete(page, i, b);
  }

  /** A match starts at `i`. */
  predicate MatchesAt(page: string, i: nat) {
    OccursAt(page, Key, i) && CaptureFrom(page, i).Some?
  }

  /** The leftmost match position at or after `from`. */
  function SearchFrom(page: string, from: nat): (r: Option<nat>)
    ensures r.Some? ==> from <= r.value && MatchesAt(page, r.value)
    ensures r.None? ==> forall j: nat :: from <= j ==> !MatchesAt(page, j)
    ensures r.Some? ==> forall j: nat :: from <= j < r.value ==> !MatchesAt(page, j)
    decreases |page| - from
  {
    if from + |Key| >= |page| then None
    else if MatchesAt(page, from) then Some(from)
    else SearchFrom(page, from + 1)
  }

  /**
   * `re.search(...).group(1)`: the group of the leftmost match, and `None`
   * exactly when the page holds no match.
   */
  function FindPlayAddr(page: string): (cap: Option<string>)
    ensures cap.Some? ==> exists i: nat ::
      (CaptureAt(page, i, cap.value) && forall j: nat, c: string :: j < i ==> !CaptureAt(page, j, c))
    ensures cap.None? <==> forall i: nat, c: string :: !CaptureAt(page, i, c)
  {
    match SearchFrom(page, 0)
    case None =>
      assert forall i: nat, c: string :: !CaptureAt(page, i, c) by {
        forall i: nat, c: string | CaptureAt(page, i, c) ensures false {
          CaptureFromComplete(page, i, c);
          assert MatchesAt(page, i);
        }
      }
      None
    case Some(i) =>
      var c := CaptureFrom(page, i).value;
      assert forall j: nat, d: string :: j < i ==> !CaptureAt(page, j, d) by {
        forall j: nat, d: string | j < i && CaptureAt(page, j, d) ensures false {
          CaptureFromComplete(page, j, d);
          assert MatchesAt(page, j);
        }
      }
      Some(c)
  }

  /** The captured group with every `\u002F` turned back into `/`, or `None` without a match. */
  function ExtractVideoUrl(page: string): (link: Option<string>)
    ensures link.None? <==> FindPlayAddr(page).None?
  {
    match FindPlayAddr(page)
    case None => None
    case Some(cap) => Some(ReplaceAll(cap, EscapedSlash, "/"))
  }

  // ---------------------------------------------------------------------
  // Properties
  // ---------------------------------------------------------------------

  /**
   * The returned link holds no `\u002F`, no `"` and no newline (the group
   * stops at the first quote and never spans a line).
   */
  lemma ExtractedLinkIsClean(page: string)
    requires ExtractVideoUrl(page).Some?
    ensures !Occurs(ExtractVideoUrl(page).value, EscapedSlash)
    ensures '"' !in ExtractVideoUrl(page).value
    ensures '\n' !in ExtractVideoUrl(page).value
  {
    var cap := FindPlayAddr(page).value;
    assert '/' !in EscapedSlash;
    ReplaceAllRemovesPattern(cap, EscapedSlash, '/');
    assert '"' !in EscapedSlash && '\n' !in EscapedSlash;
    ReplaceAllKeepsCharAbsent(cap, EscapedSlash, "/", '"');
    ReplaceAllKeepsCharAbsent(cap, EscapedSlash, "/", '\n');
  }

  /** Replacing `\u002F` once more changes nothing. */
  lemma UnescapeIdempotent(page: string)
    requires ExtractVideoUrl(page).Some?
    ensures ReplaceAll(ExtractVideoUrl(page).value, EscapedSlash, "/") == ExtractVideoUrl(page).value
  {
    ExtractedLinkIsClean(page);
    ReplaceAllWithoutOccurrence(ExtractVideoUrl(page).value, EscapedSlash, "/");
  }

  /** How the page escapes a link: every `/` becomes `\u002F`. */
  function Escape(link: string): string {
    ReplaceAll(link, "/", EscapedSlash)
  }

  /** The replacement undoes the escaping of a link without backslashes. */
  lemma {:induction false} UnescapeEscape(link: string)
    requires '\\' !in link
    ensures ReplaceAll(Escape(link), EscapedSlash, "/") == link
    decreases |link|
  {
    if link != [] {
      var rest := link[1..];
      assert '\\' !in rest;
      UnescapeEscape(rest);
      if "/" <= link {
        assert link == "/" + rest;
        assert Escape(link) == EscapedSlash + Escape(rest);
        assert EscapedSlash <= Escape(link);
        assert (EscapedSlash + Escape(rest))[|EscapedSlash|..] == Escape(rest);
      } else {
        assert Escape(link) == [link[0]] + Escape(rest);
        assert Escape(link)[0] != EscapedSlash[0];
        assert (Escape(link))[1..] == Escape(rest);
        assert link == [link[0]] + rest;
      }
    }
  }

  /**
   * A page holding the escaped link in its first `playAddr` field (the key
   * occurs nowhere earlier) yields the link back.
   */
  lemma EmbeddedLinkExtracted(before: string, link: string, after: string)
    requires forall j: nat :: j < |before| ==> !OccursAt(before + Key + Escape(link) + "\"" + after, Key, j)
    requires '\\' !in link && '"' !in link && '\n' !in link
    ensures ExtractVideoUrl(before + Key + Escape(link) + "\"" + after) == Some(link)
  {
    var e := Escape(link);
    assert '"' !in EscapedSlash && '\n' !in EscapedSlash;
    ReplaceAllKeepsCharAbsent(link, "/", EscapedSlash, '"');
    ReplaceAllKeepsCharAbsent(link, "/", EscapedSlash, '\n');
    var page := before + Key + e + "\"" + after;
    var i := |before|;
    var start := i + |Key|;
    assert page[i..][..|Key|] == Key;
    assert page[start..start + |e|] == e;
    assert page[start + |e|] == '"';
    assert CaptureAt(page, i, e);
    assert forall j: nat, c: string :: j < i ==> !CaptureAt(page, j, c);
    var cap := FindPlayAddr(page).value;
    var k: nat :| CaptureAt(page, k, cap) && forall j: nat, c: string :: j < k ==> !CaptureAt(page, j, c);
    assert k == i;
    CaptureUnique(page, i, cap, e);
    UnescapeEscape(link);
  }
}
