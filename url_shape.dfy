/**
 * The URL shape validator of the download endpoint (app.py:75):
 *
 *   scheme `http://` or `https://`, then either `vm.tiktok.com/` with a
 *   non-empty alphanumeric token and an optional `/`, or `tiktok.com/@`
 *   (optionally after `www.`) with a non-empty handle of word characters,
 *   dots and dashes, `/video/` and at least one digit.
 *
 * `re.match` anchors the pattern at the start of the string only, so a URL
 * is accepted when SOME PREFIX of it is in the pattern's language. The
 * language is written out as `FullMatch`; the validator as the matcher decides
 * it is `Accepts`; `AcceptsIffPrefixMatches` proves the two agree.
 * `\w` and `\d` are taken in their ASCII sense.
 */
module UrlShape {
  import opened Text

  const ShortHost := "vm.tiktok.com/"
  const CanonicalHost := "tiktok.com/@"
  const WwwCanonicalHost := "www.tiktok.com/@"
  const VideoSegment := "/video/"

  /** The class `[\w.-]` of a profile handle. */
  predicate IsHandleChar(c: char) { IsWordChar(c) || c == '.' || c == '-' }

  predicate AllAlnum(s: string) { forall i :: 0 <= i < |s| ==> IsAlnum(s[i]) }
  predicate AllHandle(s: string) { forall i :: 0 <= i < |s| ==> IsHandleChar(s[i]) }

  /** Length of the run of handle characters at the start of `t` (what `[\w.-]+` consumes). */
  function HandleRun(t: string): (n: nat)
    ensures n <= |t| && AllHandle(t[..n])
    ensures n == |t| || !IsHandleChar(t[n])
    decreases |t|
  {
    if t == [] || !IsHandleChar(t[0]) then 0
    else
      var n := 1 + HandleRun(t[1..]);
      assert t[..n] == [t[0]] + t[1..][..n - 1];
      n
  }

  /** A run of handle characters ended by another character is exactly `HandleRun`. */
  lemma HandleRunEndsAt(t: string, i: nat)
    requires i < |t| && !IsHandleChar(t[i]) && AllHandle(t[..i])
    ensures HandleRun(t) == i
  {
    var n := HandleRun(t);
    assert forall j :: 0 <= j < i ==> IsHandleChar(t[j]) by {
      forall j | 0 <= j < i ensures IsHandleChar(t[j]) { assert t[..i][j] == t[j]; }
    }
    assert forall j :: 0 <= j < n ==> IsHandleChar(t[j]) by {
      forall j | 0 <= j < n ensures IsHandleChar(t[j]) { assert t[..n][j] == t[j]; }
    }
  }

  // ---------------------------------------------------------------------
  // The language of the pattern
  // ---------------------------------------------------------------------

  /** `[A-Za-z0-9]+/?` */
  ghost predicate ShortToken(t: string) {
    || (t != [] && AllAlnum(t))
    || (|t| >= 2 && t[|t| - 1] == '/' && AllAlnum(t[..|t| - 1]))
  }

  /** `/video/\d+` */
  ghost predicate VideoPath(u: string) {
    VideoSegment <= u && |u| > |VideoSegment| && AllDigits(u[|VideoSegment|..])
  }

  /** `[\w.-]+/video/\d+` */
  ghost predicate HandleAndVideo(t: string) {
    exists i :: 0 < i <= |t| && AllHandle(t[..i]) && VideoPath(t[i..])
  }

  /** Everything after the scheme. */
  ghost predicate Body(r: string) {
    || (ShortHost <= r && ShortToken(r[|ShortHost|..]))
    || (CanonicalHost <= r && HandleAndVideo(r[|CanonicalHost|..]))
    || (WwwCanonicalHost <= r && HandleAndVideo(r[|WwwCanonicalHost|..]))
  }

  /** `w` matches the whole pattern. */
  ghost predicate FullMatch(w: string) {
    || ("http://" <= w && Body(w[7..]))
    || ("https://" <= w && Body(w[8..]))
  }

  // ---------------------------------------------------------------------
  // The validator, as the matcher decides it
  // ---------------------------------------------------------------------

  /** A handle, then `/video/` and at least one digit, at the start of `t`. */
  predicate HandleAndVideoAhead(t: string) {
    var i := HandleRun(t);
    0 < i && VideoSegment <= t[i..] && i + |VideoSegment| < |t| && IsDigit(t[i + |VideoSegment|])
  }

  predicate BodyAhead(r: string) {
    || (ShortHost <= r && |ShortHost| < |r| && IsAlnum(r[|ShortHost|]))
    || (CanonicalHost <= r && HandleAndVideoAhead(r[|CanonicalHost|..]))
    || (WwwCanonicalHost <= r && HandleAndVideoAhead(r[|WwwCanonicalHost|..]))
  }

  /** `re.match(pattern, url)` is not None. Only http and https URLs pass. */
  predicate Accepts(url: string)
    ensures Accepts(url) ==> "http://" <= url || "https://" <= url
  {
    || ("http://" <= url && BodyAhead(url[7..]))
    || ("https://" <= url && BodyAhead(url[8..]))
  }

  // ---------------------------------------------------------------------
  // The matcher decides exactly "some prefix is in the language"
  // ---------------------------------------------------------------------

  lemma PrefixWiden(a: string, s: string, k: nat)
    requires k <= |s| && a <= s[..k]
    ensures a <= s
  {
    assert s[..k][..|a|] == s[..|a|];
  }

  lemma HandleAndVideoAheadSound(t: string)
    requires HandleAndVideoAhead(t)
    ensures HandleRun(t) + 8 <= |t|
    ensures HandleAndVideo(t[..HandleRun(t) + 8])
  {
    HandleVideoPrefix(t, HandleRun(t));
  }

  /** A handle of length `i`, `/video/` and a digit: the first `i + 8` characters match. */
  lemma HandleVideoPrefix(t: string, i: nat)
    requires 0 < i && i + |VideoSegment| < |t| && AllHandle(t[..i])
    requires VideoSegment <= t[i..] && IsDigit(t[i + |VideoSegment|])
    ensures HandleAndVideo(t[..i + 8])
  {
    var w := t[..i + 8];
    assert AllHandle(w[..i]) by {
      assert w[..i] == t[..i];
    }
    assert VideoPath(w[i..]) by {
      VideoPathOfDigit(t[i..], w[i..]);
    }
    HandleAndVideoAt(w, i);
  }

  lemma HandleAndVideoAt(w: string, i: nat)
    requires 0 < i <= |w| && AllHandle(w[..i]) && VideoPath(w[i..])
    ensures HandleAndVideo(w)
  {
  }

  /** `/video/` and one digit make a video path. */
  lemma VideoPathOfDigit(s: string, u: string)
    requires VideoSegment <= s && |VideoSegment| < |s| && IsDigit(s[|VideoSegment|])
    requires u == s[..|VideoSegment| + 1]
    ensures VideoPath(u)
  {
    assert u[..|VideoSegment|] == s[..|VideoSegment|];
    assert u[|VideoSegment|..] == [s[|VideoSegment|]];
  }

  lemma HandleAndVideoAheadComplete(t: string, k: nat)
    requires k <= |t| && HandleAndVideo(t[..k])
    ensures HandleAndVideoAhead(t)
  {
    var i := HandleVideoFacts(t, k);
    HandleRunEndsAt(t, i);
  }

  /** What a matching handle-and-video prefix of `t` says about `t` itself. */
  lemma HandleVideoFacts(t: string, k: nat) returns (i: nat)
    requires k <= |t| && HandleAndVideo(t[..k])
    ensures 0 < i && i + |VideoSegment| < |t| && AllHandle(t[..i]) && !IsHandleChar(t[i])
    ensures VideoSegment <= t[i..] && IsDigit(t[i + |VideoSegment|])
  {
    var w := t[..k];
    i :| 0 < i <= |w| && AllHandle(w[..i]) && VideoPath(w[i..]);
    assert AllHandle(t[..i]) by {
      assert w[..i] == t[..i];
    }
    VideoPathInside(t, k, i);
  }

  /** A video path inside `t[..k]` is one in `t`. */
  lemma VideoPathInside(t: string, k: nat, i: nat)
    requires i <= k <= |t| && VideoPath(t[..k][i..])
    ensures i + |VideoSegment| < |t| && VideoSegment <= t[i..] && IsDigit(t[i + |VideoSegment|])
    ensures t[i] == '/'
  {
    var u := t[..k][i..];
    assert u == t[i..][..k - i];
    PrefixWiden(VideoSegment, t[i..], k - i);
    assert u[0] == VideoSegment[0];
    assert u[|VideoSegment|..][0] == u[|VideoSegment|];
  }

  lemma BodyAheadSound(r: string) returns (k: nat)
    requires BodyAhead(r)
    ensures k <= |r| && Body(r[..k])
  {
    if ShortHost <= r && |ShortHost| < |r| && IsAlnum(r[|ShortHost|]) {
      k := ShortHostThenToken(r);
    } else if CanonicalHost <= r && HandleAndVideoAhead(r[|CanonicalHost|..]) {
      k := HostThenHandleVideo(r, CanonicalHost);
    } else {
      k := HostThenHandleVideo(r, WwwCanonicalHost);
    }
  }

  /** `vm.tiktok.com/` and one alphanumeric character match the short alternative. */
  lemma ShortHostThenToken(r: string) returns (k: nat)
    requires ShortHost <= r && |ShortHost| < |r| && IsAlnum(r[|ShortHost|])
    ensures k <= |r| && ShortHost <= r[..k] && ShortToken(r[..k][|ShortHost|..])
  {
    k := |ShortHost| + 1;
    assert r[..k][|ShortHost|..] == [r[|ShortHost|]];
    assert r[..k][..|ShortHost|] == r[..|ShortHost|];
  }

  /** A host followed by a handle, `/video/` and a digit: a matching prefix of the host alternative. */
  lemma HostThenHandleVideo(r: string, host: string) returns (k: nat)
    requires host <= r && HandleAndVideoAhead(r[|host|..])
    ensures k <= |r| && host <= r[..k] && HandleAndVideo(r[..k][|host|..])
  {
    var t := r[|host|..];
    HandleAndVideoAheadSound(t);
    k := |host| + HandleRun(t) + 8;
    assert r[..k][|host|..] == t[..HandleRun(t) + 8];
    assert r[..k][..|host|] == r[..|host|];
  }

  lemma BodyAheadComplete(r: string, k: nat)
    requires k <= |r| && Body(r[..k])
    ensures BodyAhead(r)
  {
    var w := r[..k];
    if ShortHost <= w && ShortToken(w[|ShortHost|..]) {
      assert w[|ShortHost|..][0] == r[|ShortHost|];
      PrefixWiden(ShortHost, r, k);
    } else if CanonicalHost <= w && HandleAndVideo(w[|CanonicalHost|..]) {
      HostPrefixComplete(r, k, CanonicalHost);
    } else {
      HostPrefixComplete(r, k, WwwCanonicalHost);
    }
  }

  /** A matching prefix of a host alternative is seen by the matcher. */
  lemma HostPrefixComplete(r: string, k: nat, host: string)
    requires k <= |r| && host <= r[..k] && HandleAndVideo(r[..k][|host|..])
    ensures host <= r && HandleAndVideoAhead(r[|host|..])
  {
    PrefixWiden(host, r, k);
    var t := r[|host|..];
    assert r[..k][|host|..] == t[..k - |host|];
    HandleAndVideoAheadComplete(t, k - |host|);
  }

  /** The prefix the matcher found matches the whole pattern. */
  lemma AcceptedHasMatchingPrefix(url: string) returns (k: nat)
    requires Accepts(url)
    ensures k <= |url| && FullMatch(url[..k])
  {
    var n := if "http://" <= url && BodyAhead(url[7..]) then 7 else 8;
    var j := BodyAheadSound(url[n..]);
    k := n + j;
    SchemeThenBody(url, n, j);
  }

  lemma SchemeThenBody(url: string, n: nat, j: nat)
    requires n <= |url| && j <= |url| - n && Body(url[n..][..j])
    ensures url[..n + j][..n] == url[..n] && Body(url[..n + j][n..])
  {
    assert url[..n + j][n..] == url[n..][..j];
  }

  /** A prefix matching the whole pattern makes the matcher accept. */
  lemma MatchingPrefixAccepted(url: string, k: nat)
    requires k <= |url| && FullMatch(url[..k])
    ensures Accepts(url)
  {
    var w := url[..k];
    var n := if "http://" <= w && Body(w[7..]) then 7 else 8;
    assert w[n..] == url[n..][..k - n];
    BodyAheadComplete(url[n..], k - n);
    PrefixWiden(if n == 7 then "http://" else "https://", url, k);
  }

  /**
   * The validator accepts `url` exactly when some prefix of `url` matches the
   * whole pattern: the anchoring of `re.match` at the start only.
   */
  lemma AcceptsIffPrefixMatches(url: string)
    ensures Accepts(url) <==> exists k :: 0 <= k <= |url| && FullMatch(url[..k])
  {
    if Accepts(url) {
      var k := AcceptedHasMatchingPrefix(url);
    }
    if exists k :: 0 <= k <= |url| && FullMatch(url[..k]) {
      var k :| 0 <= k <= |url| && FullMatch(url[..k]);
      MatchingPrefixAccepted(url, k);
    }
  }

  /** Accepting is closed under extension: whatever follows an accepted URL is never inspected. */
  lemma AcceptsExtension(url: string, tail: string)
    requires Accepts(url)
    ensures Accepts(url + tail)
  {
    AcceptsIffPrefixMatches(url);
    var k :| 0 <= k <= |url| && FullMatch(url[..k]);
    assert (url + tail)[..k] == url[..k];
    AcceptsIffPrefixMatches(url + tail);
  }
}
