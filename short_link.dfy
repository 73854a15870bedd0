/**
 * Short-link handling of the download endpoint: the substring test that
 * decides whether to resolve (app.py:82-83) and `resolve_shortened_url`
 * (app.py:106-114), which never fails: when the redirect-following request
 * raises, the original URL is used unchanged. The request itself is not
 * modelled; its outcome is the `redirect` parameter (`None` when it raised).
 */
module ShortLink {
  import opened Wrappers
  import opened Text
  import UrlShape

  const ShortDomain := "vm.tiktok.com"

  /** `'vm.tiktok.com' in url`: anywhere in the URL, not only in the host. */
  predicate IsShortened(url: string)
    ensures IsShortened(url) <==> Occurs(url, ShortDomain)
  {
    Contains(url, ShortDomain)
  }

  /** `resolve_shortened_url`: the final URL after redirects, or `url` when the request raised. */
  function ResolveShortened(url: string, redirect: Option<string>): (r: string)
    ensures redirect.None? ==> r == url
    ensures redirect.Some? ==> r == redirect.value
  {
    redirect.GetOr(url)
  }

  /**
   * The URL the rest of the request works on. Resolution is consulted only
   * for shortened URLs and is total: the result is either the input or the
   * redirect target, and it is the input whenever resolution failed.
   */
  function TargetUrl(url: string, redirect: Option<string>): (r: string)
    ensures !IsShortened(url) ==> r == url
    ensures redirect.None? ==> r == url
    ensures r == url || (IsShortened(url) && redirect == Some(r))
    ensures IsShortened(url) && redirect.Some? ==> r == redirect.value
  {
    if IsShortened(url) then ResolveShortened(url, redirect) else url
  }

  /** Every URL accepted through the `vm.tiktok.com/<token>` alternative is sent to resolution. */
  lemma ShortShapeIsResolved(url: string)
    requires "http://" <= url || "https://" <= url
    requires var n := if "http://" <= url then 7 else 8; UrlShape.ShortHost <= url[n..]
    ensures IsShortened(url)
  {
    var n := if "http://" <= url then 7 else 8;
    assert url[n..][..|ShortDomain|] == UrlShape.ShortHost[..|ShortDomain|];
    assert OccursAt(url, ShortDomain, n);
  }
}
