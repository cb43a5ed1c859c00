/** `safe_get_host`: which host name a request may be trusted to report. */
module RequestHost {
  import opened Wrappers

  /** The `ALLOWED_HOSTS` setting: a list or tuple of host patterns, or a
      value of any other type. */
  datatype AllowedHosts = HostSequence(patterns: seq<string>) | OtherValue

  /** The setting counts as properly set when it is a list or tuple without
      `'*'`; only then is the request's own host trusted. Any other value,
      even an iterable Django would still check hosts against, is not. */
  predicate ProperlySet(allowed: AllowedHosts) {
    allowed.HostSequence? && "*" !in allowed.patterns
  }

  /** The request's own host when the setting is properly set, otherwise
      the site's configured `site_domain`, defaulting to `SITE_NAME`.
      `siteDomain` is the site configuration's value, if it has one. */
  function SafeGetHost(requestHost: string, allowed: AllowedHosts,
                       siteDomain: Option<string>, siteName: string): (h: string)
    ensures h == requestHost || h == siteDomain.GetOr(siteName)
    ensures !ProperlySet(allowed) ==> h == siteDomain.GetOr(siteName)
    ensures ProperlySet(allowed) ==> h == requestHost
  {
    if allowed.HostSequence? && "*" !in allowed.patterns then requestHost
    else siteDomain.GetOr(siteName)
  }

  /** A setting that is not properly set never lets the request choose the
      host: the answer is the same whatever host the request claims. */
  lemma UntrustedHostIgnored(h1: string, h2: string, allowed: AllowedHosts,
                             siteDomain: Option<string>, siteName: string)
    requires !ProperlySet(allowed)
    ensures SafeGetHost(h1, allowed, siteDomain, siteName) == SafeGetHost(h2, allowed, siteDomain, siteName)
  {
  }

  /** The answer depends on the request's host exactly when the setting is
      properly set. */
  lemma RequestHostMattersIffProperlySet(allowed: AllowedHosts, siteDomain: Option<string>, siteName: string)
    ensures ProperlySet(allowed) <==>
      exists h1, h2 :: SafeGetHost(h1, allowed, siteDomain, siteName) != SafeGetHost(h2, allowed, siteDomain, siteName)
  {
    if ProperlySet(allowed) {
      assert SafeGetHost("a", allowed, siteDomain, siteName) != SafeGetHost("b", allowed, siteDomain, siteName);
    }
  }
}
