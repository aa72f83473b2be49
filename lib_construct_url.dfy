/** `constructUrl` of the shared library, the same rule as the server
    helper's without the try/catch, with `process.env.URL_PROXY` passed in
    as `urlProxy`. */
module LibConstructUrl {
  import opened Wrappers
  import ProxyRewrite
  import ServerConstructUrl

  /** This copy's own `URLS_TO_REDIRECT_TO_PROXY`. */
  const UrlsToRedirectToProxy: seq<string> :=
    ["medium.com", "javascript.plainenglish.io", "python.plainenglish.io"]

  /** The result ends with `url`; it differs from `url` exactly when a proxy
      is set and a listed host occurs, and then it is the proxy, a slash and
      the URL. */
  function ConstructUrl(urlProxy: Option<string>, url: string): (r: string)
    ensures |url| <= |r| && r[|r| - |url|..] == url
    ensures r != url <==> ProxyRewrite.IsSet(urlProxy) && ProxyRewrite.MatchesAny(url, UrlsToRedirectToProxy)
    ensures r != url ==> r == urlProxy.value + "/" + url
  {
    ProxyRewrite.RewriteShape(urlProxy, UrlsToRedirectToProxy, url);
    ProxyRewrite.Rewrite(urlProxy, UrlsToRedirectToProxy, url)
  }

  /** The two copies agree on every proxy setting and every URL. */
  lemma AgreesWithServer(urlProxy: Option<string>, url: string)
    ensures ConstructUrl(urlProxy, url) == ServerConstructUrl.ConstructUrl(urlProxy, url)
  {
    ProxyRewrite.RewriteOrderIndependent(urlProxy, UrlsToRedirectToProxy,
      ServerConstructUrl.UrlsToRedirectToProxy, url);
  }
}
