/** `constructUrl` of the server helpers, with `process.env.URL_PROXY`
    passed in as `urlProxy`. */
module ServerConstructUrl {
  import opened Wrappers
  import opened Text
  import ProxyRewrite

  /** `URLS_TO_REDIRECT_TO_PROXY`. */
  const UrlsToRedirectToProxy: seq<string> :=
    ["medium.com", "javascript.plainenglish.io", "python.plainenglish.io"]

  /** Some listed host name occurs anywhere in `url`. */
  predicate ToBeProxied(url: string) {
    || Includes(url, "medium.com")
    || Includes(url, "javascript.plainenglish.io")
    || Includes(url, "python.plainenglish.io")
  }

  /** `constructUrl(url)` without its try/catch: the catch is reached only
      when the template literal would exceed the engine's string length
      limit, and Dafny strings have no such limit. */
  function ConstructUrl(urlProxy: Option<string>, url: string): (r: string)
    ensures !ProxyRewrite.IsSet(urlProxy) ==> r == url
    ensures ProxyRewrite.IsSet(urlProxy) && ToBeProxied(url) ==> r == urlProxy.value + "/" + url
    ensures ProxyRewrite.IsSet(urlProxy) && !ToBeProxied(url) ==> r == url
  {
    assert ToBeProxied(url) <==> ProxyRewrite.MatchesAny(url, UrlsToRedirectToProxy) by {
      var hs := UrlsToRedirectToProxy;
      assert hs[0] == "medium.com" && hs[1] == "javascript.plainenglish.io" && hs[2] == "python.plainenglish.io";
    }
    ProxyRewrite.Rewrite(urlProxy, UrlsToRedirectToProxy, url)
  }

  /** The result always ends with the input URL. */
  lemma EndsWithUrl(urlProxy: Option<string>, url: string)
    ensures var r := ConstructUrl(urlProxy, url);
      |url| <= |r| && r[|r| - |url|..] == url
  {
    ProxyRewrite.RewriteShape(urlProxy, UrlsToRedirectToProxy, url);
  }
}
