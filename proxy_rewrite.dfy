/**
 * The rule both copies of `constructUrl` follow: when a proxy is configured
 * and the URL contains one of the listed host names, the request goes to
 * `proxy + "/" + url`; otherwise the URL is used as it is.
 */
module ProxyRewrite {
  import opened Wrappers
  import opened Text

  /** `!urlProxy` is false: the variable is defined and not the empty
      string. */
  predicate IsSet(proxy: Option<string>) {
    proxy.Some? && proxy.value != []
  }

  /** Some listed host occurs in `url`. */
  predicate MatchesAny(url: string, hosts: seq<string>) {
    exists h :: h in hosts && Includes(url, h)
  }

  /** The `for…of` loop: the index of the first host, from `k` on, that
      `url` includes, or `None` when the loop runs to its end. */
  function FirstIncluded(url: string, hosts: seq<string>, k: nat): (r: Option<nat>)
    requires k <= |hosts|
    decreases |hosts| - k
    ensures r.Some? ==> k <= r.value < |hosts| && Includes(url, hosts[r.value])
    ensures r.Some? ==> forall j :: k <= j < r.value ==> !Includes(url, hosts[j])
    ensures r.None? <==> forall j :: k <= j < |hosts| ==> !Includes(url, hosts[j])
  {
    if k == |hosts| then None
    else if Includes(url, hosts[k]) then Some(k)
    else FirstIncluded(url, hosts, k + 1)
  }

  /** `constructUrl(url)` over the host list `hosts`. */
  function Rewrite(proxy: Option<string>, hosts: seq<string>, url: string): (r: string)
    ensures !IsSet(proxy) ==> r == url
    ensures IsSet(proxy) && MatchesAny(url, hosts) ==> r == proxy.value + "/" + url
    ensures IsSet(proxy) && !MatchesAny(url, hosts) ==> r == url
  {
    if !IsSet(proxy) then url
    else
      var m := FirstIncluded(url, hosts, 0);
      assert m.None? ==> !MatchesAny(url, hosts);
      if m.Some? then proxy.value + "/" + url else url
  }

  /** The result always ends with the input URL, and a rewritten URL begins
      with the proxy followed by a slash. */
  lemma RewriteShape(proxy: Option<string>, hosts: seq<string>, url: string)
    ensures var r := Rewrite(proxy, hosts, url);
      && |url| <= |r| && r[|r| - |url|..] == url
      && (r != url <==> IsSet(proxy) && MatchesAny(url, hosts))
      && (r != url ==> proxy.value + "/" <= r)
  {
    var r := Rewrite(proxy, hosts, url);
    if IsSet(proxy) && MatchesAny(url, hosts) {
      var p := proxy.value + "/";
      assert r == p + url;
      assert r[|r| - |url|..] == url;
      assert r[..|p|] == p;
    }
  }

  /** Which host matched, and the order of the list, do not matter: two
      lists with the same hosts rewrite every URL alike. */
  lemma RewriteOrderIndependent(proxy: Option<string>, hosts1: seq<string>, hosts2: seq<string>, url: string)
    requires forall h :: h in hosts1 <==> h in hosts2
    ensures Rewrite(proxy, hosts1, url) == Rewrite(proxy, hosts2, url)
  {
    assert MatchesAny(url, hosts1) <==> MatchesAny(url, hosts2);
  }
}
