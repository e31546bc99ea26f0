/** Link extraction (`get_links`, crawler.py:15-33) over an abstract web. */
module Links {
  import opened Scope

  /**
   * Everything the crawler learns from the outside world.
   * - `parse` is `urlparse`.
   * - `anchors(u)` is what the request issued by `get_links` for `u` yields:
   *   the `href` of every anchor of the page, already resolved against `u`
   *   with `urljoin`, in document order; the empty sequence when the request
   *   fails, times out or answers with a status other than 200.
   * - `fetchOk(u)` tells whether the separate request issued by `save_html`
   *   for `u` answered with status 200, that is, whether a file is written.
   */
  datatype Web = Web(parse: Url -> UrlParts, anchors: Url -> seq<Url>, fetchOk: Url -> bool)

  /**
   * The loop of `get_links` that keeps a resolved link iff it is in the
   * domain of `base`, in the order the links were found, duplicates kept.
   */
  function InDomain(parse: Url -> UrlParts, base: Url, links: seq<Url>): (r: seq<Url>)
    ensures |r| <= |links|
    ensures forall l {:trigger l in r} :: l in r <==> l in links && SameDomain(parse, base, l)
  {
    if links == [] then []
    else
      var rest := InDomain(parse, base, links[1..]);
      if SameDomain(parse, base, links[0]) then [links[0]] + rest else rest
  }

  /** Filtering a concatenation filters each part and keeps their order. */
  lemma {:induction false} InDomainAppend(parse: Url -> UrlParts, base: Url, a: seq<Url>, b: seq<Url>)
    ensures InDomain(parse, base, a + b) == InDomain(parse, base, a) + InDomain(parse, base, b)
  {
    if a == [] {
      assert a + b == b;
    } else {
      assert (a + b)[1..] == a[1..] + b;
      InDomainAppend(parse, base, a[1..], b);
    }
  }

  /** A list whose links are all in the domain is returned unchanged. */
  lemma {:induction false} InDomainKeepsInScope(parse: Url -> UrlParts, base: Url, links: seq<Url>)
    requires forall i :: 0 <= i < |links| ==> SameDomain(parse, base, links[i])
    ensures InDomain(parse, base, links) == links
  {
    if links != [] {
      InDomainKeepsInScope(parse, base, links[1..]);
    }
  }

  /** Filtering twice is filtering once. */
  lemma InDomainIdempotent(parse: Url -> UrlParts, base: Url, links: seq<Url>)
    ensures InDomain(parse, base, InDomain(parse, base, links)) == InDomain(parse, base, links)
  {
    var r := InDomain(parse, base, links);
    forall i | 0 <= i < |r| ensures SameDomain(parse, base, r[i]) {
      assert r[i] in r;
    }
    InDomainKeepsInScope(parse, base, r);
  }

  /**
   * `get_links(url, base)`: the in-domain links of the page at `url`. The
   * crawler always passes its seed as `base`.
   */
  function GetLinks(web: Web, url: Url, base: Url): (r: seq<Url>)
    ensures forall l {:trigger l in r} :: l in r <==> l in web.anchors(url) && SameDomain(web.parse, base, l)
  {
    InDomain(web.parse, base, web.anchors(url))
  }
}
