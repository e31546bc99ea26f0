/** The domain-scope rule of the crawler (`is_same_domain`, crawler.py:7-13). */
module Scope {

  /** A URL as the crawler stores it in its frontier and visited set: its text. */
  type Url = string

  /** The three components of a parsed URL that the crawler reads. */
  datatype UrlParts = UrlParts(netloc: string, path: string, query: string)

  /**
   * Two URLs are in the same domain when their network locations (host and
   * optional port) are equal. URL parsing is a library routine outside the
   * model and is passed in as `parse`. The `ensures` only restates this
   * definition for callers; the properties that matter are the lemmas below.
   */
  predicate SameDomain(parse: Url -> UrlParts, base: Url, target: Url)
    ensures SameDomain(parse, base, target) <==> parse(base).netloc == parse(target).netloc
  {
    parse(base).netloc == parse(target).netloc
  }

  /** Every URL is in its own domain; in particular the seed is in scope of itself. */
  lemma SameDomainReflexive(parse: Url -> UrlParts, u: Url)
    ensures SameDomain(parse, u, u)
  {
  }

  /** The order of the two arguments does not matter. */
  lemma SameDomainSymmetric(parse: Url -> UrlParts, a: Url, b: Url)
    ensures SameDomain(parse, a, b) <==> SameDomain(parse, b, a)
  {
  }

  /** Two URLs in the domain of a third are in the domain of each other. */
  lemma SameDomainTransitive(parse: Url -> UrlParts, a: Url, b: Url, c: Url)
    requires SameDomain(parse, a, b) && SameDomain(parse, b, c)
    ensures SameDomain(parse, a, c)
  {
  }
}
