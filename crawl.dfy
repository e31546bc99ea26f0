/**
 * The crawl engine (`crawl_domain`, crawler.py:65-91): a breadth-first
 * traversal of the seed's domain with a FIFO frontier and a visited set.
 */
module Crawl {
  import opened Scope
  import opened Links
  import opened Naming

  /** No URL occurs twice in `s`. */
  predicate Distinct(s: seq<Url>)
  {
    forall i, j :: 0 <= i < j < |s| ==> s[i] != s[j]
  }

  /** The distinct URLs of `s`, each at the place where it first occurs. */
  function FirstOccurrences(s: seq<Url>): (r: seq<Url>)
    ensures Distinct(r)
    ensures forall u {:trigger u in r} :: u in r <==> u in s
  {
    if s == [] then []
    else
      var r := FirstOccurrences(s[..|s| - 1]);
      if s[|s| - 1] in r then r else r + [s[|s| - 1]]
  }

  /** The URLs of `s` whose page `save_html` managed to fetch, in order. */
  function Fetched(web: Web, s: seq<Url>): (r: seq<Url>)
    ensures forall u {:trigger u in r} :: u in r <==> u in s && web.fetchOk(u)
  {
    if s == [] then []
    else Fetched(web, s[..|s| - 1]) + (if web.fetchOk(s[|s| - 1]) then [s[|s| - 1]] else [])
  }

  /** Each URL of a repetition-free log is saved at most once. */
  lemma {:induction false} FetchedDistinct(web: Web, s: seq<Url>)
    requires Distinct(s)
    ensures Distinct(Fetched(web, s))
  {
    if s != [] {
      var init, last := s[..|s| - 1], s[|s| - 1];
      FetchedDistinct(web, init);
      var r := Fetched(web, init);
      assert last !in init;
      assert last !in r;
      if web.fetchOk(last) {
        forall i, j | 0 <= i < j < |r| + 1 ensures (r + [last])[i] != (r + [last])[j] {
          if j == |r| {
            assert r[i] in r;
          }
        }
      }
    }
  }

  /**
   * The name of the file that `save_html` writes for `u`, in its corrected
   * form: it starts with the URL's network location, ends in `.html`, and
   * holds no path separator beyond those of the network location.
   */
  function ArtifactName(web: Web, u: Url): (r: string)
    ensures |web.parse(u).netloc| + 5 <= |r|
    ensures r[..|web.parse(u).netloc|] == web.parse(u).netloc
    ensures r[|r| - 5..] == ".html"
    ensures '/' !in web.parse(u).netloc ==> '/' !in r
  {
    var parts := web.parse(u);
    var r := FlatFileName(parts.netloc, parts.path, parts.query);
    assert '/' !in parts.netloc ==> '/' !in r by {
      if '/' !in parts.netloc {
        FlatFileNameIsFlat(parts.netloc, parts.path, parts.query);
      }
    }
    r
  }

  /** `f` applied to every element of `s`, in order. */
  function MapSeq<A, B>(f: A -> B, s: seq<A>): (r: seq<B>)
    ensures |r| == |s|
    ensures forall k :: 0 <= k < |s| ==> r[k] == f(s[k])
  {
    if s == [] then [] else MapSeq(f, s[..|s| - 1]) + [f(s[|s| - 1])]
  }

  /** The names of the files written for the URLs of `saved`, in order. */
  function ArtifactNames(web: Web, saved: seq<Url>): (r: seq<string>)
    ensures |r| == |saved|
    ensures forall k :: 0 <= k < |saved| ==> r[k] == ArtifactName(web, saved[k])
  {
    MapSeq((u: Url) => ArtifactName(web, u), saved)
  }

  /** `p` is a chain of in-domain links from the seed `start` to `u`. */
  ghost predicate IsPathTo(web: Web, start: Url, p: seq<Url>, u: Url)
  {
    && |p| > 0 && p[0] == start && p[|p| - 1] == u
    && forall i {:trigger GetLinks(web, p[i], start)} :: 0 <= i < |p| - 1 ==> p[i + 1] in GetLinks(web, p[i], start)
  }

  /** `u` can be reached from the seed by following in-domain links. */
  ghost predicate Reachable(web: Web, start: Url, u: Url)
  {
    exists p :: IsPathTo(web, start, p, u)
  }

  /** Every in-domain link of a page in `s` is itself in `s`. */
  ghost predicate ClosedUnderLinks(web: Web, start: Url, s: set<Url>)
  {
    forall u, l :: u in s && l in GetLinks(web, u, start) ==> l in s
  }

  /**
   * The links of `links` that are not in `visited`, in order, duplicates
   * kept: what the inner loop of `crawl_domain` appends to the frontier.
   */
  function Unvisited(links: seq<Url>, visited: set<Url>): (r: seq<Url>)
    ensures |r| <= |links|
    ensures forall l {:trigger l in r} :: l in r <==> l in links && l !in visited
  {
    if links == [] then []
    else
      var last := links[|links| - 1];
      Unvisited(links[..|links| - 1], visited) + (if last in visited then [] else [last])
  }

  /** Every link not visited is appended as often as it occurs among the links. */
  lemma {:induction false} UnvisitedKeepsDuplicates(links: seq<Url>, visited: set<Url>)
    ensures forall l :: l !in visited ==> multiset(Unvisited(links, visited))[l] == multiset(links)[l]
  {
    if links != [] {
      var init, last := links[..|links| - 1], links[|links| - 1];
      assert links == init + [last];
      UnvisitedKeepsDuplicates(init, visited);
    }
  }

  /** The links of a concatenation are appended part by part, in order. */
  lemma {:induction false} UnvisitedAppend(a: seq<Url>, b: seq<Url>, visited: set<Url>)
    ensures Unvisited(a + b, visited) == Unvisited(a, visited) + Unvisited(b, visited)
    decreases |b|
  {
    if b == [] {
      assert a + b == a;
    } else {
      var init := b[..|b| - 1];
      assert (a + b)[..|a + b| - 1] == a + init;
      UnvisitedAppend(a, init, visited);
    }
  }

  /**
   * The append log of the frontier after the URLs of `processed` were
   * visited in that order: the seed, then for each visited URL the links of
   * its page not visited at that moment (itself included).
   */
  function AppendLog(web: Web, start: Url, processed: seq<Url>): (r: seq<Url>)
    ensures |r| > 0 && r[0] == start
  {
    if processed == [] then [start]
    else
      var url := processed[|processed| - 1];
      AppendLog(web, start, processed[..|processed| - 1])
        + Unvisited(GetLinks(web, url, start), set u | u in processed)
  }

  /**
   * A URL whose page cannot be fetched adds nothing to the frontier, and,
   * when the request of `save_html` fails too, no file.
   */
  lemma FailedPageAddsNothing(web: Web, start: Url, processed: seq<Url>, url: Url)
    requires web.anchors(url) == []
    ensures AppendLog(web, start, processed + [url]) == AppendLog(web, start, processed)
    ensures !web.fetchOk(url) ==> Fetched(web, processed + [url]) == Fetched(web, processed)
  {
    assert (processed + [url])[..|processed|] == processed;
  }

  /**
   * Every in-domain link of a visited page is visited or waiting in the
   * frontier: the invariant of the crawl loop.
   */
  ghost predicate Covered(web: Web, start: Url, visited: set<Url>, frontier: seq<Url>)
  {
    forall u, l :: u in visited && l in GetLinks(web, u, start) ==> l in visited || l in frontier
  }

  /**
   * One turn of the crawl loop keeps `Covered`: popping a visited URL, or
   * visiting a new one and appending its links not yet visited.
   */
  lemma CoveredStep(web: Web, start: Url, visited: set<Url>, frontier: seq<Url>)
    requires frontier != [] && Covered(web, start, visited, frontier)
    ensures frontier[0] in visited ==> Covered(web, start, visited, frontier[1..])
    ensures frontier[0] !in visited ==>
      var v := visited + {frontier[0]};
      Covered(web, start, v, frontier[1..] + Unvisited(GetLinks(web, frontier[0], start), v))
  {
    var url := frontier[0];
    assert forall l :: l in frontier ==> l == url || l in frontier[1..];
    if url !in visited {
      var v := visited + {url};
      var t := frontier[1..] + Unvisited(GetLinks(web, url, start), v);
      forall u, l | u in v && l in GetLinks(web, u, start) ensures l in v || l in t {
        if u != url && l !in v {
          assert l in frontier[1..];
        }
      }
    }
  }

  /** A path extended by one of its last page's links is a path to that link. */
  lemma ExtendPath(web: Web, start: Url, p: seq<Url>, u: Url, l: Url)
    requires IsPathTo(web, start, p, u) && l in GetLinks(web, u, start)
    ensures IsPathTo(web, start, p + [l], l)
  {
    var q := p + [l];
    forall i | 0 <= i < |q| - 1 ensures q[i + 1] in GetLinks(web, q[i], start) {
      if i < |p| - 1 {
        assert q[i] == p[i] && q[i + 1] == p[i + 1];
      }
    }
  }

  /** Every page reachable from the seed is in the seed's domain. */
  lemma ReachableInDomain(web: Web, start: Url, p: seq<Url>, u: Url)
    requires IsPathTo(web, start, p, u)
    ensures SameDomain(web.parse, start, u)
  {
    if |p| > 1 {
      assert u in GetLinks(web, p[|p| - 2], start);
    }
  }

  /** A link of a reachable page is reachable. */
  lemma ReachableStep(web: Web, start: Url, u: Url, l: Url)
    requires Reachable(web, start, u) && l in GetLinks(web, u, start)
    ensures Reachable(web, start, l)
  {
    var p :| IsPathTo(web, start, p, u);
    ExtendPath(web, start, p, u, l);
  }

  /** A link-closed set that holds the seed holds every reachable page. */
  lemma {:induction false} ReachableInClosed(web: Web, start: Url, s: set<Url>, p: seq<Url>, u: Url)
    requires start in s && ClosedUnderLinks(web, start, s)
    requires IsPathTo(web, start, p, u)
    ensures u in s
  {
    if |p| > 1 {
      var q := p[..|p| - 1];
      assert IsPathTo(web, start, q, p[|p| - 2]) by {
        forall i | 0 <= i < |q| - 1 ensures q[i + 1] in GetLinks(web, q[i], start) {
          assert q[i] == p[i] && q[i + 1] == p[i + 1];
        }
      }
      ReachableInClosed(web, start, s, q, p[|p| - 2]);
      assert u in GetLinks(web, p[|p| - 2], start);
    }
  }

  /** The inner loop of `crawl_domain`: append every link not yet visited. */
  method AppendUnvisited(toVisit: seq<Url>, links: seq<Url>, visited: set<Url>) returns (r: seq<Url>)
    ensures r == toVisit + Unvisited(links, visited)
  {
    r := toVisit;
    var i := 0;
    while i < |links|
      invariant 0 <= i <= |links|
      invariant r == toVisit + Unvisited(links[..i], visited)
    {
      var link := links[i];
      assert links[..i + 1] == links[..i] + [link];
      UnvisitedAppend(links[..i], [link], visited);
      assert Unvisited([link], visited) == if link in visited then [] else [link];
      if link !in visited {
        r := r + [link];
      }
      i := i + 1;
    }
    assert links[..i] == links;
  }

  /** A subset is no larger than its superset. */
  lemma {:induction false} SubsetSize(a: set<Url>, b: set<Url>)
    requires a <= b
    ensures |a| <= |b|
    decreases b
  {
    if a != {} {
      var x :| x in a;
      SubsetSize(a - {x}, b - {x});
    }
  }

  /**
   * The invariant of the crawl loop, over its state (`visited`, `toVisit`,
   * `files`) and the ghost logs: `enqueued` lists every URL ever put in the
   * frontier and `popped` how many of them were taken from its front, so
   * the frontier is always the unconsumed suffix of `enqueued` (FIFO).
   */
  ghost predicate CrawlInv(web: Web, start: Url, universe: set<Url>,
                           visited: set<Url>, toVisit: seq<Url>, files: seq<string>,
                           processed: seq<Url>, saved: seq<Url>, enqueued: seq<Url>, popped: nat)
  {
    && popped <= |enqueued| && |enqueued| > 0 && enqueued[0] == start && toVisit == enqueued[popped..]
    && processed == FirstOccurrences(enqueued[..popped])
    && enqueued == AppendLog(web, start, processed)
    && (forall u :: u in visited <==> u in processed)
    && visited <= universe
    && (forall k :: 0 <= k < |enqueued| ==> enqueued[k] in universe && Reachable(web, start, enqueued[k]))
    && Covered(web, start, visited, toVisit)
    && saved == Fetched(web, processed)
    && files == ArtifactNames(web, saved)
  }

  /**
   * Taking the next URL off the front of the frontier extends the log of
   * processed URLs exactly when that URL was not visited yet.
   */
  lemma PopLog(enqueued: seq<Url>, popped: nat, processed: seq<Url>, visited: set<Url>)
    requires popped < |enqueued| && processed == FirstOccurrences(enqueued[..popped])
    requires forall u :: u in visited <==> u in processed
    ensures FirstOccurrences(enqueued[..popped + 1]) ==
      if enqueued[popped] in visited then processed else processed + [enqueued[popped]]
  {
    var url := enqueued[popped];
    assert enqueued[..popped + 1] == enqueued[..popped] + [url];
    assert (enqueued[..popped] + [url])[..popped] == enqueued[..popped];
    assert url in visited <==> url in processed;
  }

  /**
   * Popping the front of the frontier and appending `discovered` keeps the
   * frontier the unconsumed suffix of the append log.
   */
  lemma FrontierSuffix(toVisit: seq<Url>, enqueued: seq<Url>, popped: nat, discovered: seq<Url>)
    requires popped < |enqueued| && toVisit == enqueued[popped..]
    ensures (enqueued + discovered)[..popped + 1] == enqueued[..popped + 1]
    ensures toVisit[1..] + discovered == (enqueued + discovered)[popped + 1..]
  {
  }

  /** Saving a page extends the saved log and the file names together. */
  lemma SaveLog(web: Web, processed: seq<Url>, saved: seq<Url>, files: seq<string>, url: Url)
    requires saved == Fetched(web, processed) && files == ArtifactNames(web, saved)
    ensures var saved' := if web.fetchOk(url) then saved + [url] else saved;
      && saved' == Fetched(web, processed + [url])
      && (if web.fetchOk(url) then files + [ArtifactName(web, url)] else files) == ArtifactNames(web, saved')
  {
    assert (processed + [url])[..|processed|] == processed;
    assert (saved + [url])[..|saved|] == saved;
  }

  /** The links appended while visiting a reachable URL are reachable and inside the universe. */
  lemma DiscoveredReachable(web: Web, start: Url, universe: set<Url>, enqueued: seq<Url>, url: Url, visited: set<Url>)
    requires ClosedUnderLinks(web, start, universe)
    requires url in universe && Reachable(web, start, url)
    requires forall k :: 0 <= k < |enqueued| ==> enqueued[k] in universe && Reachable(web, start, enqueued[k])
    ensures var e := enqueued + Unvisited(GetLinks(web, url, start), visited);
      forall k :: 0 <= k < |e| ==> e[k] in universe && Reachable(web, start, e[k])
  {
    var discovered := Unvisited(GetLinks(web, url, start), visited);
    var e := enqueued + discovered;
    forall k | 0 <= k < |e| ensures e[k] in universe && Reachable(web, start, e[k]) {
      if k >= |enqueued| {
        var l := discovered[k - |enqueued|];
        assert l in discovered;
        ReachableStep(web, start, url, l);
      }
    }
  }

  /**
   * Visiting `url` extends the append log by its links not yet visited.
   * This is the recursive case of `AppendLog` restated over the loop's
   * `visited` set; it bridges the definition and `VisitKeeps`. What the log
   * means comes from the loop invariant, which ties `enqueued` to
   * `AppendLog(processed)` while `processed == FirstOccurrences(enqueued)`.
   */
  lemma AppendLogStep(web: Web, start: Url, processed: seq<Url>, visited: set<Url>, url: Url)
    requires forall u :: u in visited <==> u in processed
    ensures AppendLog(web, start, processed + [url]) ==
      AppendLog(web, start, processed) + Unvisited(GetLinks(web, url, start), visited + {url})
  {
    var p := processed + [url];
    assert p[..|p| - 1] == processed;
    assert (set u | u in p) == visited + {url};
  }

  /** Popping a URL that is already visited keeps the invariant. */
  lemma SkipKeeps(web: Web, start: Url, universe: set<Url>,
                  visited: set<Url>, toVisit: seq<Url>, files: seq<string>,
                  processed: seq<Url>, saved: seq<Url>, enqueued: seq<Url>, popped: nat)
    requires CrawlInv(web, start, universe, visited, toVisit, files, processed, saved, enqueued, popped)
    requires toVisit != [] && toVisit[0] in visited
    ensures CrawlInv(web, start, universe, visited, toVisit[1..], files, processed, saved, enqueued, popped + 1)
  {
    CoveredStep(web, start, visited, toVisit);
    PopLog(enqueued, popped, processed, visited);
  }

  /**
   * Visiting the URL at the front of the frontier keeps the invariant: it
   * joins `visited` and the log, its page is saved when the fetch succeeds,
   * and its in-domain links not yet visited are appended to the frontier.
   */
  lemma VisitKeeps(web: Web, start: Url, universe: set<Url>,
                   visited: set<Url>, toVisit: seq<Url>, files: seq<string>,
                   processed: seq<Url>, saved: seq<Url>, enqueued: seq<Url>, popped: nat)
    requires ClosedUnderLinks(web, start, universe)
    requires CrawlInv(web, start, universe, visited, toVisit, files, processed, saved, enqueued, popped)
    requires toVisit != [] && toVisit[0] !in visited
    ensures
      var url := toVisit[0];
      var visited' := visited + {url};
      var discovered := Unvisited(GetLinks(web, url, start), visited');
      && |visited'| <= |universe|
      && CrawlInv(web, start, universe, visited', toVisit[1..] + discovered,
                  if web.fetchOk(url) then files + [ArtifactName(web, url)] else files,
                  processed + [url],
                  if web.fetchOk(url) then saved + [url] else saved,
                  enqueued + discovered, popped + 1)
  {
    var url := toVisit[0];
    var visited' := visited + {url};
    var discovered := Unvisited(GetLinks(web, url, start), visited');
    assert url == enqueued[popped];
    SubsetSize(visited', universe);
    CoveredStep(web, start, visited, toVisit);
    PopLog(enqueued, popped, processed, visited);
    FrontierSuffix(toVisit, enqueued, popped, discovered);
    SaveLog(web, processed, saved, files, url);
    DiscoveredReachable(web, start, universe, enqueued, url, visited');
    AppendLogStep(web, start, processed, visited, url);
  }

  /** What the invariant gives once the frontier is empty. */
  lemma CrawlDone(web: Web, start: Url, universe: set<Url>,
                  visited: set<Url>, files: seq<string>,
                  processed: seq<Url>, saved: seq<Url>, enqueued: seq<Url>, popped: nat)
    requires CrawlInv(web, start, universe, visited, [], files, processed, saved, enqueued, popped)
    ensures start in visited && visited <= universe
    ensures ClosedUnderLinks(web, start, visited)
    ensures forall u :: u in visited <==> Reachable(web, start, u)
    ensures forall u :: u in visited ==> SameDomain(web.parse, start, u)
    ensures Distinct(processed) && forall u :: u in processed <==> u in visited
    ensures processed == FirstOccurrences(enqueued)
    ensures forall k :: 0 <= k < |enqueued| ==> SameDomain(web.parse, start, enqueued[k])
    ensures Distinct(saved)
  {
    assert enqueued[..popped] == enqueued;
    assert start in enqueued;
    forall k | 0 <= k < |enqueued| ensures SameDomain(web.parse, start, enqueued[k]) {
      var p :| IsPathTo(web, start, p, enqueued[k]);
      ReachableInDomain(web, start, p, enqueued[k]);
    }
    forall u | u in visited ensures Reachable(web, start, u) && SameDomain(web.parse, start, u) {
      assert u in enqueued;
      var p :| IsPathTo(web, start, p, u);
      ReachableInDomain(web, start, p, u);
    }
    forall u | Reachable(web, start, u) ensures u in visited {
      var p :| IsPathTo(web, start, p, u);
      ReachableInClosed(web, start, visited, p, u);
    }
    FetchedDistinct(web, processed);
  }

  /**
   * `crawl_domain(start)`. The network is `web`; `universe` is a finite set
   * of URLs that holds the seed and every in-domain link of its pages (the
   * crawl terminates only when such a set exists).
   *
   * Results: `visited`, the final visited set; `files`, the names of the
   * files written, in order. Ghost results: `processed`, the URLs for which
   * `save_html` and `get_links` were called, in order; `saved`, those whose
   * page was written; `enqueued`, every URL ever appended to the frontier,
   * in order, starting with the seed.
   *
   * FIFO order: `enqueued` is the append log that visiting `processed` in
   * order produces, and `processed` is that log with repeats dropped. A URL
   * enters `processed` only after the visit that appended it, so the two
   * together fix the order in which pages are visited and files written.
   */
  method CrawlDomain(web: Web, start: Url, ghost universe: set<Url>)
    returns (visited: set<Url>, files: seq<string>,
             ghost processed: seq<Url>, ghost saved: seq<Url>, ghost enqueued: seq<Url>)
    requires start in universe && ClosedUnderLinks(web, start, universe)
    ensures start in visited && visited <= universe
    ensures ClosedUnderLinks(web, start, visited)
    ensures forall u :: u in visited <==> Reachable(web, start, u)
    ensures forall u :: u in visited ==> SameDomain(web.parse, start, u)
    ensures Distinct(processed) && forall u :: u in processed <==> u in visited
    ensures enqueued == AppendLog(web, start, processed) && processed == FirstOccurrences(enqueued)
    ensures forall k :: 0 <= k < |enqueued| ==> SameDomain(web.parse, start, enqueued[k])
    ensures saved == Fetched(web, processed) && Distinct(saved)
    ensures files == ArtifactNames(web, saved)
  {
    visited, files := {}, [];
    processed, saved, enqueued := [], [], [start];
    var toVisit := [start];
    ghost var popped := 0;
    assert IsPathTo(web, start, [start], start);
    while toVisit != []
      invariant CrawlInv(web, start, universe, visited, toVisit, files, processed, saved, enqueued, popped)
      decreases |universe| - |visited|, |toVisit|
    {
      var url := toVisit[0];
      if url in visited {
        SkipKeeps(web, start, universe, visited, toVisit, files, processed, saved, enqueued, popped);
        toVisit, popped := toVisit[1..], popped + 1;
      } else {
        VisitKeeps(web, start, universe, visited, toVisit, files, processed, saved, enqueued, popped);
        toVisit, popped := toVisit[1..], popped + 1;
        visited := visited + {url};
        processed := processed + [url];

        // save_html
        if web.fetchOk(url) {
          files := files + [ArtifactName(web, url)];
          saved := saved + [url];
        }

        // get_links, then append every link not yet visited
        var newLinks := GetLinks(web, url, start);
        enqueued := enqueued + Unvisited(newLinks, visited);
        toVisit := AppendUnvisited(toVisit, newLinks, visited);
      }
    }
    CrawlDone(web, start, universe, visited, files, processed, saved, enqueued, popped);
  }

  /**
   * Every file the crawl writes is named after a page of the seed's domain,
   * so its name starts with the seed's network location.
   */
  lemma FilesInDomain(web: Web, start: Url, saved: seq<Url>, files: seq<string>)
    requires files == ArtifactNames(web, saved)
    requires forall u :: u in saved ==> SameDomain(web.parse, start, u)
    ensures forall k :: 0 <= k < |files| ==>
      var netloc := web.parse(start).netloc;
      |netloc| <= |files[k]| && files[k][..|netloc|] == netloc
  {
    forall k | 0 <= k < |files|
      ensures |web.parse(start).netloc| <= |files[k]| && files[k][..|web.parse(start).netloc|] == web.parse(start).netloc
    {
      var parts := web.parse(saved[k]);
      assert saved[k] in saved;
      assert files[k] == FlatFileName(parts.netloc, parts.path, parts.query);
    }
  }
}
