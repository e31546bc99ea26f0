# python-crawler, modelled in Dafny

The crawler starts from one seed URL and downloads every page that can be
reached from the seed by following links inside the seed's domain and whose
request succeeds. A page of the domain that no reachable page links to is
never downloaded. `crawl_domain` keeps a FIFO frontier `to_visit` and a `visited` set. It
pops a URL from the front and skips it if it was already visited. Otherwise it
marks the URL visited, saves its page to a file named after the URL, and
appends to the back of the frontier every in-domain link of the page that is
not yet visited. Links are in the domain when their network location equals
the seed's (`is_same_domain`).

The project has four modules:

- `Scope` (`scope.dfy`) models `is_same_domain`.
- `Links` (`links.dfy`) models the outside world as an oracle `Web`, plus the
  same-domain filter of `get_links`.
- `Naming` (`naming.dfy`) models the file name that `save_html` builds. It
  holds both the name as written and a corrected name (see Findings).
- `Crawl` (`crawl.dfy`) models the `crawl_domain` loop as a method with a
  `while` loop over a `seq` frontier and a `set` of visited URLs.

The crawl method keeps four ghost logs:

- `processed`: the URLs it called `save_html`/`get_links` for;
- `saved`: the URLs whose page was written;
- `enqueued`: every URL ever appended to the frontier;
- `popped`: how many URLs were taken off the front.

The loop is proved against these logs. FIFO shows up as the frontier always
being the unconsumed suffix of `enqueued`, with `processed` being the first
occurrences of the consumed prefix. `enqueued` itself is the function
`AppendLog` of `processed`: the seed, then, for each processed URL in turn,
the in-domain links of its page that were not visited at that moment. So the
order in which pages are visited, and in which files are written, is the
breadth-first order the code produces.

Termination needs a finite ghost set `universe` that holds the seed and is
closed under in-domain links. When no such set exists, the crawl never ends.

## Model

| member | source | states |
|---|---|---|
| Scope.SameDomain | crawler.py:7-13 | true exactly when the two parsed netlocs are equal |
| Scope.SameDomainReflexive | crawler.py:7-13 | every URL is in its own domain, so the seed is in scope of itself |
| Scope.SameDomainSymmetric | crawler.py:11-13 | the order of the two arguments of the netloc comparison does not matter |
| Scope.SameDomainTransitive | crawler.py:11-13 | two URLs in the domain of a third are in each other's domain |
| Links.InDomain | crawler.py:26-30 | the filter keeps a link iff it is in the domain of the base URL, and never adds links |
| Links.InDomainAppend | crawler.py:26-30 | filtering a concatenation is the concatenation of the filtered parts, in order |
| Links.InDomainKeepsInScope | crawler.py:29-30 | a list whose links are all in the domain passes the filter unchanged |
| Links.InDomainIdempotent | crawler.py:26-30 | filtering twice is the same as filtering once |
| Links.GetLinks | crawler.py:15-33 | a link is returned iff it is an anchor of the fetched page and is in the base URL's domain |
| Naming.Replace | crawler.py:46-47 | `str.replace` of one character by another keeps the length and changes exactly the occurrences of the target |
| Naming.ReplaceRemoves | crawler.py:46-47 | after the replacement no occurrence of the target is left |
| Naming.SafePath | crawler.py:46 | `safe_path` is `_root` for an empty path; otherwise it is the path with each `/` turned into `_`; it never holds `/` |
| Naming.SafeQuery | crawler.py:47 | `safe_query` is the query with each `=` and `&` turned into `_`, same length, and holds neither |
| Naming.FileName | crawler.py:49-52 | the name starts with the netloc and ends in `.html`; its length counts `_root` for an empty path and one `_` separator for a non-empty query |
| Naming.RootPathNames | crawler.py:46 | the empty path gives `_root.html`, but the path `/` gives `_.html` |
| Naming.FileNamesCollide | crawler.py:46-52 | distinct URLs can share a name: `a=b` vs `a&b` in the query, and the empty path vs the path `/root` (`http://h` vs `http://h/root`) |
| Naming.FileNameKeepsQuerySeparator | crawler.py:47-52 | as written, a `/` in the query survives into the file name |
| Naming.FlatQuery | crawler.py:47 | the corrected query component turns each `=`, `&` and `/` into `_` and holds none of them |
| Naming.FlatFileName | crawler.py:49-52 | the corrected name has the same length, netloc prefix and `.html` suffix as the name as written |
| Naming.FlatFileNameIsFlat | crawler.py:54 | when the netloc holds no `/`, the corrected name holds no path separator at all |
| Naming.FlatFileNameAgrees | crawler.py:47-52 | when the query holds no `/`, the corrected name equals the name as written |
| Crawl.FirstOccurrences | crawler.py:74-77 | the log of processed URLs is repetition-free and holds exactly the URLs that were popped |
| Crawl.Fetched | crawler.py:41-43 | a processed URL is saved iff the request of `save_html` answered 200 |
| Crawl.FetchedDistinct | crawler.py:74-80 | since no URL is processed twice, no page is saved twice |
| Crawl.ArtifactName | crawler.py:44-52 | the corrected name `Naming.FlatFileName` of the URL's parsed netloc, path and query (the code as written builds `Naming.FileName`): it starts with the netloc, ends in `.html`, and holds no `/` when the netloc holds none |
| Crawl.ArtifactNames | crawler.py:44-57 | the k-th file written is named after the k-th saved URL |
| Crawl.Unvisited | crawler.py:87-89 | a discovered link is queued iff it is not yet visited, and never more links than were found |
| Crawl.UnvisitedKeepsDuplicates | crawler.py:87-89 | a link not yet visited is queued as many times as it occurs among the page's links |
| Crawl.UnvisitedAppend | crawler.py:87-89 | the links are examined one by one in order: filtering a concatenation filters each part and keeps their order |
| Crawl.AppendLog | crawler.py:71-89 | the append log of the frontier starts with the seed (what each visit appends is stated by `Crawl.AppendLogStep`) |
| Crawl.AppendLogStep | crawler.py:77-89 | visiting a URL extends the append log by exactly its in-domain links not yet visited, the URL itself counting as visited |
| Crawl.FailedPageAddsNothing | crawler.py:20-33 | a URL whose page cannot be fetched adds nothing to the frontier, and no file when the save request fails too |
| Crawl.AppendUnvisited | crawler.py:87-89 | the inner loop appends to the back of the frontier exactly the unvisited links, in order |
| Crawl.CoveredStep | crawler.py:70-89 | skipping a visited URL, or visiting a new one and queueing its unvisited links, keeps every link of a visited page visited or queued |
| Crawl.ExtendPath | crawler.py:86-89 | a link path extended by a link of its last page is a link path |
| Crawl.ReachableInDomain | crawler.py:29-30 | every page reachable from the seed by in-domain links is in the seed's domain |
| Crawl.ReachableStep | crawler.py:86-89 | a link of a reachable page is reachable |
| Crawl.ReachableInClosed | crawler.py:70-89 | a link-closed set holding the seed holds every reachable page |
| Crawl.PopLog | crawler.py:74-77 | popping the front extends the processed log exactly when the URL was not yet visited |
| Crawl.FrontierSuffix | crawler.py:74-89 | after a pop from the front and appends at the back, the frontier is still the unconsumed suffix of the append log |
| Crawl.SaveLog | crawler.py:41-60 | a successful save extends the saved log and the file names together |
| Crawl.DiscoveredReachable | crawler.py:86-89 | links queued while visiting a reachable URL are reachable and in the universe |
| Crawl.SkipKeeps | crawler.py:74-76 | popping an already visited URL changes nothing but the frontier and keeps the loop invariant |
| Crawl.VisitKeeps | crawler.py:77-89 | visiting a new URL keeps the loop invariant and grows the visited set, still inside the universe |
| Crawl.CrawlDone | crawler.py:73-91 | with an empty frontier, `visited` holds the seed, is link-closed, is exactly the reachable set and lies in the seed's domain, and each URL was processed once |
| Crawl.CrawlDomain | crawler.py:65-91 | the crawl terminates; it visits exactly the pages reachable from the seed by in-domain links; every queued URL is in the seed's domain; each URL is processed at most once, in FIFO order: `enqueued` is the append log of `processed` and `processed` its first occurrences, which fixes the visiting order; a file is written for exactly the processed URLs whose fetch succeeded, named after them |
| Crawl.FilesInDomain | crawler.py:49-54 | every file the crawl writes is named with the seed's netloc as prefix |

## Left out

- HTTP is left out: `requests.get`, its timeout, status codes and `RequestException` handling (crawler.py:22-23, 31-32, 41-42, 62-63). The oracle `Web` takes their place. `anchors(u)` is the resolved anchor list, empty on failure or non-200. `fetchOk(u)` is whether the separate request of `save_html` answered 200. The code issues two requests per visited URL, so the two can disagree.
- HTML parsing (BeautifulSoup), `urljoin` and `urlparse` are foreign libraries. Resolved links are abstract inputs, and `parse` supplies netloc, path and query.
- The filesystem is left out: `os.path.join`, `os.makedirs`, `open`/`write` (crawler.py:54-59). Only the file names are modelled, as the sequence `files`.
- `time.sleep(1)` and every `print` have no behavioural content.
- The `__main__` block (crawler.py:93-96) is only an entry point with a fixed seed.
- Crawl.ArtifactName: builds the corrected `Naming.FlatFileName`, not the name as written `Naming.FileName`, so Crawl.CrawlDomain names files with the corrected name. As written, a `/` in a query makes `open` raise an OSError that the code does not catch, which ends the whole crawl (see Findings).
- Uncaught exceptions are not modelled. Write errors, or a ValueError from `urljoin`/`urlparse` on a malformed link, propagate out of `crawl_domain` in the code, because only `RequestException` is caught. They are not isolated per URL. The model's oracles are total, so it has no such exits.
- Crawl.CrawlDomain: requires a finite link-closed `universe`. Termination of the code over an infinite in-domain web cannot be proved, because it does not hold.
- Crawl.CrawlDomain: states the visiting order through `AppendLog` and `FirstOccurrences`. The consequence that pages are processed in non-decreasing link distance from the seed is not proved separately.
- File-name injectivity is not claimed, since it is false (see `Naming.FileNamesCollide`).

## Findings

| source | as written | input that shows it | evidently intended | confidence | as-written member | corrected member |
|---|---|---|---|---|---|---|
| crawler.py:47-57 | `safe_query` replaces only `=` and `&`, so a `/` of the query stays in the file name and `os.path.join` makes it a path into a sub-directory that is never created; `open` raises an uncaught error | URL `https://example.com/p?next=/home`: query `next=/home`, name `example.com_p_next_/home.html` | a flat file name inside the output directory, the query's `/` replaced like the path's | not executed | Naming.FileNameKeepsQuerySeparator | Naming.FlatFileName |
