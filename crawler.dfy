/**
 * The crawl frontier of `DocumentationScraper`: the visited set, the set of
 * URLs still to visit, the count of saved pages, and the list of page
 * reports that `run` collects. Fetching, HTML parsing and writing files are
 * not modelled; what one page's visit produced is given as a `FetchOutcome`.
 *
 * `Scrape` states what one call of `scrape_page` does to the bookkeeping;
 * the class's methods are proved to follow it, and the lemmas below prove
 * what the crawl keeps true. The file name of a report is given by a naming
 * function `name`, which the scraper binds to `UrlToFilename` for its base
 * URL (`NamesFiles`); the crawl lemmas hold for any naming.
 */
module Crawler {
  import opened PyStr
  import opened ScraperUrls

  datatype Option<T> = None | Some(value: T)

  /** What requesting, parsing and saving one page produced. */
  datatype FetchOutcome =
    /** The page was saved; `hrefs` are its anchors' targets, already made absolute and normalised. */
    | Fetched(title: string, hrefs: set<string>)
    /** An exception before the page counted as saved (request, HTTP status, parsing, writing). */
    | FetchFailed
    /** The page was saved and counted, then collecting its links raised. */
    | LinksFailed
  {
    /** The page's file was written and `scraped_count` incremented. */
    predicate Saved() {
      Fetched? || LinksFailed?
    }
  }

  /** The dictionary `scrape_page` returns for a saved page. */
  datatype PageReport = PageReport(url: string, title: string, filename: string, linksFound: nat)

  /** The scraper's bookkeeping: `visited_urls`, `urls_to_visit` and `scraped_count`. */
  datatype Frontier = Frontier(visited: set<string>, toVisit: set<string>, count: nat)

  /** A finite site: the outcome of visiting each URL it answers for. */
  type Site = map<string, FetchOutcome>

  /** Visiting a URL the site does not answer for fails. */
  function Fetch(site: Site, url: string): FetchOutcome {
    if url in site then site[url] else FetchFailed
  }

  /**
   * The links of a page that `extract_links` keeps: those passing the
   * base-URL filter. Each one lies under the base, and for a non-empty
   * stored base they are exactly the page's links that start with it.
   */
  function ValidLinks(base: string, hrefs: set<string>): (links: set<string>)
    ensures links <= hrefs
    ensures forall l :: l in links ==> IsValidUrl(base, l)
    ensures forall l :: l in hrefs && IsValidUrl(base, l) ==> l in links
    ensures forall l :: l in links ==> l != [] && base <= l
    ensures base != [] && IsStoredBase(base) ==> links == set l | l in hrefs && base <= l
  {
    ValidLinksUnderBase(base, hrefs);
    set l | l in hrefs && IsValidUrl(base, l)
  }

  /** Helper for `ValidLinks`: under a non-empty stored base the filter is the prefix test. */
  lemma ValidLinksUnderBase(base: string, hrefs: set<string>)
    ensures base != [] && IsStoredBase(base) ==>
      (set l | l in hrefs && IsValidUrl(base, l)) == (set l | l in hrefs && base <= l)
  {
    if base != [] && IsStoredBase(base) {
      forall l | l in hrefs {
        IsValidUrlIffPrefix(base, l);
      }
    }
  }

  /**
   * The report for a saved page: its URL, title, file name and number of
   * kept links. `name` is the scraper's `url_to_filename`; `NamesFiles`
   * below ties it to `UrlToFilename`.
   */
  function Report(name: string -> string, base: string, url: string, title: string, hrefs: set<string>): (r: PageReport)
    ensures r.url == url && r.title == title && r.filename == name(url)
    ensures r.linksFound <= |hrefs|
  {
    SubsetCardinality(ValidLinks(base, hrefs), hrefs);
    PageReport(url, title, name(url), |ValidLinks(base, hrefs)|)
  }

  /** Helper for `Report`: a subset is no larger than its superset. */
  lemma {:induction false} SubsetCardinality(a: set<string>, b: set<string>)
    requires a <= b
    ensures |a| <= |b|
    decreases b
  {
    if a != {} {
      var x :| x in a;
      SubsetCardinality(a - {x}, b - {x});
    }
  }

  /** The state right after construction: nothing visited, the raw base URL queued. */
  function Initial(rawBase: string): (s: Frontier)
    ensures Wellformed(RStrip(rawBase, '/'), rawBase, s)
  {
    Frontier({}, {rawBase}, 0)
  }

  /** One call of `scrape_page(url)` whose page visit had the given outcome. */
  function Scrape(name: string -> string, base: string, s: Frontier, url: string, outcome: FetchOutcome): (r: (Frontier, Option<PageReport>))
    ensures r.0.visited == s.visited + {url}
    ensures s.toVisit <= r.0.toVisit && s.count <= r.0.count <= s.count + 1
    ensures r.1.Some? ==> url !in s.visited && r.1.value.url == url
  {
    if url in s.visited then (s, None)
    else
      var visited := s.visited + {url};
      match outcome
      case FetchFailed => (Frontier(visited, s.toVisit, s.count), None)
      case LinksFailed => (Frontier(visited, s.toVisit, s.count + 1), None)
      case Fetched(title, hrefs) =>
        (Frontier(visited, s.toVisit + (ValidLinks(base, hrefs) - visited), s.count + 1),
         Some(Report(name, base, url, title, hrefs)))
  }

  // ---------------------------------------------------------------------------
  // One page
  // ---------------------------------------------------------------------------

  /** A URL already visited is skipped: nothing changes and nothing is returned. */
  lemma ScrapeVisitedIsSkipped(name: string -> string, base: string, s: Frontier, url: string, outcome: FetchOutcome)
    requires url in s.visited
    ensures Scrape(name, base, s, url, outcome) == (s, None)
  {
  }

  /**
   * A new URL is marked visited whether or not its page could be fetched;
   * the counter goes up by one exactly when the page was saved, and a report
   * is returned exactly when its links were collected too.
   */
  lemma ScrapeNewUrl(name: string -> string, base: string, s: Frontier, url: string, outcome: FetchOutcome)
    requires url !in s.visited
    ensures var (next, result) := Scrape(name, base, s, url, outcome);
      && next.visited == s.visited + {url}
      && |next.visited| == |s.visited| + 1
      && next.count == s.count + (if outcome.Saved() then 1 else 0)
      && (result.Some? <==> outcome.Fetched?)
      && (result.Some? ==> result.value.url == url && result.value.filename == name(url))
      && s.toVisit <= next.toVisit
  {
  }

  /** Once scraped, a URL is never processed again, whatever a second visit would produce. */
  lemma ScrapeAtMostOnce(name: string -> string, base: string, s: Frontier, url: string, first: FetchOutcome, second: FetchOutcome)
    ensures var next := Scrape(name, base, s, url, first).0;
      url in next.visited && Scrape(name, base, next, url, second) == (next, None)
  {
  }

  /** The counter never exceeds the number of visited URLs. */
  lemma ScrapeKeepsCountBound(name: string -> string, base: string, s: Frontier, url: string, outcome: FetchOutcome)
    requires s.count <= |s.visited|
    ensures Scrape(name, base, s, url, outcome).0.count <= |Scrape(name, base, s, url, outcome).0.visited|
  {
    if url !in s.visited {
      ScrapeNewUrl(name, base, s, url, outcome);
    }
  }

  /**
   * Links already visited are not queued, so the frontier stays disjoint
   * from the visited set, provided the scraped URL was not itself waiting
   * (`run` pops it first).
   */
  lemma ScrapeKeepsDisjoint(name: string -> string, base: string, s: Frontier, url: string, outcome: FetchOutcome)
    requires s.toVisit !! s.visited && url !in s.toVisit
    ensures Scrape(name, base, s, url, outcome).0.toVisit !! Scrape(name, base, s, url, outcome).0.visited
  {
  }

  /** Everything newly queued is a link of the page that passes the base-URL filter. */
  lemma ScrapeQueuesValidLinks(name: string -> string, base: string, s: Frontier, url: string, outcome: FetchOutcome)
    ensures var next := Scrape(name, base, s, url, outcome).0;
      forall l :: l in next.toVisit - s.toVisit ==>
        outcome.Fetched? && l in outcome.hrefs && IsValidUrl(base, l) && l !in next.visited
  {
  }

  // ---------------------------------------------------------------------------
  // The bookkeeping invariant
  // ---------------------------------------------------------------------------

  /** A URL the crawl may hold: the first one, or one that passed the filter. */
  predicate Admissible(base: string, seed: string, u: string) {
    u == seed || IsValidUrl(base, u)
  }

  /**
   * What the scraper keeps true between calls: nothing is both visited and
   * waiting, every URL it holds is admissible, and the counter does not
   * exceed the number of visited URLs.
   */
  ghost predicate Wellformed(base: string, seed: string, s: Frontier) {
    && s.toVisit !! s.visited
    && (forall u :: u in s.toVisit ==> Admissible(base, seed, u))
    && (forall u :: u in s.visited ==> Admissible(base, seed, u))
    && s.count <= |s.visited|
  }

  /** `run`'s step, popping a waiting URL and scraping it, keeps the state well formed. */
  lemma PopAndScrapeWellformed(name: string -> string, base: string, seed: string, s: Frontier, url: string, outcome: FetchOutcome)
    requires Wellformed(base, seed, s) && url in s.toVisit
    ensures Wellformed(base, seed, Scrape(name, base, s.(toVisit := s.toVisit - {url}), url, outcome).0)
  {
    var popped := s.(toVisit := s.toVisit - {url});
    ScrapeKeepsDisjoint(name, base, popped, url, outcome);
    ScrapeKeepsCountBound(name, base, popped, url, outcome);
    ScrapeQueuesValidLinks(name, base, popped, url, outcome);
    var next := Scrape(name, base, popped, url, outcome).0;
    assert next.visited <= s.visited + {url};
    assert forall u :: u in next.toVisit ==> u in s.toVisit || u in next.toVisit - popped.toVisit;
  }

  /** A well-formed crawl holds only URLs that start with the base (the stored base is a prefix of the seed). */
  lemma WellformedStaysUnderBase(seed: string, s: Frontier)
    requires Wellformed(RStrip(seed, '/'), seed, s)
    ensures forall u :: u in s.visited + s.toVisit ==> RStrip(seed, '/') <= u
  {
  }

  // ---------------------------------------------------------------------------
  // The crawl loop
  // ---------------------------------------------------------------------------

  /** Every link that some saved page of the site points to. */
  function SiteLinks(site: Site): set<string> {
    set k, l | k in site && site[k].Fetched? && l in site[k].hrefs :: l
  }

  /** The URLs among `urls` whose page was saved and whose links then failed. */
  function LinkFailures(site: Site, urls: set<string>): set<string> {
    set u | u in urls && Fetch(site, u).LinksFailed?
  }

  /** The URLs `run` may still visit: finitely many, since the site is finite. */
  function Remaining(site: Site, start: Frontier, s: Frontier): set<string> {
    (start.visited + start.toVisit + SiteLinks(site)) - s.visited
  }

  /** `run`'s loop body: pop `url`, scrape it, append its report if any. */
  function RunStep(name: string -> string, base: string, site: Site, s: Frontier, results: seq<PageReport>, url: string): (r: (Frontier, seq<PageReport>))
    ensures r.0.visited == s.visited + {url}
    ensures results <= r.1 && |r.1| <= |results| + 1
  {
    var (next, result) := Scrape(name, base, s.(toVisit := s.toVisit - {url}), url, Fetch(site, url));
    (next, if result.Some? then results + [result.value] else results)
  }

  /** Visited and waiting URLs: the start's, and links of the site's saved pages. */
  ghost predicate Covers(site: Site, start: Frontier, s: Frontier) {
    && start.visited <= s.visited
    && start.toVisit <= s.visited + s.toVisit
    && s.visited + s.toVisit <= start.visited + start.toVisit + SiteLinks(site)
  }

  /** Each report belongs to a distinct URL visited in this run whose page was saved with its links. */
  ghost predicate ReportsSound(name: string -> string, base: string, site: Site, added: set<string>, results: seq<PageReport>) {
    && (forall i :: 0 <= i < |results| ==>
          && results[i].url in added
          && Fetch(site, results[i].url).Fetched?
          && results[i] == Report(name, base, results[i].url, Fetch(site, results[i].url).title,
                                  Fetch(site, results[i].url).hrefs))
    && (forall i, j :: 0 <= i < j < |results| ==> results[i].url != results[j].url)
  }

  /** Every URL visited in this run whose page was saved with its links has a report. */
  ghost predicate ReportsComplete(site: Site, added: set<string>, results: seq<PageReport>) {
    forall u :: u in added && Fetch(site, u).Fetched? ==> exists i :: 0 <= i < |results| && results[i].url == u
  }

  /** The valid links of every page saved in this run are known (visited or waiting). */
  ghost predicate LinksKnown(base: string, site: Site, added: set<string>, known: set<string>) {
    forall u :: u in added && Fetch(site, u).Fetched? ==> ValidLinks(base, Fetch(site, u).hrefs) <= known
  }

  /** The counter counts the reports and the pages whose links failed. */
  ghost predicate CountMatches(site: Site, start: Frontier, s: Frontier, results: seq<PageReport>) {
    s.count == start.count + |results| + |LinkFailures(site, s.visited - start.visited)|
  }

  /** `run`'s loop invariant, relative to the state `start` the loop began in. */
  ghost predicate Crawling(name: string -> string, base: string, seed: string, site: Site, start: Frontier, s: Frontier, results: seq<PageReport>) {
    && Wellformed(base, seed, s)
    && Covers(site, start, s)
    && ReportsSound(name, base, site, s.visited - start.visited, results)
    && ReportsComplete(site, s.visited - start.visited, results)
    && LinksKnown(base, site, s.visited - start.visited, s.visited + s.toVisit)
    && CountMatches(site, start, s, results)
  }

  /** The loop starts out satisfying its invariant. */
  lemma CrawlingAtStart(name: string -> string, base: string, seed: string, site: Site, start: Frontier)
    requires Wellformed(base, seed, start)
    ensures Crawling(name, base, seed, site, start, start, [])
  {
    assert start.visited - start.visited == {};
    assert LinkFailures(site, {}) == {};
  }

  /** Helper: what one loop step adds to the visited set and the frontier. */
  lemma RunStepShape(name: string -> string, base: string, site: Site, s: Frontier, results: seq<PageReport>, url: string)
    requires s.toVisit !! s.visited && url in s.toVisit
    ensures var (next, results') := RunStep(name, base, site, s, results, url);
      && next.visited == s.visited + {url}
      && next.toVisit == (s.toVisit - {url}) +
           (if Fetch(site, url).Fetched? then ValidLinks(base, Fetch(site, url).hrefs) - next.visited else {})
      && next.count == s.count + (if Fetch(site, url).Saved() then 1 else 0)
      && results' == if Fetch(site, url).Fetched?
                     then results + [Report(name, base, url, Fetch(site, url).title, Fetch(site, url).hrefs)]
                     else results
  {
  }

  /** Helper: the links of a saved page of the site are among the site's links. */
  lemma PageLinksInSite(base: string, site: Site, url: string)
    requires Fetch(site, url).Fetched?
    ensures ValidLinks(base, Fetch(site, url).hrefs) <= SiteLinks(site)
  {
    forall l | l in ValidLinks(base, Fetch(site, url).hrefs) ensures l in SiteLinks(site) {
      assert url in site && site[url].Fetched? && l in site[url].hrefs;
    }
  }

  /** Helper: visiting a URL that could still be visited removes it from what remains. */
  lemma RemainingShrinks(site: Site, start: Frontier, s: Frontier, next: Frontier, url: string)
    requires next.visited == s.visited + {url} && url !in s.visited
    requires url in start.visited + start.toVisit + SiteLinks(site)
    ensures Remaining(site, start, next) < Remaining(site, start, s)
  {
    assert Remaining(site, start, next) == Remaining(site, start, s) - {url};
    assert url in Remaining(site, start, s);
  }

  /** Helper: moving a waiting URL to the visited set and queueing site links keeps the coverage bounds. */
  lemma CoversAfterVisit(site: Site, start: Frontier, s: Frontier, next: Frontier, url: string, queued: set<string>)
    requires Covers(site, start, s) && url in s.toVisit
    requires next.visited == s.visited + {url}
    requires next.toVisit == (s.toVisit - {url}) + queued && queued <= SiteLinks(site)
    ensures Covers(site, start, next)
  {
    assert s.visited + s.toVisit <= next.visited + next.toVisit;
  }

  /** A loop step keeps the coverage bounds and shrinks what remains to visit. */
  lemma RunStepCovers(name: string -> string, base: string, seed: string, site: Site, start: Frontier, s: Frontier,
                      results: seq<PageReport>, url: string)
    requires Wellformed(base, seed, s) && Covers(site, start, s) && url in s.toVisit
    ensures var next := RunStep(name, base, site, s, results, url).0;
      && Covers(site, start, next)
      && Remaining(site, start, next) < Remaining(site, start, s)
  {
    RunStepShape(name, base, site, s, results, url);
    var next := RunStep(name, base, site, s, results, url).0;
    var queued := if Fetch(site, url).Fetched? then ValidLinks(base, Fetch(site, url).hrefs) - next.visited else {};
    if Fetch(site, url).Fetched? {
      PageLinksInSite(base, site, url);
    }
    CoversAfterVisit(site, start, s, next, url, queued);
    RemainingShrinks(site, start, s, next, url);
  }

  /** Helper: a report for a newly visited URL keeps the reports sound. */
  lemma ReportsSoundExtend(name: string -> string, base: string, site: Site, added: set<string>, results: seq<PageReport>, url: string)
    requires ReportsSound(name, base, site, added, results) && url !in added
    ensures ReportsSound(name, base, site, added + {url},
      if Fetch(site, url).Fetched?
      then results + [Report(name, base, url, Fetch(site, url).title, Fetch(site, url).hrefs)]
      else results)
  {
    if Fetch(site, url).Fetched? {
      var results' := results + [Report(name, base, url, Fetch(site, url).title, Fetch(site, url).hrefs)];
      forall i | 0 <= i < |results'|
        ensures results'[i].url in added + {url} && Fetch(site, results'[i].url).Fetched?
        ensures results'[i] == Report(name, base, results'[i].url, Fetch(site, results'[i].url).title,
                                      Fetch(site, results'[i].url).hrefs)
      {
        if i < |results| {
          assert results'[i] == results[i];
        }
      }
      forall i, j | 0 <= i < j < |results'| ensures results'[i].url != results'[j].url {
        if j < |results| {
          assert results'[i] == results[i] && results'[j] == results[j];
        } else {
          assert results'[i] == results[i] && results[i].url in added;
        }
      }
    }
  }

  /** Helper: the report of a newly visited URL, if any, keeps the reports complete. */
  lemma ReportsCompleteExtend(site: Site, added: set<string>, results: seq<PageReport>,
                              url: string, results': seq<PageReport>)
    requires ReportsComplete(site, added, results)
    requires Fetch(site, url).Fetched? ==> |results'| == |results| + 1 && results'[|results|].url == url
    requires results <= results'
    ensures ReportsComplete(site, added + {url}, results')
  {
    forall u | u in added + {url} && Fetch(site, u).Fetched?
      ensures exists i :: 0 <= i < |results'| && results'[i].url == u
    {
      if u == url {
        assert results'[|results|].url == u;
      } else {
        var i :| 0 <= i < |results| && results[i].url == u;
        assert results'[i] == results[i];
      }
    }
  }

  /** A loop step keeps the reports sound and complete. */
  lemma RunStepReports(name: string -> string, base: string, seed: string, site: Site, start: Frontier, s: Frontier,
                       results: seq<PageReport>, url: string)
    requires Wellformed(base, seed, s) && Covers(site, start, s) && url in s.toVisit
    requires ReportsSound(name, base, site, s.visited - start.visited, results)
    requires ReportsComplete(site, s.visited - start.visited, results)
    ensures var (next, results') := RunStep(name, base, site, s, results, url);
      && ReportsSound(name, base, site, next.visited - start.visited, results')
      && ReportsComplete(site, next.visited - start.visited, results')
  {
    RunStepShape(name, base, site, s, results, url);
    var (next, results') := RunStep(name, base, site, s, results, url);
    var added := s.visited - start.visited;
    assert next.visited - start.visited == added + {url};
    ReportsSoundExtend(name, base, site, added, results, url);
    ReportsCompleteExtend(site, added, results, url, results');
  }

  /** A loop step keeps the links of all pages saved so far known. */
  lemma RunStepLinks(name: string -> string, base: string, seed: string, site: Site, start: Frontier, s: Frontier,
                     results: seq<PageReport>, url: string)
    requires Wellformed(base, seed, s) && url in s.toVisit
    requires LinksKnown(base, site, s.visited - start.visited, s.visited + s.toVisit)
    ensures var next := RunStep(name, base, site, s, results, url).0;
      LinksKnown(base, site, next.visited - start.visited, next.visited + next.toVisit)
  {
    RunStepShape(name, base, site, s, results, url);
    var next := RunStep(name, base, site, s, results, url).0;
    assert s.visited + s.toVisit <= next.visited + next.toVisit;
  }

  /** Helper: visiting one more URL adds it to the link failures exactly when its links failed. */
  lemma LinkFailuresAdd(site: Site, added: set<string>, url: string)
    requires url !in added
    ensures |LinkFailures(site, added + {url})| ==
            |LinkFailures(site, added)| + (if Fetch(site, url).LinksFailed? then 1 else 0)
  {
    var failed := LinkFailures(site, added);
    if Fetch(site, url).LinksFailed? {
      assert LinkFailures(site, added + {url}) == failed + {url};
    } else {
      assert LinkFailures(site, added + {url}) == failed;
    }
  }

  /** A loop step keeps the counter equal to reports plus link failures. */
  lemma RunStepCount(name: string -> string, base: string, seed: string, site: Site, start: Frontier, s: Frontier,
                     results: seq<PageReport>, url: string)
    requires Wellformed(base, seed, s) && Covers(site, start, s) && url in s.toVisit
    requires CountMatches(site, start, s, results)
    ensures var (next, results') := RunStep(name, base, site, s, results, url);
      CountMatches(site, start, next, results')
  {
    RunStepShape(name, base, site, s, results, url);
    var (next, results') := RunStep(name, base, site, s, results, url);
    var added := s.visited - start.visited;
    assert next.visited - start.visited == added + {url};
    LinkFailuresAdd(site, added, url);
  }

  /** One loop step keeps `run`'s invariant and shrinks what remains to visit. */
  lemma RunStepKeepsCrawling(name: string -> string, base: string, seed: string, site: Site, start: Frontier, s: Frontier,
                             results: seq<PageReport>, url: string)
    requires Crawling(name, base, seed, site, start, s, results) && url in s.toVisit
    ensures var (next, results') := RunStep(name, base, site, s, results, url);
      && Crawling(name, base, seed, site, start, next, results')
      && Remaining(site, start, next) < Remaining(site, start, s)
  {
    PopAndScrapeWellformed(name, base, seed, s, url, Fetch(site, url));
    RunStepCovers(name, base, seed, site, start, s, results, url);
    RunStepReports(name, base, seed, site, start, s, results, url);
    RunStepLinks(name, base, seed, site, start, s, results, url);
    RunStepCount(name, base, seed, site, start, s, results, url);
  }

  /**
   * `run`'s loop body as the class runs it: popping `url`, scraping it and
   * appending its report keeps the invariant and shrinks what remains.
   */
  lemma ScrapeKeepsCrawling(name: string -> string, base: string, seed: string, site: Site, start: Frontier,
                            s: Frontier, results: seq<PageReport>, url: string,
                            next: Frontier, result: Option<PageReport>, results': seq<PageReport>)
    requires Crawling(name, base, seed, site, start, s, results) && url in s.toVisit
    requires (next, result) == Scrape(name, base, Frontier(s.visited, s.toVisit - {url}, s.count), url, Fetch(site, url))
    requires results' == if result.Some? then results + [result.value] else results
    ensures Crawling(name, base, seed, site, start, next, results')
    ensures Remaining(site, start, next) < Remaining(site, start, s)
  {
    RunStepKeepsCrawling(name, base, seed, site, start, s, results, url);
    assert RunStep(name, base, site, s, results, url) == (next, results');
  }

  /** When the frontier is empty, the invariant gives what `run` promises. */
  lemma CrawlFinished(name: string -> string, base: string, seed: string, site: Site, start: Frontier,
                      s: Frontier, results: seq<PageReport>)
    requires Crawling(name, base, seed, site, start, s, results) && s.toVisit == {}
    ensures Wellformed(base, seed, s)
    ensures start.visited + start.toVisit <= s.visited
    ensures s.visited <= start.visited + start.toVisit + SiteLinks(site)
    ensures ReportsSound(name, base, site, s.visited - start.visited, results)
    ensures ReportsComplete(site, s.visited - start.visited, results)
    ensures LinksKnown(base, site, s.visited - start.visited, s.visited)
    ensures s.count == start.count + |results| + |LinkFailures(site, s.visited - start.visited)|
  {
    assert s.visited + s.toVisit == s.visited;
  }

  /** The URLs listed in `order`, as a set. */
  function Listed(order: seq<string>): (r: set<string>)
    ensures forall u :: u in r <==> u in order
  {
    set u | u in order
  }

  /**
   * `u` is reached once the first `n` URLs of `order` are visited: it was
   * waiting at the start, or it is a kept link of one of them whose page was
   * saved with its links.
   */
  ghost predicate LinkedFrom(base: string, site: Site, start: Frontier, order: seq<string>, n: int, u: string) {
    || u in start.toVisit
    || exists j :: 0 <= j < n && j < |order| && Fetch(site, order[j]).Fetched? &&
                   u in ValidLinks(base, Fetch(site, order[j]).hrefs)
  }

  /**
   * `order` lists the URLs visited since `start`, each once and in visit
   * order. Each was reached from the URLs visited before it. Every waiting
   * URL was reached from the visited ones.
   */
  ghost predicate ReachedInOrder(base: string, site: Site, start: Frontier, s: Frontier, order: seq<string>) {
    && (forall i :: 0 <= i < |order| ==> LinkedFrom(base, site, start, order, i, order[i]))
    && (forall i, j :: 0 <= i < j < |order| ==> order[i] != order[j])
    && Listed(order) == s.visited - start.visited
    && (forall u :: u in s.toVisit ==> LinkedFrom(base, site, start, order, |order|, u))
  }

  /** Helper: a URL reached from a prefix of `order` stays reached when more URLs are visited. */
  lemma LinkedFromExtend(base: string, site: Site, start: Frontier, order: seq<string>, x: string, n: int, m: int, u: string)
    requires n <= m && LinkedFrom(base, site, start, order, n, u)
    ensures LinkedFrom(base, site, start, order + [x], m, u)
  {
    if u !in start.toVisit {
      var j :| 0 <= j < n && j < |order| && Fetch(site, order[j]).Fetched? &&
               u in ValidLinks(base, Fetch(site, order[j]).hrefs);
      assert (order + [x])[j] == order[j];
    }
  }

  /** Visiting a waiting URL, and queueing its new kept links, keeps every URL reached. */
  lemma StepReached(base: string, site: Site, start: Frontier, s: Frontier, order: seq<string>, url: string, next: Frontier)
    requires s.toVisit !! s.visited && start.visited <= s.visited && url in s.toVisit
    requires ReachedInOrder(base, site, start, s, order)
    requires next.visited == s.visited + {url}
    requires next.toVisit == (s.toVisit - {url}) +
      (if Fetch(site, url).Fetched? then ValidLinks(base, Fetch(site, url).hrefs) - next.visited else {})
    ensures ReachedInOrder(base, site, start, next, order + [url])
  {
    var o := order + [url];
    forall i | 0 <= i < |o| ensures LinkedFrom(base, site, start, o, i, o[i]) {
      if i < |order| {
        LinkedFromExtend(base, site, start, order, url, i, i, order[i]);
        assert o[i] == order[i];
      } else {
        LinkedFromExtend(base, site, start, order, url, |order|, |order|, url);
      }
    }
    forall i, j | 0 <= i < j < |o| ensures o[i] != o[j] {
      if j == |order| {
        assert o[i] == order[i] && o[j] == url;
        assert order[i] in Listed(order);
      } else {
        assert o[i] == order[i] && o[j] == order[j];
      }
    }
    assert Listed(o) == Listed(order) + {url};
    forall u | u in next.toVisit ensures LinkedFrom(base, site, start, o, |o|, u) {
      if u in s.toVisit - {url} {
        LinkedFromExtend(base, site, start, order, url, |order|, |o|, u);
      } else {
        assert o[|order|] == url;
      }
    }
  }

  /** Before the loop, nothing is visited and every waiting URL was waiting at the start. */
  lemma ReachedAtStart(base: string, site: Site, start: Frontier)
    ensures ReachedInOrder(base, site, start, start, [])
  {
    var none: seq<string> := [];
    assert Listed(none) == {};
  }

  /** `run`'s loop body as the class runs it keeps every visited and waiting URL reached. */
  lemma ScrapeKeepsReached(name: string -> string, base: string, seed: string, site: Site, start: Frontier,
                           s: Frontier, results: seq<PageReport>, order: seq<string>, url: string,
                           next: Frontier, result: Option<PageReport>)
    requires Crawling(name, base, seed, site, start, s, results) && url in s.toVisit
    requires ReachedInOrder(base, site, start, s, order)
    requires (next, result) == Scrape(name, base, Frontier(s.visited, s.toVisit - {url}, s.count), url, Fetch(site, url))
    ensures ReachedInOrder(base, site, start, next, order + [url])
  {
    RunStepShape(name, base, site, s, results, url);
    assert RunStep(name, base, site, s, results, url).0 == next;
    StepReached(base, site, start, s, order, url, next);
  }

  /**
   * Every URL a run visits was waiting at the start, or is a kept link of a
   * page the same run saved with its links; a URL that only an unvisited
   * page links to is never visited.
   */
  lemma VisitedAreReached(base: string, site: Site, start: Frontier, s: Frontier, order: seq<string>, u: string)
    requires ReachedInOrder(base, site, start, s, order) && u in s.visited - start.visited
    ensures || u in start.toVisit
            || exists v :: v in s.visited - start.visited && Fetch(site, v).Fetched? &&
                           u in ValidLinks(base, Fetch(site, v).hrefs)
  {
    var i :| 0 <= i < |order| && order[i] == u;
    assert LinkedFrom(base, site, start, order, i, u);
    if u !in start.toVisit {
      var j :| 0 <= j < i && j < |order| && Fetch(site, order[j]).Fetched? &&
               u in ValidLinks(base, Fetch(site, order[j]).hrefs);
      assert order[j] in Listed(order);
    }
  }

  /**
   * When no page of the site fails while its links are collected, the
   * reports number exactly the pages saved in the run.
   */
  lemma CountIsReportsWithoutLinkFailures(site: Site, start: Frontier, s: Frontier, results: seq<PageReport>)
    requires CountMatches(site, start, s, results)
    requires forall u :: u in site ==> !site[u].LinksFailed?
    ensures s.count == start.count + |results|
  {
    assert LinkFailures(site, s.visited - start.visited) == {};
  }

  /** `name` is `url_to_filename` for the stored base URL `base`. */
  ghost predicate NamesFiles(name: string -> string, base: string) {
    forall u {:trigger UrlToFilename(base, u)} :: name(u) == UrlToFilename(base, u)
  }

  /** With the scraper's naming, each report names the file `UrlToFilename` gives its URL. */
  lemma ReportFilenames(name: string -> string, base: string, site: Site, added: set<string>, results: seq<PageReport>)
    requires NamesFiles(name, base) && ReportsSound(name, base, site, added, results)
    ensures forall i :: 0 <= i < |results| ==> results[i].filename == UrlToFilename(base, results[i].url)
  {
    forall i | 0 <= i < |results| ensures results[i].filename == UrlToFilename(base, results[i].url) {
      assert results[i].filename == name(results[i].url);
    }
  }

  // ---------------------------------------------------------------------------
  // The scraper object
  // ---------------------------------------------------------------------------

  class DocumentationScraper {
    /** The base URL with its trailing slashes removed. */
    const baseUrl: string
    /** The URL as given to the constructor, the crawl's first URL. */
    ghost const seedUrl: string
    /** `url_to_filename`, bound to this scraper's base URL. */
    const fileName: string -> string

    var visitedUrls: set<string>
    var urlsToVisit: set<string>
    var scrapedCount: nat

    ghost function State(): Frontier
      reads this
    {
      Frontier(visitedUrls, urlsToVisit, scrapedCount)
    }

    constructor (rawBaseUrl: string)
      ensures baseUrl == RStrip(rawBaseUrl, '/') && seedUrl == rawBaseUrl
      ensures State() == Initial(rawBaseUrl)
      ensures Wellformed(baseUrl, seedUrl, State())
      ensures NamesFiles(fileName, baseUrl)
    {
      var base := RStrip(rawBaseUrl, '/');
      baseUrl := base;
      fileName := u => UrlToFilename(base, u);
      seedUrl := rawBaseUrl;
      visitedUrls := {};
      urlsToVisit := {rawBaseUrl};
      scrapedCount := 0;
    }

    /** `scrape_page`, with the page visit's outcome given. */
    method ScrapePage(url: string, outcome: FetchOutcome) returns (result: Option<PageReport>)
      modifies this
      ensures (State(), result) == Scrape(fileName, baseUrl, old(State()), url, outcome)
    {
      if url in visitedUrls {
        return None;
      }
      visitedUrls := visitedUrls + {url};
      match outcome {
        case FetchFailed =>
          result := None;
        case LinksFailed =>
          scrapedCount := scrapedCount + 1;
          result := None;
        case Fetched(title, hrefs) =>
          var filename := fileName(url);
          scrapedCount := scrapedCount + 1;
          var links := ValidLinks(baseUrl, hrefs);
          var newLinks := links - visitedUrls;
          urlsToVisit := urlsToVisit + newLinks;
          result := Some(PageReport(url, title, filename, |links|));
      }
    }

    /**
     * `run`: visit URLs from the frontier, in no particular order, until it
     * is empty, collecting the report of every page saved with its links.
     * The site is finite, which bounds the crawl.
     */
    method Run(site: Site) returns (results: seq<PageReport>, ghost order: seq<string>)
      requires Wellformed(baseUrl, seedUrl, State()) && NamesFiles(fileName, baseUrl)
      modifies this
      ensures Wellformed(baseUrl, seedUrl, State())
      ensures urlsToVisit == {}
      ensures old(visitedUrls) + old(urlsToVisit) <= visitedUrls
      ensures visitedUrls <= old(visitedUrls) + old(urlsToVisit) + SiteLinks(site)
      ensures ReportsSound(fileName, baseUrl, site, visitedUrls - old(visitedUrls), results)
      ensures ReportsComplete(site, visitedUrls - old(visitedUrls), results)
      ensures LinksKnown(baseUrl, site, visitedUrls - old(visitedUrls), visitedUrls)
      ensures scrapedCount ==
        old(scrapedCount) + |results| + |LinkFailures(site, visitedUrls - old(visitedUrls))|
      ensures forall i :: 0 <= i < |results| ==> results[i].filename == UrlToFilename(baseUrl, results[i].url)
      ensures ReachedInOrder(baseUrl, site, old(State()), State(), order)
    {
      ghost var start := State();
      results := [];
      order := [];
      CrawlingAtStart(fileName, baseUrl, seedUrl, site, start);
      ReachedAtStart(baseUrl, site, start);
      while urlsToVisit != {}
        invariant Crawling(fileName, baseUrl, seedUrl, site, start, State(), results)
        invariant ReachedInOrder(baseUrl, site, start, State(), order)
        decreases Remaining(site, start, State())
      {
        var url :| url in urlsToVisit;
        ghost var before := State();
        ghost var reported := results;
        urlsToVisit := urlsToVisit - {url};
        var result := ScrapePage(url, Fetch(site, url));
        if result.Some? {
          results := results + [result.value];
        }
        ScrapeKeepsCrawling(fileName, baseUrl, seedUrl, site, start, before, reported, url, State(), result, results);
        ScrapeKeepsReached(fileName, baseUrl, seedUrl, site, start, before, reported, order, url, State(), result);
        order := order + [url];
      }
      CrawlFinished(fileName, baseUrl, seedUrl, site, start, State(), results);
      ReportFilenames(fileName, baseUrl, site, visitedUrls - start.visited, results);
    }
  }
}
