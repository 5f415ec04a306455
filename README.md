# Documentation scraper: a verified model

This project models `DocumentationScraper` from `mini/scrape_docs.py`. The
scraper is a small crawler. It starts from a base URL and visits every page
reachable from it through links that start with the base. It saves each page as an `.mdx` file named after its URL, and it
collects one report per page that was saved and whose links were collected:
URL, title, file name and the number of links kept.

The model has three modules:

- `PyStr` (`pystr.dfy`): the Python `str` operations the URL code is built
  from: `rstrip`, `lstrip`, `strip`, `split(c)[0]`, `replace(pat, "")` and
  `endswith`. The strip and split operations have contracts, or contracts
  plus lemmas, that determine their results. `replace` has length bounds in
  its contract. Lemmas state which occurrences it removes.
- `ScraperUrls` (`urls.dfy`): the two pure methods. `is_valid_url` becomes
  `IsValidUrl` and `url_to_filename` becomes `UrlToFilename`. They take the
  stored base URL as a parameter, and come with lemmas pinning down their
  edge cases.
- `Crawler` (`crawler.dfy`): the crawl bookkeeping of `__init__`,
  `scrape_page` and `run`, in two layers:
  - a value-level step function `Scrape` over a `Frontier` (visited set,
    waiting set, counter), with the invariants it keeps;
  - the `DocumentationScraper` class, whose fields mirror the Python
    object's. Its methods `ScrapePage` and `Run` are proved to follow
    `Scrape`, and `Run` ends satisfying the invariants.

How the abstractions work:

- **Fetching.** What visiting one page produced is a `FetchOutcome`:
  - `Fetched(title, hrefs)`: the page was saved. `hrefs` are its links,
    already made absolute and normalised.
  - `FetchFailed`: an exception occurred before `scraped_count` was
    incremented.
  - `LinksFailed`: the page was saved and counted, then `extract_links`
    raised. For example, `urlparse` raises `ValueError` on a malformed
    bracketed host.
- **Counter and reports.** A page whose links fail is counted but gets no
  report, and none of its links are queued. So `len(results)` can be less
  than `scraped_count`. The model proves the exact relation that does hold:
  the counter equals the reports plus the link failures
  (`Crawler.DocumentationScraper.Run`). The two coincide when no page's
  links fail (`Crawler.CountIsReportsWithoutLinkFailures`).
- **The site.** `Run` crawls a finite `Site`, a map from each URL to the
  outcome of visiting it. A URL outside the map fails like an unreachable
  page. The finite map bounds the crawl, which gives termination.
- **Crawl order.** `set.pop()` is modelled as an arbitrary choice from the
  waiting set, so nothing depends on the crawl order. `Run` returns the order
  it took as a ghost sequence, and proves every visited URL reached along it:
  each was waiting at the start or is a kept link of a page saved earlier in
  that order (`Crawler.ReachedInOrder`).
- **File naming.** The scraper object holds its `url_to_filename` as a
  function value fixed at construction. The constructor proves it equal to
  `UrlToFilename` for the stored base (`Crawler.NamesFiles`). The crawl
  lemmas are stated for any naming function. `Crawler.ReportFilenames`
  turns them into facts about `UrlToFilename`.
- **Strings.** Strings are `seq<char>`. `\w` in the character class of line
  72 is ASCII letters, digits and `_`.

## Model

| member | source | states |
|---|---|---|
| PyStr.LStrip | mini/scrape_docs.py:64 | the left half of `strip('/')`: a suffix of its input that does not start with `/`, and everything it dropped is `/` |
| PyStr.RStrip | mini/scrape_docs.py:19 | `rstrip('/')` returns a prefix of its input that does not end in `/`, and everything it dropped is `/` |
| PyStr.Strip | mini/scrape_docs.py:64 | `strip('/')` leaves no `/` at either end. It is empty exactly when the input is all slashes. It keeps a first character that is not `/`, and returns the input unchanged when neither end is `/` |
| PyStr.StripIsTrimmed | mini/scrape_docs.py:64 | the result of `strip('/')` is the slice of its input between a leading and a trailing run of `/` |
| PyStr.TrimmedUnique | mini/scrape_docs.py:64 | only one slice is trimmed of `/` on both sides and has no `/` at either end, so the `Strip` contract and `StripIsTrimmed` determine the result |
| PyStr.BeforeFirst | mini/scrape_docs.py:69 | `split('?')[0]` is a prefix with no `?`. It is followed by a `?` in the input whenever it is shorter, and it is the whole input when there is no `?` |
| PyStr.RemoveAll | mini/scrape_docs.py:64 | `replace(base, '')` never lengthens the string, and it shortens it by at least the base's length when the string starts with the base |
| PyStr.RemoveAllNoOccurrence | mini/scrape_docs.py:64 | `replace(base, '')` leaves a string in which the base does not occur unchanged |
| PyStr.RemoveAllLeading | mini/scrape_docs.py:64 | a leading copy of the base is removed, with nothing else removed when the base does not occur in the rest |
| PyStr.RemoveAllEveryOccurrence | mini/scrape_docs.py:64 | `replace` removes a second copy of the base as well, not only the first |
| ScraperUrls.IsValidUrl | mini/scrape_docs.py:32-38 | an accepted URL is non-empty and starts with the base |
| ScraperUrls.IsValidUrlIffPrefix | mini/scrape_docs.py:32-38 | for a non-empty stored base, a URL is accepted exactly when the base is a prefix of it (the empty URL is rejected) |
| ScraperUrls.ContinuationIsValid | mini/scrape_docs.py:38 | the test is a plain string prefix: any continuation of the base, such as `…/knowledgebase`, is accepted |
| ScraperUrls.SeedIsValid | mini/scrape_docs.py:19-22 | the raw URL given to the constructor passes the filter for the stripped base exactly when it is non-empty |
| ScraperUrls.EmptyBaseAcceptsAll | mini/scrape_docs.py:19-38 | a raw base made only of slashes is stored empty, and then every non-empty URL is accepted |
| ScraperUrls.Sanitize | mini/scrape_docs.py:72 | the substitution keeps the length and leaves only word characters, `-` and `.`. It keeps every allowed character and turns every other character into `_` |
| ScraperUrls.CollapseUnderscores | mini/scrape_docs.py:73 | the result has no two adjacent underscores and keeps every other character in order. It keeps the underscore gaps: before, between and after the other characters, there is an underscore in the result exactly where the input has one. It keeps a clean string clean |
| ScraperUrls.CollapseIsDetermined | mini/scrape_docs.py:73 | any string without `__` that has the input's characters other than `_` and the same underscore gaps is the collapsed string, so the contract above fixes the result |
| ScraperUrls.PathOf | mini/scrape_docs.py:64-66 | the path after removing the base and stripping slashes is never empty, because of the `index` fallback |
| ScraperUrls.CleanName | mini/scrape_docs.py:64-73 | the cleaned name has only file-name characters and no `__` |
| ScraperUrls.UrlToFilename | mini/scrape_docs.py:61-79 | the file name ends in `.mdx`, has only file-name characters and no `__`. It is the cleaned name, with `.mdx` appended only when it does not already end in `.mdx` |
| ScraperUrls.NoSeparatorInFilename | mini/scrape_docs.py:69-72 | no `/` and no `?` survive into the file name |
| ScraperUrls.BaseIsIndex | mini/scrape_docs.py:64-66 | the base URL itself and the base followed by `/` are both saved as `index.mdx` |
| ScraperUrls.IndexFilename | mini/scrape_docs.py:65-77 | any URL whose path falls back to `index` is saved as `index.mdx` |
| ScraperUrls.QueryOnlyIsBareExtension | mini/scrape_docs.py:64-77 | the fallback is decided before the query is cut off, so the base followed directly by `?query` is saved as the bare `.mdx` |
| ScraperUrls.QueryOnlyExample | mini/scrape_docs.py:64-77 | `base + "?q=1"` is saved as `.mdx` (for a base longer than the query) |
| ScraperUrls.CleanSegmentFilename | mini/scrape_docs.py:61-79 | `base/p`, for a clean segment `p`, is saved as `p.mdx`, or as `p` when `p` already ends in `.mdx` |
| ScraperUrls.BaseRemovedEverywhere | mini/scrape_docs.py:64 | every copy of the base is removed, so `base/p/base` is saved under `p` alone |
| ScraperUrls.DistinctUrlsShareFilename | mini/scrape_docs.py:72-73 | distinct URLs can share a file name: `base/a/b` and `base/a_b` both become `a_b.mdx` |
| Crawler.Report | mini/scrape_docs.py:196-201 | the returned dictionary carries the page's URL, title and file name, and a link count no greater than the page's number of links |
| Crawler.Scrape | mini/scrape_docs.py:157-208 | one call marks the URL visited, never takes anything out of the waiting set, raises the counter by at most one, and reports only a URL that was new |
| Crawler.ValidLinks | mini/scrape_docs.py:48-59 | the kept links are a subset of the page's links and are exactly those passing `is_valid_url`. Each is non-empty and starts with the base. For a non-empty stored base, they are exactly the page's links that start with the base |
| Crawler.ScrapeVisitedIsSkipped | mini/scrape_docs.py:159-160 | an already visited URL returns nothing and changes nothing |
| Crawler.ScrapeNewUrl | mini/scrape_docs.py:163-208 | a new URL is visited whatever the outcome. The counter grows by one exactly when the page was saved. A report, carrying the URL and its file name, is returned exactly when the links were collected too. Nothing leaves the frontier |
| Crawler.ScrapeAtMostOnce | mini/scrape_docs.py:159-163 | once scraped, a URL is skipped on any later call, whatever that visit would produce |
| Crawler.ScrapeKeepsCountBound | mini/scrape_docs.py:163-186 | the counter never exceeds the number of visited URLs |
| Crawler.ScrapeKeepsDisjoint | mini/scrape_docs.py:190-191 | links already visited are not queued, so the waiting and visited sets stay disjoint |
| Crawler.ScrapeQueuesValidLinks | mini/scrape_docs.py:189-191 | everything newly queued is a link of the saved page that passes the filter and is not visited |
| Crawler.Initial | mini/scrape_docs.py:21-23 | the constructor's state (nothing visited, the raw URL waiting, counter zero) satisfies the invariant for the stored base |
| Crawler.PopAndScrapeWellformed | mini/scrape_docs.py:218-220 | popping a waiting URL and scraping it keeps the sets disjoint, every URL admissible (the seed or one passing the filter) and the counter bounded |
| Crawler.WellformedStaysUnderBase | mini/scrape_docs.py:19-22 | every URL the crawl holds starts with the stored base |
| Crawler.RunStep | mini/scrape_docs.py:218-222 | one loop step moves the popped URL to the visited set and appends at most one report, keeping the earlier ones |
| Crawler.RunStepCovers | mini/scrape_docs.py:218-222 | a loop step keeps the visited and waiting URLs between the start's URLs and the site's links, and strictly shrinks what remains to visit |
| Crawler.RunStepReports | mini/scrape_docs.py:218-222 | a loop step keeps the reports sound (one per distinct saved page, equal to its report) and complete |
| Crawler.RunStepLinks | mini/scrape_docs.py:189-191 | a loop step keeps the kept links of every page saved so far among the visited or waiting URLs |
| Crawler.RunStepCount | mini/scrape_docs.py:186-222 | a loop step keeps the counter equal to the start's count plus the reports plus the link failures |
| Crawler.RunStepKeepsCrawling | mini/scrape_docs.py:218-222 | a loop step keeps the whole loop invariant and shrinks what remains to visit |
| Crawler.ScrapeKeepsCrawling | mini/scrape_docs.py:219-222 | popping, scraping and appending the report if any, as the class does it, keep the invariant |
| Crawler.CrawlFinished | mini/scrape_docs.py:218-250 | when the frontier is empty, the invariant gives the coverage, report and count parts of what `run` promises. Which URLs are visited is stated by `ReachedInOrder` and `VisitedAreReached` |
| Crawler.LinkedFromExtend | mini/scrape_docs.py:189-191 | a URL reached from the first `n` visited pages is still reached after more pages are visited |
| Crawler.StepReached | mini/scrape_docs.py:189-191 | a visit that queues the kept links of the fetched page extends the visit order, and keeps each visited URL reached from pages visited before it, each visited once, and each waiting URL reached |
| Crawler.ReachedAtStart | mini/scrape_docs.py:21-23 | at the start the visit order is empty and every waiting URL counts as reached |
| Crawler.ScrapeKeepsReached | mini/scrape_docs.py:218-222 | popping and scraping a URL, as `run` does, appends it to the visit order and keeps every visited and waiting URL reached |
| Crawler.VisitedAreReached | mini/scrape_docs.py:189-191 | every URL a run visits was waiting at the start, or is a kept link of a page saved with its links in the same run. A URL that only unvisited pages link to is never visited |
| Crawler.CountIsReportsWithoutLinkFailures | mini/scrape_docs.py:186-222 | when no page's links fail, the counter grows by exactly the number of reports |
| Crawler.ReportFilenames | mini/scrape_docs.py:179-199 | with the scraper's naming, each report names the file `UrlToFilename` gives its URL |
| Crawler.DocumentationScraper.constructor | mini/scrape_docs.py:18-23 | the base is stored without trailing slashes, the raw URL is the only waiting URL, nothing is visited, the counter is zero. The naming is `UrlToFilename` for the stored base |
| Crawler.DocumentationScraper.ScrapePage | mini/scrape_docs.py:157-208 | the new state and the returned report are exactly those of `Scrape` applied to the old state |
| Crawler.DocumentationScraper.Run | mini/scrape_docs.py:210-250 | the loop ends with the frontier empty and the invariant kept. Every URL waiting at the start is visited, and nothing outside the site's links is. The reports are sound and complete for the pages saved in this run, and every kept link is visited. The counter grew by the reports plus the link failures, and every file name is `UrlToFilename` of its URL. The ghost `order` lists the URLs visited in this run, each once, in visit order. Each was waiting at the start or is a kept link of a page saved, with its links, earlier in the order (`ReachedInOrder`) |

## Left out

- HTTP: the `requests.Session`, its headers and timeout, and `raise_for_status` (lines 24-27, 166-167) are network I/O. They are replaced by `FetchOutcome`.
- Parsing: `extract_title`, `extract_content` and BeautifulSoup (lines 81-135, 169-173) wrap a library outside this program. The title is part of the outcome. The page content is not modelled.
- Conversion: `html_to_mdx` (lines 137-155) is a foreign `html2text` call. It is not modelled.
- Links: `normalize_url` and `urljoin` (lines 40-46, 54) follow `urllib.parse` semantics. A page's links are given already absolute and normalised.
- Side effects: the output directory (lines 20, 30), file writes (lines 180-183), the summary file (lines 233-248), every `print`, and `time.sleep` (line 225) are I/O only. Overwriting a file when two URLs share a name is not modelled; `DistinctUrlsShareFilename` gives an example.
- `main` (lines 253-258) only wires in a constant base URL and output directory.
- `\w` is restricted to ASCII letters, digits and `_`. Python's Unicode word characters are not modelled.
- Exceptions inside the `try` of `scrape_page` are told apart only by whether they happen before `scraped_count` is incremented (`FetchFailed`) or in `extract_links` after it (`LinksFailed`).
- `print` is assumed never to raise. If the print at line 162 raised, it would end `run` with the popped URL neither visited nor waiting. If the print at lines 193-194 raised, the page would be counted and its links queued, but no report returned. Neither case is modelled, and the count equation of `Crawler.DocumentationScraper.Run` does not cover the second.
- Crawler.DocumentationScraper.Run: termination is proved only for a finite site (a map of URLs). An unbounded web is not modelled.
- Crawler.DocumentationScraper.Run: the order in which `set.pop()` returns URLs is left unspecified. The ghost `order` records whichever order was taken, and the statements hold for every such order.
