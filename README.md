# Web spider: a Dafny model

The repository holds two crawler scripts, `web_spider.py` and `web_spidering.py`.
Each asks for a target URL and reads its `Server` header to detect the web-server
technology. From that header it picks a catalog of files that a default installation
of the server has. It then crawls the site breadth-first for a fixed number of
rounds, keeping only links that start with the target URL. Finally it splits the
found URLs into those named in the catalog ("default") and the rest, and builds a
cross matrix of SHA-256 hashes with membership flags. `web_spider.py` also derives
the parent directory of every URL and builds a second matrix over directories.

The model has one module per component and one per script:

- `Wrappers`: `Option`.
- `Text`: the ASCII part of Python's `in`, `lower()`, `strip()`, `strip('/')`,
  `split('/')` and `'/'.join`.
- `Catalog`: `detect_technology`, the abort test of `main`, `get_default_file_path`,
  and the line filter of `load_default_files`. These behave identically in the
  two scripts.
- `Crawler`: `crawl_site`. A functional specification (`Visit`, `Pass`, `Crawl`)
  describes it one inner-loop step, one round and one depth at a time. The method
  `CrawlSite` has the script's nested loops and is proved equal to that
  specification. The lemmas about the specification state what the crawl
  guarantees.
- `Comparison`: `compare_urls` (the two-part version of `web_spidering.py`) and
  `extract_directories`.
- `Report`: Python's string order, `sorted` over a set, and the cross matrix as
  the list comprehension of `web_spidering.py`.
- `WebSpider`: what only `web_spider.py` does. This is the four-part `compare_urls`,
  the looping `create_cross_matrix` (proved equal to the comprehension), default
  depth 2, and `main`.
- `WebSpidering`: what only `web_spidering.py` does. This is default depth 3, its
  `main`, and a small end-to-end scenario.

External services are parameters:

- `requests.get` together with BeautifulSoup's `find_all('a', href=True)` is
  `get: string -> Option<Response>`. `None` stands for a `RequestException`; a
  `Response` carries the `Server` header and the page's hrefs in document order.
- `urljoin` is `join`, `urlparse` is `parse` (giving scheme, netloc and path),
  and `hash_value` is `hash`. All three are uninterpreted.
- Opening a catalog file is `readFile: string -> Option<seq<string>>`. `None`
  stands for `FileNotFoundError`.

`CrawlSite` also returns the sequence of URLs it passed to `requests.get`. That
trace is how the model states which links are fetched.

Points where the code's behaviour is easy to misread; the model follows the code:

- Every URL yields a directory, the root URL included. `split` never returns an
  empty list, so the guard of `extract_directories` always holds, and a root URL
  yields `scheme://netloc/`. A reader might expect a root URL to contribute none.
- The scope test is `startswith`, a non-strict prefix. A joined link equal to the
  seed is kept.
- Detection signals failure with `None`, and `main` aborts on any falsy value. So
  an empty `Server` header also aborts, while a missing header reads as "unknown"
  and lets the run go on.
- Only the URL matrix has exactly one true flag per row. The two directory sets
  can share a directory, which then has both flags true.
- Only links whose request succeeded go into `visited`. A link whose request
  raised is requested again if it shows up again.

## Model

| member | source | states |
|---|---|---|
| `Text.Lower` | web_spider.py:10 | `lower()` keeps the length and maps each ASCII upper-case letter to its own lower-case form (code point plus 32), leaving every other character unchanged |
| `Text.Strip` | web_spider.py:33 | `strip()` leaves no white space at either end |
| `Text.StripIsPart` | web_spider.py:33 | what `strip()` leaves is no longer than the line and occurs in it |
| `Text.StripIdempotent` | web_spider.py:33 | stripping twice is stripping once |
| `Text.StripLeftIsSuffix` | web_spider.py:33 | `lstrip()` leaves a suffix of the line |
| `Text.StripRightIsPrefix` | web_spider.py:33 | `rstrip()` leaves a prefix of the line |
| `Text.StripSlashes` | web_spider.py:42 | `strip('/')` leaves no slash at either end |
| `Text.StripSlashesIsPart` | web_spider.py:42 | `strip('/')` yields a contiguous part of the path, and every character before or after that part is a slash |
| `Text.Split` | web_spider.py:42 | `split('/')` yields at least one part, and no part holds a slash |
| `Text.JoinSplit` | web_spider.py:42-44 | `'/'.join` of `split('/')` gives the string back |
| `Text.BeforeLastSlash` | web_spider.py:44 | the text before the last slash: a prefix followed by the last slash, or "" when there is none |
| `Text.JoinAllButLast` | web_spider.py:42-44 | `'/'.join(s.split('/')[:-1])` is the text of `s` before its last slash |
| `Text.ContainsAt` | web_spider.py:17 | `sub in s` holds whenever `sub` sits at some position of `s` |
| `Text.ContainsOccurs` | web_spider.py:17 | conversely, when `sub in s` holds, `sub` sits at some position of `s`; with `ContainsAt`, `Contains` is exactly the substring test |
| `Text.ContainsPrefix` | web_spider.py:17-24 | a string that contains a pattern also contains every prefix of it |
| `Catalog.DetectTechnology` | web_spider.py:7-14 | `None` exactly when the request raised; "unknown" when the header is missing; otherwise `Lower` of the header, of the same length |
| `Catalog.AbortIffDetectionFails` | web_spidering.py:132-135 | `main` stops exactly when the detection request raised or the `Server` header is empty |
| `Catalog.GetDefaultFilePath` | web_spider.py:16-28 | the result is always one of the six catalog file names |
| `Catalog.FirstMatch` | web_spider.py:16-28 | a first-match scan of a rule table returns the fallback or the file of some rule, and when a rule matches, the file of a matching rule no later than it |
| `Catalog.FirstMatchNoMatch` | web_spider.py:16-28 | when no rule matches the header, the scan returns the fallback |
| `Catalog.GetDefaultFilePathIsFirstMatch` | web_spidering.py:26-37 | the if-chain equals the first-match scan of the ordered rule table, with `default_other.txt` as fallback |
| `Catalog.PinnedVersionsWin` | web_spider.py:17-22 | a header with "nginx/1.19.0" or "apache/2.4.62" also passes the generic test, yet gets the pinned file; nginx 1.19.0 wins over Apache 2.4.62 |
| `Catalog.PinnedNginxExample` | web_spider.py:17-18 | "nginx/1.19.0 (ubuntu)" contains "nginx" yet selects `default_nginx_1_19_0.txt` |
| `Catalog.GenericPrecedence` | web_spidering.py:30-37 | each generic file is chosen if and only if its name occurs and no earlier test matches; a header naming both apache and nginx selects `default_apache.txt` |
| `Catalog.CleanLinesBound` | web_spider.py:33 | the catalog has no more entries than the file has lines |
| `Catalog.CleanLinesSound` | web_spidering.py:47 | every entry is non-empty, has no surrounding white space, and is the stripped form of some line |
| `Catalog.CleanLinesComplete` | web_spider.py:33 | every non-blank line appears, stripped, among the entries |
| `Catalog.CleanLinesAppend` | web_spider.py:33 | cleaning distributes over concatenation, so entries keep file order |
| `Catalog.CleanSingleLine` | web_spider.py:33 | one line gives its stripped form, or nothing when it is blank |
| `Catalog.LoadDefaultFiles` | web_spider.py:30-36 | a missing file gives `[]`; otherwise at most one entry per line, each non-empty and stripped |
| `Crawler.ElemsAppend` | web_spider.py:67-68 | the elements of a concatenation are the union of the elements of its parts, so `found_urls` grows by exactly the links appended to `new_links` |
| `Crawler.KeptLinks` | web_spider.py:64-68 | a page contributes at most one link per href |
| `Crawler.KeptLinksExactly` | web_spider.py:64-68 | a link is kept if and only if it starts with the seed and is the seed joined with one of the page's hrefs |
| `Crawler.CrawlOneRound` | web_spider.py:55-71 | one round requests only the seed and finds exactly its in-scope links, or nothing when its request raised |
| `Crawler.AddPageLinks` | web_spider.py:64-68 | the loop over one page's `<a href>` tags adds exactly the kept links (`KeptLinks`) to `found_urls` and appends them, in order, to `new_links` |
| `Crawler.CrawlSite` | web_spider.py:50-72 | the nested loops compute the round-by-round specification; depth ≤ 0 requests and finds nothing; depth 1 finds exactly the seed's in-scope links |
| `Crawler.VisitConsistent` | web_spider.py:57-70 | one inner-loop step preserves the crawl invariant and never shrinks `found_urls` |
| `Crawler.PassConsistent` | web_spidering.py:71-84 | one round over `to_visit` preserves the crawl invariant |
| `Crawler.CrawlConsistent` | web_spidering.py:67-86 | every reachable crawl state satisfies the invariant |
| `Crawler.CrawlFoundSound` | web_spidering.py:78-82 | every found URL starts with the seed and is the seed joined with an href of a visited page whose request succeeded |
| `Crawler.CrawlFoundExactly` | web_spider.py:58-68 | a URL is found if and only if it starts with the seed and is the seed joined with an href of a page fetched successfully |
| `Crawler.CrawlVisitedIffSucceeded` | web_spider.py:58-62 | a URL is visited if and only if it was requested and its request succeeded |
| `Crawler.CrawlNoRepeatedSuccess` | web_spider.py:58-70 | a URL requested twice is one whose request raised, so a visited link is never fetched again |
| `Crawler.CrawlRequestsInScope` | web_spidering.py:72-80 | every requested URL starts with the seed |
| `Crawler.PassGrowth` | web_spidering.py:71-84 | within a round, `found_urls` grows by exactly the links appended to `new_links`, and `visited` and the request trace only grow |
| `Crawler.CrawlGrowth` | web_spidering.py:69-85 | each round adds to `found_urls` exactly the links of the next `to_visit`; `visited` and the request trace only grow |
| `Crawler.CrawlMonotone` | web_spidering.py:69-85 | more rounds never lose a found URL, a visited link or a request |
| `Comparison.CompareUrls` | web_spidering.py:96-97 | the two parts are disjoint and their union is the found set; a URL is default if and only if it is found and some entry resolves to it; an empty catalog makes everything non-default |
| `Comparison.DirectoryIsParent` | web_spider.py:41-44 | a URL's directory is `scheme://netloc/` followed by its slash-stripped path up to the last slash |
| `Comparison.ShallowUrlMapsToRoot` | web_spider.py:42-44 | a URL whose stripped path has at most one segment maps to `scheme://netloc/` |
| `Comparison.DirectoriesOfUnion` | web_spider.py:79-80 | the directories of a union are the union of the directories |
| `Comparison.DirectoriesOfSingleton` | web_spider.py:40-44 | one URL yields one directory |
| `Comparison.DirectoriesBound` | web_spider.py:38-45 | there are never more directories than URLs |
| `Comparison.ExtractDirectories` | web_spider.py:38-45 | every URL contributes its directory and every directory comes from a URL, so there are at most as many directories as URLs |
| `Comparison.TwoSegmentParent` | web_spider.py:42-44 | the path "/a/c" strips to "a/c", which lies in "a" |
| `Comparison.DirectoryInA` | web_spider.py:41-44 | a URL with path "/a/c" on host "h" has directory "http://h/a" |
| `Comparison.SharedDirectory` | web_spider.py:79-80 | two URLs with the same directory give it to both directory sets |
| `Comparison.DirectoriesCanOverlap` | web_spider.py:79-80 | two distinct URLs, one per disjoint part, can give the same directory to both directory sets |
| `Report.LexIrreflexive` | web_spider.py:85 | no string sorts before itself |
| `Report.LexTransitive` | web_spider.py:85 | the string order is transitive |
| `Report.LexTotal` | web_spider.py:85 | any two distinct strings are ordered one way or the other |
| `Report.LexAsymmetric` | web_spider.py:85 | two strings are never each before the other |
| `Report.LeastExists` | web_spider.py:85 | a non-empty set of strings has a least element |
| `Report.LeastUnique` | web_spider.py:85 | the least element is unique |
| `Report.Least` | web_spider.py:85 | the least element of a non-empty set |
| `Report.Sorted` | web_spider.py:85 | `sorted` of a set lists each element exactly once, in strictly increasing order |
| `Report.SortedPositionUnique` | web_spidering.py:108 | an item occurs at only one position of the sorted list |
| `Report.CrossMatrix` | web_spidering.py:108-110 | one row per element of the union, the i-th row describing the i-th item in sorted order |
| `Report.CrossMatrixRows` | web_spidering.py:108-109 | every item of either set has a row with its hash and membership flags, and no item has two rows |
| `Report.CrossMatrixFlags` | web_spider.py:86-88 | every row has a true flag; when the sets are disjoint, exactly one |
| `Report.CrossMatrixSharedItem` | web_spider.py:128 | an item in both sets (a directory shared by both directory groups) has a row with both flags true |
| `WebSpider.CompareUrlsWithDirectories` | web_spider.py:74-82 | the URL groups are those of `CompareUrls`; the directory groups are the directories of each, and together they hold the directory of every found URL |
| `WebSpider.CreateCrossMatrix` | web_spider.py:84-91 | the append loop builds the same rows as the comprehension |
| `WebSpider.DirectoryMatrixShared` | web_spider.py:74-91 | with two found URLs in one directory and only the first in the catalog, the URL groups are the two singletons and the directory matrix has a row marked in both columns |
| `WebSpider.Run` | web_spider.py:93-134 | the run returns nothing exactly when detection fails or the header is empty; otherwise it does detection, catalog choice, loading, a two-round crawl, comparison and both matrices, and every URL row has exactly one true flag |
| `WebSpidering.Run` | web_spidering.py:127-141 | the run returns nothing exactly when detection fails or the header is empty; otherwise it does detection, loading, a three-round crawl, comparison and the URL matrix, and every row has exactly one true flag |
| `WebSpidering.TwoPageScenario` | web_spidering.py:60-110 | a seed page linking to two in-scope pages, one of them catalogued: one round finds both, the catalogued one is the only default, and the matrix has two rows, each with exactly one true flag |

## Left out

- HTTP, HTML parsing, `urljoin`, `urlparse` and SHA-256 are oracles or uninterpreted functions. Timeouts, TLS and the 64-hex-digit form of the digest are not modelled.
- Detection and the crawl both make requests through the same deterministic `get` oracle. The model does not capture a server that answers the same URL differently at different times.
- Python's Unicode `lower()` and `strip()` are modelled on ASCII only. Non-ASCII letters and non-ASCII white space are left unchanged.
- `Text.Strip`: it states only that no white space is left at either end. That it is the longest such part of the line is not stated.
- `load_default_files` reading a file: only the line filter is modelled. Opening errors other than `FileNotFoundError` (which propagate in Python) are not modelled.
- The `print` calls, the `input` prompt, `save_results` (web_spidering.py:112-125) and the pandas `DataFrame` with its column labels and `to_string`. The matrix is a plain sequence of rows.
- The `join`, `parse` and `hash` oracles are total. An exception that `urljoin` or `urlparse` can raise, such as the `ValueError` for a malformed href like `"http://["`, is not caught by `crawl_site` (only `RequestException` is, web_spider.py:69) and would end `main`. The model does not capture that.
- The order in which Python iterates over a set in `extract_directories`. The result does not depend on it.
- generate_default_files.py is not part of this model. It only writes literal catalog data to files.
