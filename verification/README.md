# Gallery image scraper — a Dafny model of its control logic

The scraper (`main.py`) works in two phases. It first walks a gallery's listing
pages in a headless browser and collects one detail-page link per gallery
figure (`ImageScraper.find_images`). It then downloads one image per collected
link in a thread pool (`ImageScraper.download_image`,
`ImageScraper.download_images`). Each download task fetches the item's detail
page, follows its "Raw Scan" link and writes the image to
`image_<i+1>.jpg`. The coordinator counts the tasks that succeeded.

This project models the sequential logic under that I/O. The browser,
the HTTP client and the file system become abstract outcomes:

- `Discovery.PageOutcome` is what loading listing page *n* reports: the
  `ul.gallery` container timed out, or it appeared with these figures.
  `Discovery.LinkOutcome` is what waiting for a figure's `<a>` reports: a
  timeout, or the element with its `href` (possibly absent).
- `Download.ItemEnv` is what the outside world decides for one item: the
  detail request failed, or the page arrived with or without a "Raw Scan"
  anchor carrying an `href`; whether the image request succeeds; whether the
  file write completes.
- The thread pool is a completion order: any arrangement of the item
  indices, in which `as_completed` hands back the results.

Modules:

- `Wrappers`: `Option`.
- `Decimal`: Python's decimal rendering of a natural number (`str(n)`). It is
  used for the page number in a listing URL and the index in a file name. It
  comes with a parser, so there is a round trip in both directions.
- `Counting`: counting the elements that satisfy a predicate, and ranges of
  consecutive numbers. The count does not depend on the order of the
  elements.
- `Discovery`: the page-URL rule, the per-page href filter, and the
  pagination walk. The walk appears twice: as a recursive fold (`Walk`,
  `Discover`) and as the source's loop (`FindImages`, `CollectFigures`).
  The two are proved equal, and the fold is characterised by the first page
  that ends the walk (`FirstStop`).
- `Download`: `os.path.join`, the file name, the per-item task, the
  coordinator, the set of files whose write completed, and the scan thread
  that runs discovery and then the downloads (`ScanThread`).

## Model

| member | source | states |
|---|---|---|
| `Decimal.FromNat` | main.py:29 | The text of a page number is canonical Python `str(n)`: non-empty, all digits, and no leading zero except for zero itself. |
| `Decimal.ToNatFromNat` | main.py:29 | Reading back the decimal text of `n` yields `n`. |
| `Decimal.FromNatToNat` | main.py:79 | Every canonical digit string is the text of the number it denotes, so decimal rendering is a bijection onto canonical strings. |
| `Decimal.FromNatInjective` | main.py:79 | Distinct numbers have distinct decimal texts. |
| `Counting.CountPermutation` | main.py:99-103 | Counting successes over any rearrangement of the same results gives the same number. |
| `Counting.CountOverIndices` | main.py:98-103 | Counting the indices whose item succeeded equals counting the successful items. |
| `Discovery.PageUrlMeaning` | main.py:29 | Page 1 (and the unreachable page 0) loads the base URL unchanged. A later page's URL is the base, then `page`, then the canonical decimal of the page number, then `/`, and the page number can be read back from it. |
| `Discovery.PageUrlInjective` | main.py:27-29 | Different page numbers from 1 on give different URLs. |
| `Discovery.PageLinksMeaning` | main.py:42-51 | Every collected link is a non-empty `href` of some figure on the page. Every truthy `href` on the page is collected. |
| `Discovery.PageLinksAppend` | main.py:42-51 | Collecting is compositional in figure order: the links of `a + b` are the links of `a` followed by those of `b`. |
| `Discovery.SkippedFigureKeepsPage` | main.py:43-51 | A figure with a link timeout or a missing or empty `href` adds nothing. The figures on either side are still collected. |
| `Discovery.FirstStopMeaning` | main.py:33-40 | `FirstStop` is the first page whose container timed out or that has no figures: no earlier page ends the walk, and that page does. |
| `Discovery.CollectedAppend` | main.py:42-53 | The links of consecutive runs of pages concatenate in page order. |
| `Discovery.WalkLoaded` | main.py:27-53 | From any position, the walk loads consecutive page numbers up to and including the first page that ends it. The counter moves on only past a page with figures. |
| `Discovery.WalkLinks` | main.py:39-53 | From any position, the walk's links are the links of the pages before the first stopping page, in page order then figure order. |
| `Discovery.WalkStop` | main.py:39-56 | The walk reports the outcome of the page that ended it: container timeout, no figures, or outcomes exhausted. |
| `Discovery.DiscoverMeaning` | main.py:22-59 | Discovery loads pages 1..k in order, where k is the first stopping page. It returns exactly the links of pages 1..k-1 in page then figure order, with that page's stop reason. |
| `Discovery.RequestedDistinct` | main.py:27-30 | No listing URL is loaded twice during one discovery. |
| `Discovery.WalkAgrees` | main.py:39-56 | Two outcome sequences that agree up to the first stopping page give the same walk. |
| `Discovery.NoLaterPageConsulted` | main.py:39-40 | After the first page that ends the walk, replacing all later outcomes leaves the discovery unchanged. |
| `Discovery.TwoPageScenario` | main.py:22-59 | Page 1 with three linked figures and page 2 with none: three links, pages 1 and 2 loaded at `<base>` and `<base>page2/`, later pages ignored. |
| `Discovery.CollectFigures` | main.py:42-51 | The inner figure loop appends exactly the page's collected links to the list. |
| `Discovery.FindImages` | main.py:22-59 | The loop keeps the base URL and only appends to the link list. What it appends, the pages it loads and its stop reason are exactly the recursive discovery's. It returns the length of the whole list, links from earlier calls included. |
| `Discovery.Scan` | main.py:127-142 | A scan builds a fresh scraper for the URL and runs discovery. It ends with exactly the links of one discovery from page 1, and reports their number. |
| `Download.JoinInjective` | main.py:79 | `os.path.join` onto one directory keeps different file names apart. |
| `Download.FileNameInjective` | main.py:79 | `image_{i+1}.jpg` differs for different indices. |
| `Download.TargetPathInjective` | main.py:79 | Two items never share an output path in the same directory. |
| `Download.DownloadImage` | main.py:61-90 | Reports its own index and URL. Succeeds iff the detail page arrived with a "Raw Scan" anchor that has an `href`, the image request succeeded, and the write completed. Opens its own `image_{i+1}.jpg` only after both requests succeed. A missing anchor or `href` touches no file and is reported as such. |
| `Download.Tasks` | main.py:98 | One task per link: task `i` carries index `i` and link `i` from `enumerate`, and a successful task wrote its own target path. |
| `Download.DownloadImages` | main.py:92-107 | For any completion order, the returned count is the number of successful items. It is at most the number of items and equals the number of files written. |
| `Download.WrittenFileOf` | main.py:79-83 | Item `i`'s file is among the written files iff item `i` succeeded. |
| `Download.WellIndexedTargetsDistinct` | main.py:79-98 | Outcomes that each wrote their own target path name pairwise distinct files. |
| `Download.DistinctTargetsCount` | main.py:79-83 | When successes name pairwise distinct files, there are exactly as many written files as successes. |
| `Download.WrittenFilesCount` | main.py:79-107 | Written files correspond one to one with successful items. |
| `Download.ScanThread` | main.py:127-150 | A scan thread reports as found the number of links one discovery collects. It then downloads those links into `downloaded_images` and reports as downloaded the number of successful tasks over them, whatever the completion order. With one scan at a time, that is never more than the number found. |
| `Download.MissingLinkScenario` | main.py:70-86 | Three items into `downloaded_images`, the second without a "Raw Scan" link: count 2, with `image_1.jpg` and `image_3.jpg` present and `image_2.jpg` absent. |

## Left out

- Selenium driver setup, page loading, `WebDriverWait`, element lookup and `driver.quit()` (main.py:23-37, 44-47, 58): browser I/O. They become `PageOutcome` and `LinkOutcome`, which only know the two timeouts caught at main.py:50 and 54.
- Discovery.FindImages: does not model a browser call that raises out of `find_images`. That is any exception from `driver.get` (main.py:30), a page-load `TimeoutException` included, because the call sits before the `try` at main.py:32. It is also any exception other than a `TimeoutException` from the other calls: `find_elements` (main.py:37), the wait on a figure and `get_attribute` (main.py:44-47), and `figure.text` inside the handler (main.py:51), for example on a stale element. In the source such an exception escapes `find_images` in the middle of a page. The links appended so far stay in `self.image_urls`, and `driver.quit()` (main.py:58) never runs. The model has no outcome for this, so its contract cannot state such a partial append.
- The source loops with `while True` until a page misbehaves. The model walks a finite sequence of page outcomes, and running out of them is an extra stop reason (`OutcomesExhausted`) with no counterpart in the source. The sequence is the fuel bound: a gallery that never stops is not modelled.
- `FindImages` records the page numbers it loads, not the URL strings. The URL of page `n` is `PageUrl(base, n)`, and `RequestedUrls` maps a discovery's pages to their URLs.
- `requests.get`, `raise_for_status` and the User-Agent header (main.py:62-68, 76-77): network I/O. They are folded into `ItemEnv`. An exception from HTML parsing is folded into `DetailFailed`.
- The BeautifulSoup selector `li.dld-btn.btn-4.hover-border a:contains("Raw Scan")` (main.py:70-71): library code. Its result is an input (`rawScan`). `:contains` is a substring match on the anchor text, not equality.
- `urljoin(self.base_url, href)` (main.py:74): reference resolution from section 5.2 of RFC 3986, done by the standard library. The model does not compute the image URL. An `href` that is present but empty still proceeds, as in the source.
- `ThreadPoolExecutor(max_workers=10)` and `as_completed` (main.py:97-99): concurrency. Only the completion order is modelled, as an arbitrary permutation of the indices. The worker cap is not modelled.
- The `except` around `future.result()` (main.py:104-105): `download_image` catches every `Exception` itself, so the model has no task that raises.
- Download.DownloadImages: does not model a failing `os.makedirs` (main.py:93-94). In the source it raises out of `download_images` before any task is submitted, so no count is returned. The model always returns a count.
- `os.makedirs` and the file write itself (main.py:80-81, 93-94): filesystem I/O. A write that fails after `open` may leave a partial file in the source. The model records the opened path (`target`) apart from success, and `WrittenFiles` counts only completed writes.
- `Download.Join`: models POSIX `os.path.join` only, for a file name that does not start with a separator.
- Download.ScanThread: the contract covers one scan at a time. In the source, `scan_thread` reads the shared field `self.scraper` twice, once for `find_images` (main.py:142) and once for `download_images` (main.py:146). The Scan button (main.py:118) is never disabled, and every click replaces `self.scraper` (main.py:129). A second click while the first thread is still discovering therefore makes that thread download the second scraper's links. It can then report more downloads than it found, and both threads write the same `image_{i+1}.jpg` paths. The model passes the scanned scraper on as a local value, so `downloaded <= numImages` holds only without such an overlap.
- The widgets of `ImageScraperGUI`, the thread start, the `after` callbacks and the status texts (main.py:109-164): UI and threading. `ScanThread` models only the order of calls in `scan_url` and `scan_thread` and the two numbers they report. The `except` in `scan_thread` (main.py:150-152) is not modelled, because the model has no operation that raises.
- `print` logging throughout: side output only.

## Notes on main.py

- Item indices are assigned at download time by `enumerate` (main.py:98), not during discovery.
- A timeout of the gallery container ends discovery on every page, page 1 included (main.py:54-56).
- The "Raw Scan" anchor is recognised by a substring match on its text (main.py:71), not by equality.
- No upper bound on the page count exists in the source.
