# Same-host breadth-first crawler of WebScraperService, in Dafny

This project models the web scraper behind the `/scrape` endpoint of the
AI-API-PHP application: `WebScraperService::scrapeWebsite` and its helpers
`saveText`, `saveImage` and `isSameDomain`.

Starting from a seed URL, `scrapeWebsite` keeps three PHP arrays:
- `$visited`, the URLs crawled successfully;
- `$toVisit`, a FIFO of pending URLs;
- `$scrapedData`, one summary row per crawled page.

Each iteration shifts the head off `$toVisit`. The URL is skipped if it is
already in `$visited`. Otherwise the page is fetched and its text file is
named. Each `<img>` is saved, and an image that fails is dropped. The page
row is recorded and the URL marked visited. Each `<a href>` on the page's
host that is not already pending is appended to the queue. Any exception
while handling a page is logged, and the loop moves on. The loop stops when
the queue is empty or `maxPages` pages have been crawled.

The web is a parameter, the datatype `Fetching.Web`, made of five functions:
- `page`: a URL to `Unreachable` or `Html(imageSrcs, linkHrefs)`, in document order;
- `image`: an image URL to its bytes, or `None` when `file_get_contents` fails;
- `host`: the value of `parse_url($u, PHP_URL_HOST)`, one of `false`, `null` or a host string;
- `md5`: 32 lower-case hex digits;
- `extension`: `pathinfo($u, PATHINFO_EXTENSION)`.

Modules:
- `Naming` (naming.dfy): `isSameDomain` and the storage names of `saveText` and `saveImage`.
- `Frontier` (frontier.dfy): the anchor closure that appends to the pending queue.
- `Fetching` (fetching.dfy): the web oracle, `saveImage` and the image closure.
- `Crawling` (crawl.dfy): the loop as a function. `Step` is one iteration and `Run` the loop. The invariants it keeps and the theorems about a whole crawl live here too.
- `WebScraperService` (scraper.dfy): `scrapeWebsite` as a method with a `while` loop over `seq` variables. The two closures are `for` loops. Each method is proved to compute the matching function of `Crawling`, `Frontier` or `Fetching`.

Termination uses the lexicographic measure `(maxPages - |visited|, |toVisit|)`.
An iteration that crawls a page lengthens `visited`. Any other iteration
only shortens the queue.

The state of `Crawling` also keeps two logs besides the source's three
arrays. `popped` holds the URLs shifted off the queue, in order. `queued`
holds every URL ever appended, seed first. With these logs the queue
discipline can be stated.

Where the code departs from what a conventional crawler does, the model
follows the code:
- A page whose fetch fails is not marked visited. If another page links to it again, it is queued and fetched again.
- The enqueue test looks only at `$toVisit`. A crawled URL can be queued again and is then skipped when it reaches the head (`CrawledUrlMayBeQueuedAgain`).
- Hrefs and image sources are used raw, with no resolution against the page URL. A relative href has no host part, so from a page that has a host it is never followed (`RelativeHrefIsForeign`).
- Two host-less URLs are on the "same domain", because `null === null` (`HostlessUrlsAreSameDomain`). So are two URLs that `parse_url` cannot parse, because `false === false`.
- Storage names come from the URL (`md5(url)`), not from the content. Writes are not deduplicated.

## Model

| member | source | states |
|---|---|---|
| `WebScraperService.ScrapeWebsite` | php-api-with-admin.php:220-280 | The loop returns exactly the summary of `Crawling.Crawl` for the same web, seed and ceiling. `scraped_pages` equals the number of rows and is at most `maxPages`. No URL appears in two rows. |
| `WebScraperService.EnqueueLinks` | php-api-with-admin.php:265-270 | The anchor loop leaves the queue equal to `Frontier.Enqueue` of the page's hrefs. |
| `WebScraperService.CollectImages` | php-api-with-admin.php:243-255 | The image loop, with its `if ($imgFilename)` test, builds exactly `Fetching.SavedImages` of the page's sources. |
| `Frontier.Enqueue` | php-api-with-admin.php:265-270 | The old queue is kept as a prefix, so URLs are only appended at the back. Every appended entry is a same-host href of the page. A queue without duplicates stays without duplicates. |
| `Frontier.EnqueueMembership` | php-api-with-admin.php:265-268 | A URL is pending afterwards if and only if it was pending before or is an href of the page on the page's host. |
| `Frontier.EnqueueAppend` | php-api-with-admin.php:265-270 | Hrefs are offered one at a time in document order. Enqueueing `a + b` equals enqueueing `a`, then `b`. |
| `Frontier.EnqueueAddsOnlyNewHrefs` | php-api-with-admin.php:267-268 | Each href adds at most one entry. No appended entry was already pending. |
| `Fetching.SavedImages` | php-api-with-admin.php:243-255 | Every saved image is a source of the page that fetched. Its filename is `ImageFilename` of its own URL. There are no more rows than sources. |
| `Fetching.SavedImagesAreSuccessfulSources` | php-api-with-admin.php:243-255 | The image list equals an independent filter of the sources: exactly those whose fetch succeeded, in document order, each named by `ImageFilename` of its own URL. |
| `Fetching.SaveImage` | php-api-with-admin.php:289-300 | `saveImage`: the name `ImageFilename` of the URL when the fetch succeeds, null otherwise. It has no `ensures`; its properties are proved by `FailedImageDropped`, `SavedImagesAreSuccessfulSources` and `ImageFilenameIsTruthy`. |
| `Fetching.AllImagesSaved` | php-api-with-admin.php:244-255 | When every image fetches, the image list has one row per source, in document order. |
| `Fetching.SavedImagesAppend` | php-api-with-admin.php:244-255 | Images are saved independently: the list for `a + b` is the list for `a` followed by the list for `b`. |
| `Fetching.FailedImageDropped` | php-api-with-admin.php:289-300 | An image whose fetch fails (`saveImage` returns null) is dropped, and only that image; the images before and after it are saved as if it were absent. |
| `Naming.IsSameDomain` | php-api-with-admin.php:302-305 | `isSameDomain`: the two `parse_url` host parts compared with `===`. It has no `ensures`; `SameDomainIsEquivalence`, `HostlessUrlsAreSameDomain` and `RelativeHrefIsForeign` state its properties. |
| `Naming.TextFilename` | php-api-with-admin.php:284 | The name `md5($url) . '.txt'` built in `saveText`. It has no `ensures`; `TextFilenamesCollide` and `TextAndImageFilenamesCollide` state its properties. |
| `Naming.ImageFilename` | php-api-with-admin.php:293 | The name `md5($imgUrl) . '.' . extension` built in `saveImage`. It has no `ensures`; `ImageFilenamesCollide`, `TextAndImageFilenamesCollide` and `ImageFilenameIsTruthy` state its properties. |
| `Frontier.Offer` | php-api-with-admin.php:266-268 | The anchor closure's body for one href: append it when it is on the page's host and not already pending. It has no `ensures`; `Enqueue`, `EnqueueMembership` and `EnqueueAddsOnlyNewHrefs` state what repeated offers do. |
| `Naming.TextFilenamesCollide` | php-api-with-admin.php:284 | The text file names of two URLs are equal if and only if the URLs' digests are equal. The name depends on the URL alone. |
| `Naming.ImageFilenamesCollide` | php-api-with-admin.php:293 | The image file names of two URLs are equal if and only if their digests and their extensions are both equal. |
| `Naming.TextAndImageFilenamesCollide` | php-api-with-admin.php:282-294 | A page's text file and an image file share a name if and only if the digests are equal and the image extension is `txt`. |
| `Naming.ImageFilenameIsTruthy` | php-api-with-admin.php:246-247 | A name returned by `saveImage` is never `""` or `"0"`, so `if ($imgFilename)` drops an image only when `saveImage` returned null. |
| `Naming.HostlessUrlsAreSameDomain` | php-api-with-admin.php:302-305 | Two URLs whose `parse_url` host is null are on the same domain (`null === null`). |
| `Naming.RelativeHrefIsForeign` | php-api-with-admin.php:302-305 | An href with no host part is never on the same domain as a page URL that has a host. |
| `Naming.SameDomainIsEquivalence` | php-api-with-admin.php:302-305 | `isSameDomain` is reflexive, symmetric and transitive. |
| `Crawling.Init` | php-api-with-admin.php:222-224 | The start state: nothing visited, the queue holding only the seed, no rows. It has no `ensures`; `InitValid` proves it satisfies the invariant. |
| `Crawling.RowFor` | php-api-with-admin.php:257-261 | The summary row of a crawled page: its URL, `TextFilename` of the URL and its saved images. It has no `ensures`; `CrawlRecordsEachPageOnce` states what the rows of a crawl hold. |
| `Crawling.Run` | php-api-with-admin.php:226-274 | The `while` loop: repeat `Step` until the queue is empty or `maxPages` URLs are visited. It has no `ensures`; `RunPreservesValid` proves its invariant, ceiling and exit condition, and `RunDependsOnlyOnFrontier` its independence from the logs. |
| `Crawling.Summarize` | php-api-with-admin.php:276-279 | The return value `['scraped_pages' => count($scrapedData), 'data' => $scrapedData]`. It has no `ensures`; `CrawlStaysWithinCeiling` relates `scraped_pages` to the rows, the visits and the ceiling. |
| `Crawling.Step` | php-api-with-admin.php:226-273 | Each iteration either adds one URL to `visited`, or leaves `visited` alone and shortens the queue by one. This is the termination measure. |
| `Crawling.Visits` | php-api-with-admin.php:227-263 | The URLs crawled, computed from the URLs shifted off the queue, have no duplicates. A URL is among them if and only if it was shifted off and its page fetched. |
| `Crawling.InitValid` | php-api-with-admin.php:222-224 | The initial state satisfies the invariant: nothing visited, nothing recorded, and the queue holding only the seed. |
| `Crawling.StepSkipPreservesValid` | php-api-with-admin.php:227-230 | An iteration that skips an already visited head, or whose page fails, keeps the invariant. |
| `Crawling.CrawlStepKeepsFifo` | php-api-with-admin.php:227-268 | After a crawled page, the shifted URLs followed by the pending ones still equal every URL ever appended, seed first. |
| `Crawling.CrawlStepKeepsHostAndProvenance` | php-api-with-admin.php:265-268 | After a crawled page, every URL ever queued is still on the seed's host. Each one other than the seed is a same-host href of a crawled page. |
| `Crawling.StepCrawlPreservesValid` | php-api-with-admin.php:232-270 | An iteration that crawls its head keeps the invariant. Rows match visits, the queue has no duplicates, and FIFO order, host and provenance all hold. |
| `Crawling.StepPreservesValid` | php-api-with-admin.php:226-273 | Every iteration keeps the invariant. |
| `Crawling.RunPreservesValid` | php-api-with-admin.php:226 | The loop keeps the invariant and stays within the ceiling. It stops only when the queue is empty or `visited` has reached `maxPages`. |
| `Crawling.CrawlValid` | php-api-with-admin.php:220-280 | A whole crawl from the seed ends in a valid state within the ceiling. |
| `Crawling.CrawlStaysWithinCeiling` | php-api-with-admin.php:226-277 | At the end, `scraped_pages == count($scrapedData) == count($visited) <= maxPages`, and the queue is empty or the ceiling was reached. |
| `Crawling.CrawlRecordsEachPageOnce` | php-api-with-admin.php:228-263 | No URL is crawled twice, and row `i` is the page of the `i`-th crawled URL. That page fetched, its text file is `md5(url).txt`, and its images are exactly the saved ones. |
| `Crawling.CrawlIsBreadthFirst` | php-api-with-admin.php:223-268 | URLs are shifted off in the order they were appended, seed first. The crawled URLs are the shifted ones in that order, minus repeats and failures. The queue holds no duplicates. |
| `Crawling.CrawlStaysOnSeedHost` | php-api-with-admin.php:265-268 | Every crawled or pending URL has the seed's host. Each one other than the seed was an href on a crawled page of the same host. |
| `Crawling.RunDependsOnlyOnFrontier` | php-api-with-admin.php:226-274 | The rest of the loop depends only on `$visited`, `$toVisit` and `$scrapedData`. |
| `Crawling.SkippedHeadDoesNotStopCrawl` | php-api-with-admin.php:228-273 | Take a head that is already visited, or whose page fails (the exception is caught). Nothing is recorded for it. The crawl then continues exactly as if that URL had not been queued. |
| `Crawling.CrawledUrlMayBeQueuedAgain` | php-api-with-admin.php:263-268 | The enqueue test checks only `$toVisit`, so a crawled page that links to itself is marked visited and is also queued again. |
| `Crawling.UnreachableSeedCrawlsNothing` | php-api-with-admin.php:222-279 | When the seed is unreachable, the result is `scraped_pages = 0` with no rows, and no error. |
| `Crawling.SeedStepQueuesFirstLink` | php-api-with-admin.php:263-270 | After the seed is crawled, its first same-host href heads the queue. |
| `Crawling.CeilingOfTwoStopsAfterFirstLink` | php-api-with-admin.php:222-270 | Set `maxPages = 2`, and let the seed's first href be a different same-host page that fetches. Then the crawl records exactly the seed and that href, and shifts nothing else off the queue. |

## Left out

- The Goutte HTTP client, the `body`/`img`/`a` DOM filters and `text()` are foreign library calls. They are replaced by `Web.page`. `Unreachable` stands for any exception they throw, including a page without a `<body>`. The page text itself is not modelled, only its file name.
- `file_get_contents` for images is replaced by `Web.image`.
- `Storage::put`, `ScrapedData::create` and `ScrapedImage::create` are persistence side effects and are not modelled. The rows handed to `create` equal the summary rows the model returns. A DB failure after `ScrapedData::create` (a partial commit) is not modelled, and neither is `put` returning false.
- The internals of `md5`, `parse_url` and `pathinfo` are not modelled; they are the parameters `md5`, `host` and `extension`. Of `md5`, the model assumes only that it returns 32 lower-case hex digits.
- PHP's loose `in_array` comparison, where numeric strings compare equal, is not modelled. URLs are compared as exact strings.
- Fetching.SavedImages: follows PHP 7, where `file_get_contents('')` for an `<img src="">` only warns, Laravel turns the warning into an exception, and `saveImage` returns null. Under PHP 8 the same call throws `ValueError`, which none of the `catch (\Exception)` blocks catch, so the whole scrape aborts with no summary. That abort is not modelled.
- An `<img>` without `src` or an `<a>` without `href` (attribute value null) is not modelled. The oracle yields strings only.
- The oracle is deterministic: a failed URL that is queued again fails again. A server that fails once and then succeeds is not modelled, and neither is the number of fetch attempts.
- Logging and exception messages are not modelled.
- The controllers, request validation, models, routes and views are CRUD and framework glue. Of the validation, only `max_pages >= 1` is kept, as the precondition of `ScrapeWebsite`.
- `ConfigController::updateEnvFile` is file I/O plus a regex replace on unescaped input, and is not modelled.
- `WebScraperService.ScrapeWebsite`: requires `maxPages >= 1`, which its caller validates. The loop as written also runs for smaller values: it then does nothing and returns zero pages.
