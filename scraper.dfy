/**
 * WebScraperService::scrapeWebsite as the loop it is: $visited, $toVisit
 * and $scrapedData are updated in place, one iteration per queue head,
 * and the two per-node closures are loops of their own. Each method is
 * proved to compute the corresponding function of module Crawling, whose
 * properties are proved there.
 */
module WebScraperService {
  import opened Naming
  import opened Frontier
  import opened Fetching
  import opened Crawling

  /** The anchor closure: appends each same-host href not already pending, in document order. */
  method EnqueueLinks(host: Url -> HostPart, url: Url, hrefs: seq<Url>, toVisit: seq<Url>) returns (queue: seq<Url>)
    ensures queue == Enqueue(host, url, hrefs, toVisit)
  {
    queue := toVisit;
    for i := 0 to |hrefs|
      invariant queue == Enqueue(host, url, hrefs[..i], toVisit)
    {
      var href := hrefs[i];
      assert hrefs[..i + 1][..i] == hrefs[..i];
      if IsSameDomain(host, url, href) && href !in queue {
        queue := queue + [href];
      }
    }
    assert hrefs[..|hrefs|] == hrefs;
  }

  /** The image closure: saves each <img> source in turn and keeps the ones saveImage names. */
  method CollectImages(w: Web, srcs: seq<Url>) returns (images: seq<ImageRow>)
    ensures images == SavedImages(w, srcs)
  {
    images := [];
    for i := 0 to |srcs|
      invariant images == SavedImages(w, srcs[..i])
    {
      var imgUrl := srcs[i];
      assert srcs[..i + 1] == srcs[..i] + [imgUrl];
      SavedImagesAppend(w, srcs[..i], [imgUrl]);
      assert [imgUrl][..0] == [];
      var imgFilename := SaveImage(w, imgUrl);
      if imgFilename.Some? {
        ImageFilenameIsTruthy(w.md5, w.extension, imgUrl);
      }
      if imgFilename.Some? && PhpTruthy(imgFilename.value) {
        images := images + [ImageRow(imgUrl, imgFilename.value)];
      }
    }
    assert srcs[..|srcs|] == srcs;
  }

  /**
   * scrapeWebsite: crawls breadth-first from `url` until the queue is
   * empty or `maxPages` pages are recorded. Its caller validates
   * `max_pages` as an integer of at least 1.
   */
  method ScrapeWebsite(w: Web, url: Url, maxPages: int) returns (result: Summary)
    requires maxPages >= 1
    ensures result == Summarize(Crawl(w, url, maxPages))
    ensures result.scrapedPages == |result.data| <= maxPages
    ensures NoDups(PageUrls(result.data))
  {
    var visited: seq<Url> := [];
    var toVisit: seq<Url> := [url];
    var scrapedData: seq<PageRow> := [];
    ghost var popped: seq<Url> := [];
    ghost var queued: seq<Url> := [url];

    while toVisit != [] && |visited| < maxPages
      invariant Run(w, maxPages, CrawlState(visited, toVisit, scrapedData, popped, queued)) == Crawl(w, url, maxPages)
      decreases maxPages - |visited|, |toVisit|
    {
      ghost var before := CrawlState(visited, toVisit, scrapedData, popped, queued);
      assert Run(w, maxPages, before) == Run(w, maxPages, Step(w, before));
      var current := toVisit[0];
      toVisit := toVisit[1..];
      popped := popped + [current];
      if current in visited {
        continue;
      }
      var page := w.page(current);
      if page.Unreachable? {
        // the exception is logged and the loop moves on
        continue;
      }
      var textFilename := TextFilename(w.md5, current);
      var images := CollectImages(w, page.imageSrcs);
      scrapedData := scrapedData + [PageRow(current, textFilename, images)];
      visited := visited + [current];
      var pending := |toVisit|;
      toVisit := EnqueueLinks(w.host, current, page.linkHrefs, toVisit);
      queued := queued + toVisit[pending..];
    }

    result := Summary(|scrapedData|, scrapedData);
    CrawlStaysWithinCeiling(w, url, maxPages);
    CrawlRecordsEachPageOnce(w, url, maxPages);
  }
}
