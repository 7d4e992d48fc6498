/**
 * The breadth-first crawl of scrapeWebsite as a function: one `Step` per
 * iteration of its while loop, and `Run` repeating it until the queue is
 * empty or `maxPages` pages have been crawled.
 *
 * Besides the source's $visited, $toVisit and $scrapedData, the state
 * records the URLs shifted off the queue (`popped`) and every URL ever
 * appended to it (`queued`), so that the queue discipline can be stated.
 */
module Crawling {
  import opened Naming
  import opened Frontier
  import opened Fetching

  /** One element of the 'data' array: the page, its text file and its saved images. */
  datatype PageRow = PageRow(url: Url, textFile: string, images: seq<ImageRow>)

  /** What scrapeWebsite returns: ['scraped_pages' => ..., 'data' => ...]. */
  datatype Summary = Summary(scrapedPages: nat, data: seq<PageRow>)

  datatype CrawlState = CrawlState(
    visited: seq<Url>,
    toVisit: seq<Url>,
    data: seq<PageRow>,
    popped: seq<Url>,
    queued: seq<Url>)

  function Init(seed: Url): CrawlState
  {
    CrawlState([], [seed], [], [], [seed])
  }

  /** The row recorded for a page that fetched and parsed. */
  function RowFor(w: Web, url: Url, srcs: seq<Url>): PageRow
  {
    PageRow(url, TextFilename(w.md5, url), SavedImages(w, srcs))
  }

  /**
   * One iteration: shift the head; skip it if already crawled; skip it if
   * its page fails; otherwise record its row, mark it crawled and offer its
   * hrefs to the queue.
   */
  function Step(w: Web, s: CrawlState): (r: CrawlState)
    requires s.toVisit != []
    ensures |r.visited| == |s.visited| + 1 || (r.visited == s.visited && |r.toVisit| == |s.toVisit| - 1)
  {
    var url := s.toVisit[0];
    var rest := s.toVisit[1..];
    var popped := s.popped + [url];
    if url in s.visited then
      s.(toVisit := rest, popped := popped)
    else
      match w.page(url)
      case Unreachable => s.(toVisit := rest, popped := popped)
      case Html(srcs, hrefs) =>
        var queue := Enqueue(w.host, url, hrefs, rest);
        CrawlState(s.visited + [url], queue, s.data + [RowFor(w, url, srcs)], popped, s.queued + queue[|rest|..])
  }

  /** The while loop: it stops when the queue is empty or count($visited) reaches maxPages. */
  function Run(w: Web, maxPages: int, s: CrawlState): CrawlState
    decreases maxPages - |s.visited|, |s.toVisit|
  {
    if s.toVisit == [] || |s.visited| >= maxPages then s
    else Run(w, maxPages, Step(w, s))
  }

  function Crawl(w: Web, seed: Url, maxPages: int): CrawlState
  {
    Run(w, maxPages, Init(seed))
  }

  function Summarize(s: CrawlState): Summary
  {
    Summary(|s.data|, s.data)
  }

  function PageUrls(rows: seq<PageRow>): (r: seq<Url>)
    ensures |r| == |rows| && forall i :: 0 <= i < |rows| ==> r[i] == rows[i].url
  {
    seq(|rows|, i requires 0 <= i < |rows| => rows[i].url)
  }

  /**
   * The URLs crawled, given the URLs shifted off the queue in order: each
   * one that is not yet crawled and whose page does not fail.
   */
  function Visits(w: Web, popped: seq<Url>): (r: seq<Url>)
    ensures NoDups(r)
    ensures forall u :: u in r <==> u in popped && w.page(u).Html?
    decreases |popped|
  {
    if popped == [] then []
    else
      var prior := Visits(w, popped[..|popped| - 1]);
      var u := popped[|popped| - 1];
      assert popped == popped[..|popped| - 1] + [u];
      if u !in prior && w.page(u).Html? then prior + [u] else prior
  }

  /** Page `v` fetched and carries an href to `u` on its own host. */
  predicate LinksTo(w: Web, v: Url, u: Url)
  {
    w.page(v).Html? && u in w.page(v).linkHrefs && IsSameDomain(w.host, v, u)
  }

  // ---------------------------------------------------------------------
  // What every iteration preserves.
  // ---------------------------------------------------------------------

  /** $scrapedData and $visited grow together, one row per crawled URL, built from that URL's page. */
  ghost predicate Recorded(w: Web, s: CrawlState)
  {
    |s.data| == |s.visited| &&
    forall i :: 0 <= i < |s.visited| ==>
      w.page(s.visited[i]).Html? && s.data[i] == RowFor(w, s.visited[i], w.page(s.visited[i]).imageSrcs)
  }

  /** FIFO: what was shifted off, followed by what is pending, is everything ever appended, seed first. */
  ghost predicate Fifo(seed: Url, s: CrawlState)
  {
    s.popped + s.toVisit == s.queued && |s.queued| > 0 && s.queued[0] == seed
  }

  /** Every URL ever queued is on the seed's host. */
  ghost predicate OnSeedHost(w: Web, seed: Url, s: CrawlState)
  {
    forall u :: u in s.queued ==> IsSameDomain(w.host, seed, u)
  }

  /** Every URL ever queued is the seed or an href found on a crawled page of the same host. */
  ghost predicate Discovered(w: Web, seed: Url, s: CrawlState)
  {
    forall u :: u in s.queued ==> u == seed || exists v :: v in s.visited && LinksTo(w, v, u)
  }

  ghost predicate Valid(w: Web, seed: Url, s: CrawlState)
  {
    && s.visited == Visits(w, s.popped)
    && NoDups(s.toVisit)
    && Recorded(w, s)
    && Fifo(seed, s)
    && OnSeedHost(w, seed, s)
    && Discovered(w, seed, s)
  }

  lemma InitValid(w: Web, seed: Url)
    ensures Valid(w, seed, Init(seed))
  {
    SameDomainIsEquivalence(w.host, seed, seed, seed);
  }

  /** An iteration that skips its head (already crawled, or its page fails). */
  lemma StepSkipPreservesValid(w: Web, seed: Url, s: CrawlState)
    requires Valid(w, seed, s) && s.toVisit != []
    requires s.toVisit[0] in s.visited || w.page(s.toVisit[0]).Unreachable?
    ensures Valid(w, seed, Step(w, s))
  {
    var url := s.toVisit[0];
    var r := Step(w, s);
    assert r.popped[..|s.popped|] == s.popped;
    assert r.visited == Visits(w, r.popped);
    assert s.toVisit == [url] + r.toVisit;
    assert r.popped + r.toVisit == s.popped + s.toVisit;
  }

  /** The state after crawling the head `url` of `s`, written out. */
  lemma CrawlStepShape(w: Web, s: CrawlState)
    requires s.toVisit != [] && s.toVisit[0] !in s.visited && w.page(s.toVisit[0]).Html?
    ensures var url, rest := s.toVisit[0], s.toVisit[1..];
            var queue := Enqueue(w.host, url, w.page(url).linkHrefs, rest);
            Step(w, s) == CrawlState(s.visited + [url], queue, s.data + [RowFor(w, url, w.page(url).imageSrcs)],
                                     s.popped + [url], s.queued + queue[|rest|..])
  {
  }

  /** Shifting the head and appending at the back keeps "popped, then pending" equal to "queued". */
  lemma ShiftThenAppend(popped: seq<Url>, url: Url, rest: seq<Url>, added: seq<Url>, queued: seq<Url>)
    requires popped + ([url] + rest) == queued
    ensures (popped + [url]) + (rest + added) == queued + added
  {
    assert (popped + [url]) + (rest + added) == (popped + ([url] + rest)) + added;
  }

  lemma CrawlStepKeepsFifo(w: Web, seed: Url, s: CrawlState)
    requires Fifo(seed, s) && s.toVisit != [] && s.toVisit[0] !in s.visited && w.page(s.toVisit[0]).Html?
    ensures Fifo(seed, Step(w, s))
  {
    var url, rest := s.toVisit[0], s.toVisit[1..];
    var queue := Enqueue(w.host, url, w.page(url).linkHrefs, rest);
    var added := queue[|rest|..];
    CrawlStepShape(w, s);
    assert queue == rest + added;
    assert s.toVisit == [url] + rest;
    ShiftThenAppend(s.popped, url, rest, added, s.queued);
  }

  lemma CrawlStepKeepsHostAndProvenance(w: Web, seed: Url, s: CrawlState)
    requires OnSeedHost(w, seed, s) && Discovered(w, seed, s)
    requires s.toVisit != [] && s.toVisit[0] in s.queued
    requires s.toVisit[0] !in s.visited && w.page(s.toVisit[0]).Html?
    ensures OnSeedHost(w, seed, Step(w, s)) && Discovered(w, seed, Step(w, s))
  {
    var url, rest := s.toVisit[0], s.toVisit[1..];
    var queue := Enqueue(w.host, url, w.page(url).linkHrefs, rest);
    var added := queue[|rest|..];
    var r := Step(w, s);
    CrawlStepShape(w, s);
    assert url in r.visited;
    forall u | u in r.queued
      ensures IsSameDomain(w.host, seed, u)
      ensures u == seed || exists v :: v in r.visited && LinksTo(w, v, u)
    {
      if u !in s.queued {
        var k :| 0 <= k < |added| && added[k] == u;
        assert queue[|rest| + k] == u;
        assert LinksTo(w, url, u);
      } else if u != seed {
        var v :| v in s.visited && LinksTo(w, v, u);
        assert v in r.visited;
      }
    }
  }

  /** An iteration that crawls its head. */
  lemma StepCrawlPreservesValid(w: Web, seed: Url, s: CrawlState)
    requires Valid(w, seed, s) && s.toVisit != []
    requires s.toVisit[0] !in s.visited && w.page(s.toVisit[0]).Html?
    ensures Valid(w, seed, Step(w, s))
  {
    var url := s.toVisit[0];
    var r := Step(w, s);
    CrawlStepShape(w, s);
    assert r.popped[..|s.popped|] == s.popped;
    assert r.visited == Visits(w, r.popped);
    assert Recorded(w, r);
    CrawlStepKeepsFifo(w, seed, s);
    assert s.toVisit == s.toVisit[..1] + s.toVisit[1..];
    assert url in s.queued;
    CrawlStepKeepsHostAndProvenance(w, seed, s);
  }

  /** Every iteration keeps the crawl state valid. */
  lemma StepPreservesValid(w: Web, seed: Url, s: CrawlState)
    requires Valid(w, seed, s) && s.toVisit != []
    ensures Valid(w, seed, Step(w, s))
  {
    if s.toVisit[0] in s.visited || w.page(s.toVisit[0]).Unreachable? {
      StepSkipPreservesValid(w, seed, s);
    } else {
      StepCrawlPreservesValid(w, seed, s);
    }
  }

  /** The loop keeps the state valid and within the page ceiling, and stops only for its two reasons. */
  lemma {:induction false} RunPreservesValid(w: Web, maxPages: int, seed: Url, s: CrawlState)
    requires Valid(w, seed, s) && |s.visited| <= maxPages
    ensures Valid(w, seed, Run(w, maxPages, s))
    ensures |Run(w, maxPages, s).visited| <= maxPages
    ensures Run(w, maxPages, s).toVisit == [] || |Run(w, maxPages, s).visited| == maxPages
    decreases maxPages - |s.visited|, |s.toVisit|
  {
    if s.toVisit != [] && |s.visited| < maxPages {
      StepPreservesValid(w, seed, s);
      RunPreservesValid(w, maxPages, seed, Step(w, s));
    }
  }

  lemma CrawlValid(w: Web, seed: Url, maxPages: int)
    requires 0 <= maxPages
    ensures Valid(w, seed, Crawl(w, seed, maxPages))
    ensures |Crawl(w, seed, maxPages).visited| <= maxPages
    ensures Crawl(w, seed, maxPages).toVisit == [] || |Crawl(w, seed, maxPages).visited| == maxPages
  {
    InitValid(w, seed);
    RunPreservesValid(w, maxPages, seed, Init(seed));
  }

  // ---------------------------------------------------------------------
  // What the crawl as a whole guarantees.
  // ---------------------------------------------------------------------

  /** The loop ends within the page ceiling, with 'scraped_pages' equal to the rows and the crawled URLs. */
  lemma CrawlStaysWithinCeiling(w: Web, seed: Url, maxPages: int)
    requires 0 <= maxPages
    ensures var r := Crawl(w, seed, maxPages);
            Summarize(r).scrapedPages == |r.data| == |r.visited| <= maxPages &&
            (r.toVisit == [] || |r.visited| == maxPages)
  {
    CrawlValid(w, seed, maxPages);
  }

  /** No URL is crawled or recorded twice; row i is URL i's page, named and imaged from its URL. */
  lemma CrawlRecordsEachPageOnce(w: Web, seed: Url, maxPages: int)
    requires 0 <= maxPages
    ensures var r := Crawl(w, seed, maxPages);
            NoDups(r.visited) && PageUrls(r.data) == r.visited && NoDups(PageUrls(r.data)) &&
            forall i :: 0 <= i < |r.data| ==>
              w.page(r.data[i].url).Html? &&
              r.data[i].textFile == TextFilename(w.md5, r.data[i].url) &&
              r.data[i].images == SavedImages(w, w.page(r.data[i].url).imageSrcs)
  {
    CrawlValid(w, seed, maxPages);
  }

  /**
   * Breadth-first order: URLs are shifted off in the order they were
   * appended, seed first, and the crawled URLs are exactly those shifted
   * off, in that order, less the repeats and the failures. The queue
   * holds no duplicates.
   */
  lemma CrawlIsBreadthFirst(w: Web, seed: Url, maxPages: int)
    requires 0 <= maxPages
    ensures var r := Crawl(w, seed, maxPages);
            |r.queued| > 0 && r.queued[0] == seed && r.popped + r.toVisit == r.queued &&
            r.visited == Visits(w, r.popped) && NoDups(r.toVisit)
  {
    CrawlValid(w, seed, maxPages);
  }

  /** Every crawled or pending URL is on the seed's host, and each but the seed was linked from a crawled page. */
  lemma CrawlStaysOnSeedHost(w: Web, seed: Url, maxPages: int)
    requires 0 <= maxPages
    ensures var r := Crawl(w, seed, maxPages);
            forall u :: u in r.visited || u in r.toVisit ==>
              IsSameDomain(w.host, seed, u) &&
              (u == seed || exists v :: v in r.visited && LinksTo(w, v, u))
  {
    CrawlValid(w, seed, maxPages);
    var r := Crawl(w, seed, maxPages);
    forall u | u in r.visited || u in r.toVisit
      ensures u in r.queued
    {
      assert u in r.popped + r.toVisit;
    }
  }

  /** The rest of the loop depends only on $visited, $toVisit and $scrapedData. */
  lemma {:induction false} RunDependsOnlyOnFrontier(w: Web, maxPages: int, s1: CrawlState, s2: CrawlState)
    requires s1.visited == s2.visited && s1.toVisit == s2.toVisit && s1.data == s2.data
    ensures Run(w, maxPages, s1).visited == Run(w, maxPages, s2).visited
    ensures Run(w, maxPages, s1).toVisit == Run(w, maxPages, s2).toVisit
    ensures Run(w, maxPages, s1).data == Run(w, maxPages, s2).data
    decreases maxPages - |s1.visited|, |s1.toVisit|
  {
    if s1.toVisit != [] && |s1.visited| < maxPages {
      RunDependsOnlyOnFrontier(w, maxPages, Step(w, s1), Step(w, s2));
    }
  }

  /**
   * A head that is already crawled, or whose page fails, is dropped and
   * nothing is recorded for it; the loop then goes on with the rest of
   * the queue exactly as if that URL had never been queued.
   */
  lemma SkippedHeadDoesNotStopCrawl(w: Web, maxPages: int, s: CrawlState)
    requires s.toVisit != [] && |s.visited| < maxPages
    requires s.toVisit[0] in s.visited || w.page(s.toVisit[0]).Unreachable?
    ensures Step(w, s).visited == s.visited && Step(w, s).data == s.data
    ensures Run(w, maxPages, s).visited == Run(w, maxPages, s.(toVisit := s.toVisit[1..])).visited
    ensures Run(w, maxPages, s).data == Run(w, maxPages, s.(toVisit := s.toVisit[1..])).data
  {
    RunDependsOnlyOnFrontier(w, maxPages, Step(w, s), s.(toVisit := s.toVisit[1..]));
  }

  /** The dedup is against $toVisit only: a crawled page that links to itself is queued again. */
  lemma CrawledUrlMayBeQueuedAgain(w: Web, s: CrawlState)
    requires s.toVisit != [] && s.toVisit[0] !in s.visited && w.page(s.toVisit[0]).Html?
    requires s.toVisit[0] in w.page(s.toVisit[0]).linkHrefs && s.toVisit[0] !in s.toVisit[1..]
    ensures s.toVisit[0] in Step(w, s).visited && s.toVisit[0] in Step(w, s).toVisit
  {
    var url := s.toVisit[0];
    CrawlStepShape(w, s);
    EnqueueMembership(w.host, url, w.page(url).linkHrefs, s.toVisit[1..]);
  }

  /** An unreachable seed ends the crawl with no pages and no error. */
  lemma UnreachableSeedCrawlsNothing(w: Web, seed: Url, maxPages: int)
    requires 1 <= maxPages && w.page(seed) == Unreachable
    ensures Summarize(Crawl(w, seed, maxPages)) == Summary(0, [])
  {
    var s1 := Step(w, Init(seed));
    assert s1.toVisit == [] && s1.data == [];
    assert Crawl(w, seed, maxPages) == Run(w, maxPages, s1);
  }

  /**
   * With a ceiling of two pages, the crawl records the seed and then the
   * first href on the seed's page (when it is a different, same-host page
   * that fetches), and fetches nothing else.
   */
  lemma CeilingOfTwoStopsAfterFirstLink(w: Web, seed: Url)
    requires w.page(seed).Html? && |w.page(seed).linkHrefs| > 0
    requires var first := w.page(seed).linkHrefs[0];
             first != seed && IsSameDomain(w.host, seed, first) && w.page(first).Html?
    ensures var first := w.page(seed).linkHrefs[0];
            var r := Crawl(w, seed, 2);
            PageUrls(r.data) == [seed, first] && r.popped == [seed, first]
  {
    var first := w.page(seed).linkHrefs[0];
    var s1 := Step(w, Init(seed));
    SeedStepQueuesFirstLink(w, seed);
    var s2 := Step(w, s1);
    assert s2.visited == [seed, first] && s2.popped == [seed, first];
    assert s2.data == s1.data + [RowFor(w, first, w.page(first).imageSrcs)];
    assert Crawl(w, seed, 2) == Run(w, 2, s1) == Run(w, 2, s2) == s2;
  }

  /** After crawling the seed, its first same-host href heads the queue. */
  lemma SeedStepQueuesFirstLink(w: Web, seed: Url)
    requires w.page(seed).Html? && |w.page(seed).linkHrefs| > 0
    requires IsSameDomain(w.host, seed, w.page(seed).linkHrefs[0])
    ensures var s1 := Step(w, Init(seed));
            s1.visited == [seed] && |s1.data| == 1 && s1.data[0].url == seed &&
            s1.popped == [seed] && s1.toVisit != [] && s1.toVisit[0] == w.page(seed).linkHrefs[0]
  {
    var hrefs := w.page(seed).linkHrefs;
    var first := hrefs[0];
    assert hrefs == [first] + hrefs[1..];
    EnqueueAppend(w.host, seed, [first], hrefs[1..], []);
    assert [first][..0] == [];
    assert Enqueue(w.host, seed, [first], []) == [first];
  }
}
