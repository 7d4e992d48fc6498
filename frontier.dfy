/**
 * The pending queue of scrapeWebsite and the anchor closure that feeds it:
 * every href of a fetched page, in document order, is appended to the
 * back of $toVisit when it is on the page's host and not already pending.
 */
module Frontier {
  import opened Naming

  predicate NoDups(s: seq<Url>)
  {
    forall i, j :: 0 <= i < j < |s| ==> s[i] != s[j]
  }

  /** The body of the anchor closure for one href. */
  function Offer(host: Url -> HostPart, page: Url, href: Url, queue: seq<Url>): seq<Url>
  {
    if IsSameDomain(host, page, href) && href !in queue then queue + [href] else queue
  }

  /**
   * The queue after the anchor closure has seen every href of `page`.
   * Only $toVisit is consulted: a URL already crawled may be queued again.
   */
  function Enqueue(host: Url -> HostPart, page: Url, hrefs: seq<Url>, queue: seq<Url>): (r: seq<Url>)
    ensures |queue| <= |r| && r[..|queue|] == queue
    ensures forall k :: |queue| <= k < |r| ==> r[k] in hrefs && IsSameDomain(host, page, r[k])
    ensures NoDups(queue) ==> NoDups(r)
    decreases |hrefs|
  {
    if hrefs == [] then queue
    else
      var href := hrefs[|hrefs| - 1];
      assert hrefs == hrefs[..|hrefs| - 1] + [href];
      Offer(host, page, href, Enqueue(host, page, hrefs[..|hrefs| - 1], queue))
  }

  /** A URL ends up pending exactly when it was pending before or is a same-host href of the page. */
  lemma {:induction false} EnqueueMembership(host: Url -> HostPart, page: Url, hrefs: seq<Url>, queue: seq<Url>)
    ensures forall u :: u in Enqueue(host, page, hrefs, queue) <==> u in queue || (u in hrefs && IsSameDomain(host, page, u))
    decreases |hrefs|
  {
    if hrefs != [] {
      var init, last := hrefs[..|hrefs| - 1], hrefs[|hrefs| - 1];
      assert hrefs == init + [last];
      EnqueueMembership(host, page, init, queue);
    }
  }

  /** The hrefs are handled one at a time: two runs of the closure compose. */
  lemma {:induction false} EnqueueAppend(host: Url -> HostPart, page: Url, a: seq<Url>, b: seq<Url>, queue: seq<Url>)
    ensures Enqueue(host, page, a + b, queue) == Enqueue(host, page, b, Enqueue(host, page, a, queue))
    decreases |b|
  {
    if b == [] {
      assert a + b == a;
    } else {
      var ab, init, last := a + b, b[..|b| - 1], b[|b| - 1];
      assert ab[..|ab| - 1] == a + init;
      assert ab[|ab| - 1] == last;
      EnqueueAppend(host, page, a, init, queue);
      assert Enqueue(host, page, ab, queue) == Offer(host, page, last, Enqueue(host, page, a + init, queue));
    }
  }

  /** Each href adds at most one entry, and never one that was already pending. */
  lemma {:induction false} EnqueueAddsOnlyNewHrefs(host: Url -> HostPart, page: Url, hrefs: seq<Url>, queue: seq<Url>)
    ensures |Enqueue(host, page, hrefs, queue)| <= |queue| + |hrefs|
    ensures forall k :: |queue| <= k < |Enqueue(host, page, hrefs, queue)| ==> Enqueue(host, page, hrefs, queue)[k] !in queue
    decreases |hrefs|
  {
    if hrefs != [] {
      EnqueueAddsOnlyNewHrefs(host, page, hrefs[..|hrefs| - 1], queue);
    }
  }
}
