/**
 * What the selection loop, as the fold `WalkLinks`, achieves: the fetched
 * indices are links in document order, the counter and the tasks are those
 * of the successful fetches, and a link is fetched exactly when its year is
 * in the window and the quota had not been reached before it.
 */
module ArchiveFacts {
  import opened Archives

  /** Fetching one more archive adds its tasks, and one to the count if it succeeded. */
  lemma {:induction false} FetchAppended(baseUrl: string, outputDir: string, pages: seq<Page>, fetched: seq<nat>, i: nat)
    requires i < |pages|
    ensures Successes(pages, fetched + [i]) == Successes(pages, fetched) + if pages[i].Fetched? then 1 else 0
    ensures Submitted(baseUrl, outputDir, pages, fetched + [i]) ==
              Submitted(baseUrl, outputDir, pages, fetched) +
              match pages[i] case Fetched(hrefs) => PaperTasks(baseUrl, outputDir, hrefs) case FetchFailed => []
  {
    assert (fetched + [i])[..|fetched|] == fetched;
  }

  /** Once five archives were fetched successfully, the walk over the remaining links does nothing (the `break`). */
  lemma {:induction false} WalkStopsAtQuota(baseUrl: string, outputDir: string, years: seq<int>, pages: seq<Page>,
                                            window: set<int>, n: nat, m: nat)
    requires n <= m <= |years| == |pages|
    requires WalkLinks(baseUrl, outputDir, years, pages, window, n).count >= ArchiveQuota
    ensures WalkLinks(baseUrl, outputDir, years, pages, window, m) == WalkLinks(baseUrl, outputDir, years, pages, window, n)
  {
    if m > n {
      WalkStopsAtQuota(baseUrl, outputDir, years, pages, window, n, m - 1);
    }
  }

  /** The fetched indices are links among the first `n`. */
  lemma {:induction false} WalkFetchesBelow(baseUrl: string, outputDir: string, years: seq<int>, pages: seq<Page>,
                                            window: set<int>, n: nat)
    requires n <= |years| == |pages|
    ensures IndicesBelow(WalkLinks(baseUrl, outputDir, years, pages, window, n).fetched, n)
  {
    if n > 0 {
      WalkFetchesBelow(baseUrl, outputDir, years, pages, window, n - 1);
    }
  }

  /** The counter never passes the quota: a link is visited only while the count is below it. */
  lemma {:induction false} WalkWithinQuota(baseUrl: string, outputDir: string, years: seq<int>, pages: seq<Page>,
                                           window: set<int>, n: nat)
    requires n <= |years| == |pages|
    ensures WalkLinks(baseUrl, outputDir, years, pages, window, n).count <= ArchiveQuota
  {
    if n > 0 {
      WalkWithinQuota(baseUrl, outputDir, years, pages, window, n - 1);
    }
  }

  /** The fetched indices are links among the first `n`, strictly increasing. */
  lemma {:induction false} WalkInOrder(baseUrl: string, outputDir: string, years: seq<int>, pages: seq<Page>,
                                       window: set<int>, n: nat)
    requires n <= |years| == |pages|
    ensures var p := WalkLinks(baseUrl, outputDir, years, pages, window, n);
            && IndicesBelow(p.fetched, n)
            && forall j, k :: 0 <= j < k < |p.fetched| ==> p.fetched[j] < p.fetched[k]
  {
    if n > 0 {
      WalkInOrder(baseUrl, outputDir, years, pages, window, n - 1);
    }
  }

  /** The counter is the number of successful fetches. */
  lemma {:induction false} WalkCountsSuccesses(baseUrl: string, outputDir: string, years: seq<int>, pages: seq<Page>,
                                               window: set<int>, n: nat)
    requires n <= |years| == |pages|
    ensures var p := WalkLinks(baseUrl, outputDir, years, pages, window, n);
            p.count == Successes(pages, p.fetched)
  {
    if n > 0 {
      var prev := WalkLinks(baseUrl, outputDir, years, pages, window, n - 1);
      WalkCountsSuccesses(baseUrl, outputDir, years, pages, window, n - 1);
      FetchAppended(baseUrl, outputDir, pages, prev.fetched, n - 1);
    }
  }

  /** The tasks are those of the successful fetches, in order. */
  lemma {:induction false} WalkSubmits(baseUrl: string, outputDir: string, years: seq<int>, pages: seq<Page>,
                                       window: set<int>, n: nat)
    requires n <= |years| == |pages|
    ensures var p := WalkLinks(baseUrl, outputDir, years, pages, window, n);
            p.tasks == Submitted(baseUrl, outputDir, pages, p.fetched)
  {
    if n > 0 {
      var prev := WalkLinks(baseUrl, outputDir, years, pages, window, n - 1);
      WalkSubmits(baseUrl, outputDir, years, pages, window, n - 1);
      FetchAppended(baseUrl, outputDir, pages, prev.fetched, n - 1);
    }
  }

  /** When the counter is at the quota, the last fetch was a success: the one that reached it. */
  lemma {:induction false} WalkEndsOnSuccess(baseUrl: string, outputDir: string, years: seq<int>, pages: seq<Page>,
                                             window: set<int>, n: nat)
    requires n <= |years| == |pages|
    ensures var p := WalkLinks(baseUrl, outputDir, years, pages, window, n);
            && IndicesBelow(p.fetched, |pages|)
            && (p.count == ArchiveQuota ==> |p.fetched| > 0 && pages[p.fetched[|p.fetched| - 1]].Fetched?)
  {
    WalkFetchesBelow(baseUrl, outputDir, years, pages, window, n);
    if n > 0 {
      WalkEndsOnSuccess(baseUrl, outputDir, years, pages, window, n - 1);
    }
  }

  /**
   * The counter is the number of successful fetches, at most five, the last
   * fetch succeeded if it is five, and the tasks are those of the successful
   * fetches in order.
   */
  lemma WalkCounts(baseUrl: string, outputDir: string, years: seq<int>, pages: seq<Page>,
                   window: set<int>, n: nat)
    requires n <= |years| == |pages|
    ensures var p := WalkLinks(baseUrl, outputDir, years, pages, window, n);
            && IndicesBelow(p.fetched, |pages|)
            && p.count == Successes(pages, p.fetched) && p.count <= ArchiveQuota
            && p.tasks == Submitted(baseUrl, outputDir, pages, p.fetched)
            && (p.count == ArchiveQuota ==> |p.fetched| > 0 && pages[p.fetched[|p.fetched| - 1]].Fetched?)
  {
    WalkFetchesBelow(baseUrl, outputDir, years, pages, window, n);
    WalkCountsSuccesses(baseUrl, outputDir, years, pages, window, n);
    WalkWithinQuota(baseUrl, outputDir, years, pages, window, n);
    WalkSubmits(baseUrl, outputDir, years, pages, window, n);
    WalkEndsOnSuccess(baseUrl, outputDir, years, pages, window, n);
  }

  /**
   * Among the first `n` links, those fetched in `p` are exactly those whose
   * year is in the window and that do not come after the fetch that reached
   * the quota.
   */
  ghost predicate FetchedExactly(years: seq<int>, window: set<int>, p: Progress, n: nat)
    requires n <= |years|
  {
    forall i :: 0 <= i < n ==>
      (i in p.fetched <==> years[i] in window
                           && (p.count < ArchiveQuota || (|p.fetched| > 0 && i <= p.fetched[|p.fetched| - 1])))
  }

  /** One pass of the loop body keeps `FetchedExactly`, one link further. */
  lemma {:induction false} VisitKeepsFetchedExactly(baseUrl: string, outputDir: string, years: seq<int>, pages: seq<Page>,
                                 window: set<int>, p: Progress, n: nat)
    requires n < |years| == |pages|
    requires IndicesBelow(p.fetched, n) && p.count <= ArchiveQuota
    requires FetchedExactly(years, window, p, n)
    ensures FetchedExactly(years, window, VisitLink(baseUrl, outputDir, pages, window, p, n, years[n]), n + 1)
  {
    var q := VisitLink(baseUrl, outputDir, pages, window, p, n, years[n]);
    if p.count < ArchiveQuota && years[n] in window {
      assert q.fetched == p.fetched + [n] && q.count <= ArchiveQuota;
      forall i | 0 <= i < n + 1
        ensures i in q.fetched <==> years[i] in window
                                    && (q.count < ArchiveQuota || (|q.fetched| > 0 && i <= q.fetched[|q.fetched| - 1]))
      {
        if i < n {
          assert i in q.fetched <==> i in p.fetched;
        }
      }
    } else {
      assert n !in p.fetched;
    }
  }

  /** A link among the first `n` is fetched exactly when its year is in the window and the quota was not reached before it. */
  lemma {:induction false} WalkMembership(baseUrl: string, outputDir: string, years: seq<int>, pages: seq<Page>,
                                          window: set<int>, n: nat)
    requires n <= |years| == |pages|
    ensures FetchedExactly(years, window, WalkLinks(baseUrl, outputDir, years, pages, window, n), n)
  {
    if n > 0 {
      WalkMembership(baseUrl, outputDir, years, pages, window, n - 1);
      WalkFetchesBelow(baseUrl, outputDir, years, pages, window, n - 1);
      WalkWithinQuota(baseUrl, outputDir, years, pages, window, n - 1);
      VisitKeepsFetchedExactly(baseUrl, outputDir, years, pages, window,
                               WalkLinks(baseUrl, outputDir, years, pages, window, n - 1), n - 1);
    }
  }

  /** The whole walk gives what `Selected` describes. */
  lemma WalkSelected(baseUrl: string, outputDir: string, years: seq<int>, pages: seq<Page>, window: set<int>)
    requires |years| == |pages|
    ensures var p := WalkLinks(baseUrl, outputDir, years, pages, window, |years|);
            Selected(baseUrl, outputDir, years, pages, window, p.fetched, p.tasks, p.count)
  {
    WalkInOrder(baseUrl, outputDir, years, pages, window, |years|);
    WalkCounts(baseUrl, outputDir, years, pages, window, |years|);
    WalkMembership(baseUrl, outputDir, years, pages, window, |years|);
  }
}
