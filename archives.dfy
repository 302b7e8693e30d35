/**
 * The archive-selection loop of `main`: the index links are walked in
 * document order, only links whose year is in the target window are fetched,
 * each fetched archive submits one paper task per paper link, and the loop
 * stops after the fifth archive that was fetched successfully.
 */
module Archives {
  import opened JavaText
  import opened Years
  import opened YearFacts

  const BaseUrl: string := "https://papers.nips.cc"
  const OutputDir: string := "B:/scraped-pdfs/"

  /** Successfully processed archives after which the loop stops. */
  const ArchiveQuota: nat := 5

  /** What fetching a page gives: an IOException, or the links the selector picks from it. */
  datatype Page = FetchFailed | Fetched(hrefs: seq<string>)

  /** The work submitted to the thread pool for one paper: `processPaper(baseUrl, paperUrl, outputDir)`. */
  datatype PaperTask = PaperTask(baseUrl: string, paperUrl: string, outputDir: string)

  /** The tasks one archive submits: one per paper link, in order, for the URL `baseUrl + href`. */
  function PaperTasks(baseUrl: string, outputDir: string, hrefs: seq<string>): (tasks: seq<PaperTask>)
    ensures |tasks| == |hrefs|
  {
    if hrefs == [] then []
    else PaperTasks(baseUrl, outputDir, hrefs[..|hrefs| - 1]) + [PaperTask(baseUrl, baseUrl + hrefs[|hrefs| - 1], outputDir)]
  }

  /** Task `k` of an archive is `processPaper(baseUrl, baseUrl + href, outputDir)` for its paper link `k`. */
  lemma {:induction false} PaperTaskAt(baseUrl: string, outputDir: string, hrefs: seq<string>, k: nat)
    requires k < |hrefs|
    ensures PaperTasks(baseUrl, outputDir, hrefs)[k] == PaperTask(baseUrl, baseUrl + hrefs[k], outputDir)
  {
    if k < |hrefs| - 1 {
      PaperTaskAt(baseUrl, outputDir, hrefs[..|hrefs| - 1], k);
    }
  }

  predicate IndicesBelow(fetched: seq<nat>, n: nat) {
    forall k :: 0 <= k < |fetched| ==> fetched[k] < n
  }

  /** Whether the archive at index `i` was fetched successfully (an index past the links never is). */
  predicate Succeeded(pages: seq<Page>, i: nat) {
    i < |pages| && pages[i].Fetched?
  }

  /** The tasks submitted by the archives at the indices `fetched`, in that order; a failed fetch submits none. */
  function Submitted(baseUrl: string, outputDir: string, pages: seq<Page>, fetched: seq<nat>): seq<PaperTask> {
    if fetched == [] then []
    else
      var i := fetched[|fetched| - 1];
      Submitted(baseUrl, outputDir, pages, fetched[..|fetched| - 1]) +
      if Succeeded(pages, i) then PaperTasks(baseUrl, outputDir, pages[i].hrefs) else []
  }

  /** How many of the archives at the indices `fetched` were fetched successfully (the value of `count`). */
  function Successes(pages: seq<Page>, fetched: seq<nat>): nat {
    if fetched == [] then 0
    else Successes(pages, fetched[..|fetched| - 1]) + if Succeeded(pages, fetched[|fetched| - 1]) then 1 else 0
  }

  /**
   * The outcome of the selection loop over index links whose years are
   * `years` and whose archive fetches give `pages`: `fetched` lists the
   * indices of the archives fetched, `tasks` the submitted tasks and `count`
   * the final counter.
   * - every fetched index is a link, and they come in document order;
   * - `count` is the number of successful fetches among them, at most 5;
   * - the tasks are those of the successful fetches, in order;
   * - once `count` reaches 5 the last fetch was a success (the loop breaks
   *   right after it);
   * - a link is fetched exactly when its year is in the window and, if the
   *   quota was reached, it does not come after the fetch that reached it.
   */
  ghost predicate Selected(baseUrl: string, outputDir: string, years: seq<int>, pages: seq<Page>,
                           window: set<int>, fetched: seq<nat>, tasks: seq<PaperTask>, count: nat)
  {
    && |pages| == |years|
    && IndicesBelow(fetched, |years|)
    && (forall j, k :: 0 <= j < k < |fetched| ==> fetched[j] < fetched[k])
    && count == Successes(pages, fetched) && count <= ArchiveQuota
    && tasks == Submitted(baseUrl, outputDir, pages, fetched)
    && (count == ArchiveQuota ==> |fetched| > 0 && pages[fetched[|fetched| - 1]].Fetched?)
    && (forall i :: 0 <= i < |years| ==>
          (i in fetched <==> years[i] in window && (count < ArchiveQuota || i <= fetched[|fetched| - 1])))
  }

  /** What the selection loop has done so far: the indices fetched, the tasks submitted, the counter. */
  datatype Progress = Progress(fetched: seq<nat>, tasks: seq<PaperTask>, count: nat)

  /** `years` holds the year `extractYearFromUrl` reads from each index link, once the base URL is prefixed. */
  ghost predicate YearsOf(baseUrl: string, links: seq<string>, years: seq<int>) {
    && |years| == |links|
    && forall k {:trigger ExtractYear(baseUrl + links[k])} :: 0 <= k < |links| ==> years[k] == ExtractYear(baseUrl + links[k])
  }

  /** The years of the index links, in order. */
  function LinkYears(baseUrl: string, links: seq<string>): (years: seq<int>)
    ensures |years| == |links|
  {
    if links == [] then []
    else LinkYears(baseUrl, links[..|links| - 1]) + [ExtractYear(baseUrl + links[|links| - 1])]
  }

  /** The year of the link at position `k` is the one `extractYearFromUrl` reads from it. */
  lemma {:induction false} LinkYearsAt(baseUrl: string, links: seq<string>, k: nat)
    requires k < |links|
    ensures LinkYears(baseUrl, links)[k] == ExtractYear(baseUrl + links[k])
  {
    if k < |links| - 1 {
      LinkYearsAt(baseUrl, links[..|links| - 1], k);
    }
  }

  /** `LinkYears` gives the years of the links. */
  lemma LinkYearsAreYears(baseUrl: string, links: seq<string>)
    ensures YearsOf(baseUrl, links, LinkYears(baseUrl, links))
  {
    forall k | 0 <= k < |links| ensures LinkYears(baseUrl, links)[k] == ExtractYear(baseUrl + links[k]) {
      LinkYearsAt(baseUrl, links, k);
    }
  }

  /**
   * One pass of the loop body for index link `i`, whose year is `year`:
   * nothing once the quota is reached (the loop has broken out), nothing for
   * a link outside the window; otherwise the archive is fetched, and a
   * successful fetch submits its papers and is counted.
   */
  function VisitLink(baseUrl: string, outputDir: string, pages: seq<Page>, window: set<int>,
                     p: Progress, i: nat, year: int): (q: Progress)
    requires i < |pages|
    ensures q == p || q.fetched == p.fetched + [i]
  {
    if p.count >= ArchiveQuota || year !in window then p
    else
      match pages[i]
      case FetchFailed => Progress(p.fetched + [i], p.tasks, p.count)
      case Fetched(hrefs) => Progress(p.fetched + [i], p.tasks + PaperTasks(baseUrl, outputDir, hrefs), p.count + 1)
  }

  /** The loop over the first `n` index links, whose years are `years`, as a left fold of `VisitLink`. */
  function WalkLinks(baseUrl: string, outputDir: string, years: seq<int>, pages: seq<Page>,
                     window: set<int>, n: nat): (p: Progress)
    requires n <= |years| == |pages|
    ensures |p.fetched| <= n && p.count <= n
  {
    if n == 0 then Progress([], [], 0)
    else
      VisitLink(baseUrl, outputDir, pages, window,
                WalkLinks(baseUrl, outputDir, years, pages, window, n - 1), n - 1, years[n - 1])
  }

  /**
   * The base URL holds no line terminator, so an index link that names an
   * archive (it starts with "/paper_files/paper/") has the same year whether
   * it is read on its own, as `extractLatestYear` does, or after the base
   * URL, as the selection loop does.
   */
  lemma ArchiveYearIsLinkYear(href: string)
    requires '/' in href
    ensures ExtractYear(BaseUrl + href) == ExtractYear(href)
  {
    assert NoLineTerminator(BaseUrl);
    ExtractYearIgnoresPrefix(BaseUrl, href);
  }
}
