/**
 * `main` from the fetched index page on: the latest year, the target window
 * and the selection loop over the index links.
 */
module Crawler {
  import opened Years
  import opened YearWindow
  import opened Archives
  import opened ArchiveFacts

  /** The inner loop of `main`: one task per paper link of a fetched archive, appended in order. */
  method SubmitPapers(baseUrl: string, outputDir: string, paperLinks: seq<string>, queued: seq<PaperTask>)
    returns (tasks: seq<PaperTask>)
    ensures tasks == queued + PaperTasks(baseUrl, outputDir, paperLinks)
  {
    tasks := queued;
    for k := 0 to |paperLinks|
      invariant tasks == queued + PaperTasks(baseUrl, outputDir, paperLinks[..k])
    {
      assert paperLinks[..k + 1][..k] == paperLinks[..k];
      tasks := tasks + [PaperTask(baseUrl, baseUrl + paperLinks[k], outputDir)];
    }
    assert paperLinks[..|paperLinks|] == paperLinks;
  }

  /** `extractYearFromUrl(baseUrl + yearLink)` for the index link at position `i`. */
  method LinkYear(baseUrl: string, links: seq<string>, ghost years: seq<int>, i: nat) returns (year: int)
    requires YearsOf(baseUrl, links, years) && i < |links|
    ensures year == years[i]
  {
    year := ExtractYear(baseUrl + links[i]);
  }

  /**
   * The loop of `main` from `int count = 0;` to the end of the walk over the
   * index links; `years` are the years of the links, which the loop reads one
   * at a time.
   */
  method SelectArchives(baseUrl: string, outputDir: string, links: seq<string>, pages: seq<Page>, window: set<int>,
                        ghost years: seq<int>)
    returns (fetched: seq<nat>, tasks: seq<PaperTask>, count: nat)
    requires |pages| == |links| && YearsOf(baseUrl, links, years)
    ensures Progress(fetched, tasks, count) == WalkLinks(baseUrl, outputDir, years, pages, window, |links|)
  {
    fetched, tasks, count := [], [], 0;
    var i := 0;
    while i < |links|
      invariant 0 <= i <= |links|
      invariant Progress(fetched, tasks, count) == WalkLinks(baseUrl, outputDir, years, pages, window, i)
      invariant count < ArchiveQuota
    {
      var year := LinkYear(baseUrl, links, years, i);
      if year in window {
        fetched := fetched + [i];
        match pages[i] {
          case FetchFailed =>
          case Fetched(paperLinks) =>
            tasks := SubmitPapers(baseUrl, outputDir, paperLinks, tasks);
            count := count + 1;
            if count >= ArchiveQuota {
              WalkStopsAtQuota(baseUrl, outputDir, years, pages, window, i + 1, |links|);
              return;
            }
        }
      }
      i := i + 1;
    }
  }

  /**
   * `main` once the index page has been fetched (or has failed): the latest
   * year, the target window, then the selection loop. A failed index fetch
   * ends the run before anything is submitted.
   */
  method Crawl(index: Page, pages: seq<Page>)
    returns (window: set<int>, fetched: seq<nat>, tasks: seq<PaperTask>, count: nat)
    requires index.Fetched? ==> |pages| == |index.hrefs|
    ensures index.FetchFailed? ==> window == {} && fetched == [] && tasks == [] && count == 0
    ensures index.Fetched? ==>
              && (forall y :: y in window <==> LatestYear(index.hrefs, |index.hrefs|) - WindowSize < y <= LatestYear(index.hrefs, |index.hrefs|))
              && Selected(BaseUrl, OutputDir, LinkYears(BaseUrl, index.hrefs), pages, window, fetched, tasks, count)
  {
    match index
    case FetchFailed =>
      window, fetched, tasks, count := {}, [], [], 0;
    case Fetched(yearLinks) =>
      var latestYear := ExtractLatestYear(yearLinks);
      window := TargetYears(latestYear);
      LinkYearsAreYears(BaseUrl, yearLinks);
      fetched, tasks, count := SelectArchives(BaseUrl, OutputDir, yearLinks, pages, window, LinkYears(BaseUrl, yearLinks));
      WalkSelected(BaseUrl, OutputDir, LinkYears(BaseUrl, yearLinks), pages, window);
  }

  /**
   * For an index link that names an archive, the year the selection loop
   * reads is the one `extractLatestYear` read, so it is at most the latest
   * year; and when the latest year is positive some archive link has it, so
   * the window always holds the year of at least one link.
   */
  lemma LoopYearsAreIndexYears(hrefs: seq<string>, k: nat)
    requires k < |hrefs| && '/' in hrefs[k]
    ensures LinkYears(BaseUrl, hrefs)[k] == ExtractYear(hrefs[k]) <= LatestYear(hrefs, |hrefs|)
  {
    LinkYearsAt(BaseUrl, hrefs, k);
    ArchiveYearIsLinkYear(hrefs[k]);
  }

  /** When every index link names an archive, the latest year is 0 or the year the selection loop reads for one of the links. */
  lemma {:induction false} LatestYearIsALinkYear(hrefs: seq<string>)
    requires forall k :: 0 <= k < |hrefs| ==> '/' in hrefs[k]
    ensures LatestYear(hrefs, |hrefs|) == 0
            || exists k :: 0 <= k < |hrefs| && LinkYears(BaseUrl, hrefs)[k] == LatestYear(hrefs, |hrefs|)
  {
    LatestYearIsAttained(hrefs, |hrefs|);
    if LatestYear(hrefs, |hrefs|) != 0 {
      var k :| 0 <= k < |hrefs| && ExtractYear(hrefs[k]) == LatestYear(hrefs, |hrefs|);
      LoopYearsAreIndexYears(hrefs, k);
    }
  }
}
