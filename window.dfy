/**
 * The target window of the crawl: the latest year over the index links, and
 * the five values counting down from it.
 */
module YearWindow {
  import opened Years

  /**
   * `extractLatestYear` as a specification: the fold of the years of the
   * first `n` links to their maximum, starting from 0.
   */
  function LatestYear(hrefs: seq<string>, n: nat): (latest: int)
    requires n <= |hrefs|
    ensures latest >= 0
    ensures forall k :: 0 <= k < n ==> ExtractYear(hrefs[k]) <= latest
  {
    if n == 0 then 0
    else
      var earlier := LatestYear(hrefs, n - 1);
      var year := ExtractYear(hrefs[n - 1]);
      if year > earlier then year else earlier
  }

  /** The latest year is 0 or the year of one of the links. */
  lemma {:induction false} LatestYearIsAttained(hrefs: seq<string>, n: nat)
    requires n <= |hrefs|
    ensures LatestYear(hrefs, n) == 0 || exists k :: 0 <= k < n && ExtractYear(hrefs[k]) == LatestYear(hrefs, n)
  {
    if n > 0 {
      var earlier := LatestYear(hrefs, n - 1);
      if ExtractYear(hrefs[n - 1]) <= earlier && earlier != 0 {
        LatestYearIsAttained(hrefs, n - 1);
      }
    }
  }

  /** `extractLatestYear`: the loop that keeps the largest year seen so far. */
  method ExtractLatestYear(hrefs: seq<string>) returns (latest: int)
    ensures latest == LatestYear(hrefs, |hrefs|)
  {
    latest := 0;
    for i := 0 to |hrefs|
      invariant latest == LatestYear(hrefs, i)
    {
      var year := ExtractYear(hrefs[i]);
      if year > latest {
        latest := year;
      }
    }
  }

  /**
   * The target-year loop of `main`: exactly the five values `latest - i` for
   * `0 <= i < 5`, which go below zero when `latest < 4`.
   */
  method TargetYears(latest: int) returns (years: set<int>)
    ensures forall y :: y in years <==> latest - WindowSize < y <= latest
    ensures |years| == WindowSize
    ensures latest < WindowSize - 1 ==> exists y :: y in years && y < 0
  {
    years := {};
    for i := 0 to WindowSize
      invariant forall y :: y in years <==> latest - i < y <= latest
      invariant |years| == i
    {
      assert latest - i !in years;
      years := years + {latest - i};
    }
    assert latest - (WindowSize - 1) in years;
  }
}
