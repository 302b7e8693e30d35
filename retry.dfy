/**
 * The loop of `processPaper` and its `try` block, proved against the trace
 * and the disk that `Papers` specifies.
 */
module Retry {
  import opened Filenames
  import opened Download
  import opened Papers

  /**
   * The `try` block of `processPaper` for attempt number `n`: it throws
   * exactly when the attempt fails, having printed only the "Processing"
   * line; otherwise it has printed the attempt's events. Either way the disk
   * is as the attempt leaves it.
   */
  method TryAttempt(baseUrl: string, paperUrl: string, outputDir: string, a: Attempt, n: nat, log: seq<Event>, disk: Disk)
    returns (failed: bool, log': seq<Event>, disk': Disk)
    ensures failed <==> Fails(a)
    ensures failed ==> log' == log + [Processing(paperUrl, n)]
    ensures !failed ==> log' == log + AttemptEvents(baseUrl, paperUrl, outputDir, a, n)
    ensures disk' == AttemptDisk(baseUrl, outputDir, a, disk)
  {
    failed, log', disk' := false, log + [Processing(paperUrl, n)], disk;
    match a {
      case PageFailed =>
        failed := true;
      case PageLoaded(title, pdfHref, pdfCall) =>
        var paperTitle := SanitizeFilename(title);
        match pdfHref {
          case Some(href) =>
            var pdfUrl := baseUrl + href;
            var outcome;
            outcome, disk' := DownloadPdf(pdfUrl, outputDir, paperTitle, pdfCall, disk);
            if outcome.Saved? {
              log' := log' + [SavedPdf(outcome.path)];
            } else {
              failed := true;
            }
          case None =>
            log' := log' + [NoPdfLink(paperUrl)];
        }
    }
  }

  /**
   * `processPaper(baseUrl, paperUrl, outputDir)`, where `outcomes[k]` is what
   * attempt `k + 1` would meet. The attempts counter ends at the number of
   * leading failures, at most five, and the loop succeeds exactly when that
   * is below five; the attempts made are those up to the first success.
   */
  method ProcessPaper(baseUrl: string, paperUrl: string, outputDir: string, outcomes: seq<Attempt>, disk: Disk)
    returns (attempts: nat, success: bool, log: seq<Event>, disk': Disk)
    requires |outcomes| == MaxRetries
    ensures attempts == LeadingFailures(outcomes) <= MaxRetries
    ensures success <==> attempts < MaxRetries
    ensures log == LogOf(baseUrl, paperUrl, outputDir, outcomes, Made(outcomes))
    ensures disk' == DiskOf(baseUrl, outputDir, outcomes, Made(outcomes), disk)
  {
    attempts, success, log, disk' := 0, false, [], disk;
    while attempts < MaxRetries && !success
      invariant attempts <= LeadingFailures(outcomes)
      invariant success ==> attempts < MaxRetries && !Fails(outcomes[attempts])
      invariant !success ==> log == LogOf(baseUrl, paperUrl, outputDir, outcomes, attempts)
      invariant success ==> log == LogOf(baseUrl, paperUrl, outputDir, outcomes, attempts + 1)
      invariant !success ==> disk' == DiskOf(baseUrl, outputDir, outcomes, attempts, disk)
      invariant success ==> disk' == DiskOf(baseUrl, outputDir, outcomes, attempts + 1, disk)
      decreases MaxRetries - attempts, if success then 0 else 1
    {
      ghost var events := AttemptEvents(baseUrl, paperUrl, outputDir, outcomes[attempts], attempts + 1);
      ghost var log0 := log;
      var failed;
      failed, log, disk' := TryAttempt(baseUrl, paperUrl, outputDir, outcomes[attempts], attempts + 1, log, disk');
      if failed {
        FailureCounted(outcomes, attempts);
        assert events == [Processing(paperUrl, attempts + 1), AttemptFailed(paperUrl, attempts + 1)]
                         + (if attempts + 1 >= MaxRetries then [GivingUp(paperUrl)] else []);
        log := log + [AttemptFailed(paperUrl, attempts + 1)];
        attempts := attempts + 1;
        if attempts >= MaxRetries {
          log := log + [GivingUp(paperUrl)];
        }
        assert log == log0 + events;
      } else {
        SuccessEndsFailures(outcomes, attempts);
        success := true;
      }
    }
  }

}
