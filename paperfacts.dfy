/**
 * What `processPaper` promises, stated over the trace and the disk that
 * `Papers` specifies: at most five numbered attempts, a single "giving up"
 * exactly when all five fail, a failed download retried like a failed page
 * fetch, and saved PDFs named after the sanitised title.
 */
module PaperFacts {
  import opened Filenames
  import opened Download
  import opened Papers

  /** Attempt `k` is announced in the trace of the first `n` attempts exactly when `1 <= k <= n`. */
  lemma {:induction false} AnnouncedAttempts(baseUrl: string, paperUrl: string, outputDir: string,
                                             outcomes: seq<Attempt>, n: nat, k: nat)
    requires n <= |outcomes|
    ensures Processing(paperUrl, k) in LogOf(baseUrl, paperUrl, outputDir, outcomes, n) <==> 1 <= k <= n
  {
    if n > 0 {
      AnnouncedAttempts(baseUrl, paperUrl, outputDir, outcomes, n - 1, k);
      var events := AttemptEvents(baseUrl, paperUrl, outputDir, outcomes[n - 1], n);
      assert Processing(paperUrl, k) in events <==> k == n;
    }
  }

  /** `processPaper` announces attempts 1, 2, ... up to the number it makes, and that number is at most five. */
  lemma AtMostFiveAttempts(baseUrl: string, paperUrl: string, outputDir: string, outcomes: seq<Attempt>, k: nat)
    requires |outcomes| == MaxRetries
    ensures Made(outcomes) <= MaxRetries
    ensures Processing(paperUrl, k) in LogOf(baseUrl, paperUrl, outputDir, outcomes, Made(outcomes))
            <==> 1 <= k <= Made(outcomes)
  {
    AnnouncedAttempts(baseUrl, paperUrl, outputDir, outcomes, Made(outcomes), k);
  }

  /** One attempt prints "giving up" once if it is a failing fifth attempt (or later), and not otherwise. */
  lemma GiveUpsOfAttempt(baseUrl: string, paperUrl: string, outputDir: string, a: Attempt, n: nat)
    ensures multiset(AttemptEvents(baseUrl, paperUrl, outputDir, a, n))[GivingUp(paperUrl)]
            == if n >= MaxRetries && Fails(a) then 1 else 0
  {
  }

  /** Before the fifth attempt nothing prints "giving up". */
  lemma {:induction false} NoGiveUpBeforeFifth(baseUrl: string, paperUrl: string, outputDir: string,
                                               outcomes: seq<Attempt>, n: nat)
    requires n <= |outcomes| && n < MaxRetries
    ensures GivingUp(paperUrl) !in multiset(LogOf(baseUrl, paperUrl, outputDir, outcomes, n))
  {
    if n > 0 {
      NoGiveUpBeforeFifth(baseUrl, paperUrl, outputDir, outcomes, n - 1);
      GiveUpsOfAttempt(baseUrl, paperUrl, outputDir, outcomes[n - 1], n);
    }
  }

  /** "Giving up" is printed exactly once when all five attempts fail, and never otherwise. */
  lemma GivesUpOnceIffAllFail(baseUrl: string, paperUrl: string, outputDir: string, outcomes: seq<Attempt>)
    requires |outcomes| == MaxRetries
    ensures multiset(LogOf(baseUrl, paperUrl, outputDir, outcomes, Made(outcomes)))[GivingUp(paperUrl)]
            == if LeadingFailures(outcomes) == MaxRetries then 1 else 0
  {
    var made := Made(outcomes);
    if made < MaxRetries {
      NoGiveUpBeforeFifth(baseUrl, paperUrl, outputDir, outcomes, made);
    } else {
      NoGiveUpBeforeFifth(baseUrl, paperUrl, outputDir, outcomes, MaxRetries - 1);
      GiveUpsOfAttempt(baseUrl, paperUrl, outputDir, outcomes[MaxRetries - 1], MaxRetries);
      FifthDecides(outcomes);
      var log := LogOf(baseUrl, paperUrl, outputDir, outcomes, MaxRetries);
      var events := AttemptEvents(baseUrl, paperUrl, outputDir, outcomes[MaxRetries - 1], MaxRetries);
      assert log == LogOf(baseUrl, paperUrl, outputDir, outcomes, MaxRetries - 1) + events;
      assert multiset(log)[GivingUp(paperUrl)] == multiset(events)[GivingUp(paperUrl)];
    }
  }

  /** When a fifth attempt is made, whether it fails decides whether all five failed. */
  lemma FifthDecides(outcomes: seq<Attempt>)
    requires |outcomes| == MaxRetries && LeadingFailures(outcomes) >= MaxRetries - 1
    ensures LeadingFailures(outcomes) == MaxRetries <==> Fails(outcomes[MaxRetries - 1])
  {
    var n := LeadingFailures(outcomes);
    if n == MaxRetries - 1 {
      assert !Fails(outcomes[n]);
    } else {
      assert MaxRetries - 1 < n;
    }
  }

  /** If every attempt fails, all five are made and the loop ends without success. */
  lemma AllFailuresExhaustRetries(outcomes: seq<Attempt>)
    requires |outcomes| == MaxRetries
    requires forall k :: 0 <= k < MaxRetries ==> Fails(outcomes[k])
    ensures LeadingFailures(outcomes) == MaxRetries && Made(outcomes) == MaxRetries
  {
    assert Fails(outcomes[0]) && Fails(outcomes[1]) && Fails(outcomes[2]) && Fails(outcomes[3]) && Fails(outcomes[4]);
    assert outcomes[1..][1..][1..][1..][1..] == [];
  }

  /**
   * A first attempt that finds no PDF anchor ends the loop at once: one
   * attempt, "no PDF link" printed, nothing written.
   */
  lemma NoAnchorEndsAtOnce(baseUrl: string, paperUrl: string, outputDir: string, outcomes: seq<Attempt>, disk: Disk)
    requires |outcomes| == MaxRetries && outcomes[0].PageLoaded? && outcomes[0].pdfHref.None?
    ensures LeadingFailures(outcomes) == 0 && Made(outcomes) == 1
    ensures LogOf(baseUrl, paperUrl, outputDir, outcomes, Made(outcomes)) == [Processing(paperUrl, 1), NoPdfLink(paperUrl)]
    ensures DiskOf(baseUrl, outputDir, outcomes, Made(outcomes), disk) == disk
  {
  }

  /** Replacing a failing attempt by a failed page fetch changes neither the failures nor the trace. */
  lemma {:induction false} FailuresAlike(baseUrl: string, paperUrl: string, outputDir: string,
                                         outcomes: seq<Attempt>, k: nat, n: nat)
    requires k < |outcomes| && Fails(outcomes[k]) && n <= |outcomes|
    ensures LogOf(baseUrl, paperUrl, outputDir, outcomes[k := PageFailed], n) == LogOf(baseUrl, paperUrl, outputDir, outcomes, n)
  {
    if n > 0 {
      FailuresAlike(baseUrl, paperUrl, outputDir, outcomes, k, n - 1);
      if n - 1 == k {
        FailingAttemptsAlike(baseUrl, paperUrl, outputDir, PageFailed, outcomes[k], n);
      } else {
        assert outcomes[k := PageFailed][n - 1] == outcomes[n - 1];
      }
    }
  }

  /** Two failing attempts with the same number print the same messages. */
  lemma FailingAttemptsAlike(baseUrl: string, paperUrl: string, outputDir: string, a: Attempt, b: Attempt, n: nat)
    requires Fails(a) && Fails(b)
    ensures AttemptEvents(baseUrl, paperUrl, outputDir, a, n) == AttemptEvents(baseUrl, paperUrl, outputDir, b, n)
  {
  }

  /** The number of leading failures is the same after replacing a failing attempt by a failed page fetch. */
  lemma {:induction false} LeadingFailuresAlike(outcomes: seq<Attempt>, k: nat)
    requires k < |outcomes| && Fails(outcomes[k])
    ensures LeadingFailures(outcomes[k := PageFailed]) == LeadingFailures(outcomes)
  {
    if Fails(outcomes[0]) && k > 0 {
      assert outcomes[k := PageFailed][1..] == outcomes[1..][k - 1 := PageFailed];
      LeadingFailuresAlike(outcomes[1..], k - 1);
    }
  }

  /**
   * A download that throws is retried exactly like a failed page fetch: the
   * same attempts are made and the same messages printed.
   */
  lemma DownloadFailureRetried(baseUrl: string, paperUrl: string, outputDir: string, outcomes: seq<Attempt>, k: nat)
    requires |outcomes| == MaxRetries && k < MaxRetries
    requires outcomes[k].PageLoaded? && outcomes[k].pdfHref.Some? && Throws(outcomes[k].pdfCall)
    ensures Fails(outcomes[k])
    ensures Made(outcomes[k := PageFailed]) == Made(outcomes)
    ensures LogOf(baseUrl, paperUrl, outputDir, outcomes[k := PageFailed], Made(outcomes))
         == LogOf(baseUrl, paperUrl, outputDir, outcomes, Made(outcomes))
  {
    LeadingFailuresAlike(outcomes, k);
    FailuresAlike(baseUrl, paperUrl, outputDir, outcomes, k, Made(outcomes));
  }

  /**
   * An attempt that saves a PDF writes it to `outputDir + name + ".pdf"`,
   * where `name` is the title with every unsafe character replaced, and the
   * file holds the body's bytes.
   */
  lemma SavedUnderSafeName(baseUrl: string, outputDir: string, a: Attempt, disk: Disk)
    requires a.PageLoaded? && a.pdfHref.Some? && !Fails(a)
    ensures var name := SanitizeFilename(a.title);
            var path := PdfPath(outputDir, name);
            && (forall i :: 0 <= i < |name| ==> !IsUnsafe(name[i]))
            && path in AttemptDisk(baseUrl, outputDir, a, disk).files
            && AttemptDisk(baseUrl, outputDir, a, disk).files[path] == Concat(a.pdfCall.response.body.value.chunks)
  {
    SanitizedIsSafe(a.title);
  }
}
