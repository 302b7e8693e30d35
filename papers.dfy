/**
 * `processPaper`: up to five attempts at one paper. An attempt fetches the
 * paper page, reads its title and looks for the PDF anchor; with an anchor it
 * downloads the PDF. Any IOException (the page fetch, or the download) counts
 * as a failed attempt; a page without an anchor, or a completed download, ends
 * the loop successfully.
 *
 * Each attempt's outcome is an input. The console output becomes a trace of
 * events.
 */
module Papers {
  import opened Wrappers
  import opened Filenames
  import opened Download

  /** `MAX_RETRIES`. */
  const MaxRetries: nat := 5

  /**
   * What one attempt meets: the paper page fetch throws, or it gives the
   * page's title, the `href` of the first PDF anchor if there is one, and what
   * the PDF download call would give.
   */
  datatype Attempt = PageFailed | PageLoaded(title: string, pdfHref: Option<string>, pdfCall: PdfCall)

  /** The messages `processPaper` prints; `n` is the 1-based attempt number. */
  datatype Event =
    | Processing(paperUrl: string, n: nat)   // "Processing paper: ... (Attempt n)"
    | NoPdfLink(paperUrl: string)            // "No PDF link found on: ..."
    | SavedPdf(path: string)                 // "Saved PDF: ..."
    | AttemptFailed(paperUrl: string, n: nat) // "Failed to process paper: ... (Attempt n)"
    | GivingUp(paperUrl: string)             // "Giving up on paper: ..."

  /** Whether an attempt ends in an IOException caught by `processPaper`. */
  predicate Fails(a: Attempt) {
    a.PageFailed? || (a.pdfHref.Some? && Throws(a.pdfCall))
  }

  /** The number of failing attempts before the first that does not fail. */
  function LeadingFailures(attempts: seq<Attempt>): (n: nat)
    ensures n <= |attempts|
    ensures forall k :: 0 <= k < n ==> Fails(attempts[k])
    ensures n < |attempts| ==> !Fails(attempts[n])
  {
    if attempts == [] || !Fails(attempts[0]) then 0 else 1 + LeadingFailures(attempts[1..])
  }

  /** How many attempts `processPaper` makes: up to and including the first success, and never more than five. */
  function Made(attempts: seq<Attempt>): (n: nat)
    requires |attempts| == MaxRetries
    ensures 1 <= n <= MaxRetries
  {
    var failures := LeadingFailures(attempts);
    if failures < MaxRetries then failures + 1 else MaxRetries
  }

  /** The events of attempt number `n` (1-based). */
  function AttemptEvents(baseUrl: string, paperUrl: string, outputDir: string, a: Attempt, n: nat): seq<Event> {
    var start := [Processing(paperUrl, n)];
    if Fails(a) then
      start + [AttemptFailed(paperUrl, n)] + (if n >= MaxRetries then [GivingUp(paperUrl)] else [])
    else if a.pdfHref.None? then
      start + [NoPdfLink(paperUrl)]
    else
      start + [SavedPdf(PdfPath(outputDir, SanitizeFilename(a.title)))]
  }

  /** The disk after an attempt: only a download writes. */
  function AttemptDisk(baseUrl: string, outputDir: string, a: Attempt, disk: Disk): Disk {
    match a
    case PageFailed => disk
    case PageLoaded(title, pdfHref, pdfCall) =>
      match pdfHref
      case None => disk
      case Some(href) => Downloaded(baseUrl + href, outputDir, SanitizeFilename(title), pdfCall, disk).disk
  }

  /** The trace of the first `n` attempts, made one after another. */
  function LogOf(baseUrl: string, paperUrl: string, outputDir: string, outcomes: seq<Attempt>, n: nat): seq<Event>
    requires n <= |outcomes|
  {
    if n == 0 then []
    else LogOf(baseUrl, paperUrl, outputDir, outcomes, n - 1) + AttemptEvents(baseUrl, paperUrl, outputDir, outcomes[n - 1], n)
  }

  /** The disk after the first `n` attempts, made one after another. */
  function DiskOf(baseUrl: string, outputDir: string, outcomes: seq<Attempt>, n: nat, disk: Disk): Disk
    requires n <= |outcomes|
  {
    if n == 0 then disk
    else AttemptDisk(baseUrl, outputDir, outcomes[n - 1], DiskOf(baseUrl, outputDir, outcomes, n - 1, disk))
  }

  /** A failing attempt right after `n` leading failures is one more leading failure. */
  lemma FailureCounted(outcomes: seq<Attempt>, n: nat)
    requires n <= LeadingFailures(outcomes) && n < |outcomes| && Fails(outcomes[n])
    ensures n + 1 <= LeadingFailures(outcomes)
  {
  }

  /** An attempt that does not fail, right after `n` leading failures, ends them at `n`. */
  lemma SuccessEndsFailures(outcomes: seq<Attempt>, n: nat)
    requires n <= LeadingFailures(outcomes) && n < |outcomes| && !Fails(outcomes[n])
    ensures LeadingFailures(outcomes) == n
  {
  }

}
