# PDFScraper in Dafny

A model of the scraper `PDFScraper` (file `sascrapper/src/main/java/sascrapper/PDFScraper.java`). The scraper reads the
NeurIPS index page at `https://papers.nips.cc`. From it, it:

- reads the year of every archive link;
- takes the latest year;
- builds a window of the five years ending there;
- walks the index links in document order and fetches every archive whose year is in the window;
- submits one `processPaper` task per paper link of each archive it fetched;
- stops after five archives were fetched successfully.

`processPaper` tries up to five times to fetch a paper page. It sanitises the title and downloads the PDF through an
8192-byte buffer to `outputDir + title + ".pdf"`.

Modules, in dependency order:

- `Wrappers`: `Option`.
- `Filenames`: `sanitizeFilename`. It replaces the nine characters `\ / : * ? " < > |` by `_`.
- `JavaText`: the parts of Java text handling that `extractYearFromUrl` relies on.
  - The line terminators of `java.util.regex`: `.` matches none of them, and `$` may match before a final one.
  - Scans for the last `/`, for the last terminator, and for a run of digits.
  - `Integer.parseInt` in radix 10: an optional sign, ASCII digits, the range of `int`.
- `Years` and `YearFacts`: `extractYearFromUrl`.
  - The `replaceAll(".*/(\\d+)$", "$1")` call is modelled by its leftmost match. That match starts at the beginning of
    the line holding the last `/`.
  - The lemmas characterise the result: the number after the last `/`, or 0.
  - They also prove that prefixing the base URL never changes the year of an index link (which always contains '/').
- `YearWindow`: `extractLatestYear`, as a loop proved against a fold, and the target-window loop.
- `Archives`, `ArchiveFacts` and `Crawler`: the archive-selection loop of `main`.
  - Specified as a fold, `WalkLinks`, of one loop pass, `VisitLink`.
  - Characterised by `Selected`:
    - which links are fetched;
    - in which order;
    - the counter;
    - the submitted tasks;
    - the stop after the fifth successful archive.
- `Download`: `downloadPDF`.
  - The gate `isSuccessful && body != null`.
  - The copy loop, with an `array<byte>` buffer of 8192 bytes.
  - The filesystem is a `Disk` value (directories and file contents) that the method threads through.
- `Papers`, `Retry` and `PaperFacts`: the retry loop of `processPaper`.
  - Proved against a trace of the console messages and the disk after the attempts it makes.

Network fetches are inputs:

- a `Page` for the index page and for each archive;
- an `Attempt` per retry of a paper;
- a `PdfCall` for the PDF request.

Each is what the fetch would give: an IOException, or the links, title and anchor the selectors pick, or the response.
HTML parsing and selectors are therefore not modelled; their results are these inputs.

## Model

| member | source | states |
|---|---|---|
| Filenames.SanitizeFilename | sascrapper/src/main/java/sascrapper/PDFScraper.java:131-133 | same length; each of the nine unsafe characters becomes `_`, every other character is kept at its position |
| Filenames.SanitizedIsSafe | sascrapper/src/main/java/sascrapper/PDFScraper.java:131-133 | a sanitised name contains no unsafe character |
| Filenames.SanitizeFixesSafeTitles | sascrapper/src/main/java/sascrapper/PDFScraper.java:131-133 | a title is left unchanged if and only if it contains no unsafe character |
| Filenames.SanitizeIdempotent | sascrapper/src/main/java/sascrapper/PDFScraper.java:131-133 | sanitising twice equals sanitising once |
| Filenames.SanitizeExample | sascrapper/src/main/java/sascrapper/PDFScraper.java:132 | "A:B/C*D?" becomes "A_B_C_D_" |
| JavaText.LastTerminatorBefore | sascrapper/src/main/java/sascrapper/PDFScraper.java:82 | the position found lies before the bound, or is -1 |
| JavaText.LastSlashBefore | sascrapper/src/main/java/sascrapper/PDFScraper.java:82 | the position found lies before the bound, or is -1 |
| JavaText.DigitRunFrom | sascrapper/src/main/java/sascrapper/PDFScraper.java:82 | the digit run (what greedy `\d+` takes) stays inside the string |
| JavaText.LastTerminatorFacts | sascrapper/src/main/java/sascrapper/PDFScraper.java:82 | the scan stops at a line terminator, and none lies between it and the bound (where `.*` may not cross) |
| JavaText.LastSlashFacts | sascrapper/src/main/java/sascrapper/PDFScraper.java:82 | the scan stops at a '/', and none lies between it and the bound |
| JavaText.DigitRunFacts | sascrapper/src/main/java/sascrapper/PDFScraper.java:82 | the run holds only digits and the character after it, if any, is not a digit |
| JavaText.ParseInt | sascrapper/src/main/java/sascrapper/PDFScraper.java:83 | an accepted value lies in the range of a Java `int` |
| JavaText.LeadingZeroIgnored | sascrapper/src/main/java/sascrapper/PDFScraper.java:83 | a leading '0' does not change the value of the digits |
| Years.ReplaceTrailingNumber | sascrapper/src/main/java/sascrapper/PDFScraper.java:82 | the `replaceAll` never lengthens the string; `YearFacts.ReplaceAfterLastSlash` states what it computes in terms of the text after the last '/' |
| Years.ExtractYear | sascrapper/src/main/java/sascrapper/PDFScraper.java:80-87 | the year always lies in the `int` range: a string that does not parse gives 0 and does not throw |
| YearFacts.LastSlashUnique | sascrapper/src/main/java/sascrapper/PDFScraper.java:82 | a '/' with no '/' after it up to the bound is the one the scan finds |
| YearFacts.DigitRunUnique | sascrapper/src/main/java/sascrapper/PDFScraper.java:82 | a run of digits not followed by a digit is the run the scan measures |
| YearFacts.LastSlashBetween | sascrapper/src/main/java/sascrapper/PDFScraper.java:82 | in `head + "/" + tail` with no '/' in `tail`, the last '/' is the one after `head` |
| YearFacts.ReplaceAfterLastSlash | sascrapper/src/main/java/sascrapper/PDFScraper.java:82 | the replacement over `head + "/" + tail` stated in terms of `tail` alone: matched (earlier lines of `head` then `tail`) or unchanged |
| YearFacts.ParseRejects | sascrapper/src/main/java/sascrapper/PDFScraper.java:83 | a character that is neither a digit nor a sign makes `parseInt` throw |
| YearFacts.ParseUnmatched | sascrapper/src/main/java/sascrapper/PDFScraper.java:82-83 | an unmatched URL, which holds a '/', never parses |
| YearFacts.ParseKeepsTerminator | sascrapper/src/main/java/sascrapper/PDFScraper.java:82-83 | a final line terminator kept by the replacement makes `parseInt` throw |
| YearFacts.ParseKeepsEarlierLines | sascrapper/src/main/java/sascrapper/PDFScraper.java:82-83 | earlier lines kept by the replacement make `parseInt` throw |
| YearFacts.ExtractYearAfterLastSlash | sascrapper/src/main/java/sascrapper/PDFScraper.java:80-87 | the year of `head + "/" + tail` is the value of `tail` when `head` is one line and `tail` is a non-empty run of digits within `int`, and 0 otherwise |
| YearFacts.ExtractYearWithoutSlash | sascrapper/src/main/java/sascrapper/PDFScraper.java:80-87 | a string without '/' is parsed as it is (0 when that throws) |
| YearFacts.ExtractYearIgnoresPrefix | sascrapper/src/main/java/sascrapper/PDFScraper.java:43-44 | prefixing a one-line string to a link containing '/' does not change its year |
| YearFacts.ExtractYearExample | sascrapper/src/main/java/sascrapper/PDFScraper.java:82 | ".../paper_files/paper/2021" gives 2021 |
| YearWindow.LatestYear | sascrapper/src/main/java/sascrapper/PDFScraper.java:69-78 | the latest year is non-negative and at least the year of every link |
| YearWindow.LatestYearIsAttained | sascrapper/src/main/java/sascrapper/PDFScraper.java:69-78 | the latest year is 0 or the year of some link |
| YearWindow.ExtractLatestYear | sascrapper/src/main/java/sascrapper/PDFScraper.java:69-78 | the loop returns the maximum of 0 and the years of all links |
| YearWindow.TargetYears | sascrapper/src/main/java/sascrapper/PDFScraper.java:38-40 | `y` is in the window if and only if `latest - 5 < y <= latest`; always exactly five members; a negative member when `latest < 4` |
| Archives.PaperTasks | sascrapper/src/main/java/sascrapper/PDFScraper.java:51-53 | one task per paper link |
| Archives.PaperTaskAt | sascrapper/src/main/java/sascrapper/PDFScraper.java:51-53 | task `k` is `processPaper(baseUrl, baseUrl + href_k, outputDir)` |
| Archives.LinkYears | sascrapper/src/main/java/sascrapper/PDFScraper.java:43-44 | one year per index link |
| Archives.LinkYearsAt | sascrapper/src/main/java/sascrapper/PDFScraper.java:43-44 | year `k` is `extractYearFromUrl(baseUrl + href_k)` |
| Archives.LinkYearsAreYears | sascrapper/src/main/java/sascrapper/PDFScraper.java:43-44 | the years of the links satisfy the relation the selection loop is specified with |
| Archives.VisitLink | sascrapper/src/main/java/sascrapper/PDFScraper.java:42-60 | one pass either leaves the progress unchanged or appends exactly this link to the fetched archives |
| Archives.WalkLinks | sascrapper/src/main/java/sascrapper/PDFScraper.java:42-61 | after `n` links, at most `n` archives fetched and counted |
| Archives.ArchiveYearIsLinkYear | sascrapper/src/main/java/sascrapper/PDFScraper.java:43-44 | a link containing '/' has the same year after the base URL as on its own (line 72 reads it on its own) |
| ArchiveFacts.WalkStopsAtQuota | sascrapper/src/main/java/sascrapper/PDFScraper.java:55-57 | once the count reaches 5, later links change nothing (the `break`) |
| ArchiveFacts.WalkFetchesBelow | sascrapper/src/main/java/sascrapper/PDFScraper.java:42-61 | only links already walked are fetched |
| ArchiveFacts.WalkWithinQuota | sascrapper/src/main/java/sascrapper/PDFScraper.java:54-57 | the count never exceeds 5 |
| ArchiveFacts.WalkInOrder | sascrapper/src/main/java/sascrapper/PDFScraper.java:42 | archives are fetched in strictly increasing document order |
| ArchiveFacts.WalkCountsSuccesses | sascrapper/src/main/java/sascrapper/PDFScraper.java:54-60 | `count` is the number of successful fetches; a failed fetch is not counted |
| ArchiveFacts.WalkSubmits | sascrapper/src/main/java/sascrapper/PDFScraper.java:51-60 | the submitted tasks are those of the successful fetches, in order; a failed fetch submits none |
| ArchiveFacts.WalkEndsOnSuccess | sascrapper/src/main/java/sascrapper/PDFScraper.java:54-57 | when the count is 5, the last fetch was a success |
| ArchiveFacts.WalkCounts | sascrapper/src/main/java/sascrapper/PDFScraper.java:42-61 | the five facts above together |
| ArchiveFacts.VisitKeepsFetchedExactly | sascrapper/src/main/java/sascrapper/PDFScraper.java:45 | one pass keeps "fetched if and only if in the window and not after the stop" |
| ArchiveFacts.WalkMembership | sascrapper/src/main/java/sascrapper/PDFScraper.java:42-61 | a walked link is fetched if and only if its year is in the window and it does not come after the fifth success |
| ArchiveFacts.WalkSelected | sascrapper/src/main/java/sascrapper/PDFScraper.java:41-61 | the whole walk satisfies `Selected` |
| Crawler.SubmitPapers | sascrapper/src/main/java/sascrapper/PDFScraper.java:51-53 | the inner loop appends one task per paper link, in order, to those already submitted |
| Crawler.SelectArchives | sascrapper/src/main/java/sascrapper/PDFScraper.java:41-61 | the loop, including its `break`, ends in the state the fold specifies |
| Crawler.Crawl | sascrapper/src/main/java/sascrapper/PDFScraper.java:30-66 | a failed index fetch submits nothing; otherwise the window is the five years ending at the latest year and the selection satisfies `Selected` |
| Crawler.LoopYearsAreIndexYears | sascrapper/src/main/java/sascrapper/PDFScraper.java:36-44 | the year the selection loop reads for an archive link equals the year `extractLatestYear` read, so it is at most the latest year |
| Crawler.LatestYearIsALinkYear | sascrapper/src/main/java/sascrapper/PDFScraper.java:36-45 | when every index link names an archive, the latest year is 0 or the year the selection loop reads for some link, so when it is positive the window holds at least one link's year |
| Download.PdfPath | sascrapper/src/main/java/sascrapper/PDFScraper.java:118 | the file a PDF goes to; `Download.PdfPathDistinct` and `PaperFacts.SavedUnderSafeName` state what callers rely on |
| Download.PdfPathDistinct | sascrapper/src/main/java/sascrapper/PDFScraper.java:118 | within one output directory, two file names give the same path if and only if they are equal |
| Download.Admits | sascrapper/src/main/java/sascrapper/PDFScraper.java:117 | the gate `isSuccessful() && body() != null`; `Download.Downloaded` and `Download.NullBodyRejected` state that a call it refuses throws and writes nothing |
| Download.Downloaded | sascrapper/src/main/java/sascrapper/PDFScraper.java:114-129 | the download saves if and only if it does not throw; a saved PDF's path is `outputDir + fileName + ".pdf"`; a rejected call leaves the disk unchanged |
| Download.ReadInto | sascrapper/src/main/java/sascrapper/PDFScraper.java:124 | one read returns its byte count, puts its bytes at the start of the buffer and leaves the rest of the buffer as it was |
| Download.DownloadPdf | sascrapper/src/main/java/sascrapper/PDFScraper.java:114-129 | the gate and the copy loop give exactly the outcome and the disk of the specification |
| Download.ConcatAppend | sascrapper/src/main/java/sascrapper/PDFScraper.java:124-125 | the file holds the reads in order: appending reads appends their bytes |
| Download.ConcatLength | sascrapper/src/main/java/sascrapper/PDFScraper.java:122-125 | the file is as long as the stream, with between 1 and 8192 bytes per read |
| Download.SplitDoesNotMatter | sascrapper/src/main/java/sascrapper/PDFScraper.java:122-125 | how the body is split into reads does not change the outcome or the disk |
| Download.WritesOnlyThePdf | sascrapper/src/main/java/sascrapper/PDFScraper.java:117-125 | an admitted download creates the directory and writes only the PDF's file, with the body's bytes (an empty body gives an empty file); other files stay as they were |
| Download.NullBodyRejected | sascrapper/src/main/java/sascrapper/PDFScraper.java:117-128 | a successful response without a body throws "Failed to download PDF" and writes nothing |
| Papers.Fails | sascrapper/src/main/java/sascrapper/PDFScraper.java:96-111 | which attempts end in the `catch`: a failed page fetch, or a download that throws; `Retry.TryAttempt` proves the `try` block throws exactly for these |
| Papers.LeadingFailures | sascrapper/src/main/java/sascrapper/PDFScraper.java:93-111 | the failures before the first attempt that does not fail: all counted ones fail, the next one does not |
| Papers.Made | sascrapper/src/main/java/sascrapper/PDFScraper.java:93 | between one and five attempts are made |
| Papers.FailureCounted | sascrapper/src/main/java/sascrapper/PDFScraper.java:106-109 | a failure right after `n` leading failures makes `n + 1` |
| Papers.SuccessEndsFailures | sascrapper/src/main/java/sascrapper/PDFScraper.java:99-105 | an attempt that does not fail ends the leading failures |
| Retry.TryAttempt | sascrapper/src/main/java/sascrapper/PDFScraper.java:94-111 | the `try` block throws exactly when the attempt fails; its messages and the disk afterwards are those of the attempt |
| Retry.ProcessPaper | sascrapper/src/main/java/sascrapper/PDFScraper.java:89-112 | `attempts` ends at the number of leading failures (at most 5); success if and only if fewer than 5; the trace and the disk are those of the attempts up to the first success |
| PaperFacts.AnnouncedAttempts | sascrapper/src/main/java/sascrapper/PDFScraper.java:95 | attempt `k` is announced in the trace of `n` attempts exactly when `1 <= k <= n` |
| PaperFacts.AtMostFiveAttempts | sascrapper/src/main/java/sascrapper/PDFScraper.java:93-95 | `processPaper` announces attempts 1 to the number made, which is at most 5 |
| PaperFacts.GiveUpsOfAttempt | sascrapper/src/main/java/sascrapper/PDFScraper.java:109-111 | one attempt prints "Giving up" once if it is a failing fifth attempt, and never otherwise |
| PaperFacts.NoGiveUpBeforeFifth | sascrapper/src/main/java/sascrapper/PDFScraper.java:110-111 | nothing before the fifth attempt prints "Giving up" |
| PaperFacts.GivesUpOnceIffAllFail | sascrapper/src/main/java/sascrapper/PDFScraper.java:93-111 | "Giving up" is printed exactly once if all five attempts fail, and not at all otherwise |
| PaperFacts.FifthDecides | sascrapper/src/main/java/sascrapper/PDFScraper.java:109-111 | once a fifth attempt is made, its failure decides whether all five failed |
| PaperFacts.AllFailuresExhaustRetries | sascrapper/src/main/java/sascrapper/PDFScraper.java:93-111 | if every attempt fails, five are made and the loop ends without success |
| PaperFacts.NoAnchorEndsAtOnce | sascrapper/src/main/java/sascrapper/PDFScraper.java:103-105 | a page without a PDF anchor ends the loop after one attempt, prints "No PDF link" and writes nothing |
| PaperFacts.FailuresAlike | sascrapper/src/main/java/sascrapper/PDFScraper.java:106-111 | turning a failing attempt into a failed page fetch leaves the trace unchanged |
| PaperFacts.FailingAttemptsAlike | sascrapper/src/main/java/sascrapper/PDFScraper.java:106-111 | two failing attempts with the same number print the same messages |
| PaperFacts.LeadingFailuresAlike | sascrapper/src/main/java/sascrapper/PDFScraper.java:106-109 | the same replacement leaves the number of leading failures unchanged |
| PaperFacts.DownloadFailureRetried | sascrapper/src/main/java/sascrapper/PDFScraper.java:99-111 | a download that throws is retried exactly like a failed page fetch: same attempts, same messages |
| PaperFacts.SavedUnderSafeName | sascrapper/src/main/java/sascrapper/PDFScraper.java:97-118 | a saved PDF is at `outputDir + sanitised title + ".pdf"`, its name has no unsafe character, and it holds the body's bytes |

## Left out

- The thread pool is not modelled: a fixed pool of 50, `shutdown` and `awaitTermination`.
  - The model yields the sequence of submitted tasks; each paper's `processPaper` is modelled on its own.
  - Interleaving between tasks, and writes of two tasks to the same file, are not modelled.
- The network and HTML parsing are inputs, not models: Jsoup, OkHttp, the CSS selectors, timeouts.
  - This includes the 60000 ms timeout, which only turns into an IOException, i.e. a failed fetch.
- OkHttp's `IllegalArgumentException` for a malformed PDF URL is not modelled. It is not an IOException.
- `Files.createDirectories` and `new FileOutputStream` can throw IOExceptions of their own. They are treated as
  succeeding. Only a failed read of the body is a stream failure.
- The top-level `InterruptedException` of `awaitTermination` is not modelled.
- Console output:
  - `processPaper`'s messages are modelled as an event trace without the thread name.
  - The messages of `main` and `extractYearFromUrl` and the stack traces are not modelled.
- JavaText.ParseInt: only ASCII digits are digits. `Integer.parseInt` also accepts other Unicode decimal digits.
  - These could reach it only from a string without '/' or a line terminator.
  - `extractYearFromUrl` therefore gets the same answer for every index link, since each contains '/'.
- The model follows the code in these places, which may surprise:
  - The window always has five members, `latest - 4 .. latest`, even when fewer years appear. It contains negative
    numbers when the latest year is below 4 (`YearWindow.TargetYears`).
  - The selection loop stops after five archives were fetched successfully, however many in-window archives remain.
  - A failed archive fetch is not counted.
  - A successful response with an empty body writes an empty file and counts as saved
    (`Download.WritesOnlyThePdf`).
  - A stream that breaks mid-copy leaves the partly written file on disk.
  - A failed download counts against the five-attempt budget, like a failed page fetch
    (`PaperFacts.DownloadFailureRetried`).
