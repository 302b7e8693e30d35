/**
 * `downloadPDF`: one HTTP call for the PDF, a gate on the response, then the
 * copy loop that reads the body through an 8192-byte buffer and writes each
 * read to the output file `outputDir + fileName + ".pdf"`.
 *
 * The network is an input (`PdfCall`: whether the call was answered, and the
 * response), and the filesystem is a value (`Disk`) that the method threads
 * through: the set of directories created and the contents of each file.
 */
module Download {
  import opened Wrappers

  newtype byte = x: int | 0 <= x < 256

  /** The size of the copy buffer. */
  const BufferSize: nat := 8192

  /** What one `read(buffer)` that does not report end of stream delivers: between 1 and 8192 bytes. */
  type Chunk = c: seq<byte> | 0 < |c| <= BufferSize witness [0]

  /**
   * A response body as the copy loop sees it: the successive reads, and
   * whether the read after the last of them throws instead of reporting the
   * end of the stream.
   */
  datatype Body = Body(chunks: seq<Chunk>, broken: bool)

  /** `response.isSuccessful()` and `response.body()`, which may be null. */
  datatype Response = Response(successful: bool, body: Option<Body>)

  /** `httpClient.newCall(request).execute()`: it throws an IOException, or it gives a response. */
  datatype PdfCall = Unanswered | Answered(response: Response)

  /** The directories that exist and the contents of each file. */
  datatype Disk = Disk(dirs: set<string>, files: map<string, seq<byte>>)

  /** Why `downloadPDF` throws an IOException. */
  datatype DownloadError =
    | NoResponse              // the call itself failed
    | Rejected(pdfUrl: string) // "Failed to download PDF: " + pdfUrl
    | StreamBroken            // a read of the body failed

  datatype DownloadOutcome = Saved(path: string) | Threw(error: DownloadError)

  /** The outcome of a download and the disk after it. */
  datatype Step = Step(outcome: DownloadOutcome, disk: Disk)

  /** The file a PDF is saved to. */
  function PdfPath(outputDir: string, fileName: string): string {
    outputDir + fileName + ".pdf"
  }

  /**
   * Within one output directory, two file names give the same path only when
   * they are equal, so papers whose sanitised titles differ are saved to
   * different files.
   */
  lemma PdfPathDistinct(outputDir: string, a: string, b: string)
    ensures PdfPath(outputDir, a) == PdfPath(outputDir, b) <==> a == b
  {
    var p, q := PdfPath(outputDir, a), PdfPath(outputDir, b);
    if p == q {
      assert |a| == |b|;
      assert a == p[|outputDir|..|outputDir| + |a|];
      assert b == q[|outputDir|..|outputDir| + |b|];
    }
  }

  /** The gate of `downloadPDF`: `response.isSuccessful() && response.body() != null`. */
  predicate Admits(call: PdfCall) {
    call.Answered? && call.response.successful && call.response.body.Some?
  }

  /** The bytes of the reads, one after another. */
  function Concat(chunks: seq<Chunk>): seq<byte> {
    if chunks == [] then [] else Concat(chunks[..|chunks| - 1]) + chunks[|chunks| - 1]
  }

  /** Total number of bytes of the reads. */
  function StreamLength(chunks: seq<Chunk>): nat {
    if chunks == [] then 0 else StreamLength(chunks[..|chunks| - 1]) + |chunks[|chunks| - 1]|
  }

  /** Whether `downloadPDF` throws for this call. */
  predicate Throws(call: PdfCall) {
    !Admits(call) || call.response.body.value.broken
  }

  /**
   * `downloadPDF` as a specification. A call that is not answered, or whose
   * response fails the gate, throws and leaves the disk as it was. Otherwise
   * the output directory exists afterwards and the file holds the bytes of
   * every read, whether the stream then ends (the PDF is saved) or breaks
   * (the exception propagates and the partly written file remains).
   */
  function Downloaded(pdfUrl: string, outputDir: string, fileName: string, call: PdfCall, disk: Disk): (s: Step)
    ensures s.outcome.Saved? <==> !Throws(call)
    ensures s.outcome.Saved? ==> s.outcome.path == PdfPath(outputDir, fileName)
    ensures !Admits(call) ==> s.disk == disk
  {
    match call
    case Unanswered => Step(Threw(NoResponse), disk)
    case Answered(response) =>
      if !Admits(call) then Step(Threw(Rejected(pdfUrl)), disk)
      else
        var body := response.body.value;
        var path := PdfPath(outputDir, fileName);
        var written := Disk(disk.dirs + {outputDir}, disk.files[path := Concat(body.chunks)]);
        if body.broken then Step(Threw(StreamBroken), written) else Step(Saved(path), written)
  }

  /** `inputStream.read(buffer)` for a read that delivers `chunk`: the bytes land at the start of the buffer. */
  method ReadInto(chunk: Chunk, buffer: array<byte>) returns (bytesRead: nat)
    requires buffer.Length == BufferSize
    modifies buffer
    ensures bytesRead == |chunk| && buffer[..bytesRead] == chunk
    ensures buffer[bytesRead..] == old(buffer[bytesRead..])
  {
    for k := 0 to |chunk|
      invariant buffer[..k] == chunk[..k]
      invariant buffer[k..] == old(buffer[k..])
    {
      buffer[k] := chunk[k];
    }
    bytesRead := |chunk|;
  }

  /** `downloadPDF(pdfUrl, outputDir, fileName)` against the call's outcome and the disk. */
  method DownloadPdf(pdfUrl: string, outputDir: string, fileName: string, call: PdfCall, disk: Disk)
    returns (outcome: DownloadOutcome, disk': Disk)
    ensures Step(outcome, disk') == Downloaded(pdfUrl, outputDir, fileName, call, disk)
  {
    if call.Unanswered? {
      return Threw(NoResponse), disk;
    }
    var response := call.response;
    if !(response.successful && response.body.Some?) {
      return Threw(Rejected(pdfUrl)), disk;
    }
    var body := response.body.value;
    var filePath := outputDir + fileName + ".pdf";
    disk' := disk.(dirs := disk.dirs + {outputDir});
    disk' := disk'.(files := disk'.files[filePath := []]);
    var buffer := new byte[BufferSize];
    var written: seq<byte> := [];
    var k := 0;
    while k < |body.chunks|
      invariant 0 <= k <= |body.chunks|
      invariant written == Concat(body.chunks[..k])
      invariant disk' == Disk(disk.dirs + {outputDir}, disk.files[filePath := written])
    {
      var bytesRead := ReadInto(body.chunks[k], buffer);
      assert body.chunks[..k + 1][..k] == body.chunks[..k];
      written := written + buffer[..bytesRead];
      disk' := disk'.(files := disk'.files[filePath := written]);
      k := k + 1;
    }
    assert body.chunks[..|body.chunks|] == body.chunks;
    if body.broken {
      return Threw(StreamBroken), disk';
    }
    outcome := Saved(filePath);
  }

  /** The file holds the reads in order: appending a read appends its bytes. */
  lemma {:induction false} ConcatAppend(chunks: seq<Chunk>, more: seq<Chunk>)
    ensures Concat(chunks + more) == Concat(chunks) + Concat(more)
    decreases |more|
  {
    if more == [] {
      assert chunks + more == chunks;
    } else {
      var init := more[..|more| - 1];
      assert (chunks + more)[..|chunks + more| - 1] == chunks + init;
      ConcatAppend(chunks, init);
      assert Concat(chunks + more) == Concat(chunks) + Concat(init) + more[|more| - 1];
    }
  }

  /** Every byte written was read: the file is as long as the stream, with at least one and at most 8192 bytes per read. */
  lemma {:induction false} ConcatLength(chunks: seq<Chunk>)
    ensures |Concat(chunks)| == StreamLength(chunks)
    ensures |chunks| <= |Concat(chunks)| <= BufferSize * |chunks|
  {
    if chunks != [] {
      ConcatLength(chunks[..|chunks| - 1]);
    }
  }

  /**
   * How the body was split into reads does not matter: two bodies with the
   * same bytes and the same ending leave the same disk and outcome.
   */
  lemma SplitDoesNotMatter(pdfUrl: string, outputDir: string, fileName: string, successful: bool,
                           a: Body, b: Body, disk: Disk)
    requires Concat(a.chunks) == Concat(b.chunks) && a.broken == b.broken
    ensures Downloaded(pdfUrl, outputDir, fileName, Answered(Response(successful, Some(a))), disk)
         == Downloaded(pdfUrl, outputDir, fileName, Answered(Response(successful, Some(b))), disk)
  {
  }

  /**
   * A download that passes the gate creates the output directory and writes
   * exactly the PDF's file, and nothing else on the disk changes; an empty
   * body gives an empty file.
   */
  lemma WritesOnlyThePdf(pdfUrl: string, outputDir: string, fileName: string, call: PdfCall, disk: Disk)
    requires Admits(call)
    ensures var s := Downloaded(pdfUrl, outputDir, fileName, call, disk);
            var path := PdfPath(outputDir, fileName);
            && s.disk.dirs == disk.dirs + {outputDir}
            && s.disk.files.Keys == disk.files.Keys + {path}
            && s.disk.files[path] == Concat(call.response.body.value.chunks)
            && (call.response.body.value.chunks == [] ==> s.disk.files[path] == [])
            && forall p :: p in disk.files && p != path ==> s.disk.files[p] == disk.files[p]
  {
  }

  /** A call whose response has no body is rejected even when it is successful. */
  lemma NullBodyRejected(pdfUrl: string, outputDir: string, fileName: string, disk: Disk)
    ensures Downloaded(pdfUrl, outputDir, fileName, Answered(Response(true, None)), disk)
         == Step(Threw(Rejected(pdfUrl)), disk)
  {
  }
}
