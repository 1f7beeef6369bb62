/**
 * `IrActionsReport.join_pdf`: concatenate the pages of several PDF chunks into
 * one document, failing as a whole when any chunk cannot be read.
 *
 * PyPDF2's lenient reader is the parameter `parse` (None when reading the chunk
 * or any of its pages raises) and `PdfFileWriter.write` is the parameter
 * `serialize` (None when writing raises; that happens outside the `try`, so
 * it is not turned into the ValidationError).
 */
module Join {
  import opened Wrappers
  import opened Pdf

  /** Every chunk can be read as a PDF. */
  predicate AllParse(parse: Bytes -> Option<seq<Page>>, chunks: seq<Bytes>) {
    forall i :: 0 <= i < |chunks| ==> parse(chunks[i]).Some?
  }

  /** The pages of the chunks, chunk by chunk, in chunk order. */
  function Flatten(parse: Bytes -> Option<seq<Page>>, chunks: seq<Bytes>): seq<Page>
    requires AllParse(parse, chunks)
    decreases |chunks|
  {
    if chunks == [] then []
    else Flatten(parse, chunks[..|chunks| - 1]) + parse(chunks[|chunks| - 1]).value
  }

  /** The sum of the chunks' page counts. */
  function TotalPages(parse: Bytes -> Option<seq<Page>>, chunks: seq<Bytes>): nat
    requires AllParse(parse, chunks)
  {
    if chunks == [] then 0
    else |parse(chunks[0]).value| + TotalPages(parse, chunks[1..])
  }

  /** Writing the joined pages out: the bytes, or the writer's own exception. */
  function Written(serialize: seq<Page> -> Option<Bytes>, pages: seq<Page>): Result<Bytes, ReportError> {
    match serialize(pages)
    case Some(bytes) => Success(bytes)
    case None => Failure(WriteFailed)
  }

  /** What `join_pdf(chunks)` returns or raises. */
  function JoinSpec(parse: Bytes -> Option<seq<Page>>, serialize: seq<Page> -> Option<Bytes>,
                    chunks: seq<Bytes>): Result<Bytes, ReportError>
  {
    if AllParse(parse, chunks) then Written(serialize, Flatten(parse, chunks))
    else Failure(InvalidPdfFiles)
  }

  /** `join_pdf`: one writer, every page of every chunk added by index, then written out. */
  method JoinPdf(parse: Bytes -> Option<seq<Page>>, serialize: seq<Page> -> Option<Bytes>,
                 chunks: seq<Bytes>) returns (r: Result<Bytes, ReportError>)
    ensures r == JoinSpec(parse, serialize, chunks)
  {
    var resultPdf := new PdfWriter();
    var i := 0;
    while i < |chunks|
      invariant 0 <= i <= |chunks|
      invariant AllParse(parse, chunks[..i])
      invariant resultPdf.pages == Flatten(parse, chunks[..i])
    {
      var chunkPdf := parse(chunks[i]);
      if chunkPdf.None? {
        // The pages already added are discarded with the writer.
        assert !AllParse(parse, chunks);
        return Failure(InvalidPdfFiles);
      }
      var numPages := |chunkPdf.value|;
      var page := 0;
      while page < numPages
        invariant 0 <= page <= numPages
        invariant resultPdf.pages == Flatten(parse, chunks[..i]) + chunkPdf.value[..page]
      {
        resultPdf.AddPage(chunkPdf.value[page]);
        page := page + 1;
      }
      assert chunks[..i + 1][..i] == chunks[..i];
      assert chunkPdf.value[..numPages] == chunkPdf.value;
      i := i + 1;
    }
    assert chunks[..i] == chunks;
    var output := resultPdf.Output(serialize);
    if output.None? {
      return Failure(WriteFailed);
    }
    r := Success(output.value);
  }
}
