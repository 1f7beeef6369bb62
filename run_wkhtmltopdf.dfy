/**
 * The override of `IrActionsReport._run_wkhtmltopdf`: after the report has
 * been rendered, the PDF uploads of the upload record are appended to it.
 *
 * The rendered report `result`, the upload record and `base64.b64decode`
 * (the parameter `decode`, None when it raises) are inputs.
 */
module RunWkhtmltopdf {
  import opened Wrappers
  import opened Pdf
  import opened Text
  import opened Join

  /** One upload line: its declared file name (None when unset) and its base64 content. */
  datatype UploadLine = UploadLine(fileName: Option<string>, upload: Bytes)

  /** The record whose upload lines are merged into the report. */
  datatype UploadRecord = UploadRecord(uploadLines: seq<UploadLine>)

  /**
   * The loop gets past this line without raising: the upload is empty, or it
   * decodes and has a name whose lower-case form can be tested.
   */
  predicate LineReadable(decode: Bytes -> Option<Bytes>, line: UploadLine) {
    line.upload == [] || (decode(line.upload).Some? && line.fileName.Some?)
  }

  predicate AllReadable(decode: Bytes -> Option<Bytes>, lines: seq<UploadLine>) {
    forall i :: 0 <= i < |lines| ==> LineReadable(decode, lines[i])
  }

  /** The line's decoded content is appended to the merge list. */
  predicate IsPdfUpload(line: UploadLine) {
    line.upload != [] && line.fileName.Some? && HasPdfSuffix(line.fileName.value)
  }

  /** The decoded PDF uploads, in upload order. */
  function Attachments(decode: Bytes -> Option<Bytes>, lines: seq<UploadLine>): seq<Bytes>
    requires AllReadable(decode, lines)
    decreases |lines|
  {
    if lines == [] then []
    else
      var line := lines[|lines| - 1];
      Attachments(decode, lines[..|lines| - 1])
        + (if IsPdfUpload(line) then [decode(line.upload).value] else [])
  }

  /** The merge list `pdf_chunks` after the loop, or the error the loop raises. */
  function MergeList(decode: Bytes -> Option<Bytes>, result: Bytes, lines: seq<UploadLine>)
    : Result<seq<Bytes>, ReportError>
  {
    if AllReadable(decode, lines) then Success([result] + Attachments(decode, lines))
    else Failure(InvalidUploads)
  }

  /** What the override returns or raises. */
  function RunSpec(parse: Bytes -> Option<seq<Page>>, serialize: seq<Page> -> Option<Bytes>,
                   decode: Bytes -> Option<Bytes>, result: Bytes, record: Option<UploadRecord>)
    : Result<Bytes, ReportError>
  {
    if record.None? || record.value.uploadLines == [] then Success(result)
    else
      match MergeList(decode, result, record.value.uploadLines)
      case Failure(e) => Failure(e)
      case Success(chunks) => JoinSpec(parse, serialize, chunks)
  }

  /** The override after rendering: collect the PDF uploads, then join them to the report. */
  method RunWkhtmltopdf(parse: Bytes -> Option<seq<Page>>, serialize: seq<Page> -> Option<Bytes>,
                        decode: Bytes -> Option<Bytes>, result: Bytes, record: Option<UploadRecord>)
    returns (r: Result<Bytes, ReportError>)
    ensures r == RunSpec(parse, serialize, decode, result, record)
  {
    var pdfChunks := [result];
    if record.Some? && record.value.uploadLines != [] {
      var lines := record.value.uploadLines;
      var i := 0;
      while i < |lines|
        invariant 0 <= i <= |lines|
        invariant AllReadable(decode, lines[..i])
        invariant pdfChunks == [result] + Attachments(decode, lines[..i])
      {
        var uploadLine := lines[i];
        if uploadLine.upload != [] {
          var decodedFile := decode(uploadLine.upload);
          if decodedFile.None? || uploadLine.fileName.None? {
            assert !LineReadable(decode, lines[i]);
            return Failure(InvalidUploads);
          }
          var fileType := Lower(uploadLine.fileName.value);
          if EndsWith(fileType, ".pdf") {
            pdfChunks := pdfChunks + [decodedFile.value];
          }
        }
        assert lines[..i + 1][..i] == lines[..i];
        i := i + 1;
      }
      assert lines[..i] == lines;
      r := JoinPdf(parse, serialize, pdfChunks);
      return;
    }
    r := Success(result);
  }
}
