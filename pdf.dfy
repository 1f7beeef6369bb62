/**
 * The PDF-side vocabulary of the report override: bytes, pages, the two
 * ValidationError messages, and the accumulating page writer
 * (PyPDF2's PdfFileWriter, reduced to its page list).
 */
module Pdf {
  import opened Wrappers

  newtype Byte = b: int | 0 <= b < 256

  type Bytes = seq<Byte>

  /** One page of a parsed document; its content stream is kept as bytes. */
  datatype Page = Page(content: Bytes)

  /** What the override can raise instead of returning. */
  datatype ReportError =
    | InvalidPdfFiles   // ValidationError raised by join_pdf when a chunk cannot be read
    | InvalidUploads    // ValidationError raised by the upload loop when an upload cannot be read
    | WriteFailed       // the writer's own exception from `write`, which no `try` catches
  {
    predicate IsValidationError() {
      !WriteFailed?
    }

    /** The text of the ValidationError. */
    function Message(): string
      requires IsValidationError()
    {
      if InvalidPdfFiles? then "One or more uploaded files are not valid PDF files."
      else "One or more uploaded files are not valid PDFs or images."
    }
  }

  /** The output document that pages are appended to, one at a time. */
  class PdfWriter {
    var pages: seq<Page>

    constructor ()
      ensures pages == []
    {
      pages := [];
    }

    method AddPage(p: Page)
      modifies this
      ensures pages == old(pages) + [p]
    {
      pages := pages + [p];
    }

    /** The bytes `write` puts into the output buffer, or None when `write` raises. */
    function Output(serialize: seq<Page> -> Option<Bytes>): Option<Bytes>
      reads this
    {
      serialize(pages)
    }
  }
}
