# PDF attachment merge for Odoo reports, modelled in Dafny

This project models the `ir.actions.report` override in
`image_pdf_merge_report.py`. After the base class renders a report to PDF,
the override takes the records' upload lines. It base64-decodes every
non-empty upload. It keeps the uploads whose lower-cased file name ends in
`.pdf` and joins them after the report into one PDF (`join_pdf`). Two things
abort the whole call with a `ValidationError` (`ReportError.Message` gives its text):
- an upload that cannot be decoded or read ("One or more uploaded files are not valid PDFs or images.");
- a chunk that PyPDF2 cannot read ("One or more uploaded files are not valid PDF files.").

A third outcome is a failure inside `PdfFileWriter.write`. That call sits outside the `try`, so the writer's own exception reaches the caller and is not turned into a `ValidationError` (`WriteFailed`).

Library calls are parameters of the model:
- `parse: Bytes -> Option<seq<Page>>` is PyPDF2's lenient `PdfFileReader` together with `getNumPages`/`getPage`. It is `None` when any of them raises.
- `serialize: seq<Page> -> Option<Bytes>` is `PdfFileWriter.write` into a `BytesIO`. It is `None` when writing raises.
- `decode: Bytes -> Option<Bytes>` is `base64.b64decode`. It is `None` when it raises.
- The rendered report `result` and the upload record are plain inputs.

Files:
- `wrappers.dfy`: `Option` and `Result`.
- `pdf.dfy`: bytes, pages, the errors with the two ValidationError texts, and the page writer `PdfWriter`. The writer is a class whose `AddPage` appends in place.
- `text.dfy`: `lower()` and `endswith('.pdf')`.
- `join_pdf.dfy`: `join_pdf` as the method `Join.JoinPdf`. It uses a nested loop over chunks and page indices and is proved equal to the specification function `JoinSpec`.
- `join_pdf_properties.dfy`: page order, page count, duplicates and all-or-nothing failure of the join.
- `run_wkhtmltopdf.dfy`: the upload loop and the final join as the method `RunWkhtmltopdf.RunWkhtmltopdf`. It is proved equal to `RunSpec`.
- `run_wkhtmltopdf_properties.dfy`: which uploads are merged, in what order, and when the call aborts.

The code does not do what its header comment (image_pdf_merge_report.py:1-3) claims. The model follows the code:
- Uploads are selected by file-name suffix only. The content is never checked against a PDF, JPEG or PNG signature.
- Nothing is rejected per upload: an upload that cannot be read aborts the whole call, and a non-PDF name is skipped without any check.

The join error is one message and does not say which chunk failed.

Two more details of the code:
- An upload line whose `file_name` is unset (`False`) makes `.lower()` raise inside the same `try`. The call then fails with the upload error. The model gives such a line `fileName == None`.
- The source tests a name `quality_check` at line 60. The model takes the upload record as an explicit `Option<UploadRecord>` input; see `RunWkhtmltopdf.RunWkhtmltopdf` under "## Left out".

## Model

| member | source | states |
|---|---|---|
| `Pdf.PdfWriter.constructor` | image_pdf_merge_report.py:19 | a new writer holds no pages |
| `Pdf.PdfWriter.AddPage` | image_pdf_merge_report.py:25 | `addPage` appends exactly one page at the end and changes nothing else |
| `Join.JoinPdf` | image_pdf_merge_report.py:17-32 | the nested loop fails with `InvalidPdfFiles` when a chunk does not parse, discarding the pages already added; otherwise it writes out the concatenation of all chunks' pages, returning those bytes or `WriteFailed` when writing raises |
| `JoinProperties.FlattenAppend` | image_pdf_merge_report.py:21-25 | joining `a + b` yields the pages of `a` followed by the pages of `b` |
| `JoinProperties.FlattenSingle` | image_pdf_merge_report.py:21-25 | joining one document yields exactly its pages, in its own order |
| `JoinProperties.FlattenLength` | image_pdf_merge_report.py:21-25 | the joined page count equals the sum of the chunks' page counts |
| `JoinProperties.FlattenAt` | image_pdf_merge_report.py:21-25 | page `k` of chunk `j` is at position (pages of chunks `0..j-1`) + `k` of the output, so chunk order and page order are preserved and nothing is dropped |
| `JoinProperties.JoinFailsOnInvalidChunk` | image_pdf_merge_report.py:21-28 | one unreadable chunk at any position makes the whole join fail with the single ValidationError "One or more uploaded files are not valid PDF files." and return no bytes |
| `JoinProperties.JoinWriteFailureEscapes` | image_pdf_merge_report.py:21-32 | when every chunk reads but `write` raises, the join fails with `WriteFailed`, which is not a ValidationError |
| `JoinProperties.JoinedPageCount` | image_pdf_merge_report.py:21-32 | if writing succeeds and its output reads back as the pages written, its page count is the sum of the chunks' page counts |
| `JoinProperties.JoinOrder` | image_pdf_merge_report.py:21-25 | `[a, b]` yields a's pages then b's, and `[b, a]` yields them the other way round (a corollary of `FlattenAppend`) |
| `JoinProperties.JoinKeepsDuplicates` | image_pdf_merge_report.py:21-25 | a chunk listed twice contributes its pages twice |
| `Text.LowerIsLowerCase` | image_pdf_merge_report.py:65 | the lowered name has no capital A to Z, differs from the name only in letter case, and lowering it again changes nothing |
| `Text.LowerIgnoresCase` | image_pdf_merge_report.py:65 | names that differ only in letter case lower to the same string |
| `Text.HasPdfSuffixIgnoresCase` | image_pdf_merge_report.py:65-68 | the name test gives the same answer for names that differ only in letter case |
| `Text.HasPdfSuffixIff` | image_pdf_merge_report.py:65-68 | the name test holds exactly when the last four characters are `.`, `p`, `d`, `f`, each letter in either case |
| `Text.SuffixExamples` | image_pdf_merge_report.py:65-68 | "X.PDF", "report.pdf" and "Scan.Pdf" are accepted; "scan.png", "photo.JPG", "pdf", "a.pdf.png" and "" are not |
| `RunWkhtmltopdf.RunWkhtmltopdf` | image_pdf_merge_report.py:56-80 | the loop and join return the report unchanged when there are no upload lines, fail with `InvalidUploads` when an upload cannot be read, and otherwise return the join of the report and the decoded PDF uploads |
| `RunProperties.AttachmentsAppend` | image_pdf_merge_report.py:61-69 | selection over `a + b` is the selection over `a` followed by the selection over `b`, so upload order is kept |
| `RunProperties.AttachmentOfOne` | image_pdf_merge_report.py:62-72 | one upload is appended, as its decoded content, exactly when its content is non-empty and its name ends in ".pdf" in any case |
| `RunProperties.SkippedUploadChangesNothing` | image_pdf_merge_report.py:62-72 | an empty upload, or one whose name does not end in ".pdf", leaves the merge list as if it were absent |
| `RunProperties.AttachmentAt` | image_pdf_merge_report.py:58-69 | the decoded content of PDF upload `i` is in the merge list at 1 + (number of PDF uploads before `i`) |
| `RunProperties.AttachmentsComeFromPdfUploads` | image_pdf_merge_report.py:61-69 | every attachment in the merge list is the decoded content of some PDF-named, non-empty upload |
| `RunProperties.NoPdfUploadsNoAttachments` | image_pdf_merge_report.py:61-72 | when no upload is a non-empty ".pdf", nothing is appended |
| `RunProperties.MergeListStartsWithReport` | image_pdf_merge_report.py:58-69 | the merge list is the generated report at index 0 followed by the attachments |
| `RunProperties.NoUploadLinesKeepsReport` | image_pdf_merge_report.py:60-80 | without a record or without upload lines, the rendered report is returned unchanged and no join happens |
| `RunProperties.DecodeFailureAborts` | image_pdf_merge_report.py:62-75 | a non-empty upload that fails to decode aborts with the ValidationError "One or more uploaded files are not valid PDFs or images.", whatever its file name |
| `RunProperties.NoPdfUploadsJoinsReportAlone` | image_pdf_merge_report.py:60-80 | with upload lines but no PDF among them, the result is `join_pdf([result])`: the report's own pages written out, or `InvalidPdfFiles` if the report does not parse |
| `RunProperties.MergedPages` | image_pdf_merge_report.py:58-80 | when every upload is readable and every chunk parses, what is written out is the report's pages followed by the pages of each PDF upload, in upload order |
| `RunProperties.InvalidPdfUploadAborts` | image_pdf_merge_report.py:58-78 | a PDF upload that decodes but does not parse makes the whole call fail with the ValidationError "One or more uploaded files are not valid PDF files." |

## Left out

- PyPDF2 (lenient parsing, page extraction, serialisation) is not specified. It is the parameters `parse` and `serialize`. So the model says nothing about the bytes of the output beyond `serialize(pages)`. Which chunks make `write` raise (PyPDF2 resolves objects lazily, so a chunk that reads can still fail there) is left to `serialize`.
- RunWkhtmltopdf.RunWkhtmltopdf: assumes the name `quality_check` is bound to the upload record, with `None` for "no record". As written, that name is bound nowhere in the module, so line 60 raises `NameError` on every call once the report has been rendered. None of the upload handling is then reachable, and `result` is never returned. The only nearby binding, `report_creation_model` at line 56, is never used.
- `base64.b64decode` is the parameter `decode`. The model does not restate the base64 alphabet.
- The base-class rendering `super()._run_wkhtmltopdf`, the Odoo ORM (`self.env`, `browse`, context lookups) and the QWeb rendering of image uploads belong to collaborators. The rendered bytes and the upload record are inputs.
- Logging through `_logger.error` has no effect on results, so it is not modelled.
- Text.Lower: maps only `A` to `Z`, not the full Unicode `str.lower`. No other character lowers to `.`, `p`, `d` or `f`, so the `.pdf` test is unaffected.
- Odoo's binary field value `False` and an empty byte string are both "no content". The model represents both as the empty sequence.
