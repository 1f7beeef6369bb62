/** What the upload loop guarantees about the merge list and about failure. */
module RunProperties {
  import opened Wrappers
  import opened Pdf
  import opened Text
  import opened Join
  import opened JoinProperties
  import opened RunWkhtmltopdf

  /** Selection distributes over concatenation of the upload lines: upload order is kept. */
  lemma {:induction false} AttachmentsAppend(decode: Bytes -> Option<Bytes>, a: seq<UploadLine>, b: seq<UploadLine>)
    requires AllReadable(decode, a) && AllReadable(decode, b)
    ensures AllReadable(decode, a + b)
    ensures Attachments(decode, a + b) == Attachments(decode, a) + Attachments(decode, b)
    decreases |b|
  {
    assert AllReadable(decode, a + b) by {
      forall i | 0 <= i < |a + b| ensures LineReadable(decode, (a + b)[i]) {
        if i < |a| { assert (a + b)[i] == a[i]; } else { assert (a + b)[i] == b[i - |a|]; }
      }
    }
    if b == [] {
      assert a + b == a;
    } else {
      var b' := b[..|b| - 1];
      assert AllReadable(decode, b');
      assert (a + b)[..|a + b| - 1] == a + b';
      AttachmentsAppend(decode, a, b');
    }
  }

  /**
   * A single readable upload is appended exactly when its content is non-empty
   * and its name ends in ".pdf" in any case.
   */
  lemma AttachmentOfOne(decode: Bytes -> Option<Bytes>, line: UploadLine)
    requires LineReadable(decode, line)
    ensures AllReadable(decode, [line])
    ensures Attachments(decode, [line]) ==
      if line.upload != [] && HasPdfSuffix(line.fileName.value) then [decode(line.upload).value] else []
  {
  }

  /** A skipped upload (empty, or not named ".pdf") leaves the merge list as it was. */
  lemma SkippedUploadChangesNothing(decode: Bytes -> Option<Bytes>, a: seq<UploadLine>,
                                    line: UploadLine, b: seq<UploadLine>)
    requires AllReadable(decode, a) && LineReadable(decode, line) && AllReadable(decode, b)
    requires line.upload == [] || !HasPdfSuffix(line.fileName.value)
    ensures AllReadable(decode, a + [line] + b) && AllReadable(decode, a + b)
    ensures Attachments(decode, a + [line] + b) == Attachments(decode, a + b)
  {
    AttachmentOfOne(decode, line);
    AttachmentsAppend(decode, a, [line]);
    AttachmentsAppend(decode, a + [line], b);
    AttachmentsAppend(decode, a, b);
  }

  /**
   * The decoded content of PDF upload `i` appears in the merge list right after
   * the PDF uploads before it (and after the report at index 0).
   */
  lemma AttachmentAt(decode: Bytes -> Option<Bytes>, result: Bytes, lines: seq<UploadLine>, i: nat)
    requires AllReadable(decode, lines)
    requires i < |lines| && IsPdfUpload(lines[i])
    ensures AllReadable(decode, lines[..i])
    ensures MergeList(decode, result, lines).Success?
    ensures 1 + |Attachments(decode, lines[..i])| < |MergeList(decode, result, lines).value|
    ensures MergeList(decode, result, lines).value[1 + |Attachments(decode, lines[..i])|]
            == decode(lines[i].upload).value
  {
    var before, here, after := lines[..i], [lines[i]], lines[i + 1..];
    assert AllReadable(decode, before) && AllReadable(decode, after);
    assert lines == before + here + after;
    AttachmentOfOne(decode, lines[i]);
    AttachmentsAppend(decode, before, here);
    AttachmentsAppend(decode, before + here, after);
  }

  /** Every entry after the report is the decoded content of some PDF upload. */
  lemma {:induction false} AttachmentsComeFromPdfUploads(decode: Bytes -> Option<Bytes>,
                                                         lines: seq<UploadLine>, k: nat)
    requires AllReadable(decode, lines) && k < |Attachments(decode, lines)|
    ensures exists i :: 0 <= i < |lines| && IsPdfUpload(lines[i])
                        && Attachments(decode, lines)[k] == decode(lines[i].upload).value
    decreases |lines|
  {
    var n := |lines| - 1;
    var init := lines[..n];
    assert AllReadable(decode, init);
    if k < |Attachments(decode, init)| {
      AttachmentsComeFromPdfUploads(decode, init, k);
      var i :| 0 <= i < |init| && IsPdfUpload(init[i])
               && Attachments(decode, init)[k] == decode(init[i].upload).value;
      assert lines[i] == init[i];
    } else {
      assert IsPdfUpload(lines[n]) && Attachments(decode, lines)[k] == decode(lines[n].upload).value;
    }
  }

  /** With no PDF among the uploads, nothing is appended. */
  lemma {:induction false} NoPdfUploadsNoAttachments(decode: Bytes -> Option<Bytes>, lines: seq<UploadLine>)
    requires AllReadable(decode, lines)
    requires forall i :: 0 <= i < |lines| ==> !IsPdfUpload(lines[i])
    ensures Attachments(decode, lines) == []
    decreases |lines|
  {
    if lines != [] {
      var init := lines[..|lines| - 1];
      assert AllReadable(decode, init);
      assert forall i :: 0 <= i < |init| ==> !IsPdfUpload(init[i]) by {
        forall i | 0 <= i < |init| ensures !IsPdfUpload(init[i]) { assert init[i] == lines[i]; }
      }
      NoPdfUploadsNoAttachments(decode, init);
    }
  }

  /** The generated report is always first in the merge list; the PDF uploads follow it. */
  lemma MergeListStartsWithReport(decode: Bytes -> Option<Bytes>, result: Bytes, lines: seq<UploadLine>)
    requires AllReadable(decode, lines)
    ensures MergeList(decode, result, lines).Success?
    ensures |MergeList(decode, result, lines).value| == 1 + |Attachments(decode, lines)|
    ensures MergeList(decode, result, lines).value[0] == result
    ensures MergeList(decode, result, lines).value[1..] == Attachments(decode, lines)
  {
  }

  /** Without an upload record, or with one that has no lines, the rendered report is returned as is. */
  lemma NoUploadLinesKeepsReport(parse: Bytes -> Option<seq<Page>>, serialize: seq<Page> -> Option<Bytes>,
                                 decode: Bytes -> Option<Bytes>, result: Bytes, record: Option<UploadRecord>)
    requires record.None? || record.value.uploadLines == []
    ensures RunSpec(parse, serialize, decode, result, record) == Success(result)
  {
  }

  /**
   * A non-empty upload that does not decode aborts the whole call with the
   * upload error, whatever its name: decoding happens before the name test.
   */
  lemma DecodeFailureAborts(parse: Bytes -> Option<seq<Page>>, serialize: seq<Page> -> Option<Bytes>,
                            decode: Bytes -> Option<Bytes>, result: Bytes, record: UploadRecord, i: nat)
    requires i < |record.uploadLines|
    requires record.uploadLines[i].upload != [] && decode(record.uploadLines[i].upload).None?
    ensures RunSpec(parse, serialize, decode, result, Some(record)) == Failure(InvalidUploads)
    ensures RunSpec(parse, serialize, decode, result, Some(record)).error.Message()
            == "One or more uploaded files are not valid PDFs or images."
  {
  }

  /**
   * With upload lines but no PDF among them, the report alone is joined:
   * the output's pages are the report's.
   */
  lemma NoPdfUploadsJoinsReportAlone(parse: Bytes -> Option<seq<Page>>, serialize: seq<Page> -> Option<Bytes>,
                                     decode: Bytes -> Option<Bytes>, result: Bytes, record: UploadRecord)
    requires record.uploadLines != [] && AllReadable(decode, record.uploadLines)
    requires forall i :: 0 <= i < |record.uploadLines| ==> !IsPdfUpload(record.uploadLines[i])
    ensures RunSpec(parse, serialize, decode, result, Some(record)) == JoinSpec(parse, serialize, [result])
    ensures parse(result).Some? ==>
      RunSpec(parse, serialize, decode, result, Some(record)) == Written(serialize, parse(result).value)
    ensures parse(result).None? ==>
      RunSpec(parse, serialize, decode, result, Some(record)) == Failure(InvalidPdfFiles)
  {
    NoPdfUploadsNoAttachments(decode, record.uploadLines);
    assert [result] + [] == [result];
    if parse(result).Some? {
      FlattenSingle(parse, result);
    }
  }

  /**
   * When every upload is readable and every chunk parses, what is written out
   * is the report's pages followed by the pages of each PDF upload, in upload
   * order.
   */
  lemma MergedPages(parse: Bytes -> Option<seq<Page>>, serialize: seq<Page> -> Option<Bytes>,
                    decode: Bytes -> Option<Bytes>, result: Bytes, record: UploadRecord)
    requires record.uploadLines != [] && AllReadable(decode, record.uploadLines)
    requires parse(result).Some? && AllParse(parse, Attachments(decode, record.uploadLines))
    ensures RunSpec(parse, serialize, decode, result, Some(record))
            == Written(serialize, parse(result).value + Flatten(parse, Attachments(decode, record.uploadLines)))
  {
    var atts := Attachments(decode, record.uploadLines);
    FlattenSingle(parse, result);
    FlattenAppend(parse, [result], atts);
  }

  /** A PDF upload that decodes but does not parse makes the whole call fail with the PDF error. */
  lemma InvalidPdfUploadAborts(parse: Bytes -> Option<seq<Page>>, serialize: seq<Page> -> Option<Bytes>,
                               decode: Bytes -> Option<Bytes>, result: Bytes, record: UploadRecord, i: nat)
    requires AllReadable(decode, record.uploadLines)
    requires i < |record.uploadLines| && IsPdfUpload(record.uploadLines[i])
    requires parse(decode(record.uploadLines[i].upload).value).None?
    ensures RunSpec(parse, serialize, decode, result, Some(record)) == Failure(InvalidPdfFiles)
    ensures RunSpec(parse, serialize, decode, result, Some(record)).error.Message()
            == "One or more uploaded files are not valid PDF files."
  {
    AttachmentAt(decode, result, record.uploadLines, i);
    var chunks := MergeList(decode, result, record.uploadLines).value;
    JoinFailsOnInvalidChunk(parse, serialize, chunks, 1 + |Attachments(decode, record.uploadLines[..i])|);
  }
}
