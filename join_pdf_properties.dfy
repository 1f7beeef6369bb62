/** What `join_pdf` guarantees about the pages of its output and about failure. */
module JoinProperties {
  import opened Wrappers
  import opened Pdf
  import opened Join

  /** Joining distributes over concatenation of the chunk list. */
  lemma {:induction false} FlattenAppend(parse: Bytes -> Option<seq<Page>>, a: seq<Bytes>, b: seq<Bytes>)
    requires AllParse(parse, a) && AllParse(parse, b)
    ensures AllParse(parse, a + b)
    ensures Flatten(parse, a + b) == Flatten(parse, a) + Flatten(parse, b)
    decreases |b|
  {
    assert AllParse(parse, a + b) by {
      forall i | 0 <= i < |a + b| ensures parse((a + b)[i]).Some? {
        if i < |a| { assert (a + b)[i] == a[i]; } else { assert (a + b)[i] == b[i - |a|]; }
      }
    }
    if b == [] {
      assert a + b == a;
    } else {
      var b' := b[..|b| - 1];
      assert AllParse(parse, b');
      assert (a + b)[..|a + b| - 1] == a + b';
      FlattenAppend(parse, a, b');
    }
  }

  /** A single chunk yields exactly its own pages. */
  lemma FlattenSingle(parse: Bytes -> Option<seq<Page>>, c: Bytes)
    requires parse(c).Some?
    ensures AllParse(parse, [c]) && Flatten(parse, [c]) == parse(c).value
  {
  }

  /** The output page count is the sum of the chunks' page counts. */
  lemma {:induction false} FlattenLength(parse: Bytes -> Option<seq<Page>>, chunks: seq<Bytes>)
    requires AllParse(parse, chunks)
    ensures |Flatten(parse, chunks)| == TotalPages(parse, chunks)
    decreases |chunks|
  {
    if chunks != [] {
      var rest := chunks[1..];
      assert AllParse(parse, rest);
      assert chunks == [chunks[0]] + rest;
      FlattenSingle(parse, chunks[0]);
      FlattenAppend(parse, [chunks[0]], rest);
      FlattenLength(parse, rest);
    }
  }

  /**
   * Page `k` of chunk `j` sits in the output right after all pages of the
   * chunks before `j`: chunk order and page order are both preserved, and no
   * page is dropped or duplicated.
   */
  lemma FlattenAt(parse: Bytes -> Option<seq<Page>>, chunks: seq<Bytes>, j: nat, k: nat)
    requires AllParse(parse, chunks)
    requires j < |chunks| && k < |parse(chunks[j]).value|
    ensures AllParse(parse, chunks[..j])
    ensures TotalPages(parse, chunks[..j]) + k < |Flatten(parse, chunks)|
    ensures Flatten(parse, chunks)[TotalPages(parse, chunks[..j]) + k] == parse(chunks[j]).value[k]
  {
    var before, here, after := chunks[..j], [chunks[j]], chunks[j + 1..];
    assert AllParse(parse, before) && AllParse(parse, after);
    assert chunks == before + here + after;
    FlattenSingle(parse, chunks[j]);
    FlattenAppend(parse, before, here);
    FlattenAppend(parse, before + here, after);
    FlattenLength(parse, before);
  }

  /** One unreadable chunk anywhere makes the whole join fail with the single PDF error. */
  lemma JoinFailsOnInvalidChunk(parse: Bytes -> Option<seq<Page>>, serialize: seq<Page> -> Option<Bytes>,
                                chunks: seq<Bytes>, i: nat)
    requires i < |chunks| && parse(chunks[i]).None?
    ensures JoinSpec(parse, serialize, chunks) == Failure(InvalidPdfFiles)
    ensures JoinSpec(parse, serialize, chunks).error.IsValidationError()
    ensures JoinSpec(parse, serialize, chunks).error.Message()
            == "One or more uploaded files are not valid PDF files."
  {
  }

  /**
   * When every chunk reads but writing the joined pages raises, the writer's
   * own exception escapes: it is not the ValidationError.
   */
  lemma JoinWriteFailureEscapes(parse: Bytes -> Option<seq<Page>>, serialize: seq<Page> -> Option<Bytes>,
                                chunks: seq<Bytes>)
    requires AllParse(parse, chunks) && serialize(Flatten(parse, chunks)).None?
    ensures JoinSpec(parse, serialize, chunks) == Failure(WriteFailed)
    ensures !JoinSpec(parse, serialize, chunks).error.IsValidationError()
  {
  }

  /**
   * When writing succeeds and the writer's output reads back as the pages
   * written to it, the joined document has as many pages as all the chunks
   * together.
   */
  lemma JoinedPageCount(parse: Bytes -> Option<seq<Page>>, serialize: seq<Page> -> Option<Bytes>,
                        chunks: seq<Bytes>)
    requires AllParse(parse, chunks) && serialize(Flatten(parse, chunks)).Some?
    requires parse(serialize(Flatten(parse, chunks)).value) == Some(Flatten(parse, chunks))
    ensures JoinSpec(parse, serialize, chunks).Success?
    ensures parse(JoinSpec(parse, serialize, chunks).value).Some?
    ensures |parse(JoinSpec(parse, serialize, chunks).value).value| == TotalPages(parse, chunks)
  {
    FlattenLength(parse, chunks);
  }

  /**
   * Merging [a, b] gives a's pages then b's; merging [b, a] gives them the
   * other way round. A two-chunk corollary of FlattenAppend and FlattenSingle.
   */
  lemma JoinOrder(parse: Bytes -> Option<seq<Page>>, a: Bytes, b: Bytes)
    requires parse(a).Some? && parse(b).Some?
    ensures AllParse(parse, [a, b]) && Flatten(parse, [a, b]) == parse(a).value + parse(b).value
    ensures AllParse(parse, [b, a]) && Flatten(parse, [b, a]) == parse(b).value + parse(a).value
  {
    FlattenSingle(parse, a);
    FlattenSingle(parse, b);
    assert [a, b] == [a] + [b] && [b, a] == [b] + [a];
    FlattenAppend(parse, [a], [b]);
    FlattenAppend(parse, [b], [a]);
  }

  /**
   * A document listed twice contributes its pages twice: nothing is
   * deduplicated. The case a == b of JoinOrder.
   */
  lemma JoinKeepsDuplicates(parse: Bytes -> Option<seq<Page>>, c: Bytes)
    requires parse(c).Some?
    ensures AllParse(parse, [c, c]) && Flatten(parse, [c, c]) == parse(c).value + parse(c).value
  {
    JoinOrder(parse, c, c);
  }
}
