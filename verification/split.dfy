/** `split_pdf`: one upload named `*.pdf` and an inclusive, 1-based page
    range; the artifact holds exactly the pages of that range, in order. */
module Split {
  import opened Http
  import opened PathText
  import opened Documents
  import opened TempStore
  import opened Handlers

  /** The range check and the page selection of the split handler: pages
      `start` to `end` of `doc`, both counted from 1 and both included, or the
      refusal naming the page count. */
  function PageRange(doc: Document, start: int, end: int): (r: Result<Document>)
    ensures r.Ok? <==> 1 <= start <= end <= |doc|
    ensures r.Err? ==> r.error == HttpError(BadRequest, PageRangeDetail(|doc|))
    ensures r.Ok? ==>
      && |r.value| == end - start + 1
      && forall i :: 0 <= i < |r.value| ==> r.value[i] == doc[start - 1 + i]
  {
    if start < 1 || end < start || end > |doc| then
      Err(HttpError(BadRequest, PageRangeDetail(|doc|)))
    else
      Ok(doc[start - 1..end])
  }

  /** The full range of a non-empty document is the document itself. */
  lemma PageRangeWhole(doc: Document)
    requires |doc| > 0
    ensures PageRange(doc, 1, |doc|) == Ok(doc)
  {
    assert PageRange(doc, 1, |doc|).value == doc;
  }

  /** Two adjacent ranges together select the same pages as the range that
      spans both. */
  lemma PageRangeAdjacent(doc: Document, a: int, m: int, b: int)
    requires 1 <= a <= m < b <= |doc|
    ensures PageRange(doc, a, m).Ok? && PageRange(doc, m + 1, b).Ok?
    ensures PageRange(doc, a, m).value + PageRange(doc, m + 1, b).value == PageRange(doc, a, b).value
  {
  }

  /** Splitting a merged document at the pages one upload contributed gives
      that upload back: the merge loses, reorders and duplicates nothing. */
  lemma SplitRecoversMergedPart(docs: seq<Document>, i: nat)
    requires i < |docs| && |docs[i]| > 0
    ensures PageRange(Concat(docs), Offset(docs, i) + 1, Offset(docs, i) + |docs[i]|) == Ok(docs[i])
  {
    ConcatSlice(docs, i);
  }

  /** Copies pages `start - 1` up to, but not including, `end` of `doc`
      (0-based), in order. */
  method CopyRange(doc: Document, start: int, end: int) returns (out: Document)
    requires 1 <= start <= end <= |doc|
    ensures PageRange(doc, start, end) == Ok(out)
  {
    out := [];
    var i := start - 1;
    while i < end
      invariant start - 1 <= i <= end
      invariant out == doc[start - 1..i]
    {
      out := out + [doc[i]];
      i := i + 1;
    }
  }

  /** The split handler. `id` is the identifier drawn when the upload is
      saved and `outId` the one drawn for the artifact. */
  method SplitPdf(store: Store, engine: Engine, file: Upload<Document>, startPage: int, endPage: int,
                  id: string, outId: string)
    returns (reply: Reply)
    requires IsUuid(id) && IsUuid(outId)
    ensures engine.Unavailable? ==>
      reply == Reply(Err(HttpError(ServerError, PdfEngineUnavailable + engine.reason)), store, [])
    // The name is checked before anything is saved.
    ensures engine.Available? && !IsPdfName(file.filename) ==>
      reply == Reply(Err(HttpError(BadRequest, SplitNeedsPdf)), store, [])
    // The page range is checked only after the upload was saved and read.
    ensures engine.Available? && IsPdfName(file.filename) ==>
      var range := PageRange(file.content, startPage, endPage);
      var out := ArtifactPath(SplitPrefix, outId);
      && reply.saved == [InputPath(id, file.filename)]
      && (range.Err? ==> reply.result == Err(range.error) && reply.store == Without(store, reply.saved))
      && (range.Ok? ==>
            && reply.store == Without(store, reply.saved)[out := Pdf(range.value)]
            && reply.result == Ok(MakeDownload(out, ArtifactName(SplitPrefix, outId))))
    ensures reply.result.Ok? <==>
      engine.Available? && IsPdfName(file.filename) && 1 <= startPage <= endPage <= |file.content|
    // With a fresh identifier the directory is as it was, plus the artifact.
    ensures FreshInputs(store, [file], [id]) && reply.result.Err? ==> reply.store == store
    ensures FreshInputs(store, [file], [id]) && reply.result.Ok? ==>
      reply.store == store[ArtifactPath(SplitPrefix, outId) := Pdf(PageRange(file.content, startPage, endPage).value)]
  {
    if engine.Unavailable? {
      return Reply(Err(HttpError(ServerError, PdfEngineUnavailable + engine.reason)), store, []);
    }
    if !IsPdfName(file.filename) {
      return Reply(Err(HttpError(BadRequest, SplitNeedsPdf)), store, []);
    }
    PdfNameStoredAsPdf(id, file.filename);
    var s := SaveUpload(store, file.filename, id, Pdf(file.content));
    var src := s.value.path;
    var st := s.value.store;
    var doc := st[src].pages;
    var total := |doc|;
    var result: Result<DownloadInfo>;
    var written := st;
    var pages: Document := [];
    if startPage < 1 || endPage < startPage || endPage > total {
      result := Err(HttpError(BadRequest, PageRangeDetail(total)));
    } else {
      pages := CopyRange(doc, startPage, endPage);
      var name := ArtifactName(SplitPrefix, outId);
      var outPath := Join(TempDir, name);
      written := st[outPath := Pdf(pages)];
      result := Ok(MakeDownload(outPath, name));
    }
    // The `finally` block.
    var saved := [src];
    var cleaned := RemoveSaved(written, saved);
    WrittenOverStep(store, store, [], src, Pdf(file.content));
    WrittenOverRemoved(store, st, saved);
    assert InputPaths([file], [id])[..1] == saved;
    ArtifactNotSaved(SplitPrefix, outId, [file], [id], 1);
    if result.Ok? {
      WithoutUpdate(st, saved, ArtifactPath(SplitPrefix, outId), Pdf(pages));
    }
    if FreshInputs(store, [file], [id]) {
      FreshInputsRemoved(store, [file], [id], 1);
    }
    reply := Reply(result, cleaned, saved);
  }
}
