/** `merge_pdfs`: at least two uploads, each named `*.pdf`; the artifact holds
    every page of every upload, upload by upload, in the order supplied. */
module Merge {
  import opened Http
  import opened PathText
  import opened Documents
  import opened TempStore
  import opened Handlers

  /** The merge handler. `ids[i]` is the identifier drawn when upload `i` is
      saved and `outId` the one drawn for the artifact. */
  method MergePdfs(store: Store, engine: Engine, files: seq<Upload<Document>>, ids: seq<string>, outId: string)
    returns (reply: Reply)
    requires |ids| == |files|
    requires forall i :: 0 <= i < |ids| ==> IsUuid(ids[i])
    requires IsUuid(outId)
    // The engine is imported before anything is looked at.
    ensures engine.Unavailable? ==>
      reply == Reply(Err(HttpError(ServerError, PdfEngineUnavailable + engine.reason)), store, [])
    // Fewer than two uploads: refused before anything is saved.
    ensures engine.Available? && |files| < 2 ==>
      reply == Reply(Err(HttpError(BadRequest, TooFewPdfs)), store, [])
    // Uploads are checked one at a time, each before it is saved: exactly
    // those in front of the first non-PDF were saved, and that one names
    // the refusal.
    ensures engine.Available? && |files| >= 2 ==>
      var k := FirstRejected(files, IsPdfName);
      && reply.saved == InputPaths(files, ids)[..k]
      && (k < |files| ==> reply.result == Err(HttpError(BadRequest, files[k].filename + NotAPdf)))
    ensures reply.result.Ok? <==>
      engine.Available? && |files| >= 2 && forall i :: 0 <= i < |files| ==> IsPdfName(files[i].filename)
    // Every exit path removes every saved input, and nothing else changes
    // except the artifact written on success.
    ensures reply.result.Err? ==> reply.store == Without(store, reply.saved)
    ensures reply.result.Ok? ==>
      var out := ArtifactPath(MergedPrefix, outId);
      && reply.store == Without(store, reply.saved)[out := Pdf(Concat(Contents(files)))]
      && reply.result.value == MakeDownload(out, ArtifactName(MergedPrefix, outId))
    // With fresh identifiers the directory is as it was, plus the artifact.
    ensures FreshInputs(store, files, ids) && reply.result.Err? ==> reply.store == store
    ensures FreshInputs(store, files, ids) && reply.result.Ok? ==>
      reply.store == store[ArtifactPath(MergedPrefix, outId) := Pdf(Concat(Contents(files)))]
  {
    if engine.Unavailable? {
      return Reply(Err(HttpError(ServerError, PdfEngineUnavailable + engine.reason)), store, []);
    }
    if |files| < 2 {
      return Reply(Err(HttpError(BadRequest, TooFewPdfs)), store, []);
    }
    var st, saved, pages, failure := SaveAndRead(store, files, ids);
    ghost var i := |saved|;
    var result: Result<DownloadInfo>;
    var written := st;
    ArtifactNotSaved(MergedPrefix, outId, files, ids, i);
    if failure.Some? {
      result := Err(failure.value);
    } else {
      var name := ArtifactName(MergedPrefix, outId);
      var outPath := Join(TempDir, name);
      written := st[outPath := Pdf(pages)];
      result := Ok(MakeDownload(outPath, name));
    }
    // The `finally` block.
    var cleaned := RemoveSaved(written, saved);
    WrittenOverRemoved(store, st, saved);
    if failure.None? {
      WithoutUpdate(st, saved, ArtifactPath(MergedPrefix, outId), Pdf(pages));
    }
    if FreshInputs(store, files, ids) {
      FreshInputsRemoved(store, files, ids, i);
    }
    reply := Reply(result, cleaned, saved);
  }

  /** The loop of the merge handler: check each upload's name, save it, and
      append its pages to the writer, stopping at the first non-PDF. */
  method SaveAndRead(store: Store, files: seq<Upload<Document>>, ids: seq<string>)
    returns (st: Store, saved: seq<string>, pages: Document, failure: Option<HttpError>)
    requires |ids| == |files|
    requires forall i :: 0 <= i < |ids| ==> IsUuid(ids[i])
    ensures var k := FirstRejected(files, IsPdfName);
      && saved == InputPaths(files, ids)[..k]
      && (failure.Some? <==> k < |files|)
      && (failure.Some? ==> failure.value == HttpError(BadRequest, files[k].filename + NotAPdf))
    ensures WrittenOver(store, st, saved)
    ensures failure.None? ==> pages == Concat(Contents(files))
  {
    ghost var k := FirstRejected(files, IsPdfName);
    ghost var paths := InputPaths(files, ids);
    ghost var contents := Contents(files);
    st := store;
    saved := [];
    pages := [];
    failure := None;
    var i := 0;
    while i < |files| && failure.None?
      invariant 0 <= i <= k
      invariant failure.Some? ==> i == k < |files| && failure.value == HttpError(BadRequest, files[i].filename + NotAPdf)
      invariant saved == paths[..i]
      invariant WrittenOver(store, st, saved)
      invariant pages == ConcatUpTo(contents, i)
      decreases |files| - i, if failure.None? then 1 else 0
    {
      var f := files[i];
      if !IsPdfName(f.filename) {
        failure := Some(HttpError(BadRequest, f.filename + NotAPdf));
      } else {
        var p, st';
        st', p, pages := SaveAndAppend(st, f, ids[i], pages);
        WrittenOverStep(store, st, saved, p, Pdf(f.content));
        st := st';
        saved := saved + [p];
        PrefixStep(paths, i);
        i := i + 1;
      }
    }
  }

  /** One accepted upload: save it, read it back with the PDF engine, and
      append its pages to the writer. */
  method SaveAndAppend(store: Store, f: Upload<Document>, id: string, pages: Document)
    returns (st: Store, p: string, pages': Document)
    requires IsUuid(id)
    requires IsPdfName(f.filename)
    ensures p == InputPath(id, f.filename)
    ensures st == store[p := Pdf(f.content)]
    ensures pages' == pages + f.content
  {
    PdfNameStoredAsPdf(id, f.filename);
    var s := SaveUpload(store, f.filename, id, Pdf(f.content));
    p := s.value.path;
    st := s.value.store;
    pages' := AppendPages(pages, st[p].pages);
  }
}
