/** `images_to_pdf`: at least one upload, each named with a supported image
    suffix; every upload is converted to RGB and becomes one page of the
    artifact, in the order supplied. The image engine's colour conversion
    (`toRgb`) and its encoding of an image as a PDF page (`toPage`) are
    parameters of the model. */
module ImagesToPdf {
  import opened Http
  import opened PathText
  import opened Documents
  import opened TempStore
  import opened Handlers

  /** The reference result: page `i` is image `i`, converted and encoded. */
  function ImagePages(images: seq<Upload<Image>>, toRgb: Image -> Image, toPage: Image -> Page): (d: Document)
    ensures |d| == |images|
    ensures forall i :: 0 <= i < |images| ==> d[i] == toPage(toRgb(images[i].content))
  {
    seq(|images|, i requires 0 <= i < |images| => toPage(toRgb(images[i].content)))
  }

  /** The uploads opened and converted to RGB, in order. */
  function Converted(images: seq<Upload<Image>>, toRgb: Image -> Image): (r: seq<Image>)
    ensures |r| == |images|
    ensures forall i :: 0 <= i < |images| ==> r[i] == toRgb(images[i].content)
  {
    seq(|images|, i requires 0 <= i < |images| => toRgb(images[i].content))
  }

  /** Converting one more upload appends its conversion. */
  lemma ConvertedStep(images: seq<Upload<Image>>, toRgb: Image -> Image, i: nat)
    requires i < |images|
    ensures Converted(images[..i + 1], toRgb) == Converted(images[..i], toRgb) + [toRgb(images[i].content)]
  {
  }

  /** Saving the first image as a PDF with the rest appended: one page for
      `first`, then one page per image of `rest`, in order. */
  function SaveAll(first: Image, rest: seq<Image>, toPage: Image -> Page): (d: Document)
    ensures |d| == 1 + |rest|
    ensures d[0] == toPage(first)
    ensures forall i :: 0 <= i < |rest| ==> d[i + 1] == toPage(rest[i])
  {
    [toPage(first)] + seq(|rest|, i requires 0 <= i < |rest| => toPage(rest[i]))
  }

  /** Converting two batches separately and merging the two PDFs gives the
      same pages as converting both batches in one request. */
  lemma MergeOfImageBatches(a: seq<Upload<Image>>, b: seq<Upload<Image>>, toRgb: Image -> Image, toPage: Image -> Page)
    ensures Concat([ImagePages(a, toRgb, toPage), ImagePages(b, toRgb, toPage)]) == ImagePages(a + b, toRgb, toPage)
  {
    var pa := ImagePages(a, toRgb, toPage);
    var pb := ImagePages(b, toRgb, toPage);
    var docs := [pa, pb];
    assert ConcatUpTo(docs, 1) == pa;
    assert Concat(docs) == pa + pb;
    var both := ImagePages(a + b, toRgb, toPage);
    forall i | 0 <= i < |both|
      ensures (pa + pb)[i] == both[i]
    {
      if i >= |a| {
        assert (a + b)[i] == b[i - |a|];
      }
    }
  }

  /** One accepted upload: save it, open it with the image engine and convert
      it to RGB. */
  method SaveAndConvert(store: Store, f: Upload<Image>, id: string, toRgb: Image -> Image)
    returns (st: Store, p: string, pil: Image)
    requires IsUuid(id)
    requires IsImageName(f.filename)
    ensures p == InputPath(id, f.filename)
    ensures st == store[p := Picture(f.content)]
    ensures pil == toRgb(f.content)
  {
    ImageNameStoredWithImageExtension(id, f.filename);
    var s := SaveUpload(store, f.filename, id, Picture(f.content));
    p := s.value.path;
    st := s.value.store;
    pil := toRgb(st[p].image);
  }

  /** The loop of the images-to-PDF handler: check each upload's name, save
      it, and open and convert it, stopping at the first unsupported one. */
  method SaveAndOpen(store: Store, images: seq<Upload<Image>>, ids: seq<string>, toRgb: Image -> Image)
    returns (st: Store, saved: seq<string>, pil: seq<Image>, failure: Option<HttpError>)
    requires |ids| == |images|
    requires forall i :: 0 <= i < |ids| ==> IsUuid(ids[i])
    ensures var k := FirstRejected(images, IsImageName);
      && saved == InputPaths(images, ids)[..k]
      && (failure.Some? <==> k < |images|)
      && (failure.Some? ==> failure.value == HttpError(BadRequest, UnsupportedImage + images[k].filename))
      && pil == Converted(images[..k], toRgb)
    ensures WrittenOver(store, st, saved)
  {
    ghost var k := FirstRejected(images, IsImageName);
    ghost var paths := InputPaths(images, ids);
    st := store;
    saved := [];
    pil := [];
    failure := None;
    var i := 0;
    while i < |images| && failure.None?
      invariant 0 <= i <= k
      invariant failure.Some? ==>
        i == k < |images| && failure.value == HttpError(BadRequest, UnsupportedImage + images[i].filename)
      invariant saved == paths[..i]
      invariant WrittenOver(store, st, saved)
      invariant pil == Converted(images[..i], toRgb)
      decreases |images| - i, if failure.None? then 1 else 0
    {
      var f := images[i];
      if !IsImageName(f.filename) {
        failure := Some(HttpError(BadRequest, UnsupportedImage + f.filename));
      } else {
        var p, st', im;
        st', p, im := SaveAndConvert(st, f, ids[i], toRgb);
        WrittenOverStep(store, st, saved, p, Picture(f.content));
        st := st';
        saved := saved + [p];
        pil := pil + [im];
        PrefixStep(paths, i);
        ConvertedStep(images, toRgb, i);
        i := i + 1;
      }
    }
  }

  /** The second loop of the `finally` block: `im.close()` for every
      converted image, in order. A failing close is swallowed by the source
      and is not modelled. */
  method CloseAll(pil: seq<Image>) returns (closed: seq<Image>)
    ensures closed == pil
  {
    closed := [];
    var j := 0;
    while j < |pil|
      invariant 0 <= j <= |pil|
      invariant closed == pil[..j]
    {
      closed := closed + [pil[j]];
      j := j + 1;
    }
  }

  /** The images-to-PDF handler. `ids[i]` is the identifier drawn when upload
      `i` is saved and `outId` the one drawn for the artifact. `closed` lists
      the converted images the handler closes on its way out. */
  method ImagesToPdf(store: Store, engine: Engine, images: seq<Upload<Image>>, ids: seq<string>, outId: string,
                     toRgb: Image -> Image, toPage: Image -> Page)
    returns (reply: Reply, closed: seq<Image>)
    requires |ids| == |images|
    requires forall i :: 0 <= i < |ids| ==> IsUuid(ids[i])
    requires IsUuid(outId)
    ensures engine.Unavailable? ==>
      reply == Reply(Err(HttpError(ServerError, ImageEngineUnavailable + engine.reason)), store, [])
    ensures engine.Available? && |images| == 0 ==>
      reply == Reply(Err(HttpError(BadRequest, NoImages)), store, [])
    // Nothing is opened before the `try`; inside it, every image converted
    // before the loop stopped is closed, on success and on refusal alike.
    ensures engine.Unavailable? || |images| == 0 ==> closed == []
    ensures engine.Available? && |images| > 0 ==>
      closed == Converted(images[..FirstRejected(images, IsImageName)], toRgb)
    // Uploads are checked one at a time, each before it is saved.
    ensures engine.Available? && |images| > 0 ==>
      var k := FirstRejected(images, IsImageName);
      && reply.saved == InputPaths(images, ids)[..k]
      && (k < |images| ==> reply.result == Err(HttpError(BadRequest, UnsupportedImage + images[k].filename)))
    ensures reply.result.Ok? <==>
      engine.Available? && |images| > 0 && forall i :: 0 <= i < |images| ==> IsImageName(images[i].filename)
    ensures reply.result.Err? ==> reply.store == Without(store, reply.saved)
    ensures reply.result.Ok? ==>
      var out := ArtifactPath(ImagesPrefix, outId);
      && reply.store == Without(store, reply.saved)[out := Pdf(ImagePages(images, toRgb, toPage))]
      && reply.result.value == MakeDownload(out, ArtifactName(ImagesPrefix, outId))
    ensures FreshInputs(store, images, ids) && reply.result.Err? ==> reply.store == store
    ensures FreshInputs(store, images, ids) && reply.result.Ok? ==>
      reply.store == store[ArtifactPath(ImagesPrefix, outId) := Pdf(ImagePages(images, toRgb, toPage))]
  {
    if engine.Unavailable? {
      return Reply(Err(HttpError(ServerError, ImageEngineUnavailable + engine.reason)), store, []), [];
    }
    if |images| == 0 {
      return Reply(Err(HttpError(BadRequest, NoImages)), store, []), [];
    }
    var st, saved, pil, failure := SaveAndOpen(store, images, ids, toRgb);
    ghost var i := |saved|;
    var result: Result<DownloadInfo>;
    var written := st;
    var doc: Document := [];
    ArtifactNotSaved(ImagesPrefix, outId, images, ids, i);
    if failure.Some? {
      result := Err(failure.value);
    } else {
      var name := ArtifactName(ImagesPrefix, outId);
      var outPath := Join(TempDir, name);
      var first, rest := pil[0], pil[1..];
      doc := SaveAll(first, rest, toPage);
      assert images[..|images|] == images;
      assert doc == ImagePages(images, toRgb, toPage) by {
        forall j | 1 <= j < |doc|
          ensures doc[j] == toPage(pil[j])
        {
          assert rest[j - 1] == pil[j];
        }
      }
      written := st[outPath := Pdf(doc)];
      result := Ok(MakeDownload(outPath, name));
    }
    // The `finally` block.
    var cleaned := RemoveSaved(written, saved);
    closed := CloseAll(pil);
    WrittenOverRemoved(store, st, saved);
    if failure.None? {
      WithoutUpdate(st, saved, ArtifactPath(ImagesPrefix, outId), Pdf(doc));
    }
    if FreshInputs(store, images, ids) {
      FreshInputsRemoved(store, images, ids, i);
    }
    reply := Reply(result, cleaned, saved);
  }
}
