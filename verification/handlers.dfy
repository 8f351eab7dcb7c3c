/** What the merge, split and images-to-PDF handlers share: their messages
    and artifact prefixes, the name checks they apply to uploads, the index
    of the first refused upload, the generated input paths and when they are
    fresh, and the facts that keep an artifact apart from the inputs the
    cleanup removes. */
module Handlers {
  import opened Http
  import opened PathText
  import opened Documents
  import opened TempStore

  /** What a handler answers, the directory it leaves behind, and the paths
      of the inputs it saved during the request, in the order it saved them. */
  datatype Reply = Reply(result: Result<DownloadInfo>, store: Store, saved: seq<string>)

  const PdfEngineUnavailable: string := "PDF engine unavailable: "
  const ImageEngineUnavailable: string := "Image engine unavailable: "
  const TooFewPdfs: string := "Please upload at least two PDF files to merge"
  const NotAPdf: string := " is not a PDF"
  const SplitNeedsPdf: string := "Uploaded file must be a PDF"
  const NoImages: string := "Please upload at least one image"
  const UnsupportedImage: string := "Unsupported image format: "

  const MergedPrefix: string := "merged_"
  const SplitPrefix: string := "split_"
  const ImagesPrefix: string := "images_"

  /** The suffixes the images-to-PDF handler accepts, after lower-casing. */
  const ImageSuffixes: seq<string> := [".png", ".jpg", ".jpeg", ".webp", ".bmp"]

  /** The extensions under which accepted images are stored. */
  const ImageExtensions: seq<string> := ["png", "jpg", "jpeg", "webp", "bmp"]

  /** The merge and split test: the lower-cased claimed name ends in `.pdf`. */
  predicate IsPdfName(filename: string) {
    EndsWith(Lower(filename), ".pdf")
  }

  /** The images-to-PDF test: the lower-cased claimed name ends in one of the
      supported suffixes. */
  predicate IsImageName(filename: string) {
    exists k :: 0 <= k < |ImageSuffixes| && EndsWith(Lower(filename), ImageSuffixes[k])
  }

  /** The detail of a rejected page range; it carries the page count. */
  function PageRangeDetail(total: nat): string {
    "Invalid page range. Document has " + NatToString(total) + " pages."
  }

  /** The file name of an artifact: a handler-specific prefix, a fresh
      identifier and `.pdf`. */
  function ArtifactName(prefix: string, outId: string): string {
    prefix + outId + ".pdf"
  }

  function ArtifactPath(prefix: string, outId: string): string {
    Join(TempDir, ArtifactName(prefix, outId))
  }

  /** The index of the first upload whose claimed name `accepts` refuses, or
      the number of uploads when it refuses none. */
  function FirstRejected<C>(files: seq<Upload<C>>, accepts: string -> bool): (k: nat)
    ensures k <= |files|
    ensures forall j :: 0 <= j < k ==> accepts(files[j].filename)
    ensures k < |files| ==> !accepts(files[k].filename)
    decreases |files|
  {
    if |files| == 0 then 0
    else if !accepts(files[0].filename) then 0
    else 1 + FirstRejected(files[1..], accepts)
  }

  /** The contents of the uploads, in order. */
  function Contents<C>(files: seq<Upload<C>>): (cs: seq<C>)
    ensures |cs| == |files|
    ensures forall i :: 0 <= i < |files| ==> cs[i] == files[i].content
  {
    seq(|files|, i requires 0 <= i < |files| => files[i].content)
  }

  /** The paths `_save_upload` would store each upload at, given its
      identifier. */
  function InputPaths<C>(files: seq<Upload<C>>, ids: seq<string>): (ps: seq<string>)
    requires |ids| == |files|
    ensures |ps| == |files|
    ensures forall i :: 0 <= i < |files| ==> ps[i] == InputPath(ids[i], files[i].filename)
  {
    seq(|files|, i requires 0 <= i < |files| => InputPath(ids[i], files[i].filename))
  }

  /** No upload of the request would overwrite a file already present: what
      drawing the identifiers from `uuid4` is relied on to ensure. */
  predicate FreshInputs<C>(store: Store, files: seq<Upload<C>>, ids: seq<string>)
    requires |ids| == |files|
  {
    forall i :: 0 <= i < |files| ==> InputPath(ids[i], files[i].filename) !in store
  }

  /** A name the merge or split handler accepts is not empty, so the
      `_save_upload` refusal of a missing name never fires for it, and the
      upload is stored under `<id>.pdf`. */
  lemma PdfNameStoredAsPdf(id: string, filename: string)
    requires IsPdfName(filename)
    ensures filename != ""
    ensures StoredName(id, filename) == id + ".pdf"
  {
    ExtensionOfSuffix(filename, "pdf");
  }

  /** A name the images-to-PDF handler accepts is not empty, and the upload is
      stored under `<id>.<ext>` with `ext` one of the supported extensions. */
  lemma ImageNameStoredWithImageExtension(id: string, filename: string)
    requires IsImageName(filename)
    ensures filename != ""
    ensures exists k :: 0 <= k < |ImageSuffixes| && StoredName(id, filename) == id + ImageSuffixes[k]
  {
    var k :| 0 <= k < |ImageSuffixes| && EndsWith(Lower(filename), ImageSuffixes[k]);
    var ext := ImageSuffixShape(k);
    StoredWithSuffix(id, filename, ImageSuffixes[k], ext);
  }

  /** The PDF test accepts a name exactly when its basename has a `.` and
      the extension `_save_upload` keeps for it is `pdf`. */
  lemma PdfNameByExtension(filename: string)
    ensures IsPdfName(filename) <==> '.' in Basename(filename) && Extension(filename) == "pdf"
  {
    ExtensionMatchesSuffix(filename, "pdf");
  }

  /** The image test accepts a name exactly when its basename has a `.` and
      the extension `_save_upload` keeps for it is one of the supported
      ones. */
  lemma ImageNameByExtension(filename: string)
    ensures IsImageName(filename) <==> '.' in Basename(filename) && Extension(filename) in ImageExtensions
  {
    forall k | 0 <= k < |ImageSuffixes|
      ensures EndsWith(Lower(filename), ImageSuffixes[k]) <==>
        '.' in Basename(filename) && Extension(filename) == ImageExtensions[k]
    {
      var ext := ImageSuffixShape(k);
      ExtensionMatchesSuffix(filename, ext);
    }
  }

  /** An upload whose lower-cased name ends in `.` and `ext` is stored under
      `<id>.<ext>`. */
  lemma StoredWithSuffix(id: string, filename: string, suffix: string, ext: string)
    requires suffix == "." + ext && '.' !in ext && '/' !in ext
    requires EndsWith(Lower(filename), suffix)
    ensures filename != ""
    ensures StoredName(id, filename) == id + suffix
  {
    ExtensionOfSuffix(filename, ext);
    assert id + "." + ext == id + ("." + ext);
  }

  /** Each supported suffix is a `.` followed by an extension free of `.` and
      `/`. */
  lemma ImageSuffixShape(k: nat) returns (ext: string)
    requires k < |ImageSuffixes|
    ensures k < |ImageExtensions| && ext == ImageExtensions[k]
    ensures ImageSuffixes[k] == "." + ext
    ensures '.' !in ext && '/' !in ext
  {
    if k == 0 {
      ext := "png";
    } else if k == 1 {
      ext := "jpg";
    } else if k == 2 {
      ext := "jpeg";
    } else if k == 3 {
      ext := "webp";
    } else {
      ext := "bmp";
    }
  }

  /** The error detail of a rejected split determines the page count. */
  lemma PageRangeDetailInjective(a: nat, b: nat)
    requires PageRangeDetail(a) == PageRangeDetail(b)
    ensures a == b
  {
    var prefix := "Invalid page range. Document has ";
    var da := PageRangeDetail(a);
    var db := PageRangeDetail(b);
    assert |NatToString(a)| == |NatToString(b)|;
    var n := |NatToString(a)|;
    assert da[|prefix|..|prefix| + n] == NatToString(a);
    assert db[|prefix|..|prefix| + n] == NatToString(b);
    NatToStringInjective(a, b);
  }

  /** An artifact never lands on an input's path: the artifact name starts
      with a letter that is not a hex digit, an input name with a hex digit. */
  lemma ArtifactIsNotInput(prefix: string, outId: string, id: string, filename: string)
    requires prefix in {MergedPrefix, SplitPrefix, ImagesPrefix}
    requires IsUuid(outId) && IsUuid(id)
    ensures '/' !in ArtifactName(prefix, outId)
    ensures ArtifactPath(prefix, outId) == TempDir + "/" + ArtifactName(prefix, outId)
    ensures ArtifactPath(prefix, outId) != InputPath(id, filename)
  {
    var name := ArtifactName(prefix, outId);
    UuidShape(outId);
    UuidShape(id);
    assert '/' !in name by {
      assert name == prefix + (outId + ".pdf");
    }
    TempDirShape();
    JoinChild(TempDir, name);
    InputPathShape(id, filename);
    var k := |TempDir| + 1;
    assert ArtifactPath(prefix, outId)[k] == name[0] == prefix[0];
    assert InputPath(id, filename)[k] == StoredName(id, filename)[0] == id[0];
  }

  /** No input saved during a request lies on the artifact's path. */
  lemma ArtifactNotSaved<C>(prefix: string, outId: string, files: seq<Upload<C>>, ids: seq<string>, k: nat)
    requires prefix in {MergedPrefix, SplitPrefix, ImagesPrefix}
    requires IsUuid(outId)
    requires |ids| == |files| && k <= |files|
    requires forall i :: 0 <= i < |ids| ==> IsUuid(ids[i])
    ensures ArtifactPath(prefix, outId) !in InputPaths(files, ids)[..k]
  {
    forall i | 0 <= i < k
      ensures InputPaths(files, ids)[i] != ArtifactPath(prefix, outId)
    {
      ArtifactIsNotInput(prefix, outId, ids[i], files[i].filename);
    }
  }

  /** With fresh identifiers, removing what a request saved restores the
      directory as it was before the request. */
  lemma FreshInputsRemoved<C>(store: Store, files: seq<Upload<C>>, ids: seq<string>, k: nat)
    requires |ids| == |files| && k <= |files|
    requires FreshInputs(store, files, ids)
    ensures Without(store, InputPaths(files, ids)[..k]) == store
  {
    WithoutAbsent(store, InputPaths(files, ids)[..k]);
  }

  /** Adds every page of `doc` to the writer, one at a time: the writer's
      pages are followed by all of `doc`, in order. */
  method AppendPages(pages: Document, doc: Document) returns (r: Document)
    ensures r == pages + doc
  {
    r := pages;
    var j := 0;
    while j < |doc|
      invariant 0 <= j <= |doc|
      invariant r == pages + doc[..j]
    {
      r := r + [doc[j]];
      j := j + 1;
    }
    assert doc[..j] == doc;
  }
}
