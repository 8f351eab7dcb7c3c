/** The shared temporary directory: uploads are saved into it under generated
    names, artifacts are written into it, and the download handler resolves
    identifiers against it. The directory is a map from absolute path to the
    file stored there; an identifier is nothing more than a file name in it. */
module TempStore {
  import opened Http
  import opened PathText
  import opened Documents

  /** What a stored file holds: a PDF document or a raster image. */
  datatype Blob = Pdf(pages: Document) | Picture(image: Image)

  /** The files present on disk, by absolute path. */
  type Store = map<string, Blob>

  /** One uploaded file: the name the client claimed, and its content. */
  datatype Upload<C> = Upload(filename: string, content: C)

  /** The process-wide temporary root. */
  const TempDir: string := "/tmp/processed_files"

  /** The route prefix under which artifacts are downloaded. */
  const DownloadRoute: string := "/api/download/"

  const MissingFilename: string := "File must have a filename"
  const FileNotFound: string := "File not found or expired"
  const PdfMediaType: string := "application/pdf"

  lemma TempDirShape()
    ensures |TempDir| > 0 && TempDir[|TempDir| - 1] != '/'
  {
  }

  predicate IsHexDigit(c: char) {
    '0' <= c <= '9' || 'a' <= c <= 'f'
  }

  /** The text of `str(uuid.uuid4())`: 32 lower-case hex digits in groups of
      8-4-4-4-12 separated by `-`. The version and variant digits are not
      constrained further. */
  predicate IsUuid(s: string) {
    && |s| == 36
    && forall i :: 0 <= i < |s| ==>
         if i == 8 || i == 13 || i == 18 || i == 23 then s[i] == '-' else IsHexDigit(s[i])
  }

  /** An identifier has no `/`, and it starts with a hex digit. */
  lemma UuidShape(s: string)
    requires IsUuid(s)
    ensures '/' !in s && '.' !in s
    ensures IsHexDigit(s[0])
  {
    forall i | 0 <= i < |s|
      ensures s[i] != '/' && s[i] != '.'
    {
    }
  }

  /** The name `_save_upload` stores a file under: the generated identifier,
      a `.`, and the extension kept from the claimed name. */
  function StoredName(id: string, filename: string): string {
    id + "." + Extension(filename)
  }

  /** The absolute path `_save_upload` stores a file at. */
  function InputPath(id: string, filename: string): string {
    Join(TempDir, StoredName(id, filename))
  }

  /** A generated name lands directly under the temporary root. */
  lemma InputPathShape(id: string, filename: string)
    requires IsUuid(id)
    ensures '/' !in StoredName(id, filename)
    ensures InputPath(id, filename) == TempDir + "/" + StoredName(id, filename)
  {
    UuidShape(id);
    ExtensionShape(filename);
    var n := StoredName(id, filename);
    assert n == id + ("." + Extension(filename));
    TempDirShape();
    JoinChild(TempDir, n);
  }

  datatype Saved = Saved(path: string, store: Store)

  /** `_save_upload`: refuses an empty claimed name; otherwise writes the
      content to a fresh name under the temporary root that keeps only the
      lower-cased extension of the claimed name. */
  function SaveUpload(store: Store, filename: string, id: string, content: Blob): (r: Result<Saved>)
    requires IsUuid(id)
    ensures r.Err? <==> filename == ""
    ensures r.Err? ==> r.error == HttpError(BadRequest, MissingFilename)
    ensures r.Ok? ==>
      && r.value.path == InputPath(id, filename)
      && r.value.store == store[r.value.path := content]
  {
    if filename == "" then
      Err(HttpError(BadRequest, MissingFilename))
    else
      var path := InputPath(id, filename);
      Ok(Saved(path, store[path := content]))
  }

  /** The JSON body `_make_download` returns. */
  datatype DownloadInfo = DownloadInfo(fileId: string, filename: string, downloadUrl: string)

  /** `_make_download`: the identifier is the last path component of the
      artifact, and the download URL is the route followed by it. */
  function MakeDownload(path: string, suggested: string): (r: DownloadInfo)
    ensures '/' !in r.fileId
    ensures EndsWith(path, r.fileId)
    ensures |r.fileId| < |path| ==> path[|path| - |r.fileId| - 1] == '/'
    ensures r.filename == suggested
    ensures |r.downloadUrl| == |DownloadRoute| + |r.fileId|
    ensures r.downloadUrl[..|DownloadRoute|] == DownloadRoute
    ensures r.downloadUrl[|DownloadRoute|..] == r.fileId
  {
    AfterLastShape(path, '/');
    var id := Basename(path);
    DownloadInfo(id, suggested, DownloadRoute + id)
  }

  /** What `download_file` streams back. */
  datatype Served = Served(path: string, filename: string, mediaType: string, content: Blob)

  /** `download_file`: strips every directory part from the identifier,
      joins what is left to the temporary root, and serves that file as a
      PDF, or answers 404 when no file is there. */
  function DownloadFile(store: Store, fileId: string): (r: Result<Served>)
    ensures r.Ok? <==> TempDir + "/" + Basename(fileId) in store
    ensures r.Ok? ==>
      && r.value.filename == Basename(fileId)
      && '/' !in r.value.filename
      && r.value.path == TempDir + "/" + r.value.filename
      && r.value.path in store && r.value.content == store[r.value.path]
      && r.value.mediaType == PdfMediaType
    ensures r.Err? ==> r.error == HttpError(NotFound, FileNotFound)
  {
    var safeName := Basename(fileId);
    DownloadPath(fileId);
    var path := Join(TempDir, safeName);
    if path !in store then
      Err(HttpError(NotFound, FileNotFound))
    else
      Ok(Served(path, safeName, PdfMediaType, store[path]))
  }

  /** The path `download_file` looks up is the sanitised name directly below
      the temporary root. */
  lemma DownloadPath(fileId: string)
    ensures '/' !in Basename(fileId)
    ensures Join(TempDir, Basename(fileId)) == TempDir + "/" + Basename(fileId)
  {
    AfterLastFree(fileId, '/');
    TempDirShape();
    JoinChild(TempDir, Basename(fileId));
  }

  /** Whatever directory part a client puts in front of an identifier, the
      download looks up the same name: only the last `/`-free component of
      the identifier is joined to the temporary root. That component may
      still be `..` or empty. */
  lemma DownloadIgnoresDirectory(store: Store, dir: string, fileId: string)
    ensures DownloadFile(store, dir + "/" + fileId) == DownloadFile(store, fileId)
  {
    BasenameIgnoresDirectory(dir, fileId);
  }

  /** An artifact written under a plain name directly below the temporary
      root is found again through the identifier `_make_download` hands out,
      with the content that was written. */
  lemma DownloadAfterMakeDownload(store: Store, name: string, suggested: string, content: Blob)
    requires '/' !in name
    ensures var path := Join(TempDir, name);
      DownloadFile(store[path := content], MakeDownload(path, suggested).fileId)
        == Ok(Served(path, name, PdfMediaType, content))
  {
    TempDirShape();
    JoinChild(TempDir, name);
    var path := TempDir + "/" + name;
    BasenameOfChild(TempDir, name);
    var info := MakeDownload(path, suggested);
    assert info.fileId == name;
    assert Basename(name) == name by {
      AfterLastShape(name, '/');
      assert name[|name| - |name|..] == name;
      AfterLastUnique(name, '/', name);
    }
  }

  /** The store with every listed path removed. */
  function Without(store: Store, paths: seq<string>): (r: Store)
    ensures forall p :: p in r <==> p in store && p !in paths
    ensures forall p :: p in r ==> r[p] == store[p]
  {
    map p | p in store && p !in paths :: store[p]
  }

  /** Removing paths that were not there to begin with changes nothing. */
  lemma WithoutAbsent(store: Store, paths: seq<string>)
    requires forall i :: 0 <= i < |paths| ==> paths[i] !in store
    ensures Without(store, paths) == store
  {
    assert Without(store, paths).Keys == store.Keys;
  }

  /** Writing a path that is not listed commutes with removing the listed
      ones. */
  lemma WithoutUpdate(a: Store, paths: seq<string>, path: string, content: Blob)
    requires path !in paths
    ensures Without(a[path := content], paths) == Without(a, paths)[path := content]
  {
  }

  /** `st` is `store` with the listed paths written: every other file is
      untouched, and nothing else appeared. */
  ghost predicate WrittenOver(store: Store, st: Store, written: seq<string>) {
    && (forall p :: p in st <==> p in store || p in written)
    && (forall p :: p in store && p !in written ==> st[p] == store[p])
  }

  /** Writing one more path keeps `WrittenOver`, with that path listed. */
  lemma WrittenOverStep(store: Store, st: Store, written: seq<string>, path: string, content: Blob)
    requires WrittenOver(store, st, written)
    ensures WrittenOver(store, st[path := content], written + [path])
  {
  }

  /** Once the written paths are removed again, the directory is as it was
      before they were written, apart from the listed paths themselves. */
  lemma WrittenOverRemoved(store: Store, st: Store, written: seq<string>)
    requires WrittenOver(store, st, written)
    ensures Without(st, written) == Without(store, written)
  {
  }

  /** The `finally` block of a handler: remove every saved input, one after
      the other. A path that is already gone is skipped, as the source
      swallows the error `os.remove` raises for it. */
  method RemoveSaved(store: Store, saved: seq<string>) returns (r: Store)
    ensures r == Without(store, saved)
  {
    r := store;
    var j := 0;
    while j < |saved|
      invariant 0 <= j <= |saved|
      invariant r == Without(store, saved[..j])
    {
      assert saved[..j + 1] == saved[..j] + [saved[j]];
      r := r - {saved[j]};
      j := j + 1;
    }
    assert saved[..j] == saved;
  }
}
