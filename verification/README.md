# PDF tools backend — a Dafny model

The model covers the request-handling core of a small PDF tools web service
(`main.py`). The service has three operation endpoints: merge several PDFs,
split a page range out of one PDF, and turn a batch of images into one PDF.
Each handler checks its uploads and saves the ones it accepts into a shared
temporary directory under generated names. It then builds one output
artifact, and removes every upload it saved on every exit path. A fourth
endpoint serves an artifact back by its identifier.

The model is functional:

- A document is a sequence of opaque pages. An image is an opaque value.
- The temporary directory is a map from absolute path to stored content.
  It is a map rather than a set of paths so that a download can be shown
  to return exactly what was written.
- Every handler returns the HTTP result, the directory it leaves behind, and
  the list of paths it saved.
- Generated identifiers are parameters. The handlers only require them to
  have the textual form of `str(uuid.uuid4())`.
- Whether the PDF or image engine could be imported is a parameter
  (`Engine`). So are the image engine's RGB conversion and page encoding.

Modules, one per file:

- `Http` (`http.dfy`): the error type, `Result`, `Option` and the engine flag.
- `PathText` (`path_text.dfy`): the text operations the handlers rely on:
  - POSIX `basename` and `join`;
  - `split(".")[-1]`;
  - ASCII `lower`;
  - `endswith`;
  - decimal formatting of a page count.
- `Documents` (`documents.dfy`): pages, images, and concatenation of
  documents.
- `TempStore` (`temp_store.dfy`): the directory, `_save_upload`,
  `_make_download`, `download_file` and the cleanup of a `finally` block.
- `Handlers` (`handlers.dfy`): what the three handlers share:
  - the messages;
  - the name checks;
  - artifact names;
  - the first-rejected-upload index;
  - freshness of identifiers.
- `Merge`, `Split`, `ImagesToPdf` (`merge.dfy`, `split.dfy`, `images.dfy`):
  the three handlers. Each is a method whose loops mirror the source's
  loops.

Two kinds of ensures describe each handler's resulting directory:

- Unconditionally: the original directory minus the paths it saved, plus
  the artifact on success.
- When no generated input path was already taken (`FreshInputs`, which is
  what drawing `uuid4` values is relied on for): exactly the original
  directory, plus the artifact on success.

## Model

| member | source | states |
|---|---|---|
| TempStore.SaveUpload | main.py:41-50 | An empty claimed name is refused with 400 "File must have a filename", and only an empty one. Otherwise the content is written at `TempDir/<id>.<ext>` and nothing else in the directory changes. |
| TempStore.InputPathShape | main.py:44-47 | The generated name has no `/`, so it lands directly under the temporary root whatever directory part the claimed name carried. |
| PathText.ExtensionShape | main.py:44-45 | The kept extension has no `/` and no `.`, and no upper-case letter. |
| PathText.ExtensionOfSuffix | main.py:44-45 | A name whose lower-cased form ends in `.ext` (with no `.` or `/` in `ext`) keeps exactly `ext` as its extension. |
| PathText.ExtensionMatchesSuffix | main.py:44-45 | The lower-cased name ends in `.ext` exactly when its basename has a `.` and the extension kept is `ext`: the suffix test of the handlers and the extension `_save_upload` keeps agree. |
| PathText.ExtensionWithoutDot | main.py:44-45 | A basename without a `.` is kept whole, lower-cased, as the extension. |
| PathText.AfterLastShape | main.py:45 | The text after the last separator is a suffix free of the separator that is all of the text or is preceded by the separator. |
| PathText.AfterLastUnique | main.py:45 | Any suffix with those properties is the text after the last separator. |
| PathText.RFindLast | main.py:44 | The position found holds the separator, and no separator follows it. |
| PathText.BasenameIdempotent | main.py:166 | The sanitised name has no `/` and is a fixed point of sanitisation. |
| PathText.BasenameOfChild | main.py:54 | The basename of `dir/name` is `name` when `name` has no `/`. |
| PathText.BasenameIgnoresDirectory | main.py:166 | A directory part in front of an identifier does not change its basename. |
| PathText.LowerProperties | main.py:45 | Lower-casing leaves no upper-case letter, keeps every other character, and is idempotent. |
| PathText.JoinChild | main.py:47 | Joining the root with a name free of `/` inserts exactly one separator. |
| PathText.ParseNatToString | main.py:110 | The decimal form of the page count reads back as that count. |
| PathText.NatToStringInjective | main.py:110 | Two page counts with the same decimal form are equal. |
| TempStore.MakeDownload | main.py:53-59 | The identifier is the last path component of the artifact path: it has no `/`, ends the path, and is preceded there by `/`. The suggested name is passed through, and the URL is the download route followed by the identifier. |
| TempStore.DownloadFile | main.py:164-170 | The file served is the one at `TempDir/<basename of id>`, whose name has no `/`, with the PDF media type. The response is 404 "File not found or expired" exactly when no file is there. |
| TempStore.DownloadIgnoresDirectory | main.py:166-167 | Prefixing an identifier with any `dir/` gives the same response: only the identifier's last component, which contains no `/`, is looked up. |
| TempStore.DownloadPath | main.py:166-167 | The name looked up has no `/` and is joined to the root with exactly one separator. |
| TempStore.DownloadAfterMakeDownload | main.py:53-59 | An artifact written directly under the root is served back, with the content written, through the identifier `_make_download` hands out. |
| TempStore.Without | main.py:88-93 | Removing a list of paths keeps exactly the files not listed, with their contents. |
| TempStore.WithoutAbsent | main.py:88-93 | Removing paths that were never there changes nothing. |
| TempStore.WrittenOverRemoved | main.py:88-93 | Once the written paths are removed, the directory agrees with the original minus those paths. |
| TempStore.RemoveSaved | main.py:88-93 | Removing saved paths one by one, skipping any already gone, leaves the directory without all of them. |
| Handlers.PdfNameStoredAsPdf | main.py:76-78 | A name accepted as a PDF is non-empty, so it passes the `_save_upload` check, and it is stored as `<id>.pdf`. |
| Handlers.ImageNameStoredWithImageExtension | main.py:140-142 | A name accepted as an image is non-empty and is stored with one of the supported extensions. |
| Handlers.PageRangeDetailInjective | main.py:110 | The split refusal's detail determines the document's page count. |
| Handlers.ArtifactIsNotInput | main.py:84 | An artifact path (`merged_`, `split_` or `images_` prefix) never equals an input path (hex-digit first character). |
| Handlers.ArtifactNotSaved | main.py:84-93 | The cleanup never removes the artifact. |
| Handlers.FreshInputsRemoved | main.py:88-93 | With identifiers that were not already taken, removing what a request saved restores the directory. |
| Handlers.PdfNameByExtension | main.py:76 | A name passes the PDF check exactly when its basename has a `.` and the extension it is stored under is `pdf`. |
| Handlers.ImageNameByExtension | main.py:140 | A name passes the image check exactly when its basename has a `.` and the extension it is stored under is one of `png`, `jpg`, `jpeg`, `webp` and `bmp`. |
| Handlers.FirstRejected | main.py:75-77 | The index found is that of the first upload whose name is refused, and every upload before it is accepted. |
| Handlers.AppendPages | main.py:81-82 | The writer ends with its previous pages followed by every page of the document, in order. |
| Documents.ConcatLength | main.py:75-82 | The merged document has as many pages as the inputs together. |
| Documents.ConcatIndex | main.py:75-82 | Page `j` of input `i` is at position `Offset(i) + j` of the merged document. |
| Documents.ConcatSlice | main.py:75-82 | The pages between input `i`'s offset and the next are exactly input `i`. |
| Documents.ConcatUpToLength | main.py:80-82 | After `n` inputs the writer holds as many pages as those inputs together. |
| Documents.ConcatUpToAppend | main.py:75-82 | Appending further inputs after a run puts their pages after the run's pages. |
| Documents.ConcatAppend | main.py:75-82 | Concatenation distributes over appending runs of documents. |
| Merge.MergePdfs | main.py:62-93 | The engine failure is a 500. Fewer than two uploads is a 400 with nothing saved. Otherwise exactly the uploads before the first non-PDF are saved, and that upload names the 400. Success happens exactly when all uploads are PDFs, and the artifact is the concatenation of all inputs. Every saved input is removed on every path. |
| Merge.SaveAndAppend | main.py:78-82 | One accepted upload is saved at its input path, nothing else changes, and its pages follow the writer's pages. |
| Merge.SaveAndRead | main.py:75-82 | The loop saves exactly the uploads before the first non-PDF, changes nothing else, and on completion holds every page of every upload in order. |
| Split.PageRange | main.py:108-113 | The range is accepted exactly when `1 <= start <= end <= total`. Otherwise it is refused with a 400 whose detail carries the total. On acceptance it yields `end - start + 1` pages, page `i` being page `start - 1 + i` of the input. |
| Split.CopyRange | main.py:112-113 | The copy loop yields exactly the accepted range. |
| Split.PageRangeWhole | main.py:109-113 | The full range of a non-empty document is accepted and is the document. |
| Split.PageRangeAdjacent | main.py:112-113 | Two adjacent ranges together are the range spanning both. |
| Split.SplitRecoversMergedPart | main.py:112-113 | Splitting a merge result at one input's pages returns that input. |
| Split.SplitPdf | main.py:96-123 | The engine failure is a 500. A non-PDF name is a 400 with nothing saved. Otherwise the upload is saved, and the page range decides between the range refusal and an artifact holding the selected pages. The saved upload is removed on both paths. |
| ImagesToPdf.ImagePages | main.py:139-149 | The reference output: one page per image, in order, each the encoded RGB conversion. |
| ImagesToPdf.SaveAll | main.py:148-149 | Saving `first` with `rest` appended gives one page for `first`, then one per image of `rest`. |
| ImagesToPdf.MergeOfImageBatches | main.py:139-149 | Converting two batches and merging the results equals converting both in one request. |
| ImagesToPdf.SaveAndOpen | main.py:139-145 | The loop saves exactly the uploads before the first unsupported one, changes nothing else, and holds their RGB conversions in order. |
| ImagesToPdf.SaveAndConvert | main.py:142-145 | One accepted upload is saved at its input path, nothing else changes, and its RGB conversion is kept. |
| ImagesToPdf.CloseAll | main.py:157-161 | Every converted image is closed, in order. |
| ImagesToPdf.ImagesToPdf | main.py:126-161 | The engine failure is a 500. An empty batch is a 400 with nothing saved or opened. Otherwise exactly the uploads before the first unsupported one are saved, and that upload names the 400. On success the artifact has one page per image, in order. Every saved input is removed, and every converted image closed, on every path. |

## Left out

- FastAPI routing, the CORS middleware, the informational routes, and the
  `uvicorn` start-up with its `PORT` variable. These are framework plumbing.
- The byte contents of uploads, `shutil.copyfileobj` and `FileResponse`
  streaming. The model stores and serves values, not bytes.
- PyPDF2 parsing and writing. A PDF upload is given as its page sequence,
  so a file that fails to parse, and the 500 it would cause, is not
  modelled.
- PIL decoding, conversion and encoding. `toRgb` and `toPage` are
  parameters, and decoding failures are not modelled.
- The engine import checks. They are reduced to the `Engine` flag, whose
  `reason` stands for the text of the import error.
- UUID generation. Identifiers are parameters constrained to the UUID text
  form. The version and variant digits are not constrained. Freshness is
  stated as a hypothesis (`FreshInputs`) of the handlers' conditional
  ensures, not as a requirement.
- `str.lower` is modelled on ASCII letters only. Python lower-cases all of
  Unicode, and can change the length of a string.
- An upload whose `filename` is `None` is not modelled. The source would
  fail on `.lower()` with a 500. Names are strings, and the empty name is
  modelled.
- TempStore.DownloadFile: directories inside the temporary root are not
  modelled; the map holds files only. `download_file` checks
  `os.path.exists`, which also holds for a directory. So an identifier whose
  basename is `..`, `.` or empty (`basename` strips none of these) finds the
  root's parent or the root itself rather than a 404. The model answers 404
  for these. It claims only that the name looked up is the identifier's last
  component and contains no `/`, not that the file served lies under the
  root.
- Failures of `os.remove` and of `im.close()` in the `finally` blocks are
  swallowed by the source. The model treats removal and closing as
  succeeding.
- Failure to create the temporary root at start-up, and concurrency
  between requests sharing the directory.
