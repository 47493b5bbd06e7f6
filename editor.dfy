/**
 * The editor session: the uploaded files, the snapshot `reset` restores, the
 * document being edited, the page selection and the error shown. Every
 * editing action loads a fresh copy of the current document, applies one
 * codec operation to it and makes the result current; a throw leaves the
 * current document as it was and shows an error instead.
 */
module PdfEditor {
  import opened JsText
  import opened Codec
  import opened Compose
  import opened Layout

  /** What an upload was kept as. */
  datatype FileKind = PdfFile | ImageFile(mimeType: string)

  /** An uploaded file as the session keeps it. */
  datatype StoredFile = StoredFile(name: string, data: Data, kind: FileKind)

  /** A file the browser hands over: its name, its declared type and its contents. */
  datatype BrowserFile = BrowserFile(name: string, mimeType: string, data: Data)

  /**
   * The upload loop's test: "application/pdf" is kept as a PDF, any type
   * starting with "image/" as an image with its type, and anything else is
   * dropped.
   */
  function Classify(file: BrowserFile): (r: Option<StoredFile>)
    ensures r.Some? <==> file.mimeType == "application/pdf" || "image/" <= file.mimeType
    ensures r.Some? ==> r.value.name == file.name && r.value.data == file.data
    ensures r.Some? ==> (r.value.kind == PdfFile <==> file.mimeType == "application/pdf")
    ensures r.Some? && r.value.kind.ImageFile? ==> r.value.kind.mimeType == file.mimeType
  {
    if file.mimeType == "application/pdf" then Some(StoredFile(file.name, file.data, PdfFile))
    else if "image/" <= file.mimeType then Some(StoredFile(file.name, file.data, ImageFile(file.mimeType)))
    else None
  }

  /** What the upload loop makes of each file, file by file. */
  function Classified(files: seq<BrowserFile>): (r: seq<Option<StoredFile>>)
    ensures |r| == |files| && forall k :: 0 <= k < |files| ==> r[k] == Classify(files[k])
  {
    seq(|files|, k requires 0 <= k < |files| => Classify(files[k]))
  }

  /** The files an upload keeps, in upload order. */
  function Uploaded(files: seq<BrowserFile>): seq<StoredFile> {
    Somes(Classified(files))
  }

  /** Every file kept is one of the uploaded files, kept under its own name, contents and type. */
  lemma UploadedFromFiles(files: seq<BrowserFile>, j: nat)
    requires j < |Uploaded(files)|
    ensures exists k :: 0 <= k < |files| && Classify(files[k]) == Some(Uploaded(files)[j])
  {
    var k := SomesSource(Classified(files), j);
    assert Classify(files[k]) == Some(Uploaded(files)[j]);
  }

  /**
   * The upload loop: each file the browser hands over is pushed as a PDF or
   * an image, or skipped.
   */
  method KeepUploads(files: seq<BrowserFile>) returns (uploaded: seq<StoredFile>)
    ensures uploaded == Uploaded(files)
  {
    var opts := Classified(files);
    uploaded := [];
    var i := 0;
    while i < |files|
      invariant 0 <= i <= |files|
      invariant uploaded == Somes(opts[..i])
    {
      var stored := Classify(files[i]);
      SomesStep(opts, i, uploaded);
      if stored.Some? {
        uploaded := uploaded + [stored.value];
      }
      i := i + 1;
    }
    TakeAll(opts);
  }

  /** The PDFs among the stored files, in order (`filter(f => f.type === 'pdf')`). */
  function PdfsOf(files: seq<StoredFile>): (r: seq<StoredFile>)
    ensures |r| <= |files|
    ensures forall k :: 0 <= k < |r| ==> r[k].kind == PdfFile && r[k] in files
    ensures forall f :: f in files && f.kind == PdfFile ==> f in r
  {
    if |files| == 0 then []
    else
      var init := PdfsOf(files[..|files| - 1]);
      var last := files[|files| - 1];
      assert files == files[..|files| - 1] + [last];
      if last.kind == PdfFile then init + [last] else init
  }

  /** The filter keeps a lone file exactly when it is a PDF. */
  lemma PdfsOfOne(f: StoredFile)
    ensures PdfsOf([f]) == if f.kind == PdfFile then [f] else []
  {
    assert [f][..0] == [];
  }

  /** The filter keeps the files' order: the PDFs of two lists one after the other are the PDFs of each, in turn. */
  lemma {:induction false} PdfsOfAppend(a: seq<StoredFile>, b: seq<StoredFile>)
    ensures PdfsOf(a + b) == PdfsOf(a) + PdfsOf(b)
  {
    if |b| == 0 {
      assert a + b == a;
    } else {
      var init := b[..|b| - 1];
      var ab := a + b;
      assert ab[..|ab| - 1] == a + init;
      assert ab[|ab| - 1] == b[|b| - 1];
      PdfsOfAppend(a, init);
    }
  }

  /** A list with no PDF in it keeps none, and a list of PDFs keeps all. */
  lemma {:induction false} PdfsOfAll(files: seq<StoredFile>)
    requires forall k :: 0 <= k < |files| ==> files[k].kind == PdfFile
    ensures PdfsOf(files) == files
  {
    if |files| > 0 {
      PdfsOfAll(files[..|files| - 1]);
      assert files == files[..|files| - 1] + [files[|files| - 1]];
    }
  }

  /** The filter keeps two or more files exactly when two positions of the list hold PDFs. */
  lemma {:induction false} TwoPdfs(files: seq<StoredFile>)
    ensures |PdfsOf(files)| >= 2 <==>
      exists i, j :: 0 <= i < j < |files| && files[i].kind == PdfFile && files[j].kind == PdfFile
  {
    if |files| > 0 {
      var init, last := files[..|files| - 1], files[|files| - 1];
      TwoPdfs(init);
      assert forall k :: 0 <= k < |init| ==> init[k] == files[k];
      if last.kind == PdfFile {
        if |PdfsOf(init)| >= 1 {
          var f := PdfsOf(init)[0];
          var i :| 0 <= i < |init| && init[i] == f;
          assert files[i].kind == PdfFile;
        } else if exists i :: 0 <= i < |init| && files[i].kind == PdfFile {
          var i :| 0 <= i < |init| && files[i].kind == PdfFile;
          assert init[i] in init;
        }
      }
    }
  }

  /** The contents of a list of stored files. */
  function DataOf(files: seq<StoredFile>): (r: seq<Data>)
    ensures |r| == |files| && forall k :: 0 <= k < |files| ==> r[k] == files[k].data
  {
    seq(|files|, k requires 0 <= k < |files| => files[k].data)
  }

  /**
   * The snapshot as the upload takes it, `JSON.parse(JSON.stringify(files))`:
   * names and types survive, but an ArrayBuffer serialises as `{}` and comes
   * back as an empty object.
   */
  function JsonRoundTrip(files: seq<StoredFile>): (r: seq<StoredFile>)
    ensures |r| == |files|
    ensures forall k :: 0 <= k < |files| ==>
      r[k].name == files[k].name && r[k].kind == files[k].kind && r[k].data == EmptyObject
  {
    seq(|files|, k requires 0 <= k < |files| => files[k].(data := EmptyObject))
  }

  /**
   * The document current once `reset` has reloaded from a snapshot: the
   * first file, saved, when it is a PDF that loads; otherwise the load promise
   * rejects (or is never started) and the current document stays as it was.
   */
  function Reloaded(snapshot: seq<StoredFile>, current: Option<Document>): Option<Document> {
    if |snapshot| > 0 && snapshot[0].kind == PdfFile && Load(snapshot[0].data).Ok? then
      Some(Save(Load(snapshot[0].data).value))
    else current
  }

  /** Copying a JSON copy again changes nothing more: `reset`'s second JSON round trip loses nothing further. */
  lemma JsonRoundTripTwice(files: seq<StoredFile>)
    ensures JsonRoundTrip(JsonRoundTrip(files)) == JsonRoundTrip(files)
  {
    assert forall k :: 0 <= k < |files| ==> JsonRoundTrip(JsonRoundTrip(files))[k] == JsonRoundTrip(files)[k];
  }

  /**
   * Whatever was uploaded, the JSON snapshot of a PDF no longer loads. So
   * `reset` cannot reload the first PDF (its promise rejects and the edited
   * document stays current), and the restored files no longer merge.
   */
  lemma JsonSnapshotLosesDocument(files: seq<StoredFile>, current: Option<Document>)
    requires |files| > 0 && files[0].kind == PdfFile
    ensures JsonRoundTrip(files)[0].kind == PdfFile
    ensures Load(JsonRoundTrip(files)[0].data) == Err(WrongInputType)
    ensures Reloaded(JsonRoundTrip(files), current) == current
    ensures |PdfsOf(JsonRoundTrip(files))| >= 1
    ensures Merged(DataOf(PdfsOf(JsonRoundTrip(files)))).Err?
  {
    var snap := JsonRoundTrip(files);
    var pdfs := PdfsOf(snap);
    assert |pdfs| >= 1 by {
      PdfsOfPrefix(snap);
    }
    var data := DataOf(pdfs);
    assert data[0] == EmptyObject by {
      assert pdfs[0] in snap;
      var k :| 0 <= k < |snap| && snap[k] == pdfs[0];
    }
    MergedIsConcatenation(data);
  }

  /** A list whose first file is a PDF keeps at least that one. */
  lemma {:induction false} PdfsOfPrefix(files: seq<StoredFile>)
    requires |files| > 0 && files[0].kind == PdfFile
    ensures |PdfsOf(files)| >= 1
  {
    if |files| > 1 {
      PdfsOfPrefix(files[..|files| - 1]);
    }
  }

  /** The snapshot taken with a structured copy, which keeps the bytes. */
  function SnapshotCopy(files: seq<StoredFile>): (r: seq<StoredFile>)
    ensures |r| == |files|
  {
    seq(|files|, k requires 0 <= k < |files| => files[k])
  }

  /** The copied snapshot loads, reloads and merges exactly as the files it was taken of. */
  lemma SnapshotKeepsDocuments(files: seq<StoredFile>, current: Option<Document>)
    ensures forall k :: 0 <= k < |files| ==>
      SnapshotCopy(files)[k] == files[k] && Load(SnapshotCopy(files)[k].data) == Load(files[k].data)
    ensures Reloaded(SnapshotCopy(files), current) == Reloaded(files, current)
    ensures Merged(DataOf(PdfsOf(SnapshotCopy(files)))) == Merged(DataOf(PdfsOf(files)))
  {
    assert SnapshotCopy(files) == files;
  }

  /**
   * The session as intended, with both snapshots taken by structured copy,
   * replayed on values: upload a file list whose first kept file is a PDF
   * that loads, delete its first page, reset. The reset reloads the copied
   * snapshot, so the document the edit left (the pages after the first, or
   * one blank page when there was only one) gives way to the uploaded one
   * again, and the files restored are the uploaded ones.
   */
  lemma CorrectedSessionRestores(kept: seq<StoredFile>)
    requires |kept| > 0 && kept[0].kind == PdfFile && Load(kept[0].data).Ok? && |Load(kept[0].data).value| > 0
    ensures var doc := Load(kept[0].data).value;
      var edited := Save(RemovePage(Save(doc), 0).value);
      SnapshotCopy(SnapshotCopy(kept)) == kept &&
      edited == (if |doc| == 1 then [DefaultPage()] else doc[1..]) &&
      Reloaded(SnapshotCopy(kept), Some(edited)) == Some(doc)
  {
    var doc := Load(kept[0].data).value;
    assert SnapshotCopy(kept) == kept;
    assert RemovePage(doc, 0).value == doc[1..];
  }

  /** The handler an error comes from, as the message's prefix names it. */
  datatype Operation = Loading | Merging | Splitting | AddingImage | CreatingNUp | Rotating | Deleting | Reordering

  /** Why an action failed. */
  datatype Cause =
    | CodecFailure(failure: Failure) // a codec call threw
    | TooFewPdfs                     // "Need at least 2 PDFs to merge"
    | NoPdfLoaded                    // "No PDF loaded"
    | NoDocument                     // `currentPdf.save()` on null threw a TypeError

  datatype Problem = Problem(operation: Operation, cause: Cause)

  /** An output file of a split: its download name and its pages. */
  datatype Download = Download(fileName: string, doc: Document)

  /** The download name of a split output: "split_<range name>.pdf". */
  function DownloadName(rangeName: string): (r: string)
    ensures |r| == |rangeName| + 10
    ensures r[..6] == "split_" && r[6..|r| - 4] == rangeName && r[|r| - 4..] == ".pdf"
  {
    "split_" + rangeName + ".pdf"
  }

  /** The outputs of a split, each saved, paired with their download names, in range order. */
  function Downloads(ranges: seq<Range>, docs: seq<Document>): (r: seq<Download>)
    requires |docs| == |ranges|
    ensures |r| == |ranges|
    ensures forall k :: 0 <= k < |ranges| ==> r[k] == Download(DownloadName(ranges[k].name), Save(docs[k]))
  {
    seq(|ranges|, k requires 0 <= k < |ranges| => Download(DownloadName(ranges[k].name), Save(docs[k])))
  }

  /** What the image dialog sends. */
  datatype ImagePlacement = ImagePlacement(imageData: Data, mimeType: string, pageIndex: int,
                                           x: real, y: real, width: real, height: real)

  class Editor {
    var pdfFiles: seq<StoredFile>
    var originalFiles: seq<StoredFile>
    var currentPdf: Option<Document>
    var selectedPages: seq<int>
    var error: Option<Problem>

    /**
     * The snapshot lists the same files as the session holds, under the same
     * names and kinds; what it keeps of their contents is not constrained,
     * since the JSON copy drops it.
     */
    predicate Valid()
      reads this
    {
      |originalFiles| == |pdfFiles| &&
      (forall k :: 0 <= k < |pdfFiles| ==>
        originalFiles[k].name == pdfFiles[k].name && originalFiles[k].kind == pdfFiles[k].kind) &&
      (currentPdf.Some? ==> |currentPdf.value| >= 1)
    }

    /** A new session: no files, no document, nothing selected, no error. */
    constructor ()
      ensures pdfFiles == [] && originalFiles == [] && currentPdf == None
      ensures selectedPages == [] && error == None
      ensures Valid()
    {
      pdfFiles := [];
      originalFiles := [];
      currentPdf := None;
      selectedPages := [];
      error := None;
    }

    /** `totalPages`, `currentPdf?.getPageCount() || 0`: the page count of the document, 0 without one. */
    function TotalPages(): (n: nat)
      reads this
      ensures currentPdf.Some? ==> n == |currentPdf.value|
      ensures currentPdf.None? ==> n == 0
    {
      if currentPdf.Some? then |currentPdf.value| else 0
    }

    /** `hasMultiplePdfs`: whether the session holds at least two PDFs, which is when the merge button is offered. */
    predicate HasMultiplePdfs()
      reads this
      ensures HasMultiplePdfs() <==>
        exists i, j :: 0 <= i < j < |pdfFiles| && pdfFiles[i].kind == PdfFile && pdfFiles[j].kind == PdfFile
    {
      TwoPdfs(pdfFiles);
      |PdfsOf(pdfFiles)| > 1
    }

    /**
     * `handleFilesUpload`: the kept files replace the session's files, and
     * their JSON copy (`JSON.parse(JSON.stringify(...))`) becomes the
     * snapshot; when the first kept file is a PDF it becomes the
     * current document, or the load failure is shown.
     */
    method HandleFilesUpload(files: seq<BrowserFile>)
      requires Valid()
      modifies this
      ensures pdfFiles == Uploaded(files) && originalFiles == JsonRoundTrip(pdfFiles) && Valid()
      ensures selectedPages == old(selectedPages)
      ensures var kept := Uploaded(files);
        if |kept| > 0 && kept[0].kind == PdfFile then
          match Load(kept[0].data)
          case Ok(doc) => currentPdf == Some(Save(doc)) && error == None
          case Err(f) => currentPdf == old(currentPdf) && error == Some(Problem(Loading, CodecFailure(f)))
        else currentPdf == old(currentPdf) && error == None
    {
      error := None;
      var uploaded := KeepUploads(files);
      pdfFiles := uploaded;
      originalFiles := JsonRoundTrip(uploaded);
      if |uploaded| > 0 && uploaded[0].kind == PdfFile {
        var loaded := Load(uploaded[0].data);
        if loaded.Err? {
          error := Some(Problem(Loading, CodecFailure(loaded.failure)));
          return;
        }
        currentPdf := Some(Save(loaded.value));
      }
    }

    /**
     * `mergePDFs` (in the browser): refused unless the session holds at least
     * two PDFs; otherwise the current document becomes their pages in file
     * order, or the first load failure is shown.
     */
    method MergePDFs()
      requires Valid()
      modifies this
      ensures Valid()
      ensures pdfFiles == old(pdfFiles) && originalFiles == old(originalFiles) && selectedPages == old(selectedPages)
      ensures var data := DataOf(PdfsOf(old(pdfFiles)));
        if !old(HasMultiplePdfs()) then
          currentPdf == old(currentPdf) && error == Some(Problem(Merging, TooFewPdfs))
        else
          match Merged(data)
          case Ok(doc) => currentPdf == Some(Save(doc)) && error == None
          case Err(f) => currentPdf == old(currentPdf) && error == Some(Problem(Merging, CodecFailure(f)))
    {
      error := None;
      var pdfDocs := PdfsOf(pdfFiles);
      if |pdfDocs| < 2 {
        error := Some(Problem(Merging, TooFewPdfs));
        return;
      }
      var merged := MergeFiles(DataOf(pdfDocs));
      if merged.Err? {
        error := Some(Problem(Merging, CodecFailure(merged.failure)));
        return;
      }
      currentPdf := Some(Save(merged.value));
    }

    /**
     * `splitPDF`: one download per range, in range order, named
     * "split_<name>.pdf" and holding the current document's pages at the
     * range's indices; nothing is downloaded when a range names a missing
     * page. The current document is not changed.
     */
    method SplitPDF(ranges: seq<Range>) returns (downloads: seq<Download>)
      requires Valid()
      modifies this
      ensures Valid()
      ensures currentPdf == old(currentPdf) && pdfFiles == old(pdfFiles)
      ensures originalFiles == old(originalFiles) && selectedPages == old(selectedPages)
      ensures currentPdf.None? ==> downloads == [] && error == Some(Problem(Splitting, NoPdfLoaded))
      ensures currentPdf.Some? ==>
        var doc := currentPdf.value;
        var fits := forall k :: 0 <= k < |ranges| ==> AllInRange(ranges[k].pages, |doc|);
        (fits ==> (error == None && |downloads| == |ranges| &&
                   forall k :: 0 <= k < |ranges| ==>
                     downloads[k] == Download(DownloadName(ranges[k].name), Save(Select(doc, ranges[k].pages))))) &&
        (!fits ==> downloads == [] && error == Some(Problem(Splitting, CodecFailure(PageMissing))))
    {
      error := None;
      downloads := [];
      if currentPdf.None? {
        error := Some(Problem(Splitting, NoPdfLoaded));
        return;
      }
      var docs := SplitByRanges(currentPdf.value, ranges);
      if docs.Err? {
        error := Some(Problem(Splitting, CodecFailure(docs.failure)));
        return;
      }
      downloads := Downloads(ranges, docs.value);
    }

    /** `addImage`: the image drawn on a fresh copy of the current document, which then becomes current. */
    method AddImage(placement: ImagePlacement)
      requires Valid()
      modifies this
      ensures Valid()
      ensures pdfFiles == old(pdfFiles) && originalFiles == old(originalFiles) && selectedPages == old(selectedPages)
      ensures old(currentPdf).None? ==> currentPdf == None && error == Some(Problem(AddingImage, NoPdfLoaded))
      ensures old(currentPdf).Some? ==>
        var at := Placement(placement.pageIndex, placement.x, placement.y, placement.width, placement.height);
        match PlaceImage(old(currentPdf).value, placement.imageData, placement.mimeType, at)
        case Ok(doc) => currentPdf == Some(Save(doc)) && error == None
        case Err(f) => currentPdf == old(currentPdf) && error == Some(Problem(AddingImage, CodecFailure(f)))
    {
      error := None;
      if currentPdf.None? {
        error := Some(Problem(AddingImage, NoPdfLoaded));
        return;
      }
      var at := Placement(placement.pageIndex, placement.x, placement.y, placement.width, placement.height);
      var placed := PlaceImage(currentPdf.value, placement.imageData, placement.mimeType, at);
      if placed.Err? {
        error := Some(Problem(AddingImage, CodecFailure(placed.failure)));
        return;
      }
      currentPdf := Some(Save(placed.value));
    }

    /**
     * `createNUp` (in the browser): the current document replaced by its
     * imposition. The dialog only offers 2, 4 and 6 pages per sheet, so the
     * count is never 0.
     */
    method CreateNUp(config: NUpConfig)
      requires Valid() && config.pagesPerSheet != 0
      modifies this
      ensures Valid()
      ensures pdfFiles == old(pdfFiles) && originalFiles == old(originalFiles) && selectedPages == old(selectedPages)
      ensures old(currentPdf).None? ==> currentPdf == None && error == Some(Problem(CreatingNUp, NoPdfLoaded))
      ensures old(currentPdf).Some? ==> currentPdf == Some(Save(Imposed(old(currentPdf).value, config))) && error == None
    {
      error := None;
      if currentPdf.None? {
        error := Some(Problem(CreatingNUp, NoPdfLoaded));
        return;
      }
      var sheets := ImposeSheets(currentPdf.value, config);
      currentPdf := Some(Save(sheets));
    }

    /** `rotatePage`: the page's angle advanced by `degrees` on a fresh copy, which becomes current. */
    method RotatePage(pageIndex: int, degrees: int)
      requires Valid()
      modifies this
      ensures Valid()
      ensures pdfFiles == old(pdfFiles) && originalFiles == old(originalFiles) && selectedPages == old(selectedPages)
      ensures old(currentPdf).None? ==> currentPdf == None && error == Some(Problem(Rotating, NoDocument))
      ensures old(currentPdf).Some? ==>
        match Rotate(old(currentPdf).value, pageIndex, degrees)
        case Ok(doc) => currentPdf == Some(Save(doc)) && error == None
        case Err(f) => currentPdf == old(currentPdf) && error == Some(Problem(Rotating, CodecFailure(f)))
    {
      error := None;
      if currentPdf.None? {
        error := Some(Problem(Rotating, NoDocument));
        return;
      }
      var rotated := Rotate(currentPdf.value, pageIndex, degrees);
      if rotated.Err? {
        error := Some(Problem(Rotating, CodecFailure(rotated.failure)));
        return;
      }
      currentPdf := Some(Save(rotated.value));
    }

    /** `deletePage`: the page removed from a fresh copy, which becomes current. */
    method DeletePage(pageIndex: int)
      requires Valid()
      modifies this
      ensures Valid()
      ensures pdfFiles == old(pdfFiles) && originalFiles == old(originalFiles) && selectedPages == old(selectedPages)
      ensures old(currentPdf).None? ==> currentPdf == None && error == Some(Problem(Deleting, NoDocument))
      ensures old(currentPdf).Some? ==>
        match RemovePage(old(currentPdf).value, pageIndex)
        case Ok(doc) => currentPdf == Some(Save(doc)) && error == None
        case Err(f) => currentPdf == old(currentPdf) && error == Some(Problem(Deleting, CodecFailure(f)))
    {
      error := None;
      if currentPdf.None? {
        error := Some(Problem(Deleting, NoDocument));
        return;
      }
      var removed := RemovePage(currentPdf.value, pageIndex);
      if removed.Err? {
        error := Some(Problem(Deleting, CodecFailure(removed.failure)));
        return;
      }
      currentPdf := Some(Save(removed.value));
    }

    /**
     * `reorderPages`: a new document of copies of the current pages at the
     * given indices, in the given order; the list is not checked to be a
     * permutation, so pages can be repeated or left out.
     */
    method ReorderPages(newOrder: seq<int>)
      requires Valid()
      modifies this
      ensures Valid()
      ensures pdfFiles == old(pdfFiles) && originalFiles == old(originalFiles) && selectedPages == old(selectedPages)
      ensures old(currentPdf).None? ==> currentPdf == None && error == Some(Problem(Reordering, NoDocument))
      ensures old(currentPdf).Some? ==>
        match CopyPages(old(currentPdf).value, newOrder)
        case Ok(doc) => currentPdf == Some(Save(doc)) && error == None
        case Err(f) => currentPdf == old(currentPdf) && error == Some(Problem(Reordering, CodecFailure(f)))
    {
      error := None;
      if currentPdf.None? {
        error := Some(Problem(Reordering, NoDocument));
        return;
      }
      var copied := CopyPages(currentPdf.value, newOrder);
      if copied.Err? {
        error := Some(Problem(Reordering, CodecFailure(copied.failure)));
        return;
      }
      currentPdf := Some(Save(copied.value));
    }

    /**
     * `reset`: the session's files become a JSON copy of the snapshot, the
     * selection is emptied and the error cleared, all at once; the first
     * snapshot file is reloaded when it is a PDF, and the reloaded document
     * becomes current only if that load succeeds (a rejected load has no
     * handler, so nothing else happens).
     */
    method Reset()
      requires Valid()
      modifies this
      ensures pdfFiles == JsonRoundTrip(old(originalFiles)) && originalFiles == old(originalFiles)
      ensures Valid()
      ensures selectedPages == [] && error == None
      ensures currentPdf == Reloaded(old(originalFiles), old(currentPdf))
    {
      pdfFiles := JsonRoundTrip(originalFiles);
      if |originalFiles| > 0 && originalFiles[0].kind == PdfFile {
        var loaded := Load(originalFiles[0].data);
        if loaded.Ok? {
          currentPdf := Some(Save(loaded.value));
        }
      }
      selectedPages := [];
      error := None;
    }
  }

  /**
   * Upload, delete the first page, reset: because the snapshot is a JSON
   * copy, the reload rejects, so the document the edit left stays current
   * (the pages after the first, or one blank page when there was only one),
   * and the restored files hold `{}` where their bytes were, so a later
   * merge fails.
   */
  method UploadEditReset(e: Editor, files: seq<BrowserFile>)
    requires e.Valid()
    modifies e
    ensures var kept := Uploaded(files);
      |kept| > 0 && kept[0].kind == PdfFile && Load(kept[0].data).Ok? && |Load(kept[0].data).value| > 0 ==>
        var doc := Load(kept[0].data).value;
        e.currentPdf == Some(if |doc| == 1 then [DefaultPage()] else doc[1..]) &&
        e.pdfFiles == JsonRoundTrip(kept) && Merged(DataOf(PdfsOf(e.pdfFiles))).Err? &&
        e.selectedPages == [] && e.error == None
  {
    e.HandleFilesUpload(files);
    var kept := Uploaded(files);
    e.DeletePage(0);
    ghost var edited := e.currentPdf;
    e.Reset();
    if |kept| > 0 && kept[0].kind == PdfFile {
      JsonSnapshotLosesDocument(kept, edited);
      JsonRoundTripTwice(kept);
      JsonSnapshotLosesDocument(JsonRoundTrip(kept), edited);
      if Load(kept[0].data).Ok? && |Load(kept[0].data).value| > 0 {
        var doc := Load(kept[0].data).value;
        assert RemovePage(doc, 0).value == doc[1..];
      }
    }
  }
}
