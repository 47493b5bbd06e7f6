/**
 * The page logic of the HTTP handlers: what each endpoint answers for the
 * uploaded files and form fields it receives. The answer is a 400 with a
 * message for a missing input, a 500 for anything the handler throws, the
 * resulting document(s) on success, or no answer at all when the handler's
 * loop never ends.
 */
module Server {
  import opened JsText
  import opened Codec
  import opened Compose
  import opened Layout

  /** What a handler catches and reports with status 500. */
  datatype Cause = CodecFailure(failure: Failure) | InvalidJson

  /** A handler's answer. */
  datatype Reply<T> =
    | BadRequest(error: string)   // status 400
    | ServerError(cause: Cause)   // status 500
    | Sent(body: T)               // status 200 with the result
    | NoReply                     // the handler loops forever

  /** A codec result as the handler answers it: the value, or the throw reported as a 500. */
  function Answer<T>(r: Result<T>): (reply: Reply<T>)
    ensures reply.Sent? <==> r.Ok?
    ensures r.Ok? ==> reply.body == r.value
    ensures r.Err? ==> reply == ServerError(CodecFailure(r.failure))
  {
    match r
    case Ok(v) => Sent(v)
    case Err(f) => ServerError(CodecFailure(f))
  }

  /** A form field holding JSON text: absent, or its text together with what `JSON.parse` makes of it (None when it throws). */
  datatype JsonField<T> = Absent | Field(text: string, parsed: Option<T>)

  /** JavaScript falsiness of a form field: missing, or the empty string. */
  predicate Missing<T>(field: JsonField<T>) {
    field.Absent? || field.text == ""
  }

  /** An uploaded file as multer hands it over: its bytes and its declared mimetype. */
  datatype Upload = Upload(buffer: Data, mimetype: string)

  /**
   * `/api/merge`: fewer than two uploads are refused before anything is read;
   * otherwise the answer is the pages of every upload in upload order, or
   * the failure of the first upload that is not a PDF.
   */
  method MergeHandler(files: Option<seq<Data>>) returns (reply: Reply<Document>)
    ensures files.None? || |files.value| < 2 ==> reply == BadRequest("At least 2 PDFs required")
    ensures files.Some? && |files.value| >= 2 ==>
      (reply.Sent? <==> AllLoad(files.value)) &&
      (reply.Sent? ==> reply.body == Save(Concat(LoadedDocs(files.value)))) &&
      (reply.ServerError? ==> (exists j :: 0 <= j < |files.value| && Load(files.value[j]).Err? &&
                                 reply.cause == CodecFailure(Load(files.value[j]).failure)))
  {
    if files.None? || |files.value| < 2 {
      return BadRequest("At least 2 PDFs required");
    }
    var merged := MergeFiles(files.value);
    MergedIsConcatenation(files.value);
    if merged.Err? {
      return ServerError(CodecFailure(merged.failure));
    }
    reply := Sent(Save(merged.value));
  }

  /** One output of a split: the range's name and the pages it selected. */
  datatype Part = Part(name: string, doc: Document)

  /** Output documents paired with the names of the ranges that made them, in order. */
  function Named(ranges: seq<Range>, docs: seq<Document>): (parts: seq<Part>)
    requires |docs| == |ranges|
    ensures |parts| == |ranges|
    ensures forall k :: 0 <= k < |ranges| ==> parts[k] == Part(ranges[k].name, docs[k])
  {
    seq(|ranges|, k requires 0 <= k < |ranges| => Part(ranges[k].name, docs[k]))
  }

  /**
   * `/api/split`: a missing file and then a missing ranges field are refused;
   * the upload is loaded before the ranges are parsed, so a bad PDF is
   * reported even when the ranges are not JSON. On success there is one
   * output per range, in range order, named after it and holding the source
   * pages at its indices; a range with an index outside the source fails the
   * whole request.
   */
  method SplitHandler(file: Option<Data>, ranges: JsonField<seq<Range>>) returns (reply: Reply<seq<Part>>)
    ensures file.None? ==> reply == BadRequest("PDF file required")
    ensures file.Some? && Missing(ranges) ==> reply == BadRequest("Split ranges required")
    ensures file.Some? && !Missing(ranges) && Load(file.value).Err? ==>
      reply == ServerError(CodecFailure(Load(file.value).failure))
    ensures file.Some? && !Missing(ranges) && Load(file.value).Ok? && ranges.parsed.None? ==>
      reply == ServerError(InvalidJson)
    ensures file.Some? && !Missing(ranges) && Load(file.value).Ok? && ranges.parsed.Some? ==>
      var source := Load(file.value).value;
      var rs := ranges.parsed.value;
      (reply.Sent? <==> forall k :: 0 <= k < |rs| ==> AllInRange(rs[k].pages, |source|)) &&
      (reply.Sent? ==> (|reply.body| == |rs| &&
                        forall k :: 0 <= k < |rs| ==> reply.body[k] == Part(rs[k].name, Save(Select(source, rs[k].pages))))) &&
      (reply.ServerError? ==> reply.cause == CodecFailure(PageMissing))
  {
    if file.None? {
      return BadRequest("PDF file required");
    }
    if Missing(ranges) {
      return BadRequest("Split ranges required");
    }
    var loaded := Load(file.value);
    if loaded.Err? {
      return ServerError(CodecFailure(loaded.failure));
    }
    if ranges.parsed.None? {
      return ServerError(InvalidJson);
    }
    var rs := ranges.parsed.value;
    var docs := SplitByRanges(loaded.value, rs);
    if docs.Err? {
      return ServerError(CodecFailure(docs.failure));
    }
    reply := Sent(Named(rs, SaveAll(docs.value)));
  }

  /** The text form fields of an add-image request, the coordinates already read by `parseFloat`. */
  datatype ImageFields = ImageFields(pageIndex: string, x: real, y: real, width: real, height: real)

  /**
   * `pages[parseInt(pageIndex)]` looks up no page for NaN; -1 looks up no
   * page either, so it stands for NaN here.
   */
  function PageIndexOf(p: Parsed): (index: int)
    ensures p.Num? ==> index == p.value
    ensures p.NaN? ==> index < 0
  {
    if p.NaN? then -1 else p.value
  }

  /**
   * `/api/add-image`: both files are required; the PDF is loaded, the image
   * is embedded as PNG for "image/png" and as JPEG otherwise, and drawn on
   * the page the pageIndex field names with its top-left corner at (x, y)
   * measured from the page's top-left corner. A pageIndex that names no page
   * fails only after the image has been embedded.
   */
  method AddImageHandler(pdf: Option<Data>, image: Option<Upload>, fields: ImageFields) returns (reply: Reply<Document>)
    ensures pdf.None? || image.None? ==> reply == BadRequest("PDF and image files required")
    ensures pdf.Some? && image.Some? && Load(pdf.value).Err? ==>
      reply == ServerError(CodecFailure(Load(pdf.value).failure))
    ensures pdf.Some? && image.Some? && Load(pdf.value).Ok? ==>
      var doc := Load(pdf.value).value;
      var index := ParseInt(fields.pageIndex);
      reply == Answer(PlaceImage(doc, image.value.buffer, image.value.mimetype,
        Placement(PageIndexOf(index), fields.x, fields.y, fields.width, fields.height))) &&
      (reply.Sent? <==> (EmbedImage(image.value.buffer, FormatForMime(image.value.mimetype)).Ok? &&
                         index.Num? && 0 <= index.value < |doc|))
  {
    if pdf.None? || image.None? {
      return BadRequest("PDF and image files required");
    }
    var loaded := Load(pdf.value);
    if loaded.Err? {
      return ServerError(CodecFailure(loaded.failure));
    }
    var at := Placement(PageIndexOf(ParseInt(fields.pageIndex)), fields.x, fields.y, fields.width, fields.height);
    var placed := PlaceImage(loaded.value, image.value.buffer, image.value.mimetype, at);
    if placed.Err? {
      return ServerError(CodecFailure(placed.failure));
    }
    // The image went onto an existing page, so saving adds no default page.
    reply := Sent(Save(placed.value));
  }

  /**
   * `/api/nup`: the file is required; the config field is parsed before the
   * upload is loaded (a missing field makes `JSON.parse(undefined)` throw).
   * The answer is the imposed document; with 0 pages per sheet and a
   * non-empty document the sheet count is Infinity and the handler never
   * answers.
   */
  method NUpHandler(pdf: Option<Data>, config: JsonField<NUpConfig>) returns (reply: Reply<Document>)
    ensures pdf.None? ==> reply == BadRequest("PDF file required")
    ensures pdf.Some? && (config.Absent? || config.parsed.None?) ==> reply == ServerError(InvalidJson)
    ensures pdf.Some? && config.Field? && config.parsed.Some? && Load(pdf.value).Err? ==>
      reply == ServerError(CodecFailure(Load(pdf.value).failure))
    ensures pdf.Some? && config.Field? && config.parsed.Some? && Load(pdf.value).Ok? ==>
      var src := Load(pdf.value).value;
      var cfg := config.parsed.value;
      (cfg.pagesPerSheet == 0 && |src| > 0 ==> reply == NoReply) &&
      (cfg.pagesPerSheet != 0 || |src| == 0 ==> reply == Sent(Save(Imposed(src, cfg))))
  {
    if pdf.None? {
      return BadRequest("PDF file required");
    }
    if config.Absent? || config.parsed.None? {
      return ServerError(InvalidJson);
    }
    var cfg := config.parsed.value;
    var loaded := Load(pdf.value);
    if loaded.Err? {
      return ServerError(CodecFailure(loaded.failure));
    }
    if cfg.pagesPerSheet == 0 && |loaded.value| > 0 {
      return NoReply;
    }
    var sheets := ImposeSheets(loaded.value, cfg);
    reply := Sent(Save(sheets));
  }

  /** The number of pages above which the preview is cut. */
  const PreviewLimit: nat := 50

  /** The pages a preview shows: the first 50 of a longer document, all pages of a shorter one. */
  function PreviewPages(doc: Document): (r: Document)
    ensures |r| == if |doc| > PreviewLimit then PreviewLimit else |doc|
    ensures r == doc[..|r|]
  {
    if |doc| > PreviewLimit then doc[..PreviewLimit] else doc
  }

  /** A preview of a preview is the same preview. */
  lemma PreviewIdempotent(doc: Document)
    ensures PreviewPages(PreviewPages(doc)) == PreviewPages(doc)
  {
  }

  /**
   * `/api/preview`: the file is required; a document of more than 50 pages
   * is answered with a new document made of copies of its first 50 pages in
   * order, a shorter one with itself.
   */
  method PreviewHandler(pdf: Option<Data>) returns (reply: Reply<Document>)
    ensures pdf.None? ==> reply == BadRequest("PDF file required")
    ensures pdf.Some? && Load(pdf.value).Err? ==> reply == ServerError(CodecFailure(Load(pdf.value).failure))
    ensures pdf.Some? && Load(pdf.value).Ok? ==> reply == Sent(Save(PreviewPages(Load(pdf.value).value)))
  {
    if pdf.None? {
      return BadRequest("PDF file required");
    }
    var loaded := Load(pdf.value);
    if loaded.Err? {
      return ServerError(CodecFailure(loaded.failure));
    }
    var doc := loaded.value;
    if |doc| > PreviewLimit {
      var preview: Document := [];
      var maxPages := PreviewLimit;
      var i := 0;
      while i < maxPages
        invariant 0 <= i <= maxPages
        invariant preview == doc[..i]
      {
        var page := CopyPages(doc, [i]);
        preview := preview + page.value;
        assert doc[..i + 1] == doc[..i] + [doc[i]];
        i := i + 1;
      }
      // saved with `addDefaultPage: false`; the preview has its 50 pages anyway
      reply := Sent(preview);
    } else {
      reply := Sent(Save(doc));
    }
  }
}
