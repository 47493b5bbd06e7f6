/**
 * The document codec (pdf-lib) as the composition engine sees it: a document
 * is a sequence of pages, and the calls the engine makes on it (load, copy
 * pages by index, remove a page, set a rotation, embed an image, draw onto a
 * page) are operations on that sequence. Byte encoding, decoding and pixel
 * content are abstract: bytes are modelled by what they decode to.
 */
module Codec {

  /** Page dimensions in PDF points; the codec never hands out empty pages. */
  type Extent = r: real | r > 0.0 witness 1.0

  /** The two raster formats the codec can embed. */
  datatype ImageFormat = Png | Jpeg

  /** An image embedded in a document: its format and an opaque handle for its pixels. */
  datatype Image = Image(format: ImageFormat, handle: nat)

  /** A rectangle in a page's coordinate space (origin bottom-left, y growing upward). */
  datatype Box = Box(x: real, y: real, width: real, height: real)

  /** Something drawn onto a page: an embedded image, or another page embedded and scaled. */
  datatype Mark = DrawnImage(image: Image, box: Box) | DrawnPage(page: Page, box: Box)

  /** What a page shows before anything is drawn on it: content decoded from a file, or nothing. */
  datatype Content = Decoded(id: nat) | Blank

  /** A page: its own content, its size, its /Rotate angle in degrees and what was drawn on it. */
  datatype Page = Page(content: Content, width: Extent, height: Extent, rotation: int, marks: seq<Mark>)

  type Document = seq<Page>

  /** The contents of a byte buffer, as far as the codec can decode them. */
  datatype Bytes = PdfBytes(doc: Document) | RasterBytes(format: ImageFormat, handle: nat) | Unreadable

  /** A JavaScript value handed to the codec as input: an ArrayBuffer, or a plain object `{}`. */
  datatype Data = Buffer(bytes: Bytes) | EmptyObject

  /** Why a codec call throws. */
  datatype Failure =
    | NotPdf                      // the bytes do not parse as a PDF
    | NotRaster(expected: ImageFormat) // the bytes are not an image of the format asked for
    | WrongInputType              // the input is neither a string, an ArrayBuffer nor a Uint8Array
    | PageMissing                 // a page index outside [0, page count)
    | NotQuarterTurn              // a rotation angle that is not a multiple of 90

  datatype Result<T> = Ok(value: T) | Err(failure: Failure)

  /** `PDFDocument.load`. */
  function Load(data: Data): (r: Result<Document>)
    ensures r.Ok? <==> data.Buffer? && data.bytes.PdfBytes?
    ensures r.Ok? ==> r.value == data.bytes.doc
  {
    match data
    case EmptyObject => Err(WrongInputType)
    case Buffer(PdfBytes(doc)) => Ok(doc)
    case Buffer(_) => Err(NotPdf)
  }

  /** `embedPng` / `embedJpg`: the bytes must hold an image of the requested format. */
  function EmbedImage(data: Data, format: ImageFormat): (r: Result<Image>)
    ensures r.Ok? <==> data.Buffer? && data.bytes.RasterBytes? && data.bytes.format == format
    ensures r.Ok? ==> r.value == Image(format, data.bytes.handle)
  {
    match data
    case EmptyObject => Err(WrongInputType)
    case Buffer(RasterBytes(f, h)) => if f == format then Ok(Image(f, h)) else Err(NotRaster(format))
    case Buffer(_) => Err(NotRaster(format))
  }

  /** Every index names a page of a document with `count` pages. */
  predicate AllInRange(indices: seq<int>, count: nat) {
    forall k :: 0 <= k < |indices| ==> 0 <= indices[k] < count
  }

  /** The elements of `s` at the given positions, in the order of the positions. */
  function Select<T>(s: seq<T>, indices: seq<int>): (r: seq<T>)
    requires AllInRange(indices, |s|)
    ensures |r| == |indices|
    ensures forall k :: 0 <= k < |indices| ==> r[k] == s[indices[k]]
  {
    seq(|indices|, k requires 0 <= k < |indices| => s[indices[k]])
  }

  /** `dest.copyPages(src, indices)`: copies of the pages at the indices, or a throw for a missing page. */
  function CopyPages(src: Document, indices: seq<int>): (r: Result<Document>)
    ensures r.Ok? <==> AllInRange(indices, |src|)
    ensures r.Ok? ==> r.value == Select(src, indices)
    ensures r.Err? ==> r.failure == PageMissing
  {
    if AllInRange(indices, |src|) then Ok(Select(src, indices)) else Err(PageMissing)
  }

  /** `getPageIndices()`: 0, 1, ..., n-1. */
  function Indices(n: nat): (r: seq<int>)
    ensures |r| == n && AllInRange(r, n)
    ensures forall k :: 0 <= k < n ==> r[k] == k
  {
    seq(n, k => k)
  }

  /** Copying every page in index order gives back the document. */
  lemma SelectIndices<T>(s: seq<T>)
    ensures Select(s, Indices(|s|)) == s
  {
  }

  /** `doc.removePage(index)`: throws unless the index names a page. */
  function RemovePage(doc: Document, index: int): (r: Result<Document>)
    ensures r.Ok? <==> 0 <= index < |doc|
    ensures r.Ok? ==> |r.value| == |doc| - 1
    ensures r.Ok? ==> forall j :: 0 <= j < index ==> r.value[j] == doc[j]
    ensures r.Ok? ==> forall j :: index <= j < |r.value| ==> r.value[j] == doc[j + 1]
    ensures r.Ok? ==> multiset(r.value) + multiset{doc[index]} == multiset(doc)
  {
    if 0 <= index < |doc| then
      assert doc == doc[..index] + [doc[index]] + doc[index + 1..];
      Ok(doc[..index] + doc[index + 1..])
    else Err(PageMissing)
  }

  /** `page.setRotation(degrees(angle))`: the angle must be a multiple of 90; it is stored as given. */
  function SetRotation(page: Page, angle: int): (r: Result<Page>)
    ensures r.Ok? <==> angle % 90 == 0
    ensures r.Ok? ==> r.value == page.(rotation := angle)
  {
    if angle % 90 == 0 then Ok(page.(rotation := angle)) else Err(NotQuarterTurn)
  }

  /** `doc.addPage([width, height])`: a new empty, unrotated page. */
  function BlankPage(width: Extent, height: Extent): Page {
    Page(Blank, width, height, 0, [])
  }

  /** The page `addPage()` adds when no size is given: an empty A4 page in pdf-lib's measure. */
  function DefaultPage(): Page {
    BlankPage(595.28, 841.89)
  }

  /**
   * `doc.save()` with the default options, followed by loading the bytes
   * back: a document without pages first gains one default page (the
   * `addDefaultPage` option, on unless it is turned off); any other document
   * is saved as it is. Every saved document has a page.
   */
  function Save(doc: Document): (r: Document)
    ensures |r| >= 1
    ensures |doc| == 0 ==> r == [DefaultPage()]
    ensures |doc| > 0 ==> r == doc
  {
    if |doc| == 0 then [DefaultPage()] else doc
  }

  /** Saving a saved document changes nothing. */
  lemma SaveTwice(doc: Document)
    ensures Save(Save(doc)) == Save(doc)
  {
  }

  /** Every document of a list, saved. */
  function SaveAll(docs: seq<Document>): (r: seq<Document>)
    ensures |r| == |docs| && forall k :: 0 <= k < |docs| ==> r[k] == Save(docs[k])
  {
    seq(|docs|, k requires 0 <= k < |docs| => Save(docs[k]))
  }

  /** `page.drawImage` / `page.drawPage`: the mark is painted over what the page already shows. */
  function Draw(page: Page, mark: Mark): (r: Page)
    ensures r.marks == page.marks + [mark]
    ensures r.(marks := page.marks) == page
  {
    page.(marks := page.marks + [mark])
  }
}
