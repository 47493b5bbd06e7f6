# PDF editor page composition, modelled in Dafny

This project models the page-composition core of a browser PDF editor and its companion HTTP server. A document is a sequence of pages, and the PDF codec (pdf-lib) is a handful of total functions on that sequence:

- load;
- copy pages by index;
- remove a page;
- set a rotation;
- embed an image;
- draw onto a page.

On top of that codec the model states and proves what the editor and the server do:

- **Merge.** Documents are joined in file order.
- **Split.** A document is split by named page ranges.
- **Reorder, rotate and delete.** Each acts on one page or one index list.
- **Add image.** An image is stamped onto a page with a top-left-origin placement.
- **N-up imposition.** Several pages are tiled onto A4 sheets.
- **Toolbar parsing.** The split dialog's text ("1-3, 5, 7-10") is parsed, and the page selection becomes one range.
- **Thumbnail view.** The view keeps a selection set and handles drag-and-drop reordering.
- **Editor session.** The session holds the uploaded files, the snapshot that `reset` restores, the current document and the error shown. The snapshot is a JSON copy, so `reset` cannot restore the uploaded document (see "## Findings").

Modules follow the program:

| module | file | what it models |
|---|---|---|
| JsText | `jstext.dfy` | the JavaScript built-ins the parser relies on: `split`, `trim`, `parseInt` and number rendering |
| Codec | `codec.dfy` | the pdf-lib calls |
| Compose | `compose.dfy` | the page operations shared by client and server |
| Layout | `layout.dfy` | the N-up grid and tiles |
| Toolbar | `toolbar.dfy` | `components/Toolbar.js` |
| PdfPreview | `preview.dfy` | `components/PDFPreview.js` |
| Server | `server.dfy` | `server/index.js` |
| PdfEditor | `editor.dfy` | `components/PDFEditor.js` |

Some parts of the model are stateful:

- The editor session is a class, `PdfEditor.Editor`.
- The thumbnail view is a class, `PdfPreview.Preview`.
- Each handler is a method.
- Each loop of the source is a method with a `while` loop, proved against a specification function. Examples are the merge loop, the split loop, the N-up loops, the range parser, the upload filter and the preview copy.

Integers are unbounded: page counts and indices never come near 2^53 here. PDF coordinates are `real`.

## Model

| member | source | states |
|---|---|---|
| Codec.Load | server/index.js:36 | loading succeeds exactly for a buffer whose bytes are a PDF, and yields its pages; a non-PDF buffer and a plain object both throw |
| Codec.EmbedImage | server/index.js:115-119 | embedding succeeds exactly for raster bytes of the requested format, and the image keeps that format |
| Codec.Select | server/index.js:75 | copies of the pages at the given indices, in the order of the index list, one per index |
| Codec.CopyPages | server/index.js:75 | `copyPages` succeeds exactly when every index names a page, yields the selection, and otherwise fails with PageMissing |
| Codec.Indices | server/index.js:37 | `getPageIndices()` is 0..n-1, every one a valid index |
| Codec.SelectIndices | server/index.js:37 | copying every page in index order gives back the document |
| Codec.RemovePage | components/PDFEditor.js:338 | removal succeeds exactly for an index in range; the pages before stay in place, the ones after shift down by one, and exactly one occurrence of the removed page is gone |
| Codec.SetRotation | components/PDFEditor.js:324 | succeeds exactly for a multiple of 90; only the rotation changes, and it is stored unreduced |
| Codec.Save | components/PDFEditor.js:340 | saving always yields at least one page: a document without pages gains one blank A4 page (595.28 x 841.89, pdf-lib's default page), any other document is saved as it is |
| Codec.SaveTwice | components/PDFEditor.js:337-340 | loading saved bytes and saving again changes nothing further |
| Codec.SaveAll | server/index.js:76-79 | each document of a list is saved on its own, in order |
| Codec.Draw | components/PDFEditor.js:280-285 | a mark is appended to what the page shows; nothing else about the page changes |
| Compose.ConcatLength | components/PDFEditor.js:110-117 | the merged document has as many pages as all the inputs together |
| Compose.ConcatAppend | components/PDFEditor.js:110-117 | merging is associative over file lists: merging a list is merging its halves one after the other |
| Compose.Merged | components/PDFEditor.js:108-117 | a merge that succeeds has loaded every file |
| Compose.MergedIsConcatenation | server/index.js:35-39 | merging succeeds iff every file loads, then yields the concatenation of the loaded documents in file order; otherwise it fails with the failure of the first file that does not load |
| Compose.MergedFailureSticks | components/PDFEditor.js:110-117 | once a prefix of the files fails, the whole merge fails the same way |
| Compose.MergeFiles | components/PDFEditor.js:108-117 | the merge loop computes the merge specification (load, copy all pages, append; stop at the first throw) |
| Compose.MergeTwo | server/index.js:25-52 | two loadable files merge into the first one's pages followed by the second one's |
| Compose.SplitByRanges | server/index.js:73-83 | one output per range in range order, each the pages at the range's indices; succeeds iff every index is in range, else PageMissing |
| Compose.ReorderByPermutation | components/PDFEditor.js:348-363 | reordering by a permutation of the indices keeps exactly the same pages, counted with multiplicity |
| Compose.SameIndicesSamePages | components/PDFEditor.js:352-353 | two index lists with the same indices select the same multiset of pages |
| Compose.ReorderTwice | components/PDFEditor.js:348-363 | reordering twice is reordering once by the composed index list |
| Compose.DeleteIsReorderWithout | components/PDFEditor.js:334-346 | deleting a page is the same as copying every other index in order |
| Compose.Rotate | components/PDFEditor.js:319-332 | the page's angle becomes old angle plus delta, other pages untouched; fails for a missing page and for a non-quarter angle |
| Compose.RotateTwice | components/PDFEditor.js:319-332 | two rotations of one page add up |
| Compose.FourQuarterTurns | components/PDFEditor.js:324 | four quarter turns give the same orientation but a stored angle 360 higher |
| Compose.BottomLeftY | server/index.js:121-126 | the image's bottom edge in bottom-left-origin page space puts its top edge `y` below the top of the page |
| Compose.FormatForMime | server/index.js:115-119 | PNG exactly for "image/png", JPEG for every other type |
| Compose.PlaceImage | server/index.js:108-126 | succeeds iff the image embeds and the index names a page; only that page changes, gaining one image mark whose left edge is x and whose top edge lies y below the page top, with the given size |
| Layout.GetGridConfig | components/PDFEditor.js:304-311 | 2 gives 2 rows by 1 column, 4 gives 2 by 2, 6 gives 3 by 2, and every other count falls back to the 2-by-1 grid; the grid has exactly pagesPerSheet cells iff the count is 2, 4 or 6 |
| Layout.GetGridPosition | components/PDFEditor.js:313-317 | the cell is the index's row-major position, and it lies in the grid iff the index is below the cell count |
| Layout.GridPositionInjective | components/PDFEditor.js:313-317 | distinct tile indices get distinct cells |
| Layout.FallbackGridOverflows | components/PDFEditor.js:304-311 | with an unsupported count above 2, the third tile lands below the fallback grid |
| Layout.SheetSize | components/PDFEditor.js:255-256 | the sheet is A4 (595 x 842 points), wider than tall exactly in landscape |
| Layout.CellWidth | components/PDFEditor.js:272 | the columns of cells and the gaps between them exactly fill the sheet's width inside the margins |
| Layout.CellHeight | components/PDFEditor.js:273 | the rows of cells and the gaps between them exactly fill the sheet's height inside the margins |
| Layout.CellLeft | components/PDFEditor.js:275 | a column starts `col` cells and gaps right of the left margin, and the columns from it on end at the right margin |
| Layout.CellBottom | components/PDFEditor.js:276 | a row's top edge lies `row` cells and gaps below the top margin, and the rows from it down end at the bottom margin |
| Layout.Tile | components/PDFEditor.js:271-285 | a page is drawn at its cell's bottom-left corner, keeps its aspect ratio, fits inside the cell and fills the cell's width or height |
| Layout.ScaledSize | components/PDFEditor.js:277-284 | the page scaled by the smaller of the two cell-to-page ratios fits the cell, fills its width or its height, and keeps the page's aspect ratio |
| Layout.TileInsideMargins | server/index.js:173-187 | every tile lies within the sheet's margins |
| Layout.TilesDisjoint | components/PDFEditor.js:271-285 | tiles of distinct cells do not overlap |
| Layout.SheetsNeeded | components/PDFEditor.js:259 | no sheet for an empty document or a negative count, at least one for a non-empty document and a positive count |
| Layout.SheetsNeededIsCeiling | components/PDFEditor.js:259 | the sheet count is the least number of sheets with room for every page |
| Layout.SheetStartInRange | components/PDFEditor.js:265 | every sheet starts at a page of the document |
| Layout.Imposed | components/PDFEditor.js:261-287 | the imposition has one sheet per `Math.ceil(totalPages / pagesPerSheet)` |
| Layout.ImposeSheets | components/PDFEditor.js:261-287 | the nested sheet and tile loops build exactly the imposition specification |
| Layout.PagePlacement | components/PDFEditor.js:265-285 | source page k is drawn on sheet k / n, in cell k % n, scaled into that cell |
| Layout.LastSheetFill | server/index.js:165-169 | every sheet but the last is full, and the last holds what remains |
| Layout.TileMarksDraw | components/PDFEditor.js:267-286 | one sheet draws exactly its share of the source pages, in order |
| Layout.ImposedPrefixDraws | components/PDFEditor.js:261-287 | the first sheets draw exactly the source pages they cover |
| Layout.ImposedDrawsEachPageOnce | components/PDFEditor.js:261-287 | across all sheets, every source page is drawn exactly once, in source order |
| Layout.NegativeCountNoSheets | server/index.js:163 | a negative count of pages per sheet yields no sheet |
| Layout.SevenPagesFourUp | server/index.js:163-169 | seven pages four-up give two sheets, of four and of three tiles |
| JsText.SomesSource | components/Toolbar.js:39-57 | every value kept by the push-or-skip loop comes from one of the inputs |
| JsText.SomesAppend | components/Toolbar.js:39-57 | keeping values from a list is keeping them from its halves, in order |
| JsText.TrimStart | components/Toolbar.js:37 | the result is a suffix of the text that does not start with whitespace, and only whitespace was cut |
| JsText.TrimEnd | components/Toolbar.js:37 | the result is a prefix of the text that does not end with whitespace, and only whitespace was cut |
| JsText.Trim | components/Toolbar.js:37 | `trim` gives the part of the text between leading and trailing whitespace, and it neither starts nor ends with whitespace |
| JsText.SplitOn | components/Toolbar.js:37 | `split` gives at least one piece and no piece contains the separator |
| JsText.JoinSplit | components/Toolbar.js:37 | joining the pieces with the separator gives back the text |
| JsText.SplitOnSeparatorPresent | components/Toolbar.js:41 | a text containing the separator splits into at least two pieces |
| JsText.SplitOnFirst | components/Toolbar.js:41 | the text before the first separator is the first piece |
| JsText.ParseIntNumeric | components/Toolbar.js:41 | `parseInt` gives a number iff, after the whitespace and an optional sign, a decimal digit follows (and a hexadecimal one after "0x"); the number's sign follows the minus sign |
| JsText.DigitPrefix | components/Toolbar.js:41 | the longest prefix of digits that `parseInt` reads: all digits, and followed by no digit |
| JsText.Decimal | components/Toolbar.js:44 | a number renders as at least one decimal digit |
| JsText.DecimalValue | components/Toolbar.js:44 | the digits of a rendered number denote that number |
| JsText.ParseIntDecimal | components/Toolbar.js:41 | `parseInt` reads back a rendered number, whatever non-digit text follows |
| JsText.LeadingDigit | components/Toolbar.js:44 | a rendered number of two or more digits has no leading zero |
| Toolbar.RunPages | components/Toolbar.js:45 | a run start-end denotes the 0-based indices start-1 .. end-1, one per page |
| Toolbar.TokenRange | components/Toolbar.js:40-56 | any range a token yields is a non-empty run of consecutive pages of the document |
| Toolbar.DashToken | components/Toolbar.js:40-47 | a dash token yields a range iff both bounds parse and 1 <= start <= end <= total; then it is named after both bounds and holds that run |
| Toolbar.SingleToken | components/Toolbar.js:48-55 | a token without a dash yields a range iff it parses as a page number N of the document, and then it is "page_N" holding [N-1] |
| Toolbar.OnlyFirstTwoPieces | components/Toolbar.js:41 | only the first two dash-separated pieces are read: "2-4-9" means "2-4" |
| Toolbar.Parts | components/Toolbar.js:37 | one trimmed token per comma-separated piece |
| Toolbar.RangesOf | components/Toolbar.js:39-57 | what the parsing loop returns: at most one range per token |
| Toolbar.RangesOfAppend | components/Toolbar.js:39-57 | tokens are read one after the other: the ranges of a list of tokens are those of its halves, in order |
| Toolbar.RangesOfOne | components/Toolbar.js:39-57 | a token contributes its own range, or nothing |
| Toolbar.RangesOfFromTokens | components/Toolbar.js:39-57 | there are at most as many ranges as tokens, and every range is the one some token describes |
| Toolbar.RangesOfInBounds | components/Toolbar.js:42-50 | every range the parser returns is a non-empty list of pages of the document |
| Toolbar.ParseSplitRanges | components/Toolbar.js:35-60 | the parsing loop pushes, in token order, exactly the ranges the tokens describe |
| Toolbar.HandleSplit | components/Toolbar.js:27-33 | a split is requested iff some token describes pages, and every requested index is a page of the document |
| Toolbar.DashTokenValue | components/Toolbar.js:40-47 | "a-b" with rendered bounds in range parses back to the run from a to b, named after it |
| Toolbar.RenderedBounds | components/Toolbar.js:41 | splitting a rendered "a-b" on the dash and parsing gives back both numbers |
| Toolbar.ParseRendered | components/Toolbar.js:41 | a rendered number trims to itself and parses back to itself |
| Toolbar.ZeroOrReversedDropped | components/Toolbar.js:42 | "0-3" and "3-1" describe no pages |
| Toolbar.Insert | components/Toolbar.js:65 | inserting into an ascending list keeps it ascending and adds exactly that element |
| Toolbar.SortAscending | components/Toolbar.js:65 | the numeric sort yields the same numbers in ascending order |
| Toolbar.AscendingUnique | components/Toolbar.js:65 | two ascending lists of the same numbers are equal, so the sort's result is determined |
| Toolbar.Decremented | components/Toolbar.js:65 | each page number becomes its 0-based index |
| Toolbar.HandleSplitSelected | components/Toolbar.js:62-67 | nothing for an empty selection; otherwise one range named "selected", ascending, whose indices are exactly the selected numbers less one |
| Toolbar.SplitSelectedOrderFree | components/Toolbar.js:65 | the range depends only on which pages are selected, not on the order they were selected in |
| Toolbar.PageActions | components/Toolbar.js:128-144 | actions are offered only for exactly one selected page: a 90-degree rotation and a deletion, both on a selected page |
| Toolbar.FirstMember | components/Toolbar.js:132 | the first member in insertion order is a member |
| Toolbar.ActionsMatchSelection | components/Toolbar.js:132-138 | with one page selected, rotate and delete act on the one index that splitting the selection copies |
| PdfPreview.SetAdd | components/PDFPreview.js:37 | `Set.add` adds exactly that member, at the end when new, and keeps members distinct |
| PdfPreview.SetDelete | components/PDFPreview.js:35 | `Set.delete` removes exactly that member and keeps members distinct |
| PdfPreview.Toggle | components/PDFPreview.js:32-40 | toggling flips membership of that page only and keeps members distinct |
| PdfPreview.DeleteAdded | components/PDFPreview.js:35-37 | deleting a member just added gives back the set as it was |
| PdfPreview.ToggleTwice | components/PDFPreview.js:32-40 | toggling twice restores the selection; exactly, when the page was not selected |
| PdfPreview.SelectRange | components/PDFPreview.js:42-49 | the old members stay first, and the new set is the old one plus every number between the two ends, in either order; the new members follow in ascending order |
| PdfPreview.SelectAll | components/PDFPreview.js:72-75 | exactly the page numbers 1..numPages, each once |
| PdfPreview.ClearSelection | components/PDFPreview.js:77-79 | nothing is selected |
| PdfPreview.CheckboxFlipsOneThumbnail | components/PDFPreview.js:149-150 | clicking a checkbox flips that thumbnail's checked state and no other |
| PdfPreview.SelectAllChecksEveryThumbnail | components/PDFPreview.js:133 | after select-all, exactly the document's thumbnails are checked |
| PdfPreview.RemoveAt | components/PDFPreview.js:64 | `splice(at, 1)`: elements before stay, later ones shift down by one |
| PdfPreview.InsertAt | components/PDFPreview.js:65 | `splice(at, 0, x)`: x lands at `at`, elements before stay, later ones shift up |
| PdfPreview.RemoveAtMultiset | components/PDFPreview.js:64 | taking an element out leaves exactly the others |
| PdfPreview.InsertAtMultiset | components/PDFPreview.js:65 | putting an element in adds exactly it |
| PdfPreview.RemoveInserted | components/PDFPreview.js:64-65 | taking out what was just put in gives back the list |
| PdfPreview.MovedIsPermutation | components/PDFPreview.js:62-65 | a drop yields a permutation with the dragged item at the target and the others in their relative order |
| PdfPreview.MovedBack | components/PDFPreview.js:59-70 | dragging the item back restores the order |
| PdfPreview.Preview.constructor | components/PDFPreview.js:12-15 | no pages, no order, nothing dragged |
| PdfPreview.Preview.OnDocumentLoadSuccess | components/PDFPreview.js:27-30 | the page count is recorded and thumbnails show in document order |
| PdfPreview.Preview.HandleDragStart | components/PDFPreview.js:51-53 | the thumbnail at that position is being dragged |
| PdfPreview.Preview.HandleDrop | components/PDFPreview.js:59-70 | without a drag nothing happens; otherwise the order becomes the move, is reported and the drag ends |
| Server.Answer | server/index.js:49-51 | a codec result is sent on success and reported as a 500 with its failure otherwise |
| Server.MergeHandler | server/index.js:25-52 | fewer than two uploads give a 400; otherwise the answer is sent iff every upload loads, and then it is their pages in upload order, saved; a 500 names the failure of an upload that does not load |
| Server.Named | server/index.js:73-83 | each output is paired with its range's name, in range order |
| Server.SplitHandler | server/index.js:55-92 | the checks run in order: file, ranges field, load, JSON. On success there is one named output per range with the pages at its indices, saved (an empty range gives one default page); an index out of range gives a 500 |
| Server.PageIndexOf | server/index.js:110 | a parsed number is the index; NaN names no page |
| Server.AddImageHandler | server/index.js:95-139 | both files are required; an image is placed iff it embeds and the parsed page index names a page |
| Server.NUpHandler | server/index.js:142-202 | the config is parsed before the PDF is loaded; a zero count on a non-empty document never answers; otherwise the answer is the saved imposition, one default page when there are no sheets |
| Server.PreviewPages | server/index.js:217-239 | the first 50 pages of a longer document, all pages of a shorter one, always a prefix |
| Server.PreviewIdempotent | server/index.js:217-239 | previewing a preview changes nothing |
| Server.PreviewHandler | server/index.js:205-253 | the copy loop yields exactly the preview pages of the loaded document; the 50-page preview is saved without a default page, a shorter document with one when it has no pages |
| PdfEditor.Classify | components/PDFEditor.js:36-51 | "application/pdf" is kept as a PDF, any "image/..." type as an image with its type, anything else dropped; name and contents are kept |
| PdfEditor.Classified | components/PDFEditor.js:32-52 | each file is classified in upload order |
| PdfEditor.UploadedFromFiles | components/PDFEditor.js:32-52 | every kept file is one of the uploads, kept under its own name, contents and type |
| PdfEditor.KeepUploads | components/PDFEditor.js:30-52 | the upload loop keeps exactly the classified files, in order |
| PdfEditor.PdfsOf | components/PDFEditor.js:81 | only PDFs, each one of the session's files, and every PDF among the files is kept |
| PdfEditor.PdfsOfOne | components/PDFEditor.js:81 | a single file is kept iff it is a PDF |
| PdfEditor.PdfsOfAppend | components/PDFEditor.js:81 | the filter keeps file order: the PDFs of two lists in turn are the PDFs of the first, then those of the second |
| PdfEditor.TwoPdfs | components/PDFEditor.js:452 | the filter keeps at least two files iff two positions of the list hold PDFs |
| PdfEditor.PdfsOfAll | components/PDFEditor.js:81 | a list of PDFs is kept whole |
| PdfEditor.DataOf | components/PDFEditor.js:114 | the contents of each file, in order |
| PdfEditor.JsonRoundTrip | components/PDFEditor.js:55 | names and kinds survive the JSON copy, but every contents becomes `{}` |
| PdfEditor.JsonRoundTripTwice | components/PDFEditor.js:366 | the second JSON copy `reset` takes loses nothing further |
| PdfEditor.JsonSnapshotLosesDocument | components/PDFEditor.js:365-372 | a JSON snapshot whose first file is a PDF no longer loads, so `reset` leaves the current document as it was, and its PDFs no longer merge |
| PdfEditor.PdfsOfPrefix | components/PDFEditor.js:81 | a list that starts with a PDF keeps at least one |
| PdfEditor.SnapshotCopy | components/PDFEditor.js:55 | a copy of the files, as many as there are |
| PdfEditor.SnapshotKeepsDocuments | components/PDFEditor.js:365-372 | the copied snapshot loads, reloads on reset and merges exactly as the files it was taken of |
| PdfEditor.CorrectedSessionRestores | components/PDFEditor.js:365-377 | with both snapshots taken by structured copy, upload, delete page 0 and reset: the edit leaves the other pages, or one default page when the document had one page, and reset brings back the uploaded first PDF and the uploaded files |
| PdfEditor.DownloadName | components/PDFEditor.js:154 | "split_" then the range name then ".pdf" |
| PdfEditor.Downloads | components/PDFEditor.js:144-157 | one download per range, in range order, named after it and holding the saved document |
| PdfEditor.Editor.constructor | components/PDFEditor.js:14-21 | no files, no document, nothing selected, no error |
| PdfEditor.Editor.TotalPages | components/PDFEditor.js:451 | the current document's page count, 0 without one |
| PdfEditor.Editor.HasMultiplePdfs | components/PDFEditor.js:452 | the merge is offered iff two of the session's files are PDFs |
| PdfEditor.Editor.HandleFilesUpload | components/PDFEditor.js:24-72 | the kept files replace the files, and their JSON copy (names and kinds kept, contents `{}`) becomes the snapshot; a first PDF becomes current as saved, or its load failure is shown; a current document always has a page |
| PdfEditor.Editor.MergePDFs | components/PDFEditor.js:74-132 | refused with fewer than two PDFs; otherwise the current document becomes their saved merge, or the first load failure is shown, and the files are unchanged |
| PdfEditor.Editor.SplitPDF | components/PDFEditor.js:134-178 | no document gives an error; otherwise one named download per range iff every index is in range; the document is unchanged |
| PdfEditor.Editor.AddImage | components/PDFEditor.js:180-218 | no document gives an error; otherwise the placed image's document becomes current as saved, or the failure is shown and the document kept |
| PdfEditor.Editor.CreateNUp | components/PDFEditor.js:220-302 | no document gives an error; otherwise the saved imposition becomes current |
| PdfEditor.Editor.RotatePage | components/PDFEditor.js:319-332 | the rotated document becomes current as saved, or the failure is shown and the document kept |
| PdfEditor.Editor.DeletePage | components/PDFEditor.js:334-346 | the document without the page becomes current as saved (one default page when it was the last page), or the failure is shown and the document kept |
| PdfEditor.Editor.ReorderPages | components/PDFEditor.js:348-363 | copies of the pages in the given order become current as saved, or the failure is shown and the document kept |
| PdfEditor.Editor.Reset | components/PDFEditor.js:365-377 | the files become a JSON copy of the snapshot, the selection is emptied and the error cleared; the current document is replaced, as saved, only when the snapshot's first file is a PDF that loads |
| PdfEditor.UploadEditReset | components/PDFEditor.js:365-377 | upload, delete the first page, reset: the document stays without its first page (one default page when it had one page), the files hold `{}` contents, and a merge of them fails |

## Left out

- File I/O and the network are left out: `file.arrayBuffer()`, `fetch`, multer, `res.send`, blob URLs and downloads. Bytes are modelled by what they decode to (`Codec.Bytes`). Saving is `Codec.Save`: pdf-lib adds a blank A4 page (595.28 x 841.89) to a document without pages unless `addDefaultPage: false` is passed, which only the 50-page preview does (server/index.js:227-230). Loading saved bytes gives back the saved document.
- The backend branches of the editor (`useBackend`) and the server-side preview are left out. They only send the same data to the server handlers, which are modelled on their own in `Server`.
- The progress bar, the loading flag, the operation texts and the message strings are left out. An editor error is modelled as the operation and its cause (`PdfEditor.Problem`).
- The asynchrony and React state batching are left out. Each handler is one atomic step.
- `reset` reloads the document asynchronously, and its promise has no rejection handler. `PdfEditor.Editor.Reset` models the session state after the promise settles; a rejected load leaves the current document as it was.
- `JSON.parse` is not modelled on text. A JSON form field carries what it parses to, or None when parsing throws (`Server.JsonField`).
- IEEE floating point is not modelled. The N-up geometry and the image placement use exact reals, and `parseFloat` of a coordinate is taken as already done.
- `parseInt` is modelled on unbounded integers. Precision loss above 2^53 is not modelled.
- The modal dialogs are left out, apart from the fields they send:
  - the split text field and its default (Toolbar.js:24);
  - the image dialog's page number (Toolbar.js:254);
  - the N-up dialog's choices of 2, 4 or 6 pages per sheet (Toolbar.js:356-359).
- FileUpload.js, ProgressBar.js and the page layout are not part of this model. They hold no page logic.
- The server's `getGridConfig` and `getGridPosition` (server/index.js:256-269) are identical to the editor's. They share the one definition in `Layout`.
- PdfEditor.Editor.CreateNUp: requires a non-zero count of pages per sheet, because the dialog only offers 2, 4 and 6. With 0 the source's loop never ends; `Server.NUpHandler` models that case as `NoReply`.
- PdfPreview.Preview.HandleDrop: requires the dragged position to be on display. A drag left over from a document with more pages is not modelled.
- Selected pages are a list of distinct numbers in insertion order, which is how a JavaScript `Set` iterates. They are not a mathematical set.
- Compose.Rotate: the stored angle is the old angle plus the delta, not reduced modulo 360 (PDFEditor.js:324).
- Codec.SetRotation: PDFEditor.js:324 passes a plain `{ angle }` object without the `type` field that pdf-lib's `degrees()` sets. The library is assumed to read that object as degrees. pdf-lib is not part of this model; if its conversion rejects an untyped rotation, every `rotatePage` call fails instead.
- PdfEditor.CorrectedSessionRestores: the corrected session is stated on values: what `reset` reloads from a structured-copy snapshot. It is not a second session class. `PdfEditor.Editor` runs the code as written.
- PdfEditor.SnapshotCopy: its own contract states only the length. The element-wise equality and the loading behaviour are stated in `PdfEditor.SnapshotKeepsDocuments`.
- Server.PreviewIdempotent: follows from `Server.PreviewPages`'s contract without further proof.

## Findings

| source | as written | input that shows it | evidently intended | confidence | as-written member | corrected member |
|---|---|---|---|---|---|---|
| components/PDFEditor.js:55 | the reset snapshot is taken with `JSON.parse(JSON.stringify(uploadedFiles))`, which turns every ArrayBuffer into `{}`; `reset` (PDFEditor.js:365-377) then loads `{}` and throws | upload one PDF of two or more pages, delete page 0, then `reset`: the document stays without its first page | the snapshot keeps the bytes, so `reset` restores the uploaded document and the restored files still merge | not executed | PdfEditor.UploadEditReset | PdfEditor.CorrectedSessionRestores |
