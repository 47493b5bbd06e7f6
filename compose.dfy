/**
 * The page-sequence operations shared by the browser editor and the server:
 * merging documents in file order, splitting by ranges, reordering, rotating,
 * deleting a page and stamping an image onto a page. Each builds a new
 * document through the codec and fails as a whole when a codec call throws.
 */
module Compose {
  import opened Codec

  /** A named list of 0-based page indices; one range yields one output document. */
  datatype Range = Range(name: string, pages: seq<int>)

  /** The pages of the documents one after another, each document's pages in order. */
  function Concat(docs: seq<Document>): (r: Document)
  {
    if |docs| == 0 then [] else Concat(docs[..|docs| - 1]) + docs[|docs| - 1]
  }

  /** The total number of pages of a list of documents. */
  function PageTotal(docs: seq<Document>): nat
  {
    if |docs| == 0 then 0 else PageTotal(docs[..|docs| - 1]) + |docs[|docs| - 1]|
  }

  lemma {:induction false} ConcatLength(docs: seq<Document>)
    ensures |Concat(docs)| == PageTotal(docs)
  {
    if |docs| > 0 {
      ConcatLength(docs[..|docs| - 1]);
    }
  }

  /** Concatenation respects file order: merging a list of files is merging its parts one after the other. */
  lemma {:induction false} ConcatAppend(xs: seq<Document>, ys: seq<Document>)
    ensures Concat(xs + ys) == Concat(xs) + Concat(ys)
  {
    if |ys| == 0 {
      assert xs + ys == xs;
    } else {
      var init, last := ys[..|ys| - 1], ys[|ys| - 1];
      var zs := xs + ys;
      assert zs[..|zs| - 1] == xs + init;
      assert zs[|zs| - 1] == last;
      assert Concat(zs) == Concat(xs + init) + last;
      ConcatAppend(xs, init);
      assert Concat(ys) == Concat(init) + last;
    }
  }

  /**
   * What the merge loop produces from the files' data, in file order: the
   * concatenation of their pages, or the failure of the first file that does
   * not load.
   */
  function Merged(files: seq<Data>): (r: Result<Document>)
    ensures r.Ok? ==> AllLoad(files)
  {
    if |files| == 0 then Ok([])
    else
      match Merged(files[..|files| - 1])
      case Err(f) => Err(f)
      case Ok(prefix) =>
        match Load(files[|files| - 1])
        case Err(f) => Err(f)
        case Ok(doc) => Ok(prefix + doc)
  }

  /** Every file loads. */
  predicate AllLoad(files: seq<Data>) {
    forall i :: 0 <= i < |files| ==> Load(files[i]).Ok?
  }

  /** The documents the files load to. */
  function LoadedDocs(files: seq<Data>): (docs: seq<Document>)
    requires AllLoad(files)
    ensures |docs| == |files|
  {
    seq(|files|, i requires 0 <= i < |files| => Load(files[i]).value)
  }

  /**
   * Merging succeeds exactly when every file loads, and then yields the
   * concatenation of the loaded documents in file order; otherwise it fails
   * with the failure of the first file that does not load.
   */
  lemma {:induction false} MergedIsConcatenation(files: seq<Data>)
    ensures Merged(files).Ok? <==> AllLoad(files)
    ensures AllLoad(files) ==> Merged(files).value == Concat(LoadedDocs(files))
    ensures Merged(files).Err? ==>
      exists j :: 0 <= j < |files| && Load(files[j]).Err? && AllLoad(files[..j]) &&
        Merged(files).failure == Load(files[j]).failure
  {
    if |files| > 0 {
      var init := files[..|files| - 1];
      MergedIsConcatenation(init);
      assert forall i :: 0 <= i < |init| ==> init[i] == files[i];
      if AllLoad(files) {
        assert AllLoad(init);
        assert LoadedDocs(files) == LoadedDocs(init) + [Load(files[|files| - 1]).value];
        assert LoadedDocs(files)[..|files| - 1] == LoadedDocs(init);
      } else if Merged(init).Err? {
        var j :| 0 <= j < |init| && Load(init[j]).Err? && AllLoad(init[..j]) &&
          Merged(init).failure == Load(init[j]).failure;
        assert init[..j] == files[..j];
      } else {
        assert files[..|files| - 1] == init;
      }
    }
  }

  /** Once a prefix of the files fails to merge, the whole list fails the same way. */
  lemma {:induction false} MergedFailureSticks(files: seq<Data>, j: nat)
    requires j <= |files| && Merged(files[..j]).Err?
    ensures Merged(files) == Merged(files[..j])
  {
    if j < |files| {
      assert files[..|files| - 1][..j] == files[..j];
      MergedFailureSticks(files[..|files| - 1], j);
    } else {
      assert files[..j] == files;
    }
  }

  /**
   * The merge loop (client: each stored PDF; server: each uploaded buffer):
   * load a file, copy all its pages, append them, and stop at the first file
   * that does not load.
   */
  method MergeFiles(files: seq<Data>) returns (r: Result<Document>)
    ensures r == Merged(files)
  {
    var merged: Document := [];
    var i := 0;
    while i < |files|
      invariant 0 <= i <= |files|
      invariant Merged(files[..i]) == Ok(merged)
    {
      assert files[..i + 1][..i] == files[..i];
      var loaded := Load(files[i]);
      if loaded.Err? {
        MergedFailureSticks(files, i + 1);
        return Err(loaded.failure);
      }
      var pages := CopyPages(loaded.value, Indices(|loaded.value|));
      SelectIndices(loaded.value);
      merged := merged + pages.value;
      i := i + 1;
    }
    assert files[..i] == files;
    r := Ok(merged);
  }

  /** Two files that load merge into the first one's pages followed by the second one's. */
  lemma MergeTwo(a: Data, b: Data)
    requires Load(a).Ok? && Load(b).Ok?
    ensures Merged([a, b]) == Ok(Load(a).value + Load(b).value)
  {
    assert [a, b][..1] == [a];
    assert [a][..0] == [];
    assert Merged([a]) == Ok([] + Load(a).value);
    assert [] + Load(a).value == Load(a).value;
  }

  /**
   * The split loop (client and server alike): one output document per range,
   * in range order, each holding copies of the source pages at the range's
   * indices in the range's own order; any index outside the source aborts it.
   */
  method SplitByRanges(source: Document, ranges: seq<Range>) returns (r: Result<seq<Document>>)
    ensures r.Ok? <==> forall k :: 0 <= k < |ranges| ==> AllInRange(ranges[k].pages, |source|)
    ensures r.Ok? ==> |r.value| == |ranges|
    ensures r.Ok? ==> forall k :: 0 <= k < |ranges| ==> r.value[k] == Select(source, ranges[k].pages)
    ensures r.Err? ==> r.failure == PageMissing
  {
    var results: seq<Document> := [];
    var i := 0;
    while i < |ranges|
      invariant 0 <= i <= |ranges|
      invariant |results| == i
      invariant forall k :: 0 <= k < i ==> AllInRange(ranges[k].pages, |source|)
      invariant forall k :: 0 <= k < i ==> results[k] == Select(source, ranges[k].pages)
    {
      var pages := CopyPages(source, ranges[i].pages);
      if pages.Err? {
        return Err(pages.failure);
      }
      results := results + [pages.value];
      i := i + 1;
    }
    r := Ok(results);
  }

  /** Reordering by a list that repeats or drops nothing keeps exactly the same pages. */
  lemma ReorderByPermutation(doc: Document, newOrder: seq<int>)
    requires multiset(newOrder) == multiset(Indices(|doc|))
    ensures AllInRange(newOrder, |doc|)
    ensures multiset(Select(doc, newOrder)) == multiset(doc)
  {
    forall k | 0 <= k < |newOrder|
      ensures 0 <= newOrder[k] < |doc|
    {
      assert newOrder[k] in multiset(newOrder);
      assert newOrder[k] in Indices(|doc|);
    }
    SameIndicesSamePages(doc, newOrder, Indices(|doc|));
    SelectIndices(doc);
  }

  /** Selecting by two index lists holding the same indices yields the same pages, counted with repetition. */
  lemma {:induction false} SameIndicesSamePages<T>(s: seq<T>, a: seq<int>, b: seq<int>)
    requires AllInRange(a, |s|) && AllInRange(b, |s|)
    requires multiset(a) == multiset(b)
    ensures multiset(Select(s, a)) == multiset(Select(s, b))
    decreases |a|
  {
    if |a| > 0 {
      assert a[0] in multiset(a);
      var j := PositionOf(b, a[0]);
      DropOne(a, 0);
      DropOne(b, j);
      SelectDrop(s, a, 0);
      SelectDrop(s, b, j);
      SameIndicesSamePages(s, Without(a, 0), Without(b, j));
    } else {
      assert |b| == 0;
    }
  }

  /** The list without the element at position j. */
  function Without<T>(s: seq<T>, j: nat): (r: seq<T>)
    requires j < |s|
    ensures |r| == |s| - 1
  {
    s[..j] + s[j + 1..]
  }

  /** A position at which an element of the list occurs. */
  lemma PositionOf(b: seq<int>, x: int) returns (j: nat)
    requires x in multiset(b)
    ensures j < |b| && b[j] == x
  {
    j :| 0 <= j < |b| && b[j] == x;
  }

  /** Dropping one index drops one occurrence of its page from the selection. */
  lemma SelectDrop<T>(s: seq<T>, b: seq<int>, j: nat)
    requires AllInRange(b, |s|) && j < |b|
    ensures AllInRange(Without(b, j), |s|)
    ensures multiset(Select(s, b)) == multiset(Select(s, Without(b, j))) + multiset{s[b[j]]}
  {
    var t := Select(s, b);
    assert Without(t, j) == Select(s, Without(b, j));
    DropOne(t, j);
  }

  /** Dropping the element at one position removes one occurrence of it. */
  lemma DropOne<T>(s: seq<T>, j: nat)
    requires j < |s|
    ensures multiset(Without(s, j)) == multiset(s) - multiset{s[j]}
  {
    assert s == s[..j] + [s[j]] + s[j + 1..];
  }

  /** Reordering twice is reordering once by the composed index list. */
  lemma ReorderTwice(doc: Document, first: seq<int>, second: seq<int>)
    requires AllInRange(first, |doc|) && AllInRange(second, |first|)
    ensures AllInRange(Select(first, second), |doc|)
    ensures Select(Select(doc, first), second) == Select(doc, Select(first, second))
  {
  }

  /** Deleting a page is the same as reordering by every index but that one. */
  lemma DeleteIsReorderWithout(doc: Document, index: int)
    requires 0 <= index < |doc|
    ensures var keep := Indices(|doc|)[..index] + Indices(|doc|)[index + 1..];
      AllInRange(keep, |doc|) && RemovePage(doc, index) == Ok(Select(doc, keep))
  {
    var keep := Indices(|doc|)[..index] + Indices(|doc|)[index + 1..];
    assert forall k :: 0 <= k < |keep| ==> keep[k] == if k < index then k else k + 1;
    assert Select(doc, keep) == doc[..index] + doc[index + 1..];
  }

  /**
   * `rotatePage`: the page's rotation becomes its current angle plus the delta
   * (no reduction modulo 360); every other page is untouched. Fails for an
   * index that names no page and for an angle that is not a multiple of 90.
   */
  function Rotate(doc: Document, index: int, degrees: int): (r: Result<Document>)
    ensures r.Ok? <==> 0 <= index < |doc| && (doc[index].rotation + degrees) % 90 == 0
    ensures r.Ok? ==> |r.value| == |doc|
    ensures r.Ok? ==> r.value[index] == doc[index].(rotation := doc[index].rotation + degrees)
    ensures r.Ok? ==> forall j :: 0 <= j < |doc| && j != index ==> r.value[j] == doc[j]
    ensures r.Err? ==> r.failure == if 0 <= index < |doc| then NotQuarterTurn else PageMissing
  {
    if 0 <= index < |doc| then
      match SetRotation(doc[index], doc[index].rotation + degrees)
      case Err(f) => Err(f)
      case Ok(page) => Ok(doc[index := page])
    else Err(PageMissing)
  }

  /** Two rotations of one page add up. */
  lemma RotateTwice(doc: Document, index: int, a: int, b: int)
    requires Rotate(doc, index, a).Ok?
    ensures Rotate(Rotate(doc, index, a).value, index, b) == Rotate(doc, index, a + b)
  {
    var once := Rotate(doc, index, a).value;
    if Rotate(once, index, b).Ok? {
      assert once[index := once[index].(rotation := once[index].rotation + b)] ==
        doc[index := doc[index].(rotation := doc[index].rotation + a + b)];
    }
  }

  /**
   * Four quarter turns succeed on a page whose angle is a multiple of 90 and
   * leave it at its angle plus 360: the same orientation, but not the same
   * stored value, because the angle is never reduced.
   */
  lemma FourQuarterTurns(doc: Document, index: int)
    requires 0 <= index < |doc| && doc[index].rotation % 90 == 0
    ensures var once := Rotate(doc, index, 90).value;
      var twice := Rotate(once, index, 90).value;
      var thrice := Rotate(twice, index, 90).value;
      Rotate(thrice, index, 90) == Rotate(doc, index, 360) &&
      Rotate(thrice, index, 90).value[index].rotation == doc[index].rotation + 360 &&
      Rotate(thrice, index, 90).value[index].rotation % 360 == doc[index].rotation % 360
  {
    RotateTwice(doc, index, 90, 90);
    var twice := Rotate(doc, index, 180).value;
    RotateTwice(doc, index, 180, 90);
    RotateTwice(doc, index, 270, 90);
  }

  /** The raster format an image is embedded as: PNG exactly for the mimetype "image/png", JPEG for anything else. */
  function FormatForMime(mimeType: string): (f: ImageFormat)
    ensures f == Png <==> mimeType == "image/png"
  {
    if mimeType == "image/png" then Png else Jpeg
  }

  /** Where and how large an image goes, in top-left-origin coordinates as the user gives them. */
  datatype Placement = Placement(pageIndex: int, x: real, y: real, width: real, height: real)

  /**
   * The image's bottom edge in the page space, whose origin is the
   * bottom-left corner: the box's top edge then lies `y` below the top of
   * the page.
   */
  function BottomLeftY(pageHeight: real, y: real, height: real): (bottom: real)
    ensures pageHeight - (bottom + height) == y
  {
    pageHeight - y - height
  }

  /**
   * `addImage` / `/api/add-image`: embed the image (as PNG or JPEG by
   * mimetype), then draw it onto the page so that its top edge lies `y`
   * points below the top of the page and its left edge `x` points from the
   * left; every other page is untouched.
   */
  function PlaceImage(doc: Document, imageData: Data, mimeType: string, at: Placement): (r: Result<Document>)
    ensures r.Ok? <==> EmbedImage(imageData, FormatForMime(mimeType)).Ok? && 0 <= at.pageIndex < |doc|
    ensures r.Err? && EmbedImage(imageData, FormatForMime(mimeType)).Ok? ==> r.failure == PageMissing
    ensures r.Err? && EmbedImage(imageData, FormatForMime(mimeType)).Err? ==>
      r.failure == EmbedImage(imageData, FormatForMime(mimeType)).failure
    ensures r.Ok? ==> |r.value| == |doc|
    ensures r.Ok? ==> forall j :: 0 <= j < |doc| && j != at.pageIndex ==> r.value[j] == doc[j]
    ensures r.Ok? ==>
      var page := r.value[at.pageIndex];
      var old_ := doc[at.pageIndex];
      page.(marks := old_.marks) == old_ && |page.marks| == |old_.marks| + 1 &&
      page.marks[..|old_.marks|] == old_.marks &&
      var m := page.marks[|old_.marks|];
      m.DrawnImage? && m.image.format == FormatForMime(mimeType) &&
      m.box.x == at.x && m.box.width == at.width && m.box.height == at.height &&
      old_.height - (m.box.y + m.box.height) == at.y
  {
    match EmbedImage(imageData, FormatForMime(mimeType))
    case Err(f) => Err(f)
    case Ok(image) =>
      if 0 <= at.pageIndex < |doc| then
        var page := doc[at.pageIndex];
        var box := Box(at.x, BottomLeftY(page.height, at.y, at.height), at.width, at.height);
        Ok(doc[at.pageIndex := Draw(page, DrawnImage(image, box))])
      else Err(PageMissing)
  }
}
