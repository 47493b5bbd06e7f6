/**
 * The thumbnail view: the page selection (a JavaScript `Set` of 1-based page
 * numbers, kept here as the list of its members in insertion order) and the
 * display order of the thumbnails, which a drag-and-drop rearranges.
 */
module PdfPreview {
  import opened JsText
  import opened Codec

  /** No number occurs twice: what a `Set` guarantees of its members. */
  predicate Distinct(s: seq<int>) {
    forall i, j :: 0 <= i < j < |s| ==> s[i] != s[j]
  }

  /** `set.add(x)`: a new member goes to the end; a present one stays where it is. */
  function SetAdd(s: seq<int>, x: int): (r: seq<int>)
    ensures forall y :: y in r <==> y in s || y == x
    ensures Distinct(s) ==> Distinct(r)
    ensures x in s ==> r == s
    ensures x !in s ==> r == s + [x]
  {
    if x in s then s else s + [x]
  }

  /** `set.delete(x)`: the list without `x`, the other members in their order. */
  function SetDelete(s: seq<int>, x: int): (r: seq<int>)
    ensures forall y :: y in r <==> y in s && y != x
    ensures |r| <= |s|
    ensures Distinct(s) ==> Distinct(r)
    ensures x !in s ==> r == s
  {
    if |s| == 0 then []
    else
      var rest := SetDelete(s[1..], x);
      assert s == [s[0]] + s[1..];
      assert Distinct(s) ==> Distinct(s[1..]) && s[0] !in s[1..] by {
        if Distinct(s) {
          forall k | 0 <= k < |s[1..]|
            ensures s[1..][k] != s[0]
          {
            assert s[1..][k] == s[k + 1];
          }
        }
      }
      if s[0] == x then rest else [s[0]] + rest
  }

  /** `togglePageSelection`: a page number that was selected is deselected and one that was not is selected. */
  function Toggle(selected: seq<int>, pageNum: int): (r: seq<int>)
    ensures pageNum in r <==> pageNum !in selected
    ensures forall q :: q != pageNum ==> (q in r <==> q in selected)
    ensures Distinct(selected) ==> Distinct(r)
  {
    if pageNum in selected then SetDelete(selected, pageNum) else SetAdd(selected, pageNum)
  }

  /** Deleting the member just added gives back the list. */
  lemma {:induction false} DeleteAdded(s: seq<int>, x: int)
    requires x !in s
    ensures SetDelete(s + [x], x) == s
  {
    if |s| == 0 {
      assert SetDelete([x], x) == SetDelete([x][1..], x);
    } else {
      assert (s + [x])[1..] == s[1..] + [x];
      DeleteAdded(s[1..], x);
      assert [s[0]] + s[1..] == s;
    }
  }

  /**
   * Toggling a page twice selects the same pages as before; when the page
   * was not selected it gives back the very same set, while a selected page
   * comes back as the newest member, as a `Set` re-adding it would make it.
   */
  lemma ToggleTwice(selected: seq<int>, pageNum: int)
    ensures forall q :: q in Toggle(Toggle(selected, pageNum), pageNum) <==> q in selected
    ensures pageNum !in selected ==> Toggle(Toggle(selected, pageNum), pageNum) == selected
    ensures pageNum in selected ==>
      Toggle(Toggle(selected, pageNum), pageNum) == SetDelete(selected, pageNum) + [pageNum]
  {
    if pageNum !in selected {
      DeleteAdded(selected, pageNum);
    }
  }

  function Min(a: int, b: int): int { if a <= b then a else b }
  function Max(a: int, b: int): int { if a <= b then b else a }

  /**
   * `selectRange`: every page number from the smaller to the larger end is
   * added, in ascending order, after the members already there. The ends
   * play symmetric parts, so the order they are given in does not matter.
   */
  method SelectRange(selected: seq<int>, start: int, end: int) returns (r: seq<int>)
    ensures |r| >= |selected| && r[..|selected|] == selected
    ensures forall x :: x in r <==> x in selected || Min(start, end) <= x <= Max(start, end)
    ensures Distinct(selected) ==> Distinct(r)
    ensures forall a, b :: |selected| <= a < b < |r| ==> r[a] < r[b]
  {
    var lo, hi := Min(start, end), Max(start, end);
    r := selected;
    var i := lo;
    while i <= hi
      invariant lo <= i <= hi + 1
      invariant |r| >= |selected| && r[..|selected|] == selected
      invariant forall x :: x in r <==> x in selected || lo <= x < i
      invariant Distinct(selected) ==> Distinct(r)
      invariant forall a, b :: |selected| <= a < b < |r| ==> r[a] < r[b]
      invariant forall a :: |selected| <= a < |r| ==> r[a] < i
    {
      r := SetAdd(r, i);
      i := i + 1;
    }
  }

  /** `selectAll`: every page number of the document, 1 to numPages. */
  function SelectAll(numPages: nat): (r: seq<int>)
    ensures |r| == numPages && Distinct(r)
    ensures forall x :: x in r <==> 1 <= x <= numPages
  {
    var r := seq(numPages, i => i + 1);
    assert forall x :: x in r <==> 1 <= x <= numPages by {
      forall x | 1 <= x <= numPages
        ensures x in r
      {
        assert r[x - 1] == x;
      }
    }
    r
  }

  /** `clearSelection`: no page is selected afterwards. */
  function ClearSelection(): (r: seq<int>)
    ensures forall x :: x !in r
  {
    []
  }

  /** The thumbnail of the page at 0-based index `pageIndex` shows as checked when page number pageIndex + 1 is selected. */
  predicate IsChecked(selected: seq<int>, pageIndex: int) {
    pageIndex + 1 in selected
  }

  /** Clicking a thumbnail's checkbox flips that thumbnail and no other. */
  lemma CheckboxFlipsOneThumbnail(selected: seq<int>, pageIndex: int)
    ensures IsChecked(Toggle(selected, pageIndex + 1), pageIndex) <==> !IsChecked(selected, pageIndex)
    ensures forall i :: i != pageIndex ==> (IsChecked(Toggle(selected, pageIndex + 1), i) <==> IsChecked(selected, i))
  {
    forall i | i != pageIndex
      ensures IsChecked(Toggle(selected, pageIndex + 1), i) <==> IsChecked(selected, i)
    {
      assert i + 1 != pageIndex + 1;
    }
  }

  /** After "select all", exactly the thumbnails of the document show as checked. */
  lemma SelectAllChecksEveryThumbnail(numPages: nat)
    ensures forall i :: IsChecked(SelectAll(numPages), i) <==> 0 <= i < numPages
  {
    forall i
      ensures IsChecked(SelectAll(numPages), i) <==> 0 <= i < numPages
    {
      assert IsChecked(SelectAll(numPages), i) <==> i + 1 in SelectAll(numPages);
    }
  }

  /** The list without the element at `at`: `splice(at, 1)`. */
  function RemoveAt(s: seq<int>, at: nat): (r: seq<int>)
    requires at < |s|
    ensures |r| == |s| - 1
    ensures forall k :: 0 <= k < at ==> r[k] == s[k]
    ensures forall k :: at <= k < |r| ==> r[k] == s[k + 1]
  {
    s[..at] + s[at + 1..]
  }

  /** The list with `x` put in at `at`: `splice(at, 0, x)`. */
  function InsertAt(s: seq<int>, at: nat, x: int): (r: seq<int>)
    requires at <= |s|
    ensures |r| == |s| + 1 && r[at] == x
    ensures forall k :: 0 <= k < at ==> r[k] == s[k]
    ensures forall k :: at < k < |r| ==> r[k] == s[k - 1]
  {
    s[..at] + [x] + s[at..]
  }

  /** `handleDrop`'s two splices: the item at `from` taken out and put back in at `to`. */
  function Moved(order: seq<int>, from: nat, to: nat): seq<int>
    requires from < |order| && to < |order|
  {
    InsertAt(RemoveAt(order, from), to, order[from])
  }

  /** Taking an element out leaves the other elements. */
  lemma RemoveAtMultiset(s: seq<int>, at: nat)
    requires at < |s|
    ensures multiset(RemoveAt(s, at)) + multiset{s[at]} == multiset(s)
  {
    assert s == s[..at] + [s[at]] + s[at + 1..];
  }

  /** Putting an element in adds it to the others. */
  lemma InsertAtMultiset(s: seq<int>, at: nat, x: int)
    requires at <= |s|
    ensures multiset(InsertAt(s, at, x)) == multiset(s) + multiset{x}
  {
    assert s == s[..at] + s[at..];
  }

  /** Taking out what was just put in gives back the list. */
  lemma RemoveInserted(s: seq<int>, at: nat, x: int)
    requires at <= |s|
    ensures RemoveAt(InsertAt(s, at, x), at) == s
  {
  }

  /**
   * The order after a drop holds the same items: the dragged one at the
   * target position and the others in their previous relative order.
   */
  lemma MovedIsPermutation(order: seq<int>, from: nat, to: nat)
    requires from < |order| && to < |order|
    ensures |Moved(order, from, to)| == |order|
    ensures multiset(Moved(order, from, to)) == multiset(order)
    ensures Moved(order, from, to)[to] == order[from]
    ensures RemoveAt(Moved(order, from, to), to) == RemoveAt(order, from)
  {
    var rest := RemoveAt(order, from);
    RemoveAtMultiset(order, from);
    InsertAtMultiset(rest, to, order[from]);
    RemoveInserted(rest, to, order[from]);
  }

  /** Dragging the item back from where it was dropped restores the order. */
  lemma MovedBack(order: seq<int>, from: nat, to: nat)
    requires from < |order| && to < |order|
    ensures Moved(Moved(order, from, to), to, from) == order
  {
    var moved := Moved(order, from, to);
    MovedIsPermutation(order, from, to);
    var rest := RemoveAt(order, from);
    assert Moved(moved, to, from) == InsertAt(rest, from, order[from]);
    assert InsertAt(rest, from, order[from]) == order by {
      assert rest[..from] == order[..from];
      assert rest[from..] == order[from + 1..];
    }
  }

  /** The page view: how many pages the loaded document has, the display order of its thumbnails and the thumbnail being dragged. */
  class Preview {
    var numPages: nat
    var pageOrder: seq<int>
    var draggedPage: Option<nat>

    /** A dragged thumbnail, if any, is one of those on display. */
    predicate Valid()
      reads this
    {
      draggedPage.Some? ==> draggedPage.value < |pageOrder|
    }

    /** The view before a document has loaded: no pages, nothing dragged. */
    constructor ()
      ensures numPages == 0 && pageOrder == [] && draggedPage == None
      ensures Valid()
    {
      numPages := 0;
      pageOrder := [];
      draggedPage := None;
    }

    /** `onDocumentLoadSuccess`: the page count is recorded and the thumbnails show in document order. */
    method OnDocumentLoadSuccess(n: nat)
      modifies this
      ensures numPages == n && pageOrder == Indices(n)
      ensures draggedPage == old(draggedPage)
    {
      numPages := n;
      pageOrder := Indices(n);
    }

    /** `handleDragStart`: the thumbnail at this display position is being dragged. */
    method HandleDragStart(displayIndex: nat)
      requires displayIndex < |pageOrder|
      modifies this
      ensures draggedPage == Some(displayIndex)
      ensures numPages == old(numPages) && pageOrder == old(pageOrder)
      ensures Valid()
    {
      draggedPage := Some(displayIndex);
    }

    /**
     * `handleDrop`: with nothing dragged nothing happens; otherwise the
     * dragged thumbnail moves to the drop position, the new order is reported
     * (the order handed to `onReorder`) and the drag ends.
     */
    method HandleDrop(targetIndex: nat) returns (reordered: Option<seq<int>>)
      requires Valid() && targetIndex < |pageOrder|
      modifies this
      ensures old(draggedPage).None? ==>
        reordered == None && pageOrder == old(pageOrder) && draggedPage == None
      ensures old(draggedPage).Some? ==>
        pageOrder == Moved(old(pageOrder), old(draggedPage).value, targetIndex) &&
        reordered == Some(pageOrder) && draggedPage == None
      ensures numPages == old(numPages) && Valid()
    {
      if draggedPage.None? {
        return None;
      }
      var from := draggedPage.value;
      var draggedItem := pageOrder[from];
      var newOrder := RemoveAt(pageOrder, from);
      newOrder := InsertAt(newOrder, targetIndex, draggedItem);
      pageOrder := newOrder;
      reordered := Some(newOrder);
      draggedPage := None;
    }

  }
}
