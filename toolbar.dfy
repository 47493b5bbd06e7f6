/**
 * The toolbar's page-range logic: the split dialog's text ("1-3, 5, 7-10")
 * parsed into named lists of 0-based page indices, the page selection turned
 * into one range, and the page actions offered for a single selected page.
 * Tokens that do not describe pages of the document are dropped, never
 * reported.
 */
module Toolbar {
  import opened JsText
  import opened Codec
  import opened Compose

  /** The pages a run `start-end` (1-based, inclusive) denotes, 0-based: start-1, ..., end-1. */
  function RunPages(start: int, end: int): (pages: seq<int>)
    requires start <= end
    ensures |pages| == end - start + 1
    ensures forall k :: 0 <= k < |pages| ==> pages[k] == start - 1 + k
  {
    seq(end - start + 1, k => start - 1 + k)
  }

  /** A run within the document names only pages of it, one after the other. */
  lemma RunInBounds(start: int, end: int, total: nat)
    requires 1 <= start <= end <= total
    ensures var pages := RunPages(start, end);
      |pages| >= 1 && AllInRange(pages, total) &&
      forall k :: 0 <= k < |pages| ==> pages[k] == pages[0] + k
  {
  }

  /** The range one comma-separated token describes, if any. */
  function TokenRange(part: string, total: nat): (r: Option<Range>)
    ensures r.Some? ==> |r.value.pages| >= 1 && AllInRange(r.value.pages, total)
    ensures r.Some? ==> forall k :: 0 <= k < |r.value.pages| ==> r.value.pages[k] == r.value.pages[0] + k
  {
    if '-' in part then
      SplitOnSeparatorPresent(part, '-');
      var pieces := SplitOn(part, '-');
      var start := ParseInt(Trim(pieces[0]));
      var end := ParseInt(Trim(pieces[1]));
      if Truthy(start) && Truthy(end) && start.value <= end.value && start.value >= 1 && end.value <= total then
        var pages := RunPages(start.value, end.value);
        RunInBounds(start.value, end.value, total);
        Some(Range("pages_" + Decimal(start.value as nat) + "-" + Decimal(end.value as nat), pages))
      else None
    else
      var pageNum := ParseInt(part);
      if pageNum.Num? && pageNum.value >= 1 && pageNum.value <= total then
        Some(Range("page_" + Decimal(pageNum.value as nat), [pageNum.value - 1]))
      else None
  }

  /**
   * A token with a dash yields a range exactly when both bounds read as
   * numbers with 1 <= start <= end <= total (NaN, zero, a reversed or an
   * out-of-range pair drops it), and then it is the run start-1 .. end-1,
   * named after the bounds.
   */
  lemma DashToken(part: string, total: nat)
    requires '-' in part
    ensures var pieces := SplitOn(part, '-');
      |pieces| >= 2 &&
      var start := ParseInt(Trim(pieces[0]));
      var end := ParseInt(Trim(pieces[1]));
      (TokenRange(part, total).Some? <==>
        start.Num? && end.Num? && 1 <= start.value <= end.value <= total) &&
      (TokenRange(part, total).Some? ==>
        TokenRange(part, total).value.name == "pages_" + Decimal(start.value as nat) + "-" + Decimal(end.value as nat) &&
        TokenRange(part, total).value.pages == RunPages(start.value, end.value))
  {
    SplitOnSeparatorPresent(part, '-');
    var pieces := SplitOn(part, '-');
    var start := ParseInt(Trim(pieces[0]));
    var end := ParseInt(Trim(pieces[1]));
    var ok := start.Num? && end.Num? && 1 <= start.value <= end.value <= total;
    assert ok <==> Truthy(start) && Truthy(end) && start.value <= end.value && start.value >= 1 && end.value <= total;
    assert !ok ==> TokenRange(part, total) == None;
    if ok {
      var dashed := Range("pages_" + Decimal(start.value as nat) + "-" + Decimal(end.value as nat), RunPages(start.value, end.value));
      assert TokenRange(part, total) == Some(dashed);
    }
  }

  /** A token without a dash yields a range exactly when it reads as a page number N of the document, and then it is [N-1]. */
  lemma SingleToken(part: string, total: nat)
    requires '-' !in part
    ensures var n := ParseInt(part);
      (TokenRange(part, total).Some? <==> n.Num? && 1 <= n.value <= total) &&
      (TokenRange(part, total).Some? ==>
        TokenRange(part, total) == Some(Range("page_" + Decimal(n.value as nat), [n.value - 1])))
  {
  }

  /** Only the first two dash-separated pieces of a token are read: "2-4-9" is "2-4". */
  lemma OnlyFirstTwoPieces(a: string, b: string, rest: string, total: nat)
    requires '-' !in a && '-' !in b
    ensures TokenRange(a + "-" + b + "-" + rest, total) == TokenRange(a + "-" + b, total)
  {
    var long := a + "-" + b + "-" + rest;
    var short := a + "-" + b;
    assert long == a + ['-'] + (b + ['-'] + rest);
    assert short == a + ['-'] + b;
    SplitOnFirst(a, '-', b + ['-'] + rest);
    SplitOnFirst(b, '-', rest);
    SplitOnFirst(a, '-', b);
    assert '-' in long by { assert long[|a|] == '-'; }
    assert '-' in short by { assert short[|a|] == '-'; }
    SplitOnBare(b, '-');
  }

  /** Text without the separator splits into itself. */
  lemma {:induction false} SplitOnBare(s: string, sep: char)
    requires sep !in s
    ensures SplitOn(s, sep) == [s]
  {
    if |s| > 0 {
      SplitOnBare(s[1..], sep);
      assert [s[0]] + s[1..] == s;
    }
  }

  /** `input.split(',').map(s => s.trim())`. */
  function Parts(input: string): (parts: seq<string>)
    ensures |parts| == |SplitOn(input, ',')|
    ensures forall k :: 0 <= k < |parts| ==> parts[k] == Trim(SplitOn(input, ',')[k])
  {
    var pieces := SplitOn(input, ',');
    seq(|pieces|, k requires 0 <= k < |pieces| => Trim(pieces[k]))
  }

  /** What each token describes, token by token. */
  function TokenRanges(parts: seq<string>, total: nat): (opts: seq<Option<Range>>)
    ensures |opts| == |parts|
    ensures forall k :: 0 <= k < |parts| ==> opts[k] == TokenRange(parts[k], total)
  {
    seq(|parts|, k requires 0 <= k < |parts| => TokenRange(parts[k], total))
  }

  /** The ranges of the tokens, in token order: the tokens that describe pages, each contributing one. */
  function RangesOf(parts: seq<string>, total: nat): (ranges: seq<Range>)
    ensures |ranges| <= |parts|
  {
    Somes(TokenRanges(parts, total))
  }

  /** The tokens are read one after the other: what a list of tokens describes is what its two halves describe, in order. */
  lemma RangesOfAppend(xs: seq<string>, ys: seq<string>, total: nat)
    ensures RangesOf(xs + ys, total) == RangesOf(xs, total) + RangesOf(ys, total)
  {
    var a, b, c := TokenRanges(xs, total), TokenRanges(ys, total), TokenRanges(xs + ys, total);
    forall k | 0 <= k < |c|
      ensures c[k] == (a + b)[k]
    {
      if k < |xs| {
        assert (xs + ys)[k] == xs[k];
        assert c[k] == a[k];
      } else {
        assert (xs + ys)[k] == ys[k - |xs|];
        assert c[k] == b[k - |xs|];
      }
    }
    assert c == a + b;
    SomesAppend(TokenRanges(xs, total), TokenRanges(ys, total));
  }

  /** A single token contributes its range, or nothing. */
  lemma RangesOfOne(part: string, total: nat)
    ensures RangesOf([part], total) == if TokenRange(part, total).Some? then [TokenRange(part, total).value] else []
  {
    assert TokenRanges([part], total) == [] + [TokenRange(part, total)];
    SomesSnoc([], TokenRange(part, total));
  }

  /** No token yields more than one range, and every range comes from one of the tokens. */
  lemma RangesOfFromTokens(parts: seq<string>, total: nat)
    ensures |RangesOf(parts, total)| <= |parts|
    ensures forall j :: 0 <= j < |RangesOf(parts, total)| ==>
      exists k :: 0 <= k < |parts| && TokenRange(parts[k], total) == Some(RangesOf(parts, total)[j])
  {
    var opts := TokenRanges(parts, total);
    var ranges := RangesOf(parts, total);
    forall j | 0 <= j < |ranges|
      ensures exists k :: 0 <= k < |parts| && TokenRange(parts[k], total) == Some(ranges[j])
    {
      var k := SomesSource(opts, j);
      assert TokenRange(parts[k], total) == Some(ranges[j]);
    }
  }

  /** Every range the parser returns is a non-empty run of pages of the document. */
  lemma RangesOfInBounds(parts: seq<string>, total: nat)
    ensures forall j :: 0 <= j < |RangesOf(parts, total)| ==>
      |RangesOf(parts, total)[j].pages| >= 1 && AllInRange(RangesOf(parts, total)[j].pages, total)
  {
    RangesOfFromTokens(parts, total);
    var ranges := RangesOf(parts, total);
    forall j | 0 <= j < |ranges|
      ensures |ranges[j].pages| >= 1 && AllInRange(ranges[j].pages, total)
    {
      var k :| 0 <= k < |parts| && TokenRange(parts[k], total) == Some(ranges[j]);
    }
  }

  /** `parseSplitRanges`: each trimmed comma-separated token pushes the range it describes, if any. */
  method ParseSplitRanges(input: string, total: nat) returns (ranges: seq<Range>)
    ensures ranges == RangesOf(Parts(input), total)
  {
    var parts := Parts(input);
    var opts := TokenRanges(parts, total);
    ranges := [];
    var i := 0;
    while i < |parts|
      invariant 0 <= i <= |parts|
      invariant ranges == Somes(opts[..i])
    {
      var r := TokenRange(parts[i], total);
      SomesStep(opts, i, ranges);
      if r.Some? {
        ranges := ranges + [r.value];
      }
      i := i + 1;
    }
    TakeAll(opts);
  }

  /** `handleSplit`: the split request it passes on, or None when no token described any pages. */
  method HandleSplit(input: string, total: nat) returns (request: Option<seq<Range>>)
    ensures request.Some? <==> |RangesOf(Parts(input), total)| > 0
    ensures request.Some? ==> request.value == RangesOf(Parts(input), total)
    ensures request.Some? ==> forall k :: 0 <= k < |request.value| ==> AllInRange(request.value[k].pages, total)
  {
    var ranges := ParseSplitRanges(input, total);
    RangesOfInBounds(Parts(input), total);
    if |ranges| > 0 {
      request := Some(ranges);
    } else {
      request := None;
    }
  }

  /** A dash token made of two rendered numbers yields exactly the run between them. */
  lemma DashTokenValue(a: string, b: string, start: nat, end: nat, total: nat)
    requires a == Decimal(start) && b == Decimal(end)
    requires 1 <= start <= end <= total
    ensures TokenRange(a + "-" + b, total) == Some(Range("pages_" + a + "-" + b, RunPages(start, end)))
  {
    RenderedBounds(a, b, start, end);
    DashToken(a + "-" + b, total);
  }

  /** Splitting a token of two rendered numbers gives the two numbers back. */
  lemma RenderedBounds(a: string, b: string, start: nat, end: nat)
    requires a == Decimal(start) && b == Decimal(end)
    ensures '-' in a + "-" + b
    ensures SplitOn(a + "-" + b, '-') == [a, b]
    ensures ParseInt(Trim(a)) == Num(start) && ParseInt(Trim(b)) == Num(end)
  {
    DecimalHasNoDash(start);
    DecimalHasNoDash(end);
    SplitAroundDash(a, b);
    ParseRendered(start);
    ParseRendered(end);
  }

  lemma SplitAroundDash(a: string, b: string)
    requires '-' !in a && '-' !in b
    ensures '-' in a + "-" + b
    ensures SplitOn(a + "-" + b, '-') == [a, b]
  {
    var part := a + "-" + b;
    assert part == a + ['-'] + b;
    assert part[|a|] == '-';
    SplitOnFirst(a, '-', b);
    SplitOnBare(b, '-');
  }

  /** A rendered number trims to itself and parses back to the number. */
  lemma ParseRendered(n: nat)
    ensures ParseInt(Trim(Decimal(n))) == Num(n)
  {
    TrimDecimal(n);
    ParseIntDecimal(n, []);
    assert Decimal(n) + [] == Decimal(n);
  }

  lemma DecimalHasNoDash(n: nat)
    ensures '-' !in Decimal(n)
  {
    var s := Decimal(n);
    forall k | 0 <= k < |s|
      ensures s[k] != '-'
    {
      DecimalDigitIsPlain(s[k]);
    }
  }

  /** A rendered number has no whitespace to trim. */
  lemma TrimDecimal(n: nat)
    ensures Trim(Decimal(n)) == Decimal(n)
  {
    var s := Decimal(n);
    DecimalDigitIsPlain(s[0]);
    assert TrimStart(s) == s;
    DecimalDigitIsPlain(s[|s| - 1]);
    assert TrimEnd(s) == s;
  }

  /** A zero start or a reversed pair drops the token. */
  lemma ZeroOrReversedDropped(total: nat)
    ensures TokenRange("0-3", total) == None
    ensures TokenRange("3-1", total) == None
  {
    assert Decimal(0) == "0" && Decimal(3) == "3" && Decimal(1) == "1";
    assert "0-3" == Decimal(0) + "-" + Decimal(3);
    assert "3-1" == Decimal(3) + "-" + Decimal(1);
    RenderedBounds("0", "3", 0, 3);
    DashToken("0-3", total);
    RenderedBounds("3", "1", 3, 1);
    DashToken("3-1", total);
  }

  /** Every element is at most every later one. */
  predicate Ascending(s: seq<int>) {
    forall i, j :: 0 <= i < j < |s| ==> s[i] <= s[j]
  }

  /** `x` put into an ascending list before the first element not below it. */
  function Insert(x: int, s: seq<int>): (r: seq<int>)
    requires Ascending(s)
    ensures Ascending(r) && multiset(r) == multiset(s) + multiset{x}
  {
    if |s| == 0 then [x]
    else if x <= s[0] then [x] + s
    else
      var rest := Insert(x, s[1..]);
      assert s == [s[0]] + s[1..];
      AtLeastFirst(s);
      var t := s[1..] + [x];
      assert forall k :: 0 <= k < |t| ==> s[0] <= t[k] by {
        forall k | 0 <= k < |t|
          ensures s[0] <= t[k]
        {
          if k < |s| - 1 {
            assert t[k] == s[k + 1];
          }
        }
      }
      BoundBySameElements(s[0], rest, t);
      ConsAscending(s[0], rest);
      [s[0]] + rest
  }

  /** A list headed by a lower bound of an ascending list is ascending. */
  lemma ConsAscending(h: int, rest: seq<int>)
    requires Ascending(rest)
    requires forall k :: 0 <= k < |rest| ==> h <= rest[k]
    ensures Ascending([h] + rest)
  {
    var r := [h] + rest;
    forall i, j | 0 <= i < j < |r|
      ensures r[i] <= r[j]
    {
      assert r[j] == rest[j - 1];
      if i > 0 {
        assert r[i] == rest[i - 1];
      }
    }
  }

  /** Every later element of an ascending list is at least its first. */
  lemma AtLeastFirst(s: seq<int>)
    requires Ascending(s) && |s| > 0
    ensures forall k :: 1 <= k < |s| ==> s[0] <= s[k]
  {
  }

  /** A lower bound of every element carries over to a list with the same elements. */
  lemma BoundBySameElements(lo: int, r: seq<int>, t: seq<int>)
    requires multiset(r) == multiset(t)
    requires forall k :: 0 <= k < |t| ==> lo <= t[k]
    ensures forall k :: 0 <= k < |r| ==> lo <= r[k]
  {
    forall k | 0 <= k < |r|
      ensures lo <= r[k]
    {
      assert r[k] in multiset(t);
    }
  }

  /** `sort((a, b) => a - b)`: the same numbers in ascending order. */
  function SortAscending(s: seq<int>): (r: seq<int>)
    ensures Ascending(r) && multiset(r) == multiset(s)
  {
    if |s| == 0 then []
    else
      assert s == s[..|s| - 1] + [s[|s| - 1]];
      Insert(s[|s| - 1], SortAscending(s[..|s| - 1]))
  }

  /** Two ascending lists with the same elements are the same list. */
  lemma {:induction false} AscendingUnique(a: seq<int>, b: seq<int>)
    requires Ascending(a) && Ascending(b) && multiset(a) == multiset(b)
    ensures a == b
  {
    assert |a| == |multiset(a)| == |multiset(b)| == |b|;
    if |a| > 0 {
      FirstIsLeast(a, b[0]);
      FirstIsLeast(b, a[0]);
      assert a[0] == b[0];
      TailMultiset(a);
      TailMultiset(b);
      AscendingTail(a);
      AscendingTail(b);
      AscendingUnique(a[1..], b[1..]);
    }
  }

  /** The tail of a list holds its elements but one occurrence of the head. */
  lemma TailMultiset(a: seq<int>)
    requires |a| > 0
    ensures multiset(a[1..]) == multiset(a) - multiset{a[0]}
    ensures a == [a[0]] + a[1..]
  {
    assert a == [a[0]] + a[1..];
  }

  /** The tail of an ascending list is ascending. */
  lemma AscendingTail(a: seq<int>)
    requires Ascending(a) && |a| > 0
    ensures Ascending(a[1..])
  {
    forall i, j | 0 <= i < j < |a| - 1
      ensures a[1..][i] <= a[1..][j]
    {
      assert a[1..][i] == a[i + 1] && a[1..][j] == a[j + 1];
    }
  }

  /** The first element of an ascending list is its least. */
  lemma FirstIsLeast(a: seq<int>, x: int)
    requires Ascending(a) && x in multiset(a)
    ensures a[0] <= x
  {
    var i :| 0 <= i < |a| && a[i] == x;
  }

  /** One less than each number: page numbers turned into page indices. */
  function Decremented(s: seq<int>): (r: seq<int>)
    ensures |r| == |s| && forall k :: 0 <= k < |s| ==> r[k] == s[k] - 1
  {
    seq(|s|, k requires 0 <= k < |s| => s[k] - 1)
  }

  /** Lists with the same elements have the same length and the same members. */
  lemma SameMembers(a: seq<int>, b: seq<int>)
    requires multiset(a) == multiset(b)
    ensures |a| == |b|
    ensures forall p :: p in a <==> p in b
  {
    assert |a| == |multiset(a)| && |b| == |multiset(b)|;
    forall p
      ensures p in a <==> p in b
    {
      assert p in a <==> p in multiset(a);
      assert p in b <==> p in multiset(b);
    }
  }

  /** Subtracting one keeps a list ascending. */
  lemma DecrementedAscending(s: seq<int>)
    requires Ascending(s)
    ensures Ascending(Decremented(s))
  {
  }

  /** p is a member exactly when p - 1 is one of the decremented list. */
  lemma DecrementedMembers(s: seq<int>)
    ensures forall p :: p in s <==> p - 1 in Decremented(s)
  {
    var d := Decremented(s);
    forall p
      ensures p in s <==> p - 1 in d
    {
      if p in s {
        var k :| 0 <= k < |s| && s[k] == p;
        assert d[k] == p - 1;
      }
      if p - 1 in d {
        var k :| 0 <= k < |d| && d[k] == p - 1;
        assert s[k] == p;
      }
    }
  }

  /**
   * `handleSplitSelected`: nothing for an empty selection; otherwise one
   * range named "selected" holding the selected page numbers less one, in
   * ascending order.
   */
  function HandleSplitSelected(selected: seq<int>): (r: Option<Range>)
    ensures r.Some? <==> |selected| > 0
    ensures r.Some? ==> r.value.name == "selected" && |r.value.pages| == |selected|
    ensures r.Some? ==> Ascending(r.value.pages)
    ensures r.Some? ==> forall p :: p in selected <==> p - 1 in r.value.pages
  {
    if |selected| == 0 then None
    else
      var sorted := SortAscending(selected);
      var pages := Decremented(sorted);
      SameMembers(selected, sorted);
      DecrementedMembers(sorted);
      DecrementedAscending(sorted);
      Some(Range("selected", pages))
  }

  /** The range of a selection depends only on which pages are selected, not on the order they were selected in. */
  lemma SplitSelectedOrderFree(a: seq<int>, b: seq<int>)
    requires multiset(a) == multiset(b)
    ensures HandleSplitSelected(a) == HandleSplitSelected(b)
  {
    AscendingUnique(SortAscending(a), SortAscending(b));
  }

  /** The requests the single-page buttons send. */
  datatype PageAction = RotateRequest(pageIndex: int, degrees: int) | DeleteRequest(pageIndex: int)

  /**
   * The page actions on offer: with exactly one page selected, rotating it
   * by 90 degrees and deleting it, both at its 0-based index; none otherwise.
   */
  function PageActions(selected: seq<int>): (actions: seq<PageAction>)
    ensures |selected| != 1 ==> actions == []
    ensures |selected| == 1 ==> |actions| == 2 && actions[0].RotateRequest? && actions[0].degrees == 90 && actions[1].DeleteRequest?
    ensures forall k :: 0 <= k < |actions| ==> actions[k].pageIndex + 1 in selected
  {
    if |selected| == 1 then
      var p := FirstMember(selected);
      [RotateRequest(p - 1, 90), DeleteRequest(p - 1)]
    else []
  }

  /** `Array.from(selected)[0]`: the first member in insertion order. */
  function FirstMember(selected: seq<int>): (p: int)
    requires |selected| > 0
    ensures p in selected
  {
    selected[0]
  }

  /** With one page selected, both actions act on the one index the split of the selection would copy. */
  lemma ActionsMatchSelection(selected: seq<int>)
    requires |selected| == 1
    ensures HandleSplitSelected(selected).value.pages == [PageActions(selected)[0].pageIndex]
    ensures PageActions(selected)[1].pageIndex == PageActions(selected)[0].pageIndex
  {
    assert SortAscending(selected) == [selected[0]] by {
      assert selected == [] + [selected[0]];
    }
  }
}
