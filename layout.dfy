/**
 * N-up imposition: several source pages scaled onto each A4 sheet in a
 * row-major grid. The browser editor and the server carry identical copies
 * of the grid table, the cell position and the tile formulas; this module is
 * the one definition both sides use.
 */
module Layout {
  import opened Codec

  /** A grid of cells, rows top to bottom, columns left to right. */
  datatype Grid = Grid(rows: nat, cols: nat)

  /** A cell of a grid, 0-based. */
  datatype Cell = Cell(row: nat, col: nat)

  /** The three supported layouts. */
  const GridTable: map<int, Grid> := map[2 := Grid(2, 1), 4 := Grid(2, 2), 6 := Grid(3, 2)]

  /**
   * `getGridConfig`: the grid for a number of pages per sheet. Only 2, 4 and
   * 6 have a grid of their own, with exactly that many cells; any other
   * count gets the 2-page grid.
   */
  function GetGridConfig(pagesPerSheet: int): (g: Grid)
    ensures g.rows >= 1 && g.cols >= 1
    ensures g.rows * g.cols == pagesPerSheet <==> pagesPerSheet in {2, 4, 6}
    ensures pagesPerSheet == 2 ==> g == Grid(2, 1)
    ensures pagesPerSheet == 4 ==> g == Grid(2, 2)
    ensures pagesPerSheet == 6 ==> g == Grid(3, 2)
    ensures pagesPerSheet !in {2, 4, 6} ==> g == Grid(2, 1)
  {
    if pagesPerSheet in GridTable then GridTable[pagesPerSheet] else GridTable[2]
  }

  /** `getGridPosition`: the cell of the index-th tile, filling rows left to right, top row first. */
  function GetGridPosition(index: nat, g: Grid): (c: Cell)
    requires g.cols >= 1
    ensures index == c.row * g.cols + c.col
    ensures c.col < g.cols
    ensures index < g.rows * g.cols <==> c.row < g.rows
  {
    RowBound(index, g);
    Cell(index / g.cols, index % g.cols)
  }

  lemma RowBound(index: nat, g: Grid)
    requires g.cols >= 1
    ensures index < g.rows * g.cols <==> index / g.cols < g.rows
  {
    var row := index / g.cols;
    assert index == row * g.cols + index % g.cols;
    if row < g.rows {
      MulMonotoneInt(row, g.rows - 1, g.cols);
      assert (g.rows - 1) * g.cols == g.rows * g.cols - g.cols;
    } else {
      MulMonotoneInt(g.rows, row, g.cols);
    }
  }

  /** Distinct indices get distinct cells. */
  lemma GridPositionInjective(i: nat, j: nat, g: Grid)
    requires g.cols >= 1 && i != j
    ensures GetGridPosition(i, g) != GetGridPosition(j, g)
  {
  }

  /**
   * With a count outside the table the fallback grid has two cells, so the
   * third tile of a sheet lands on a row the grid does not have.
   */
  lemma FallbackGridOverflows(pagesPerSheet: int)
    requires pagesPerSheet > 2 && pagesPerSheet !in {4, 6}
    ensures var g := GetGridConfig(pagesPerSheet);
      GetGridPosition(2, g).row == g.rows
  {
  }

  /** The settings the N-up dialog sends. */
  datatype NUpConfig = NUpConfig(pagesPerSheet: int, spacing: real, margin: real, orientation: string)

  /** The A4 sheet in points, turned on its side for "landscape". */
  function SheetSize(orientation: string): (size: (Extent, Extent))
    ensures {size.0, size.1} == {595.0, 842.0}
    ensures size.0 > size.1 <==> orientation == "landscape"
  {
    if orientation == "landscape" then (842.0, 595.0) else (595.0, 842.0)
  }

  /** Everything the tile formulas depend on. */
  datatype Geometry = Geometry(width: Extent, height: Extent, margin: real, spacing: real, grid: Grid)

  predicate ValidGeometry(geo: Geometry) {
    geo.grid.rows >= 1 && geo.grid.cols >= 1
  }

  function GeometryOf(cfg: NUpConfig): (geo: Geometry)
    ensures ValidGeometry(geo)
    ensures geo.grid == GetGridConfig(cfg.pagesPerSheet)
    ensures (geo.width, geo.height) == SheetSize(cfg.orientation)
    ensures geo.margin == cfg.margin && geo.spacing == cfg.spacing
  {
    var size := SheetSize(cfg.orientation);
    Geometry(size.0, size.1, cfg.margin, cfg.spacing, GetGridConfig(cfg.pagesPerSheet))
  }

  /** The width of a cell: the sheet width less both margins and the gaps, shared by the columns. */
  function CellWidth(geo: Geometry): (w: real)
    requires ValidGeometry(geo)
    ensures var cols := geo.grid.cols as real;
      cols * w + (cols - 1.0) * geo.spacing + 2.0 * geo.margin == geo.width
  {
    (geo.width - 2.0 * geo.margin - (geo.grid.cols as real - 1.0) * geo.spacing) / geo.grid.cols as real
  }

  /** The height of a cell: the sheet height less both margins and the gaps, shared by the rows. */
  function CellHeight(geo: Geometry): (h: real)
    requires ValidGeometry(geo)
    ensures var rows := geo.grid.rows as real;
      rows * h + (rows - 1.0) * geo.spacing + 2.0 * geo.margin == geo.height
  {
    (geo.height - 2.0 * geo.margin - (geo.grid.rows as real - 1.0) * geo.spacing) / geo.grid.rows as real
  }

  /**
   * The left edge of a column of cells: `col` cells and gaps right of the
   * left margin, and, for a column of the grid, the cell and the columns
   * after it end at the right margin.
   */
  function CellLeft(geo: Geometry, col: nat): (x: real)
    requires ValidGeometry(geo)
    ensures x - col as real * (CellWidth(geo) + geo.spacing) == geo.margin
    ensures col < geo.grid.cols ==>
      x + CellWidth(geo) + (geo.grid.cols - 1 - col) as real * (CellWidth(geo) + geo.spacing) == geo.width - geo.margin
  {
    geo.margin + col as real * (CellWidth(geo) + geo.spacing)
  }

  /**
   * The bottom edge of a row of cells, counted from the top: the row's top
   * edge lies `row` cells and gaps below the top margin, and, for a row of
   * the grid, the rows below it end at the bottom margin.
   */
  function CellBottom(geo: Geometry, row: nat): (y: real)
    requires ValidGeometry(geo)
    ensures y + CellHeight(geo) + row as real * (CellHeight(geo) + geo.spacing) == geo.height - geo.margin
    ensures row < geo.grid.rows ==>
      y - (geo.grid.rows - 1 - row) as real * (CellHeight(geo) + geo.spacing) == geo.margin
  {
    geo.height - geo.margin - (row as real + 1.0) * CellHeight(geo) - row as real * geo.spacing
  }

  function Min(a: real, b: real): real {
    if a <= b then a else b
  }

  /**
   * Where the index-th page of a sheet is drawn: at the bottom-left corner of
   * its cell, scaled by the larger factor that keeps it inside the cell, so
   * it keeps its aspect ratio, fits the cell, and fills the cell's width or
   * its height.
   */
  function Tile(geo: Geometry, index: nat, pageWidth: Extent, pageHeight: Extent): (b: Box)
    requires ValidGeometry(geo)
    ensures var c := GetGridPosition(index, geo.grid);
      b.x == CellLeft(geo, c.col) && b.y == CellBottom(geo, c.row)
    ensures b.width <= CellWidth(geo) && b.height <= CellHeight(geo)
    ensures (b.width, b.height) == ScaledSize(pageWidth, pageHeight, CellWidth(geo), CellHeight(geo))
  {
    var c := GetGridPosition(index, geo.grid);
    var size := ScaledSize(pageWidth, pageHeight, CellWidth(geo), CellHeight(geo));
    Box(CellLeft(geo, c.col), CellBottom(geo, c.row), size.0, size.1)
  }

  /**
   * The page scaled by `Math.min(cw / width, ch / height)`: it fits the
   * cell, fills it in one direction and keeps its aspect ratio.
   */
  function ScaledSize(pageWidth: Extent, pageHeight: Extent, cw: real, ch: real): (size: (real, real))
    ensures size.0 <= cw && size.1 <= ch
    ensures size.0 == cw || size.1 == ch
    ensures size.0 * pageHeight == size.1 * pageWidth
  {
    var scale := Min(cw / pageWidth, ch / pageHeight);
    ScaledFits(pageWidth, cw, scale);
    ScaledFits(pageHeight, ch, scale);
    assert (pageWidth * scale) * pageHeight == (pageHeight * scale) * pageWidth by {
      assert (pageWidth * scale) * pageHeight == scale * (pageWidth * pageHeight);
      assert (pageHeight * scale) * pageWidth == scale * (pageWidth * pageHeight);
    }
    (pageWidth * scale, pageHeight * scale)
  }

  /** A scale no larger than room / extent keeps the extent within the room, and reaches it at equality. */
  lemma ScaledFits(extent: Extent, room: real, scale: real)
    ensures scale <= room / extent ==> extent * scale <= room
    ensures scale == room / extent ==> extent * scale == room
  {
    if scale <= room / extent {
      assert extent * scale <= extent * (room / extent);
    }
  }

  lemma MulMonotone(a: real, b: real, c: real)
    requires a <= b && c >= 0.0
    ensures a * c <= b * c
  {
  }

  lemma MulMonotoneInt(a: int, b: int, c: int)
    requires a <= b && c >= 0
    ensures a * c <= b * c
  {
  }

  /** Where the k-th cell along one axis starts, measured from the sheet edge the grid starts at. */
  function CellStart(margin: real, k: nat, cell: real, gap: real): real {
    margin + k as real * (cell + gap)
  }

  /** The bottom edge of a row is as far above the bottom of the sheet as its top edge is below the top. */
  lemma CellBottomFromTop(geo: Geometry, row: nat)
    requires ValidGeometry(geo)
    ensures CellBottom(geo, row) == geo.height - (CellStart(geo.margin, row, CellHeight(geo), geo.spacing) + CellHeight(geo))
  {
  }

  /** The k-th of n cells along an axis filled by n cells and n-1 gaps lies between the two margins. */
  lemma CellWithinSpan(margin: real, k: nat, n: nat, cell: real, gap: real, span: real)
    requires k < n && n as real * cell + (n as real - 1.0) * gap + 2.0 * margin == span
    requires cell > 0.0 && gap >= 0.0
    ensures margin <= CellStart(margin, k, cell, gap)
    ensures CellStart(margin, k, cell, gap) + cell <= span - margin
  {
    MulMonotone(0.0, k as real, cell + gap);
    MulMonotone(k as real, n as real - 1.0, cell + gap);
    assert (n as real - 1.0) * (cell + gap) + cell == n as real * cell + (n as real - 1.0) * gap;
  }

  /** A cell ends before any later cell along the same axis starts. */
  lemma CellsApart(margin: real, k1: nat, k2: nat, cell: real, gap: real)
    requires k1 < k2 && cell > 0.0 && gap >= 0.0
    ensures CellStart(margin, k1, cell, gap) + cell <= CellStart(margin, k2, cell, gap)
  {
    MulMonotone(1.0, k2 as real - k1 as real, cell + gap);
    assert k2 as real * (cell + gap) - k1 as real * (cell + gap) == (k2 as real - k1 as real) * (cell + gap);
  }

  /**
   * Every tile of a cell the grid has lies inside the sheet's margins, provided
   * the cells have a positive size and the gaps are not negative.
   */
  lemma TileInsideMargins(geo: Geometry, index: nat, pageWidth: Extent, pageHeight: Extent)
    requires ValidGeometry(geo)
    requires index < geo.grid.rows * geo.grid.cols
    requires CellWidth(geo) > 0.0 && CellHeight(geo) > 0.0 && geo.spacing >= 0.0
    ensures var b := Tile(geo, index, pageWidth, pageHeight);
      geo.margin <= b.x && b.x + b.width <= geo.width - geo.margin &&
      geo.margin <= b.y && b.y + b.height <= geo.height - geo.margin
  {
    var c := GetGridPosition(index, geo.grid);
    ColumnInside(geo, c.col);
    RowInside(geo, c.row);
  }

  /** A column of the grid lies between the left and the right margin. */
  lemma ColumnInside(geo: Geometry, col: nat)
    requires ValidGeometry(geo) && col < geo.grid.cols
    requires CellWidth(geo) > 0.0 && geo.spacing >= 0.0
    ensures geo.margin <= CellLeft(geo, col) && CellLeft(geo, col) + CellWidth(geo) <= geo.width - geo.margin
  {
    CellWithinSpan(geo.margin, col, geo.grid.cols, CellWidth(geo), geo.spacing, geo.width);
  }

  /** A row of the grid lies between the bottom and the top margin. */
  lemma RowInside(geo: Geometry, row: nat)
    requires ValidGeometry(geo) && row < geo.grid.rows
    requires CellHeight(geo) > 0.0 && geo.spacing >= 0.0
    ensures geo.margin <= CellBottom(geo, row) && CellBottom(geo, row) + CellHeight(geo) <= geo.height - geo.margin
  {
    CellWithinSpan(geo.margin, row, geo.grid.rows, CellHeight(geo), geo.spacing, geo.height);
    CellBottomFromTop(geo, row);
  }

  /** Two tiles of distinct cells do not overlap when the gaps are not negative. */
  lemma TilesDisjoint(geo: Geometry, i: nat, j: nat, wi: Extent, hi: Extent, wj: Extent, hj: Extent)
    requires ValidGeometry(geo) && i != j
    requires CellWidth(geo) > 0.0 && CellHeight(geo) > 0.0 && geo.spacing >= 0.0
    ensures var a := Tile(geo, i, wi, hi);
      var b := Tile(geo, j, wj, hj);
      a.x + a.width <= b.x || b.x + b.width <= a.x || a.y + a.height <= b.y || b.y + b.height <= a.y
  {
    var a := Tile(geo, i, wi, hi);
    var b := Tile(geo, j, wj, hj);
    GridPositionInjective(i, j, geo.grid);
    BoxesInCellsApart(geo, GetGridPosition(i, geo.grid), GetGridPosition(j, geo.grid), a, b);
  }

  /** Boxes anchored in two distinct cells and no larger than a cell do not overlap. */
  lemma BoxesInCellsApart(geo: Geometry, ci: Cell, cj: Cell, a: Box, b: Box)
    requires ValidGeometry(geo) && ci != cj
    requires CellWidth(geo) > 0.0 && CellHeight(geo) > 0.0 && geo.spacing >= 0.0
    requires a.x == CellLeft(geo, ci.col) && a.y == CellBottom(geo, ci.row)
    requires b.x == CellLeft(geo, cj.col) && b.y == CellBottom(geo, cj.row)
    requires a.width <= CellWidth(geo) && a.height <= CellHeight(geo)
    requires b.width <= CellWidth(geo) && b.height <= CellHeight(geo)
    ensures a.x + a.width <= b.x || b.x + b.width <= a.x || a.y + a.height <= b.y || b.y + b.height <= a.y
  {
    if ci.col < cj.col {
      ColumnsApart(geo, ci.col, cj.col, a.x, a.width, b.x);
    } else if cj.col < ci.col {
      ColumnsApart(geo, cj.col, ci.col, b.x, b.width, a.x);
    } else if ci.row < cj.row {
      RowsApart(geo, ci.row, cj.row, a.y, b.y, b.height);
    } else {
      RowsApart(geo, cj.row, ci.row, b.y, a.y, a.height);
    }
  }

  /** A box no wider than a cell, at the left edge of a column, ends before any later column starts. */
  lemma ColumnsApart(geo: Geometry, k1: nat, k2: nat, x1: real, w1: real, x2: real)
    requires ValidGeometry(geo) && k1 < k2
    requires CellWidth(geo) > 0.0 && geo.spacing >= 0.0
    requires x1 == CellLeft(geo, k1) && x2 == CellLeft(geo, k2) && w1 <= CellWidth(geo)
    ensures x1 + w1 <= x2
  {
    CellsApart(geo.margin, k1, k2, CellWidth(geo), geo.spacing);
  }

  /** A box no taller than a cell, at the bottom edge of a row, ends below any earlier row. */
  lemma RowsApart(geo: Geometry, k1: nat, k2: nat, y1: real, y2: real, h2: real)
    requires ValidGeometry(geo) && k1 < k2
    requires CellHeight(geo) > 0.0 && geo.spacing >= 0.0
    requires y1 == CellBottom(geo, k1) && y2 == CellBottom(geo, k2) && h2 <= CellHeight(geo)
    ensures y2 + h2 <= y1
  {
    CellBottomFromTop(geo, k1);
    CellBottomFromTop(geo, k2);
    CellsApart(geo.margin, k1, k2, CellHeight(geo), geo.spacing);
  }

  /**
   * `Math.ceil(totalPages / pagesPerSheet)` as the sheet loop uses it: no
   * sheet for a negative count (the quotient is not positive), and none for
   * an empty document. A zero count on a non-empty document makes the
   * quotient Infinity and the loop endless, so it is excluded.
   */
  function SheetsNeeded(total: nat, pagesPerSheet: int): (sheets: nat)
    requires pagesPerSheet != 0 || total == 0
    ensures pagesPerSheet < 0 || total == 0 ==> sheets == 0
    ensures pagesPerSheet > 0 && total > 0 ==> sheets >= 1
  {
    if pagesPerSheet > 0 then (total + pagesPerSheet - 1) / pagesPerSheet else 0
  }

  /** The sheet count is the least number of sheets with room for every page. */
  lemma SheetsNeededIsCeiling(total: nat, pagesPerSheet: int)
    requires pagesPerSheet > 0
    ensures var sheets := SheetsNeeded(total, pagesPerSheet);
      total <= sheets * pagesPerSheet && (sheets == 0 || (sheets - 1) * pagesPerSheet < total)
  {
    var sheets := SheetsNeeded(total, pagesPerSheet);
    var rem := (total + pagesPerSheet - 1) % pagesPerSheet;
    assert sheets * pagesPerSheet + rem == total + pagesPerSheet - 1;
    assert (sheets - 1) * pagesPerSheet == sheets * pagesPerSheet - pagesPerSheet;
  }

  /** Every sheet in the loop starts at a page of the document. */
  lemma SheetStartInRange(total: nat, pagesPerSheet: int, sheet: nat)
    requires pagesPerSheet > 0 && sheet < SheetsNeeded(total, pagesPerSheet)
    ensures sheet * pagesPerSheet < total
  {
    var sheets := SheetsNeeded(total, pagesPerSheet);
    SheetsNeededIsCeiling(total, pagesPerSheet);
    assert sheet * pagesPerSheet <= (sheets - 1) * pagesPerSheet;
  }

  /** How many tiles a sheet gets: a full sheet, or what is left for the last one. */
  function Fill(total: nat, pagesPerSheet: int, start: nat): nat
    requires pagesPerSheet > 0 && start < total
  {
    if pagesPerSheet <= total - start then pagesPerSheet else total - start
  }

  /** The tiles for `count` consecutive source pages from `start`, in cell order. */
  function TileMarks(src: Document, geo: Geometry, start: nat, count: nat): (marks: seq<Mark>)
    requires ValidGeometry(geo) && start + count <= |src|
    ensures |marks| == count
  {
    seq(count, i requires 0 <= i < count =>
      DrawnPage(src[start + i], Tile(geo, i, src[start + i].width, src[start + i].height)))
  }

  /** One more tile: the marks for count + 1 pages are those for count pages, then the next tile. */
  lemma TileMarksStep(src: Document, geo: Geometry, start: nat, count: nat)
    requires ValidGeometry(geo) && start + count < |src|
    ensures TileMarks(src, geo, start, count) +
      [DrawnPage(src[start + count], Tile(geo, count, src[start + count].width, src[start + count].height))]
      == TileMarks(src, geo, start, count + 1)
  {
  }

  /** A sheet of the imposed document: a blank A4 page with its share of the source pages drawn on it. */
  function Sheet(src: Document, cfg: NUpConfig, sheet: nat): (p: Page)
    requires cfg.pagesPerSheet > 0 && sheet < SheetsNeeded(|src|, cfg.pagesPerSheet)
  {
    SheetStartInRange(|src|, cfg.pagesPerSheet, sheet);
    var geo := GeometryOf(cfg);
    var start := sheet * cfg.pagesPerSheet;
    Page(Blank, geo.width, geo.height, 0,
      TileMarks(src, geo, start, Fill(|src|, cfg.pagesPerSheet, start)))
  }

  /** What the N-up loop builds: the sheets, in order. */
  function Imposed(src: Document, cfg: NUpConfig): (out: Document)
    requires cfg.pagesPerSheet != 0 || |src| == 0
    ensures |out| == SheetsNeeded(|src|, cfg.pagesPerSheet)
  {
    var sheets := SheetsNeeded(|src|, cfg.pagesPerSheet);
    seq(sheets, s requires 0 <= s < sheets => Sheet(src, cfg, s))
  }

  /**
   * The N-up loop (`createNUp` client-side, `/api/nup` on the server): for
   * each sheet add a blank page, then draw the next pages of the source onto
   * it, one per cell, until the sheet or the source runs out.
   */
  method ImposeSheets(src: Document, cfg: NUpConfig) returns (out: Document)
    requires cfg.pagesPerSheet != 0 || |src| == 0
    ensures out == Imposed(src, cfg)
  {
    var geo := GeometryOf(cfg);
    var pps := cfg.pagesPerSheet;
    var total := |src|;
    var sheets := SheetsNeeded(total, pps);
    out := [];
    var sheet := 0;
    while sheet < sheets
      invariant 0 <= sheet <= sheets
      invariant |out| == sheet
      invariant forall s :: 0 <= s < sheet ==> out[s] == Sheet(src, cfg, s)
    {
      SheetStartInRange(total, pps, sheet);
      var page := BlankPage(geo.width, geo.height);
      var start := sheet * pps;
      var i := 0;
      while i < pps && start + i < total
        invariant 0 <= i <= pps && start + i <= total
        invariant page == Page(Blank, geo.width, geo.height, 0, TileMarks(src, geo, start, i))
      {
        var p := src[start + i];
        page := Draw(page, DrawnPage(p, Tile(geo, i, p.width, p.height)));
        TileMarksStep(src, geo, start, i);
        i := i + 1;
      }
      assert i == Fill(total, pps, start);
      assert page == Sheet(src, cfg, sheet);
      out := out + [page];
      sheet := sheet + 1;
    }
  }

  /**
   * Source page k is drawn on sheet k / pps, in cell k % pps of that sheet,
   * scaled into that cell.
   */
  lemma PagePlacement(src: Document, cfg: NUpConfig, k: nat)
    requires cfg.pagesPerSheet > 0 && k < |src|
    ensures var pps := cfg.pagesPerSheet;
      var out := Imposed(src, cfg);
      k / pps < |out| && k % pps < |out[k / pps].marks| &&
      out[k / pps].marks[k % pps] ==
        DrawnPage(src[k], Tile(GeometryOf(cfg), k % pps, src[k].width, src[k].height))
  {
    SheetOfPage(|src|, cfg.pagesPerSheet, k);
    SheetMarks(src, cfg, k / cfg.pagesPerSheet);
  }

  /** Page k falls on sheet k / pps, at a tile that sheet has. */
  lemma SheetOfPage(total: nat, pps: int, k: nat)
    requires pps > 0 && k < total
    ensures k / pps < SheetsNeeded(total, pps)
    ensures (k / pps) * pps + k % pps == k
    ensures (k / pps) * pps < total && k % pps < Fill(total, pps, (k / pps) * pps)
  {
    var sheets := SheetsNeeded(total, pps);
    SheetsNeededIsCeiling(total, pps);
    var s := k / pps;
    assert s * pps + k % pps == k;
    if s >= sheets {
      MulMonotoneInt(sheets, s, pps);
      assert false;
    }
  }

  /** Every sheet but the last is full; the last holds what remains. */
  lemma LastSheetFill(src: Document, cfg: NUpConfig)
    requires cfg.pagesPerSheet > 0 && |src| > 0
    ensures var out := Imposed(src, cfg);
      var pps := cfg.pagesPerSheet;
      |out| > 0 &&
      (forall s :: 0 <= s < |out| - 1 ==> |out[s].marks| == pps) &&
      |out[|out| - 1].marks| == |src| - (|out| - 1) * pps
  {
    var pps := cfg.pagesPerSheet;
    var out := Imposed(src, cfg);
    var sheets := SheetsNeeded(|src|, pps);
    SheetsNeededIsCeiling(|src|, pps);
    forall s | 0 <= s < |out| - 1
      ensures |out[s].marks| == pps
    {
      SheetMarks(src, cfg, s);
      FullSheet(|src|, pps, s);
    }
    SheetMarks(src, cfg, sheets - 1);
  }

  /** A sheet before the last has room for a full share of pages. */
  lemma FullSheet(total: nat, pps: int, s: nat)
    requires pps > 0 && s + 1 < SheetsNeeded(total, pps)
    ensures s * pps < total && Fill(total, pps, s * pps) == pps
  {
    SheetStartInRange(total, pps, s + 1);
    assert s * pps + pps == (s + 1) * pps;
  }

  /** The source pages drawn on a run of marks, in order. */
  function DrawnPages(marks: seq<Mark>): seq<Page>
  {
    if |marks| == 0 then []
    else
      var last := marks[|marks| - 1];
      DrawnPages(marks[..|marks| - 1]) + (if last.DrawnPage? then [last.page] else [])
  }

  /** The source pages drawn across a list of sheets, sheet by sheet. */
  function SheetsDrawnPages(sheets: Document): seq<Page>
  {
    if |sheets| == 0 then [] else SheetsDrawnPages(sheets[..|sheets| - 1]) + DrawnPages(sheets[|sheets| - 1].marks)
  }

  lemma TileMarksDraw(src: Document, geo: Geometry, start: nat, count: nat)
    requires ValidGeometry(geo) && start + count <= |src|
    ensures DrawnPages(TileMarks(src, geo, start, count)) == src[start..start + count]
  {
    DrawnPagesOfPages(TileMarks(src, geo, start, count), src[start..start + count]);
  }

  /** Marks that all draw pages draw exactly those pages, in order. */
  lemma {:induction false} DrawnPagesOfPages(marks: seq<Mark>, pages: seq<Page>)
    requires |marks| == |pages|
    requires forall k :: 0 <= k < |marks| ==> marks[k].DrawnPage? && marks[k].page == pages[k]
    ensures DrawnPages(marks) == pages
  {
    if |marks| > 0 {
      var n := |marks| - 1;
      DrawnPagesOfPages(marks[..n], pages[..n]);
      assert pages == pages[..n] + [pages[n]];
    }
  }

  /** The first `n` sheets draw exactly the source pages they cover, in order. */
  lemma {:induction false} ImposedPrefixDraws(src: Document, cfg: NUpConfig, n: nat)
    requires cfg.pagesPerSheet > 0 && n <= SheetsNeeded(|src|, cfg.pagesPerSheet)
    ensures Covered(|src|, cfg.pagesPerSheet, n) <= |src|
    ensures SheetsDrawnPages(Imposed(src, cfg)[..n]) == src[..Covered(|src|, cfg.pagesPerSheet, n)]
  {
    var pps := cfg.pagesPerSheet;
    if n > 0 {
      var out := Imposed(src, cfg);
      ImposedPrefixDraws(src, cfg, n - 1);
      var start, fill := Coverage(|src|, pps, n);
      SheetsDrawnPagesStep(out, n);
      SheetMarks(src, cfg, n - 1);
      TileMarksDraw(src, GeometryOf(cfg), start, fill);
      PrefixSplit(src, start, fill);
    }
  }

  /** The pages drawn on the first n sheets are those on the first n-1, then those on the n-th. */
  lemma SheetsDrawnPagesStep(sheets: Document, n: nat)
    requires 0 < n <= |sheets|
    ensures SheetsDrawnPages(sheets[..n]) == SheetsDrawnPages(sheets[..n - 1]) + DrawnPages(sheets[n - 1].marks)
  {
    assert sheets[..n][..n - 1] == sheets[..n - 1];
  }

  /** What a sheet of the imposition holds: the tiles of its share of the source pages. */
  lemma SheetMarks(src: Document, cfg: NUpConfig, sheet: nat)
    requires cfg.pagesPerSheet > 0 && sheet < SheetsNeeded(|src|, cfg.pagesPerSheet)
    ensures sheet * cfg.pagesPerSheet < |src|
    ensures Imposed(src, cfg)[sheet].marks ==
      TileMarks(src, GeometryOf(cfg), sheet * cfg.pagesPerSheet,
                Fill(|src|, cfg.pagesPerSheet, sheet * cfg.pagesPerSheet))
  {
    SheetStartInRange(|src|, cfg.pagesPerSheet, sheet);
  }

  /** A prefix of a list is a shorter prefix followed by the slice that comes next. */
  lemma PrefixSplit<T>(s: seq<T>, a: nat, b: nat)
    requires a + b <= |s|
    ensures s[..a + b] == s[..a] + s[a..a + b]
  {
  }

  /** How many source pages the first n sheets have room for, at most all of them. */
  function Covered(total: nat, pps: int, n: nat): (c: nat)
    requires pps > 0
    ensures c <= total
  {
    MulMonotoneInt(0, n, pps);
    if n * pps <= total then n * pps else total
  }

  /**
   * The pages the first n sheets cover end where those of the first n-1
   * sheets end plus what the n-th sheet holds.
   */
  lemma Coverage(total: nat, pps: int, n: nat) returns (start: nat, fill: nat)
    requires pps > 0 && 0 < n <= SheetsNeeded(total, pps)
    ensures start == (n - 1) * pps && start < total && fill == Fill(total, pps, start)
    ensures Covered(total, pps, n - 1) == start
    ensures Covered(total, pps, n) == start + fill
  {
    SheetStartInRange(total, pps, n - 1);
    start := (n - 1) * pps;
    fill := Fill(total, pps, start);
    assert n * pps == start + pps;
  }

  /** Every source page is drawn exactly once, in source order across the sheets. */
  lemma ImposedDrawsEachPageOnce(src: Document, cfg: NUpConfig)
    requires cfg.pagesPerSheet > 0
    ensures SheetsDrawnPages(Imposed(src, cfg)) == src
  {
    var out := Imposed(src, cfg);
    var sheets := SheetsNeeded(|src|, cfg.pagesPerSheet);
    ImposedPrefixDraws(src, cfg, sheets);
    SheetsNeededIsCeiling(|src|, cfg.pagesPerSheet);
    assert Covered(|src|, cfg.pagesPerSheet, sheets) == |src|;
    assert out[..sheets] == out;
  }

  /** A negative count of pages per sheet yields no sheet at all. */
  lemma NegativeCountNoSheets(src: Document, cfg: NUpConfig)
    requires cfg.pagesPerSheet < 0
    ensures Imposed(src, cfg) == []
  {
  }

  /** Seven pages four to a sheet: two sheets, the second with three tiles. */
  lemma SevenPagesFourUp(src: Document, cfg: NUpConfig)
    requires |src| == 7 && cfg.pagesPerSheet == 4
    ensures var out := Imposed(src, cfg);
      |out| == 2 && |out[0].marks| == 4 && |out[1].marks| == 3
  {
  }
}
