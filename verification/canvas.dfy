/**
 The arithmetic between the window and the grid: how many cells fit on the
 canvas, where each cell's rectangle is drawn, and which cell a mouse click
 lands in. The program lays a 20-pixel cell over an 800 x 500 canvas.
 */
module Canvas {
  import opened Wrappers
  import opened Grids

  const ScreenWidth: nat := 800
  const ScreenHeight: nat := 500
  const CellSize: nat := 20

  /** How many whole cells fit along an extent, as `int(extent / cell_size)`
      computes it for non-negative extents. */
  function CellsAlong(extent: nat, cellSize: nat): (n: nat)
    requires cellSize > 0
    ensures n * cellSize <= extent < (n + 1) * cellSize
  {
    extent / cellSize
  }

  /** The program's grid dimensions, `(rows, cols)`. */
  function AppDimensions(): (d: (nat, nat))
    ensures d == (25, 40)
    ensures d.0 * CellSize == ScreenHeight && d.1 * CellSize == ScreenWidth
  {
    (CellsAlong(ScreenHeight, CellSize), CellsAlong(ScreenWidth, CellSize))
  }

  /** The rectangle `(x0, y0, x1, y1)` drawn for cell `(row, col)`: a square
      of side `cellSize`, placed `col` cells across and `row` cells down. */
  function CellRect(row: nat, col: nat, cellSize: nat): (rect: (int, int, int, int))
    ensures rect.2 - rect.0 == cellSize && rect.3 - rect.1 == cellSize
    ensures 0 <= rect.0 && 0 <= rect.1
  {
    (col * cellSize, row * cellSize, col * cellSize + cellSize, row * cellSize + cellSize)
  }

  /** Python list indexing: `i` in `[0, n)` addresses itself, `i` in `[-n, 0)`
      counts from the end, anything else raises an index error. */
  function PyIndex(i: int, n: nat): (k: Option<nat>)
    ensures k.Some? <==> -(n as int) <= i < n
    ensures k.Some? ==> k.value < n && (k.value == i || k.value == i + n)
  {
    if 0 <= i < n then Some(i)
    else if -(n as int) <= i < 0 then Some(i + n)
    else None
  }

  datatype ClickError = IndexError

  /** The cell a click at pixel `(x, y)` selects: `(y // cell_size,
      x // cell_size)` used as list indices. Dafny's `/` by a positive divisor
      rounds down, as Python's `//` does. */
  function CellAt(g: Grid, x: int, y: int, cellSize: nat): (p: Option<(nat, nat)>)
    requires cellSize > 0
    ensures p.Some? ==> InBounds(g, p.value.0, p.value.1)
    ensures 0 <= x && 0 <= y ==>
              (p.Some? <==> y / cellSize < g.rows && x / cellSize < g.cols)
    ensures 0 <= x && 0 <= y && p.Some? ==> p.value == (y / cellSize, x / cellSize)
  {
    match (PyIndex(y / cellSize, g.rows), PyIndex(x / cellSize, g.cols))
    case (Some(r), Some(c)) => Some((r, c))
    case _ => None
  }

  /** A click: the clicked cell is toggled, or the lookup raises an index error
      and nothing changes. */
  function Click(g: Grid, x: int, y: int, cellSize: nat): (res: Result<Grid, ClickError>)
    requires WellFormed(g) && cellSize > 0
    ensures res.Success? <==> CellAt(g, x, y, cellSize).Some?
    ensures res.Success? ==>
              var p := CellAt(g, x, y, cellSize).value;
              WellFormed(res.value) && SameShape(g, res.value)
              && res.value.cells[p.0][p.1] == 1 - g.cells[p.0][p.1]
              && forall r, c :: InBounds(g, r, c) && (r, c) != p ==>
                   res.value.cells[r][c] == g.cells[r][c]
  {
    match CellAt(g, x, y, cellSize)
    case Some(p) => Success(Toggle(g, p.0, p.1))
    case None => Failure(IndexError)
  }

  lemma MulMonotone(a: int, b: int, s: nat)
    ensures a <= b ==> a * s <= b * s
  {
  }

  /** `x` lies in `[lo * size, lo * size + size)` exactly when `x / size == lo`. */
  lemma DivisionPicksStrip(x: int, size: nat, lo: int)
    requires size > 0
    ensures lo * size <= x < lo * size + size <==> x / size == lo
  {
    var q := x / size;
    assert q * size <= x < q * size + size;
    MulMonotone(q + 1, lo, size);
    MulMonotone(lo + 1, q, size);
  }

  /** On a canvas whose sides are whole numbers of cells, every pixel maps to
      a cell of the grid, and it is the cell whose rectangle covers it. */
  lemma {:induction false} ClickHitsDrawnCell(g: Grid, x: int, y: int, cellSize: nat)
    requires cellSize > 0
    requires 0 <= x < g.cols * cellSize && 0 <= y < g.rows * cellSize
    ensures CellAt(g, x, y, cellSize).Some?
    ensures var p := CellAt(g, x, y, cellSize).value;
            var rect := CellRect(p.0, p.1, cellSize);
            rect.0 <= x < rect.2 && rect.1 <= y < rect.3
  {
    var row, col := y / cellSize, x / cellSize;
    DivisionPicksStrip(y, cellSize, row);
    DivisionPicksStrip(x, cellSize, col);
    MulMonotone(g.rows, row, cellSize);
    MulMonotone(g.cols, col, cellSize);
  }

  /** The drawn rectangles do not overlap: a pixel inside the rectangles of
      two cells means the two cells are the same. */
  lemma CellRectsDisjoint(row: nat, col: nat, row': nat, col': nat, cellSize: nat, x: int, y: int)
    requires cellSize > 0
    requires var a := CellRect(row, col, cellSize); a.0 <= x < a.2 && a.1 <= y < a.3
    requires var b := CellRect(row', col', cellSize); b.0 <= x < b.2 && b.1 <= y < b.3
    ensures row == row' && col == col'
  {
    DivisionPicksStrip(x, cellSize, col);
    DivisionPicksStrip(x, cellSize, col');
    DivisionPicksStrip(y, cellSize, row);
    DivisionPicksStrip(y, cellSize, row');
  }

  /** The lookup uses Python list indices, so a pixel up to one cell to the left
      of the canvas would select the last column rather than fail. A click on
      the canvas never reports a negative coordinate, so this input does not
      reach the handler in the program; the lemma records what the lookup
      itself does. */
  lemma LeftOfCanvasWrapsToLastColumn(g: Grid, x: int, y: int, cellSize: nat)
    requires cellSize > 0 && g.cols > 0
    requires -(cellSize as int) <= x < 0 && 0 <= y < g.rows * cellSize
    ensures CellAt(g, x, y, cellSize) == Some((y / cellSize, g.cols - 1))
  {
    DivisionPicksStrip(x, cellSize, -1);
    DivisionPicksStrip(y, cellSize, y / cellSize);
    MulMonotone(g.rows, y / cellSize, cellSize);
  }

  /** Every click on the program's 800 x 500 canvas toggles the cell
      `(y // 20, x // 20)` of its 25 x 40 grid. */
  lemma AppClickInBounds(g: Grid, x: int, y: int)
    requires WellFormed(g) && (g.rows, g.cols) == AppDimensions()
    requires 0 <= x < ScreenWidth && 0 <= y < ScreenHeight
    ensures InBounds(g, y / CellSize, x / CellSize)
    ensures Click(g, x, y, CellSize) == Success(Toggle(g, y / CellSize, x / CellSize))
  {
    ClickHitsDrawnCell(g, x, y, CellSize);
  }

  /** Clicking the same pixel twice restores the grid. */
  lemma ClickTwice(g: Grid, x: int, y: int, cellSize: nat)
    requires WellFormed(g) && cellSize > 0
    requires Click(g, x, y, cellSize).Success?
    ensures var once := Click(g, x, y, cellSize).value;
            Click(once, x, y, cellSize) == Success(g)
  {
    var p := CellAt(g, x, y, cellSize).value;
    ToggleTwice(g, p.0, p.1);
  }
}
