/** Grid geometry: the rows x cols layout, cells addressed either by a
    row-major index or by a (row, col) pair, and 4-neighbour adjacency. */
module Grid {

  /** The dimensions of one puzzle. Every cell index and every tile id
      lies in [0, Size()). */
  datatype Grid = Grid(rows: nat, cols: nat) {
    predicate Valid() {
      rows > 0 && cols > 0
    }

    function Size(): nat {
      rows * cols
    }
  }

  /** A (row, col) pair. Components are integers because differences of
      cells (offsets, translations) are cells too and may be negative. */
  datatype Cell = Cell(row: int, col: int)

  function Sub(a: Cell, b: Cell): Cell {
    Cell(a.row - b.row, a.col - b.col)
  }

  function Add(a: Cell, b: Cell): Cell {
    Cell(a.row + b.row, a.col + b.col)
  }

  function Abs(x: int): nat {
    if x < 0 then -x else x
  }

  predicate InGrid(g: Grid, c: Cell) {
    0 <= c.row < g.rows && 0 <= c.col < g.cols
  }

  /** Grid (4-neighbour) adjacency: Manhattan distance exactly one. */
  predicate Adjacent(a: Cell, b: Cell) {
    Abs(b.row - a.row) + Abs(b.col - a.col) == 1
  }

  lemma MulMonotone(a: nat, b: nat, c: nat)
    requires a <= b
    ensures a * c <= b * c
  {
  }

  lemma MulCancelLess(a: int, b: int, c: nat)
    requires c > 0 && a * c < b * c
    ensures a < b
  {
    assert (b - a) * c > 0;
  }

  /** indexToRowCol: row = floor(index / cols), col = index % cols. Indices
      are never negative at any call site, so Dafny's division agrees with
      app.js's Math.floor and %. */
  function IndexToRowCol(g: Grid, index: nat): (c: Cell)
    requires g.Valid()
    ensures 0 <= c.row && 0 <= c.col < g.cols
  {
    Cell(index / g.cols, index % g.cols)
  }

  /** An index is in range exactly when its cell is on the grid. */
  lemma IndexInGrid(g: Grid, index: nat)
    requires g.Valid()
    ensures index < g.Size() <==> InGrid(g, IndexToRowCol(g, index))
  {
    RowBound(g, index);
  }

  lemma RowBound(g: Grid, index: nat)
    requires g.Valid()
    ensures index < g.Size() <==> index / g.cols < g.rows
  {
    var q := index / g.cols;
    assert index == q * g.cols + index % g.cols;
    if index < g.Size() {
      MulCancelLess(q, g.rows, g.cols);
    } else {
      MulCancelLess(g.rows - 1, q, g.cols);
    }
  }

  /** rowColToIndex: row * cols + col. */
  function RowColToIndex(g: Grid, c: Cell): (index: int)
    requires g.Valid()
    ensures InGrid(g, c) ==> 0 <= index < g.Size()
  {
    IndexBound(g, c);
    c.row * g.cols + c.col
  }

  lemma IndexBound(g: Grid, c: Cell)
    requires g.Valid()
    ensures InGrid(g, c) ==> 0 <= c.row * g.cols + c.col < g.Size()
  {
    if InGrid(g, c) {
      MulMonotone(c.row + 1, g.rows, g.cols);
    }
  }

  /** Every in-range index survives the trip to (row, col) and back. */
  lemma IndexRoundTrip(g: Grid, index: nat)
    requires g.Valid()
    ensures RowColToIndex(g, IndexToRowCol(g, index)) == index
  {
    assert index == (index / g.cols) * g.cols + index % g.cols;
  }

  /** Every cell with a non-negative row and an in-range column survives the
      trip to an index and back; in particular every in-grid cell does. */
  lemma CellRoundTrip(g: Grid, c: Cell)
    requires g.Valid() && 0 <= c.row && 0 <= c.col < g.cols
    ensures RowColToIndex(g, c) >= 0
    ensures IndexToRowCol(g, RowColToIndex(g, c) as nat) == c
  {
    var i := c.row * g.cols + c.col;
    assert i >= 0;
    var q, r := i / g.cols, i % g.cols;
    assert i == q * g.cols + r;
    assert (q - c.row) * g.cols == c.col - r;
    if q > c.row {
      MulMonotone(1, q - c.row, g.cols);
    } else if q < c.row {
      MulMonotone(1, c.row - q, g.cols);
    }
  }

  /** In-grid cells share an index only if they are the same cell. */
  lemma IndexInjective(g: Grid, a: Cell, b: Cell)
    requires g.Valid() && InGrid(g, a) && InGrid(g, b)
    ensures RowColToIndex(g, a) == RowColToIndex(g, b) <==> a == b
  {
    CellRoundTrip(g, a);
    CellRoundTrip(g, b);
  }
}
