/**
 The coverage grid of the scratch card: a fixed square grid of cells laid over
 the scratch surface, and the square brush footprint that one touch sample
 marks on it.
 */
module Grid {

  /** Number of cells along each side of the grid. */
  const Steps: int := 30

  /** Number of cells in the whole grid, Steps * Steps. */
  const CellCount: int := 900

  /** Width in pixels of the scratch stroke. */
  const Stroke: int := 34

  /** A cell of the grid, addressed by row and column. */
  datatype Cell = Cell(row: int, col: int)

  /** True iff the cell lies inside the grid. */
  predicate InGrid(c: Cell) {
    0 <= c.row < Steps && 0 <= c.col < Steps
  }

  /** True iff every cell of the set lies inside the grid. */
  predicate AllInGrid(cells: set<Cell>) {
    forall c :: c in cells ==> InGrid(c)
  }

  /** True iff the cell lies in the square of side 2*radius+1 centred on (row, col). */
  predicate InSquare(c: Cell, row: int, col: int, radius: int) {
    row - radius <= c.row <= row + radius && col - radius <= c.col <= col + radius
  }

  /** The least integer not below x (Math.ceil on exact reals). */
  function Ceil(x: real): (n: int)
    ensures x <= n as real < x + 1.0
  {
    -((-x).Floor)
  }

  /** The cells a brush of the given radius (in cells) marks around (row, col):
      the in-grid part of the square. */
  function Footprint(row: int, col: int, radius: int): (cells: set<Cell>)
    ensures forall c :: c in cells <==> InGrid(c) && InSquare(c, row, col, radius)
  {
    set r, k | 0 <= r < Steps && 0 <= k < Steps
                && row - radius <= r <= row + radius
                && col - radius <= k <= col + radius :: Cell(r, k)
  }

  /** The marking loop as the screen runs it: every cell of the square is
      visited row by row, out-of-grid cells are skipped and the others are
      added to the set. The result is the declarative footprint added to
      the cells already marked. */
  method MarkSquare(cells: set<Cell>, row: int, col: int, radius: int) returns (marked: set<Cell>)
    ensures marked == cells + Footprint(row, col, radius)
    ensures AllInGrid(cells) ==> AllInGrid(marked)
  {
    marked := cells;
    var r := row - radius;
    while r <= row + radius
      invariant row - radius <= r
      invariant r <= row + radius + 1 || r == row - radius
      invariant forall c :: c in marked <==>
                  c in cells || (c in Footprint(row, col, radius) && c.row < r)
      decreases row + radius + 1 - r
    {
      var k := col - radius;
      while k <= col + radius
        invariant col - radius <= k
        invariant k <= col + radius + 1 || k == col - radius
        invariant forall c :: c in marked <==>
                    c in cells || (c in Footprint(row, col, radius) && (c.row < r || (c.row == r && c.col < k)))
        decreases col + radius + 1 - k
      {
        if !(r < 0 || k < 0 || r >= Steps || k >= Steps) {
          marked := marked + {Cell(r, k)};
        }
        k := k + 1;
      }
      r := r + 1;
    }
  }

  /** The rectangle of cells with rows in [r0, r1) and columns in [c0, c1). */
  function Rect(r0: int, r1: int, c0: int, c1: int): set<Cell> {
    set r, k | r0 <= r < r1 && c0 <= k < c1 :: Cell(r, k)
  }

  /** One row of cells, columns in [c0, c1). */
  function RowCells(r: int, c0: int, c1: int): set<Cell> {
    set k | c0 <= k < c1 :: Cell(r, k)
  }

  lemma {:induction false} RowCellsSize(r: int, c0: int, c1: int)
    requires c0 <= c1
    ensures |RowCells(r, c0, c1)| == c1 - c0
    decreases c1 - c0
  {
    if c0 == c1 {
      assert RowCells(r, c0, c1) == {};
    } else {
      RowCellsSize(r, c0 + 1, c1);
      assert RowCells(r, c0, c1) == {Cell(r, c0)} + RowCells(r, c0 + 1, c1);
    }
  }

  /** A rectangle splits into its first row and the rectangle below it. */
  lemma RectSplit(r0: int, r1: int, c0: int, c1: int)
    requires r0 < r1
    ensures Rect(r0, r1, c0, c1) == RowCells(r0, c0, c1) + Rect(r0 + 1, r1, c0, c1)
    ensures RowCells(r0, c0, c1) !! Rect(r0 + 1, r1, c0, c1)
  {
  }

  /** A rectangle of h rows and w columns holds h * w cells. */
  lemma {:induction false} RectSize(r0: int, r1: int, c0: int, c1: int)
    requires r0 <= r1 && c0 <= c1
    ensures |Rect(r0, r1, c0, c1)| == (r1 - r0) * (c1 - c0)
    decreases r1 - r0
  {
    if r0 == r1 {
      assert Rect(r0, r1, c0, c1) == {};
    } else {
      var h, w := r1 - r0, c1 - c0;
      RectSplit(r0, r1, c0, c1);
      RectSize(r0 + 1, r1, c0, c1);
      RowCellsSize(r0, c0, c1);
      assert h * w == (h - 1) * w + w;
    }
  }

  /** First row (or column) of the footprint along one axis. */
  function Lo(centre: int, radius: int): int {
    if centre - radius < 0 then 0 else centre - radius
  }

  /** One past the last row (or column) of the footprint along one axis. */
  function Hi(centre: int, radius: int): int {
    if centre + radius + 1 > Steps then Steps else centre + radius + 1
  }

  /** Number of in-grid rows (or columns) the square spans along one axis. */
  function Span(centre: int, radius: int): (n: nat)
    ensures n <= Steps
  {
    if Lo(centre, radius) < Hi(centre, radius) then Hi(centre, radius) - Lo(centre, radius) else 0
  }

  /** The footprint is the square clipped to the grid: its size is the product
      of the clipped spans along both axes. */
  lemma FootprintSize(row: int, col: int, radius: int)
    ensures |Footprint(row, col, radius)| == Span(row, radius) * Span(col, radius)
  {
    var f := Footprint(row, col, radius);
    if Span(row, radius) == 0 || Span(col, radius) == 0 {
      assert f == {};
    } else {
      var rect := Rect(Lo(row, radius), Hi(row, radius), Lo(col, radius), Hi(col, radius));
      assert f == rect;
      RectSize(Lo(row, radius), Hi(row, radius), Lo(col, radius), Hi(col, radius));
    }
  }

  /** Every cell of the grid, as a rectangle. */
  function AllCells(): (cells: set<Cell>)
    ensures forall c :: c in cells <==> InGrid(c)
  {
    Rect(0, Steps, 0, Steps)
  }

  /** A set of in-grid cells holds at most CellCount cells. */
  lemma AllInGridBound(cells: set<Cell>)
    requires AllInGrid(cells)
    ensures |cells| <= CellCount
  {
    var all := AllCells();
    RectSize(0, Steps, 0, Steps);
    assert all == cells + (all - cells);
    assert cells !! (all - cells);
  }
}
