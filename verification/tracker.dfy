/**
 The scratch tracker: turns one touch sample on the measured scratch surface
 into newly marked grid cells, recomputes the coverage ratio, publishes the
 progress value when it moved by more than one percentage point, and reports
 whether the reveal threshold (half the grid) has been reached. Both screens
 run exactly this routine.
 */
module Tracker {
  import opened Grid

  /** The measured size of the scratch surface in pixels. */
  datatype Layout = Layout(width: real, height: real)

  /** The surface as it is before any measurement arrives. */
  const Unmeasured: Layout := Layout(0.0, 0.0)

  /** Samples are only usable once both dimensions are non-zero. */
  predicate Measured(l: Layout) {
    l.width != 0.0 && l.height != 0.0
  }

  /** Reach of the brush in pixels: 60% of the stroke width. */
  const BrushReach: real := (Stroke as real) * 0.6

  /** Smallest change in progress that is published to the screen. */
  const PublishStep: real := 0.01

  function Abs(x: real): real {
    if x < 0.0 then -x else x
  }

  function Min(a: real, b: real): real {
    if a <= b then a else b
  }

  function CellWidth(l: Layout): real
    requires Measured(l)
  {
    l.width / (Steps as real)
  }

  function CellHeight(l: Layout): real
    requires Measured(l)
  {
    l.height / (Steps as real)
  }

  /** True iff the surface has a positive size, as every real layout does. */
  predicate Positive(l: Layout) {
    l.width > 0.0 && l.height > 0.0
  }

  /** True iff the pixel (x, y) lies on the surface. */
  predicate OnSurface(l: Layout, x: real, y: real) {
    0.0 <= x < l.width && 0.0 <= y < l.height
  }

  /** The number of whole steps of the given size needed to cover a length:
      the least n with n steps reaching it. */
  lemma CeilSteps(length: real, step: real)
    requires step > 0.0
    ensures var n := Ceil(length / step);
            (n - 1) as real * step < length <= n as real * step
  {
    var q := length / step;
    var n := Ceil(q);
    assert q * step == length;
    assert q <= n as real;
    assert q * step <= n as real * step;
    assert (n - 1) as real < q;
    assert (n - 1) as real * step < q * step;
  }

  /** The whole cells of a side containing a coordinate: the cell index k
      with k * side <= v < (k + 1) * side. */
  lemma FloorCell(v: real, side: real)
    requires side > 0.0
    ensures var k := (v / side).Floor;
            k as real * side <= v < (k + 1) as real * side
  {
    var q := v / side;
    var k := q.Floor;
    assert q * side == v;
    assert k as real <= q < (k + 1) as real;
    assert k as real * side <= q * side;
    assert q < (k + 1) as real;
    assert q * side < (k + 1) as real * side;
    assert v < (k + 1) as real * side;
  }

  /** Brush radius in cells: the brush reach divided by the smaller cell side,
      rounded up. On a real surface it is the least number of cells whose
      combined smaller side reaches the brush reach, and at least one. */
  function Radius(l: Layout): (r: int)
    requires Measured(l)
    ensures Positive(l) ==>
              && 1 <= r
              && (r - 1) as real * Min(CellWidth(l), CellHeight(l)) < BrushReach
              && BrushReach <= r as real * Min(CellWidth(l), CellHeight(l))
  {
    var r := Ceil(BrushReach / Min(CellWidth(l), CellHeight(l)));
    if Positive(l) then
      CeilSteps(BrushReach, Min(CellWidth(l), CellHeight(l)));
      r
    else
      r
  }

  /** The cell under the pixel (x, y): row from y, column from x. On a real
      surface it is the cell whose pixel band contains the point along each
      axis, and a point on the surface falls in a cell of the grid. */
  function CentreCell(l: Layout, x: real, y: real): (c: Cell)
    requires Measured(l)
    ensures Positive(l) ==>
              && c.row as real * CellHeight(l) <= y < (c.row + 1) as real * CellHeight(l)
              && c.col as real * CellWidth(l) <= x < (c.col + 1) as real * CellWidth(l)
    ensures Positive(l) && OnSurface(l, x, y) ==> InGrid(c)
  {
    var c := Cell((y / CellHeight(l)).Floor, (x / CellWidth(l)).Floor);
    if Positive(l) then
      FloorCell(y, CellHeight(l));
      FloorCell(x, CellWidth(l));
      c
    else
      c
  }

  /** The cells one sample at (x, y) marks: the brush square around the
      sample's cell, clipped to the grid. A sample on the surface always
      marks the cell under it. */
  function SampleCells(l: Layout, x: real, y: real): (cells: set<Cell>)
    requires Measured(l)
    ensures AllInGrid(cells)
    ensures Positive(l) && OnSurface(l, x, y) ==> CentreCell(l, x, y) in cells
  {
    var centre := CentreCell(l, x, y);
    Footprint(centre.row, centre.col, Radius(l))
  }

  /** Fraction of the grid that has been scratched. */
  function Coverage(cells: set<Cell>): real {
    (|cells| as real) / (CellCount as real)
  }

  /** Marked cells plus the progress value last published to the screen. */
  datatype Session = Session(cells: set<Cell>, published: real)

  /** The session at the start of every toss and after every reset. */
  const Fresh: Session := Session({}, 0.0)

  /** What the tracker keeps true of a session: every cell is in the grid, and
      the published progress never runs ahead of the coverage and lags it by
      at most one percentage point. */
  predicate WellFormed(s: Session) {
    && AllInGrid(s.cells)
    && 0.0 <= s.published <= Coverage(s.cells)
    && Coverage(s.cells) - s.published <= PublishStep
  }

  /** The outcome of one sample: the updated session and whether the reveal
      handler is to be called. */
  datatype SampleOutcome = SampleOutcome(session: Session, requestsReveal: bool)

  /** The progress value kept after a sample whose coverage is next. */
  function Publish(published: real, next: real): (p: real)
    ensures Abs(p - next) <= PublishStep
    ensures p != published ==> p == next && Abs(next - published) > PublishStep
  {
    if Abs(next - published) > PublishStep then next else published
  }

  /** Marking a footprint: its cells are added to the session, the coverage
      is recomputed and published if it moved by more than one point, and the
      reveal is requested exactly when at least half of the grid is marked. */
  function Mark(s: Session, footprint: set<Cell>): (out: SampleOutcome)
    ensures out.session.cells == s.cells + footprint
    ensures out.requestsReveal <==> 2 * |out.session.cells| >= CellCount
    ensures Abs(out.session.published - Coverage(out.session.cells)) <= PublishStep
    ensures out.session.published != s.published ==>
              out.session.published == Coverage(out.session.cells)
              && Abs(Coverage(out.session.cells) - s.published) > PublishStep
  {
    var cells := s.cells + footprint;
    var next := Coverage(cells);
    SampleOutcome(Session(cells, Publish(s.published, next)), next >= 0.5)
  }

  /** One touch sample at pixel (x, y). A sample on an unmeasured surface
      changes nothing and does not reveal. Otherwise the footprint around the
      sample's cell is marked, and the reveal is requested exactly when at
      least half of the grid is then marked. */
  function ScratchPoint(s: Session, l: Layout, x: real, y: real): (out: SampleOutcome)
    ensures !Measured(l) ==> out == SampleOutcome(s, false)
    ensures Measured(l) ==> out.session.cells == s.cells + SampleCells(l, x, y)
    ensures out.requestsReveal <==> Measured(l) && 2 * |out.session.cells| >= CellCount
    ensures Measured(l) ==> Abs(out.session.published - Coverage(out.session.cells)) <= PublishStep
    ensures out.session.published != s.published ==>
              out.session.published == Coverage(out.session.cells)
              && Abs(Coverage(out.session.cells) - s.published) > PublishStep
  {
    if !Measured(l) then SampleOutcome(s, false)
    else Mark(s, SampleCells(l, x, y))
  }

  /** Coverage of in-grid cells is a ratio in [0, 1]. */
  lemma CoverageBounds(cells: set<Cell>)
    requires AllInGrid(cells)
    ensures 0.0 <= Coverage(cells) <= 1.0
  {
    AllInGridBound(cells);
  }

  /** Adding cells never lowers the coverage. */
  lemma CoverageMonotone(a: set<Cell>, b: set<Cell>)
    requires a <= b
    ensures Coverage(a) <= Coverage(b)
  {
    assert b == a + (b - a);
    assert a !! (b - a);
  }

  /** Marking in-grid cells keeps the session well formed: stored cells stay
      in the grid, coverage stays in [0, 1], and the published progress stays
      at most one point below the coverage. */
  lemma MarkWellFormed(s: Session, footprint: set<Cell>)
    requires WellFormed(s) && AllInGrid(footprint)
    ensures WellFormed(Mark(s, footprint).session)
    ensures 0.0 <= Coverage(Mark(s, footprint).session.cells) <= 1.0
  {
    var out := Mark(s, footprint).session;
    CoverageMonotone(s.cells, out.cells);
    CoverageBounds(out.cells);
  }

  /** Every sample keeps the session well formed. */
  lemma ScratchPointWellFormed(s: Session, l: Layout, x: real, y: real)
    requires WellFormed(s)
    ensures WellFormed(ScratchPoint(s, l, x, y).session)
  {
    if Measured(l) {
      MarkWellFormed(s, SampleCells(l, x, y));
    }
  }

  /** Marking never unmarks a cell and never lowers the coverage. */
  lemma MarkMonotone(s: Session, footprint: set<Cell>)
    ensures s.cells <= Mark(s, footprint).session.cells
    ensures |s.cells| <= |Mark(s, footprint).session.cells|
    ensures Coverage(s.cells) <= Coverage(Mark(s, footprint).session.cells)
  {
    CoverageMonotone(s.cells, Mark(s, footprint).session.cells);
  }

  /** On a well-formed session the published progress never decreases: it
      only ever moves up to the current coverage, which has only grown. */
  lemma MarkPublishedMonotone(s: Session, footprint: set<Cell>)
    requires WellFormed(s)
    ensures s.published <= Mark(s, footprint).session.published
  {
    CoverageMonotone(s.cells, Mark(s, footprint).session.cells);
  }

  /** Marking the same footprint again changes nothing further: the cell set,
      the published progress and the reveal request all stay as they are. So
      a repeated sample at the same point is a no-op. */
  lemma MarkIdempotent(s: Session, footprint: set<Cell>)
    ensures Mark(Mark(s, footprint).session, footprint) == Mark(s, footprint)
  {
  }

  /** The 300 x 300 pixel surface of the worked example: cells are 10 pixels,
      the brush radius is ceil(20.4 / 10) = 3 cells, and a sample at the centre
      marks the 7 x 7 block of rows and columns 12..18, i.e. 49 cells, which is
      also the progress published. */
  lemma CentreSampleMarks49()
    ensures var out := ScratchPoint(Fresh, Layout(300.0, 300.0), 150.0, 150.0);
            && |out.session.cells| == 49
            && out.session.cells == Rect(12, 19, 12, 19)
            && out.session.published == 49.0 / 900.0
            && !out.requestsReveal
  {
    var l := Layout(300.0, 300.0);
    assert CellWidth(l) == 10.0 && CellHeight(l) == 10.0;
    assert BrushReach / 10.0 == 2.04;
    assert Radius(l) == 3;
    assert (150.0 / 10.0).Floor == 15;
    assert CentreCell(l, 150.0, 150.0) == Cell(15, 15);
    FootprintSize(15, 15, 3);
    assert Footprint(15, 15, 3) == Rect(12, 19, 12, 19);
  }
}
