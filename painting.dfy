/**
 * The painting loops shared by the single-storm rasterizer and the
 * aggregator: for one position and one threshold, sweep the four quadrants,
 * project each of the 31 bearings and paint one column of rows, in place in
 * a 180 x 360 grid. Each method is proved against the stroke fold of the
 * specification: every cell ends as `CellAfter` of the strokes painted,
 * from the value it had on entry.
 */
module Painting {
  import opened WindField

  predicate IsGrid(grid: array2<int>) {
    grid.Length0 == ROWS && grid.Length1 == COLS
  }

  /**
   * The innermost loop: rows `[lo, hi)` of column `col`; a hurricane write
   * sets 2, a tropical-storm write sets 1 only where the cell is not 2.
   * No other cell changes.
   */
  method PaintColumn(grid: array2<int>, s: Stroke)
    requires IsGrid(grid) && InGrid(s)
    modifies grid
    ensures forall r, c :: 0 <= r < ROWS && 0 <= c < COLS ==> grid[r, c] == Apply(s, old(grid[r, c]), r, c)
  {
    var y := s.lo;
    while y < s.hi
      invariant s.lo <= y && (s.lo < s.hi ==> y <= s.hi)
      invariant forall r, c :: 0 <= r < ROWS && 0 <= c < COLS ==>
        grid[r, c] == if c == s.col && s.lo <= r < y then Apply(s, old(grid[r, c]), r, c) else old(grid[r, c])
    {
      if s.force == Hurricane {
        grid[y, s.col] := 2;
      } else if grid[y, s.col] != 2 {
        grid[y, s.col] := 1;
      }
      y := y + 1;
    }
  }

  /** One quadrant: the 31 bearings in order, each projected at the quadrant's extent and painted. */
  method PaintQuadrant(grid: array2<int>, lat: real, lon: real, quad: int, ext: int, force: Force, project: Projector)
    requires IsGrid(grid) && 0 <= quad < 4
    requires AllInGrid(QuadrantStrokes(lat, lon, quad, ext, force, project))
    modifies grid
    ensures forall r, c :: 0 <= r < ROWS && 0 <= c < COLS ==>
      grid[r, c] == CellAfter(QuadrantStrokes(lat, lon, quad, ext, force, project), old(grid[r, c]), r, c)
  {
    var bearings := Bearings(quad);
    var dist := ext as real / RADIUS;
    ghost var strokes := QuadrantStrokes(lat, lon, quad, ext, force, project);
    var k := 0;
    while k < SWEEP
      invariant 0 <= k <= SWEEP
      invariant forall r, c :: 0 <= r < ROWS && 0 <= c < COLS ==>
        grid[r, c] == CellAfter(strokes[..k], old(grid[r, c]), r, c)
    {
      var dest := project(lat, lon, bearings[k] as real, dist);
      var dlon := WrapLon(dest.lon);
      var col := 180 + Floor(dlon);
      var s;
      if quad == 0 || quad == 3 {
        s := Stroke(col, 90 + Floor(lat), 90 + Ceil(dest.lat), force);
      } else {
        s := Stroke(col, 90 + Floor(dest.lat), 90 + Ceil(lat), force);
      }
      assert s == SweepStroke(lat, lon, quad, k, ext, force, project) == strokes[k];
      assert strokes[k] in strokes;
      label Before:
      PaintColumn(grid, s);
      forall r, c | 0 <= r < ROWS && 0 <= c < COLS
        ensures grid[r, c] == CellAfter(strokes[..k + 1], old(grid[r, c]), r, c)
      {
        CellAfterPrefixStep(strokes, k, old(grid[r, c]), r, c);
      }
      k := k + 1;
    }
    assert strokes[..SWEEP] == strokes;
  }

  /** One threshold at one position: quadrants NE, SE, SW, NW in turn, quadrant `q` at extent `exts[q]`. */
  method PaintThreshold(grid: array2<int>, lat: real, lon: real, exts: seq<int>, force: Force, project: Projector)
    requires IsGrid(grid) && |exts| == 4
    requires AllInGrid(ThresholdStrokes(lat, lon, exts, force, project))
    modifies grid
    ensures forall r, c :: 0 <= r < ROWS && 0 <= c < COLS ==>
      grid[r, c] == CellAfter(ThresholdStrokes(lat, lon, exts, force, project), old(grid[r, c]), r, c)
  {
    var quad := 0;
    while quad < 4
      invariant 0 <= quad <= 4
      invariant forall r, c :: 0 <= r < ROWS && 0 <= c < COLS ==>
        grid[r, c] == CellAfter(QuadrantsStrokes(lat, lon, exts, force, project, quad), old(grid[r, c]), r, c)
    {
      QuadrantWithinThreshold(lat, lon, exts, force, project, quad);
      PaintQuadrant(grid, lat, lon, quad, exts[quad], force, project);
      forall r, c | 0 <= r < ROWS && 0 <= c < COLS
        ensures grid[r, c] == CellAfter(QuadrantsStrokes(lat, lon, exts, force, project, quad + 1), old(grid[r, c]), r, c)
      {
        CellAfterAppend(QuadrantsStrokes(lat, lon, exts, force, project, quad),
                        QuadrantStrokes(lat, lon, quad, exts[quad], force, project), old(grid[r, c]), r, c);
      }
      quad := quad + 1;
    }
  }
}
