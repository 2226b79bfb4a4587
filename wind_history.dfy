/**
 * The grid-painting part of `wind_history`: one storm's positions in
 * track order, each painting its 34-kt extents at tropical-storm force
 * (for ' TS' and ' HU') and then its 64-kt extents at hurricane force (for
 * ' HU'), on one fresh zero grid. The plotting that follows is not modelled.
 */
module WindHistory {
  import opened StormTracks
  import opened WindField
  import opened Painting

  /** Cell (r, c) of the storm's wind history grid. */
  function HistoryCell(id: string, table: seq<PositionRow>, project: Projector, r: int, c: int): int {
    CellAfter(TrackStrokes(Track(id, table), History, project), 0, r, c)
  }

  method WindHistory(id: string, table: seq<PositionRow>, project: Projector) returns (grid: array2<int>)
    requires TrackInGrid(Track(id, table), History, project)
    ensures fresh(grid) && IsGrid(grid)
    ensures forall r, c :: 0 <= r < ROWS && 0 <= c < COLS ==> grid[r, c] == HistoryCell(id, table, project, r, c)
  {
    var lats := TrackLat(id, table);
    var lons := TrackLon(id, table);
    var winds := Winds(id, table);
    TrackColumnsAligned(id, table);

    grid := new int[ROWS, COLS]((r, c) => 0);
    PaintHistoryTrack(grid, lats, lons, winds, project, Track(id, table));
  }

  /** The position loop, over the columns `track_lat`, `track_lon` and `winds` read for the storm. */
  method PaintHistoryTrack(grid: array2<int>, lats: seq<real>, lons: seq<real>, winds: WindLists,
                           project: Projector, ghost rows: seq<PositionRow>)
    requires IsGrid(grid) && ColumnsOf(rows, lats, lons, winds) && TrackInGrid(rows, History, project)
    requires forall r, c :: 0 <= r < ROWS && 0 <= c < COLS ==> grid[r, c] == 0
    modifies grid
    ensures forall r, c :: 0 <= r < ROWS && 0 <= c < COLS ==>
      grid[r, c] == CellAfter(TrackStrokes(rows, History, project), 0, r, c)
  {
    var x := 0;
    while x < |lats|
      invariant 0 <= x <= |lats| == |rows|
      invariant forall r, c :: 0 <= r < ROWS && 0 <= c < COLS ==>
        grid[r, c] == CellAfter(TrackStrokes(rows[..x], History, project), 0, r, c)
    {
      var lat := lats[x];
      var lon := lons[x];
      var trext := [winds.tsNE[x], winds.tsSE[x], winds.tsSW[x], winds.tsNW[x]];
      var huext := [winds.huNE[x], winds.huSE[x], winds.huSW[x], winds.huNW[x]];
      assert trext == Ext34(rows[x]) && huext == Ext64(rows[x]);
      TrackInGridAt(rows, x, History, project);
      PaintHistoryTrackPosition(grid, lat, lon, winds.status[x], trext, huext, project, rows, x);
      x := x + 1;
    }
    assert rows[..|rows|] == rows;
  }

  /** One turn of the history loop: position `x` is painted over the strokes of the positions before it. */
  method PaintHistoryTrackPosition(grid: array2<int>, lat: real, lon: real, status: string, trext: seq<int>, huext: seq<int>,
                                   project: Projector, ghost rows: seq<PositionRow>, ghost x: int)
    requires IsGrid(grid) && 0 <= x < |rows| && AllInGrid(PositionStrokes(rows[x], History, project))
    requires rows[x].lat == lat && rows[x].lon == lon && rows[x].status == status
    requires trext == Ext34(rows[x]) && huext == Ext64(rows[x])
    requires forall r, c :: 0 <= r < ROWS && 0 <= c < COLS ==>
      grid[r, c] == CellAfter(TrackStrokes(rows[..x], History, project), 0, r, c)
    modifies grid
    ensures forall r, c :: 0 <= r < ROWS && 0 <= c < COLS ==>
      grid[r, c] == CellAfter(TrackStrokes(rows[..x + 1], History, project), 0, r, c)
  {
    PaintHistoryPosition(grid, lat, lon, status, trext, huext, project, rows[x]);
    forall r, c | 0 <= r < ROWS && 0 <= c < COLS
      ensures grid[r, c] == CellAfter(TrackStrokes(rows[..x + 1], History, project), 0, r, c)
    {
      PositionStep(rows, x, History, project, 0, r, c);
    }
  }

  /**
   * One position: skipped when an extent is -999; otherwise the 34-kt
   * extents if the status is ' TS' or ' HU', then the 64-kt extents if it is ' HU'.
   */
  method PaintHistoryPosition(grid: array2<int>, lat: real, lon: real, status: string, trext: seq<int>, huext: seq<int>,
                              project: Projector, ghost p: PositionRow)
    requires IsGrid(grid) && AllInGrid(PositionStrokes(p, History, project))
    requires p.lat == lat && p.lon == lon && p.status == status && trext == Ext34(p) && huext == Ext64(p)
    modifies grid
    ensures forall r, c :: 0 <= r < ROWS && 0 <= c < COLS ==>
      grid[r, c] == CellAfter(PositionStrokes(p, History, project), old(grid[r, c]), r, c)
  {
    if NO_DATA in trext || NO_DATA in huext {
      return;
    }
    ghost var low := if AtLeastTropicalStorm(p) then ThresholdStrokes(lat, lon, trext, TropicalStorm, project) else [];
    ghost var high := if status == HU then ThresholdStrokes(lat, lon, huext, Hurricane, project) else [];
    if status == TS || status == HU {
      PaintThreshold(grid, lat, lon, trext, TropicalStorm, project);
    }
    if status == HU {
      PaintThreshold(grid, lat, lon, huext, Hurricane, project);
    }
    assert PositionStrokes(p, History, project) == low + high;
    forall r, c | 0 <= r < ROWS && 0 <= c < COLS
      ensures grid[r, c] == CellAfter(low + high, old(grid[r, c]), r, c)
    {
      CellAfterAppend(low, high, old(grid[r, c]), r, c);
    }
  }

  /**
   * A cell of the wind history is 2 exactly when a bearing of some ' HU'
   * position's 64-kt sweep covered it; 1 exactly when none did but a bearing
   * of some ' TS'/' HU' position's 34-kt sweep did; 0 otherwise. Positions
   * with a missing extent never count.
   */
  lemma HistoryCellMeaning(id: string, table: seq<PositionRow>, project: Projector, r: int, c: int)
    ensures var rows := Track(id, table); var v := HistoryCell(id, table, project, r, c);
      && (v == 2 <==> exists x :: 0 <= x < |rows| && HurricaneSweepCovers(rows[x], project, r, c))
      && (v == 1 <==> (forall x :: 0 <= x < |rows| ==> !HurricaneSweepCovers(rows[x], project, r, c))
                      && exists x :: 0 <= x < |rows| && TropicalSweepCovers(rows[x], project, r, c))
      && (v == 0 || v == 1 || v == 2)
  {
    var rows := Track(id, table);
    CellAfterSettles(TrackStrokes(rows, History, project), 0, r, c);
    TrackCoverage(rows, History, project, r, c);
  }

  /** Once a cell is 2 after the first `x` positions, it is still 2 at the end of the storm. */
  lemma HistoryTwoIsSticky(rows: seq<PositionRow>, x: int, project: Projector, r: int, c: int)
    requires 0 <= x <= |rows|
    requires CellAfter(TrackStrokes(rows[..x], History, project), 0, r, c) == 2
    ensures CellAfter(TrackStrokes(rows, History, project), 0, r, c) == 2
  {
    assert rows == rows[..x] + rows[x..];
    TrackStrokesAppend(rows[..x], rows[x..], History, project);
    HurricaneSticky(TrackStrokes(rows[..x], History, project), TrackStrokes(rows[x..], History, project), 0, r, c);
  }
}
