/**
 * The multi-storm aggregator `wind_frequency`: every storm of the list is
 * painted on a fresh zero grid, in the default mode (34-kt extents of TS/HU
 * positions, writing 1) or the hurricane-only mode (64-kt extents of HU
 * positions, writing 2), and the storm's grid is added into the
 * cumulative grid.
 */
module Frequency {
  import opened StormTracks
  import opened WindField
  import opened Painting

  function ModeOf(huOnly: bool): Mode {
    if huOnly then HurricaneOnly else Default
  }

  /** Cell (r, c) of one storm's freshly zeroed grid. */
  function StormCell(id: string, table: seq<PositionRow>, huOnly: bool, project: Projector, r: int, c: int): int {
    CellAfter(TrackStrokes(Track(id, table), ModeOf(huOnly), project), 0, r, c)
  }

  /** The sum of `f` over a list, element by element. */
  function Sum<T>(xs: seq<T>, f: T -> int): int
    decreases |xs|
  {
    if |xs| == 0 then 0 else Sum(xs[..|xs| - 1], f) + f(xs[|xs| - 1])
  }

  /** The number of elements of a list on which `f` is not zero. */
  function Marking<T>(xs: seq<T>, f: T -> int): int
    decreases |xs|
  {
    if |xs| == 0 then 0 else Marking(xs[..|xs| - 1], f) + if f(xs[|xs| - 1]) != 0 then 1 else 0
  }

  /** Cell (r, c) of each storm's freshly zeroed grid, as a function of the storm. */
  function CellOf(table: seq<PositionRow>, huOnly: bool, project: Projector, r: int, c: int): string -> int {
    id => StormCell(id, table, huOnly, project, r, c)
  }

  /** Cell (r, c) of the cumulative grid: the sum of the storms' cells, storm by storm. */
  function Cumulative(storms: seq<string>, table: seq<PositionRow>, huOnly: bool, project: Projector, r: int, c: int): int {
    Sum(storms, CellOf(table, huOnly, project, r, c))
  }

  /**
   * The body of the storm loop: paint one storm's positions in track order
   * on a new zero grid, skipping positions with a missing extent and
   * positions whose status the mode does not paint.
   */
  method StormHistory(id: string, table: seq<PositionRow>, huOnly: bool, project: Projector) returns (history: array2<int>)
    requires TrackInGrid(Track(id, table), ModeOf(huOnly), project)
    ensures fresh(history) && IsGrid(history)
    ensures forall r, c :: 0 <= r < ROWS && 0 <= c < COLS ==> history[r, c] == StormCell(id, table, huOnly, project, r, c)
  {
    var lats := TrackLat(id, table);
    var lons := TrackLon(id, table);
    var winds := Winds(id, table);
    TrackColumnsAligned(id, table);

    history := new int[ROWS, COLS]((r, c) => 0);
    PaintTrack(history, lats, lons, winds, huOnly, project, Track(id, table));
  }

  /** The position loop of one storm, over the columns `track_lat`, `track_lon` and `winds` read for it. */
  method PaintTrack(history: array2<int>, lats: seq<real>, lons: seq<real>, winds: WindLists,
                    huOnly: bool, project: Projector, ghost rows: seq<PositionRow>)
    requires IsGrid(history) && ColumnsOf(rows, lats, lons, winds) && TrackInGrid(rows, ModeOf(huOnly), project)
    requires forall r, c :: 0 <= r < ROWS && 0 <= c < COLS ==> history[r, c] == 0
    modifies history
    ensures forall r, c :: 0 <= r < ROWS && 0 <= c < COLS ==>
      history[r, c] == CellAfter(TrackStrokes(rows, ModeOf(huOnly), project), 0, r, c)
  {
    ghost var mode := ModeOf(huOnly);
    var x := 0;
    while x < |lats|
      invariant 0 <= x <= |lats| == |rows|
      invariant forall r, c :: 0 <= r < ROWS && 0 <= c < COLS ==>
        history[r, c] == CellAfter(TrackStrokes(rows[..x], mode, project), 0, r, c)
    {
      var lat := lats[x];
      var lon := lons[x];
      var trext := [winds.tsNE[x], winds.tsSE[x], winds.tsSW[x], winds.tsNW[x]];
      var huext := [winds.huNE[x], winds.huSE[x], winds.huSW[x], winds.huNW[x]];
      assert trext == Ext34(rows[x]) && huext == Ext64(rows[x]);
      TrackInGridAt(rows, x, mode, project);
      PaintTrackPosition(history, lat, lon, winds.status[x], trext, huext, huOnly, project, rows, x);
      x := x + 1;
    }
    assert rows[..|rows|] == rows;
  }

  /** One turn of the storm loop: position `x` is painted over the strokes of the positions before it. */
  method PaintTrackPosition(history: array2<int>, lat: real, lon: real, status: string, trext: seq<int>, huext: seq<int>,
                            huOnly: bool, project: Projector, ghost rows: seq<PositionRow>, ghost x: int)
    requires IsGrid(history) && 0 <= x < |rows| && AllInGrid(PositionStrokes(rows[x], ModeOf(huOnly), project))
    requires rows[x].lat == lat && rows[x].lon == lon && rows[x].status == status
    requires trext == Ext34(rows[x]) && huext == Ext64(rows[x])
    requires forall r, c :: 0 <= r < ROWS && 0 <= c < COLS ==>
      history[r, c] == CellAfter(TrackStrokes(rows[..x], ModeOf(huOnly), project), 0, r, c)
    modifies history
    ensures forall r, c :: 0 <= r < ROWS && 0 <= c < COLS ==>
      history[r, c] == CellAfter(TrackStrokes(rows[..x + 1], ModeOf(huOnly), project), 0, r, c)
  {
    PaintPosition(history, lat, lon, status, trext, huext, huOnly, project, rows[x]);
    forall r, c | 0 <= r < ROWS && 0 <= c < COLS
      ensures history[r, c] == CellAfter(TrackStrokes(rows[..x + 1], ModeOf(huOnly), project), 0, r, c)
    {
      PositionStep(rows, x, ModeOf(huOnly), project, 0, r, c);
    }
  }

  /**
   * One position of the storm loop: a position with a -999 extent is
   * skipped; otherwise, in the hurricane-only mode a ' HU' position paints
   * its 64-kt extents at hurricane force, and in the default mode a ' TS' or
   * ' HU' position paints its 34-kt extents at tropical-storm force.
   */
  method PaintPosition(history: array2<int>, lat: real, lon: real, status: string, trext: seq<int>, huext: seq<int>,
                       huOnly: bool, project: Projector, ghost p: PositionRow)
    requires IsGrid(history) && AllInGrid(PositionStrokes(p, ModeOf(huOnly), project))
    requires p.lat == lat && p.lon == lon && p.status == status && trext == Ext34(p) && huext == Ext64(p)
    modifies history
    ensures forall r, c :: 0 <= r < ROWS && 0 <= c < COLS ==>
      history[r, c] == CellAfter(PositionStrokes(p, ModeOf(huOnly), project), old(history[r, c]), r, c)
  {
    if NO_DATA in trext || NO_DATA in huext {
      return;
    }
    if huOnly {
      if status == HU {
        PaintThreshold(history, lat, lon, huext, Hurricane, project);
      }
    } else {
      if status == TS || status == HU {
        PaintThreshold(history, lat, lon, trext, TropicalStorm, project);
      }
    }
  }

  /** A position that paints nothing leaves every cell as it was. */
  lemma PositionSkipped(rows: seq<PositionRow>, x: int, mode: Mode, project: Projector)
    requires 0 <= x < |rows| && PositionStrokes(rows[x], mode, project) == []
    ensures forall r, c :: CellAfter(TrackStrokes(rows[..x + 1], mode, project), 0, r, c)
                        == CellAfter(TrackStrokes(rows[..x], mode, project), 0, r, c)
  {
    forall r, c {
      PositionStep(rows, x, mode, project, 0, r, c);
    }
  }

  /**
   * `wind_frequency`: the cumulative grid is the cell-wise sum of the storms'
   * freshly zeroed grids.
   */
  method WindFrequency(stormlist: seq<string>, table: seq<PositionRow>, huOnly: bool, project: Projector)
    returns (cumulative: array2<int>)
    requires forall i :: 0 <= i < |stormlist| ==> TrackInGrid(Track(stormlist[i], table), ModeOf(huOnly), project)
    ensures fresh(cumulative) && IsGrid(cumulative)
    ensures forall r, c :: 0 <= r < ROWS && 0 <= c < COLS ==>
      cumulative[r, c] == Cumulative(stormlist, table, huOnly, project, r, c)
  {
    cumulative := new int[ROWS, COLS]((r, c) => 0);
    for i := 0 to |stormlist|
      invariant forall r, c :: 0 <= r < ROWS && 0 <= c < COLS ==>
        cumulative[r, c] == Cumulative(stormlist[..i], table, huOnly, project, r, c)
    {
      var history := StormHistory(stormlist[i], table, huOnly, project);
      forall r, c | 0 <= r < ROWS && 0 <= c < COLS {
        cumulative[r, c] := cumulative[r, c] + history[r, c];
      }
      assert stormlist[..i + 1][..i] == stormlist[..i];
    }
    assert stormlist[..|stormlist|] == stormlist;
  }

  /**
   * A storm's cells are in {0, 1} in the default mode and in {0, 2} in the
   * hurricane-only mode.
   */
  lemma StormCellDomain(id: string, table: seq<PositionRow>, huOnly: bool, project: Projector, r: int, c: int)
    ensures var v := StormCell(id, table, huOnly, project, r, c);
      if huOnly then v == 0 || v == 2 else v == 0 || v == 1
  {
    var strokes := TrackStrokes(Track(id, table), ModeOf(huOnly), project);
    CellAfterSettles(strokes, 0, r, c);
    forall s | s in strokes
      ensures s.force == (if huOnly then Hurricane else TropicalStorm)
    {
      TrackStrokesForce(Track(id, table), ModeOf(huOnly), project, s);
    }
  }

  /**
   * Painting assigns rather than increments: in the default mode a storm's
   * cell is 1 exactly when at least one of its strokes covers it, however
   * many do.
   */
  lemma DefaultCellIsCoverage(id: string, table: seq<PositionRow>, project: Projector, r: int, c: int)
    ensures StormCell(id, table, false, project, r, c) == 1 <==>
      exists s :: s in TrackStrokes(Track(id, table), Default, project) && Covers(s, r, c)
  {
    var strokes := TrackStrokes(Track(id, table), Default, project);
    CellAfterSettles(strokes, 0, r, c);
    forall s | s in strokes
      ensures s.force == TropicalStorm
    {
      TrackStrokesForce(Track(id, table), Default, project, s);
    }
  }

  /**
   * Which extents each mode sweeps: in the default mode a storm's cell is 1
   * iff a bearing of some ' TS'/' HU' position's 34-kt sweep covers it, and
   * 0 otherwise; in hurricane-only mode it is 2 iff a bearing of some ' HU'
   * position's 64-kt sweep covers it, and 0 otherwise. Positions with a
   * missing extent never count.
   */
  lemma FrequencyCellMeaning(id: string, table: seq<PositionRow>, project: Projector, r: int, c: int)
    ensures var rows := Track(id, table);
      StormCell(id, table, false, project, r, c)
        == if exists x :: 0 <= x < |rows| && TropicalSweepCovers(rows[x], project, r, c) then 1 else 0
    ensures var rows := Track(id, table);
      StormCell(id, table, true, project, r, c)
        == if exists x :: 0 <= x < |rows| && HurricaneSweepCovers(rows[x], project, r, c) then 2 else 0
  {
    var rows := Track(id, table);
    CellAfterSettles(TrackStrokes(rows, Default, project), 0, r, c);
    TrackCoverage(rows, Default, project, r, c);
    CellAfterSettles(TrackStrokes(rows, HurricaneOnly, project), 0, r, c);
    TrackCoverage(rows, HurricaneOnly, project, r, c);
  }

  /** In hurricane-only mode a storm none of whose positions is ' HU' contributes zero everywhere. */
  lemma NoHurricaneContributesNothing(id: string, table: seq<PositionRow>, project: Projector, r: int, c: int)
    requires forall x :: 0 <= x < |Track(id, table)| ==> Track(id, table)[x].status != HU
    ensures StormCell(id, table, true, project, r, c) == 0
  {
    var rows := Track(id, table);
    var parts := Batches(rows, Painter(HurricaneOnly, project));
    forall x | 0 <= x < |parts|
      ensures parts[x] == []
    {
      assert parts[x] == PositionStrokes(rows[x], HurricaneOnly, project);
    }
    FlattenEmpty(parts);
  }

  /** Summing two lists one after the other adds their sums. */
  lemma {:induction false} SumAppend<T>(a: seq<T>, b: seq<T>, f: T -> int)
    ensures Sum(a + b, f) == Sum(a, f) + Sum(b, f)
    decreases |b|
  {
    if |b| == 0 {
      assert a + b == a;
    } else {
      assert (a + b)[..|a + b| - 1] == a + b[..|b| - 1];
      SumAppend(a, b[..|b| - 1], f);
    }
  }

  /** A sum does not depend on the order of the list. */
  lemma {:induction false} SumOrderIndependent<T>(a: seq<T>, b: seq<T>, f: T -> int)
    requires multiset(a) == multiset(b)
    ensures Sum(a, f) == Sum(b, f)
    decreases |a|
  {
    if |a| > 0 {
      var last := a[|a| - 1];
      var j := RemoveMatching(a, b);
      SumOrderIndependent(a[..|a| - 1], b[..j] + b[j + 1..], f);
      assert b == (b[..j] + [last]) + b[j + 1..];
      SumAppend(b[..j] + [last], b[j + 1..], f);
      SumAppend(b[..j], [last], f);
      SumAppend(b[..j], b[j + 1..], f);
      assert [last][..0] == [];
    }
  }

  /**
   * The last element of a non-empty list occurs at some index `j` of any
   * permutation of it, and removing it from both leaves permutations.
   */
  lemma RemoveMatching<T>(a: seq<T>, b: seq<T>) returns (j: int)
    requires |a| > 0 && multiset(a) == multiset(b)
    ensures 0 <= j < |b| && b[j] == a[|a| - 1]
    ensures multiset(a[..|a| - 1]) == multiset(b[..j] + b[j + 1..])
  {
    var n := |a|;
    var last := a[n - 1];
    assert a == a[..n - 1] + [last];
    assert last in multiset(b);
    j :| 0 <= j < |b| && b[j] == last;
    assert b == b[..j] + [last] + b[j + 1..];
    var rest := b[..j] + b[j + 1..];
    assert multiset(a[..n - 1]) + multiset{last} == multiset(rest) + multiset{last} by {
      calc {
        multiset(a[..n - 1]) + multiset{last};
        multiset(a);
        multiset(b);
        multiset(b[..j]) + multiset{last} + multiset(b[j + 1..]);
        multiset(rest) + multiset{last};
      }
    }
    forall e
      ensures multiset(a[..n - 1])[e] == multiset(rest)[e]
    {
      assert (multiset(a[..n - 1]) + multiset{last})[e] == (multiset(rest) + multiset{last})[e];
    }
  }

  /** The order of the storm list does not matter: any permutation gives the same cumulative grid. */
  lemma CumulativeOrderIndependent(a: seq<string>, b: seq<string>, table: seq<PositionRow>, huOnly: bool, project: Projector, r: int, c: int)
    requires multiset(a) == multiset(b)
    ensures Cumulative(a, table, huOnly, project, r, c) == Cumulative(b, table, huOnly, project, r, c)
  {
    SumOrderIndependent(a, b, CellOf(table, huOnly, project, r, c));
  }

  /** The number of storms whose own grid marks cell (r, c). */
  function StormsMarking(storms: seq<string>, table: seq<PositionRow>, huOnly: bool, project: Projector, r: int, c: int): int {
    Marking(storms, CellOf(table, huOnly, project, r, c))
  }

  /**
   * Each cumulative cell counts the storms that mark it, once per storm in
   * the default mode and twice per storm in the hurricane-only mode, so it
   * lies between 0 and the number of storms (twice that in the
   * hurricane-only mode).
   */
  lemma {:induction false} CumulativeCountsStorms(storms: seq<string>, table: seq<PositionRow>, huOnly: bool, project: Projector, r: int, c: int)
    ensures var total := Cumulative(storms, table, huOnly, project, r, c);
      var count := StormsMarking(storms, table, huOnly, project, r, c);
      && 0 <= count <= |storms|
      && total == (if huOnly then 2 * count else count)
    decreases |storms|
  {
    if |storms| > 0 {
      CumulativeCountsStorms(storms[..|storms| - 1], table, huOnly, project, r, c);
      StormCellDomain(storms[|storms| - 1], table, huOnly, project, r, c);
    }
  }
}
