/**
 * The specification shared by the single-storm rasterizer and the
 * frequency aggregator.
 *
 * Every bearing of every quadrant sweep of a painted position produces one
 * `Stroke`: a run of rows `[lo, hi)` in one column of the 180 x 360 grid,
 * painted at tropical-storm force (write 1 unless the cell is 2) or at
 * hurricane force (write 2). A storm's grid is the per-cell fold of its
 * strokes in painting order (`CellAfter`), and `Settled` gives the same
 * value in closed form.
 *
 * Row `r` stands for latitudes `[r - 90, r - 89)` and column `c` for
 * longitudes `[c - 180, c - 179)`.
 */
module WindField {
  import opened StormTracks

  /** Earth radius in nautical miles used to turn an extent into an angular distance. */
  const RADIUS: real := 3440.1
  /** Marker for an unreported wind extent. */
  const NO_DATA: int := -999
  const ROWS: int := 180
  const COLS: int := 360
  /** Bearings per quadrant sweep. */
  const SWEEP: int := 31
  const TS: string := " TS"
  const HU: string := " HU"

  datatype GeoPoint = GeoPoint(lat: real, lon: real)

  /**
   * The forward spherical projection: from a centre (degrees), a bearing
   * (degrees) and an angular distance (extent / RADIUS) to a destination in
   * degrees, whose longitude is `lon` plus the `atan2` offset, before the
   * +-360 correction.
   */
  type Projector = (real, real, real, real) -> GeoPoint

  function Floor(x: real): (n: int)
    ensures n as real <= x < n as real + 1.0
  {
    x.Floor
  }

  function Ceil(x: real): (n: int)
    ensures x <= n as real < x + 1.0
  {
    -((-x).Floor)
  }

  /** The single +-360 correction applied to the destination longitude. */
  function WrapLon(d: real): (w: real)
    ensures -540.0 <= d <= 540.0 ==> -180.0 <= w <= 180.0
    ensures -180.0 <= d <= 180.0 ==> w == d
    ensures w == d - 360.0 || w == d || w == d + 360.0
  {
    if d < -180.0 then d + 360.0 else if d > 180.0 then d - 360.0 else d
  }

  /** `np.linspace(90 * quad, 90 * quad + 90, 31)`: both ends included, three degrees apart. */
  function Bearings(quad: int): (b: seq<int>)
    ensures |b| == SWEEP
    ensures b[0] == 90 * quad && b[SWEEP - 1] == 90 * quad + 90
    ensures forall k :: 0 <= k < SWEEP - 1 ==> b[k + 1] - b[k] == 3
  {
    seq(SWEEP, k => 90 * quad + 3 * k)
  }

  datatype Force = TropicalStorm | Hurricane

  /** Paint rows `[lo, hi)` of column `col` at the given force. */
  datatype Stroke = Stroke(col: int, lo: int, hi: int, force: Force)

  predicate Covers(s: Stroke, r: int, c: int) {
    c == s.col && s.lo <= r < s.hi
  }

  /** A stroke that writes anything writes only inside the grid. */
  predicate InGrid(s: Stroke) {
    s.lo < s.hi ==> 0 <= s.lo && s.hi <= ROWS && 0 <= s.col < COLS
  }

  /**
   * Every stroke of a batch writes inside the grid: the source indexes the
   * grid with each painted row and column, and an index past the end (a
   * corrected longitude of exactly 180 gives column 360) raises an error.
   */
  predicate AllInGrid(strokes: seq<Stroke>) {
    forall s :: s in strokes ==> InGrid(s)
  }

  /** One write: hurricane force sets 2, tropical-storm force sets 1 unless the cell is 2. */
  function Apply(s: Stroke, v: int, r: int, c: int): (w: int)
    ensures !Covers(s, r, c) ==> w == v
    ensures v == 2 ==> w == 2
    ensures Covers(s, r, c) ==> w == 1 || w == 2
  {
    if !Covers(s, r, c) then v
    else if s.force == Hurricane then 2
    else if v != 2 then 1
    else v
  }

  /** The value of cell (r, c), starting from `v`, after the strokes are painted in order. */
  function CellAfter(strokes: seq<Stroke>, v: int, r: int, c: int): int
    decreases |strokes|
  {
    if |strokes| == 0 then v
    else Apply(strokes[|strokes| - 1], CellAfter(strokes[..|strokes| - 1], v, r, c), r, c)
  }

  ghost predicate HurricaneCovers(strokes: seq<Stroke>, r: int, c: int) {
    exists s :: s in strokes && s.force == Hurricane && Covers(s, r, c)
  }

  ghost predicate TropicalCovers(strokes: seq<Stroke>, r: int, c: int) {
    exists s :: s in strokes && s.force == TropicalStorm && Covers(s, r, c)
  }

  /** The painted value in closed form: independent of the order of the strokes. */
  ghost function Settled(strokes: seq<Stroke>, v: int, r: int, c: int): int {
    if HurricaneCovers(strokes, r, c) then 2
    else if TropicalCovers(strokes, r, c) then (if v == 2 then 2 else 1)
    else v
  }

  /** Painting two batches in turn is painting their concatenation. */
  lemma {:induction false} CellAfterAppend(a: seq<Stroke>, b: seq<Stroke>, v: int, r: int, c: int)
    ensures CellAfter(a + b, v, r, c) == CellAfter(b, CellAfter(a, v, r, c), r, c)
    decreases |b|
  {
    if |b| > 0 {
      assert (a + b)[..|a + b| - 1] == a + b[..|b| - 1];
      CellAfterAppend(a, b[..|b| - 1], v, r, c);
    } else {
      assert a + b == a;
    }
  }

  /** Painting one more stroke of a list extends the fold over the strokes before it. */
  lemma CellAfterPrefixStep(strokes: seq<Stroke>, k: int, v: int, r: int, c: int)
    requires 0 <= k < |strokes|
    ensures CellAfter(strokes[..k + 1], v, r, c) == Apply(strokes[k], CellAfter(strokes[..k], v, r, c), r, c)
  {
    assert strokes[..k + 1][..k] == strokes[..k];
  }

  /**
   * The fold equals the closed form: a cell ends at 2 iff it started at 2
   * or some hurricane stroke covered it, at 1 iff otherwise some
   * tropical-storm stroke covered it, and keeps its value if none did.
   */
  lemma {:induction false} CellAfterSettles(strokes: seq<Stroke>, v: int, r: int, c: int)
    ensures CellAfter(strokes, v, r, c) == Settled(strokes, v, r, c)
    decreases |strokes|
  {
    if |strokes| > 0 {
      var n := |strokes|;
      var front, last := strokes[..n - 1], strokes[n - 1];
      assert strokes == front + [last];
      CellAfterSettles(front, v, r, c);
      assert HurricaneCovers(strokes, r, c) <==>
        HurricaneCovers(front, r, c) || (last.force == Hurricane && Covers(last, r, c));
      assert TropicalCovers(strokes, r, c) <==>
        TropicalCovers(front, r, c) || (last.force == TropicalStorm && Covers(last, r, c));
    }
  }

  /** Starting from a grid value in {0, 1, 2}, every cell stays in {0, 1, 2}. */
  lemma CellStaysInDomain(strokes: seq<Stroke>, v: int, r: int, c: int)
    requires v == 0 || v == 1 || v == 2
    ensures var w := CellAfter(strokes, v, r, c); w == 0 || w == 1 || w == 2
  {
    CellAfterSettles(strokes, v, r, c);
  }

  /** Once a cell is 2, no later stroke of the same pass lowers it. */
  lemma HurricaneSticky(done: seq<Stroke>, later: seq<Stroke>, v: int, r: int, c: int)
    requires CellAfter(done, v, r, c) == 2
    ensures CellAfter(done + later, v, r, c) == 2
  {
    CellAfterAppend(done, later, v, r, c);
    CellAfterSettles(later, 2, r, c);
  }

  /** Painting assigns: painting the same strokes again changes nothing. */
  lemma RepaintChangesNothing(strokes: seq<Stroke>, v: int, r: int, c: int)
    ensures CellAfter(strokes + strokes, v, r, c) == CellAfter(strokes, v, r, c)
  {
    CellAfterAppend(strokes, strokes, v, r, c);
    CellAfterSettles(strokes, v, r, c);
    CellAfterSettles(strokes, CellAfter(strokes, v, r, c), r, c);
  }

  /**
   * The stroke of bearing `k` of quadrant `quad` at extent `ext`:
   * quadrants 0 (NE) and 3 (NW) paint rows from the centre's floor up to the
   * destination's ceiling, quadrants 1 (SE) and 2 (SW) from the destination's
   * floor up to the centre's ceiling, always in the destination's column.
   */
  function SweepStroke(lat: real, lon: real, quad: int, k: int, ext: int, force: Force, project: Projector): (s: Stroke)
    requires 0 <= quad < 4 && 0 <= k < SWEEP
    ensures s.force == force
    ensures var dest := project(lat, lon, Bearings(quad)[k] as real, ext as real / RADIUS);
      && (s.col - 180) as real <= WrapLon(dest.lon) < (s.col - 179) as real
      && (quad == 0 || quad == 3 ==>
            (s.lo - 90) as real <= lat < (s.lo - 89) as real && (s.hi - 91) as real < dest.lat <= (s.hi - 90) as real)
      && (quad == 1 || quad == 2 ==>
            (s.lo - 90) as real <= dest.lat < (s.lo - 89) as real && (s.hi - 91) as real < lat <= (s.hi - 90) as real)
  {
    var dest := project(lat, lon, Bearings(quad)[k] as real, ext as real / RADIUS);
    var dlon := WrapLon(dest.lon);
    var col := 180 + Floor(dlon);
    if quad == 0 || quad == 3 then Stroke(col, 90 + Floor(lat), 90 + Ceil(dest.lat), force)
    else Stroke(col, 90 + Floor(dest.lat), 90 + Ceil(lat), force)
  }

  /**
   * What a sweep stroke covers, in degrees: the cell whose longitude band
   * holds the corrected destination longitude, and every latitude band
   * overlapping the open interval between the centre's and the destination's
   * latitude, the bands holding those two included (northward for quadrants
   * 0 and 3, southward for quadrants 1 and 2).
   */
  lemma SweepStrokeCovers(lat: real, lon: real, quad: int, k: int, ext: int, force: Force, project: Projector, r: int, c: int)
    requires 0 <= quad < 4 && 0 <= k < SWEEP
    ensures var dest := project(lat, lon, Bearings(quad)[k] as real, ext as real / RADIUS);
      Covers(SweepStroke(lat, lon, quad, k, ext, force, project), r, c) <==>
        && (c - 180) as real <= WrapLon(dest.lon) < (c - 179) as real
        && (quad == 0 || quad == 3 ==> lat < (r - 89) as real && ((r - 90) as real) < dest.lat)
        && (quad == 1 || quad == 2 ==> dest.lat < (r - 89) as real && ((r - 90) as real) < lat)
  {
  }

  /**
   * A sweep stroke writes only inside the grid when the centre's latitude
   * and this bearing's destination latitude lie in [-90, 90] and the
   * destination's corrected longitude lies in [-180, 180).
   */
  lemma SweepStrokeInGrid(lat: real, lon: real, quad: int, k: int, ext: int, force: Force, project: Projector)
    requires 0 <= quad < 4 && 0 <= k < SWEEP && -90.0 <= lat <= 90.0
    requires var dest := project(lat, lon, Bearings(quad)[k] as real, ext as real / RADIUS);
      -90.0 <= dest.lat <= 90.0 && -180.0 <= WrapLon(dest.lon) < 180.0
    ensures InGrid(SweepStroke(lat, lon, quad, k, ext, force, project))
  {
  }

  /** The 31 strokes of one quadrant sweep, in bearing order. */
  function QuadrantStrokes(lat: real, lon: real, quad: int, ext: int, force: Force, project: Projector): (ss: seq<Stroke>)
    requires 0 <= quad < 4
    ensures |ss| == SWEEP
    ensures forall s :: s in ss ==> s.force == force
  {
    seq(SWEEP, k requires 0 <= k < SWEEP => SweepStroke(lat, lon, quad, k, ext, force, project))
  }

  /** The strokes of quadrants `0 .. n - 1`, quadrant `q` swept at extent `exts[q]`. */
  function QuadrantsStrokes(lat: real, lon: real, exts: seq<int>, force: Force, project: Projector, n: int): (ss: seq<Stroke>)
    requires 0 <= n <= 4 <= |exts|
    ensures |ss| == SWEEP * n
    ensures forall s :: s in ss ==> s.force == force
    decreases n
  {
    if n == 0 then []
    else QuadrantsStrokes(lat, lon, exts, force, project, n - 1) + QuadrantStrokes(lat, lon, n - 1, exts[n - 1], force, project)
  }

  /** All strokes of one threshold at one position: four quadrants of 31 bearings. */
  function ThresholdStrokes(lat: real, lon: real, exts: seq<int>, force: Force, project: Projector): seq<Stroke>
    requires |exts| == 4
  {
    QuadrantsStrokes(lat, lon, exts, force, project, 4)
  }

  /** A quadrant's strokes are exactly the sweep strokes of its 31 bearings. */
  lemma QuadrantStrokesMembers(lat: real, lon: real, quad: int, ext: int, force: Force, project: Projector, s: Stroke)
    requires 0 <= quad < 4
    ensures s in QuadrantStrokes(lat, lon, quad, ext, force, project) <==>
      exists k :: 0 <= k < SWEEP && s == SweepStroke(lat, lon, quad, k, ext, force, project)
  {
    var ss := QuadrantStrokes(lat, lon, quad, ext, force, project);
    if k :| 0 <= k < SWEEP && s == SweepStroke(lat, lon, quad, k, ext, force, project) {
      assert ss[k] == s;
    }
  }

  /** A threshold's strokes are exactly the sweep strokes of its four quadrants and 31 bearings. */
  lemma {:induction false} QuadrantsStrokesMembers(lat: real, lon: real, exts: seq<int>, force: Force, project: Projector, n: int, s: Stroke)
    requires 0 <= n <= 4 <= |exts|
    ensures s in QuadrantsStrokes(lat, lon, exts, force, project, n) <==>
      exists q, k :: 0 <= q < n && 0 <= k < SWEEP && s == SweepStroke(lat, lon, q, k, exts[q], force, project)
    decreases n
  {
    if n > 0 {
      QuadrantsStrokesMembers(lat, lon, exts, force, project, n - 1, s);
      var quad := n - 1;
      QuadrantStrokesMembers(lat, lon, quad, exts[quad], force, project, s);
      if k :| 0 <= k < SWEEP && s == SweepStroke(lat, lon, quad, k, exts[quad], force, project) {
        assert 0 <= quad < n;
      }
      if q, k :| 0 <= q < n && 0 <= k < SWEEP && s == SweepStroke(lat, lon, q, k, exts[q], force, project) {
        if q < n - 1 {
          assert 0 <= q < n - 1;
        }
      }
    }
  }

  /** The three ways the source paints: the single-storm history, and the aggregator with `hu_only` false (`Default`) or true (`HurricaneOnly`). */
  datatype Mode = History | Default | HurricaneOnly

  function Ext34(p: PositionRow): seq<int> {
    [p.extNE34, p.extSE34, p.extSW34, p.extNW34]
  }

  function Ext64(p: PositionRow): seq<int> {
    [p.extNE64, p.extSE64, p.extSW64, p.extNW64]
  }

  /** A position is skipped when any of its eight extents is unreported. */
  predicate MissingExtent(p: PositionRow): (b: bool)
    ensures b <==>
      || p.extNE34 == NO_DATA || p.extSE34 == NO_DATA || p.extSW34 == NO_DATA || p.extNW34 == NO_DATA
      || p.extNE64 == NO_DATA || p.extSE64 == NO_DATA || p.extSW64 == NO_DATA || p.extNW64 == NO_DATA
  {
    NO_DATA in Ext34(p) || NO_DATA in Ext64(p)
  }

  predicate AtLeastTropicalStorm(p: PositionRow) {
    p.status == TS || p.status == HU
  }

  /**
   * The strokes one position paints. Nothing for a position with a missing
   * extent. History paints the 34-kt extents at tropical-storm force for
   * TS/HU positions and then the 64-kt extents at hurricane force for HU
   * positions; Default paints only the former, HurricaneOnly only the latter.
   */
  function PositionStrokes(p: PositionRow, mode: Mode, project: Projector): (ss: seq<Stroke>)
    ensures MissingExtent(p) ==> ss == []
    ensures !AtLeastTropicalStorm(p) ==> ss == []
    ensures mode == HurricaneOnly && p.status != HU ==> ss == []
    ensures mode == Default ==> forall s :: s in ss ==> s.force == TropicalStorm
    ensures mode == HurricaneOnly ==> forall s :: s in ss ==> s.force == Hurricane
    ensures mode == History && p.status != HU ==> forall s :: s in ss ==> s.force == TropicalStorm
  {
    if MissingExtent(p) then []
    else match mode
      case History =>
        (if AtLeastTropicalStorm(p) then ThresholdStrokes(p.lat, p.lon, Ext34(p), TropicalStorm, project) else [])
        + (if p.status == HU then ThresholdStrokes(p.lat, p.lon, Ext64(p), Hurricane, project) else [])
      case Default =>
        if AtLeastTropicalStorm(p) then ThresholdStrokes(p.lat, p.lon, Ext34(p), TropicalStorm, project) else []
      case HurricaneOnly =>
        if p.status == HU then ThresholdStrokes(p.lat, p.lon, Ext64(p), Hurricane, project) else []
  }

  /** The concatenation of a list of stroke batches, in order. */
  function Flatten(parts: seq<seq<Stroke>>): seq<Stroke>
    decreases |parts|
  {
    if |parts| == 0 then [] else Flatten(parts[..|parts| - 1]) + parts[|parts| - 1]
  }

  lemma {:induction false} FlattenAppend(a: seq<seq<Stroke>>, b: seq<seq<Stroke>>)
    ensures Flatten(a + b) == Flatten(a) + Flatten(b)
    decreases |b|
  {
    if |b| == 0 {
      assert a + b == a;
    } else {
      var front := b[..|b| - 1];
      assert (a + b)[..|a + b| - 1] == a + front;
      assert (a + b)[|a + b| - 1] == b[|b| - 1];
      FlattenAppend(a, front);
      assert Flatten(a + b) == Flatten(a + front) + b[|b| - 1];
      assert Flatten(b) == Flatten(front) + b[|b| - 1];
    }
  }

  lemma {:induction false} FlattenMembers(parts: seq<seq<Stroke>>, s: Stroke)
    ensures s in Flatten(parts) <==> exists x :: 0 <= x < |parts| && s in parts[x]
    decreases |parts|
  {
    if |parts| > 0 {
      var front := parts[..|parts| - 1];
      FlattenMembers(front, s);
      assert forall x :: 0 <= x < |front| ==> front[x] == parts[x];
    }
  }

  lemma {:induction false} FlattenEmpty(parts: seq<seq<Stroke>>)
    requires forall x :: 0 <= x < |parts| ==> parts[x] == []
    ensures Flatten(parts) == []
    decreases |parts|
  {
    if |parts| > 0 {
      FlattenEmpty(parts[..|parts| - 1]);
    }
  }

  /** The stroke batches that `paint` gives the positions of a track, in track order. */
  function Batches(rows: seq<PositionRow>, paint: PositionRow -> seq<Stroke>): (parts: seq<seq<Stroke>>)
    ensures |parts| == |rows|
  {
    seq(|rows|, x requires 0 <= x < |rows| => paint(rows[x]))
  }

  lemma BatchesAppend(a: seq<PositionRow>, b: seq<PositionRow>, paint: PositionRow -> seq<Stroke>)
    ensures Batches(a + b, paint) == Batches(a, paint) + Batches(b, paint)
  {
  }

  function Painter(mode: Mode, project: Projector): PositionRow -> seq<Stroke> {
    p => PositionStrokes(p, mode, project)
  }

  /** The strokes of a whole track, position by position in track order. */
  function TrackStrokes(rows: seq<PositionRow>, mode: Mode, project: Projector): seq<Stroke> {
    Flatten(Batches(rows, Painter(mode, project)))
  }

  /** The strokes of a track are exactly the strokes of its positions. */
  lemma TrackStrokesMembers(rows: seq<PositionRow>, mode: Mode, project: Projector, s: Stroke)
    ensures s in TrackStrokes(rows, mode, project) <==>
      exists x :: 0 <= x < |rows| && s in PositionStrokes(rows[x], mode, project)
  {
    var parts := Batches(rows, Painter(mode, project));
    FlattenMembers(parts, s);
    forall x | 0 <= x < |rows|
      ensures parts[x] == PositionStrokes(rows[x], mode, project)
    {
    }
  }

  /** Default mode paints only at tropical-storm force, hurricane-only mode only at hurricane force. */
  lemma TrackStrokesForce(rows: seq<PositionRow>, mode: Mode, project: Projector, s: Stroke)
    requires s in TrackStrokes(rows, mode, project)
    ensures mode == Default ==> s.force == TropicalStorm
    ensures mode == HurricaneOnly ==> s.force == Hurricane
  {
    TrackStrokesMembers(rows, mode, project, s);
  }

  /** Painting a track in two parts is painting the parts one after the other. */
  lemma TrackStrokesAppend(a: seq<PositionRow>, b: seq<PositionRow>, mode: Mode, project: Projector)
    ensures TrackStrokes(a + b, mode, project) == TrackStrokes(a, mode, project) + TrackStrokes(b, mode, project)
  {
    BatchesAppend(a, b, Painter(mode, project));
    FlattenAppend(Batches(a, Painter(mode, project)), Batches(b, Painter(mode, project)));
  }

  /**
   * A position that paints nothing (a missing extent, or a status the mode
   * does not paint) can be removed from the track without changing any cell.
   */
  lemma InertPositionIgnored(rows: seq<PositionRow>, x: int, mode: Mode, project: Projector)
    requires 0 <= x < |rows| && PositionStrokes(rows[x], mode, project) == []
    ensures TrackStrokes(rows, mode, project) == TrackStrokes(rows[..x] + rows[x + 1..], mode, project)
  {
    var paint := Painter(mode, project);
    assert paint(rows[x]) == [];
    EmptyBatchIgnored(rows, x, paint);
  }

  lemma EmptyBatchIgnored(rows: seq<PositionRow>, x: int, paint: PositionRow -> seq<Stroke>)
    requires 0 <= x < |rows| && paint(rows[x]) == []
    ensures Flatten(Batches(rows, paint)) == Flatten(Batches(rows[..x] + rows[x + 1..], paint))
  {
    BatchesSplit(rows, x, paint);
    BatchesAppend(rows[..x], rows[x + 1..], paint);
    EmptyPartIgnored(Batches(rows[..x], paint), Batches(rows[x + 1..], paint));
  }

  lemma BatchesSplit(rows: seq<PositionRow>, x: int, paint: PositionRow -> seq<Stroke>)
    requires 0 <= x < |rows|
    ensures Batches(rows, paint) == Batches(rows[..x], paint) + [paint(rows[x])] + Batches(rows[x + 1..], paint)
  {
    assert rows == rows[..x] + [rows[x]] + rows[x + 1..];
    BatchesAppend(rows[..x] + [rows[x]], rows[x + 1..], paint);
    BatchesAppend(rows[..x], [rows[x]], paint);
  }

  lemma EmptyPartIgnored(pre: seq<seq<Stroke>>, post: seq<seq<Stroke>>)
    ensures Flatten(pre + [[]] + post) == Flatten(pre + post)
  {
    FlattenAppend(pre + [[]], post);
    assert (pre + [[]])[..|pre|] == pre;
    FlattenAppend(pre, post);
  }

  /** Painting position `x` of a track extends the fold over its first `x` positions. */
  lemma PositionStep(rows: seq<PositionRow>, x: int, mode: Mode, project: Projector, v: int, r: int, c: int)
    requires 0 <= x < |rows|
    ensures CellAfter(TrackStrokes(rows[..x + 1], mode, project), v, r, c)
         == CellAfter(PositionStrokes(rows[x], mode, project), CellAfter(TrackStrokes(rows[..x], mode, project), v, r, c), r, c)
  {
    var parts := Batches(rows[..x + 1], Painter(mode, project));
    assert parts[..x] == Batches(rows[..x], Painter(mode, project));
    assert TrackStrokes(rows[..x + 1], mode, project) == TrackStrokes(rows[..x], mode, project) + PositionStrokes(rows[x], mode, project);
    CellAfterAppend(TrackStrokes(rows[..x], mode, project), PositionStrokes(rows[x], mode, project), v, r, c);
  }

  /** Some bearing of the position's 64-kt sweep, at hurricane force, covers cell (r, c). */
  ghost predicate HurricaneSweepCovers(p: PositionRow, project: Projector, r: int, c: int) {
    && !MissingExtent(p) && p.status == HU
    && exists q, k :: 0 <= q < 4 && 0 <= k < SWEEP
         && Covers(SweepStroke(p.lat, p.lon, q, k, Ext64(p)[q], Hurricane, project), r, c)
  }

  /** Some bearing of the position's 34-kt sweep, at tropical-storm force, covers cell (r, c). */
  ghost predicate TropicalSweepCovers(p: PositionRow, project: Projector, r: int, c: int) {
    && !MissingExtent(p) && AtLeastTropicalStorm(p)
    && exists q, k :: 0 <= q < 4 && 0 <= k < SWEEP
         && Covers(SweepStroke(p.lat, p.lon, q, k, Ext34(p)[q], TropicalStorm, project), r, c)
  }

  /**
   * In a batch made of another force's strokes and one threshold's strokes,
   * the strokes at the threshold's force cover a cell iff one of its sweep
   * strokes does.
   */
  lemma ForceCoverage(other: seq<Stroke>, part: seq<Stroke>, lat: real, lon: real, exts: seq<int>, force: Force, otherForce: Force,
                      project: Projector, r: int, c: int)
    requires |exts| == 4 && force != otherForce
    requires forall s :: s in other ==> s.force == otherForce
    requires part == ThresholdStrokes(lat, lon, exts, force, project)
    ensures (exists s :: s in other + part && s.force == force && Covers(s, r, c)) <==>
      exists q, k :: 0 <= q < 4 && 0 <= k < SWEEP && Covers(SweepStroke(lat, lon, q, k, exts[q], force, project), r, c)
  {
    if s :| s in other + part && s.force == force && Covers(s, r, c) {
      assert s in part;
      QuadrantsStrokesMembers(lat, lon, exts, force, project, 4, s);
      var q, k :| 0 <= q < 4 && 0 <= k < SWEEP && s == SweepStroke(lat, lon, q, k, exts[q], force, project);
    }
    if q, k :| 0 <= q < 4 && 0 <= k < SWEEP && Covers(SweepStroke(lat, lon, q, k, exts[q], force, project), r, c) {
      var s := SweepStroke(lat, lon, q, k, exts[q], force, project);
      QuadrantsStrokesMembers(lat, lon, exts, force, project, 4, s);
      assert s in other + part && s.force == force;
    }
  }

  /**
   * Which sweep each mode paints: a position's hurricane-force strokes cover
   * a cell iff the mode paints 64-kt extents (history and hurricane-only) and
   * a bearing of the position's 64-kt sweep does; its tropical-storm-force
   * strokes iff the mode paints 34-kt extents (history and default) and a
   * bearing of its 34-kt sweep does.
   */
  lemma PositionCoverage(p: PositionRow, mode: Mode, project: Projector, r: int, c: int)
    ensures HurricaneCovers(PositionStrokes(p, mode, project), r, c) <==>
      mode != Default && HurricaneSweepCovers(p, project, r, c)
    ensures TropicalCovers(PositionStrokes(p, mode, project), r, c) <==>
      mode != HurricaneOnly && TropicalSweepCovers(p, project, r, c)
  {
    if !MissingExtent(p) {
      var low := if mode != HurricaneOnly && AtLeastTropicalStorm(p) then ThresholdStrokes(p.lat, p.lon, Ext34(p), TropicalStorm, project) else [];
      var high := if mode != Default && p.status == HU then ThresholdStrokes(p.lat, p.lon, Ext64(p), Hurricane, project) else [];
      assert PositionStrokes(p, mode, project) == low + high;
      if mode != Default && p.status == HU {
        ForceCoverage(low, high, p.lat, p.lon, Ext64(p), Hurricane, TropicalStorm, project, r, c);
      }
      if mode != HurricaneOnly && AtLeastTropicalStorm(p) {
        ForceCoverage(high, low, p.lat, p.lon, Ext34(p), TropicalStorm, Hurricane, project, r, c);
      }
    }
  }

  /** A track's strokes cover a cell at a force iff some position's sweep that the mode paints at that force does. */
  lemma TrackCoverage(rows: seq<PositionRow>, mode: Mode, project: Projector, r: int, c: int)
    ensures HurricaneCovers(TrackStrokes(rows, mode, project), r, c) <==>
      mode != Default && exists x :: 0 <= x < |rows| && HurricaneSweepCovers(rows[x], project, r, c)
    ensures TropicalCovers(TrackStrokes(rows, mode, project), r, c) <==>
      mode != HurricaneOnly && exists x :: 0 <= x < |rows| && TropicalSweepCovers(rows[x], project, r, c)
  {
    var ss := TrackStrokes(rows, mode, project);
    forall s
      ensures s in ss <==> exists x :: 0 <= x < |rows| && s in PositionStrokes(rows[x], mode, project)
    {
      TrackStrokesMembers(rows, mode, project, s);
    }
    forall x | 0 <= x < |rows|
      ensures HurricaneCovers(PositionStrokes(rows[x], mode, project), r, c) <==>
        mode != Default && HurricaneSweepCovers(rows[x], project, r, c)
      ensures TropicalCovers(PositionStrokes(rows[x], mode, project), r, c) <==>
        mode != HurricaneOnly && TropicalSweepCovers(rows[x], project, r, c)
    {
      PositionCoverage(rows[x], mode, project, r, c);
    }
  }

  /** Every stroke of one quadrant is a stroke of the whole threshold. */
  lemma QuadrantWithinThreshold(lat: real, lon: real, exts: seq<int>, force: Force, project: Projector, quad: int)
    requires |exts| == 4 && 0 <= quad < 4
    ensures forall s :: s in QuadrantStrokes(lat, lon, quad, exts[quad], force, project) ==>
      s in ThresholdStrokes(lat, lon, exts, force, project)
  {
    forall s | s in QuadrantStrokes(lat, lon, quad, exts[quad], force, project)
      ensures s in ThresholdStrokes(lat, lon, exts, force, project)
    {
      QuadrantStrokesMembers(lat, lon, quad, exts[quad], force, project, s);
      QuadrantsStrokesMembers(lat, lon, exts, force, project, 4, s);
    }
  }

  /** Every stroke of position `x` is a stroke of the whole track. */
  lemma PositionWithinTrack(rows: seq<PositionRow>, x: int, mode: Mode, project: Projector)
    requires 0 <= x < |rows|
    ensures forall s :: s in PositionStrokes(rows[x], mode, project) ==> s in TrackStrokes(rows, mode, project)
  {
    forall s | s in PositionStrokes(rows[x], mode, project)
      ensures s in TrackStrokes(rows, mode, project)
    {
      TrackStrokesMembers(rows, mode, project, s);
    }
  }

  /** Every position of a track writes only inside the grid. */
  predicate TrackInGrid(rows: seq<PositionRow>, mode: Mode, project: Projector) {
    forall x :: 0 <= x < |rows| ==> AllInGrid(PositionStrokes(rows[x], mode, project))
  }

  /** Position `x` of a track that writes only inside the grid does so too. */
  lemma TrackInGridAt(rows: seq<PositionRow>, x: int, mode: Mode, project: Projector)
    requires TrackInGrid(rows, mode, project) && 0 <= x < |rows|
    ensures AllInGrid(PositionStrokes(rows[x], mode, project))
  {
  }

  /** A track writes only inside the grid iff each of its positions does. */
  lemma TrackInGridMeans(rows: seq<PositionRow>, mode: Mode, project: Projector)
    ensures TrackInGrid(rows, mode, project) <==> AllInGrid(TrackStrokes(rows, mode, project))
  {
    forall x | 0 <= x < |rows| {
      PositionWithinTrack(rows, x, mode, project);
    }
    forall s | s in TrackStrokes(rows, mode, project)
      ensures exists x :: 0 <= x < |rows| && s in PositionStrokes(rows[x], mode, project)
    {
      TrackStrokesMembers(rows, mode, project, s);
    }
  }
}
