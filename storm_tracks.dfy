/**
 * Table lookups over the cleaned position and storm tables: the masked
 * column filters that extract one storm's track and wind extents, and the
 * unique-match lookup of a storm's identifier from its name and season.
 * The tables are explicit parameters instead of module-level CSV loads.
 */
module StormTracks {
  import opened Text
  import opened Wrappers

  /** One row of the positions table (the columns the rasterizer reads). */
  datatype PositionRow = PositionRow(
    stormID: string,
    status: string,
    lat: real,
    lon: real,
    extNE34: int, extSE34: int, extSW34: int, extNW34: int,
    extNE64: int, extSE64: int, extSW64: int, extNW64: int)

  /** One row of the storms table. */
  datatype StormRow = StormRow(stormID: string, name: string, year: int)

  /**
   * The index positions of a boolean mask: the indices of `t` whose
   * element satisfies `keep`, each exactly once, in table order.
   */
  function MaskIndices<T>(t: seq<T>, keep: T -> bool): (idx: seq<int>)
    ensures forall i :: 0 <= i < |idx| ==> 0 <= idx[i] < |t| && keep(t[idx[i]])
    ensures forall i, j :: 0 <= i < j < |idx| ==> idx[i] < idx[j]
    ensures forall j :: 0 <= j < |t| && keep(t[j]) ==> j in idx
    decreases |t|
  {
    if |t| == 0 then []
    else
      var front := MaskIndices(t[..|t| - 1], keep);
      front + if keep(t[|t| - 1]) then [|t| - 1] else []
  }

  /** Every index of a list moved by `d`. */
  function Shifted(idx: seq<int>, d: int): seq<int> {
    seq(|idx|, i requires 0 <= i < |idx| => idx[i] + d)
  }

  /**
   * The mask of a non-empty table read from the front: index 0 if its first
   * element is kept, then the mask of the rest, moved by one.
   */
  lemma {:induction false} MaskIndicesFront<T>(t: seq<T>, keep: T -> bool)
    requires |t| > 0
    ensures MaskIndices(t, keep) == (if keep(t[0]) then [0] else []) + Shifted(MaskIndices(t[1..], keep), 1)
    decreases |t|
  {
    var n := |t|;
    var head: seq<int> := if keep(t[0]) then [0] else [];
    if n == 1 {
      assert t[..0] == [] && t[1..] == [];
    } else {
      var init := t[..n - 1];
      var tail := t[1..];
      assert init[1..] == tail[..n - 2];
      assert init[0] == t[0] && tail[n - 2] == t[n - 1];
      var mid := MaskIndices(tail[..n - 2], keep);
      var last: seq<int> := if keep(t[n - 1]) then [n - 2] else [];
      MaskIndicesFront(init, keep);
      assert MaskIndices(init, keep) == head + Shifted(mid, 1);
      assert MaskIndices(tail, keep) == mid + last;
      assert MaskIndices(t, keep) == MaskIndices(init, keep) + Shifted(last, 1) by {
        assert Shifted(last, 1) == if keep(t[n - 1]) then [n - 1] else [];
      }
      ShiftedRejoin(MaskIndices(t, keep), MaskIndices(init, keep), MaskIndices(tail, keep), head, mid, last);
    }
  }

  /** The last step of `MaskIndicesFront`, on plain index lists. */
  lemma ShiftedRejoin(whole: seq<int>, init: seq<int>, tail: seq<int>, head: seq<int>, mid: seq<int>, last: seq<int>)
    requires init == head + Shifted(mid, 1) && tail == mid + last
    requires whole == init + Shifted(last, 1)
    ensures whole == head + Shifted(tail, 1)
  {
    ShiftedAppend(mid, last, 1);
  }

  lemma ShiftedAppend(a: seq<int>, b: seq<int>, d: int)
    ensures Shifted(a + b, d) == Shifted(a, d) + Shifted(b, d)
  {
  }

  /** The mask `positions_df['stormID'] == stormID`. */
  function MatchIndices(id: string, t: seq<PositionRow>): seq<int> {
    MaskIndices(t, (row: PositionRow) => row.stormID == id)
  }

  /** The rows selected by the mask, in table order. */
  function Track(id: string, t: seq<PositionRow>): (rows: seq<PositionRow>)
    ensures forall x :: 0 <= x < |rows| ==> rows[x] in t && rows[x].stormID == id
  {
    var idx := MatchIndices(id, t);
    seq(|idx|, i requires 0 <= i < |idx| => t[idx[i]])
  }

  /** `track_lat`: the latitude column under the storm's mask. */
  function TrackLat(id: string, t: seq<PositionRow>): (lats: seq<real>)
    ensures var idx := MatchIndices(id, t);
      |lats| == |idx| && forall x :: 0 <= x < |idx| ==> lats[x] == t[idx[x]].lat
  {
    var rows := Track(id, t);
    seq(|rows|, x requires 0 <= x < |rows| => rows[x].lat)
  }

  /** `track_lon`: the longitude column under the same mask. */
  function TrackLon(id: string, t: seq<PositionRow>): (lons: seq<real>)
    ensures var idx := MatchIndices(id, t);
      |lons| == |idx| && forall x :: 0 <= x < |idx| ==> lons[x] == t[idx[x]].lon
  {
    var rows := Track(id, t);
    seq(|rows|, x requires 0 <= x < |rows| => rows[x].lon)
  }

  /** The nine lists `winds` returns, in its fixed order. */
  datatype WindLists = WindLists(
    status: seq<string>,
    tsNE: seq<int>, tsSE: seq<int>, tsSW: seq<int>, tsNW: seq<int>,
    huNE: seq<int>, huSE: seq<int>, huSW: seq<int>, huNW: seq<int>)

  /** `winds`: status, the four 34-kt extents and the four 64-kt extents under the storm's mask. */
  function Winds(id: string, t: seq<PositionRow>): (w: WindLists)
    ensures var idx := MatchIndices(id, t); var n := |idx|;
      && |w.status| == |w.tsNE| == |w.tsSE| == |w.tsSW| == |w.tsNW| == n
      && |w.huNE| == |w.huSE| == |w.huSW| == |w.huNW| == n
      && forall x :: 0 <= x < n ==>
           var row := t[idx[x]];
           && w.status[x] == row.status
           && w.tsNE[x] == row.extNE34 && w.tsSE[x] == row.extSE34
           && w.tsSW[x] == row.extSW34 && w.tsNW[x] == row.extNW34
           && w.huNE[x] == row.extNE64 && w.huSE[x] == row.extSE64
           && w.huSW[x] == row.extSW64 && w.huNW[x] == row.extNW64
  {
    var rows := Track(id, t);
    var n := |rows|;
    WindLists(
      seq(n, x requires 0 <= x < n => rows[x].status),
      seq(n, x requires 0 <= x < n => rows[x].extNE34),
      seq(n, x requires 0 <= x < n => rows[x].extSE34),
      seq(n, x requires 0 <= x < n => rows[x].extSW34),
      seq(n, x requires 0 <= x < n => rows[x].extNW34),
      seq(n, x requires 0 <= x < n => rows[x].extNE64),
      seq(n, x requires 0 <= x < n => rows[x].extSE64),
      seq(n, x requires 0 <= x < n => rows[x].extSW64),
      seq(n, x requires 0 <= x < n => rows[x].extNW64))
  }

  /**
   * `track_lat` lists the latitude of exactly the rows carrying the storm's
   * identifier, in table order: entry `x` comes from row `MatchIndices(id, t)[x]`,
   * those indices increase, and every matching row is among them.
   */
  lemma TrackLatSelectsMatchingRows(id: string, t: seq<PositionRow>)
    ensures var idx := MatchIndices(id, t);
      && |TrackLat(id, t)| == |idx|
      && (forall x :: 0 <= x < |idx| ==> 0 <= idx[x] < |t| && t[idx[x]].stormID == id && TrackLat(id, t)[x] == t[idx[x]].lat)
      && (forall x, y :: 0 <= x < y < |idx| ==> idx[x] < idx[y])
      && (forall j :: 0 <= j < |t| && t[j].stormID == id ==> j in idx)
  {
  }

  /**
   * `track_lon` and the nine `winds` lists use the same mask as `track_lat`:
   * all have its length and entry `x` of each comes from the same row.
   */
  lemma TrackColumnsAligned(id: string, t: seq<PositionRow>)
    ensures ColumnsOf(Track(id, t), TrackLat(id, t), TrackLon(id, t), Winds(id, t))
  {
  }

  /**
   * The latitude, longitude and nine wind lists have one entry per row of
   * the track, and entry `x` of each is that field of row `x`.
   */
  predicate ColumnsOf(rows: seq<PositionRow>, lats: seq<real>, lons: seq<real>, w: WindLists) {
    var n := |rows|;
    && |lats| == |lons| == n
    && |w.status| == |w.tsNE| == |w.tsSE| == |w.tsSW| == |w.tsNW| == n
    && |w.huNE| == |w.huSE| == |w.huSW| == |w.huNW| == n
    && forall x :: 0 <= x < n ==>
         var row := rows[x];
         && lats[x] == row.lat && lons[x] == row.lon
         && w.status[x] == row.status
         && w.tsNE[x] == row.extNE34 && w.tsSE[x] == row.extSE34
         && w.tsSW[x] == row.extSW34 && w.tsNW[x] == row.extNW34
         && w.huNE[x] == row.extNE64 && w.huSE[x] == row.extSE64
         && w.huSW[x] == row.extSW64 && w.huNW[x] == row.extNW64
  }

  /** Does storm row `s` match the (already upper-cased) name and the season? */
  predicate NameYearMatch(s: StormRow, upperName: string, year: int) {
    s.name == upperName && s.year == year
  }

  /**
   * `stormID(name, year)`: upper-case the name, select the storms with that
   * name and season, and return the whitespace-stripped identifier of the
   * single match; `None` when nothing or more than one storm matches.
   */
  function StormIdOf(name: string, year: int, storms: seq<StormRow>): (r: Option<string>)
    ensures r.None? <==>
      || (forall j :: 0 <= j < |storms| ==> !NameYearMatch(storms[j], Upper(name), year))
      || (exists j, k :: 0 <= j < k < |storms| && NameYearMatch(storms[j], Upper(name), year)
                                               && NameYearMatch(storms[k], Upper(name), year))
    ensures r.Some? ==>
      exists j :: 0 <= j < |storms| && NameYearMatch(storms[j], Upper(name), year)
               && r.value == Strip(storms[j].stormID, Whitespace)
               && forall k :: 0 <= k < |storms| && NameYearMatch(storms[k], Upper(name), year) ==> k == j
  {
    var upperName := Upper(name);
    var idx := MaskIndices(storms, (s: StormRow) => NameYearMatch(s, upperName, year));
    if |idx| == 0 then
      None
    else if |idx| > 1 then
      assert NameYearMatch(storms[idx[0]], upperName, year) && NameYearMatch(storms[idx[1]], upperName, year);
      None
    else
      var j := idx[0];
      assert forall k :: 0 <= k < |storms| && NameYearMatch(storms[k], upperName, year) ==> k in idx;
      Some(Strip(storms[j].stormID, Whitespace))
  }
}
