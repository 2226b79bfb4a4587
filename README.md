# hurricane-frequency: a verified model of the wind-field rasterizer

The repository turns NOAA HURDAT best-track records into 1 x 1 degree grids
that show where a storm's winds reached. It has three parts:

- `partition_hurdat` splits the raw HURDAT file into a storms table and a
  positions table. It flags header rows, converts hemisphere-lettered
  coordinates to signed text, slices the season out of each storm
  identifier, copies each storm's name and identifier onto its positions,
  and records the month each storm formed.
- `track_lat`, `track_lon`, `winds` and `stormID` pull one storm's track
  and wind extents out of the positions table, and look up a storm
  identifier by name and season.
- `wind_history` rasterizes one storm onto a 180 x 360 grid:
  - 1 where 34-kt (tropical-storm) winds reached;
  - 2 where 64-kt (hurricane) winds reached.

  `wind_frequency` does the same per storm for a list of storms (34-kt
  extents writing 1, or in hurricane-only mode 64-kt extents writing 2) and
  sums the per-storm grids.

Each position is painted in the same way. Each of its four quadrants is
swept at 31 bearings, three degrees apart. Each bearing's destination point
at the quadrant's extent is computed, and the destination's longitude gets
a single +-360 correction. Then the rows between the centre's latitude and
the destination's latitude are painted in the destination's column.

The model has these modules:

- `Text`: the Python string operations used (`strip`, `isnumeric`,
  `upper`, slicing).
- `StormTracks`: the table filters and the identifier lookup.
- `WindField`: the painting specification. Every bearing produces one
  `Stroke`, a run of rows in one column at one force. A grid cell is the
  fold `CellAfter` of the strokes in painting order. `Settled` is the same
  value in closed form.
- `Painting`: the in-place painting loops on an `array2<int>` grid. Each is
  proved to leave every cell equal to `CellAfter` of its strokes.
- `WindHistory` and `Frequency`: the two grid builders, proved against
  that specification.
- `CleanHurdat`: the list-building loops of `partition_hurdat`.

The spherical projection (`asin`/`atan2`) is a function-valued parameter,
`project: Projector`, and it is not constrained. The source indexes the grid
with every painted row and column without a bounds check, so each painting
method requires the strokes it paints to lie in the grid (`AllInGrid`,
`TrackInGrid`). Tables are explicit parameters.

## Model

| member | source | states |
|---|---|---|
| Text.Strip | src/d02_intermediate/clean_hurdat.py:101 | `str.strip(chars)`: the result is a middle slice of the input that starts after the leading run of `chars`, with only `chars` after it, and neither end of it in `chars` |
| Text.StripFramed | src/d02_intermediate/clean_hurdat.py:98-105 | stripping text framed by characters of the set gives back the framed middle when neither end of it is in the set |
| Text.Upper | src/d07_visualization/storm_tracks.py:87 | `str.upper()`: same length, every lower-case letter replaced by its own capital (code point 32 lower), every other character unchanged |
| Text.IsNumeric | src/d02_intermediate/clean_hurdat.py:46 | `str.isnumeric()`: numeric text is non-empty and carries no whitespace, sign, decimal point or letter, so a header row's first field (a storm identifier such as AL011851) or an empty field is never numeric |
| Text.Slice | src/d02_intermediate/clean_hurdat.py:79 | Python slicing `s[start:stop]` with out-of-range bounds clamped: the exact slice when in range, the tail when `stop` passes the end, empty when `start` is at or past the end |
| StormTracks.MaskIndices | src/d07_visualization/storm_tracks.py:27 | a boolean mask selects exactly the indices whose row satisfies it, each once, in increasing table order |
| StormTracks.Track | src/d07_visualization/storm_tracks.py:26-27 | every selected row is a row of the table carrying the requested storm identifier |
| StormTracks.TrackLat | src/d07_visualization/storm_tracks.py:26-27 | one latitude per index the storm's mask selects, entry `x` the latitude of table row `MatchIndices(id, t)[x]` |
| StormTracks.TrackLon | src/d07_visualization/storm_tracks.py:29-30 | one longitude per index the storm's mask selects, entry `x` the longitude of table row `MatchIndices(id, t)[x]` |
| StormTracks.Winds | src/d07_visualization/storm_tracks.py:32-45 | nine lists, one entry per index the storm's mask selects: entry `x` of each is the status, or the 34-kt NE/SE/SW/NW, or the 64-kt NE/SE/SW/NW extent of table row `MatchIndices(id, t)[x]` |
| StormTracks.TrackLatSelectsMatchingRows | src/d07_visualization/storm_tracks.py:26-27 | `track_lat` lists the latitude of exactly the rows whose identifier matches, in table order, and misses none |
| StormTracks.TrackColumnsAligned | src/d07_visualization/storm_tracks.py:29-45 | `track_lon` and the nine `winds` lists (status, 34-kt NE/SE/SW/NW, 64-kt NE/SE/SW/NW) have the length of `track_lat`, and entry `x` of each comes from the same row |
| StormTracks.StormIdOf | src/d07_visualization/storm_tracks.py:86-99 | the name is upper-cased before matching name and season; `None` iff no storm or more than one storm matches; otherwise the stripped identifier of the unique match |
| WindField.Floor | src/d03_processing/frequency.py:88 | `math.floor`: the greatest integer at or below the argument |
| WindField.Ceil | src/d03_processing/frequency.py:88 | `math.ceil`: the least integer at or above the argument |
| WindField.WrapLon | src/d03_processing/frequency.py:82-85 | the single +-360 correction maps any longitude in [-540, 540] into [-180, 180], leaves [-180, 180] unchanged, and only ever shifts by 360 |
| WindField.Bearings | src/d03_processing/frequency.py:34-38 | quadrant `q` sweeps exactly 31 bearings, from 90q to 90q + 90 with both ends included, three degrees apart |
| WindField.SweepStroke | src/d03_processing/frequency.py:76-93 | a bearing's stroke has the threshold's force, its column is the 1-degree band holding the corrected destination longitude, and its rows run from the floor of the centre's latitude to the ceiling of the destination's (quadrants 0 and 3) or from the floor of the destination's to the ceiling of the centre's (quadrants 1 and 2) |
| WindField.Apply | src/d07_visualization/wind_history.py:81-91 | one write touches only the covered cell, writes 1 or 2 there, and never lowers a 2 |
| WindField.CellAfterAppend | src/d07_visualization/wind_history.py:46-118 | painting two batches of strokes in turn equals painting their concatenation |
| WindField.CellAfterSettles | src/d07_visualization/wind_history.py:84-118 | a cell ends at 2 iff it started at 2 or some hurricane stroke covered it; otherwise at 1 iff some tropical-storm stroke covered it; otherwise it keeps its start value |
| WindField.CellStaysInDomain | src/d07_visualization/wind_history.py:36-118 | starting from a value in {0, 1, 2}, every cell stays in {0, 1, 2} |
| WindField.HurricaneSticky | src/d07_visualization/wind_history.py:84-118 | once a cell is 2, no later stroke of the pass lowers it |
| WindField.RepaintChangesNothing | src/d03_processing/frequency.py:115-123 | painting assigns rather than increments: painting the same strokes twice equals painting them once |
| WindField.SweepStrokeCovers | src/d03_processing/frequency.py:87-93 | a bearing paints exactly the cell whose longitude band holds the corrected destination longitude, in every latitude band overlapping the open interval between the centre's and the destination's latitude (so the bands holding the centre and the destination are painted too): northward for quadrants 0 and 3, southward for quadrants 1 and 2 |
| WindField.SweepStrokeInGrid | src/d03_processing/frequency.py:87-93 | when the centre latitude and this bearing's destination latitude lie in [-90, 90] and the corrected longitude in [-180, 180), the bearing's stroke is inside the 180 x 360 grid |
| WindField.QuadrantStrokes | src/d03_processing/frequency.py:103-123 | one quadrant sweep paints 31 strokes, all at the threshold's force |
| WindField.QuadrantsStrokes | src/d03_processing/frequency.py:71-93 | the first `n` quadrants paint 31n strokes, all at the threshold's force |
| WindField.QuadrantStrokesMembers | src/d03_processing/frequency.py:103-123 | a quadrant's strokes are exactly the sweep strokes of its 31 bearings |
| WindField.QuadrantsStrokesMembers | src/d03_processing/frequency.py:71-93 | a threshold's strokes are exactly the sweep strokes of quadrant `q` at extent `exts[q]` and bearing `k`, over all `q` and `k` |
| WindField.MissingExtent | src/d03_processing/frequency.py:59-65 | a position is skipped iff at least one of its eight extents (34-kt and 64-kt, NE/SE/SW/NW) is -999 |
| WindField.PositionStrokes | src/d03_processing/frequency.py:59-123 | a position with a -999 extent paints nothing, and neither does one that is not ' TS'/' HU'; in hurricane-only mode only ' HU' positions paint, and only at hurricane force; the default mode paints only at tropical-storm force; the history paints at hurricane force only for ' HU' (which extents each mode sweeps is `WindField.PositionCoverage`) |
| WindField.PositionCoverage | src/d03_processing/frequency.py:59-123 | which sweep each mode paints: a position's hurricane-force strokes cover a cell iff the mode is the history or hurricane-only and the position is ' HU' without missing extents and a bearing of its 64-kt sweep covers the cell; its tropical-storm-force strokes iff the mode is the history or the default and the same holds for ' TS'/' HU' and its 34-kt sweep |
| WindField.TrackCoverage | src/d03_processing/frequency.py:52-123 | a track's strokes cover a cell at a force iff the mode paints that force and some position's sweep at that force covers it |
| WindField.QuadrantWithinThreshold | src/d03_processing/frequency.py:99-123 | every stroke of one quadrant's sweep is among the strokes of the four-quadrant loop |
| WindField.PositionWithinTrack | src/d03_processing/frequency.py:52-123 | every stroke a position paints is among the strokes of its track |
| WindField.TrackInGridMeans | src/d03_processing/frequency.py:52-123 | a track writes only inside the grid iff each of its positions does, so the per-position requirement of the grid builders is exactly that the whole track's strokes are in the grid |
| WindField.TrackStrokesMembers | src/d03_processing/frequency.py:52-123 | a track's strokes are exactly the strokes of its positions |
| WindField.TrackStrokesForce | src/d03_processing/frequency.py:67-123 | the default mode paints only 1s and the hurricane-only mode only 2s |
| WindField.TrackStrokesAppend | src/d03_processing/frequency.py:52-65 | painting a track in two parts equals painting the parts one after the other |
| WindField.InertPositionIgnored | src/d03_processing/frequency.py:62-65 | a position that paints nothing can be removed from the track without changing any cell |
| WindField.PositionStep | src/d03_processing/frequency.py:52-123 | painting position `x` extends the fold over the first `x` positions by that position's strokes |
| Painting.PaintColumn | src/d03_processing/frequency.py:115-123 | the row loop leaves every cell equal to one write of the stroke applied to its previous value; cells outside the column and row range are unchanged |
| Painting.PaintQuadrant | src/d03_processing/frequency.py:103-123 | the bearing loop leaves every cell equal to the fold of the quadrant's 31 strokes over its previous value, given that those strokes lie in the grid |
| Painting.PaintThreshold | src/d03_processing/frequency.py:99-123 | the quadrant loop leaves every cell equal to the fold of the four quadrants' strokes, NE, SE, SW, NW in turn |
| Frequency.StormHistory | src/d03_processing/frequency.py:46-123 | a storm's grid starts at zero and ends with every cell equal to the fold of the track's strokes in the chosen mode, with skipped positions leaving it unchanged, given that those strokes lie in the grid |
| Frequency.PaintTrack | src/d03_processing/frequency.py:52-123 | the position loop, reading entry `x` of the latitude, longitude and wind lists of the track, turns a zero grid into the fold of the track's strokes in the chosen mode, given that those strokes lie in the grid |
| Frequency.PaintPosition | src/d03_processing/frequency.py:67-123 | one position paints its 64-kt sweep at hurricane force if ' HU' (hurricane-only mode) or its 34-kt sweep at tropical-storm force if ' TS'/' HU' (default mode) |
| Frequency.PositionSkipped | src/d03_processing/frequency.py:62-65 | a skipped position leaves the storm's grid unchanged |
| Frequency.WindFrequency | src/d03_processing/frequency.py:41-128 | the cumulative grid is the cell-wise sum of the storms' freshly zeroed grids |
| Frequency.StormCellDomain | src/d03_processing/frequency.py:67-123 | a storm's cells are in {0, 1} in the default mode and in {0, 2} in hurricane-only mode |
| Frequency.DefaultCellIsCoverage | src/d03_processing/frequency.py:115-123 | in the default mode a storm's cell is 1 iff at least one of its strokes covers it, however many do |
| Frequency.FrequencyCellMeaning | src/d03_processing/frequency.py:59-123 | in the default mode a storm's cell is 1 iff a bearing of some ' TS'/' HU' position's 34-kt sweep covers it, else 0; in hurricane-only mode it is 2 iff a bearing of some ' HU' position's 64-kt sweep covers it, else 0 |
| Frequency.NoHurricaneContributesNothing | src/d03_processing/frequency.py:67-93 | in hurricane-only mode a storm with no ' HU' position contributes 0 to every cell |
| Frequency.SumAppend | src/d03_processing/frequency.py:45-126 | accumulating two storm lists in turn adds their sums |
| Frequency.CumulativeOrderIndependent | src/d03_processing/frequency.py:43-126 | any permutation of the storm list gives the same cumulative grid |
| Frequency.CumulativeCountsStorms | src/d03_processing/frequency.py:95-126 | each cumulative cell is the number of storms marking it (twice that in hurricane-only mode), so it lies between 0 and the number of storms (or twice it) |
| WindHistory.WindHistory | src/d07_visualization/wind_history.py:29-118 | the grid starts at zero and ends with every cell equal to the fold of the storm's strokes in history order, given that those strokes lie in the grid |
| WindHistory.PaintHistoryTrack | src/d07_visualization/wind_history.py:46-118 | the position loop, reading entry `x` of the latitude, longitude and wind lists of the track, turns a zero grid into the fold of the track's strokes in history order, given that those strokes lie in the grid |
| WindHistory.PaintHistoryPosition | src/d07_visualization/wind_history.py:62-118 | one position paints its 34-kt sweep at tropical-storm force if ' TS'/' HU', then its 64-kt sweep at hurricane force if ' HU' |
| WindHistory.HistoryCellMeaning | src/d07_visualization/wind_history.py:94-118 | a cell is 2 iff some ' HU' position's 64-kt sweep covered it; it is 1 iff none did but some ' TS'/' HU' position's 34-kt sweep did; every cell is in {0, 1, 2} |
| WindHistory.HistoryTwoIsSticky | src/d07_visualization/wind_history.py:84-118 | a cell that is 2 after the first `x` positions is still 2 at the end of the storm |
| CleanHurdat.FlagHeaders | src/d02_intermediate/clean_hurdat.py:45-49 | one flag per row, set exactly when the row's date field is not all digits |
| CleanHurdat.Select | src/d02_intermediate/clean_hurdat.py:56-57 | entry `x` is the row at the `x`-th index the flag mask selects, so the kept rows stay in file order; the mask never adds rows, and every row whose flag is the wanted one is kept |
| CleanHurdat.SelectedRowsCarryFlag | src/d02_intermediate/clean_hurdat.py:56-57 | every row a mask selects is a table row carrying the wanted flag |
| CleanHurdat.PartitionIsExact | src/d02_intermediate/clean_hurdat.py:52-57 | every row lands in exactly one of storms and positions: their lengths add up to the row count and their multisets to the raw rows |
| CleanHurdat.PartitionByDate | src/d02_intermediate/clean_hurdat.py:45-57 | with the header flags, the storms table holds only rows whose date field is not all digits, and the positions table only rows whose date field is |
| CleanHurdat.StormYears | src/d02_intermediate/clean_hurdat.py:71-79 | one entry per storm, in order: the slice [4:9] of its identifier |
| CleanHurdat.SeasonOfIdentifier | src/d02_intermediate/clean_hurdat.py:78-79 | for an eight-character identifier such as AL011851 the slice [4:9] is its last four characters, the season |
| CleanHurdat.SignedCoordinates | src/d02_intermediate/clean_hurdat.py:95-114 | one entry per position, in order: text containing the positive letter is stripped of spaces and that letter; other text is stripped of spaces and the negative letter and gets a leading '-' |
| CleanHurdat.SignedCoordinate | src/d02_intermediate/clean_hurdat.py:98-114 | text containing the positive letter gives a value with no space or positive letter at either end; other text gives '-' followed by a value with no space or negative letter at either end |
| CleanHurdat.SignedCoordinateRoundTrip | src/d02_intermediate/clean_hurdat.py:98-105 | a space-padded magnitude followed by N (or E) comes back as the magnitude; followed by S (or W) it comes back as '-' plus the magnitude |
| CleanHurdat.Repeat | src/d02_intermediate/clean_hurdat.py:128-129 | `range(n)` copies: `n` copies of the value, none when `n` is not positive |
| CleanHurdat.Replicate | src/d02_intermediate/clean_hurdat.py:123-141 | the nested loop builds the concatenation over storms of `numPositions[i]` copies of the storm's value |
| CleanHurdat.ReplicatedLength | src/d02_intermediate/clean_hurdat.py:126-132 | the replicated column has exactly the sum of `numPositions` entries |
| CleanHurdat.ReplicatedBlock | src/d02_intermediate/clean_hurdat.py:126-129 | storm `i`'s entries start after the positions of the storms before it, and all of them are storm `i`'s value |
| CleanHurdat.ReplicatedAligned | src/d02_intermediate/clean_hurdat.py:123-141 | entry `k` of `stormNames` and entry `k` of `stormIDs` come from the same storm |
| CleanHurdat.MonthFormed | src/d02_intermediate/clean_hurdat.py:147-157 | for each storm, the month of the first position row carrying its identifier; `None` exactly when some storm has no position row, where the source raises an index error |

## Left out

- The spherical projection (`asin`, `atan2`, `sin`, `cos`) and the degree/radian conversions are floating-point numerics. They are the unconstrained `project` parameter. Coordinates are `real`.
- Grid index error: the source raises an index error when a painted destination's corrected longitude is exactly 180 (column `180 + floor(dlon)` is 360). The model does not produce that error. Instead, every painting method requires the strokes it paints to lie in the grid (`AllInGrid`, `TrackInGrid`). Negative indices cannot arise: the corrected longitude is at least -180 and latitudes are at least -90.
- Grids hold `int`s rather than numpy floats; every value written or summed is a small integer.
- `wind_history` calls `track_lat` and `track_lon` without `positions_df`, so they read the module's default table while `winds` reads the table passed in. The two defaults are separate loads of the positions file from different relative paths (wind_history.py:26 and storm_tracks.py:23). The model reads all of them from the one table passed in, so it matches the source only when the table passed to `wind_history` has the same rows as `storm_tracks`' own module table.
- Module-level `read_csv` loads of `POSITIONS` and `STORMS`, the `PROJECTION` constants and the default `stormlist` (storms from 2004 on) are I/O and global state. Tables and storm lists are parameters.
- Plotting and export are foreign UI libraries and are not modelled: the masked array, cartopy/matplotlib rendering, `plot_season_summary`, `plot_storm_track`, `heatmap` and `savefig`. Neither are the `print` messages of `stormID` and `partition_hurdat`.
- src/d01_data/data_download.py (HTTP download and HTML scraping) is not part of this model.
- pandas mechanics in `partition_hurdat` are not modelled: `read_csv`, `to_csv`, `drop`, `reset_index`, column renaming, `astype('int')`/`astype('float')`, `pd.to_datetime` and index-aligned column assignment. The model works on the text fields, the parsed counts and the parsed months.
- Text.Upper, Text.IsNumeric: ASCII only. Python's Unicode case mapping and its non-ASCII numeric characters (such as '²' or '½') are not modelled.
- The 50-kt extents, maximum wind and pressure pass through unchanged in `RawRow.rest`. The time field is carried but not read. The date field is read only for the header flag; the positions' `pd.to_datetime` conversion is not modelled, and `MonthFormed` takes each position's month as given (`posMonths`).
