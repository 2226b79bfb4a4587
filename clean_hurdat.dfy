/**
 * The list-building loops of `partition_hurdat`: flagging header rows,
 * splitting the raw rows into storm headers and positions, the season
 * year slice of each storm identifier, hemisphere letters turned into
 * signed coordinate text, the per-position replication of storm names and
 * identifiers, and the month each storm formed. CSV reading and writing
 * and pandas' type conversions are not modelled: text is taken as already
 * split into fields and months and counts as already parsed.
 */
module CleanHurdat {
  import opened Text
  import opened Wrappers
  import opened StormTracks

  /**
   * One raw HURDAT line split into its first six fields and the rest. On a
   * header line `date`, `time` and `recordID` hold the storm identifier,
   * the name and the number of positions.
   */
  datatype RawRow = RawRow(date: string, time: string, recordID: string, status: string,
                           lat: string, lon: string, rest: seq<string>)

  /** A row is a header exactly when its date field is not all digits. */
  method FlagHeaders(rows: seq<RawRow>) returns (header: seq<bool>)
    ensures |header| == |rows|
    ensures forall i :: 0 <= i < |rows| ==> (header[i] <==> !IsNumeric(rows[i].date))
  {
    header := [];
    for i := 0 to |rows|
      invariant |header| == i
      invariant forall k :: 0 <= k < i ==> (header[k] <==> !IsNumeric(rows[k].date))
    {
      if IsNumeric(rows[i].date) {
        header := header + [false];
      } else {
        header := header + [true];
      }
    }
  }

  /** The mask `df['header'] == want`. */
  function FlagIs(want: bool): bool -> bool {
    b => b == want
  }

  /**
   * `df[df['header'] == want]`: the rows whose flag is `want`, in order.
   * Entry `x` is the row at the `x`-th index the mask selects.
   */
  function Select<T>(rows: seq<T>, header: seq<bool>, want: bool): (r: seq<T>)
    requires |header| == |rows|
    ensures |r| <= |rows|
    ensures forall i :: 0 <= i < |rows| && header[i] == want ==> rows[i] in r
    ensures var idx := MaskIndices(header, FlagIs(want));
      |r| == |idx| && forall x :: 0 <= x < |idx| ==> r[x] == rows[idx[x]]
    decreases |rows|
  {
    if |rows| == 0 then []
    else
      var rest := Select(rows[1..], header[1..], want);
      MaskedFront(rows, header, want, rest);
      if header[0] == want then [rows[0]] + rest else rest
  }

  /** The selection of a non-empty table: its first row if flagged, then the selection of the rest. */
  lemma MaskedFront<T>(rows: seq<T>, header: seq<bool>, want: bool, rest: seq<T>)
    requires |header| == |rows| > 0
    requires var idx := MaskIndices(header[1..], FlagIs(want));
      |rest| == |idx| && forall x :: 0 <= x < |idx| ==> rest[x] == rows[1..][idx[x]]
    ensures var r := if header[0] == want then [rows[0]] + rest else rest;
      var idx := MaskIndices(header, FlagIs(want));
      |r| == |idx| && forall x :: 0 <= x < |idx| ==> r[x] == rows[idx[x]]
  {
    MaskIndicesFront(header, FlagIs(want));
    assert FlagIs(want)(header[0]) == (header[0] == want);
    ShiftedSelection(rows, MaskIndices(header[1..], FlagIs(want)), rest, header[0] == want);
  }

  /** Picking rows by indices of the tail, moved by one, optionally after row 0. */
  lemma ShiftedSelection<T>(rows: seq<T>, tailIdx: seq<int>, rest: seq<T>, take: bool)
    requires |rows| > 0
    requires forall x :: 0 <= x < |tailIdx| ==> 0 <= tailIdx[x] < |rows| - 1
    requires |rest| == |tailIdx| && forall x :: 0 <= x < |tailIdx| ==> rest[x] == rows[1..][tailIdx[x]]
    ensures var idx := (if take then [0] else []) + Shifted(tailIdx, 1);
      var r := if take then [rows[0]] + rest else rest;
      |r| == |idx| && forall x :: 0 <= x < |idx| ==> r[x] == rows[idx[x]]
  {
    var idx := (if take then [0] else []) + Shifted(tailIdx, 1);
    var r := if take then [rows[0]] + rest else rest;
    var h := if take then 1 else 0;
    forall x | 0 <= x < |idx|
      ensures r[x] == rows[idx[x]]
    {
      if x >= h {
        assert idx[x] == tailIdx[x - h] + 1 && r[x] == rest[x - h];
      }
    }
  }

  /** Every row a mask selects is a row of the table carrying the wanted flag. */
  lemma SelectedRowsCarryFlag<T>(rows: seq<T>, header: seq<bool>, want: bool, x: T)
    requires |header| == |rows| && x in Select(rows, header, want)
    ensures exists i :: 0 <= i < |rows| && header[i] == want && rows[i] == x
  {
    var r := Select(rows, header, want);
    var idx := MaskIndices(header, FlagIs(want));
    var k :| 0 <= k < |r| && r[k] == x;
    assert FlagIs(want)(header[idx[k]]) && rows[idx[k]] == x;
  }

  /** Every row lands in exactly one of the two tables: together they are the raw rows, no more, no fewer. */
  lemma {:induction false} PartitionIsExact<T>(rows: seq<T>, header: seq<bool>)
    requires |header| == |rows|
    ensures multiset(Select(rows, header, true)) + multiset(Select(rows, header, false)) == multiset(rows)
    ensures |Select(rows, header, true)| + |Select(rows, header, false)| == |rows|
    decreases |rows|
  {
    if |rows| > 0 {
      PartitionIsExact(rows[1..], header[1..]);
      assert rows == [rows[0]] + rows[1..];
    }
  }

  /**
   * With the flags `FlagHeaders` computes, the storms table holds only
   * rows whose date field is not all digits and the positions table only
   * rows whose date field is.
   */
  lemma PartitionByDate(rows: seq<RawRow>, header: seq<bool>)
    requires |header| == |rows|
    requires forall i :: 0 <= i < |rows| ==> (header[i] <==> !IsNumeric(rows[i].date))
    ensures forall s :: s in Select(rows, header, true) ==> !IsNumeric(s.date)
    ensures forall p :: p in Select(rows, header, false) ==> IsNumeric(p.date)
  {
    forall s | s in Select(rows, header, true)
      ensures !IsNumeric(s.date)
    {
      SelectedRowsCarryFlag(rows, header, true, s);
    }
    forall p | p in Select(rows, header, false)
      ensures IsNumeric(p.date)
    {
      SelectedRowsCarryFlag(rows, header, false, p);
    }
  }

  /** `stormID[4:9]` for every storm identifier, in order. */
  method StormYears(ids: seq<string>) returns (years: seq<string>)
    ensures |years| == |ids|
    ensures forall i :: 0 <= i < |ids| ==> years[i] == Slice(ids[i], 4, 9)
  {
    years := [];
    for i := 0 to |ids|
      invariant |years| == i
      invariant forall k :: 0 <= k < i ==> years[k] == Slice(ids[k], 4, 9)
    {
      years := years + [Slice(ids[i], 4, 9)];
    }
  }

  /**
   * A HURDAT identifier is basin, cyclone number and season ("AL011851"):
   * the slice `[4:9]` of an eight-character identifier is its last four
   * characters, the season; a shorter one gives what is left after index 4.
   */
  lemma SeasonOfIdentifier(id: string)
    ensures |id| == 8 ==> Slice(id, 4, 9) == id[4..8] && |Slice(id, 4, 9)| == 4
    ensures 4 <= |id| <= 9 ==> Slice(id, 4, 9) == id[4..]
    ensures |id| <= 4 ==> Slice(id, 4, 9) == []
  {
  }

  /**
   * One latitude (or longitude) text: when it contains the positive
   * hemisphere letter, strip spaces and that letter from both ends;
   * otherwise strip spaces and the negative letter and prefix '-'.
   */
  function SignedCoordinate(text: string, pos: char, neg: char): (r: string)
    ensures pos in text ==> r == [] || (r[0] !in {' ', pos} && r[|r| - 1] !in {' ', pos})
    ensures pos !in text ==> |r| >= 1 && r[0] == '-' && (|r| == 1 || (r[1] !in {' ', neg} && r[|r| - 1] !in {' ', neg}))
  {
    if pos in text then Strip(text, {' ', pos}) else "-" + Strip(text, {' ', neg})
  }

  /** `numLat` from the latitude column with 'N'/'S', and `numLon` from the longitude column with 'E'/'W'. */
  method SignedCoordinates(texts: seq<string>, pos: char, neg: char) returns (nums: seq<string>)
    ensures |nums| == |texts|
    ensures forall i :: 0 <= i < |texts| ==> nums[i] == SignedCoordinate(texts[i], pos, neg)
  {
    nums := [];
    for i := 0 to |texts|
      invariant |nums| == i
      invariant forall k :: 0 <= k < i ==> nums[k] == SignedCoordinate(texts[k], pos, neg)
    {
      var text := texts[i];
      var num;
      if pos in text {
        num := Strip(text, {' ', pos});
        assert num == SignedCoordinate(text, pos, neg);
      } else {
        num := "-" + Strip(text, {' ', neg});
        assert num == SignedCoordinate(text, pos, neg);
      }
      AppendKeepsEntries(nums, num);
      nums := nums + [num];
    }
  }

  lemma AppendKeepsEntries<T>(xs: seq<T>, y: T)
    ensures |xs + [y]| == |xs| + 1 && (xs + [y])[|xs|] == y
    ensures forall k :: 0 <= k < |xs| ==> (xs + [y])[k] == xs[k]
  {
  }

  function Spaces(n: nat): (r: string)
    ensures |r| == n && forall k :: 0 <= k < n ==> r[k] == ' '
  {
    seq(n, k => ' ')
  }

  /**
   * The conversion reads HURDAT's right-aligned "  28.0N" style fields
   * back as numbers: a magnitude padded on the left with spaces and followed
   * by the positive letter comes back unchanged, followed by the negative
   * letter it comes back with a '-' in front.
   */
  lemma SignedCoordinateRoundTrip(pad: nat, d: string, pos: char, neg: char)
    requires d != [] && forall k :: 0 <= k < |d| ==> d[k] != ' ' && d[k] != pos && d[k] != neg
    requires pos != ' ' && neg != ' ' && pos != neg
    ensures SignedCoordinate(Spaces(pad) + d + [pos], pos, neg) == d
    ensures SignedCoordinate(Spaces(pad) + d + [neg], pos, neg) == "-" + d
  {
    PaddedField(pad, d, pos, pos);
    PaddedField(pad, d, neg, pos);
  }

  /** Stripping spaces and the hemisphere letter from a padded field gives back the magnitude. */
  lemma PaddedField(pad: nat, d: string, letter: char, probe: char)
    requires d != [] && forall k :: 0 <= k < |d| ==> d[k] != ' ' && d[k] != letter && d[k] != probe
    requires letter != ' ' && probe != ' '
    ensures Strip(Spaces(pad) + d + [letter], {' ', letter}) == d
    ensures probe in Spaces(pad) + d + [letter] <==> probe == letter
  {
    StripFramed(Spaces(pad), d, [letter], {' ', letter});
    LetterOccurs(Spaces(pad), d, letter, probe);
  }

  /** Another letter `probe` occurs in a padded field only when it is the field's letter. */
  lemma LetterOccurs(spaces: string, d: string, letter: char, probe: char)
    requires forall k :: 0 <= k < |spaces| ==> spaces[k] == ' '
    requires forall k :: 0 <= k < |d| ==> d[k] != probe
    requires probe != ' '
    ensures probe in spaces + d + [letter] <==> probe == letter
  {
    var field := spaces + d + [letter];
    assert field[|field| - 1] == letter;
    if probe != letter {
      forall k | 0 <= k < |field|
        ensures field[k] != probe
      {
        if k < |spaces| {
          assert field[k] == spaces[k];
        } else if k < |spaces| + |d| {
          assert field[k] == d[k - |spaces|];
        }
      }
    }
  }

  /** `n` copies of `x`; none when `n` is not positive, as with `range(n)`. */
  function Repeat<T>(x: T, n: int): (r: seq<T>)
    ensures |r| == if n < 0 then 0 else n
    ensures forall k :: 0 <= k < |r| ==> r[k] == x
    decreases n
  {
    if n <= 0 then [] else Repeat(x, n - 1) + [x]
  }

  /** The concatenation over storms `i` of `counts[i]` copies of `values[i]`. */
  function Replicated<T>(values: seq<T>, counts: seq<int>): seq<T>
    requires |values| == |counts|
    decreases |values|
  {
    if |values| == 0 then []
    else
      var n := |values| - 1;
      Replicated(values[..n], counts[..n]) + Repeat(values[n], counts[n])
  }

  /** The number of positions over all storms, a negative count counting as none. */
  function Total(counts: seq<int>): nat
    decreases |counts|
  {
    if |counts| == 0 then 0
    else
      var n := |counts| - 1;
      Total(counts[..n]) + if counts[n] > 0 then counts[n] else 0
  }

  /**
   * The nested loop that builds `stormNames` (and, with the identifiers,
   * `stormIDs`): for each storm, append its value once per position.
   */
  method Replicate<T>(values: seq<T>, counts: seq<int>) returns (out: seq<T>)
    requires |values| == |counts|
    ensures out == Replicated(values, counts)
  {
    out := [];
    for i := 0 to |values|
      invariant out == Replicated(values[..i], counts[..i])
    {
      var j := 0;
      while j < counts[i]
        invariant 0 <= j <= if counts[i] < 0 then 0 else counts[i]
        invariant out == Replicated(values[..i], counts[..i]) + Repeat(values[i], j)
      {
        out := out + [values[i]];
        j := j + 1;
      }
      assert Repeat(values[i], j) == Repeat(values[i], counts[i]);
      assert values[..i + 1][..i] == values[..i] && counts[..i + 1][..i] == counts[..i];
    }
    assert values[..|values|] == values && counts[..|counts|] == counts;
  }

  /** The replicated column has one entry per position over all storms. */
  lemma {:induction false} ReplicatedLength<T>(values: seq<T>, counts: seq<int>)
    requires |values| == |counts|
    ensures |Replicated(values, counts)| == Total(counts)
    decreases |values|
  {
    if |values| > 0 {
      var n := |values| - 1;
      ReplicatedLength(values[..n], counts[..n]);
    }
  }

  /** Storm `i`'s entries start after the positions of the storms before it and are all `values[i]`. */
  lemma {:induction false} ReplicatedBlock<T>(values: seq<T>, counts: seq<int>, i: int, j: int)
    requires |values| == |counts| && 0 <= i < |values| && 0 <= j < counts[i]
    ensures Total(counts[..i]) + j < |Replicated(values, counts)|
    ensures Replicated(values, counts)[Total(counts[..i]) + j] == values[i]
    decreases |values|
  {
    var n := |values| - 1;
    ReplicatedLength(values[..n], counts[..n]);
    ReplicatedLength(values, counts);
    assert values[..n][..n] == values[..n];
    if i < n {
      assert counts[..n][..i] == counts[..i];
      ReplicatedBlock(values[..n], counts[..n], i, j);
    } else {
      assert counts[..i] == counts[..n];
    }
  }

  /** The storm whose block holds entry `k` of a replicated column. */
  function Owner(counts: seq<int>, k: int): (i: int)
    requires 0 <= k < Total(counts)
    ensures 0 <= i < |counts|
    ensures Total(counts[..i]) <= k < Total(counts[..i]) + counts[i]
    decreases |counts|
  {
    var n := |counts| - 1;
    assert counts[..n][..n] == counts[..n];
    if k < Total(counts[..n]) then
      var i := Owner(counts[..n], k);
      assert counts[..n][..i] == counts[..i] && counts[..n][i] == counts[i];
      i
    else
      n
  }

  /**
   * Entry `k` of a replicated column is the value of the storm that owns
   * position `k`, so `stormNames[k]` and `stormIDs[k]` name the same storm.
   */
  lemma ReplicatedAligned<T, U>(names: seq<T>, ids: seq<U>, counts: seq<int>, k: int)
    requires |names| == |counts| && |ids| == |counts| && 0 <= k < Total(counts)
    ensures 0 <= k < |Replicated(names, counts)| && 0 <= k < |Replicated(ids, counts)|
    ensures Replicated(names, counts)[k] == names[Owner(counts, k)]
    ensures Replicated(ids, counts)[k] == ids[Owner(counts, k)]
  {
    var i := Owner(counts, k);
    ReplicatedBlock(names, counts, i, k - Total(counts[..i]));
    ReplicatedBlock(ids, counts, i, k - Total(counts[..i]));
  }

  /** Position `j` is the first whose storm identifier is `id`. */
  ghost predicate FirstMatch(posIDs: seq<string>, id: string, j: int) {
    0 <= j < |posIDs| && posIDs[j] == id && forall m :: 0 <= m < j ==> posIDs[m] != id
  }

  /**
   * `month_formed`: for each storm, the month of the first position row
   * carrying its identifier. Taking `[0]` of an empty list raises, which
   * is `None` here: exactly when some storm has no position row.
   */
  method MonthFormed(stormIDs: seq<string>, posIDs: seq<string>, posMonths: seq<int>) returns (r: Option<seq<int>>)
    requires |posIDs| == |posMonths|
    ensures r.None? <==> exists i :: 0 <= i < |stormIDs| && stormIDs[i] !in posIDs
    ensures r.Some? ==> |r.value| == |stormIDs|
    ensures r.Some? ==> forall i :: 0 <= i < |stormIDs| ==>
      exists j :: FirstMatch(posIDs, stormIDs[i], j) && r.value[i] == posMonths[j]
  {
    var months := [];
    for i := 0 to |stormIDs|
      invariant |months| == i
      invariant forall k :: 0 <= k < i ==> stormIDs[k] in posIDs
      invariant forall k :: 0 <= k < i ==> exists j :: FirstMatch(posIDs, stormIDs[k], j) && months[k] == posMonths[j]
    {
      var id := stormIDs[i];
      var idx := MaskIndices(posIDs, (s: string) => s == id);
      if |idx| == 0 {
        return None;
      }
      var first := idx[0];
      assert FirstMatch(posIDs, id, first);
      months := months + [posMonths[first]];
    }
    r := Some(months);
  }
}
