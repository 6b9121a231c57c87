/** Index bookkeeping of the linear system: the a priori block-rotation
    selection operator (`get_block_constraint_partials`, `block_constraints`),
    the station rows kept (`station_row_keep`), the merging of GPS and InSAR
    coordinates (`merge_geodetic_data`) and the selection of slip-rate
    constraints (`slip_rate_constraints`). Operator entries 0 and 1 are the
    exact integers; velocities, rates and coordinates are reals. */
module Operators {
  import opened Wrappers
  import opened FlatIndex

  /** `np.where(flags == 1)[0]`: the positions holding 1, in increasing order. */
  function FlaggedIndices(flags: seq<int>): (r: seq<nat>)
    ensures StrictlyIncreasing(r)
    ensures forall k :: 0 <= k < |r| ==> r[k] < |flags|
    ensures forall i :: 0 <= i < |flags| ==> (flags[i] == 1 <==> i in r)
  {
    if |flags| == 0 then []
    else
      var front := FlaggedIndices(flags[..|flags| - 1]);
      assert forall i :: 0 <= i < |flags| - 1 ==> flags[..|flags| - 1][i] == flags[i];
      if flags[|flags| - 1] == 1 then front + [|flags| - 1] else front
  }

  /** A flag vector without a 1 selects nothing. */
  lemma {:induction false} FlaggedIndicesNone(flags: seq<int>)
    requires forall i :: 0 <= i < |flags| ==> flags[i] != 1
    ensures FlaggedIndices(flags) == []
  {
    if |flags| > 0 {
      FlaggedIndicesNone(flags[..|flags| - 1]);
    }
  }

  /** A flag vector with a single 1 selects exactly that position. */
  lemma {:induction false} FlaggedIndicesSingle(flags: seq<int>, p: nat)
    requires p < |flags| && flags[p] == 1
    requires forall i :: 0 <= i < |flags| && i != p ==> flags[i] != 1
    ensures FlaggedIndices(flags) == [p]
  {
    var front := flags[..|flags| - 1];
    if p == |flags| - 1 {
      FlaggedIndicesNone(front);
    } else {
      FlaggedIndicesSingle(front, p);
    }
  }

  /** Block b's three columns are consecutive and inside the operator. */
  lemma BlockColumns(nb: nat, b: nat)
    requires b < nb
    ensures forall r :: 0 <= r < 3 ==> Idx(3, nb, b, r) == Idx(3, nb, b, 0) + r
    ensures Idx(3, nb, b, 0) + 3 <= Size(3, nb)
  {
    FlatIsAffine(3, b, 0);
    FlatIsAffine(3, b, 1);
    FlatIsAffine(3, b, 2);
    assert Idx(3, nb, b, 2) < Size(3, nb);
  }

  /** `operator[3 * i : 3 * i + 3, 3 * b : 3 * b + 3] = np.eye(3)` on an
      operator of m by nb 3-blocks: the nine cells of block (i, b) get 1 on
      their diagonal and 0 elsewhere, and every other cell is unchanged. */
  method SetIdentityBlock(op: array2<int>, m: nat, nb: nat, i: nat, b: nat)
    requires op.Length0 == Size(3, m) && op.Length1 == Size(3, nb) && i < m && b < nb
    modifies op
    ensures forall i', r, c :: 0 <= i' < m && 0 <= r < 3 && 0 <= c < op.Length1 ==>
              op[Idx(3, m, i', r), c] ==
                if i' == i && Idx(3, nb, b, 0) <= c < Idx(3, nb, b, 0) + 3 then (if c == Idx(3, nb, b, r) then 1 else 0)
                else old(op[Idx(3, m, i', r), c])
  {
    var start := Idx(3, nb, b, 0);
    BlockColumns(nb, b);
    for t := 0 to 3
      invariant forall i', r, c :: 0 <= i' < m && 0 <= r < 3 && 0 <= c < op.Length1 ==>
                  op[Idx(3, m, i', r), c] ==
                    if i' == i && r < t && start <= c < start + 3 then (if c == start + r then 1 else 0)
                    else old(op[Idx(3, m, i', r), c])
    {
      FlatInjectiveAt(3, i, t);
      SetIdentityRow(op, Idx(3, m, i, t), start, t);
    }
  }

  /** Row `row` of an eye(3) block starting at column `start`: 1 at column
      `start + t`, 0 at the two other columns of the block. */
  method SetIdentityRow(op: array2<int>, row: nat, start: nat, t: nat)
    requires row < op.Length0 && start + 3 <= op.Length1 && t < 3
    modifies op
    ensures forall r, c :: 0 <= r < op.Length0 && 0 <= c < op.Length1 ==>
              op[r, c] == if r == row && start <= c < start + 3 then (if c == start + t then 1 else 0) else old(op[r, c])
  {
    op[row, start] := if t == 0 then 1 else 0;
    op[row, start + 1] := if t == 1 then 1 else 0;
    op[row, start + 2] := if t == 2 then 1 else 0;
  }

  /** `get_block_constraint_partials(block)`: 3 rows per block whose
      rotation_flag is 1 and 3 columns per block; row `3 * i + r` holds a
      single 1, at column `3 * idx[i] + r`, where idx lists the flagged blocks
      in increasing order. */
  method BlockConstraintPartials(rotationFlag: seq<int>) returns (op: array2<int>)
    ensures op.Length0 == Size(3, |FlaggedIndices(rotationFlag)|) && op.Length1 == Size(3, |rotationFlag|)
    ensures forall i, r, c :: 0 <= i < |FlaggedIndices(rotationFlag)| && 0 <= r < 3 && 0 <= c < op.Length1 ==>
              op[Idx(3, |FlaggedIndices(rotationFlag)|, i, r), c] ==
                if c == Idx(3, |rotationFlag|, FlaggedIndices(rotationFlag)[i], r) then 1 else 0
  {
    var idx := FlaggedIndices(rotationFlag);
    var m, nb := |idx|, |rotationFlag|;
    op := new int[Size(3, m), Size(3, nb)]((_, _) => 0);
    for i := 0 to m
      invariant op.Length0 == Size(3, m) && op.Length1 == Size(3, nb)
      invariant forall i', r, c :: 0 <= i' < m && 0 <= r < 3 && 0 <= c < op.Length1 ==>
                  op[Idx(3, m, i', r), c] == if i' < i && c == Idx(3, nb, idx[i'], r) then 1 else 0
    {
      SetIdentityBlock(op, m, nb, i, idx[i]);
      BlockColumns(nb, idx[i]);
    }
  }

  /** Every row of the block-constraint operator is row r of some flagged
      block i, so the entries described by BlockConstraintPartials are all
      of them. */
  lemma BlockConstraintRowsCovered(rotationFlag: seq<int>, row: nat)
    requires row < Size(3, |FlaggedIndices(rotationFlag)|)
    ensures exists i, r :: 0 <= i < |FlaggedIndices(rotationFlag)| && 0 <= r < 3 &&
              Idx(3, |FlaggedIndices(rotationFlag)|, i, r) == row && FlaggedIndices(rotationFlag)[i] < |rotationFlag| &&
              rotationFlag[FlaggedIndices(rotationFlag)[i]] == 1
  {
    IdxCovers(3, |FlaggedIndices(rotationFlag)|, row);
  }

  /** `np.sum(np.abs(v))`; zero exactly when every entry is zero. */
  function SumAbs(v: seq<real>): (s: real)
    ensures s >= 0.0
    ensures s == 0.0 <==> forall k :: 0 <= k < |v| ==> v[k] == 0.0
  {
    if |v| == 0 then 0.0
    else (if v[0] < 0.0 then -v[0] else v[0]) + SumAbs(v[1..])
  }

  /** `np.arange(lo, hi)`. */
  function Range(lo: nat, hi: nat): (r: seq<nat>)
    ensures |r| == if lo <= hi then hi - lo else 0
    ensures forall k :: 0 <= k < |r| ==> r[k] == lo + k
  {
    if lo >= hi then [] else seq(hi - lo, k requires 0 <= k < hi - lo => lo + k)
  }

  /** `np.setdiff1d(np.arange(0, n), np.arange(2, n, 3))`: the rows below n
      that are not the vertical row `3 * i + 2` of some station, in order. */
  function HorizontalRows(n: nat): (r: seq<nat>)
    ensures StrictlyIncreasing(r)
    ensures forall k :: 0 <= k < |r| ==> r[k] < n
    ensures forall j :: 0 <= j < n ==> (j in r <==> j % 3 != 2)
  {
    if n == 0 then []
    else
      var front := HorizontalRows(n - 1);
      if (n - 1) % 3 != 2 then front + [n - 1] else front
  }

  /** `station_row_keep` as written: without any vertical velocity the
      vertical rows are dropped from the `sz_rotation[0]` rows, otherwise
      the kept rows are `np.arange(0, sz_rotation[1])`, a range over the
      column count. */
  function StationRowKeepAsWritten(upVel: seq<real>, rows: nat, cols: nat): (r: seq<nat>)
    ensures SumAbs(upVel) == 0.0 ==> r == HorizontalRows(rows)
    ensures SumAbs(upVel) != 0.0 ==> r == Range(0, cols)
  {
    if SumAbs(upVel) == 0.0 then HorizontalRows(rows) else Range(0, cols)
  }

  /** With a vertical velocity and more columns than rows, the as-written
      selection keeps row indices past the last station row. */
  lemma StationRowKeepPastRows()
    ensures var r := StationRowKeepAsWritten([1.0], 6, 9);
            |r| == 9 && r[8] == 8 && r[8] >= 6
  {
  }

  /** `station_row_keep` with the range over the `sz_rotation[0]` rows in
      both branches: every kept index is a row; with no vertical velocity
      exactly the non-vertical rows are kept, otherwise all of them. */
  function StationRowKeep(upVel: seq<real>, rows: nat, cols: nat): (r: seq<nat>)
    ensures StrictlyIncreasing(r)
    ensures forall k :: 0 <= k < |r| ==> r[k] < rows
    ensures (forall k :: 0 <= k < |upVel| ==> upVel[k] == 0.0) ==>
              forall j :: 0 <= j < rows ==> (j in r <==> j % 3 != 2)
    ensures (exists k :: 0 <= k < |upVel| && upVel[k] != 0.0) ==>
              |r| == rows && forall k :: 0 <= k < |r| ==> r[k] == k
  {
    if SumAbs(upVel) == 0.0 then HorizontalRows(rows) else Range(0, rows)
  }

  /** Coordinates shared by a GPS station and an InSAR point: the columns
      that `merge_geodetic_data` concatenates. */
  datatype Location = Location(lon: real, lat: real, depth: real, x: real, y: real, z: real, blockLabel: int)

  datatype Station = Station(loc: Location, eastVel: real, northVel: real, upVel: real,
                             eastSig: real, northSig: real, upSig: real)

  datatype SarPoint = SarPoint(loc: Location, losChange: real, losSig: real)

  /** The fields `merge_geodetic_data` sets on the assembly. */
  datatype GeodeticData = GeodeticData(
    nStations: nat, nSar: nat,
    eastVel: seq<real>, northVel: seq<real>, upVel: seq<real>,
    eastSig: seq<real>, northSig: seq<real>, upSig: seq<real>,
    losChange: seq<real>, losSig: seq<real>,
    locs: seq<Location>, sarCoordinateIdx: seq<nat>)

  /** `merge_geodetic_data(assembly, station, sar)`: station columns are
      copied, coordinates are stations first and then InSAR points, and
      `sar_coordinate_idx` is `[n_stations, n_stations + n_sar)`. */
  function MergeGeodeticData(station: seq<Station>, sar: seq<SarPoint>): (d: GeodeticData)
    ensures d.nStations == |station| && d.nSar == |sar|
    ensures |d.eastVel| == |d.northVel| == |d.upVel| == |station|
    ensures |d.eastSig| == |d.northSig| == |d.upSig| == |station|
    ensures forall k :: 0 <= k < |station| ==>
              d.eastVel[k] == station[k].eastVel && d.northVel[k] == station[k].northVel &&
              d.upVel[k] == station[k].upVel && d.eastSig[k] == station[k].eastSig &&
              d.northSig[k] == station[k].northSig && d.upSig[k] == station[k].upSig
    ensures |d.losChange| == |d.losSig| == |sar|
    ensures forall k :: 0 <= k < |sar| ==> d.losChange[k] == sar[k].losChange && d.losSig[k] == sar[k].losSig
    ensures |d.locs| == |station| + |sar|
    ensures forall k :: 0 <= k < |station| ==> d.locs[k] == station[k].loc
    ensures forall k :: 0 <= k < |sar| ==> d.locs[|station| + k] == sar[k].loc
    ensures |d.sarCoordinateIdx| == |sar|
  {
    GeodeticData(
      |station|, |sar|,
      seq(|station|, k requires 0 <= k < |station| => station[k].eastVel),
      seq(|station|, k requires 0 <= k < |station| => station[k].northVel),
      seq(|station|, k requires 0 <= k < |station| => station[k].upVel),
      seq(|station|, k requires 0 <= k < |station| => station[k].eastSig),
      seq(|station|, k requires 0 <= k < |station| => station[k].northSig),
      seq(|station|, k requires 0 <= k < |station| => station[k].upSig),
      seq(|sar|, k requires 0 <= k < |sar| => sar[k].losChange),
      seq(|sar|, k requires 0 <= k < |sar| => sar[k].losSig),
      seq(|station|, k requires 0 <= k < |station| => station[k].loc) +
        seq(|sar|, k requires 0 <= k < |sar| => sar[k].loc),
      Range(|station|, |station| + |sar|))
  }

  /** `sar_coordinate_idx` points at exactly the InSAR coordinates: entry k
      is the row of InSAR point k, and no entry is a station row. */
  lemma SarCoordinateIdxPicksSar(station: seq<Station>, sar: seq<SarPoint>)
    ensures var d := MergeGeodeticData(station, sar);
            forall k :: 0 <= k < |sar| ==>
              |station| <= d.sarCoordinateIdx[k] < |d.locs| && d.locs[d.sarCoordinateIdx[k]] == sar[k].loc
  {
    var d := MergeGeodeticData(station, sar);
    forall k | 0 <= k < |sar|
      ensures |station| <= d.sarCoordinateIdx[k] < |d.locs| && d.locs[d.sarCoordinateIdx[k]] == sar[k].loc
    {
      assert d.sarCoordinateIdx[k] == |station| + k;
    }
  }

  /** The slip-rate columns of one segment: strike-slip (component 0),
      dip-slip (1) and tensile-slip (2) rate, uncertainty and flag. */
  datatype SlipRates = SlipRates(ssRate: real, dsRate: real, tsRate: real,
                                 ssSig: real, dsSig: real, tsSig: real,
                                 ssFlag: int, dsFlag: int, tsFlag: int)

  function Rate(s: SlipRates, c: nat): real
    requires c < 3
  {
    if c == 0 then s.ssRate else if c == 1 then s.dsRate else s.tsRate
  }

  function Sig(s: SlipRates, c: nat): real
    requires c < 3
  {
    if c == 0 then s.ssSig else if c == 1 then s.dsSig else s.tsSig
  }

  function Flag(s: SlipRates, c: nat): int
    requires c < 3
  {
    if c == 0 then s.ssFlag else if c == 1 then s.dsFlag else s.tsFlag
  }

  /** `np.concatenate((ss_rate_flag, ds_rate_flag, ts_rate_flag))`. */
  function ConcatFlags(segs: seq<SlipRates>): (f: seq<int>)
    ensures |f| == 3 * |segs|
    ensures forall i, c :: 0 <= i < |segs| && 0 <= c < 3 ==> f[Stacked(|segs|, i, c)] == Flag(segs[i], c)
  {
    seq(3 * |segs|, p requires 0 <= p < 3 * |segs| => Flag(segs[OffsetOf(|segs|, p)], PartOf(|segs|, p)))
  }

  /** The values `np.concatenate((a_0, a_1, a_2))[idx]` for positions idx of the stack. */
  function SelectRates(segs: seq<SlipRates>, idx: seq<nat>): (v: seq<real>)
    requires forall k :: 0 <= k < |idx| ==> idx[k] < 3 * |segs|
    ensures |v| == |idx|
    ensures forall k :: 0 <= k < |idx| ==> v[k] == Rate(segs[OffsetOf(|segs|, idx[k])], PartOf(|segs|, idx[k]))
  {
    seq(|idx|, k requires 0 <= k < |idx| => Rate(segs[OffsetOf(|segs|, idx[k])], PartOf(|segs|, idx[k])))
  }

  function SelectSigs(segs: seq<SlipRates>, idx: seq<nat>): (v: seq<real>)
    requires forall k :: 0 <= k < |idx| ==> idx[k] < 3 * |segs|
    ensures |v| == |idx|
    ensures forall k :: 0 <= k < |idx| ==> v[k] == Sig(segs[OffsetOf(|segs|, idx[k])], PartOf(|segs|, idx[k]))
  {
    seq(|idx|, k requires 0 <= k < |idx| => Sig(segs[OffsetOf(|segs|, idx[k])], PartOf(|segs|, idx[k])))
  }

  /** The selected constraints: their stack positions, rates, uncertainties,
      and the rows of the 3n-row slip-rate partials kept for them. */
  datatype SlipRateSelection = SlipRateSelection(idx: seq<nat>, rates: seq<real>, sigmas: seq<real>, partialRows: seq<nat>)

  /** `slip_rate_constraints` as written: the rows of the partials kept are
      the stack positions `c * n + i` themselves, although row `3 * i + c` of
      the partials belongs to component c of segment i. */
  function SlipRateConstraintsAsWritten(segs: seq<SlipRates>): (s: SlipRateSelection)
    ensures s.idx == FlaggedIndices(ConcatFlags(segs)) && s.partialRows == s.idx
    ensures |s.rates| == |s.sigmas| == |s.idx|
  {
    var idx := FlaggedIndices(ConcatFlags(segs));
    SlipRateSelection(idx, SelectRates(segs, idx), SelectSigs(segs, idx), idx)
  }

  /** Two segments, the second with a strike-slip constraint: the as-written
      selection keeps the rate of segment 1 but row 1 of the partials, the
      dip-slip row of segment 0. */
  lemma SlipRateRowMismatch()
    ensures var free := SlipRates(0.0, 0.0, 0.0, 1.0, 1.0, 1.0, 0, 0, 0);
            var fixed := SlipRates(5.0, 0.0, 0.0, 1.0, 1.0, 1.0, 1, 0, 0);
            var s := SlipRateConstraintsAsWritten([free, fixed]);
            s.idx == [1] && s.rates == [5.0] && s.partialRows == [1] &&
            Flat(3, 1, 0) == 3 && Flat(3, 0, 1) == 1
  {
    var free := SlipRates(0.0, 0.0, 0.0, 1.0, 1.0, 1.0, 0, 0, 0);
    var fixed := SlipRates(5.0, 0.0, 0.0, 1.0, 1.0, 1.0, 1, 0, 0);
    var f := ConcatFlags([free, fixed]);
    assert f[Stacked(2, 1, 0)] == 1;
    assert f == [0, 1, 0, 0, 0, 0] by {
      assert f[Stacked(2, 0, 0)] == 0 && f[Stacked(2, 0, 1)] == 0 && f[Stacked(2, 1, 1)] == 0;
      assert f[Stacked(2, 0, 2)] == 0 && f[Stacked(2, 1, 2)] == 0;
    }
    FlaggedIndicesSingle(f, 1);
  }

  /** `slip_rate_constraints` keeping, for stack position `c * n + i`, row
      `3 * i + c` of the partials. */
  function SlipRateConstraints(segs: seq<SlipRates>): (s: SlipRateSelection)
    ensures s.idx == FlaggedIndices(ConcatFlags(segs))
    ensures |s.rates| == |s.sigmas| == |s.partialRows| == |s.idx|
  {
    var idx := FlaggedIndices(ConcatFlags(segs));
    SlipRateSelection(idx, SelectRates(segs, idx), SelectSigs(segs, idx),
      seq(|idx|, k requires 0 <= k < |idx| => Flat(3, OffsetOf(|segs|, idx[k]), PartOf(|segs|, idx[k]))))
  }

  /** Every kept constraint k is a flagged component c of a segment i: its
      rate and uncertainty are that component's, and the partials row kept
      with it is row `3 * i + c`. */
  lemma SlipRateConstraintAgrees(segs: seq<SlipRates>, k: nat)
    requires k < |SlipRateConstraints(segs).idx|
    ensures var s := SlipRateConstraints(segs);
            exists i, c :: 0 <= i < |segs| && 0 <= c < 3 && Flag(segs[i], c) == 1 &&
              s.rates[k] == Rate(segs[i], c) && s.sigmas[k] == Sig(segs[i], c) &&
              s.partialRows[k] == Flat(3, i, c)
  {
    var s := SlipRateConstraints(segs);
    var n := |segs|;
    var f := ConcatFlags(segs);
    var p := s.idx[k];
    var i, c := OffsetOf(n, p), PartOf(n, p);
    assert p in s.idx && p < |f|;
    assert f[Stacked(n, i, c)] == Flag(segs[i], c) == 1;
    assert s.rates[k] == Rate(segs[i], c) && s.sigmas[k] == Sig(segs[i], c);
    assert s.partialRows[k] == Flat(3, i, c);
  }

  /** Every flagged component c of a segment i is kept, with row `3 * i + c`
      of the partials and its own rate. */
  lemma SlipRateConstraintKept(segs: seq<SlipRates>, i: nat, c: nat)
    requires i < |segs| && c < 3 && Flag(segs[i], c) == 1
    ensures var s := SlipRateConstraints(segs);
            exists k :: 0 <= k < |s.idx| && s.partialRows[k] == Flat(3, i, c) &&
              s.rates[k] == Rate(segs[i], c) && s.sigmas[k] == Sig(segs[i], c)
  {
    var s := SlipRateConstraints(segs);
    var n := |segs|;
    var f := ConcatFlags(segs);
    var p := Stacked(n, i, c);
    assert f[p] == 1;
    var k :| 0 <= k < |s.idx| && s.idx[k] == p;
    StackedInverse(n, i, c);
    assert s.partialRows[k] == Flat(3, i, c);
  }
}
