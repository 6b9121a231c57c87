/** Block bookkeeping around the block closure in `assign_block_labels`:
    the shoelace `polygon_area`, the segments the closure left unlabelled,
    the `area_plate_carree` column and the reordering of block rows by
    their closure label. The closure itself is not modelled: its segment
    labels, polygon vertex rings and interior-point labels are inputs. */
module Blocks {
  import opened Wrappers

  /** Index i - 1 with wrap-around: `np.roll(v, 1)[i] == v[Prev(|v|, i)]`. */
  function Prev(n: nat, i: nat): (p: nat)
    requires i < n
    ensures p < n
  {
    if i == 0 then n - 1 else i - 1
  }

  /** `np.roll(v, 1)`: the last entry moves to the front. */
  function Roll(v: seq<real>): (r: seq<real>)
    ensures |r| == |v|
    ensures forall i :: 0 <= i < |v| ==> r[i] == v[Prev(|v|, i)]
  {
    if |v| == 0 then [] else [v[|v| - 1]] + v[..|v| - 1]
  }

  function Sum(s: seq<real>): real
  {
    if |s| == 0 then 0.0 else s[0] + Sum(s[1..])
  }

  /** The entrywise products `a[i] * b[i]`. */
  function Products(a: seq<real>, b: seq<real>): (p: seq<real>)
    requires |a| == |b|
    ensures |p| == |a|
  {
    seq(|a|, i requires 0 <= i < |a| => a[i] * b[i])
  }

  /** `np.dot(a, b)`. */
  function Dot(a: seq<real>, b: seq<real>): real
    requires |a| == |b|
  {
    Sum(Products(a, b))
  }

  function Abs(r: real): real
  {
    if r < 0.0 then -r else r
  }

  /** `polygon_area(x, y) = 0.5 * |x . roll(y, 1) - y . roll(x, 1)|`. */
  function PolygonArea(x: seq<real>, y: seq<real>): (a: real)
    requires |x| == |y|
    ensures a >= 0.0
  {
    0.5 * Abs(Dot(x, Roll(y)) - Dot(y, Roll(x)))
  }

  /** The shoelace term of vertex i and the vertex before it. */
  function Term(x: seq<real>, y: seq<real>, i: nat): real
    requires |x| == |y| && i < |x|
  {
    x[i] * y[Prev(|x|, i)] - y[i] * x[Prev(|x|, i)]
  }

  function Terms(x: seq<real>, y: seq<real>): (t: seq<real>)
    requires |x| == |y|
    ensures |t| == |x| && forall i :: 0 <= i < |x| ==> t[i] == Term(x, y, i)
  {
    seq(|x|, i requires 0 <= i < |x| => Term(x, y, i))
  }

  /** The entrywise differences `s[i] - u[i]`. */
  function Differences(s: seq<real>, u: seq<real>): (d: seq<real>)
    requires |s| == |u|
    ensures |d| == |s| && forall i :: 0 <= i < |s| ==> d[i] == s[i] - u[i]
  {
    seq(|s|, i requires 0 <= i < |s| => s[i] - u[i])
  }

  /** A difference of sums is the sum of the entrywise differences. */
  lemma {:induction false} SumDifference(s: seq<real>, u: seq<real>)
    requires |s| == |u|
    ensures Sum(s) - Sum(u) == Sum(Differences(s, u))
  {
    if |s| > 0 {
      SumDifference(s[1..], u[1..]);
      assert Differences(s, u)[1..] == Differences(s[1..], u[1..]);
    }
  }

  /** The area is half the absolute cyclic sum of the shoelace terms. */
  lemma {:induction false} PolygonAreaIsShoelace(x: seq<real>, y: seq<real>)
    requires |x| == |y|
    ensures PolygonArea(x, y) == 0.5 * Abs(Sum(Terms(x, y)))
  {
    ShoelaceSum(x, y);
  }

  /** The two rolled dot products differ by the sum of the shoelace terms. */
  lemma {:induction false} ShoelaceSum(x: seq<real>, y: seq<real>)
    requires |x| == |y|
    ensures Dot(x, Roll(y)) - Dot(y, Roll(x)) == Sum(Terms(x, y))
  {
    var px, py := Products(x, Roll(y)), Products(y, Roll(x));
    SumDifference(px, py);
    var p := Differences(px, py);
    var t := Terms(x, y);
    forall i | 0 <= i < |x|
      ensures p[i] == t[i]
    {
      ShoelaceTermAt(x, y, i);
    }
    assert p == t;
  }

  lemma {:induction false} ShoelaceTermAt(x: seq<real>, y: seq<real>, i: nat)
    requires |x| == |y| && i < |x|
    ensures Products(x, Roll(y))[i] - Products(y, Roll(x))[i] == Term(x, y, i)
  {
    ProductsAt(x, Roll(y), y, Roll(x), i);
    RolledTerm(x, y, i);
  }

  lemma {:induction false} ProductsAt(a: seq<real>, b: seq<real>, c: seq<real>, d: seq<real>, i: nat)
    requires |a| == |b| == |c| == |d| && i < |a|
    ensures Products(a, b)[i] - Products(c, d)[i] == a[i] * b[i] - c[i] * d[i]
  {
  }

  lemma {:induction false} RolledTerm(x: seq<real>, y: seq<real>, i: nat)
    requires |x| == |y| && i < |x|
    ensures x[i] * Roll(y)[i] - y[i] * Roll(x)[i] == Term(x, y, i)
  {
  }

  lemma {:induction false} SumConcat(a: seq<real>, b: seq<real>)
    ensures Sum(a + b) == Sum(a) + Sum(b)
  {
    if |a| > 0 {
      SumConcat(a[1..], b);
      assert (a + b)[1..] == a[1..] + b;
      assert (a + b)[0] == a[0];
    } else {
      assert a + b == b;
    }
  }

  function Reverse(s: seq<real>): (r: seq<real>)
    ensures |r| == |s| && forall i :: 0 <= i < |s| ==> r[i] == s[|s| - 1 - i]
  {
    if |s| == 0 then [] else Reverse(s[1..]) + [s[0]]
  }

  lemma {:induction false} SumReverse(s: seq<real>)
    ensures Sum(Reverse(s)) == Sum(s)
  {
    if |s| > 0 {
      SumReverse(s[1..]);
      SumConcat(Reverse(s[1..]), [s[0]]);
    }
  }

  function Negate(s: seq<real>): (r: seq<real>)
    ensures |r| == |s| && forall i :: 0 <= i < |s| ==> r[i] == -s[i]
  {
    seq(|s|, i requires 0 <= i < |s| => -s[i])
  }

  lemma {:induction false} SumNegate(s: seq<real>)
    ensures Sum(Negate(s)) == -Sum(s)
  {
    if |s| > 0 {
      SumNegate(s[1..]);
      assert Negate(s)[1..] == Negate(s[1..]);
    }
  }

  /** Starting the ring one vertex later. */
  function RotateLeft(s: seq<real>): (r: seq<real>)
    requires |s| > 0
    ensures |r| == |s|
  {
    s[1..] + [s[0]]
  }

  /** Starting the vertex ring at another vertex leaves the area unchanged. */
  lemma {:induction false} PolygonAreaRotation(x: seq<real>, y: seq<real>)
    requires |x| == |y| > 0
    ensures PolygonArea(RotateLeft(x), RotateLeft(y)) == PolygonArea(x, y)
  {
    var t := Terms(x, y);
    var t' := Terms(RotateLeft(x), RotateLeft(y));
    assert t' == RotateLeft(t) by {
      forall i | 0 <= i < |t|
        ensures t'[i] == RotateLeft(t)[i]
      {
        RotatedTermAt(x, y, i);
      }
    }
    SumConcat(t[1..], [t[0]]);
    assert t == [t[0]] + t[1..];
    SumConcat([t[0]], t[1..]);
    PolygonAreaIsShoelace(x, y);
    PolygonAreaIsShoelace(RotateLeft(x), RotateLeft(y));
  }

  /** Term i of the rotated ring is term i + 1 of the ring, cyclically. */
  lemma {:induction false} RotatedTermAt(x: seq<real>, y: seq<real>, i: nat)
    requires |x| == |y| > 0 && i < |x|
    ensures Term(RotateLeft(x), RotateLeft(y), i) == Term(x, y, if i < |x| - 1 then i + 1 else 0)
  {
    var n := |x|;
    var k := if i < n - 1 then i + 1 else 0;
    var x', y' := RotateLeft(x), RotateLeft(y);
    assert Prev(n, k) == i;
    assert x'[i] == x[k] && y'[i] == y[k];
    assert x'[Prev(n, i)] == x[i] && y'[Prev(n, i)] == y[i];
  }

  /** The shoelace terms of the reversed ring are the negated terms, the
      first in place and the others in reverse order. */
  lemma {:induction false} TermsReverse(x: seq<real>, y: seq<real>)
    requires |x| == |y| > 0
    ensures var t := Terms(x, y);
            Terms(Reverse(x), Reverse(y)) == Negate([t[0]] + Reverse(t[1..]))
  {
    var n := |x|;
    var t := Terms(x, y);
    var t' := Terms(Reverse(x), Reverse(y));
    var u := [t[0]] + Reverse(t[1..]);
    forall i | 0 <= i < n
      ensures t'[i] == -u[i]
    {
      ReversedTermAt(x, y, i);
      if i > 0 {
        assert u[i] == t[n - i];
      }
    }
  }

  /** Term i of the reversed ring is minus term `n - i` of the ring, cyclically. */
  lemma {:induction false} ReversedTermAt(x: seq<real>, y: seq<real>, i: nat)
    requires |x| == |y| > 0 && i < |x|
    ensures Term(Reverse(x), Reverse(y), i) == -Term(x, y, if i == 0 then 0 else |x| - i)
  {
    var n := |x|;
    var k := if i == 0 then 0 else n - i;
    var x', y' := Reverse(x), Reverse(y);
    assert x'[i] == x[Prev(n, k)] && y'[i] == y[Prev(n, k)];
    assert x'[Prev(n, i)] == x[k] && y'[Prev(n, i)] == y[k];
  }

  /** The sum of `[t[0]] + Reverse(t[1..])` is the sum of t. */
  lemma {:induction false} SumReverseTail(t: seq<real>)
    requires |t| > 0
    ensures Sum([t[0]] + Reverse(t[1..])) == Sum(t)
  {
    SumConcat([t[0]], Reverse(t[1..]));
    SumReverse(t[1..]);
    assert t == [t[0]] + t[1..];
    SumConcat([t[0]], t[1..]);
  }

  /** Listing the vertices in the opposite order leaves the area unchanged. */
  lemma {:induction false} PolygonAreaReversal(x: seq<real>, y: seq<real>)
    requires |x| == |y|
    ensures PolygonArea(Reverse(x), Reverse(y)) == PolygonArea(x, y)
  {
    PolygonAreaIsShoelace(x, y);
    PolygonAreaIsShoelace(Reverse(x), Reverse(y));
    if |x| > 0 {
      var t := Terms(x, y);
      TermsReverse(x, y);
      SumNegate([t[0]] + Reverse(t[1..]));
      SumReverseTail(t);
    }
  }

  /** A vertex of a closure polygon: column 0 is longitude, column 1 latitude. */
  datatype Vertex = Vertex(lon: real, lat: real)

  function Lons(vs: seq<Vertex>): (r: seq<real>)
    ensures |r| == |vs| && forall i :: 0 <= i < |vs| ==> r[i] == vs[i].lon
  {
    seq(|vs|, i requires 0 <= i < |vs| => vs[i].lon)
  }

  function Lats(vs: seq<Vertex>): (r: seq<real>)
    ensures |r| == |vs| && forall i :: 0 <= i < |vs| ==> r[i] == vs[i].lat
  {
    seq(|vs|, i requires 0 <= i < |vs| => vs[i].lat)
  }

  /** `polygon_area(vs[:, 0], vs[:, 1])` of one closure polygon. */
  function RingArea(vs: seq<Vertex>): (a: real)
    ensures a >= 0.0
  {
    PolygonArea(Lons(vs), Lats(vs))
  }

  /** `np.union1d(np.where(east_labels < 0), np.where(west_labels < 0))`
      over the first k segments. */
  function UnprocessedBelow(west: seq<int>, east: seq<int>, k: nat): (r: seq<nat>)
    requires |west| == |east| && k <= |west|
    ensures StrictlyIncreasing(r)
    ensures forall j :: 0 <= j < |r| ==> r[j] < k
    ensures forall i :: 0 <= i < k ==> (i in r <==> west[i] < 0 || east[i] < 0)
  {
    if k == 0 then []
    else
      var front := UnprocessedBelow(west, east, k - 1);
      if west[k - 1] < 0 || east[k - 1] < 0 then front + [k - 1] else front
  }

  /** The segments the closure left without a west or an east label, sorted
      and without repetition. */
  function UnprocessedIndices(west: seq<int>, east: seq<int>): (r: seq<nat>)
    requires |west| == |east|
    ensures StrictlyIncreasing(r)
    ensures forall j :: 0 <= j < |r| ==> r[j] < |west|
    ensures forall i :: 0 <= i < |west| ==> (i in r <==> west[i] < 0 || east[i] < 0)
  {
    UnprocessedBelow(west, east, |west|)
  }

  /** `block["area_plate_carree"] = -1 * np.ones(len(block))` followed by
      `area_plate_carree.values[i] = polygon_area(...)` for each closure
      polygon i; None where indexing past the last block raises. */
  method AreaPlateCarree(nBlocks: nat, polygons: seq<seq<Vertex>>) returns (r: Option<array<real>>)
    ensures r.None? <==> |polygons| > nBlocks
    ensures r.Some? ==> fresh(r.value) && r.value.Length == nBlocks
    ensures r.Some? ==> forall i :: 0 <= i < nBlocks ==> r.value[i] == AreaOfRow(polygons, i)
  {
    var area := new real[nBlocks](_ => -1.0);
    for i := 0 to |polygons|
      invariant i <= nBlocks
      invariant forall i' :: 0 <= i' < i ==> area[i'] == AreaOfRow(polygons, i')
      invariant forall i' :: i <= i' < nBlocks ==> area[i'] == -1.0
    {
      if i >= nBlocks {
        return None;
      }
      var a := AreaOfRow(polygons, i);
      area[i] := a;
    }
    assert forall i' :: |polygons| <= i' < nBlocks ==> AreaOfRow(polygons, i') == -1.0;
    return Some(area);
  }

  /** Row i comes before row j: smaller label, or the same label and the
      smaller original index (`sort_index(level=1)` then level 0). */
  predicate KeyLess(labels: seq<int>, i: nat, j: nat)
    requires i < |labels| && j < |labels|
  {
    labels[i] < labels[j] || (labels[i] == labels[j] && i < j)
  }

  predicate SortedByKey(labels: seq<int>, s: seq<nat>)
  {
    (forall k :: 0 <= k < |s| ==> s[k] < |labels|) &&
    forall a, b :: 0 <= a < b < |s| ==> KeyLess(labels, s[a], s[b])
  }

  lemma SortedTail(labels: seq<int>, s: seq<nat>)
    requires SortedByKey(labels, s) && |s| > 0
    ensures SortedByKey(labels, s[1..])
  {
    assert forall a, b :: 0 <= a < b < |s| - 1 ==> s[1..][a] == s[a + 1] && s[1..][b] == s[b + 1];
  }

  function InsertByKey(labels: seq<int>, s: seq<nat>, x: nat): (r: seq<nat>)
    requires SortedByKey(labels, s) && x < |labels| && x !in s
    ensures SortedByKey(labels, r) && |r| == |s| + 1
    ensures forall y: nat :: y in r <==> y == x || y in s
  {
    if |s| == 0 || KeyLess(labels, x, s[0]) then [x] + s
    else
      SortedTail(labels, s);
      var rest := InsertByKey(labels, s[1..], x);
      assert s == [s[0]] + s[1..];
      assert forall j :: 0 <= j < |rest| ==> KeyLess(labels, s[0], rest[j]) by {
        forall j | 0 <= j < |rest| ensures KeyLess(labels, s[0], rest[j]) {
          assert rest[j] in rest;
          if rest[j] != x {
            var m :| 0 <= m < |s| - 1 && s[1..][m] == rest[j];
            assert s[m + 1] == rest[j];
          }
        }
      }
      [s[0]] + rest
  }

  /** The original indices below k in the order of their (label, index) keys. */
  function SortOrderBelow(labels: seq<int>, k: nat): (r: seq<nat>)
    requires k <= |labels|
    ensures SortedByKey(labels, r) && |r| == k
    ensures forall y: nat :: y in r <==> y < k
  {
    if k == 0 then [] else InsertByKey(labels, SortOrderBelow(labels, k - 1), k - 1)
  }

  /** The permutation `set_index(block_label, append=True).sort_index(level=1)`
      applies: every row exactly once, ascending by label, ties in original order. */
  function SortOrder(labels: seq<int>): (r: seq<nat>)
    ensures SortedByKey(labels, r) && |r| == |labels|
    ensures forall y: nat :: y in r <==> y < |labels|
  {
    SortOrderBelow(labels, |labels|)
  }

  /** The columns of a block row this bookkeeping writes. */
  datatype BlockRow = BlockRow(interiorLon: real, interiorLat: real, areaPlateCarree: real, blockLabel: int)

  /** Rows in SortOrder of their labels. */
  function ReorderBlocks(rows: seq<BlockRow>): (r: seq<BlockRow>)
    ensures |r| == |rows|
    ensures forall k :: 0 <= k < |r| ==> r[k] == rows[SortOrder(Labels(rows))[k]]
  {
    var order := SortOrder(Labels(rows));
    seq(|rows|, k requires 0 <= k < |rows| => rows[order[k]])
  }

  function Labels(rows: seq<BlockRow>): (l: seq<int>)
    ensures |l| == |rows| && forall i :: 0 <= i < |rows| ==> l[i] == rows[i].blockLabel
  {
    seq(|rows|, i requires 0 <= i < |rows| => rows[i].blockLabel)
  }

  /** The rows named by a list of indices. */
  function Pick(rows: seq<BlockRow>, s: seq<nat>): (r: seq<BlockRow>)
    requires forall k :: 0 <= k < |s| ==> s[k] < |rows|
    ensures |r| == |s| && forall k :: 0 <= k < |s| ==> r[k] == rows[s[k]]
  {
    seq(|s|, k requires 0 <= k < |s| => rows[s[k]])
  }

  /** Inserting an index adds its row to the picked multiset. */
  lemma {:induction false} PickInsert(rows: seq<BlockRow>, labels: seq<int>, s: seq<nat>, x: nat)
    requires |labels| == |rows| && SortedByKey(labels, s) && x < |rows| && x !in s
    ensures multiset(Pick(rows, InsertByKey(labels, s, x))) == multiset(Pick(rows, s)) + multiset{rows[x]}
  {
    if |s| == 0 || KeyLess(labels, x, s[0]) {
      PickCons(rows, x, s);
    } else {
      SortedTail(labels, s);
      assert s == [s[0]] + s[1..];
      PickInsert(rows, labels, s[1..], x);
      var rest := InsertByKey(labels, s[1..], x);
      PickCons(rows, s[0], rest);
      PickCons(rows, s[0], s[1..]);
    }
  }

  lemma PickCons(rows: seq<BlockRow>, x: nat, s: seq<nat>)
    requires x < |rows| && forall k :: 0 <= k < |s| ==> s[k] < |rows|
    ensures Pick(rows, [x] + s) == [rows[x]] + Pick(rows, s)
  {
  }

  /** The rows picked by SortOrderBelow(k) are the first k rows, as a multiset. */
  lemma {:induction false} PickSortOrderBelow(rows: seq<BlockRow>, k: nat)
    requires k <= |rows|
    ensures multiset(Pick(rows, SortOrderBelow(Labels(rows), k))) == multiset(rows[..k])
  {
    if k > 0 {
      var labels := Labels(rows);
      var below := SortOrderBelow(labels, k - 1);
      calc {
        multiset(Pick(rows, SortOrderBelow(labels, k)));
        multiset(Pick(rows, InsertByKey(labels, below, k - 1)));
        { PickInsert(rows, labels, below, k - 1); }
        multiset(Pick(rows, below)) + multiset{rows[k - 1]};
        { PickSortOrderBelow(rows, k - 1); }
        multiset(rows[..k - 1]) + multiset{rows[k - 1]};
        { assert rows[..k] == rows[..k - 1] + [rows[k - 1]]; }
        multiset(rows[..k]);
      }
    }
  }

  /** After reordering, labels are non-decreasing, rows with equal labels
      keep their relative order, and every input row appears exactly once. */
  lemma ReorderBlocksSorted(rows: seq<BlockRow>)
    ensures var r := ReorderBlocks(rows);
            forall a, b :: 0 <= a < b < |r| ==> r[a].blockLabel <= r[b].blockLabel
    ensures var order := SortOrder(Labels(rows));
            forall a, b :: 0 <= a < b < |rows| && rows[order[a]].blockLabel == rows[order[b]].blockLabel ==>
              order[a] < order[b]
    ensures multiset(ReorderBlocks(rows)) == multiset(rows)
  {
    PickSortOrderBelow(rows, |rows|);
    assert rows[..|rows|] == rows;
    assert ReorderBlocks(rows) == Pick(rows, SortOrder(Labels(rows)));
  }

  /** The area an `area_plate_carree` entry receives: polygon i's area for
      the first closure polygons, -1 for the rest. */
  function AreaOfRow(polygons: seq<seq<Vertex>>, i: nat): real
  {
    if i < |polygons| then RingArea(polygons[i]) else -1.0
  }

  /** `assign_block_labels` as written: areas are written by polygon index
      into the rows in their input order, the labels are attached, and then
      the rows are reordered by label, each carrying the area written into it. */
  function AssignBlockLabelsAsWritten(blocks: seq<BlockRow>, polygons: seq<seq<Vertex>>, labels: seq<int>): (r: Option<seq<BlockRow>>)
    requires |labels| == |blocks|
    ensures r.None? <==> |polygons| > |blocks|
    ensures r.Some? ==> (|r.value| == |blocks| &&
              forall k :: 0 <= k < |blocks| ==>
                r.value[k].areaPlateCarree == AreaOfRow(polygons, SortOrder(labels)[k]) &&
                r.value[k].blockLabel == labels[SortOrder(labels)[k]])
  {
    if |polygons| > |blocks| then None
    else
      var labelled := seq(|blocks|, i requires 0 <= i < |blocks| =>
        blocks[i].(areaPlateCarree := AreaOfRow(polygons, i), blockLabel := labels[i]));
      assert Labels(labelled) == labels;
      Some(ReorderBlocks(labelled))
  }

  /** With two blocks whose interior points fall in polygons 1 and 0, the
      first output row is labelled 0 but holds the area of polygon 1. */
  lemma AreaTravelsWithOldRow(blocks: seq<BlockRow>, p0: seq<Vertex>, p1: seq<Vertex>)
    requires |blocks| == 2
    ensures var r := AssignBlockLabelsAsWritten(blocks, [p0, p1], [1, 0]);
            r.Some? && r.value[0].blockLabel == 0 && r.value[0].areaPlateCarree == RingArea(p1) &&
            r.value[1].blockLabel == 1 && r.value[1].areaPlateCarree == RingArea(p0)
  {
    var labels := [1, 0];
    assert SortOrderBelow(labels, 1) == [0];
    assert SortOrder(labels) == [1, 0];
  }

  /** The unit right triangle and the empty ring differ in area, so the
      mismatch of AreaTravelsWithOldRow is observable. */
  lemma TriangleArea()
    ensures RingArea([Vertex(0.0, 0.0), Vertex(1.0, 0.0), Vertex(0.0, 1.0)]) == 0.5
    ensures RingArea([]) == 0.0
  {
    var x, y := [0.0, 1.0, 0.0], [0.0, 0.0, 1.0];
    assert Lons([Vertex(0.0, 0.0), Vertex(1.0, 0.0), Vertex(0.0, 1.0)]) == x;
    assert Lats([Vertex(0.0, 0.0), Vertex(1.0, 0.0), Vertex(0.0, 1.0)]) == y;
    assert Roll(y) == [1.0, 0.0, 0.0];
    assert Roll(x) == [0.0, 0.0, 1.0];
    assert Products(x, Roll(y)) == [0.0, 0.0, 0.0];
    assert Products(y, Roll(x)) == [0.0, 0.0, 1.0];
    assert Sum([0.0]) == 0.0 && Sum([1.0]) == 1.0;
    assert [0.0, 0.0, 0.0][1..] == [0.0, 0.0] && [0.0, 0.0][1..] == [0.0];
    assert [0.0, 0.0, 1.0][1..] == [0.0, 1.0] && [0.0, 1.0][1..] == [1.0];
  }

  /** `assign_block_labels` with the areas written after the reordering, so
      that output row k receives the area of closure polygon k. */
  function AssignBlockLabels(blocks: seq<BlockRow>, polygons: seq<seq<Vertex>>, labels: seq<int>): (r: Option<seq<BlockRow>>)
    requires |labels| == |blocks|
    ensures r.None? <==> |polygons| > |blocks|
    ensures r.Some? ==> (|r.value| == |blocks| &&
              forall k :: 0 <= k < |blocks| ==>
                r.value[k].areaPlateCarree == AreaOfRow(polygons, k) &&
                r.value[k].blockLabel == labels[SortOrder(labels)[k]])
  {
    if |polygons| > |blocks| then None
    else
      var labelled := seq(|blocks|, i requires 0 <= i < |blocks| => blocks[i].(blockLabel := labels[i]));
      assert Labels(labelled) == labels;
      var sorted := ReorderBlocks(labelled);
      Some(seq(|blocks|, k requires 0 <= k < |blocks| => sorted[k].(areaPlateCarree := AreaOfRow(polygons, k))))
  }

  /** Each block's interior point in a different closure polygon: labels
      are the indices 0 .. n-1 in some order. */
  predicate LabelsArePermutation(labels: seq<int>)
  {
    (forall i :: 0 <= i < |labels| ==> 0 <= labels[i] < |labels|) &&
    forall i, j :: 0 <= i < j < |labels| ==> labels[i] != labels[j]
  }

  /** When every block lies in its own polygon, the corrected assignment
      gives each row the area of the polygon its label names. */
  lemma AssignBlockLabelsAreaMatchesLabel(blocks: seq<BlockRow>, polygons: seq<seq<Vertex>>, labels: seq<int>)
    requires |labels| == |blocks| && |polygons| <= |blocks| && LabelsArePermutation(labels)
    ensures var r := AssignBlockLabels(blocks, polygons, labels);
            r.Some? && forall k :: 0 <= k < |blocks| ==>
              r.value[k].blockLabel == k && r.value[k].areaPlateCarree == AreaOfRow(polygons, r.value[k].blockLabel)
  {
    var order := SortOrder(labels);
    var l := seq(|labels|, k requires 0 <= k < |labels| => labels[order[k]]);
    assert StrictlyIncreasing(l) by {
      forall a, b | 0 <= a < b < |l| ensures l[a] < l[b] {
        assert KeyLess(labels, order[a], order[b]);
        if order[a] < order[b] {
          assert labels[order[a]] != labels[order[b]];
        } else if order[a] > order[b] {
          assert labels[order[b]] != labels[order[a]];
        }
      }
    }
    SortedRangeIsIdentity(l, |labels|);
    var r := AssignBlockLabels(blocks, polygons, labels);
    assert forall k :: 0 <= k < |blocks| ==> r.value[k].blockLabel == l[k];
  }

  /** A strictly increasing sequence of n integers in [0, n) is 0, 1, ..., n-1. */
  lemma SortedRangeIsIdentity(l: seq<int>, n: nat)
    requires |l| == n && StrictlyIncreasing(l) && forall k :: 0 <= k < n ==> 0 <= l[k] < n
    ensures forall k :: 0 <= k < n ==> l[k] == k
  {
    forall k | 0 <= k < n
      ensures l[k] == k
    {
      AtLeastIndex(l, k);
      AtMostIndex(l, k);
    }
  }

  lemma {:induction false} AtLeastIndex(l: seq<int>, k: nat)
    requires k < |l| && StrictlyIncreasing(l) && l[0] >= 0
    ensures l[k] >= k
  {
    if k > 0 {
      AtLeastIndex(l, k - 1);
    }
  }

  lemma {:induction false} AtMostIndex(l: seq<int>, k: nat)
    requires k < |l| && StrictlyIncreasing(l) && l[|l| - 1] < |l|
    ensures l[k] <= k
    decreases |l| - k
  {
    if k < |l| - 1 {
      AtMostIndex(l, k + 1);
    }
  }
}
