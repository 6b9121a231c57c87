/** Ordered boundary of a fault mesh (`get_ordered_edge_nodes`).

    The boundary edges are the sorted sides that occur exactly once among the 3n
    sides of the mesh, in lexicographic order (`np.unique(..., axis=0)` with
    `return_counts`). Starting from the smallest one, the walk repeatedly looks
    for the cells holding the previous row's second node outside the row used
    last; exactly one must be found, and that edge is appended, flipped when the
    node sits in its second column. Any other number of candidates, or an empty
    boundary, makes numpy raise; the model returns None then. */
module EdgeNodes {
  import opened Wrappers
  import opened MeshAdjacency

  /** A directed row of `ordered_edge_nodes`: from node a to node b. */
  datatype Edge = Edge(a: int, b: int)

  /** Strict lexicographic order on sides, the row order of `np.unique(axis=0)`. */
  predicate Less(x: Side, y: Side)
  {
    x.lo < y.lo || (x.lo == y.lo && x.hi < y.hi)
  }

  predicate SortedStrict(s: seq<Side>)
  {
    forall i, j :: 0 <= i < j < |s| ==> Less(s[i], s[j])
  }

  /** Inserts x into a strictly sorted list of sides unless it is already there. */
  function Insert(s: seq<Side>, x: Side): (r: seq<Side>)
    requires SortedStrict(s)
    ensures SortedStrict(r)
    ensures forall y :: y in r <==> y in s || y == x
  {
    if s == [] then [x]
    else if x == s[0] then s
    else if Less(x, s[0]) then [x] + s
    else
      var rest := Insert(s[1..], x);
      assert forall y :: y in rest ==> Less(s[0], y);
      [s[0]] + rest
  }

  /** The sorted distinct sides among the first k stacked sides that occur exactly
      once in the whole stack. */
  function UniqueOnceUpTo(sides: seq<Side>, k: nat): (r: seq<Side>)
    requires k <= |sides|
    ensures SortedStrict(r)
    ensures forall x :: x in r <==> x in sides[..k] && Count(sides, x) == 1
  {
    if k == 0 then []
    else
      var r := UniqueOnceUpTo(sides, k - 1);
      assert sides[..k] == sides[..k - 1] + [sides[k - 1]];
      if Count(sides, sides[k - 1]) == 1 then Insert(r, sides[k - 1]) else r
  }

  /** `edge_nodes = unique_sides[np.where(sides_count == 1)]`. */
  function BoundaryEdges(sides: seq<Side>): (r: seq<Side>)
  {
    UniqueOnceUpTo(sides, |sides|)
  }

  /** The boundary edges are sorted, distinct, and exactly the sides that occur once. */
  lemma BoundaryEdgesExact(sides: seq<Side>)
    ensures SortedStrict(BoundaryEdges(sides))
    ensures forall x :: x in BoundaryEdges(sides) <==> x in sides && Count(sides, x) == 1
  {
    assert sides[..|sides|] == sides;
  }

  /** The first row of the walk is the lexicographically smallest boundary edge. */
  lemma FirstBoundaryEdgeSmallest(sides: seq<Side>, x: Side)
    requires x in BoundaryEdges(sides)
    ensures x == BoundaryEdges(sides)[0] || Less(BoundaryEdges(sides)[0], x)
  {
    var edges := BoundaryEdges(sides);
    var i :| 0 <= i < |edges| && edges[i] == x;
    assert i == 0 || Less(edges[0], edges[i]);
  }

  /** Row e, read in either direction. */
  predicate Orientation(e: Edge, s: Side)
  {
    (e.a == s.lo && e.b == s.hi) || (e.a == s.hi && e.b == s.lo)
  }

  /** The cells (row, column) of `edges` below row k holding `node`, outside row
      `lastRow`, in row-major order: the filtered result of `np.where(edge_nodes == node)`.
      Every listed cell holds the node, every such cell is listed, and the
      cells are strictly increasing by (row, column) (`CandidatesComplete`, `CandidatesOrdered`). */
  function Candidates(edges: seq<Side>, node: int, lastRow: int, k: nat): (c: seq<(nat, nat)>)
    requires k <= |edges|
    ensures forall i :: 0 <= i < |c| ==>
              c[i].0 < k && c[i].0 != lastRow && c[i].1 < 2 &&
              (if c[i].1 == 0 then edges[c[i].0].lo else edges[c[i].0].hi) == node
  {
    if k == 0 then []
    else
      var row := k - 1;
      var here := (if edges[row].lo == node then [(row, 0)] else []) +
                  (if edges[row].hi == node then [(row, 1)] else []);
      Candidates(edges, node, lastRow, k - 1) + (if row == lastRow then [] else here)
  }

  /** Cell (row, col) of `edges`: column 0 is `lo`, column 1 is `hi`. */
  function Cell(edges: seq<Side>, row: nat, col: nat): int
    requires row < |edges|
  {
    if col == 0 then edges[row].lo else edges[row].hi
  }

  /** Cell x comes strictly before cell y in row-major order. */
  predicate CellBefore(x: (nat, nat), y: (nat, nat))
  {
    x.0 < y.0 || (x.0 == y.0 && x.1 < y.1)
  }

  /** The cells of c are strictly increasing in row-major order. */
  predicate RowMajor(c: seq<(nat, nat)>)
  {
    forall i, j :: 0 <= i < j < |c| ==> CellBefore(c[i], c[j])
  }

  /** Every cell below row k outside `lastRow` holding `node` is a candidate. */
  lemma CandidatesComplete(edges: seq<Side>, node: int, lastRow: int, k: nat)
    requires k <= |edges|
    ensures forall row: nat, col: nat ::
              (row < k && row != lastRow && col < 2 && Cell(edges, row, col) == node) ==>
                (row, col) in Candidates(edges, node, lastRow, k)
  {
    forall row: nat, col: nat | row < k && row != lastRow && col < 2 && Cell(edges, row, col) == node {
      CandidateListed(edges, node, lastRow, k, row, col);
    }
  }

  /** One cell of CandidatesComplete, by induction on k. */
  lemma {:induction false} CandidateListed(edges: seq<Side>, node: int, lastRow: int, k: nat, row: nat, col: nat)
    requires k <= |edges| && row < k && row != lastRow && col < 2 && Cell(edges, row, col) == node
    ensures (row, col) in Candidates(edges, node, lastRow, k)
  {
    var top := k - 1;
    var prev := Candidates(edges, node, lastRow, top);
    var here := (if edges[top].lo == node then [(top, 0)] else []) +
                (if edges[top].hi == node then [(top, 1)] else []);
    assert Candidates(edges, node, lastRow, k) == prev + (if top == lastRow then [] else here);
    if row < top {
      CandidateListed(edges, node, lastRow, top, row, col);
      InLeftOfConcat(prev, here, (row, col));
    } else if col == 0 {
      assert here[0] == (row, 0);
    } else {
      assert here[|here| - 1] == (row, 1);
    }
  }

  lemma InLeftOfConcat(a: seq<(nat, nat)>, b: seq<(nat, nat)>, x: (nat, nat))
    requires x in a
    ensures x in a + b && x in a + []
  {
    var i :| 0 <= i < |a| && a[i] == x;
    assert (a + b)[i] == x && (a + [])[i] == x;
  }

  /** The candidates are listed in row-major order, as `np.where` lists them. */
  lemma {:induction false} CandidatesOrdered(edges: seq<Side>, node: int, lastRow: int, k: nat)
    requires k <= |edges|
    ensures RowMajor(Candidates(edges, node, lastRow, k))
  {
    if k > 0 {
      var row := k - 1;
      var prev := Candidates(edges, node, lastRow, row);
      CandidatesOrdered(edges, node, lastRow, row);
      assert forall t :: 0 <= t < |prev| ==> prev[t].0 < row;
      var here := (if edges[row].lo == node then [(row, 0)] else []) +
                  (if edges[row].hi == node then [(row, 1)] else []);
      var tail: seq<(nat, nat)> := if row == lastRow then [] else here;
      assert Candidates(edges, node, lastRow, k) == prev + tail;
      RowCellsRowMajor(tail, row, edges[row].lo == node, edges[row].hi == node, row == lastRow);
      ConcatRowMajor(prev, tail, row);
    }
  }

  /** The cells of one row, column 0 before column 1, are row-major. */
  lemma RowCellsRowMajor(tail: seq<(nat, nat)>, row: nat, lo: bool, hi: bool, skip: bool)
    requires tail == if skip then [] else (if lo then [(row, 0)] else []) + (if hi then [(row, 1)] else [])
    ensures RowMajor(tail) && forall t :: 0 <= t < |tail| ==> tail[t].0 == row
  {
  }

  /** Two row-major lists, every row of the first below `row` and every row
      of the second equal to it, stay row-major when joined. */
  lemma ConcatRowMajor(a: seq<(nat, nat)>, b: seq<(nat, nat)>, row: nat)
    requires RowMajor(a) && RowMajor(b)
    requires forall t :: 0 <= t < |a| ==> a[t].0 < row
    requires forall t :: 0 <= t < |b| ==> b[t].0 == row
    ensures RowMajor(a + b)
  {
    var c := a + b;
    forall i, j | 0 <= i < j < |c|
      ensures CellBefore(c[i], c[j])
    {
      if j < |a| {
        assert c[i] == a[i] && c[j] == a[j];
      } else if i < |a| {
        assert c[i] == a[i] && c[j] == b[j - |a|];
      } else {
        assert c[i] == b[i - |a|] && c[j] == b[j - |a|];
      }
    }
  }

  /** The rows below k other than `lastRow` that touch `node`. */
  function RowsWith(edges: seq<Side>, node: int, lastRow: int, k: nat): set<nat>
    requires k <= |edges|
  {
    set row: nat | row < k && row != lastRow && (edges[row].lo == node || edges[row].hi == node)
  }

  /** No boundary edge joins a node to itself. */
  predicate NoSelfLoops(edges: seq<Side>)
  {
    forall row :: 0 <= row < |edges| ==> edges[row].lo != edges[row].hi
  }

  /** Every node of a boundary edge lies on exactly two boundary edges: the
      boundary is a union of disjoint cycles. */
  predicate TwoRegular(edges: seq<Side>)
  {
    && NoSelfLoops(edges)
    && forall row :: 0 <= row < |edges| ==>
         |RowsWith(edges, edges[row].lo, -1, |edges|)| == 2 &&
         |RowsWith(edges, edges[row].hi, -1, |edges|)| == 2
  }

  /** Without self-loops each touching row yields one candidate cell. */
  lemma {:induction false} CandidatesCount(edges: seq<Side>, node: int, lastRow: int, k: nat)
    requires k <= |edges| && NoSelfLoops(edges)
    ensures |Candidates(edges, node, lastRow, k)| == |RowsWith(edges, node, lastRow, k)|
  {
    if k > 0 {
      CandidatesCount(edges, node, lastRow, k - 1);
      RowsWithStep(edges, node, lastRow, k);
    }
  }

  /** Row k - 1 joins the rows below k - 1 when it touches `node` and is not `lastRow`. */
  lemma RowsWithStep(edges: seq<Side>, node: int, lastRow: int, k: nat)
    requires 0 < k <= |edges|
    ensures var row := k - 1;
            |RowsWith(edges, node, lastRow, k)| ==
              |RowsWith(edges, node, lastRow, k - 1)| +
              (if row != lastRow && (edges[row].lo == node || edges[row].hi == node) then 1 else 0)
  {
    var row := k - 1;
    var below := RowsWith(edges, node, lastRow, k - 1);
    var here := RowsWith(edges, node, lastRow, k);
    if row != lastRow && (edges[row].lo == node || edges[row].hi == node) {
      assert here == below + {row} by {
        forall x | x in here ensures x in below + {row} {
          assert x < k;
        }
      }
      assert row !in below;
    } else {
      assert here == below by {
        forall x | x in here ensures x in below {
          assert x < k && x != row;
        }
      }
    }
  }

  /** On a two-regular boundary, a node of the row used last has exactly one candidate. */
  lemma UniqueCandidate(edges: seq<Side>, lastRow: nat, node: int)
    requires TwoRegular(edges) && lastRow < |edges|
    requires node == edges[lastRow].lo || node == edges[lastRow].hi
    ensures |Candidates(edges, node, lastRow, |edges|)| == 1
  {
    CandidatesCount(edges, node, lastRow, |edges|);
    var all := RowsWith(edges, node, -1, |edges|);
    assert RowsWith(edges, node, lastRow, |edges|) == all - {lastRow};
    assert lastRow in all;
  }

  /** A step without exactly one candidate shows that the boundary is not two-regular. */
  lemma NoCandidateNotRegular(edges: seq<Side>, lastRow: nat, node: int)
    requires lastRow < |edges|
    requires node == edges[lastRow].lo || node == edges[lastRow].hi
    requires |Candidates(edges, node, lastRow, |edges|)| != 1
    ensures !TwoRegular(edges)
  {
    if TwoRegular(edges) {
      UniqueCandidate(edges, lastRow, node);
      assert false;
    }
  }

  /** One step of the walk from `node`, leaving row `lastRow`: the row of the
      only candidate cell and that row read from `node` onwards; None when there
      is no candidate or more than one. */
  function NextStep(edges: seq<Side>, node: int, lastRow: int): (r: Option<(nat, Edge)>)
    ensures r.None? <==> |Candidates(edges, node, lastRow, |edges|)| != 1
    ensures r.Some? ==> r.value.0 < |edges| && r.value.0 != lastRow &&
                        r.value.1.a == node && Orientation(r.value.1, edges[r.value.0])
  {
    var cands := Candidates(edges, node, lastRow, |edges|);
    if |cands| != 1 then None
    else
      var (row, col) := cands[0];
      Some((row, if col == 1 then Edge(edges[row].hi, edges[row].lo) else Edge(edges[row].lo, edges[row].hi)))
  }

  /** The walk along the boundary edges. On success the result has one row per
      boundary edge, starts with the smallest edge, and each later row is some
      boundary edge, possibly flipped, that starts where the previous row ends and
      differs from the edge used just before. It fails on an empty boundary (numpy
      raises on `edge_nodes[0, :]`) and whenever a step finds no or several
      candidates (numpy raises there too), which never happens on a non-empty
      two-regular boundary. */
  method OrderEdgeNodes(edges: seq<Side>) returns (r: Option<seq<Edge>>, ghost rows: seq<nat>)
    ensures edges == [] ==> r.None?
    ensures |edges| > 0 && TwoRegular(edges) ==> r.Some?
    ensures r.Some? ==> |r.value| == |edges| && IsWalk(edges, r.value, rows)
  {
    rows := [];
    if |edges| == 0 {
      return None, rows;
    }
    var m := |edges|;
    var ordered := new Edge[m](_ => Edge(0, 0));
    ordered[0] := Edge(edges[0].lo, edges[0].hi);
    var lastRow := 0;
    rows := [0];
    assert ordered[..1] == [Edge(edges[0].lo, edges[0].hi)];
    for j := 1 to m
      invariant |rows| == j && lastRow == rows[j - 1]
      invariant IsWalk(edges, ordered[..j], rows)
    {
      var node := ordered[j - 1].b;
      assert ordered[..j][j - 1] == ordered[j - 1];
      var step := NextStep(edges, node, lastRow);
      if step.None? {
        NoCandidateNotRegular(edges, lastRow, node);
        return None, rows;
      }
      var (row, next) := step.value;
      ghost var w := ordered[..j];
      ordered[j] := next;
      assert ordered[..j + 1] == w + [next];
      WalkStep(edges, w, rows, row, next);
      lastRow := row;
      rows := rows + [row];
    }
    assert ordered[..m] == ordered[..];
    r := Some(ordered[..]);
  }

  /** The rows of a walk along the boundary: it starts with the smallest edge,
      row k is boundary edge `rows[k]` read in one of its two directions, and
      each later row starts where the previous one ends, on a different edge. */
  ghost predicate IsWalk(edges: seq<Side>, w: seq<Edge>, rows: seq<nat>)
  {
    && |w| == |rows| > 0 && |edges| > 0
    && w[0] == Edge(edges[0].lo, edges[0].hi)
    && (forall k :: 0 <= k < |w| ==> rows[k] < |edges| && Orientation(w[k], edges[rows[k]]))
    && (forall k :: 1 <= k < |w| ==> w[k].a == w[k - 1].b && rows[k] != rows[k - 1])
  }

  /** Appending a step from the last node along another edge extends a walk. */
  lemma WalkStep(edges: seq<Side>, w: seq<Edge>, rows: seq<nat>, row: nat, next: Edge)
    requires IsWalk(edges, w, rows)
    requires row < |edges| && row != rows[|rows| - 1]
    requires next.a == w[|w| - 1].b && Orientation(next, edges[row])
    ensures IsWalk(edges, w + [next], rows + [row])
  {
  }

  /** A fault mesh; the walk stores its ordered boundary in `orderedEdgeNodes`. */
  class Mesh {
    const verts: seq<Triangle>
    var orderedEdgeNodes: seq<Edge>

    constructor (verts: seq<Triangle>)
      ensures this.verts == verts && orderedEdgeNodes == []
    {
      this.verts := verts;
      orderedEdgeNodes := [];
    }

    /** The mesh's boundary edges. */
    function Boundary(): seq<Side>
    {
      BoundaryEdges(Sides(verts))
    }

    /** What a successful walk leaves in `orderedEdgeNodes`: one row per
        boundary edge, forming a walk in which each row lies on a different
        boundary edge from the row before it. */
    ghost predicate HasOrderedBoundary()
      reads this
    {
      && |orderedEdgeNodes| == |Boundary()|
      && exists rows :: IsWalk(Boundary(), orderedEdgeNodes, rows)
    }

    /** The body of the loop over meshes: walk this mesh's boundary and store it. */
    method SetOrderedEdgeNodes() returns (ok: bool)
      modifies this
      ensures ok ==> HasOrderedBoundary()
      ensures !ok ==> orderedEdgeNodes == old(orderedEdgeNodes)
      ensures |Boundary()| > 0 && TwoRegular(Boundary()) ==> ok
    {
      var r, rows := OrderEdgeNodes(Boundary());
      ok := r.Some?;
      if ok {
        orderedEdgeNodes := r.value;
        assert IsWalk(Boundary(), orderedEdgeNodes, rows);
      }
    }
  }

  /** `get_ordered_edge_nodes`: walks every mesh in turn; the first failing walk
      raises, which leaves the meshes after it untouched. */
  method GetOrderedEdgeNodes(meshes: seq<Mesh>) returns (ok: bool)
    modifies set i | 0 <= i < |meshes| :: meshes[i]
    ensures ok ==> forall i :: 0 <= i < |meshes| ==> meshes[i].HasOrderedBoundary()
    ensures (forall i :: 0 <= i < |meshes| ==> |meshes[i].Boundary()| > 0 && TwoRegular(meshes[i].Boundary())) ==> ok
  {
    ok := true;
    for i := 0 to |meshes|
      invariant ok
      invariant forall k :: 0 <= k < i ==> meshes[k].HasOrderedBoundary()
    {
      var done := meshes[i].SetOrderedEdgeNodes();
      if !done {
        return false;
      }
    }
  }
}
