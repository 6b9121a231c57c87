/** Side sharing between the triangular elements of a fault mesh (`get_shared_sides`).

    The 3n sides of the n elements are stacked side-number-major, as `np.vstack`
    does: position `s * n + e` holds side s of element e, and `np.unravel_index`
    with Fortran order turns a position p back into element `p % n`, side `p / n`.
    A side occurring more than once is paired between its first and its last
    occurrence; every other entry of the n x 3 table stays -1. */
module MeshAdjacency {
  import opened Wrappers
  import opened FlatIndex

  /** A triangular element given by the indices of its three vertices. */
  datatype Triangle = Triangle(v0: int, v1: int, v2: int)

  /** A side as its sorted vertex pair (`np.sort(..., 1)`). */
  datatype Side = Side(lo: int, hi: int)

  function SortedPair(a: int, b: int): (s: Side)
    ensures s.lo <= s.hi
    ensures (s.lo == a && s.hi == b) || (s.lo == b && s.hi == a)
  {
    if a <= b then Side(a, b) else Side(b, a)
  }

  /** Side 0 joins v0 and v1, side 1 joins v1 and v2, side 2 joins v0 and v2. */
  function SideOf(t: Triangle, s: nat): Side
    requires s < 3
  {
    if s == 0 then SortedPair(t.v0, t.v1)
    else if s == 1 then SortedPair(t.v1, t.v2)
    else SortedPair(t.v0, t.v2)
  }

  function Column(tris: seq<Triangle>, s: nat): (c: seq<Side>)
    requires s < 3
    ensures |c| == |tris|
    ensures forall e :: 0 <= e < |tris| ==> c[e] == SideOf(tris[e], s)
  {
    seq(|tris|, e requires 0 <= e < |tris| => SideOf(tris[e], s))
  }

  /** All 3n sorted sides, `np.vstack((side_1, side_2, side_3))`. */
  function Sides(tris: seq<Triangle>): (r: seq<Side>)
    ensures |r| == 3 * |tris|
  {
    Column(tris, 0) + Column(tris, 1) + Column(tris, 2)
  }

  /** Position `s * n + e` of the stack holds side s of element e. */
  lemma SidesAt(tris: seq<Triangle>, e: nat, s: nat)
    requires e < |tris| && s < 3
    ensures Sides(tris)[Stacked(|tris|, e, s)] == SideOf(tris[e], s)
  {
  }

  /** The first occurrence of a side (`np.unique(..., return_index=True)`). */
  function FirstIndex(sides: seq<Side>, x: Side): (i: nat)
    requires x in sides
    ensures i < |sides| && sides[i] == x
    ensures forall j :: 0 <= j < i ==> sides[j] != x
  {
    if sides[0] == x then 0 else 1 + FirstIndex(sides[1..], x)
  }

  /** The last occurrence of a side (the same call on `np.flipud`, mapped back). */
  function LastIndex(sides: seq<Side>, x: Side): (i: nat)
    requires x in sides
    ensures i < |sides| && sides[i] == x
    ensures forall j :: i < j < |sides| ==> sides[j] != x
  {
    if sides[|sides| - 1] == x then |sides| - 1 else LastIndex(sides[..|sides| - 1], x)
  }

  /** The positions at which a side occurs. */
  function Occurrences(sides: seq<Side>, x: Side): set<nat>
  {
    set i: nat | i < |sides| && sides[i] == x
  }

  /** How often a side occurs among the stacked sides (`return_counts=True`). */
  function Count(sides: seq<Side>, x: Side): nat
  {
    |Occurrences(sides, x)|
  }

  /** The position a stacked side is paired with: its last occurrence when it is
      the first of several, its first occurrence when it is the last of
      several, and -1 otherwise. */
  function Partner(sides: seq<Side>, q: nat): (r: int)
    requires q < |sides|
    ensures r == -1 || (0 <= r < |sides| && r != q && sides[r] == sides[q])
  {
    var f := FirstIndex(sides, sides[q]);
    var l := LastIndex(sides, sides[q]);
    if f != l && q == f then l
    else if f != l && q == l then f
    else -1
  }

  /** Entry (e, s) of the table `share` built from the stacked sides of n
      elements: the element owning the paired side, or -1. */
  function Neighbour(sides: seq<Side>, n: nat, e: nat, s: nat): (r: int)
    requires |sides| == 3 * n && e < n && s < 3
    ensures r == -1 || 0 <= r < n
  {
    var p := Partner(sides, Stacked(n, e, s));
    if p == -1 then -1 else OffsetOf(n, p)
  }

  /** `get_shared_sides`: stacks the sorted sides and pairs them. */
  method GetSharedSides(tris: seq<Triangle>) returns (share: array2<int>)
    ensures share.Length0 == |tris| && share.Length1 == 3
    ensures forall e, s :: 0 <= e < |tris| && 0 <= s < 3 ==>
              share[e, s] == Neighbour(Sides(tris), |tris|, e, s)
  {
    share := PairSides(Sides(tris), |tris|);
  }

  /** Builds the n x 3 table of neighbours, initially all -1: for each side that
      occurs more than once, the first occurrence's cell receives the element of
      the last occurrence and vice versa. Sides are visited in the order of their
      first occurrence; `np.unique` visits them in lexicographic order, which gives
      the same table because no two pairs write the same cell (PairWritesDisjoint). */
  method PairSides(sides: seq<Side>, n: nat) returns (share: array2<int>)
    requires |sides| == 3 * n
    ensures share.Length0 == n && share.Length1 == 3
    ensures forall e, s :: 0 <= e < n && 0 <= s < 3 ==> share[e, s] == Neighbour(sides, n, e, s)
  {
    share := new int[n, 3]((_, _) => -1);
    for p := 0 to 3 * n
      invariant share.Length0 == n && share.Length1 == 3
      invariant forall e, s :: 0 <= e < n && 0 <= s < 3 ==> share[e, s] == PairedBelow(sides, n, p, e, s)
    {
      var f := FirstIndex(sides, sides[p]);
      var l := LastIndex(sides, sides[p]);
      if f == p && l != p {
        share[OffsetOf(n, p), PartOf(n, p)] := OffsetOf(n, l);
        share[OffsetOf(n, l), PartOf(n, l)] := OffsetOf(n, p);
      }
      forall e, s | 0 <= e < n && 0 <= s < 3
        ensures share[e, s] == PairedBelow(sides, n, p + 1, e, s)
      {
        StackedInverse(n, e, s);
        PairedStep(sides, n, p, e, s);
      }
    }
    AllPaired(sides, n);
  }

  /** Once every position has been visited, every cell holds its neighbour. */
  lemma AllPaired(sides: seq<Side>, n: nat)
    requires |sides| == 3 * n
    ensures forall e, s :: 0 <= e < n && 0 <= s < 3 ==> PairedBelow(sides, n, 3 * n, e, s) == Neighbour(sides, n, e, s)
  {
  }

  /** Entry (e, s) of the table once the sides first occurring below position
      p have been paired. */
  function PairedBelow(sides: seq<Side>, n: nat, p: nat, e: nat, s: nat): int
    requires |sides| == 3 * n && e < n && s < 3
  {
    if FirstIndex(sides, sides[Stacked(n, e, s)]) < p then Neighbour(sides, n, e, s) else -1
  }

  /** Pairing the side first occurring at p changes exactly the cells of its
      first and its last occurrence. */
  lemma PairedStep(sides: seq<Side>, n: nat, p: nat, e: nat, s: nat)
    requires |sides| == 3 * n && p < 3 * n && e < n && s < 3
    ensures var q := Stacked(n, e, s);
            var f := FirstIndex(sides, sides[p]);
            var l := LastIndex(sides, sides[p]);
            PairedBelow(sides, n, p + 1, e, s) ==
              if f == p && l != p && q == p then OffsetOf(n, l)
              else if f == p && l != p && q == l then OffsetOf(n, p)
              else PairedBelow(sides, n, p, e, s)
  {
    StackedInverse(n, e, s);
  }

  /** Some occurrence of side x lies strictly before position q. */
  predicate OccursBefore(sides: seq<Side>, x: Side, q: nat)
  {
    exists i :: 0 <= i < q && i < |sides| && sides[i] == x
  }

  /** Some occurrence of side x lies strictly after position q. */
  predicate OccursAfter(sides: seq<Side>, x: Side, q: nat)
  {
    exists j :: q < j < |sides| && sides[j] == x
  }

  /** A stacked side is left unpaired exactly when it occurs nowhere else, or when
      it is a middle occurrence of a side shared three or more times. */
  lemma PartnerAbsent(sides: seq<Side>, q: nat)
    requires q < |sides|
    ensures Partner(sides, q) == -1 <==>
              (!OccursBefore(sides, sides[q], q) && !OccursAfter(sides, sides[q], q)) ||
              (OccursBefore(sides, sides[q], q) && OccursAfter(sides, sides[q], q))
  {
    var f := FirstIndex(sides, sides[q]);
    var l := LastIndex(sides, sides[q]);
    assert OccursBefore(sides, sides[q], q) <==> f < q;
    assert OccursAfter(sides, sides[q], q) <==> q < l;
  }

  /** Pairing of positions is an involution. */
  lemma PartnerSymmetric(sides: seq<Side>, q: nat)
    requires q < |sides| && Partner(sides, q) != -1
    ensures Partner(sides, Partner(sides, q)) == q
  {
  }

  /** A side occurs once exactly when no other position holds it. */
  lemma {:induction false} CountOne(sides: seq<Side>, q: nat)
    requires q < |sides|
    ensures Count(sides, sides[q]) == 1 <==>
              !OccursBefore(sides, sides[q], q) && !OccursAfter(sides, sides[q], q)
  {
    var x := sides[q];
    var occ := Occurrences(sides, x);
    if OccursBefore(sides, x, q) {
      var i :| 0 <= i < q && sides[i] == x;
      SubsetCard({i, q}, occ);
    } else if OccursAfter(sides, x, q) {
      var j :| q < j < |sides| && sides[j] == x;
      SubsetCard({q, j}, occ);
    } else {
      assert occ == {q};
    }
  }

  /** A middle occurrence needs at least three occurrences in all. */
  lemma {:induction false} MiddleNeedsThree(sides: seq<Side>, q: nat)
    requires q < |sides|
    requires OccursBefore(sides, sides[q], q) && OccursAfter(sides, sides[q], q)
    ensures Count(sides, sides[q]) >= 3
  {
    var x := sides[q];
    var i :| 0 <= i < q && sides[i] == x;
    var j :| q < j < |sides| && sides[j] == x;
    SubsetCard({i, q, j}, Occurrences(sides, x));
  }

  lemma SubsetCard(a: set<nat>, b: set<nat>)
    requires a <= b
    ensures |a| <= |b|
  {
    assert b == a + (b - a);
  }

  /** Entry (e, s) of a mesh's table stays -1 exactly when side s of element e
      occurs nowhere else among the 3n sides, or is neither the first nor the
      last of three or more occurrences. */
  lemma {:induction false} NeighbourAbsent(tris: seq<Triangle>, e: nat, s: nat)
    requires e < |tris| && s < 3
    ensures var sides := Sides(tris);
            var q := Stacked(|tris|, e, s);
            Neighbour(sides, |tris|, e, s) == -1 <==>
              Count(sides, SideOf(tris[e], s)) == 1 ||
              (OccursBefore(sides, SideOf(tris[e], s), q) && OccursAfter(sides, SideOf(tris[e], s), q))
  {
    var sides := Sides(tris);
    var q := Stacked(|tris|, e, s);
    SidesAt(tris, e, s);
    PartnerAbsent(sides, q);
    CountOne(sides, q);
  }

  /** When no side is shared by more than two elements, an entry is -1 exactly
      when its side occurs only once among the 3n sides. */
  lemma {:induction false} NeighbourAbsentIffUnshared(tris: seq<Triangle>, e: nat, s: nat)
    requires e < |tris| && s < 3
    requires Count(Sides(tris), SideOf(tris[e], s)) <= 2
    ensures Neighbour(Sides(tris), |tris|, e, s) == -1 <==> Count(Sides(tris), SideOf(tris[e], s)) == 1
  {
    var sides := Sides(tris);
    var q := Stacked(|tris|, e, s);
    SidesAt(tris, e, s);
    NeighbourAbsent(tris, e, s);
    if OccursBefore(sides, sides[q], q) && OccursAfter(sides, sides[q], q) {
      MiddleNeedsThree(sides, q);
    }
  }

  /** Pairing is symmetric and geometric: if side s of element a is paired with
      element b, some side t of b holds the same vertex pair and is paired back with a. */
  lemma {:induction false} NeighbourSymmetric(tris: seq<Triangle>, a: nat, s: nat)
    requires a < |tris| && s < 3
    requires Neighbour(Sides(tris), |tris|, a, s) != -1
    ensures var b := Neighbour(Sides(tris), |tris|, a, s);
            exists t :: 0 <= t < 3 && Neighbour(Sides(tris), |tris|, b, t) == a &&
                        SideOf(tris[b], t) == SideOf(tris[a], s)
  {
    var n := |tris|;
    var sides := Sides(tris);
    var q := Stacked(n, a, s);
    var partner := Partner(sides, q);
    var b := OffsetOf(n, partner);
    var t := PartOf(n, partner);
    PartnerSymmetric(sides, q);
    StackedInverse(n, a, s);
    assert Stacked(n, b, t) == partner;
    assert Neighbour(sides, n, b, t) == a;
    SidesAt(tris, a, s);
    SidesAt(tris, b, t);
  }

  /** No write of the filling loop overwrites another: the two cells written for
      one shared side are distinct from the two written for any other. */
  lemma PairWritesDisjoint(sides: seq<Side>, p1: nat, p2: nat)
    requires p1 < |sides| && p2 < |sides| && p1 != p2
    requires FirstIndex(sides, sides[p1]) == p1 && FirstIndex(sides, sides[p2]) == p2
    ensures var l1 := LastIndex(sides, sides[p1]);
            var l2 := LastIndex(sides, sides[p2]);
            p1 != l2 && l1 != p2 && l1 != l2
  {
    assert sides[p1] != sides[p2];
  }
}
