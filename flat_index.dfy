/** Flat indices of two layouts used throughout: three equal parts stacked one
    after the other (`np.concatenate((a, b, c))`, `np.vstack`), where part s of
    item e sits at `s * n + e`, and row-major interleaving, where component t of
    item i sits at `width * i + t`. Both are computed here without
    multiplication, and lemmas tie them to `*`, `/` and `%`. */
module FlatIndex {
  import opened Wrappers

  /** The stacked position of item e of part s of three parts of length n, `s * n + e`. */
  function Stacked(n: nat, e: nat, s: nat): (p: nat)
    requires e < n && s < 3
    ensures p < 3 * n
  {
    if s == 0 then e else if s == 1 then n + e else n + n + e
  }

  /** The part of stacked position p, `p / n`. */
  function PartOf(n: nat, p: nat): (s: nat)
    requires p < 3 * n
    ensures s < 3
  {
    if p < n then 0 else if p < n + n then 1 else 2
  }

  /** The item of stacked position p within its part, `p % n`. */
  function OffsetOf(n: nat, p: nat): (e: nat)
    requires p < 3 * n
    ensures e < n && Stacked(n, e, PartOf(n, p)) == p
  {
    if p < n then p else if p < n + n then p - n else p - n - n
  }

  /** Decoding a stacked position gives back its item and part. */
  lemma StackedInverse(n: nat, e: nat, s: nat)
    requires e < n && s < 3
    ensures OffsetOf(n, Stacked(n, e, s)) == e && PartOf(n, Stacked(n, e, s)) == s
  {
  }

  /** OffsetOf and PartOf are `np.unravel_index(p, (n, 3), order="F")`. */
  lemma UnravelStacked(n: nat, p: nat)
    requires p < 3 * n
    ensures OffsetOf(n, p) == p % n && PartOf(n, p) == p / n
    ensures Stacked(n, p % n, p / n) == p
  {
    DivModUnique(p, n, PartOf(n, p), OffsetOf(n, p));
  }

  /** `width * i + t`, computed without multiplication (FlatIsAffine). */
  function Flat(width: nat, i: nat, t: nat): nat
  {
    if i == 0 then t else width + Flat(width, i - 1, t)
  }

  /** The length of n items of `width` components each, `width * n`. */
  function Size(width: nat, n: nat): nat
  {
    Flat(width, n, 0)
  }

  lemma {:induction false} FlatIsAffine(width: nat, i: nat, t: nat)
    ensures Flat(width, i, t) == width * i + t
  {
    if i > 0 {
      FlatIsAffine(width, i - 1, t);
    }
  }

  /** FlatIsAffine for every i at once. */
  lemma FlatIsAffineAll(width: nat, t: nat)
    ensures forall i: nat :: Flat(width, i, t) == width * i + t
  {
    forall i: nat
      ensures Flat(width, i, t) == width * i + t
    {
      FlatIsAffine(width, i, t);
    }
  }

  /** Starting one item later is moving the index by one item. */
  lemma {:induction false} FlatShift(width: nat, i: nat, t: nat)
    ensures Flat(width, i, t + width) == Flat(width, i + 1, t)
  {
    if i > 0 {
      FlatShift(width, i - 1, t);
    }
  }

  lemma {:induction false} FlatBound(width: nat, n: nat, i: nat, t: nat)
    requires i < n && t < width
    ensures Flat(width, i, t) < Flat(width, n, 0)
  {
    if i > 0 {
      FlatBound(width, n - 1, i - 1, t);
    } else if n > 1 {
      FlatBound(width, n - 1, 0, t);
    }
  }

  /** Row (or column) index of component t of element i among n elements. */
  function Idx(width: nat, n: nat, i: nat, t: nat): (r: nat)
    requires i < n && t < width
    ensures r < Size(width, n)
  {
    FlatBound(width, n, i, t);
    Flat(width, i, t)
  }

  /** Distinct (element, component) pairs have distinct indices. */
  lemma {:induction false} FlatInjective(width: nat, i: nat, t: nat, i': nat, t': nat)
    requires t < width && t' < width
    ensures Flat(width, i, t) == Flat(width, i', t') <==> i == i' && t == t'
  {
    if i > 0 && i' > 0 {
      FlatInjective(width, i - 1, t, i' - 1, t');
    } else if i > 0 {
      FlatAtLeast(width, i - 1, t);
    } else if i' > 0 {
      FlatAtLeast(width, i' - 1, t');
    }
  }

  lemma {:induction false} FlatAtLeast(width: nat, i: nat, t: nat)
    ensures Flat(width, i, t) >= t
  {
    if i > 0 {
      FlatAtLeast(width, i - 1, t);
    }
  }

  /** The only pair with the index of (i, t) is (i, t) itself. */
  lemma FlatInjectiveAt(width: nat, i: nat, t: nat)
    requires t < width
    ensures forall i', t' :: 0 <= t' < width ==> (Flat(width, i', t') == Flat(width, i, t) <==> i' == i && t' == t)
  {
    forall i': nat, t': nat | t' < width
      ensures Flat(width, i', t') == Flat(width, i, t) <==> i' == i && t' == t
    {
      FlatInjective(width, i', t', i, t);
    }
  }

  /** Every row index below `width * n` is the index of some (element, component) pair. */
  lemma {:induction false} IdxCovers(width: nat, n: nat, r: nat)
    requires r < Size(width, n)
    ensures exists i, t :: 0 <= i < n && 0 <= t < width && Idx(width, n, i, t) == r
  {
    if r < width {
      assert n > 0;
      assert Idx(width, n, 0, r) == r;
    } else {
      IdxCovers(width, n - 1, r - width);
      var i, t :| 0 <= i < n - 1 && 0 <= t < width && Idx(width, n - 1, i, t) == r - width;
      assert Idx(width, n, i + 1, t) == r;
    }
  }
}
