/** The unweighted smoothing operator of a mesh (`get_tri_smoothing_matrix_simple`).

    For n elements and n_dim components the operator is an (n_dim * n) square
    matrix. Row and column `n_dim * i + t` stand for component t of element i.
    Every diagonal entry is 3; for each of the first n_dim columns j of `share`
    holding a neighbour b of element i, the n_dim entries
    `(n_dim * i + t, n_dim * b + t)` are -1; all other entries stay 0. The matrix
    is a sparse `lil_matrix` of floats in the original; its entries here are the
    exact integers 3, -1 and 0. */
module Smoothing {
  import opened Wrappers
  import opened FlatIndex

  /** Element b is found in one of the first nDim columns of row i of `share`. */
  predicate IsNeighbour(share: array2<int>, nDim: nat, i: nat, b: int)
    reads share
    requires i < share.Length0 && nDim <= share.Length1
  {
    exists j :: 0 <= j < nDim && share[i, j] == b
  }

  /** Every entry of `share` is -1 or an element index, as `get_shared_sides` produces. */
  predicate ValidShare(share: array2<int>)
    reads share
  {
    forall i, j :: 0 <= i < share.Length0 && 0 <= j < share.Length1 ==>
      share[i, j] == -1 || 0 <= share[i, j] < share.Length0
  }

  /** No element lists itself as a neighbour in the first nDim columns. */
  predicate NoSelfNeighbour(share: array2<int>, nDim: nat)
    reads share
    requires nDim <= share.Length1
  {
    forall i, j :: 0 <= i < share.Length0 && 0 <= j < nDim ==> share[i, j] != i
  }

  /** The intended entry at row (i, t), column (b, u). */
  function SmoothingEntry(share: array2<int>, nDim: nat, i: nat, t: nat, b: nat, u: nat): int
    reads share
    requires i < share.Length0 && nDim <= share.Length1
  {
    if i == b && t == u then 3
    else if t == u && IsNeighbour(share, nDim, i, b) then -1
    else 0
  }

  /** Pass (j', i') of the double loop came before pass (j, i). */
  predicate Done(j: nat, i: nat, j': nat, i': nat)
  {
    j' < j || (j' == j && i' < i)
  }

  /** The entry after the passes before (j, i). */
  function PartialEntry(share: array2<int>, nDim: nat, j: nat, i: nat,
                        i': nat, t': nat, b': nat, u': nat): int
    reads share
    requires i' < share.Length0 && nDim <= share.Length1
  {
    if i' == b' && t' == u' && Done(j, i, t', i') then 3
    else if t' == u' && exists j' :: 0 <= j' < nDim && Done(j, i, j', i') && share[i', j'] == b' then -1
    else 0
  }

  /** `smoothing_matrix[k, m] = -1` with `k = n_dim * i + arange(n_dim)` and
      `m = n_dim * b + arange(n_dim)`: the n_dim pairs (k[t], m[t]). */
  method SetNeighbourBlock(m: array2<int>, nDim: nat, n: nat, i: nat, b: nat)
    requires m.Length0 == Size(nDim, n) && m.Length1 == Size(nDim, n) && i < n && b < n
    modifies m
    ensures forall r, c :: 0 <= r < m.Length0 && 0 <= c < m.Length1 ==>
              m[r, c] == -1 || m[r, c] == old(m[r, c])
    ensures forall i', t', b', u' :: 0 <= i' < n && 0 <= t' < nDim && 0 <= b' < n && 0 <= u' < nDim ==>
              m[Idx(nDim, n, i', t'), Idx(nDim, n, b', u')] ==
                if i' == i && b' == b && t' == u' then -1 else old(m[Idx(nDim, n, i', t'), Idx(nDim, n, b', u')])
  {
    for t := 0 to nDim
      invariant forall r, c :: 0 <= r < m.Length0 && 0 <= c < m.Length1 ==>
                  m[r, c] == -1 || m[r, c] == old(m[r, c])
      invariant forall i', t', b', u' :: 0 <= i' < n && 0 <= t' < nDim && 0 <= b' < n && 0 <= u' < nDim ==>
                  m[Idx(nDim, n, i', t'), Idx(nDim, n, b', u')] ==
                    if i' == i && b' == b && t' == u' && t' < t then -1
                    else old(m[Idx(nDim, n, i', t'), Idx(nDim, n, b', u')])
    {
      FlatInjectiveAt(nDim, i, t);
      FlatInjectiveAt(nDim, b, t);
      m[Idx(nDim, n, i, t), Idx(nDim, n, b, t)] := -1;
    }
  }

  /** Every entry is one of the three values the operator uses. */
  ghost predicate OnlyOperatorValues(m: array2<int>)
    reads m
  {
    forall r, c :: 0 <= r < m.Length0 && 0 <= c < m.Length1 ==>
      m[r, c] == 3 || m[r, c] == -1 || m[r, c] == 0
  }

  /** The matrix holds what the passes before (j, i) wrote. */
  ghost predicate MatchesPasses(m: array2<int>, share: array2<int>, nDim: nat, j: nat, i: nat)
    reads m, share
    requires nDim <= share.Length1
  {
    var n := share.Length0;
    m.Length0 == Size(nDim, n) && m.Length1 == Size(nDim, n) &&
    forall i', t', b', u' :: 0 <= i' < n && 0 <= t' < nDim && 0 <= b' < n && 0 <= u' < nDim ==>
      m[Idx(nDim, n, i', t'), Idx(nDim, n, b', u')] == PartialEntry(share, nDim, j, i, i', t', b', u')
  }

  /** Pass (j, i) of the double loop: the diagonal entry of component j of
      element i, then the -1 block of its neighbour in column j, if any. */
  method SmoothingPass(m: array2<int>, share: array2<int>, nDim: nat, j: nat, i: nat)
    requires nDim <= share.Length1 && ValidShare(share) && j < nDim && i < share.Length0
    requires m != share
    requires m.Length0 == Size(nDim, share.Length0) && m.Length1 == Size(nDim, share.Length0)
    requires OnlyOperatorValues(m)
    requires NoSelfNeighbour(share, nDim) ==> MatchesPasses(m, share, nDim, j, i)
    modifies m
    ensures OnlyOperatorValues(m)
    ensures NoSelfNeighbour(share, nDim) ==> MatchesPasses(m, share, nDim, j, i + 1)
  {
    var n := share.Length0;
    m[Idx(nDim, n, i, j), Idx(nDim, n, i, j)] := 3;
    label diagonal:
    var b := share[i, j];
    if b != -1 {
      assert 0 <= b < n;
      SetNeighbourBlock(m, nDim, n, i, b);
    }
    if NoSelfNeighbour(share, nDim) {
      assert b != i;
      forall i', t', b', u' | 0 <= i' < n && 0 <= t' < nDim && 0 <= b' < n && 0 <= u' < nDim
        ensures m[Idx(nDim, n, i', t'), Idx(nDim, n, b', u')] == PassEntry(share, nDim, j, i, i', t', b', u')
      {
        FlatInjective(nDim, i', t', i, j);
        FlatInjective(nDim, b', u', i, j);
        assert old@diagonal(m[Idx(nDim, n, i', t'), Idx(nDim, n, b', u')]) ==
          if i' == i && t' == j && b' == i && u' == j then 3 else old(m[Idx(nDim, n, i', t'), Idx(nDim, n, b', u')]);
      }
      PassStep(share, nDim, j, i);
    }
  }

  /** An entry after pass (j, i), from the entry before it. */
  function PassEntry(share: array2<int>, nDim: nat, j: nat, i: nat, i': nat, t': nat, b': nat, u': nat): int
    reads share
    requires nDim <= share.Length1 && j < nDim && i < share.Length0 && i' < share.Length0
  {
        if i' == i && t' == j && b' == i && u' == j then 3
        else if i' == i && t' == u' && b' == share[i, j] then -1
        else PartialEntry(share, nDim, j, i, i', t', b', u')
  }

  lemma PassStepAt(share: array2<int>, nDim: nat, j: nat, i: nat, i': nat, t': nat, b': nat, u': nat)
    requires nDim <= share.Length1 && j < nDim && i < share.Length0
    requires share[i, j] != i
    requires i' < share.Length0 && t' < nDim && u' < nDim
    ensures PartialEntry(share, nDim, j, i + 1, i', t', b', u') ==
        PassEntry(share, nDim, j, i, i', t', b', u')
  {
    if i' != i {
      assert forall j': nat :: Done(j, i + 1, j', i') == Done(j, i, j', i');
    } else {
      var before := exists j' :: 0 <= j' < nDim && Done(j, i, j', i') && share[i', j'] == b';
      var after := exists j' :: 0 <= j' < nDim && Done(j, i + 1, j', i') && share[i', j'] == b';
      assert after <==> before || share[i, j] == b' by {
        if after {
          var j' :| 0 <= j' < nDim && Done(j, i + 1, j', i') && share[i', j'] == b';
          if j' != j {
            assert Done(j, i, j', i');
          }
        }
        if share[i, j] == b' {
          assert Done(j, i + 1, j, i');
        }
        if before {
          var j' :| 0 <= j' < nDim && Done(j, i, j', i') && share[i', j'] == b';
          assert Done(j, i + 1, j', i');
        }
      }
      assert Done(j, i + 1, t', i') <==> Done(j, i, t', i') || t' == j;
    }
  }

  /** What pass (j, i) adds: the diagonal entry (i, j) and, when column j of
      row i names a neighbour b, the entries ((i, t), (b, t)). */
  lemma PassStep(share: array2<int>, nDim: nat, j: nat, i: nat)
    requires nDim <= share.Length1 && j < nDim && i < share.Length0
    requires NoSelfNeighbour(share, nDim)
    ensures forall i': nat, t': nat, b': nat, u': nat :: 0 <= i' < share.Length0 && 0 <= t' < nDim && 0 <= u' < nDim ==>
      PartialEntry(share, nDim, j, i + 1, i', t', b', u') ==
        PassEntry(share, nDim, j, i, i', t', b', u')
  {
    forall i': nat, t': nat, b': nat, u': nat | 0 <= i' < share.Length0 && 0 <= t' < nDim && 0 <= u' < nDim
      ensures PartialEntry(share, nDim, j, i + 1, i', t', b', u') ==
        PassEntry(share, nDim, j, i, i', t', b', u')
    {
      assert share[i, j] != i;
      PassStepAt(share, nDim, j, i, i', t', b', u');
    }
  }

  /** `get_tri_smoothing_matrix_simple(share, n_dim)`. Whatever `share` holds,
      every entry is 3, -1 or 0; when no element lists itself as its own
      neighbour, the matrix is exactly SmoothingEntry. */
  method TriSmoothingMatrixSimple(share: array2<int>, nDim: nat) returns (m: array2<int>)
    requires nDim <= share.Length1 && ValidShare(share)
    ensures m.Length0 == Size(nDim, share.Length0) && m.Length1 == Size(nDim, share.Length0)
    ensures forall r, c :: 0 <= r < m.Length0 && 0 <= c < m.Length1 ==>
              m[r, c] == 3 || m[r, c] == -1 || m[r, c] == 0
    ensures NoSelfNeighbour(share, nDim) ==>
              forall i, t, b, u :: 0 <= i < share.Length0 && 0 <= t < nDim && 0 <= b < share.Length0 && 0 <= u < nDim ==>
                m[Idx(nDim, share.Length0, i, t), Idx(nDim, share.Length0, b, u)] == SmoothingEntry(share, nDim, i, t, b, u)
  {
    var n := share.Length0;
    m := new int[Size(nDim, n), Size(nDim, n)]((_, _) => 0);
    NoPassesDone(share, nDim);
    for j := 0 to nDim
      invariant OnlyOperatorValues(m)
      invariant NoSelfNeighbour(share, nDim) ==> MatchesPasses(m, share, nDim, j, 0)
    {
      SmoothingColumn(m, share, nDim, j);
    }
    if NoSelfNeighbour(share, nDim) {
      AllPassesDone(m, share, nDim);
    }
  }

  /** The passes (j, i) of the inner loop over all elements i. */
  method SmoothingColumn(m: array2<int>, share: array2<int>, nDim: nat, j: nat)
    requires nDim <= share.Length1 && ValidShare(share) && j < nDim
    requires m != share
    requires m.Length0 == Size(nDim, share.Length0) && m.Length1 == Size(nDim, share.Length0)
    requires OnlyOperatorValues(m)
    requires NoSelfNeighbour(share, nDim) ==> MatchesPasses(m, share, nDim, j, 0)
    modifies m
    ensures OnlyOperatorValues(m)
    ensures NoSelfNeighbour(share, nDim) ==> MatchesPasses(m, share, nDim, j + 1, 0)
  {
    for i := 0 to share.Length0
      invariant OnlyOperatorValues(m)
      invariant NoSelfNeighbour(share, nDim) ==> MatchesPasses(m, share, nDim, j, i)
    {
      SmoothingPass(m, share, nDim, j, i);
    }
    if NoSelfNeighbour(share, nDim) {
      NextColumn(m, share, nDim, j);
    }
  }

  /** Before the first pass every entry is 0. */
  lemma NoPassesDone(share: array2<int>, nDim: nat)
    requires nDim <= share.Length1
    ensures forall i', t', b', u' :: 0 <= i' < share.Length0 && 0 <= t' < nDim && 0 <= b' < share.Length0 && 0 <= u' < nDim ==>
              PartialEntry(share, nDim, 0, 0, i', t', b', u') == 0
  {
    forall i', t', b', u' | 0 <= i' < share.Length0 && 0 <= t' < nDim && 0 <= b' < share.Length0 && 0 <= u' < nDim
      ensures PartialEntry(share, nDim, 0, 0, i', t', b', u') == 0
    {
      assert forall j' :: !Done(0, 0, j', i');
    }
  }

  /** Finishing all elements for column j is starting column j + 1. */
  lemma NextColumn(m: array2<int>, share: array2<int>, nDim: nat, j: nat)
    requires nDim <= share.Length1 && MatchesPasses(m, share, nDim, j, share.Length0)
    ensures MatchesPasses(m, share, nDim, j + 1, 0)
  {
    var n := share.Length0;
    forall i', t', b', u' | 0 <= i' < n && 0 <= t' < nDim && 0 <= b' < n && 0 <= u' < nDim
      ensures PartialEntry(share, nDim, j, n, i', t', b', u') == PartialEntry(share, nDim, j + 1, 0, i', t', b', u')
    {
      assert forall j' :: Done(j, n, j', i') <==> Done(j + 1, 0, j', i');
    }
  }

  /** After all passes, the matrix is the intended operator. */
  lemma AllPassesDone(m: array2<int>, share: array2<int>, nDim: nat)
    requires nDim <= share.Length1 && MatchesPasses(m, share, nDim, nDim, 0)
    ensures forall i, t, b, u :: 0 <= i < share.Length0 && 0 <= t < nDim && 0 <= b < share.Length0 && 0 <= u < nDim ==>
              m[Idx(nDim, share.Length0, i, t), Idx(nDim, share.Length0, b, u)] == SmoothingEntry(share, nDim, i, t, b, u)
  {
    forall i, t, b, u | 0 <= i < share.Length0 && 0 <= t < nDim && 0 <= b < share.Length0 && 0 <= u < nDim
      ensures PartialEntry(share, nDim, nDim, 0, i, t, b, u) == SmoothingEntry(share, nDim, i, t, b, u)
    {
      assert forall j' :: 0 <= j' < nDim ==> Done(nDim, 0, j', i);
    }
  }
}
