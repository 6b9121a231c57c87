/** Shared helpers: an Option type for operations that raise in the original,
    and the division facts used to turn flat positions into (row, column) pairs. */
module Wrappers {

  /** None stands for an operation that raises instead of returning. */
  datatype Option<T> = None | Some(value: T)

  /** A sequence of indices in strictly increasing order (the order `np.where` returns). */
  predicate StrictlyIncreasing(s: seq<int>)
  {
    forall i, j :: 0 <= i < j < |s| ==> s[i] < s[j]
  }

  lemma MulAtLeast(k: int, n: int)
    requires k >= 1 && n > 0
    ensures k * n >= n
  {
    if k > 1 {
      MulAtLeast(k - 1, n);
      assert k * n == (k - 1) * n + n;
    }
  }

  /** Euclidean division has a unique quotient and remainder. */
  lemma {:induction false} DivModUnique(x: int, n: int, q: int, r: int)
    requires n > 0 && 0 <= r < n && x == q * n + r
    ensures x / n == q && x % n == r
  {
    var q', r' := x / n, x % n;
    assert q' * n + r' == x;
    if q > q' {
      MulAtLeast(q - q', n);
      assert false;
    } else if q < q' {
      MulAtLeast(q' - q, n);
      assert false;
    }
  }

  /** A row-major flat index `row * width + col` names a cell inside a `rows x width` block. */
  lemma FlatIndexBound(row: nat, col: nat, rows: nat, width: nat)
    requires row < rows && col < width
    ensures row * width + col < rows * width
  {
    MulAtLeast(rows - row, width);
    assert rows * width == (rows - row) * width + row * width;
  }
}
