/** `interleave2` and `interleave3`: an output of the summed length filled by
    the strided slice assignments `out[c::k] = input_c`. numpy raises unless
    each strided slice of the output has exactly the length of the array
    assigned to it; otherwise input c ends up at positions `k * j + c`, and
    taking the strided slices of the output gives the inputs back. */
module Interleave {
  import opened Wrappers
  import opened FlatIndex

  /** The length of `x[start::step]` for an x of length n. */
  function SliceLen(n: nat, start: nat, step: nat): nat
    requires step > 0
    decreases n - start
  {
    if start >= n then 0 else 1 + SliceLen(n, start + step, step)
  }

  /** The strided slice `s[start::step]`. */
  function Strided<T>(s: seq<T>, start: nat, step: nat): (r: seq<T>)
    requires step > 0
    ensures |r| == SliceLen(|s|, start, step)
    ensures forall j :: 0 <= j < |r| ==> Flat(step, j, start) < |s| && r[j] == s[Flat(step, j, start)]
    decreases |s| - start
  {
    if start >= |s| then []
    else
      var rest := Strided(s, start + step, step);
      assert forall j :: 1 <= j < |rest| + 1 ==> Flat(step, j - 1, start + step) == Flat(step, j, start) by {
        forall j | 1 <= j < |rest| + 1 ensures Flat(step, j - 1, start + step) == Flat(step, j, start) {
          FlatShift(step, j - 1, start);
        }
      }
      [s[start]] + rest
  }

  /** A sequence of the slice's length that agrees with s at every strided
      position is the slice. */
  lemma {:induction false} StridedPicks<T>(s: seq<T>, start: nat, step: nat, x: seq<T>)
    requires step > 0 && |x| == SliceLen(|s|, start, step)
    requires forall j :: 0 <= j < |x| ==> Flat(step, j, start) < |s| && s[Flat(step, j, start)] == x[j]
    ensures Strided(s, start, step) == x
  {
  }

  /** StridedPicks with the strided positions written `step * j + start`. */
  lemma {:induction false} AffinePicks<T>(s: seq<T>, start: nat, step: nat, x: seq<T>)
    requires step > 0 && |x| == SliceLen(|s|, start, step)
    requires forall j :: 0 <= j < |x| ==> step * j + start < |s| && s[step * j + start] == x[j]
    ensures Strided(s, start, step) == x
  {
    forall j | 0 <= j < |x|
      ensures Flat(step, j, start) < |s| && s[Flat(step, j, start)] == x[j]
    {
      FlatIsAffine(step, j, start);
    }
    StridedPicks(s, start, step, x);
  }

  /** Moving both the end and the start by d leaves a slice length unchanged. */
  lemma {:induction false} SliceLenShift(n: nat, start: nat, step: nat, d: nat)
    requires step > 0
    ensures SliceLen(n + d, start + d, step) == SliceLen(n, start, step)
    decreases n - start
  {
    if start < n {
      SliceLenShift(n, start + step, step, d);
    }
  }

  /** The two strided halves of a length-n array: together n, the even one
      as long as the odd one or one longer. */
  lemma {:induction false} HalvesSplit(n: nat)
    ensures SliceLen(n, 0, 2) + SliceLen(n, 1, 2) == n
    ensures SliceLen(n, 1, 2) <= SliceLen(n, 0, 2) <= SliceLen(n, 1, 2) + 1
  {
    if n > 0 {
      HalvesSplit(n - 1);
      SliceLenShift(n - 1, 0, 2, 1);
      SliceLenShift(n - 1, 1, 2, 1);
    }
  }

  /** The three strided thirds of a length-n array: together n, each at most
      one longer than the next and the first at most one longer than the last. */
  lemma {:induction false} ThirdsSplit(n: nat)
    ensures SliceLen(n, 0, 3) + SliceLen(n, 1, 3) + SliceLen(n, 2, 3) == n
    ensures SliceLen(n, 2, 3) <= SliceLen(n, 1, 3) <= SliceLen(n, 0, 3) <= SliceLen(n, 2, 3) + 1
  {
    if n > 0 {
      ThirdsSplit(n - 1);
      SliceLenShift(n - 1, 0, 3, 1);
      SliceLenShift(n - 1, 1, 3, 1);
      SliceLenShift(n - 1, 2, 3, 1);
    }
  }

  /** The slice assignments of `interleave2` succeed exactly when the first
      array is as long as the second or one longer. */
  lemma Interleave2Fits(na: nat, nb: nat)
    ensures (na == SliceLen(na + nb, 0, 2) && nb == SliceLen(na + nb, 1, 2)) <==> nb <= na <= nb + 1
  {
    HalvesSplit(na + nb);
  }

  /** The slice assignments of `interleave3` succeed exactly when the lengths
      are non-increasing and differ by at most one overall. */
  lemma Interleave3Fits(na: nat, nb: nat, nc: nat)
    ensures (na == SliceLen(na + nb + nc, 0, 3) && nb == SliceLen(na + nb + nc, 1, 3) &&
             nc == SliceLen(na + nb + nc, 2, 3)) <==> nc <= nb <= na <= nc + 1
  {
    ThirdsSplit(na + nb + nc);
  }

  /** `interleave2(array_1, array_2)`; None where numpy raises. */
  method Interleave2<T(0)>(a: array<T>, b: array<T>) returns (r: Option<array<T>>)
    ensures r.None? <==> !(b.Length <= a.Length <= b.Length + 1)
    ensures r.Some? ==> fresh(r.value) && r.value.Length == a.Length + b.Length
    ensures r.Some? ==> forall j :: 0 <= j < a.Length ==> r.value[2 * j] == a[j]
    ensures r.Some? ==> forall j :: 0 <= j < b.Length ==> r.value[2 * j + 1] == b[j]
    ensures r.Some? ==> Strided(r.value[..], 0, 2) == a[..] && Strided(r.value[..], 1, 2) == b[..]
  {
    var n := a.Length + b.Length;
    Interleave2Fits(a.Length, b.Length);
    if !(a.Length == SliceLen(n, 0, 2) && b.Length == SliceLen(n, 1, 2)) {
      return None;
    }
    var out := new T[n];
    for j := 0 to a.Length
      invariant forall j' :: 0 <= j' < j ==> out[2 * j'] == a[j']
    {
      out[2 * j] := a[j];
    }
    for j := 0 to b.Length
      invariant forall j' :: 0 <= j' < a.Length ==> out[2 * j'] == a[j']
      invariant forall j' :: 0 <= j' < j ==> out[2 * j' + 1] == b[j']
    {
      out[2 * j + 1] := b[j];
    }
    Deinterleave2(out[..], a[..], b[..]);
    r := Some(out);
  }

  /** Taking the even and the odd positions of an interleaving gives back
      its two inputs. */
  lemma {:induction false} Deinterleave2<T>(out: seq<T>, a: seq<T>, b: seq<T>)
    requires |out| == |a| + |b| && |b| <= |a| <= |b| + 1
    requires forall j :: 0 <= j < |a| ==> 2 * j < |out| && out[2 * j] == a[j]
    requires forall j :: 0 <= j < |b| ==> 2 * j + 1 < |out| && out[2 * j + 1] == b[j]
    ensures Strided(out, 0, 2) == a && Strided(out, 1, 2) == b
  {
    Interleave2Fits(|a|, |b|);
    AffinePicks(out, 0, 2, a);
    AffinePicks(out, 1, 2, b);
  }

  /** `interleave3(array_1, array_2, array_3)`; None where numpy raises. */
  method Interleave3<T(0)>(a: array<T>, b: array<T>, c: array<T>) returns (r: Option<array<T>>)
    ensures r.None? <==> !(c.Length <= b.Length <= a.Length <= c.Length + 1)
    ensures r.Some? ==> fresh(r.value) && r.value.Length == a.Length + b.Length + c.Length
    ensures r.Some? ==> forall j :: 0 <= j < a.Length ==> r.value[3 * j] == a[j]
    ensures r.Some? ==> forall j :: 0 <= j < b.Length ==> r.value[3 * j + 1] == b[j]
    ensures r.Some? ==> forall j :: 0 <= j < c.Length ==> r.value[3 * j + 2] == c[j]
    ensures r.Some? ==> Strided(r.value[..], 0, 3) == a[..] && Strided(r.value[..], 1, 3) == b[..] &&
                        Strided(r.value[..], 2, 3) == c[..]
  {
    var n := a.Length + b.Length + c.Length;
    Interleave3Fits(a.Length, b.Length, c.Length);
    if !(a.Length == SliceLen(n, 0, 3) && b.Length == SliceLen(n, 1, 3) && c.Length == SliceLen(n, 2, 3)) {
      return None;
    }
    var out := Fill3(a, b, c);
    Deinterleave3(out[..], a[..], b[..], c[..]);
    r := Some(out);
  }

  /** The three loops of `interleave3` filling a fresh array of the combined length. */
  method Fill3<T(0)>(a: array<T>, b: array<T>, c: array<T>) returns (out: array<T>)
    requires c.Length <= b.Length <= a.Length <= c.Length + 1
    ensures fresh(out) && out.Length == a.Length + b.Length + c.Length
    ensures forall j :: 0 <= j < a.Length ==> out[3 * j] == a[j]
    ensures forall j :: 0 <= j < b.Length ==> out[3 * j + 1] == b[j]
    ensures forall j :: 0 <= j < c.Length ==> out[3 * j + 2] == c[j]
  {
    out := new T[a.Length + b.Length + c.Length];
    for j := 0 to a.Length
      invariant forall j' :: 0 <= j' < j ==> out[3 * j'] == a[j']
    {
      out[3 * j] := a[j];
    }
    for j := 0 to b.Length
      invariant forall j' :: 0 <= j' < a.Length ==> out[3 * j'] == a[j']
      invariant forall j' :: 0 <= j' < j ==> out[3 * j' + 1] == b[j']
    {
      out[3 * j + 1] := b[j];
    }
    for j := 0 to c.Length
      invariant forall j' :: 0 <= j' < a.Length ==> out[3 * j'] == a[j']
      invariant forall j' :: 0 <= j' < b.Length ==> out[3 * j' + 1] == b[j']
      invariant forall j' :: 0 <= j' < j ==> out[3 * j' + 2] == c[j']
    {
      out[3 * j + 2] := c[j];
    }
  }

  /** Taking every third position from offsets 0, 1 and 2 of an interleaving
      gives back its three inputs. */
  lemma {:induction false} Deinterleave3<T>(out: seq<T>, a: seq<T>, b: seq<T>, c: seq<T>)
    requires |out| == |a| + |b| + |c| && |c| <= |b| <= |a| <= |c| + 1
    requires forall j :: 0 <= j < |a| ==> 3 * j < |out| && out[3 * j] == a[j]
    requires forall j :: 0 <= j < |b| ==> 3 * j + 1 < |out| && out[3 * j + 1] == b[j]
    requires forall j :: 0 <= j < |c| ==> 3 * j + 2 < |out| && out[3 * j + 2] == c[j]
    ensures Strided(out, 0, 3) == a && Strided(out, 1, 3) == b && Strided(out, 2, 3) == c
  {
    Interleave3Fits(|a|, |b|, |c|);
    AffinePicks(out, 0, 3, a);
    AffinePicks(out, 1, 3, b);
    AffinePicks(out, 2, 3, c);
  }
}
