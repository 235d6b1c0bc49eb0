/** Pivots of row equivalent reduced matrices. Over a field the pivot
    columns of a reduced row echelon form are fixed by the kernel alone: a
    column is free exactly when some kernel vector ends there (is nonzero
    there and zero after it). Row operations keep the kernel, so any two
    reduced forms of one matrix have the same pivot columns, and the rank
    `rank` reports does not depend on the order the reduction ran in. */
module RrefPivots {
  import opened Rings
  import opened Mats
  import opened MatAlgebra
  import Linalg

  /** v is nonzero at x and zero after it. */
  ghost predicate EndsAt<T>(R: Ring<T>, v: seq<T>, x: nat) {
    x < |v| && v[x] != R.zero && forall y :: x < y < |v| ==> v[y] == R.zero
  }

  /** Some kernel vector of a ends at column x. */
  ghost predicate FreeIn<T(!new)>(R: Ring<T>, a: Mat<T>, x: nat) {
    exists v :: KernelVector(R, a, v) && EndsAt(R, v, x)
  }

  /** The kernel row `rref_kernel` builds for a column without a pivot ends
      at that column: the pivot columns after it carry entries of its row
      that lie left of their pivot, which are zero. */
  lemma FreeColumnIsFree<T(!new)>(R: Ring<T>, s: Mat<T>, piv: seq<nat>, f: nat)
    requires IsField(R) && Elems(R, s) && Linalg.IsRref(R, s, piv) && f < s.domain && f !in piv
    ensures FreeIn(R, s, f)
  {
    Linalg.KernelRowSound(R, s, piv, f);
    var v := Linalg.KernelRowUpTo(R, s, piv, f, |piv|);
    Linalg.KernelRowEntries(R, s, piv, f, |piv|);
    assert piv[..|piv|] == piv;
    forall y | f < y < |v| ensures v[y] == R.zero {
      if y in piv {
        var j :| 0 <= j < |piv| && piv[j] == y;
        assert At(s, f, j) == R.zero;
        Laws(R, R.zero, R.zero, R.zero);
        NegUnique(R, R.zero, R.zero);
      }
    }
    assert KernelVector(R, s, v) && EndsAt(R, v, f);
  }

  /** Row k of a reduced matrix is zero before its pivot and one at it, so
      a kernel vector that is zero after column piv[k] is zero there too. */
  lemma PivotEntryVanishes<T(!new)>(R: Ring<T>, s: Mat<T>, piv: seq<nat>, k: nat, v: seq<T>)
    requires IsCRing(R) && Elems(R, s) && Linalg.IsRref(R, s, piv) && k < |piv| && KernelVector(R, s, v)
    requires forall y :: piv[k] < y < |v| ==> v[y] == R.zero
    ensures v[piv[k]] == R.zero
  {
    var p := piv[k];
    var u := s.rows[k];
    ElemsRowsColumns(R, s);
    forall x | 0 <= x < |u| && x != p ensures R.mul(u[x], v[x]) == R.zero {
      if x < p {
        assert u[x] == At(s, x, k) == R.zero;
        MulZero(R, v[x]);
      } else {
        MulZero(R, u[x]);
      }
    }
    DotSparse(R, u, v, p, |u|);
    assert Apply(R, s, v)[k] == Dot(R, u, v);
    assert u[p] == At(s, p, k) == R.one;
    Laws(R, v[p], R.one, R.zero);
    Laws(R, R.mul(R.one, v[p]), R.zero, R.zero);
  }

  /** No kernel vector of a reduced matrix ends at a pivot column. */
  lemma PivotColumnNotFree<T(!new)>(R: Ring<T>, s: Mat<T>, piv: seq<nat>, k: nat)
    requires IsCRing(R) && Elems(R, s) && Linalg.IsRref(R, s, piv) && k < |piv|
    ensures !FreeIn(R, s, piv[k])
  {
    forall v | KernelVector(R, s, v) && (forall y :: piv[k] < y < |v| ==> v[y] == R.zero)
      ensures v[piv[k]] == R.zero
    {
      PivotEntryVanishes(R, s, piv, k, v);
    }
  }

  /** Row equivalent matrices have the same free columns, their kernels
      being equal. */
  lemma FreeInRowEquivalent<T(!new)>(R: Ring<T>, a: Mat<T>, s: Mat<T>, u: Mat<T>, w: Mat<T>, x: nat)
    requires IsCRing(R) && RowTransforms(R, a, s, u, w)
    ensures FreeIn(R, a, x) <==> FreeIn(R, s, x)
  {
    forall v ensures KernelVector(R, a, v) <==> KernelVector(R, s, v) {
      RowTransformsKeepKernel(R, a, s, u, w, v);
    }
  }

  /** The pivot columns of a reduced form of a are exactly the columns that
      are not free in a. */
  lemma PivotsAreNotFree<T(!new)>(R: Ring<T>, a: Mat<T>, s: Mat<T>, piv: seq<nat>, u: Mat<T>, w: Mat<T>, x: nat)
    requires IsField(R) && RowTransforms(R, a, s, u, w) && Linalg.IsRref(R, s, piv) && x < a.domain
    ensures x in piv <==> !FreeIn(R, a, x)
  {
    FreeInRowEquivalent(R, a, s, u, w, x);
    if x in piv {
      var k :| 0 <= k < |piv| && piv[k] == x;
      PivotColumnNotFree(R, s, piv, k);
    } else {
      FreeColumnIsFree(R, s, piv, x);
    }
  }

  /** The tail of a nonempty sequence holds its elements other than the
      head, and, when the sequence increases, not the head. */
  lemma TailElements(p: seq<nat>, x: nat)
    requires p != [] && Linalg.Increasing(p)
    ensures x in p[1..] <==> (x in p && x != p[0])
  {
    if x in p && x != p[0] {
      var k :| 0 <= k < |p| && p[k] == x;
      assert p[1..][k - 1] == x;
    }
    if x in p[1..] {
      var k :| 0 <= k < |p| - 1 && p[1..][k] == x;
      assert p[k + 1] == x;
    }
  }

  /** Two strictly increasing sequences with the same elements are equal. */
  lemma {:induction false} IncreasingSameElements(p: seq<nat>, q: seq<nat>)
    requires Linalg.Increasing(p) && Linalg.Increasing(q)
    requires forall x :: x in p <==> x in q
    ensures p == q
    decreases |p|
  {
    assert q != [] ==> q[0] in q;
    if p != [] {
      assert p[0] in q;
      var i :| 0 <= i < |q| && q[i] == p[0];
      var j :| 0 <= j < |p| && p[j] == q[0];
      assert p[0] <= p[j] && q[0] <= q[i];
      forall x ensures x in p[1..] <==> x in q[1..] {
        TailElements(p, x);
        TailElements(q, x);
      }
      IncreasingSameElements(p[1..], q[1..]);
      assert p == [p[0]] + p[1..] && q == [q[0]] + q[1..];
    }
  }

  /** Any two reduced forms of a have the same pivot columns: the rank is a
      property of a, not of the reduction. */
  lemma ReducedFormsSamePivots<T(!new)>(R: Ring<T>, a: Mat<T>, s1: Mat<T>, piv1: seq<nat>, s2: Mat<T>, piv2: seq<nat>)
    requires IsField(R) && Linalg.RowEquivalent(R, a, s1) && Linalg.RowEquivalent(R, a, s2)
    requires Linalg.IsRref(R, s1, piv1) && Linalg.IsRref(R, s2, piv2)
    ensures piv1 == piv2
  {
    var u1, w1 :| RowTransforms(R, a, s1, u1, w1);
    var u2, w2 :| RowTransforms(R, a, s2, u2, w2);
    forall x ensures x in piv1 <==> x in piv2 {
      if 0 <= x < a.domain {
        PivotsAreNotFree(R, a, s1, piv1, u1, w1, x);
        PivotsAreNotFree(R, a, s2, piv2, u2, w2, x);
      }
    }
    IncreasingSameElements(piv1, piv2);
  }
}
