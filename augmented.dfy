/** The algebra behind `solve` (crates/algebra/src/matrices/f2_linalg.rs):
    the augmented matrix [A | B], what a reduced form of it says about A,
    and when the columns of B are images of A. Reducing [A | B] reduces A
    in its first columns. A pivot past them marks a column of B that no
    vector maps to. With no such pivot, the solution read off the reduced
    form maps to B column by column. */
module Augmented {
  import opened Rings
  import opened Mats
  import opened MatAlgebra
  import Linalg

  /** [a | b]: the columns of a, then those of b. */
  function Augment<T>(a: Mat<T>, b: Mat<T>): (m: Mat<T>)
    requires Shaped(a) && Shaped(b) && a.codomain == b.codomain
    ensures Shaped(m) && m.domain == a.domain + b.domain && m.codomain == a.codomain
    ensures forall x, y :: 0 <= x < m.domain && 0 <= y < m.codomain ==>
              At(m, x, y) == if x < a.domain then At(a, x, y) else At(b, x - a.domain, y)
  {
    Mat(a.domain + b.domain, a.codomain, seq(a.codomain, y requires 0 <= y < a.codomain => a.rows[y] + b.rows[y]))
  }

  /** The columns of s sit in m from column off on. */
  ghost predicate ColumnsAt<T>(m: Mat<T>, s: Mat<T>, off: nat) {
    && Shaped(m) && Shaped(s) && off + s.domain <= m.domain && s.codomain == m.codomain
    && forall x, y :: 0 <= x < s.domain && 0 <= y < s.codomain ==> At(m, off + x, y) == At(s, x, y)
  }

  /** The two blocks of [a | b], each at its own columns. */
  lemma AugmentBlocks<T>(a: Mat<T>, b: Mat<T>)
    requires Shaped(a) && Shaped(b) && a.codomain == b.codomain
    ensures ColumnsAt(Augment(a, b), a, 0) && ColumnsAt(Augment(a, b), b, a.domain)
  {
  }

  /** The first n columns of m. */
  function LeftCols<T>(m: Mat<T>, n: nat): (l: Mat<T>)
    requires Shaped(m) && n <= m.domain
    ensures Shaped(l) && l.domain == n && l.codomain == m.codomain
    ensures forall x, y :: 0 <= x < n && 0 <= y < m.codomain ==> At(l, x, y) == At(m, x, y)
  {
    Mat(n, m.codomain, seq(m.codomain, y requires 0 <= y < m.codomain => m.rows[y][..n]))
  }

  /** Row operations act on the first columns alone. */
  lemma LeftColsCompose<T>(R: Ring<T>, u: Mat<T>, m: Mat<T>, n: nat)
    requires Shaped(u) && Shaped(m) && u.domain == m.codomain && n <= m.domain
    ensures LeftCols(Compose(R, u, m), n) == Compose(R, u, LeftCols(m, n))
  {
    var l := LeftCols(Compose(R, u, m), n);
    var r := Compose(R, u, LeftCols(m, n));
    forall x, y | 0 <= x < n && 0 <= y < u.codomain ensures At(l, x, y) == At(r, x, y) {
      assert Column(LeftCols(m, n), x) == Column(m, x);
    }
    Extensionality(l, r);
  }

  /** The first columns of [a | b] are a. */
  lemma LeftOfAugment<T>(a: Mat<T>, b: Mat<T>)
    requires Shaped(a) && Shaped(b) && a.codomain == b.codomain
    ensures LeftCols(Augment(a, b), a.domain) == a
  {
    Extensionality(LeftCols(Augment(a, b), a.domain), a);
  }

  /** How many of the (increasing) pivot columns lie below n. */
  function CountBelow(piv: seq<nat>, n: nat): (t: nat)
    ensures t <= |piv|
    ensures forall k :: 0 <= k < t ==> piv[k] < n
    ensures t < |piv| ==> piv[t] >= n
  {
    if piv == [] || piv[0] >= n then 0
    else
      var t' := CountBelow(piv[1..], n);
      assert forall k :: 1 <= k < 1 + t' ==> piv[k] == piv[1..][k - 1];
      1 + t'
  }

  /** The column of b that the first pivot past the n columns of a sits
      at. */
  function ExtraColumn(piv: seq<nat>, n: nat): (j: nat)
    requires CountBelow(piv, n) < |piv|
    ensures j + n in piv
  {
    piv[CountBelow(piv, n)] - n
  }

  /** The first n columns of a reduced matrix are reduced, with the pivots
      below n; the rows of the later pivots are zero in those columns. */
  lemma LeftColsReduced<T>(R: Ring<T>, s: Mat<T>, piv: seq<nat>, n: nat)
    requires Linalg.IsRref(R, s, piv) && n <= s.domain
    ensures Linalg.IsRref(R, LeftCols(s, n), piv[..CountBelow(piv, n)])
    ensures forall k, x :: CountBelow(piv, n) <= k < |piv| && 0 <= x < n ==> At(s, x, k) == R.zero
  {
    var t := CountBelow(piv, n);
    var l := LeftCols(s, n);
    var p := piv[..t];
    forall k, x | t <= k < |piv| && 0 <= x < n ensures At(s, x, k) == R.zero {
      assert piv[t] <= piv[k];
    }
    forall x, y | 0 <= x < n && t <= y < s.codomain ensures At(l, x, y) == R.zero {
      if y >= |piv| {
        assert Linalg.ZeroBelow(R, s, |piv|, s.domain);
      }
    }
    assert Linalg.Echelon(R, l, p, n);
  }

  /** Reducing [a | b] reduces a: its first columns are a reduced form of a,
      reached by the same row operations. */
  lemma LeftReducedForm<T(!new)>(R: Ring<T>, a: Mat<T>, b: Mat<T>, s: Mat<T>, piv: seq<nat>, u: Mat<T>, w: Mat<T>)
    requires IsCRing(R) && Shaped(a) && Shaped(b) && a.codomain == b.codomain
    requires RowTransforms(R, Augment(a, b), s, u, w) && Linalg.IsRref(R, s, piv)
    ensures RowTransforms(R, a, LeftCols(s, a.domain), u, w)
    ensures Linalg.IsRref(R, LeftCols(s, a.domain), piv[..CountBelow(piv, a.domain)])
  {
    LeftRowTransforms(R, a, b, s, u, w);
    LeftColsReduced(R, s, piv, a.domain);
  }

  /** The row operations that take [a | b] to s take a to the first
      columns of s. */
  lemma LeftRowTransforms<T(!new)>(R: Ring<T>, a: Mat<T>, b: Mat<T>, s: Mat<T>, u: Mat<T>, w: Mat<T>)
    requires Shaped(a) && Shaped(b) && a.codomain == b.codomain
    requires RowTransforms(R, Augment(a, b), s, u, w)
    ensures RowTransforms(R, a, LeftCols(s, a.domain), u, w)
  {
    var aug := Augment(a, b);
    LeftOfAugment(a, b);
    LeftColsCompose(R, u, aug, a.domain);
    LeftColsCompose(R, w, s, a.domain);
    LeftColsElems(R, s, a.domain);
  }

  /** The first columns of a matrix of ring elements are ring elements. */
  lemma LeftColsElems<T>(R: Ring<T>, m: Mat<T>, n: nat)
    requires Shaped(m) && n <= m.domain && Elems(R, m)
    ensures Elems(R, LeftCols(m, n))
  {
    var l := LeftCols(m, n);
    forall y, x | 0 <= y < l.codomain && 0 <= x < n ensures R.elem(l.rows[y][x]) {
      assert l.rows[y][x] == At(m, x, y);
    }
  }

  // ---------------------------------------------------------------------
  // Kernel vectors of [a | b]

  /** Some vector of ring elements maps to t under a. */
  ghost predicate Solvable<T(!new)>(R: Ring<T>, a: Mat<T>, t: seq<T>)
    requires Shaped(a)
  {
    exists x :: |x| == a.domain && ElemsSeq(R, x) && Apply(R, a, x) == t
  }

  /** a and b have the same codomain and every column of b is the image
      of some vector under a: a·x = b has a solution x. */
  ghost predicate EverySolvable<T(!new)>(R: Ring<T>, a: Mat<T>, b: Mat<T>)
    requires Shaped(a) && Shaped(b)
  {
    a.codomain == b.codomain && forall j :: 0 <= j < b.domain ==> Solvable(R, a, Column(b, j))
  }

  /** The product splits at a cut of both vectors. */
  lemma {:induction false} DotConcat<T(!new)>(R: Ring<T>, u1: seq<T>, u2: seq<T>, v1: seq<T>, v2: seq<T>)
    requires IsCRing(R) && |u1| == |v1| && |u2| == |v2|
    requires ElemsSeq(R, u1) && ElemsSeq(R, u2) && ElemsSeq(R, v1) && ElemsSeq(R, v2)
    ensures Dot(R, u1 + u2, v1 + v2) == R.add(Dot(R, u1, v1), Dot(R, u2, v2))
    decreases |u2|
  {
    DotElem(R, u1, v1);
    if u2 == [] {
      assert u1 + u2 == u1 && v1 + v2 == v1;
      Laws(R, Dot(R, u1, v1), R.zero, R.zero);
    } else {
      var n := |u2| - 1;
      var u2', v2' := u2[..n], v2[..n];
      assert (u1 + u2)[..|u1 + u2| - 1] == u1 + u2';
      assert (v1 + v2)[..|v1 + v2| - 1] == v1 + v2';
      DotConcat(R, u1, u2', v1, v2');
      DotElem(R, u2', v2');
      Laws(R, Dot(R, u1, v1), Dot(R, u2', v2'), R.mul(u2[n], v2[n]));
    }
  }

  /** Minus the j-th unit vector of length k. */
  function NegUnit<T>(R: Ring<T>, k: nat, j: nat): (v: seq<T>)
    ensures |v| == k && forall i :: 0 <= i < k ==> v[i] == if i == j then R.neg(R.one) else R.zero
  {
    seq(k, i => if i == j then R.neg(R.one) else R.zero)
  }

  /** Applying b to minus the j-th unit vector gives minus column j. */
  lemma ApplyNegUnit<T(!new)>(R: Ring<T>, b: Mat<T>, j: nat, y: nat)
    requires IsCRing(R) && Elems(R, b) && j < b.domain && y < b.codomain
    ensures Apply(R, b, NegUnit(R, b.domain, j))[y] == R.neg(At(b, j, y))
  {
    var u, v := b.rows[y], NegUnit(R, b.domain, j);
    ElemsRowsColumns(R, b);
    forall i | 0 <= i < |u| && i != j ensures R.mul(u[i], v[i]) == R.zero {
      MulZero(R, u[i]);
    }
    DotSparse(R, u, v, j, |u|);
    var e := u[j];
    NegMul(R, R.one, e);
    Laws(R, e, R.one, R.one);
    Laws(R, R.neg(R.one), e, R.zero);
    Laws(R, R.mul(e, R.neg(R.one)), R.zero, R.zero);
  }

  /** x solves a·x = column j of b exactly when x followed by minus the j-th
      unit vector is in the kernel of [a | b]. */
  lemma AugmentKernel<T(!new)>(R: Ring<T>, a: Mat<T>, b: Mat<T>, x: seq<T>, j: nat)
    requires IsCRing(R) && Elems(R, a) && Elems(R, b) && a.codomain == b.codomain
    requires |x| == a.domain && ElemsSeq(R, x) && j < b.domain
    ensures Apply(R, a, x) == Column(b, j) <==> KernelVector(R, Augment(a, b), x + NegUnit(R, b.domain, j))
  {
    var aug := Augment(a, b);
    var z := NegUnit(R, b.domain, j);
    var v := x + z;
    Closed1(R);
    ElemsRowsColumns(R, a);
    ElemsRowsColumns(R, b);
    forall y | 0 <= y < a.codomain
      ensures Apply(R, aug, v)[y] == R.add(Apply(R, a, x)[y], R.neg(At(b, j, y)))
      ensures R.elem(Apply(R, a, x)[y])
    {
      DotConcat(R, a.rows[y], b.rows[y], x, z);
      ApplyNegUnit(R, b, j, y);
      DotElem(R, a.rows[y], x);
    }
    forall y | 0 <= y < a.codomain
      ensures Apply(R, a, x)[y] == At(b, j, y) <==> Apply(R, aug, v)[y] == R.zero
    {
      var p, q := Apply(R, a, x)[y], At(b, j, y);
      Laws(R, q, q, q);
      Laws(R, p, R.neg(q), q);
      Laws(R, R.neg(q), q, q);
      if R.add(p, R.neg(q)) == R.zero {
        NegUnique(R, R.neg(q), p);
        NegUnique(R, R.neg(q), q);
      }
    }
    assert ElemsSeq(R, v);
  }

  /** The operations keep the elements, in the form the kernel lemmas use. */
  lemma Closed1<T(!new)>(R: Ring<T>)
    requires IsCRing(R)
    ensures R.elem(R.zero) && R.elem(R.one) && R.elem(R.neg(R.one))
  {
  }

  // ---------------------------------------------------------------------
  // No solution

  /** A pivot of the reduced [a | b] past the columns of a sits in a row
      that is zero on a, at the column of some column j of b: no x has
      a·x = column j, for x followed by minus the j-th unit vector would
      be in the kernel, yet that row takes it to minus one. */
  lemma ExtraPivotUnsolvable<T(!new)>(R: Ring<T>, a: Mat<T>, b: Mat<T>, s: Mat<T>, piv: seq<nat>, u: Mat<T>, w: Mat<T>)
    requires IsField(R) && Elems(R, a) && Elems(R, b) && a.codomain == b.codomain
    requires RowTransforms(R, Augment(a, b), s, u, w) && Linalg.IsRref(R, s, piv)
    requires CountBelow(piv, a.domain) < |piv|
    ensures ExtraColumn(piv, a.domain) < b.domain
    ensures !Solvable(R, a, Column(b, ExtraColumn(piv, a.domain)))
  {
    var n, t := a.domain, CountBelow(piv, a.domain);
    var j := ExtraColumn(piv, n);
    LeftColsReduced(R, s, piv, n);
    assert n + j == piv[t] < s.domain == n + b.domain;
    assert forall c :: 0 <= c < n ==> At(s, c, t) == R.zero;
    ColumnUnsolvable(R, a, b, s, piv, u, w, t, j);
  }

  /** Column j of b has no solution when row t of the reduced [a | b] is
      zero on a and has its pivot at column j of b. */
  lemma ColumnUnsolvable<T(!new)>(R: Ring<T>, a: Mat<T>, b: Mat<T>, s: Mat<T>, piv: seq<nat>, u: Mat<T>, w: Mat<T>, t: nat, j: nat)
    requires IsField(R) && Elems(R, a) && Elems(R, b) && a.codomain == b.codomain
    requires RowTransforms(R, Augment(a, b), s, u, w) && Linalg.IsRref(R, s, piv)
    requires t < |piv| && a.domain + j == piv[t] && j < b.domain
    requires forall c :: 0 <= c < a.domain ==> At(s, c, t) == R.zero
    ensures !Solvable(R, a, Column(b, j))
  {
    forall x | |x| == a.domain && ElemsSeq(R, x) ensures Apply(R, a, x) != Column(b, j) {
      var v := x + NegUnit(R, b.domain, j);
      ExtraPivotRow(R, s, piv, a.domain, t, x, b.domain, j, v);
      NotASolution(R, a, b, s, u, w, x, j, v);
    }
  }

  /** A vector that row operations of [a | b] keep out of the kernel gives
      no solution. */
  lemma NotASolution<T(!new)>(R: Ring<T>, a: Mat<T>, b: Mat<T>, s: Mat<T>, u: Mat<T>, w: Mat<T>, x: seq<T>, j: nat, v: seq<T>)
    requires IsCRing(R) && Elems(R, a) && Elems(R, b) && a.codomain == b.codomain
    requires RowTransforms(R, Augment(a, b), s, u, w)
    requires |x| == a.domain && ElemsSeq(R, x) && j < b.domain
    requires v == x + NegUnit(R, b.domain, j) && !KernelVector(R, s, v)
    ensures Apply(R, a, x) != Column(b, j)
  {
    RowTransformsKeepKernel(R, Augment(a, b), s, u, w, v);
    AugmentKernel(R, a, b, x, j);
  }

  /** Row t of a reduced matrix, zero on the first n columns and with its
      pivot at n + j, takes x followed by minus the j-th unit vector to
      minus one. */
  lemma ExtraPivotRow<T(!new)>(R: Ring<T>, s: Mat<T>, piv: seq<nat>, n: nat, t: nat, x: seq<T>, d: nat, j: nat, v: seq<T>)
    requires IsField(R) && Elems(R, s) && Linalg.IsRref(R, s, piv)
    requires t < |piv| && n + j == piv[t] && n + d == s.domain && |x| == n && ElemsSeq(R, x)
    requires forall c :: 0 <= c < n ==> At(s, c, t) == R.zero
    requires v == x + NegUnit(R, d, j)
    ensures !KernelVector(R, s, v)
  {
    var p := piv[t];
    ElemsRowsColumns(R, s);
    var row := s.rows[t];
    forall i | 0 <= i < |row| && i != p ensures R.mul(row[i], v[i]) == R.zero {
      if i < n {
        assert row[i] == At(s, i, t) == R.zero;
        MulZero(R, v[i]);
      } else {
        assert v[i] == R.zero;
        MulZero(R, row[i]);
      }
    }
    assert ElemsSeq(R, v);
    DotSparse(R, row, v, p, |row|);
    assert row[p] == At(s, p, t) == R.one;
    Laws(R, R.neg(R.one), R.one, R.zero);
    Laws(R, R.mul(R.one, R.neg(R.one)), R.zero, R.zero);
    NegNonZero(R, R.one);
    assert Apply(R, s, v)[t] != Zeros(R.zero, s.codomain)[t];
  }

  // ---------------------------------------------------------------------
  // The solution

  /** The pivot columns all lie below n and fit s. */
  ghost predicate SolutionInputs<T>(s: Mat<T>, piv: seq<nat>, n: nat) {
    Shaped(s) && n <= s.domain && |piv| <= s.codomain && forall k :: 0 <= k < |piv| ==> piv[k] < n
  }

  /** The solution for column j of b after the first i pivots are written:
      at the k-th pivot column the entry of row k in column n + j of the
      reduced [a | b], zero elsewhere. */
  function SolutionRowUpTo<T>(R: Ring<T>, s: Mat<T>, piv: seq<nat>, n: nat, j: nat, i: nat): (x: seq<T>)
    requires SolutionInputs(s, piv, n) && n + j < s.domain && i <= |piv|
    ensures |x| == n
  {
    if i == 0 then Zeros(R.zero, n)
    else SolutionRowUpTo(R, s, piv, n, j, i - 1)[piv[i - 1] := At(s, n + j, i - 1)]
  }

  /** The solution matrix, one row per column of b, while the pivots are
      written in order: the rows before jj have the first i + 1 pivots,
      the others the first i. */
  function SolutionUpTo<T>(R: Ring<T>, s: Mat<T>, piv: seq<nat>, n: nat, k: nat, i: nat, jj: nat): (m: Mat<T>)
    requires SolutionInputs(s, piv, n) && n + k <= s.domain && i <= |piv| && jj <= k && (jj > 0 ==> i < |piv|)
    ensures Shaped(m) && m.domain == n && m.codomain == k
  {
    Mat(n, k, seq(k, j requires 0 <= j < k => SolutionRowUpTo(R, s, piv, n, j, Written(i, j, jj))))
  }

  /** How many pivots solution row j holds while row jj of pivot i is
      being written. */
  function Written(i: nat, j: nat, jj: nat): nat {
    if j < jj then i + 1 else i
  }

  /** Nothing written is the zero matrix; a row written is the next row's
      start; all rows written at pivot i is the start of pivot i + 1. */
  lemma SolutionUpToEnds<T>(R: Ring<T>, s: Mat<T>, piv: seq<nat>, n: nat, k: nat)
    requires SolutionInputs(s, piv, n) && n + k <= s.domain
    ensures SolutionUpTo(R, s, piv, n, k, 0, 0) == ZeroMat(R, n, k)
    ensures forall i :: 0 <= i < |piv| ==> SolutionUpTo(R, s, piv, n, k, i, k) == SolutionUpTo(R, s, piv, n, k, i + 1, 0)
  {
    var z := SolutionUpTo(R, s, piv, n, k, 0, 0);
    forall x, y | 0 <= x < n && 0 <= y < k ensures At(z, x, y) == R.zero {
      assert z.rows[y] == Zeros(R.zero, n);
    }
    Extensionality(z, ZeroMat(R, n, k));
    forall i | 0 <= i < |piv| ensures SolutionUpTo(R, s, piv, n, k, i, k) == SolutionUpTo(R, s, piv, n, k, i + 1, 0) {
      assert SolutionUpTo(R, s, piv, n, k, i, k).rows == SolutionUpTo(R, s, piv, n, k, i + 1, 0).rows;
    }
  }

  /** Writing the entry of row i in column n + jj at the i-th pivot column
      of solution row jj. */
  lemma SolutionUpToStep<T>(R: Ring<T>, s: Mat<T>, piv: seq<nat>, n: nat, k: nat, i: nat, jj: nat)
    requires SolutionInputs(s, piv, n) && n + k <= s.domain && i < |piv| && jj < k
    ensures SetAt(SolutionUpTo(R, s, piv, n, k, i, jj), piv[i], jj, At(s, n + jj, i))
            == SolutionUpTo(R, s, piv, n, k, i, jj + 1)
  {
    var p := SolutionUpTo(R, s, piv, n, k, i, jj);
    var q := SolutionUpTo(R, s, piv, n, k, i, jj + 1);
    assert q.rows[jj] == p.rows[jj][piv[i] := At(s, n + jj, i)];
    forall x, y | 0 <= x < n && 0 <= y < k ensures At(SetAt(p, piv[i], jj, At(s, n + jj, i)), x, y) == At(q, x, y) {
      GetAfterSet(p, piv[i], jj, At(s, n + jj, i), x, y);
    }
    Extensionality(SetAt(p, piv[i], jj, At(s, n + jj, i)), q);
  }

  /** The entries of a solution row: each pivot's entry, and zero at the
      columns without a pivot, once the writes are done. */
  lemma {:induction false} SolutionRowEntries<T>(R: Ring<T>, s: Mat<T>, piv: seq<nat>, n: nat, j: nat, i: nat)
    requires SolutionInputs(s, piv, n) && n + j < s.domain && i <= |piv| && Linalg.Increasing(piv)
    ensures var x := SolutionRowUpTo(R, s, piv, n, j, i);
            && (forall k :: 0 <= k < i ==> x[piv[k]] == At(s, n + j, k))
            && (forall c :: 0 <= c < n && c !in piv[..i] ==> x[c] == R.zero)
  {
    if i > 0 {
      SolutionRowEntries(R, s, piv, n, j, i - 1);
      assert piv[..i] == piv[..i - 1] + [piv[i - 1]];
    }
  }

  /** The solution row is made of ring elements. */
  lemma SolutionRowElems<T>(R: Ring<T>, s: Mat<T>, piv: seq<nat>, n: nat, j: nat)
    requires SolutionInputs(s, piv, n) && n + j < s.domain && Linalg.Increasing(piv)
    requires Elems(R, s) && R.elem(R.zero)
    ensures ElemsSeq(R, SolutionRowUpTo(R, s, piv, n, j, |piv|))
  {
    var x := SolutionRowUpTo(R, s, piv, n, j, |piv|);
    SolutionRowEntries(R, s, piv, n, j, |piv|);
    assert piv[..|piv|] == piv;
    forall c | 0 <= c < n ensures R.elem(x[c]) {
      if c in piv {
        var k :| 0 <= k < |piv| && piv[k] == c;
      }
    }
  }

  /** With every pivot of the reduced [a | b] among the columns of a, the
      solution row for column j is mapped to column j: row y of the reduced
      matrix picks up the solution's entry at its pivot, which is its own
      entry in column n + j, and minus that same entry from the unit part. */
  lemma SolutionSolves<T(!new)>(R: Ring<T>, a: Mat<T>, b: Mat<T>, s: Mat<T>, piv: seq<nat>, u: Mat<T>, w: Mat<T>, j: nat)
    requires IsField(R) && Elems(R, a) && Elems(R, b) && a.codomain == b.codomain
    requires RowTransforms(R, Augment(a, b), s, u, w) && Linalg.IsRref(R, s, piv)
    requires CountBelow(piv, a.domain) == |piv| && j < b.domain
    ensures SolutionInputs(s, piv, a.domain)
    ensures var x := SolutionRowUpTo(R, s, piv, a.domain, j, |piv|);
            ElemsSeq(R, x) && Apply(R, a, x) == Column(b, j)
  {
    var n := a.domain;
    assert SolutionInputs(s, piv, n) && n + b.domain == s.domain;
    var x := SolutionRowUpTo(R, s, piv, n, j, |piv|);
    var v := x + NegUnit(R, b.domain, j);
    SolutionInKernel(R, s, piv, n, b.domain, j);
    RowTransformsKeepKernel(R, Augment(a, b), s, u, w, v);
    AugmentKernel(R, a, b, x, j);
  }

  /** The solution row for column j, followed by minus the j-th unit vector,
      is in the kernel of the reduced [a | b]. */
  lemma SolutionInKernel<T(!new)>(R: Ring<T>, s: Mat<T>, piv: seq<nat>, n: nat, d: nat, j: nat)
    requires IsField(R) && Elems(R, s) && Linalg.IsRref(R, s, piv) && SolutionInputs(s, piv, n)
    requires n + d == s.domain && j < d
    ensures var x := SolutionRowUpTo(R, s, piv, n, j, |piv|);
            ElemsSeq(R, x) && KernelVector(R, s, x + NegUnit(R, d, j))
  {
    var x := SolutionRowUpTo(R, s, piv, n, j, |piv|);
    var v := x + NegUnit(R, d, j);
    SolutionRowEntries(R, s, piv, n, j, |piv|);
    SolutionRowElems(R, s, piv, n, j);
    assert piv[..|piv|] == piv;
    ElemsRowsColumns(R, s);
    assert ElemsSeq(R, v);
    forall y | 0 <= y < s.codomain ensures Apply(R, s, v)[y] == R.zero {
      SolutionRowZero(R, s, piv, n, j, x, v, y);
    }
    assert Apply(R, s, v) == Zeros(R.zero, s.codomain);
  }

  /** One row of the product in `SolutionSolves`. */
  lemma SolutionRowZero<T(!new)>(R: Ring<T>, s: Mat<T>, piv: seq<nat>, n: nat, j: nat, x: seq<T>, v: seq<T>, y: nat)
    requires IsField(R) && Elems(R, s) && Linalg.IsRref(R, s, piv) && SolutionInputs(s, piv, n)
    requires n + j < s.domain && y < s.codomain
    requires |x| == n && ElemsSeq(R, x) && v == x + NegUnit(R, s.domain - n, j)
    requires forall k :: 0 <= k < |piv| ==> x[piv[k]] == At(s, n + j, k)
    requires forall c :: 0 <= c < n && c !in piv ==> x[c] == R.zero
    ensures Apply(R, s, v)[y] == R.zero
  {
    var row := s.rows[y];
    ElemsRowsColumns(R, s);
    assert ElemsSeq(R, v);
    if y >= |piv| {
      forall c | 0 <= c < s.domain ensures row[c] == R.zero {
        assert At(s, c, y) == R.zero;
      }
      assert row == Zeros(R.zero, s.domain);
      DotZerosLeft(R, v);
    } else {
      var p, q := piv[y], n + j;
      forall c | 0 <= c < |row| && c != p && c != q ensures R.mul(row[c], v[c]) == R.zero {
        if c < n {
          if c in piv {
            var k :| 0 <= k < |piv| && piv[k] == c;
            assert row[c] == At(s, piv[k], y) == R.zero;
            MulZero(R, v[c]);
          } else {
            assert v[c] == x[c] == R.zero;
            MulZero(R, row[c]);
          }
        } else {
          assert v[c] == R.zero;
          MulZero(R, row[c]);
        }
      }
      DotSparse(R, row, v, p, q);
      var e := At(s, q, y);
      assert row[p] == At(s, p, y) == R.one && v[p] == e;
      assert row[q] == e && v[q] == R.neg(R.one);
      NegMul(R, R.one, e);
      Laws(R, e, R.one, R.one);
      Laws(R, R.neg(R.one), e, R.zero);
      Laws(R, R.one, e, R.zero);
      Laws(R, e, R.neg(R.one), R.zero);
    }
  }

  // ---------------------------------------------------------------------
  // The outcome of `solve`

  /** `solve` compares the rank of a with that of the reduced [a | b]: the
      first is the number of pivots below the columns of a, the second all
      of them, so the second is larger exactly when some pivot lies past
      the columns of a. */
  lemma AugmentedRanks<T(!new)>(R: Ring<T>, a: Mat<T>, b: Mat<T>, s: Mat<T>, piv: seq<nat>, u: Mat<T>, w: Mat<T>,
                                pa: seq<nat>, pg: seq<nat>)
    requires IsField(R) && Shaped(a) && Shaped(b) && a.codomain == b.codomain
    requires RowTransforms(R, Augment(a, b), s, u, w) && Linalg.IsRref(R, s, piv)
    requires forall s', piv' :: Linalg.RowEquivalent(R, a, s') && Linalg.IsRref(R, s', piv') ==> piv' == pa
    requires forall s', piv' :: Linalg.RowEquivalent(R, s, s') && Linalg.IsRref(R, s', piv') ==> piv' == pg
    ensures |pa| == CountBelow(piv, a.domain) && |pg| == |piv|
    ensures |pg| > |pa| <==> CountBelow(piv, a.domain) < |piv|
  {
    LeftPivots(R, a, b, s, piv, u, w, pa);
    OwnPivots(R, s, piv, pg);
  }

  /** The pivots of a are those of the reduced [a | b] below its columns. */
  lemma LeftPivots<T(!new)>(R: Ring<T>, a: Mat<T>, b: Mat<T>, s: Mat<T>, piv: seq<nat>, u: Mat<T>, w: Mat<T>, pa: seq<nat>)
    requires IsField(R) && Shaped(a) && Shaped(b) && a.codomain == b.codomain
    requires RowTransforms(R, Augment(a, b), s, u, w) && Linalg.IsRref(R, s, piv)
    requires forall s', piv' :: Linalg.RowEquivalent(R, a, s') && Linalg.IsRref(R, s', piv') ==> piv' == pa
    ensures pa == piv[..CountBelow(piv, a.domain)]
  {
    LeftReducedForm(R, a, b, s, piv, u, w);
    var l, p := LeftCols(s, a.domain), piv[..CountBelow(piv, a.domain)];
    assert Linalg.RowEquivalent(R, a, l);
  }

  /** A reduced matrix is one of its own reduced forms. */
  lemma OwnPivots<T(!new)>(R: Ring<T>, s: Mat<T>, piv: seq<nat>, pg: seq<nat>)
    requires IsField(R) && Elems(R, s) && Linalg.IsRref(R, s, piv)
    requires forall s', piv' :: Linalg.RowEquivalent(R, s, s') && Linalg.IsRref(R, s', piv') ==> piv' == pg
    ensures pg == piv
  {
    RowTransformsRefl(R, s);
    assert Linalg.RowEquivalent(R, s, s);
  }

  /** What `solve` returns, read off the reduced [a | b]: with a pivot past
      the columns of a some column of b is the image of no vector; without
      one the solution maps to b column by column, so every column is an
      image. */
  lemma SolveOutcome<T(!new)>(R: Ring<T>, a: Mat<T>, b: Mat<T>, s: Mat<T>, piv: seq<nat>, u: Mat<T>, w: Mat<T>)
    requires IsField(R) && Elems(R, a) && Elems(R, b) && a.codomain == b.codomain
    requires RowTransforms(R, Augment(a, b), s, u, w) && Linalg.IsRref(R, s, piv)
    ensures CountBelow(piv, a.domain) < |piv| <==> !EverySolvable(R, a, b)
    ensures CountBelow(piv, a.domain) == |piv| ==>
              && SolutionInputs(s, piv, a.domain)
              && (forall j :: 0 <= j < b.domain ==>
                    Apply(R, a, SolutionUpTo(R, s, piv, a.domain, b.domain, |piv|, 0).rows[j]) == Column(b, j))
  {
    var n, k := a.domain, b.domain;
    if CountBelow(piv, n) < |piv| {
      ExtraPivotUnsolvable(R, a, b, s, piv, u, w);
    } else {
      forall j | 0 <= j < k
        ensures Apply(R, a, SolutionUpTo(R, s, piv, n, k, |piv|, 0).rows[j]) == Column(b, j)
        ensures Solvable(R, a, Column(b, j))
      {
        SolutionSolves(R, a, b, s, piv, u, w, j);
        assert SolutionUpTo(R, s, piv, n, k, |piv|, 0).rows[j] == SolutionRowUpTo(R, s, piv, n, j, |piv|);
      }
    }
  }
}
