/** The algebra of matrix products over a commutative ring: associativity,
    zero and transpose laws, elementary row operations as products with an
    inverse, and row equivalence. These are the facts behind the promises of
    `rref`, the kernel routines and `full_snf`. */
module MatAlgebra {
  import opened Rings
  import opened Mats

  // ---------------------------------------------------------------------
  // Closure

  lemma ElemsCompose<T(!new)>(R: Ring<T>, a: Mat<T>, b: Mat<T>)
    requires IsCRing(R) && Elems(R, a) && Elems(R, b) && a.domain == b.codomain
    ensures Elems(R, Compose(R, a, b))
  {
    ElemsRowsColumns(R, a);
    ElemsRowsColumns(R, b);
    var c := Compose(R, a, b);
    forall y, x | 0 <= y < c.codomain && 0 <= x < c.domain ensures R.elem(c.rows[y][x]) {
      DotElem(R, a.rows[y], Column(b, x));
      assert c.rows[y][x] == At(c, x, y);
    }
  }

  lemma ElemsIdentity<T(!new)>(R: Ring<T>, d: nat)
    requires IsCRing(R)
    ensures Elems(R, IdentityMat(R, d)) && Elems(R, ZeroMat(R, d, d))
  {
    var id := IdentityMat(R, d);
    forall y, x | 0 <= y < d && 0 <= x < d ensures R.elem(id.rows[y][x]) {
      assert id.rows[y][x] == At(id, x, y);
    }
    var z := ZeroMat(R, d, d);
    forall y, x | 0 <= y < d && 0 <= x < d ensures R.elem(z.rows[y][x]) {
      assert z.rows[y][x] == At(z, x, y);
    }
  }

  // ---------------------------------------------------------------------
  // Sums of products

  /** The row vector u·b: entry j is the product of u with column j of b. */
  function RowTimes<T>(R: Ring<T>, u: seq<T>, b: Mat<T>): (r: seq<T>)
    requires Shaped(b) && |u| == b.codomain
    ensures |r| == b.domain
  {
    seq(b.domain, j requires 0 <= j < b.domain => Dot(R, u, Column(b, j)))
  }

  /** The first n rows of b. */
  function TopRows<T>(b: Mat<T>, n: nat): (r: Mat<T>)
    requires Shaped(b) && n <= b.codomain
    ensures Shaped(r) && r.domain == b.domain && r.codomain == n
  {
    Mat(b.domain, n, b.rows[..n])
  }

  /** u·(b·w) == (u·b)·w: the heart of associativity. */
  lemma {:induction false} DotApply<T(!new)>(R: Ring<T>, u: seq<T>, b: Mat<T>, w: seq<T>)
    requires IsCRing(R) && Elems(R, b) && |u| == b.codomain && |w| == b.domain
    requires ElemsSeq(R, u) && ElemsSeq(R, w)
    ensures Dot(R, u, Apply(R, b, w)) == Dot(R, RowTimes(R, u, b), w)
    decreases |u|
  {
    ElemsRowsColumns(R, b);
    if u == [] {
      var z := RowTimes(R, u, b);
      assert z == Zeros(R.zero, b.domain);
      DotZerosLeft(R, w);
    } else {
      var n := |u| - 1;
      var b' := TopRows(b, n);
      var row := b.rows[n];
      var p := RowTimes(R, u[..n], b');
      ElemsPrefix(R, u, n);
      DotApply(R, u[..n], b', w);
      ApplyTop(R, b, w, n);
      RowTimesLast(R, u, b);
      DotPlusLeft(R, p, row, w, u[n]);
    }
  }

  /** The first n entries of b·w are the top n rows of b applied to w. */
  lemma ApplyTop<T>(R: Ring<T>, b: Mat<T>, w: seq<T>, n: nat)
    requires Shaped(b) && |w| == b.domain && n <= b.codomain
    ensures Apply(R, b, w)[..n] == Apply(R, TopRows(b, n), w)
  {
  }

  /** u·b is the product of all but the last entry of u with the top rows
      of b, plus the last entry times the last row. */
  lemma RowTimesLast<T(!new)>(R: Ring<T>, u: seq<T>, b: Mat<T>)
    requires IsCRing(R) && Elems(R, b) && |u| == b.codomain && 0 < |u| && ElemsSeq(R, u)
    ensures ElemsSeq(R, RowTimes(R, u[..|u| - 1], TopRows(b, |u| - 1)))
    ensures RowTimes(R, u, b) == Plus(R, RowTimes(R, u[..|u| - 1], TopRows(b, |u| - 1)), b.rows[|u| - 1], u[|u| - 1])
  {
    ElemsRowsColumns(R, b);
    var n := |u| - 1;
    var b' := TopRows(b, n);
    var row := b.rows[n];
    var p := RowTimes(R, u[..n], b');
    ElemsPrefix(R, u, n);
    forall j | 0 <= j < b.domain ensures R.elem(p[j]) {
      DotElem(R, u[..n], Column(b', j));
    }
    forall j | 0 <= j < b.domain ensures RowTimes(R, u, b)[j] == Plus(R, p, row, u[n])[j] {
      assert Column(b, j)[..n] == Column(b', j);
      Laws(R, u[n], row[j], row[j]);
    }
  }

  lemma {:induction false} DotZerosLeft<T(!new)>(R: Ring<T>, v: seq<T>)
    requires IsCRing(R) && ElemsSeq(R, v)
    ensures Dot(R, Zeros(R.zero, |v|), v) == R.zero
    ensures Dot(R, v, Zeros(R.zero, |v|)) == R.zero
  {
    if v != [] {
      var n := |v| - 1;
      assert Zeros(R.zero, |v|)[..n] == Zeros(R.zero, n);
      DotZerosLeft(R, v[..n]);
      MulZero(R, v[n]);
      Laws(R, R.zero, R.zero, R.zero);
    }
  }

  /** The product of two vectors does not depend on their order. */
  lemma {:induction false} DotSymmetric<T(!new)>(R: Ring<T>, u: seq<T>, v: seq<T>)
    requires IsCRing(R) && |u| == |v| && ElemsSeq(R, u) && ElemsSeq(R, v)
    ensures Dot(R, u, v) == Dot(R, v, u)
  {
    if u != [] {
      var n := |u| - 1;
      DotSymmetric(R, u[..n], v[..n]);
      Laws(R, u[n], v[n], v[n]);
    }
  }

  /** Scaling the left factor scales the product. */
  lemma {:induction false} DotScaleLeft<T(!new)>(R: Ring<T>, c: T, u: seq<T>, v: seq<T>)
    requires IsCRing(R) && R.elem(c) && |u| == |v| && ElemsSeq(R, u) && ElemsSeq(R, v)
    ensures Dot(R, Scaled(R, c, u), v) == R.mul(c, Dot(R, u, v))
  {
    var cu := Scaled(R, c, u);
    if u == [] {
      MulZero(R, c);
    } else {
      var n := |u| - 1;
      assert cu[..n] == Scaled(R, c, u[..n]);
      DotScaleLeft(R, c, u[..n], v[..n]);
      DotElem(R, u[..n], v[..n]);
      var d := Dot(R, u[..n], v[..n]);
      Laws(R, c, d, R.mul(u[n], v[n]));
      Laws(R, c, u[n], v[n]);
    }
  }

  // ---------------------------------------------------------------------
  // Laws of composition

  /** (a ∘ b) ∘ c == a ∘ (b ∘ c) */
  lemma ComposeAssoc<T(!new)>(R: Ring<T>, a: Mat<T>, b: Mat<T>, c: Mat<T>)
    requires IsCRing(R) && Elems(R, a) && Elems(R, b) && Elems(R, c)
    requires a.domain == b.codomain && b.domain == c.codomain
    ensures Compose(R, Compose(R, a, b), c) == Compose(R, a, Compose(R, b, c))
  {
    ElemsRowsColumns(R, a);
    ElemsRowsColumns(R, c);
    var ab, bc := Compose(R, a, b), Compose(R, b, c);
    var l, r := Compose(R, ab, c), Compose(R, a, bc);
    forall x, y | 0 <= x < c.domain && 0 <= y < a.codomain ensures At(l, x, y) == At(r, x, y) {
      assert ab.rows[y] == RowTimes(R, a.rows[y], b);
      assert Column(bc, x) == Apply(R, b, Column(c, x));
      DotApply(R, a.rows[y], b, Column(c, x));
    }
    Extensionality(l, r);
  }

  /** Composing with a zero matrix gives zero. */
  lemma ComposeZero<T(!new)>(R: Ring<T>, m: Mat<T>, k: nat)
    requires IsCRing(R) && Elems(R, m)
    ensures Compose(R, m, ZeroMat(R, k, m.domain)) == ZeroMat(R, k, m.codomain)
    ensures Compose(R, ZeroMat(R, m.codomain, k), m) == ZeroMat(R, m.domain, k)
  {
    ElemsRowsColumns(R, m);
    var l := Compose(R, m, ZeroMat(R, k, m.domain));
    forall x, y | 0 <= x < k && 0 <= y < m.codomain ensures At(l, x, y) == R.zero {
      assert Column(ZeroMat(R, k, m.domain), x) == Zeros(R.zero, m.domain);
      DotZerosLeft(R, m.rows[y]);
    }
    Extensionality(l, ZeroMat(R, k, m.codomain));
    var r := Compose(R, ZeroMat(R, m.codomain, k), m);
    forall x, y | 0 <= x < m.domain && 0 <= y < k ensures At(r, x, y) == R.zero {
      assert ZeroMat(R, m.codomain, k).rows[y] == Zeros(R.zero, m.codomain);
      DotZerosLeft(R, Column(m, x));
    }
    Extensionality(r, ZeroMat(R, m.domain, k));
  }

  /** (a ∘ b)ᵀ == bᵀ ∘ aᵀ */
  lemma TransposeCompose<T(!new)>(R: Ring<T>, a: Mat<T>, b: Mat<T>)
    requires IsCRing(R) && Elems(R, a) && Elems(R, b) && a.domain == b.codomain
    ensures Transpose(Compose(R, a, b)) == Compose(R, Transpose(b), Transpose(a))
  {
    ElemsRowsColumns(R, a);
    ElemsRowsColumns(R, b);
    var l, r := Transpose(Compose(R, a, b)), Compose(R, Transpose(b), Transpose(a));
    forall x, y | 0 <= x < a.codomain && 0 <= y < b.domain ensures At(l, x, y) == At(r, x, y) {
      assert Transpose(b).rows[y] == Column(b, y);
      assert Column(Transpose(a), x) == a.rows[x];
      DotSymmetric(R, a.rows[x], Column(b, y));
    }
    Extensionality(l, r);
  }

  // ---------------------------------------------------------------------
  // Elementary row operations are products with invertible matrices

  /** `scalar_multiply_row` on the left factor scales that row of the
      product. */
  lemma ScaleRowCommutesWithCompose<T(!new)>(R: Ring<T>, a: Mat<T>, b: Mat<T>, y: nat, c: T)
    requires IsCRing(R) && Elems(R, a) && Elems(R, b) && a.domain == b.codomain
    requires y < a.codomain && R.elem(c)
    ensures Compose(R, ScaleRow(R, a, y, c), b) == ScaleRow(R, Compose(R, a, b), y, c)
  {
    ElemsRowsColumns(R, a);
    ElemsRowsColumns(R, b);
    var l, r := Compose(R, ScaleRow(R, a, y, c), b), ScaleRow(R, Compose(R, a, b), y, c);
    var sa := ScaleRow(R, a, y, c);
    var ab := Compose(R, a, b);
    forall x, y2 | 0 <= x < b.domain && 0 <= y2 < a.codomain ensures At(l, x, y2) == At(r, x, y2) {
      if y2 == y {
        DotScaleLeft(R, c, a.rows[y], Column(b, x));
        assert At(l, x, y) == R.mul(c, At(ab, x, y));
      } else {
        assert sa.rows[y2] == a.rows[y2];
        assert At(l, x, y2) == At(ab, x, y2);
      }
    }
    Extensionality(l, r);
  }

  /** Each row operation is composition with the operation applied to the
      identity. */
  lemma RowOpsAreProducts<T(!new)>(R: Ring<T>, m: Mat<T>, t: nat, s: nat, f: T)
    requires IsCRing(R) && Elems(R, m) && t < m.codomain && s < m.codomain && R.elem(f)
    ensures SwapRows(m, t, s) == Compose(R, SwapRows(IdentityMat(R, m.codomain), t, s), m)
    ensures AddRowMultiple(R, m, t, s, f) == Compose(R, AddRowMultiple(R, IdentityMat(R, m.codomain), t, s, f), m)
    ensures ScaleRow(R, m, t, f) == Compose(R, ScaleRow(R, IdentityMat(R, m.codomain), t, f), m)
  {
    var id := IdentityMat(R, m.codomain);
    ElemsIdentity(R, m.codomain);
    ComposeIdentity(R, m);
    RowOpsCommuteWithCompose(R, id, m, t, s, f);
    ScaleRowCommutesWithCompose(R, id, m, t, f);
  }

  /** The elementary matrices stay inside the ring. */
  lemma ElemsRowOps<T(!new)>(R: Ring<T>, m: Mat<T>, t: nat, s: nat, f: T)
    requires IsCRing(R) && Elems(R, m) && t < m.codomain && s < m.codomain && R.elem(f)
    ensures Elems(R, SwapRows(m, t, s)) && Elems(R, AddRowMultiple(R, m, t, s, f)) && Elems(R, ScaleRow(R, m, t, f))
  {
    var a := AddRowMultiple(R, m, t, s, f);
    forall y, x | 0 <= y < m.codomain && 0 <= x < m.domain ensures R.elem(a.rows[y][x]) {
      assert a.rows[y][x] == At(a, x, y);
    }
    var sw := SwapRows(m, t, s);
    forall y, x | 0 <= y < m.codomain && 0 <= x < m.domain ensures R.elem(sw.rows[y][x]) {
      assert sw.rows[y][x] == At(sw, x, y);
    }
  }

  /** A swap is its own inverse. */
  lemma SwapInverse<T(!new)>(R: Ring<T>, n: nat, t: nat, s: nat)
    requires IsCRing(R) && t < n && s < n
    ensures var e := SwapRows(IdentityMat(R, n), t, s); Compose(R, e, e) == IdentityMat(R, n)
  {
    var id := IdentityMat(R, n);
    ElemsIdentity(R, n);
    ElemsRowOps(R, id, t, s, R.one);
    RowOpsAreProducts(R, SwapRows(id, t, s), t, s, R.one);
    SwapTwice(id, t, s);
  }

  /** Adding f times row s to row t is undone by adding -f times it. */
  lemma AddMultipleInverse<T(!new)>(R: Ring<T>, n: nat, t: nat, s: nat, f: T)
    requires IsCRing(R) && t < n && s < n && t != s && R.elem(f)
    ensures var id := IdentityMat(R, n);
            Compose(R, AddRowMultiple(R, id, t, s, R.neg(f)), AddRowMultiple(R, id, t, s, f)) == id
  {
    var id := IdentityMat(R, n);
    ElemsIdentity(R, n);
    Laws(R, f, f, f);
    ElemsRowOps(R, id, t, s, f);
    RowOpsAreProducts(R, AddRowMultiple(R, id, t, s, f), t, s, R.neg(f));
    AddMultipleUndo(R, id, t, s, f);
  }

  /** Scaling a row by c is undone by scaling it by an inverse c' of c. */
  lemma ScaleInverse<T(!new)>(R: Ring<T>, n: nat, t: nat, c: T, c': T)
    requires IsCRing(R) && t < n && R.elem(c) && R.elem(c') && R.mul(c', c) == R.one
    ensures var id := IdentityMat(R, n);
            Compose(R, ScaleRow(R, id, t, c'), ScaleRow(R, id, t, c)) == id
  {
    var id := IdentityMat(R, n);
    ElemsIdentity(R, n);
    var sc := ScaleRow(R, id, t, c);
    ElemsRowOps(R, id, t, t, c);
    RowOpsAreProducts(R, sc, t, t, c');
    forall x, y | 0 <= x < n && 0 <= y < n ensures At(ScaleRow(R, sc, t, c'), x, y) == At(id, x, y) {
      if y == t {
        Laws(R, c', c, At(id, x, y));
        Laws(R, At(id, x, y), R.one, R.one);
      }
    }
    Extensionality(ScaleRow(R, sc, t, c'), id);
  }

  // ---------------------------------------------------------------------
  // Row equivalence

  /** S is obtained from A by an invertible row transformation: S == U ∘ A
      and A == W ∘ S, so both have the same rows up to linear combination. */
  ghost predicate RowTransforms<T(!new)>(R: Ring<T>, a: Mat<T>, s: Mat<T>, u: Mat<T>, w: Mat<T>) {
    && Elems(R, a) && Elems(R, s) && Elems(R, u) && Elems(R, w)
    && u.domain == a.codomain && w.domain == s.codomain
    && s == Compose(R, u, a) && a == Compose(R, w, s)
  }

  /** Every matrix is row equivalent to itself. */
  lemma RowTransformsRefl<T(!new)>(R: Ring<T>, a: Mat<T>)
    requires IsCRing(R) && Elems(R, a)
    ensures RowTransforms(R, a, a, IdentityMat(R, a.codomain), IdentityMat(R, a.codomain))
  {
    ElemsIdentity(R, a.codomain);
    ComposeIdentity(R, a);
  }

  /** Applying an invertible e (with left inverse f) keeps row equivalence. */
  lemma RowTransformsStep<T(!new)>(R: Ring<T>, a: Mat<T>, s: Mat<T>, u: Mat<T>, w: Mat<T>, e: Mat<T>, f: Mat<T>)
    requires IsCRing(R) && RowTransforms(R, a, s, u, w)
    requires Elems(R, e) && Elems(R, f) && e.domain == s.codomain && e.codomain == s.codomain
    requires f.domain == e.codomain && Compose(R, f, e) == IdentityMat(R, s.codomain)
    ensures RowTransforms(R, a, Compose(R, e, s), Compose(R, e, u), Compose(R, w, f))
  {
    ElemsCompose(R, e, s);
    ElemsCompose(R, e, u);
    ElemsCompose(R, w, f);
    ComposeAssoc(R, e, u, a);
    ComposeAssoc(R, w, f, Compose(R, e, s));
    ComposeAssoc(R, f, e, s);
    ComposeIdentity(R, s);
  }

  /** A row swap keeps row equivalence. */
  lemma SwapKeepsTransforms<T(!new)>(R: Ring<T>, a: Mat<T>, s: Mat<T>, u: Mat<T>, w: Mat<T>, t: nat, t2: nat)
    requires IsCRing(R) && RowTransforms(R, a, s, u, w) && t < s.codomain && t2 < s.codomain
    ensures var e := SwapRows(IdentityMat(R, s.codomain), t, t2);
            RowTransforms(R, a, SwapRows(s, t, t2), Compose(R, e, u), Compose(R, w, e))
  {
    var id := IdentityMat(R, s.codomain);
    ElemsIdentity(R, s.codomain);
    ElemsRowOps(R, id, t, t2, R.one);
    RowOpsAreProducts(R, s, t, t2, R.one);
    SwapInverse(R, s.codomain, t, t2);
    RowTransformsStep(R, a, s, u, w, SwapRows(id, t, t2), SwapRows(id, t, t2));
  }

  /** Scaling a row by an invertible c (with c'·c == 1) keeps row
      equivalence. */
  lemma ScaleKeepsTransforms<T(!new)>(R: Ring<T>, a: Mat<T>, s: Mat<T>, u: Mat<T>, w: Mat<T>, y: nat, c: T, c': T)
    requires IsCRing(R) && RowTransforms(R, a, s, u, w) && y < s.codomain
    requires R.elem(c) && R.elem(c') && R.mul(c', c) == R.one
    ensures var id := IdentityMat(R, s.codomain);
            RowTransforms(R, a, ScaleRow(R, s, y, c), Compose(R, ScaleRow(R, id, y, c), u), Compose(R, w, ScaleRow(R, id, y, c')))
  {
    var id := IdentityMat(R, s.codomain);
    ElemsIdentity(R, s.codomain);
    ElemsRowOps(R, id, y, y, c);
    ElemsRowOps(R, id, y, y, c');
    RowOpsAreProducts(R, s, y, y, c);
    ScaleInverse(R, s.codomain, y, c, c');
    RowTransformsStep(R, a, s, u, w, ScaleRow(R, id, y, c), ScaleRow(R, id, y, c'));
  }

  /** Adding a multiple of one row to another keeps row equivalence. */
  lemma AddKeepsTransforms<T(!new)>(R: Ring<T>, a: Mat<T>, s: Mat<T>, u: Mat<T>, w: Mat<T>, t: nat, t2: nat, f: T)
    requires IsCRing(R) && RowTransforms(R, a, s, u, w) && t < s.codomain && t2 < s.codomain && t != t2 && R.elem(f)
    ensures var id := IdentityMat(R, s.codomain);
            RowTransforms(R, a, AddRowMultiple(R, s, t, t2, f), Compose(R, AddRowMultiple(R, id, t, t2, f), u),
                          Compose(R, w, AddRowMultiple(R, id, t, t2, R.neg(f))))
  {
    var id := IdentityMat(R, s.codomain);
    ElemsIdentity(R, s.codomain);
    Laws(R, f, f, f);
    ElemsRowOps(R, id, t, t2, f);
    ElemsRowOps(R, id, t, t2, R.neg(f));
    RowOpsAreProducts(R, s, t, t2, f);
    AddMultipleInverse(R, s.codomain, t, t2, f);
    RowTransformsStep(R, a, s, u, w, AddRowMultiple(R, id, t, t2, f), AddRowMultiple(R, id, t, t2, R.neg(f)));
  }

  // ---------------------------------------------------------------------
  // Null spaces

  /** v is in the kernel of m: a vector of elements that m sends to zero. */
  ghost predicate KernelVector<T>(R: Ring<T>, m: Mat<T>, v: seq<T>) {
    Shaped(m) && |v| == m.domain && ElemsSeq(R, v) && Apply(R, m, v) == Zeros(R.zero, m.codomain)
  }

  /** Only the zero vector is in the kernel of m. */
  ghost predicate TrivialKernel<T(!new)>(R: Ring<T>, m: Mat<T>) {
    forall v {:trigger KernelVector(R, m, v)} :: KernelVector(R, m, v) ==> v == Zeros(R.zero, m.domain)
  }

  /** Every row of k is in the kernel of m. */
  ghost predicate Annihilates<T>(R: Ring<T>, m: Mat<T>, k: Mat<T>) {
    Shaped(m) && Shaped(k) && k.domain == m.domain &&
    forall i :: 0 <= i < k.codomain ==> KernelVector(R, m, k.rows[i])
  }

  /** Every vector m sends to zero is a combination of the rows of k. */
  ghost predicate SpansKernel<T(!new)>(R: Ring<T>, m: Mat<T>, k: Mat<T>) {
    Shaped(m) && Shaped(k) && k.domain == m.domain &&
    forall x :: KernelVector(R, m, x) ==>
      exists c :: |c| == k.codomain && ElemsSeq(R, c) && x == RowTimes(R, c, k)
  }

  /** Row y of a ∘ b is row y of a times b. */
  lemma ComposeRows<T>(R: Ring<T>, a: Mat<T>, b: Mat<T>, y: nat)
    requires Shaped(a) && Shaped(b) && a.domain == b.codomain && y < a.codomain
    ensures Compose(R, a, b).rows[y] == RowTimes(R, a.rows[y], b)
  {
  }

  lemma RowTimesElems<T(!new)>(R: Ring<T>, u: seq<T>, b: Mat<T>)
    requires IsCRing(R) && Elems(R, b) && |u| == b.codomain && ElemsSeq(R, u)
    ensures ElemsSeq(R, RowTimes(R, u, b))
  {
    ElemsRowsColumns(R, b);
    forall j | 0 <= j < b.domain ensures R.elem(RowTimes(R, u, b)[j]) {
      DotElem(R, u, Column(b, j));
    }
  }

  /** (a ∘ b)·v == a·(b·v) */
  lemma ApplyCompose<T(!new)>(R: Ring<T>, a: Mat<T>, b: Mat<T>, v: seq<T>)
    requires IsCRing(R) && Elems(R, a) && Elems(R, b) && a.domain == b.codomain
    requires |v| == b.domain && ElemsSeq(R, v)
    ensures Apply(R, Compose(R, a, b), v) == Apply(R, a, Apply(R, b, v))
  {
    ElemsRowsColumns(R, a);
    forall y | 0 <= y < a.codomain ensures Apply(R, Compose(R, a, b), v)[y] == Apply(R, a, Apply(R, b, v))[y] {
      ComposeRows(R, a, b, y);
      DotApply(R, a.rows[y], b, v);
    }
  }

  /** A matrix sends the zero vector to zero. */
  lemma ApplyZeros<T(!new)>(R: Ring<T>, m: Mat<T>)
    requires IsCRing(R) && Elems(R, m)
    ensures Apply(R, m, Zeros(R.zero, m.domain)) == Zeros(R.zero, m.codomain)
  {
    ElemsRowsColumns(R, m);
    forall y | 0 <= y < m.codomain ensures Apply(R, m, Zeros(R.zero, m.domain))[y] == R.zero {
      DotZerosLeft(R, m.rows[y]);
    }
  }

  /** A kernel vector of a is one of u ∘ a. */
  lemma KernelVectorCompose<T(!new)>(R: Ring<T>, u: Mat<T>, a: Mat<T>, v: seq<T>)
    requires IsCRing(R) && Elems(R, u) && Elems(R, a) && u.domain == a.codomain && KernelVector(R, a, v)
    ensures KernelVector(R, Compose(R, u, a), v)
  {
    ApplyCompose(R, u, a, v);
    ApplyZeros(R, u);
  }

  /** The kernel vectors of a are those of an s row equivalent to it. */
  lemma RowTransformsKeepKernel<T(!new)>(R: Ring<T>, a: Mat<T>, s: Mat<T>, u: Mat<T>, w: Mat<T>, v: seq<T>)
    requires IsCRing(R) && RowTransforms(R, a, s, u, w)
    ensures KernelVector(R, a, v) <==> KernelVector(R, s, v)
  {
    if KernelVector(R, a, v) {
      KernelVectorCompose(R, u, a, v);
    }
    if KernelVector(R, s, v) {
      KernelVectorCompose(R, w, s, v);
    }
  }

  /** Combinations of rows that m kills are killed by m: if every row of k
      is in the kernel of m, so is every row of u ∘ k. */
  lemma AnnihilatesCombinations<T(!new)>(R: Ring<T>, m: Mat<T>, k: Mat<T>, u: Mat<T>)
    requires IsCRing(R) && Elems(R, m) && Elems(R, k) && Elems(R, u) && u.domain == k.codomain
    requires Annihilates(R, m, k)
    ensures Annihilates(R, m, Compose(R, u, k))
  {
    ElemsRowsColumns(R, m);
    ElemsRowsColumns(R, u);
    forall i | 0 <= i < u.codomain ensures KernelVector(R, m, Compose(R, u, k).rows[i]) {
      var ui := u.rows[i];
      ComposeRows(R, u, k, i);
      RowTimesElems(R, ui, k);
      forall y | 0 <= y < m.codomain ensures Apply(R, m, RowTimes(R, ui, k))[y] == R.zero {
        var my := m.rows[y];
        assert Apply(R, k, my) == Zeros(R.zero, k.codomain) by {
          forall j | 0 <= j < k.codomain ensures Apply(R, k, my)[j] == R.zero {
            DotSymmetric(R, k.rows[j], my);
            assert Apply(R, m, k.rows[j])[y] == R.zero;
          }
        }
        DotApply(R, ui, k, my);
        DotSymmetric(R, RowTimes(R, ui, k), my);
        DotZerosLeft(R, ui);
      }
    }
  }

  /** A combination of rows that m kills is killed by m. */
  lemma CombinationKernel<T(!new)>(R: Ring<T>, m: Mat<T>, k: Mat<T>, c: seq<T>)
    requires IsCRing(R) && Elems(R, m) && Elems(R, k) && |c| == k.codomain && ElemsSeq(R, c)
    requires Annihilates(R, m, k)
    ensures KernelVector(R, m, RowTimes(R, c, k))
  {
    var u := Mat(|c|, 1, [c]);
    AnnihilatesCombinations(R, m, k, u);
    ComposeRows(R, u, k, 0);
  }

  /** c·(w ∘ k) == (c·w)·k */
  lemma RowTimesCompose<T(!new)>(R: Ring<T>, c: seq<T>, w: Mat<T>, k: Mat<T>)
    requires IsCRing(R) && Elems(R, w) && Elems(R, k) && w.domain == k.codomain
    requires |c| == w.codomain && ElemsSeq(R, c)
    ensures RowTimes(R, c, Compose(R, w, k)) == RowTimes(R, RowTimes(R, c, w), k)
  {
    ElemsRowsColumns(R, k);
    forall j | 0 <= j < k.domain
      ensures RowTimes(R, c, Compose(R, w, k))[j] == RowTimes(R, RowTimes(R, c, w), k)[j]
    {
      assert Column(Compose(R, w, k), j) == Apply(R, w, Column(k, j));
      DotApply(R, c, w, Column(k, j));
    }
  }

  /** The rows of k span the kernel of a exactly when they span that of
      a row equivalent s, the two kernels being the same. */
  lemma SpansRowEquivalent<T(!new)>(R: Ring<T>, a: Mat<T>, s: Mat<T>, u: Mat<T>, w: Mat<T>, k: Mat<T>)
    requires IsCRing(R) && RowTransforms(R, a, s, u, w) && SpansKernel(R, s, k)
    ensures SpansKernel(R, a, k)
  {
    forall x | KernelVector(R, a, x)
      ensures exists c :: |c| == k.codomain && ElemsSeq(R, c) && x == RowTimes(R, c, k)
    {
      RowTransformsKeepKernel(R, a, s, u, w, x);
    }
  }

  /** Row operations on k keep what its rows span: with k0 == w ∘ k, a
      combination c of the rows of k0 is the combination c·w of those of k. */
  lemma SpansRowTransforms<T(!new)>(R: Ring<T>, a: Mat<T>, k0: Mat<T>, k: Mat<T>, u: Mat<T>, w: Mat<T>)
    requires IsCRing(R) && SpansKernel(R, a, k0) && RowTransforms(R, k0, k, u, w)
    ensures SpansKernel(R, a, k)
  {
    forall x | KernelVector(R, a, x)
      ensures exists c :: |c| == k.codomain && ElemsSeq(R, c) && x == RowTimes(R, c, k)
    {
      var c0 :| |c0| == k0.codomain && ElemsSeq(R, c0) && x == RowTimes(R, c0, k0);
      RowTimesCompose(R, c0, w, k);
      RowTimesElems(R, c0, w);
      assert x == RowTimes(R, RowTimes(R, c0, w), k);
    }
  }

  /** a + (−1)·a == 0 */
  lemma MinusSelf<T(!new)>(R: Ring<T>, a: T)
    requires IsCRing(R) && R.elem(a)
    ensures R.add(a, R.mul(R.neg(R.one), a)) == R.zero
  {
    NegMul(R, R.one, a);
    Laws(R, a, R.one, R.one);
  }

  /** a + (−1)·b == 0 only when a == b. */
  lemma DifferenceZero<T(!new)>(R: Ring<T>, a: T, b: T)
    requires IsCRing(R) && R.elem(a) && R.elem(b)
    requires R.add(a, R.mul(R.neg(R.one), b)) == R.zero
    ensures a == b
  {
    NegMul(R, R.one, b);
    Laws(R, b, R.one, R.one);
    Laws(R, b, R.neg(b), R.one);
    Laws(R, a, R.neg(a), R.one);
    Laws(R, R.neg(b), b, R.one);
    Laws(R, R.neg(a), a, R.one);
    NegUnique(R, a, R.neg(b));
    NegUnique(R, R.neg(b), b);
    NegUnique(R, R.neg(a), a);
  }

  /** The difference x − y of two kernel vectors is one. */
  lemma DifferenceKernel<T(!new)>(R: Ring<T>, m: Mat<T>, x: seq<T>, y: seq<T>)
    requires IsCRing(R) && Elems(R, m) && KernelVector(R, m, x) && KernelVector(R, m, y)
    ensures KernelVector(R, m, Plus(R, x, y, R.neg(R.one)))
  {
    ElemsRowsColumns(R, m);
    var f := R.neg(R.one);
    var d := Plus(R, x, y, f);
    forall row | 0 <= row < m.codomain ensures Apply(R, m, d)[row] == R.zero {
      DotPlusRight(R, m.rows[row], x, y, f);
      assert Apply(R, m, x)[row] == R.zero && Apply(R, m, y)[row] == R.zero;
      MulZero(R, f);
      Laws(R, R.zero, R.zero, R.zero);
    }
  }

  /** A product whose terms vanish outside positions p and q is the sum of
      those two terms (a position past the end contributes zero). */
  lemma {:induction false} DotSparse<T(!new)>(R: Ring<T>, u: seq<T>, v: seq<T>, p: nat, q: nat)
    requires IsCRing(R) && |u| == |v| && ElemsSeq(R, u) && ElemsSeq(R, v) && p != q
    requires forall k :: 0 <= k < |u| && k != p && k != q ==> R.mul(u[k], v[k]) == R.zero
    ensures Dot(R, u, v) == R.add(Term(R, u, v, p), Term(R, u, v, q))
  {
    if u == [] {
      Laws(R, R.zero, R.zero, R.zero);
    } else {
      var n := |u| - 1;
      ElemsPrefix(R, u, n);
      ElemsPrefix(R, v, n);
      DotSparse(R, u[..n], v[..n], p, q);
      DotSparseStep(R, u, v, p, q);
    }
  }

  /** The step of `DotSparse`: the sum over all of u, v from the sum over
      all but the last position. */
  lemma DotSparseStep<T(!new)>(R: Ring<T>, u: seq<T>, v: seq<T>, p: nat, q: nat)
    requires IsCRing(R) && |u| == |v| > 0 && ElemsSeq(R, u) && ElemsSeq(R, v) && p != q
    requires forall k :: 0 <= k < |u| && k != p && k != q ==> R.mul(u[k], v[k]) == R.zero
    requires var n := |u| - 1;
             Dot(R, u[..n], v[..n]) == R.add(Term(R, u[..n], v[..n], p), Term(R, u[..n], v[..n], q))
    ensures Dot(R, u, v) == R.add(Term(R, u, v, p), Term(R, u, v, q))
  {
    var n := |u| - 1;
    ElemsPrefix(R, u, n);
    ElemsPrefix(R, v, n);
    var a, b := Term(R, u[..n], v[..n], p), Term(R, u[..n], v[..n], q);
    var t := R.mul(u[n], v[n]);
    Laws(R, u[n], v[n], v[n]);
    Laws(R, a, b, t);
    Laws(R, b, t, t);
    Laws(R, a, t, b);
    Laws(R, t, t, t);
    if n == p {
      Laws(R, R.zero, R.zero, R.zero);
      Laws(R, t, R.zero, R.zero);
      Laws(R, R.zero, t, t);
    } else if n == q {
      Laws(R, a, R.zero, R.zero);
    } else {
      Laws(R, R.add(a, b), R.zero, R.zero);
    }
  }

  /** The term u[k]·v[k] of a product, zero past the end. */
  function Term<T>(R: Ring<T>, u: seq<T>, v: seq<T>, k: nat): (t: T)
    requires |u| == |v|
    ensures k < |u| ==> t == R.mul(u[k], v[k])
    ensures k >= |u| ==> t == R.zero
  {
    if k < |u| then R.mul(u[k], v[k]) else R.zero
  }

  /** Row equivalent matrices kill the same rows. */
  lemma AnnihilatesRowEquivalent<T(!new)>(R: Ring<T>, a: Mat<T>, s: Mat<T>, u: Mat<T>, w: Mat<T>, k: Mat<T>)
    requires IsCRing(R) && RowTransforms(R, a, s, u, w) && Shaped(k) && k.domain == a.domain
    ensures Annihilates(R, a, k) <==> Annihilates(R, s, k)
  {
    forall i | 0 <= i < k.codomain ensures KernelVector(R, a, k.rows[i]) <==> KernelVector(R, s, k.rows[i]) {
      RowTransformsKeepKernel(R, a, s, u, w, k.rows[i]);
    }
  }

  /** Row equivalent matrices have the same kernel, so one has a trivial
      kernel exactly when the other does. */
  lemma TrivialKernelRowEquivalent<T(!new)>(R: Ring<T>, a: Mat<T>, s: Mat<T>, u: Mat<T>, w: Mat<T>)
    requires IsCRing(R) && RowTransforms(R, a, s, u, w)
    ensures TrivialKernel(R, a) <==> TrivialKernel(R, s)
  {
    forall v ensures KernelVector(R, a, v) <==> KernelVector(R, s, v) {
      RowTransformsKeepKernel(R, a, s, u, w, v);
    }
  }

  /** The identity sends every vector to itself, so its kernel is trivial. */
  lemma IdentityTrivialKernel<T(!new)>(R: Ring<T>, n: nat)
    requires IsCRing(R)
    ensures TrivialKernel(R, IdentityMat(R, n))
  {
    var id := IdentityMat(R, n);
    forall v | KernelVector(R, id, v) ensures v == Zeros(R.zero, n) {
      forall y | 0 <= y < n ensures v[y] == R.zero {
        assert id.rows[y] == UnitVec(R, n, y);
        DotUnit(R, v, y);
        assert Apply(R, id, v)[y] == R.zero;
      }
    }
  }

  lemma ElemsTranspose<T>(R: Ring<T>, m: Mat<T>)
    requires Elems(R, m)
    ensures Elems(R, Transpose(m))
  {
    var t := Transpose(m);
    forall y, x | 0 <= y < t.codomain && 0 <= x < t.domain ensures R.elem(t.rows[y][x]) {
      assert t.rows[y][x] == At(t, x, y) == At(m, y, x);
    }
  }

  // ---------------------------------------------------------------------
  // Rank

  /** a·(−z) == −(a·z) */
  lemma MulNegRight<T(!new)>(R: Ring<T>, a: T, z: T)
    requires IsCRing(R) && R.elem(a) && R.elem(z)
    ensures R.mul(a, R.neg(z)) == R.neg(R.mul(a, z))
  {
    Laws(R, a, R.neg(z), z);
    Laws(R, z, a, a);
    NegMul(R, z, a);
  }

  /** p·(−(q·a)) == −a when p·q == 1: the entry that clears a pivot row. */
  lemma PivotCancels<T(!new)>(R: Ring<T>, p: T, q: T, a: T)
    requires IsCRing(R) && R.elem(p) && R.elem(q) && R.elem(a) && R.mul(p, q) == R.one
    ensures R.add(a, R.mul(p, R.neg(R.mul(q, a)))) == R.zero
  {
    MulNegRight(R, p, R.mul(q, a));
    Laws(R, p, q, a);
    Laws(R, a, R.one, R.one);
    Laws(R, R.one, a, a);
  }

  /** c·(−(q·a)) == (−(c·q))·a */
  lemma MoveFactor<T(!new)>(R: Ring<T>, c: T, q: T, a: T)
    requires IsCRing(R) && R.elem(c) && R.elem(q) && R.elem(a)
    ensures R.mul(c, R.neg(R.mul(q, a))) == R.mul(R.neg(R.mul(c, q)), a)
  {
    MulNegRight(R, c, R.mul(q, a));
    Laws(R, c, q, a);
    NegMul(R, R.mul(c, q), a);
  }

  /** Row y of b with −(b[y][last]·q) times row i added, last entry dropped. */
  function EliminatedRow<T>(R: Ring<T>, b: Mat<T>, i: nat, q: T, y: nat): (row: seq<T>)
    requires Shaped(b) && 0 < b.domain && i < b.codomain && y < b.codomain
    ensures |row| == b.domain - 1
  {
    var d := b.domain - 1;
    Plus(R, b.rows[y][..d], b.rows[i][..d], R.neg(R.mul(b.rows[y][d], q)))
  }

  /** b with the last column cleared by row i, whose last entry has inverse
      q: every other row y gets −(b[y][last]·q) times row i, then row i and
      the last column are dropped. */
  function Eliminate<T>(R: Ring<T>, b: Mat<T>, i: nat, q: T): (r: Mat<T>)
    requires Shaped(b) && 0 < b.domain && i < b.codomain
    ensures Shaped(r) && r.domain == b.domain - 1 && r.codomain == b.codomain - 1
    ensures forall y :: 0 <= y < b.codomain - 1 ==>
              r.rows[y] == EliminatedRow(R, b, i, q, if y < i then y else y + 1)
  {
    var rows := seq(b.codomain - 1, y requires 0 <= y < b.codomain - 1 =>
      EliminatedRow(R, b, i, q, if y < i then y else y + 1));
    assert forall y :: 0 <= y < |rows| ==> |rows[y]| == b.domain - 1 by {
      forall y | 0 <= y < |rows| ensures |rows[y]| == b.domain - 1 {
        var y0 := if y < i then y else y + 1;
        assert rows[y] == EliminatedRow(R, b, i, q, y0);
      }
    }
    Mat(b.domain - 1, b.codomain - 1, rows)
  }

  /** A kernel vector v of the eliminated matrix extends, by the entry that
      makes row i vanish, to a kernel vector of b. */
  lemma EliminateLift<T(!new)>(R: Ring<T>, b: Mat<T>, i: nat, q: T, v: seq<T>)
    requires IsCRing(R) && Elems(R, b) && 0 < b.domain && i < b.codomain
    requires R.elem(q) && R.mul(At(b, b.domain - 1, i), q) == R.one
    requires KernelVector(R, Eliminate(R, b, i, q), v)
    ensures KernelVector(R, b, v + [R.neg(R.mul(q, Dot(R, b.rows[i][..b.domain - 1], v)))])
  {
    ElemsRowsColumns(R, b);
    var d := b.domain - 1;
    var c := R.neg(R.mul(q, Dot(R, b.rows[i][..d], v)));
    ElemsPrefix(R, b.rows[i], d);
    DotElem(R, b.rows[i][..d], v);
    forall y | 0 <= y < b.codomain ensures Apply(R, b, v + [c])[y] == R.zero {
      EliminateLiftRow(R, b, i, q, v, y);
    }
  }

  /** Row y of b sends the extended vector to zero: row i by the choice of
      the last entry, any other row because its eliminated row sends v to
      zero. */
  lemma EliminateLiftRow<T(!new)>(R: Ring<T>, b: Mat<T>, i: nat, q: T, v: seq<T>, y: nat)
    requires IsCRing(R) && Elems(R, b) && 0 < b.domain && i < b.codomain && y < b.codomain
    requires R.elem(q) && R.mul(At(b, b.domain - 1, i), q) == R.one
    requires KernelVector(R, Eliminate(R, b, i, q), v)
    ensures Dot(R, b.rows[y], v + [R.neg(R.mul(q, Dot(R, b.rows[i][..b.domain - 1], v)))]) == R.zero
  {
    var d := b.domain - 1;
    var ri, row := b.rows[i], b.rows[y];
    assert ElemsSeq(R, ri) && ElemsSeq(R, row);
    ElemsPrefix(R, ri, d);
    DotElem(R, ri[..d], v);
    var di := Dot(R, ri[..d], v);
    var w := v + [R.neg(R.mul(q, di))];
    assert w[..d] == v;
    if y == i {
      PivotCancels(R, ri[d], q, di);
    } else {
      EliminatedRowKills(R, b, i, q, v, y, if y < i then y else y - 1);
    }
  }

  /** A row other than i: its product with the extended vector is its
      eliminated row's product with v. */
  lemma EliminatedRowKills<T(!new)>(R: Ring<T>, b: Mat<T>, i: nat, q: T, v: seq<T>, y: nat, y': nat)
    requires IsCRing(R) && Elems(R, b) && 0 < b.domain && i < b.codomain && y < b.codomain && y != i
    requires y' == if y < i then y else y - 1
    requires R.elem(q) && KernelVector(R, Eliminate(R, b, i, q), v)
    ensures var d := b.domain - 1;
            var di := Dot(R, b.rows[i][..d], v);
            R.add(Dot(R, b.rows[y][..d], v), R.mul(b.rows[y][d], R.neg(R.mul(q, di)))) == R.zero
  {
    var d := b.domain - 1;
    var ri, row := b.rows[i], b.rows[y];
    assert ElemsSeq(R, ri) && ElemsSeq(R, row);
    ElemsPrefix(R, ri, d);
    ElemsPrefix(R, row, d);
    DotElem(R, ri[..d], v);
    var di := Dot(R, ri[..d], v);
    var f := R.neg(R.mul(row[d], q));
    var e := Eliminate(R, b, i, q);
    assert (if y' < i then y' else y' + 1) == y;
    assert e.rows[y'] == Plus(R, row[..d], ri[..d], f);
    assert Dot(R, e.rows[y'], v) == Apply(R, e, v)[y'] == R.zero;
    DotPlusLeft(R, row[..d], ri[..d], v, f);
    MoveFactor(R, row[d], q, di);
  }

  /** A matrix over a field with more columns than rows sends some nonzero
      vector to zero: clear the last column with a row holding a nonzero
      entry there and extend a kernel vector of what is left, or, when the
      last column is zero, take the last unit vector. */
  lemma {:induction false} WideHasKernel<T(!new)>(R: Ring<T>, b: Mat<T>)
    requires IsField(R) && Elems(R, b) && b.codomain < b.domain
    ensures !TrivialKernel(R, b)
    decreases b.codomain
  {
    ElemsRowsColumns(R, b);
    var d := b.domain - 1;
    if i :| 0 <= i < b.codomain && At(b, d, i) != R.zero {
      var q := R.tryInverse(At(b, d, i)).value;
      var e := Eliminate(R, b, i, q);
      forall y, x | 0 <= y < e.codomain && 0 <= x < e.domain ensures R.elem(e.rows[y][x]) {
        var y0 := if y < i then y else y + 1;
        assert e.rows[y][x] == R.add(b.rows[y0][x], R.mul(R.neg(R.mul(b.rows[y0][d], q)), b.rows[i][x]));
      }
      WideHasKernel(R, e);
      var v :| KernelVector(R, e, v) && v != Zeros(R.zero, d);
      EliminateLift(R, b, i, q, v);
      var w := v + [R.neg(R.mul(q, Dot(R, b.rows[i][..d], v)))];
      assert w[..d] == v;
      assert w != Zeros(R.zero, b.domain);
    } else {
      var u := UnitVec(R, b.domain, d);
      forall y | 0 <= y < b.codomain ensures Apply(R, b, u)[y] == R.zero {
        assert At(b, d, y) == R.zero;
        DotUnit(R, b.rows[y], d);
      }
      assert KernelVector(R, b, u);
      assert u[d] != Zeros(R.zero, b.domain)[d];
    }
  }

  /** A matrix over a field with a trivial kernel has at least as many rows
      as columns. */
  lemma TrivialKernelNarrow<T(!new)>(R: Ring<T>, b: Mat<T>)
    requires IsField(R) && Elems(R, b)
    ensures TrivialKernel(R, b) ==> b.domain <= b.codomain
  {
    if b.codomain < b.domain {
      WideHasKernel(R, b);
    }
  }
}
