/** Row reduction and kernels of a `FlatMatrix` over a field
    (crates/algebra/src/matrices/linalg.rs). The Rust code adds these as an
    `impl` block on `FlatMatrix<F>`; here they are module-level methods on
    the matrix object. */
module Linalg {
  import opened Wrappers
  import opened Rings
  import opened Mats
  import opened MatAlgebra
  import opened FlatMatrices

  // ---------------------------------------------------------------------
  // Reduced row echelon form

  /** Rows from r on are zero in the columns before `lead`. */
  ghost predicate ZeroBelow<T>(R: Ring<T>, m: Mat<T>, r: nat, lead: nat)
    requires Shaped(m) && lead <= m.domain
  {
    forall x, y :: 0 <= x < lead && r <= y < m.codomain ==> At(m, x, y) == R.zero
  }

  /** A column found zero from row r down extends the zero block by one. */
  lemma ZeroBelowNext<T>(R: Ring<T>, m: Mat<T>, r: nat, lead: nat)
    requires Shaped(m) && lead < m.domain && ZeroBelow(R, m, r, lead)
    requires forall y :: r <= y < m.codomain ==> At(m, lead, y) == R.zero
    ensures ZeroBelow(R, m, r, lead + 1)
  {
  }

  /** The first |piv| rows are reduced, row k with its pivot (a one) in
      column piv[k], the pivot columns increase and are zero outside their
      pivot, and the other rows are zero up to column `lead`. */
  ghost predicate Echelon<T>(R: Ring<T>, m: Mat<T>, piv: seq<nat>, lead: nat) {
    && Shaped(m) && |piv| <= m.codomain && lead <= m.domain
    && (forall k :: 0 <= k < |piv| ==> piv[k] < lead)
    && (forall k, k2 :: 0 <= k < k2 < |piv| ==> piv[k] < piv[k2])
    && (forall k :: 0 <= k < |piv| ==> At(m, piv[k], k) == R.one)
    && (forall k, y :: 0 <= k < |piv| && 0 <= y < m.codomain && y != k ==> At(m, piv[k], y) == R.zero)
    && (forall k, x :: 0 <= k < |piv| && 0 <= x < piv[k] ==> At(m, x, k) == R.zero)
    && ZeroBelow(R, m, |piv|, lead)
  }

  /** Reduced row echelon form with pivot columns `piv`: the rows after the
      pivot rows are zero. */
  ghost predicate IsRref<T>(R: Ring<T>, m: Mat<T>, piv: seq<nat>) {
    Shaped(m) && Echelon(R, m, piv, m.domain)
  }

  lemma EchelonWiden<T>(R: Ring<T>, m: Mat<T>, piv: seq<nat>, lead0: nat, lead: nat)
    requires Echelon(R, m, piv, lead0) && lead0 <= lead <= m.domain && ZeroBelow(R, m, |piv|, lead)
    ensures Echelon(R, m, piv, lead)
  {
  }

  /** With every row a pivot row, the form is reduced. */
  lemma EchelonFull<T>(R: Ring<T>, m: Mat<T>, piv: seq<nat>, lead: nat)
    requires Echelon(R, m, piv, lead) && |piv| == m.codomain
    ensures IsRref(R, m, piv)
  {
  }

  /** Once the rows after the pivot rows are zero everywhere, the form is
      reduced. */
  lemma EchelonAtEnd<T>(R: Ring<T>, m: Mat<T>, piv: seq<nat>, lead: nat)
    requires Echelon(R, m, piv, lead) && ZeroBelow(R, m, |piv|, m.domain)
    ensures IsRref(R, m, piv)
  {
  }

  /** Exchanging two rows below the pivot rows keeps the form. */
  lemma EchelonSwap<T>(R: Ring<T>, m: Mat<T>, piv: seq<nat>, lead: nat, i: nat)
    requires Echelon(R, m, piv, lead) && |piv| <= i < m.codomain
    ensures Echelon(R, SwapRows(m, |piv|, i), piv, lead)
  {
  }

  /** Scaling the row after the pivot rows keeps the form. */
  lemma EchelonScale<T(!new)>(R: Ring<T>, m: Mat<T>, piv: seq<nat>, lead: nat, c: T)
    requires IsCRing(R) && R.elem(c) && Echelon(R, m, piv, lead) && |piv| < m.codomain
    ensures Echelon(R, ScaleRow(R, m, |piv|, c), piv, lead)
  {
    MulZero(R, c);
  }

  /** The state between scaling the new pivot row r to one at column
      `lead` and clearing that column. */
  ghost predicate Ready<T>(R: Ring<T>, m: Mat<T>, piv: seq<nat>, lead: nat) {
    Echelon(R, m, piv, lead) && |piv| < m.codomain && lead < m.domain && At(m, lead, |piv|) == R.one
  }

  /** Column `lead` cleared in the rows before i (other than r); columns
      before `lead` and row r as in m1; rows from i on untouched. */
  ghost predicate Cleared<T>(R: Ring<T>, m1: Mat<T>, m: Mat<T>, r: nat, lead: nat, i: nat) {
    && Shaped(m1) && Shaped(m) && m.domain == m1.domain && m.codomain == m1.codomain
    && r < m.codomain && lead < m.domain && i <= m.codomain
    && m.rows[r] == m1.rows[r]
    && (forall x, y :: 0 <= x < lead && 0 <= y < m.codomain ==> At(m, x, y) == At(m1, x, y))
    && (forall y :: 0 <= y < i && y != r ==> At(m, lead, y) == R.zero)
    && (forall y :: i <= y < m.codomain ==> m.rows[y] == m1.rows[y])
  }

  /** Subtracting (entry (lead, i)) times the pivot row r from row i clears
      that entry and leaves the columns before `lead` alone. */
  lemma ClearedStep<T(!new)>(R: Ring<T>, m1: Mat<T>, m: Mat<T>, piv: seq<nat>, lead: nat, i: nat)
    requires IsCRing(R) && Ready(R, m1, piv, lead) && Elems(R, m) && i < m.codomain && i != |piv|
    requires Cleared(R, m1, m, |piv|, lead, i)
    ensures Cleared(R, m1, AddRowMultiple(R, m, i, |piv|, R.neg(At(m, lead, i))), |piv|, lead, i + 1)
  {
    var r := |piv|;
    var f := At(m, lead, i);
    var nf := R.neg(f);
    var m' := AddRowMultiple(R, m, i, r, nf);
    Laws(R, f, f, f);
    MulZero(R, nf);
    if !R.isZero(nf) {
      forall x | 0 <= x < lead ensures At(m', x, i) == At(m, x, i) {
        assert At(m, x, r) == R.zero;
        Laws(R, At(m, x, i), R.zero, R.zero);
      }
      assert At(m', lead, i) == R.zero by {
        assert At(m, lead, r) == R.one;
        Laws(R, nf, R.one, R.one);
        Laws(R, f, nf, nf);
      }
    } else {
      if f != R.zero {
        NegNonZero(R, f);
      }
    }
  }

  /** Once column `lead` is cleared everywhere, row r joins the pivot rows. */
  lemma ClearedDone<T>(R: Ring<T>, m1: Mat<T>, m: Mat<T>, piv: seq<nat>, lead: nat)
    requires Ready(R, m1, piv, lead) && Cleared(R, m1, m, |piv|, lead, m.codomain)
    ensures Echelon(R, m, piv + [lead], lead + 1)
  {
    var r := |piv|;
    var p := piv + [lead];
    forall k | 0 <= k < |p| ensures At(m, p[k], k) == R.one {
      if k < r {
        assert At(m, p[k], k) == At(m1, piv[k], k);
      }
    }
    forall k, y | 0 <= k < |p| && 0 <= y < m.codomain && y != k ensures At(m, p[k], y) == R.zero {
      if k < r {
        assert At(m, p[k], y) == At(m1, piv[k], y);
      }
    }
    forall k, x | 0 <= k < |p| && 0 <= x < p[k] ensures At(m, x, k) == R.zero {
      if k < r {
        assert At(m, x, k) == At(m1, x, k);
      } else {
        assert At(m, x, r) == At(m1, x, r);
      }
    }
  }

  /** The pivot search of `rref`: starting at row r and column lead0, go
      down the column, and on reaching the bottom move one column right. On
      finding a nonzero entry (lead, i) the rows from r on are zero before
      column lead; otherwise they are zero in every column. */
  method FindPivot<T(!new)>(R: Ring<T>, m: FlatMatrix<T>, r: nat, lead0: nat) returns (i: nat, lead: nat, found: bool)
    requires IsField(R) && m.Valid() && Elems(R, m.Value()) && r < m.codomain && lead0 < m.domain
    requires ZeroBelow(R, m.Value(), r, lead0)
    ensures found ==> r <= i < m.codomain && lead0 <= lead < m.domain && At(m.Value(), lead, i) != R.zero
    ensures lead <= m.domain && ZeroBelow(R, m.Value(), r, lead)
    ensures !found ==> lead == m.domain
  {
    ghost var v := m.Value();
    i, lead, found := r, lead0, true;
    while found && R.isZero(m.GetElement(i, lead))
      invariant r <= i < v.codomain && lead0 <= lead <= v.domain
      invariant found <==> lead < v.domain
      invariant ZeroBelow(R, v, r, lead)
      invariant found ==> forall y :: r <= y < i ==> At(v, lead, y) == R.zero
      decreases v.domain - lead, v.codomain - i
    {
      i := i + 1;
      if i == m.codomain {
        ZeroBelowNext(R, v, r, lead);
        i, lead := r, lead + 1;
        found := lead < m.domain;
      }
    }
  }

  /** `data[idx] *= c` along row y. */
  method ScaleRowInPlace<T(!new)>(R: Ring<T>, m: FlatMatrix<T>, y: nat, c: T)
    requires IsCRing(R) && m.Valid() && Elems(R, m.Value()) && y < m.codomain && R.elem(c)
    modifies m
    ensures m.Valid() && m.domain == old(m.domain) && m.codomain == old(m.codomain)
    ensures m.Value() == ScaleRow(R, old(m.Value()), y, c)
  {
    ghost var m0 := m.Value();
    ghost var e := ScaleRow(R, m0, y, c);
    OverwriteOneRow(m0, e, y);
    var d, cd := m.domain, m.codomain;
    for j := 0 to d
      invariant m.Valid() && m.domain == d && m.codomain == cd
      invariant m.Value() == Overwrite(m0, e, y, j)
    {
      var idx := m.GetIndex(j, y);
      var v := R.mul(m.data[idx], c);
      Laws(R, At(m0, j, y), c, c);
      StoreIsSetAt(m.data, d, cd, j, y, v);
      m.data := m.data[idx := v];
      OverwriteStep(m0, e, y, j);
    }
  }

  /** Row t minus f times row s, entry by entry. */
  function SubRowMultiple<T>(R: Ring<T>, m: Mat<T>, t: nat, s: nat, f: T): (r: Mat<T>)
    requires Shaped(m) && t < m.codomain && s < m.codomain
    ensures Shaped(r) && r.domain == m.domain && r.codomain == m.codomain
    ensures forall x, y :: 0 <= x < m.domain && 0 <= y < m.codomain ==>
              At(r, x, y) == if y == t then R.sub(At(m, x, t), R.mul(f, At(m, x, s))) else At(m, x, y)
  {
    m.(rows := m.rows[t := seq(m.domain, x requires 0 <= x < m.domain => R.sub(m.rows[t][x], R.mul(f, m.rows[s][x])))])
  }

  /** Subtracting f times a row is adding -f times it. */
  lemma SubIsAddNeg<T(!new)>(R: Ring<T>, m: Mat<T>, t: nat, s: nat, f: T)
    requires IsCRing(R) && Elems(R, m) && t < m.codomain && s < m.codomain && R.elem(f)
    ensures SubRowMultiple(R, m, t, s, f) == AddRowMultiple(R, m, t, s, R.neg(f))
  {
    var l, r := SubRowMultiple(R, m, t, s, f), AddRowMultiple(R, m, t, s, R.neg(f));
    forall x, y | 0 <= x < m.domain && 0 <= y < m.codomain ensures At(l, x, y) == At(r, x, y) {
      if y == t {
        var a, b := At(m, x, t), At(m, x, s);
        assert R.elem(a) && R.elem(b);
        Laws(R, a, R.mul(f, b), R.mul(f, b));
        NegMul(R, f, b);
        if R.isZero(R.neg(f)) {
          if f != R.zero {
            NegNonZero(R, f);
          }
          MulZero(R, b);
          SubSelf(R, a);
        }
      }
    }
    Extensionality(l, r);
  }

  /** Subtracting a multiple of row s from row t changes only row t, so it
      is row t overwritten entry by entry. */
  lemma SubRowOverwrite<T>(R: Ring<T>, m: Mat<T>, t: nat, s: nat, f: T)
    requires Shaped(m) && t < m.codomain && s < m.codomain
    ensures var e := SubRowMultiple(R, m, t, s, f);
            Overwrite(m, e, t, 0) == m && Overwrite(m, e, t, m.domain) == e
  {
    var e := SubRowMultiple(R, m, t, s, f);
    assert forall y :: 0 <= y < m.codomain && y != t ==> e.rows[y] == m.rows[y];
    OverwriteOneRow(m, e, t);
  }

  /** The elimination loop of `rref` on one row: `data[idx] -= f * el`. */
  method EliminateRow<T>(R: Ring<T>, m: FlatMatrix<T>, t: nat, s: nat, f: T)
    requires m.Valid() && t < m.codomain && s < m.codomain && t != s
    modifies m
    ensures m.Valid() && m.domain == old(m.domain) && m.codomain == old(m.codomain)
    ensures m.Value() == SubRowMultiple(R, old(m.Value()), t, s, f)
  {
    ghost var m0 := m.Value();
    ghost var e := SubRowMultiple(R, m0, t, s, f);
    SubRowOverwrite(R, m0, t, s, f);
    var d, cd := m.domain, m.codomain;
    for j := 0 to d
      invariant m.Valid() && m.domain == d && m.codomain == cd
      invariant m.Value() == Overwrite(m0, e, t, j)
    {
      EliminateEntry(R, m, t, s, f, j, m0, e);
    }
  }

  /** One entry of the elimination loop: entry j of row t. */
  method EliminateEntry<T>(R: Ring<T>, m: FlatMatrix<T>, t: nat, s: nat, f: T, j: nat, ghost m0: Mat<T>, ghost e: Mat<T>)
    requires m.Valid() && t < m.codomain && s < m.codomain && t != s && j < m.domain
    requires Shaped(m0) && m0.domain == m.domain && m0.codomain == m.codomain
    requires e == SubRowMultiple(R, m0, t, s, f) && m.Value() == Overwrite(m0, e, t, j)
    modifies m
    ensures m.Valid() && m.domain == old(m.domain) && m.codomain == old(m.codomain)
    ensures m.Value() == Overwrite(m0, e, t, j + 1)
  {
    var idx := m.GetIndex(j, t);
    var el := m.GetElement(s, j);
    var v := R.sub(m.data[idx], R.mul(f, el));
    StoreIsSetAt(m.data, m.domain, m.codomain, j, t, v);
    m.data := m.data[idx := v];
    OverwriteStep(m0, e, t, j);
  }

  /** `rref`: Gauss–Jordan elimination in place. The result is in reduced
      row echelon form with pivot columns `piv`, and it is row equivalent to
      the input: result == u ∘ input and input == w ∘ result. */
  method Rref<T(!new)>(R: Ring<T>, m: FlatMatrix<T>) returns (ghost piv: seq<nat>, ghost u: Mat<T>, ghost w: Mat<T>)
    requires IsField(R) && m.Valid() && Elems(R, m.Value())
    modifies m
    ensures m.Valid() && m.domain == old(m.domain) && m.codomain == old(m.codomain)
    ensures IsRref(R, m.Value(), piv)
    ensures RowTransforms(R, old(m.Value()), m.Value(), u, w)
  {
    ghost var a := m.Value();
    RowTransformsRefl(R, a);
    u, w := IdentityMat(R, a.codomain), IdentityMat(R, a.codomain);
    piv := [];
    var lead: nat := 0;
    var r, done := 0, false;
    while r < m.codomain && !done
      invariant m.Valid() && m.domain == a.domain && m.codomain == a.codomain
      invariant |piv| == r <= m.codomain && Echelon(R, m.Value(), piv, lead)
      invariant done ==> lead == m.domain
      invariant RowTransforms(R, a, m.Value(), u, w)
      decreases m.codomain - r, if done then 0 else 1
    {
      lead, piv, u, w, done := RrefRound(R, m, r, lead, piv, a, u, w);
      if !done {
        r := r + 1;
      }
    }
    if !done {
      ghost var v := m.Value();
      EchelonFull(R, v, piv, lead);
    }
  }

  /** One round of the row loop of `rref`, for row r: stop when no column
      is left, or when no pivot is left (the rows from r down are then zero,
      so the form holds up to the last column); else place the pivot in row
      r and clear its column. */
  method RrefRound<T(!new)>(R: Ring<T>, m: FlatMatrix<T>, r: nat, lead: nat, ghost piv: seq<nat>,
                            ghost a: Mat<T>, ghost u: Mat<T>, ghost w: Mat<T>)
    returns (lead': nat, ghost piv': seq<nat>, ghost u': Mat<T>, ghost w': Mat<T>, done: bool)
    requires IsField(R) && m.Valid() && |piv| == r < m.codomain
    requires Echelon(R, m.Value(), piv, lead) && RowTransforms(R, a, m.Value(), u, w)
    modifies m
    ensures m.Valid() && m.domain == old(m.domain) && m.codomain == old(m.codomain)
    ensures RowTransforms(R, a, m.Value(), u', w')
    ensures Echelon(R, m.Value(), piv', lead')
    ensures done ==> piv' == piv && lead' == m.domain
    ensures !done ==> |piv'| == |piv| + 1 && piv'[..|piv|] == piv
  {
    if lead >= m.domain {
      return lead, piv, u, w, true;
    }
    var i, found;
    i, lead', found := FindPivot(R, m, r, lead);
    if found {
      lead', piv', u', w' := PivotRound(R, m, r, i, lead, lead', piv, a, u, w);
      done := false;
    } else {
      ghost var v := m.Value();
      EchelonWiden(R, v, piv, lead, lead');
      piv', u', w', done := piv, u, w, true;
    }
  }

  /** A round of `rref` that found its pivot at (lead, i): swap it up to
      row r, scale it to one, then clear its column. The new pivot list is
      `piv + [lead]` and the next column to scan is `lead + 1`. */
  method PivotRound<T(!new)>(R: Ring<T>, m: FlatMatrix<T>, r: nat, i: nat, ghost lead0: nat, lead: nat, ghost piv: seq<nat>,
                             ghost a: Mat<T>, ghost u: Mat<T>, ghost w: Mat<T>)
    returns (next: nat, ghost piv': seq<nat>, ghost u': Mat<T>, ghost w': Mat<T>)
    requires IsField(R) && m.Valid() && |piv| == r <= i < m.codomain && lead0 <= lead < m.domain
    requires Echelon(R, m.Value(), piv, lead0) && ZeroBelow(R, m.Value(), r, lead)
    requires At(m.Value(), lead, i) != R.zero
    requires RowTransforms(R, a, m.Value(), u, w)
    modifies m
    ensures m.Valid() && m.domain == old(m.domain) && m.codomain == old(m.codomain)
    ensures next == lead + 1 && piv' == piv + [lead]
    ensures Echelon(R, m.Value(), piv', next) && RowTransforms(R, a, m.Value(), u', w')
  {
    ghost var v := m.Value();
    EchelonWiden(R, v, piv, lead0, lead);
    u', w' := PlacePivot(R, m, r, i, lead, piv, a, u, w);
    u', w' := ClearColumn(R, m, r, lead, piv, a, u', w');
    next, piv' := lead + 1, piv + [lead];
  }

  /** The middle of one round of `rref`: swap the pivot row i up to row r,
      then divide it by the pivot. */
  method PlacePivot<T(!new)>(R: Ring<T>, m: FlatMatrix<T>, r: nat, i: nat, lead: nat, ghost piv: seq<nat>,
                             ghost a: Mat<T>, ghost u: Mat<T>, ghost w: Mat<T>) returns (ghost u': Mat<T>, ghost w': Mat<T>)
    requires IsField(R) && m.Valid() && |piv| == r <= i < m.codomain && lead < m.domain
    requires Echelon(R, m.Value(), piv, lead) && At(m.Value(), lead, i) != R.zero
    requires RowTransforms(R, a, m.Value(), u, w)
    modifies m
    ensures m.Valid() && m.domain == old(m.domain) && m.codomain == old(m.codomain)
    ensures Ready(R, m.Value(), piv, lead) && RowTransforms(R, a, m.Value(), u', w')
  {
    var c := m.codomain;
    SwapKeepsTransforms(R, a, m.Value(), u, w, r, i);
    EchelonSwap(R, m.Value(), piv, lead, i);
    u', w' := Compose(R, SwapRows(IdentityMat(R, c), r, i), u), Compose(R, w, SwapRows(IdentityMat(R, c), r, i));
    m.SwapRows(r, i);

    var pivot := m.GetElement(r, lead);
    if !R.isZero(pivot) {
      var pivotInv := R.tryInverse(pivot).value;
      Laws(R, pivot, pivotInv, pivotInv);
      ScaleKeepsTransforms(R, a, m.Value(), u', w', r, pivotInv, pivot);
      EchelonScale(R, m.Value(), piv, lead, pivotInv);
      u', w' := Compose(R, ScaleRow(R, IdentityMat(R, c), r, pivotInv), u'), Compose(R, w', ScaleRow(R, IdentityMat(R, c), r, pivot));
      ScaleRowInPlace(R, m, r, pivotInv);
    }
  }

  /** The end of one round of `rref`: subtract multiples of the pivot row r
      from every other row to clear column `lead`. */
  method ClearColumn<T(!new)>(R: Ring<T>, m: FlatMatrix<T>, r: nat, lead: nat, ghost piv: seq<nat>,
                              ghost a: Mat<T>, ghost u: Mat<T>, ghost w: Mat<T>) returns (ghost u': Mat<T>, ghost w': Mat<T>)
    requires IsField(R) && m.Valid() && |piv| == r
    requires Ready(R, m.Value(), piv, lead) && RowTransforms(R, a, m.Value(), u, w)
    modifies m
    ensures m.Valid() && m.domain == old(m.domain) && m.codomain == old(m.codomain)
    ensures Echelon(R, m.Value(), piv + [lead], lead + 1) && RowTransforms(R, a, m.Value(), u', w')
  {
    var c := m.codomain;
    ghost var m1 := m.Value();
    u', w' := u, w;
    for i := 0 to c
      invariant m.Valid() && m.domain == m1.domain && m.codomain == c
      invariant Cleared(R, m1, m.Value(), r, lead, i)
      invariant RowTransforms(R, a, m.Value(), u', w')
    {
      if i != r {
        var factor := m.GetElement(i, lead);
        ClearedStep(R, m1, m.Value(), piv, lead, i);
        SubIsAddNeg(R, m.Value(), i, r, factor);
        AddKeepsTransforms(R, a, m.Value(), u', w', i, r, R.neg(factor));
        u', w' := Compose(R, AddRowMultiple(R, IdentityMat(R, c), i, r, R.neg(factor)), u'),
                  Compose(R, w', AddRowMultiple(R, IdentityMat(R, c), i, r, R.neg(R.neg(factor))));
        EliminateRow(R, m, i, r, factor);
      }
    }
    ClearedDone(R, m1, m.Value(), piv, lead);
  }

  // ---------------------------------------------------------------------
  // Pivots

  /** What `pivots` reports from row `row` on when the search resumes at
      column `col`: in each row the first nonzero entry at or after `col`,
      the search in the next row starting one column further on. Once the
      columns run out no further pivot is found. */
  function PivotScan<T>(R: Ring<T>, m: Mat<T>, row: nat, col: nat): (ps: seq<(nat, nat)>)
    requires Shaped(m)
    ensures forall k :: 0 <= k < |ps| ==> col <= ps[k].0 < m.domain && row <= ps[k].1 < m.codomain
    ensures row <= m.codomain ==> |ps| <= m.codomain - row
    decreases m.codomain - row, m.domain - col
  {
    if row >= m.codomain || col >= m.domain then []
    else if !R.isZero(At(m, col, row)) then [(col, row)] + PivotScan(R, m, row + 1, col + 1)
    else PivotScan(R, m, row, col + 1)
  }

  /** Pivot positions at nonzero entries, at most one per row, with columns
      and rows strictly increasing. */
  ghost predicate OrderedPivots<T>(R: Ring<T>, m: Mat<T>, ps: seq<(nat, nat)>) {
    && Shaped(m)
    && (forall k :: 0 <= k < |ps| ==> ps[k].0 < m.domain && ps[k].1 < m.codomain && !R.isZero(At(m, ps[k].0, ps[k].1)))
    && (forall k, k2 :: 0 <= k < k2 < |ps| ==> ps[k].0 < ps[k2].0 && ps[k].1 < ps[k2].1)
  }

  /** A nonzero position before and above every position of an ordered
      list extends it. */
  lemma OrderedCons<T>(R: Ring<T>, m: Mat<T>, p: (nat, nat), rest: seq<(nat, nat)>)
    requires OrderedPivots(R, m, rest)
    requires p.0 < m.domain && p.1 < m.codomain && !R.isZero(At(m, p.0, p.1))
    requires forall k :: 0 <= k < |rest| ==> p.0 < rest[k].0 && p.1 < rest[k].1
    ensures OrderedPivots(R, m, [p] + rest)
  {
    var ps := [p] + rest;
    forall k, k2 | 0 <= k < k2 < |ps| ensures ps[k].0 < ps[k2].0 && ps[k].1 < ps[k2].1 {
      if k > 0 {
        assert ps[k] == rest[k - 1] && ps[k2] == rest[k2 - 1];
      } else {
        assert ps[k2] == rest[k2 - 1];
      }
    }
    forall k | 0 <= k < |ps| ensures ps[k].0 < m.domain && ps[k].1 < m.codomain && !R.isZero(At(m, ps[k].0, ps[k].1)) {
      if k > 0 {
        assert ps[k] == rest[k - 1];
      }
    }
  }

  /** What `pivots` reports is ordered. */
  lemma {:induction false} PivotScanOrdered<T>(R: Ring<T>, m: Mat<T>, row: nat, col: nat)
    requires Shaped(m)
    ensures OrderedPivots(R, m, PivotScan(R, m, row, col))
    decreases m.codomain - row, m.domain - col
  {
    if row >= m.codomain || col >= m.domain {
    } else if !R.isZero(At(m, col, row)) {
      PivotScanOrdered(R, m, row + 1, col + 1);
      OrderedCons(R, m, (col, row), PivotScan(R, m, row + 1, col + 1));
    } else {
      PivotScanOrdered(R, m, row, col + 1);
      assert PivotScan(R, m, row, col) == PivotScan(R, m, row, col + 1);
    }
  }

  /** `pivots`: for each row, walk right from the column after the last
      pivot to the first nonzero entry. */
  method Pivots<T>(R: Ring<T>, m: FlatMatrix<T>) returns (ps: seq<(nat, nat)>)
    requires m.Valid()
    ensures ps == PivotScan(R, m.Value(), 0, 0)
  {
    ghost var v := m.Value();
    ghost var all := PivotScan(R, v, 0, 0);
    var col: nat := 0;
    var row: nat := 0;
    ps := [];
    while row < m.codomain
      invariant row <= v.codomain && col <= v.domain
      invariant ps + PivotScan(R, v, row, col) == all
    {
      col, ps := PivotStep(R, m, row, col, ps);
      row := row + 1;
    }
    PivotScanExhausted(R, v, row, col, ps);
  }

  /** Below the last row the scan adds nothing. */
  lemma PivotScanExhausted<T>(R: Ring<T>, m: Mat<T>, row: nat, col: nat, ps: seq<(nat, nat)>)
    requires Shaped(m) && row == m.codomain
    ensures ps + PivotScan(R, m, row, col) == ps
  {
    assert PivotScan(R, m, row, col) == [];
  }

  /** One row of `pivots`: scan it and record the pivot it holds, if any. */
  method PivotStep<T>(R: Ring<T>, m: FlatMatrix<T>, row: nat, col: nat, ps: seq<(nat, nat)>)
    returns (col': nat, ps': seq<(nat, nat)>)
    requires m.Valid() && row < m.codomain && col <= m.domain
    ensures col' <= m.domain
    ensures ps' + PivotScan(R, m.Value(), row + 1, col') == ps + PivotScan(R, m.Value(), row, col)
  {
    var hit;
    col', hit := ScanRow(R, m, row, col);
    PivotScanStep(R, m.Value(), row, col, ps, col', hit);
    ps' := if hit then ps + [(col' - 1, row)] else ps;
  }

  /** The inner loop of `pivots`: walk row `row` right from column `col`
      to its first nonzero entry; `hit` says whether one was found, and the
      scan goes on from the next row at the returned column. */
  method ScanRow<T>(R: Ring<T>, m: FlatMatrix<T>, row: nat, col: nat) returns (col': nat, hit: bool)
    requires m.Valid() && row < m.codomain && col <= m.domain
    ensures hit <==> NextNonzero(R, m.Value(), row, col) < m.domain
    ensures col' == if hit then NextNonzero(R, m.Value(), row, col) + 1 else m.domain
  {
    ghost var v := m.Value();
    col' := col;
    while col' < m.domain && R.isZero(m.GetElement(row, col'))
      invariant col <= col' <= v.domain
      invariant NextNonzero(R, v, row, col) == NextNonzero(R, v, row, col')
    {
      col' := col' + 1;
    }
    hit := col' < m.domain;
    if hit {
      col' := col' + 1;
    }
  }

  /** The first column from `col` on whose entry in `row` is nonzero, or the
      width when the rest of the row is zero. */
  function NextNonzero<T>(R: Ring<T>, m: Mat<T>, row: nat, col: nat): (c: nat)
    requires Shaped(m) && row < m.codomain && col <= m.domain
    ensures col <= c <= m.domain
    ensures c < m.domain ==> !R.isZero(At(m, c, row))
    ensures forall k :: col <= k < c ==> R.isZero(At(m, k, row))
    decreases m.domain - col
  {
    if col == m.domain || !R.isZero(At(m, col, row)) then col else NextNonzero(R, m, row, col + 1)
  }

  /** The scan of one row jumps straight to its next nonzero entry, or on to
      the next row when there is none. */
  lemma {:induction false} PivotScanJump<T>(R: Ring<T>, m: Mat<T>, row: nat, col: nat)
    requires Shaped(m) && row < m.codomain && col <= m.domain
    ensures NextNonzero(R, m, row, col) < m.domain ==>
      PivotScan(R, m, row, col) == [(NextNonzero(R, m, row, col), row)] + PivotScan(R, m, row + 1, NextNonzero(R, m, row, col) + 1)
    ensures NextNonzero(R, m, row, col) == m.domain ==> PivotScan(R, m, row, col) == [] == PivotScan(R, m, row + 1, m.domain)
    decreases m.domain - col
  {
    if col < m.domain && R.isZero(At(m, col, row)) {
      assert NextNonzero(R, m, row, col) == NextNonzero(R, m, row, col + 1);
      assert PivotScan(R, m, row, col) == PivotScan(R, m, row, col + 1);
      PivotScanJump(R, m, row, col + 1);
    }
  }

  /** What one row adds to the pivots collected so far: its next nonzero
      entry, if any, after which the scan resumes from the next row at the
      column `next` that `ScanRow` returns. */
  lemma PivotScanStep<T>(R: Ring<T>, m: Mat<T>, row: nat, col: nat, ps: seq<(nat, nat)>, next: nat, hit: bool)
    requires Shaped(m) && row < m.codomain && col <= m.domain
    requires hit <==> NextNonzero(R, m, row, col) < m.domain
    requires next == if hit then NextNonzero(R, m, row, col) + 1 else m.domain
    ensures hit ==> 0 < next && (ps + [(next - 1, row)]) + PivotScan(R, m, row + 1, next) == ps + PivotScan(R, m, row, col)
    ensures !hit ==> ps + PivotScan(R, m, row + 1, next) == ps + PivotScan(R, m, row, col)
  {
    PivotScanJump(R, m, row, col);
    if hit {
      var p: (nat, nat) := (next - 1, row);
      var rest := PivotScan(R, m, row + 1, next);
      assert (ps + [p]) + rest == ps + ([p] + rest);
    }
  }

  /** The pairs (piv[k], k) for k from r on. */
  function PivotPairs(piv: seq<nat>, r: nat): (ps: seq<(nat, nat)>)
    ensures r <= |piv| ==> |ps| == |piv| - r
    ensures forall k :: 0 <= k < |ps| ==> r + k < |piv| && ps[k] == (piv[r + k], r + k)
    decreases |piv| - r
  {
    if r >= |piv| then [] else [(piv[r], r)] + PivotPairs(piv, r + 1)
  }

  /** No pivot is found in rows that are zero. */
  lemma {:induction false} ZeroRowsScan<T(!new)>(R: Ring<T>, m: Mat<T>, row: nat, col: nat)
    requires IsCRing(R) && Shaped(m) && ZeroBelow(R, m, row, m.domain)
    ensures PivotScan(R, m, row, col) == []
    decreases m.domain - col
  {
    if row < m.codomain && col < m.domain {
      assert R.isZero(At(m, col, row));
      ZeroRowsScan(R, m, row, col + 1);
    }
  }

  /** On a reduced matrix the scan from row r finds exactly the pivots
      (piv[k], k) from k = r on. */
  lemma {:induction false} RrefScan<T(!new)>(R: Ring<T>, m: Mat<T>, piv: seq<nat>, r: nat, col: nat)
    requires IsField(R) && IsRref(R, m, piv) && r <= |piv| && col <= m.domain
    requires r > 0 ==> piv[r - 1] < col
    requires r < |piv| ==> col <= piv[r]
    ensures PivotScan(R, m, r, col) == PivotPairs(piv, r)
    decreases m.codomain - r, m.domain - col
  {
    if r == |piv| {
      ZeroRowsScan(R, m, r, col);
    } else if col < piv[r] {
      assert R.isZero(At(m, col, r));
      RrefScan(R, m, piv, r, col + 1);
    } else {
      assert !R.isZero(At(m, col, r));
      RrefScan(R, m, piv, r + 1, col + 1);
    }
  }

  /** The columns of the pivots (`.map(|x| x.0)`). */
  function PivotCols(ps: seq<(nat, nat)>): (pc: seq<nat>)
    ensures |pc| == |ps| && forall k :: 0 <= k < |ps| ==> pc[k] == ps[k].0
  {
    seq(|ps|, k requires 0 <= k < |ps| => ps[k].0)
  }

  /** On a matrix in reduced row echelon form `pivots` reports exactly its
      pivot columns, each in its own row. */
  lemma PivotsOfRref<T(!new)>(R: Ring<T>, m: Mat<T>, piv: seq<nat>)
    requires IsField(R) && IsRref(R, m, piv)
    ensures PivotScan(R, m, 0, 0) == PivotPairs(piv, 0)
    ensures PivotCols(PivotScan(R, m, 0, 0)) == piv
  {
    RrefScan(R, m, piv, 0, 0);
  }

  // ---------------------------------------------------------------------
  // First nonzero entry

  /** Every entry is zero. */
  ghost predicate AllZero<T>(R: Ring<T>, m: Mat<T>) {
    Shaped(m) && forall x, y :: 0 <= x < m.domain && 0 <= y < m.codomain ==> R.isZero(At(m, x, y))
  }

  /** `first_non_zero_entry`: the first nonzero entry in row-major order, as
      (row, column), or None when every entry is zero. */
  method FirstNonZeroEntry<T>(R: Ring<T>, m: FlatMatrix<T>) returns (r: Option<(nat, nat)>)
    requires m.Valid()
    ensures r.None? <==> AllZero(R, m.Value())
    ensures r.Some? ==> r.value.0 < m.codomain && r.value.1 < m.domain
    ensures r.Some? ==> !R.isZero(At(m.Value(), r.value.1, r.value.0))
    ensures r.Some? ==> forall x, y ::
              (0 <= x < m.domain && 0 <= y < m.codomain && (y < r.value.0 || (y == r.value.0 && x < r.value.1)))
              ==> R.isZero(At(m.Value(), x, y))
  {
    for y := 0 to m.codomain
      invariant forall x2, y2 :: 0 <= x2 < m.domain && 0 <= y2 < y ==> R.isZero(At(m.Value(), x2, y2))
    {
      for x := 0 to m.domain
        invariant forall x2, y2 :: 0 <= x2 < m.domain && 0 <= y2 < y ==> R.isZero(At(m.Value(), x2, y2))
        invariant forall x2 :: 0 <= x2 < x ==> R.isZero(At(m.Value(), x2, y))
      {
        if !R.isZero(m.GetElement(y, x)) {
          return Some((y, x));
        }
      }
    }
    return None;
  }

  // ---------------------------------------------------------------------
  // The kernel of a reduced matrix

  /** The columns below d that hold no pivot, in increasing order (the
      `free_vars` of `rref_kernel`). */
  function FreeCols(d: nat, pc: seq<nat>): (free: seq<nat>)
    ensures forall i :: 0 <= i < |free| ==> free[i] < d && free[i] !in pc
    ensures forall i, j :: 0 <= i < j < |free| ==> free[i] < free[j]
  {
    if d == 0 then [] else FreeCols(d - 1, pc) + (if d - 1 in pc then [] else [d - 1])
  }

  /** Every column below d without a pivot is a free column. */
  lemma {:induction false} FreeColsComplete(d: nat, pc: seq<nat>, x: nat)
    requires x < d && x !in pc
    ensures x in FreeCols(d, pc)
  {
    if x < d - 1 {
      FreeColsComplete(d - 1, pc, x);
    }
  }

  /** The pivot columns fit m: no more of them than rows, each a column. */
  ghost predicate KernelInputs<T>(m: Mat<T>, pc: seq<nat>) {
    Shaped(m) && |pc| <= m.codomain && forall j :: 0 <= j < |pc| ==> pc[j] < m.domain
  }

  /** The row `rref_kernel` writes for the free column f once the one at f
      and the first k pivot columns are written: entry pc[j] is the negated
      entry (f, j) of m. */
  function KernelRowUpTo<T>(R: Ring<T>, m: Mat<T>, pc: seq<nat>, f: nat, k: nat): (row: seq<T>)
    requires KernelInputs(m, pc) && f < m.domain && k <= |pc|
    ensures |row| == m.domain
  {
    if k == 0 then UnitVec(R, m.domain, f)
    else KernelRowUpTo(R, m, pc, f, k - 1)[pc[k - 1] := R.neg(At(m, f, k - 1))]
  }

  /** The matrix `rref_kernel` returns: one row per free column. */
  function KernelMat<T>(R: Ring<T>, m: Mat<T>, pc: seq<nat>, free: seq<nat>): (k: Mat<T>)
    requires KernelInputs(m, pc) && forall i :: 0 <= i < |free| ==> free[i] < m.domain
    ensures Shaped(k) && k.domain == m.domain && k.codomain == |free|
    ensures forall i :: 0 <= i < |free| ==> k.rows[i] == KernelRowUpTo(R, m, pc, free[i], |pc|)
  {
    Mat(m.domain, |free|, seq(|free|, i requires 0 <= i < |free| => KernelRowUpTo(R, m, pc, free[i], |pc|)))
  }

  /** The kernel storage after the rows before i are written. */
  ghost function PartialKernel<T>(R: Ring<T>, m: Mat<T>, pc: seq<nat>, free: seq<nat>, i: nat): (k: Mat<T>)
    requires KernelInputs(m, pc) && forall j :: 0 <= j < |free| ==> free[j] < m.domain
    ensures Shaped(k) && k.domain == m.domain && k.codomain == |free|
  {
    var rows := seq(|free|, j requires 0 <= j < |free| =>
      if j < i then KernelRowUpTo(R, m, pc, free[j], |pc|) else Zeros(R.zero, m.domain));
    assert forall j :: 0 <= j < |free| ==> |rows[j]| == m.domain;
    Mat(m.domain, |free|, rows)
  }

  /** `PartialKernel` with row i replaced. */
  ghost function WithRow<T>(k: Mat<T>, i: nat, row: seq<T>): (r: Mat<T>)
    requires Shaped(k) && i < k.codomain && |row| == k.domain
    ensures Shaped(r) && r.domain == k.domain && r.codomain == k.codomain
  {
    k.(rows := k.rows[i := row])
  }

  lemma PartialKernelEnds<T>(R: Ring<T>, m: Mat<T>, pc: seq<nat>, free: seq<nat>)
    requires KernelInputs(m, pc) && forall j :: 0 <= j < |free| ==> free[j] < m.domain
    ensures PartialKernel(R, m, pc, free, 0) == ZeroMat(R, m.domain, |free|)
    ensures PartialKernel(R, m, pc, free, |free|) == KernelMat(R, m, pc, free)
  {
    Extensionality(PartialKernel(R, m, pc, free, 0), ZeroMat(R, m.domain, |free|));
  }

  /** Writing the one of row i starts that row. */
  lemma PartialKernelStart<T>(R: Ring<T>, m: Mat<T>, pc: seq<nat>, free: seq<nat>, i: nat)
    requires KernelInputs(m, pc) && forall j :: 0 <= j < |free| ==> free[j] < m.domain
    requires i < |free|
    ensures var p := PartialKernel(R, m, pc, free, i);
            SetAt(p, free[i], i, R.one) == WithRow(p, i, KernelRowUpTo(R, m, pc, free[i], 0))
  {
    assert Zeros(R.zero, m.domain)[free[i] := R.one] == UnitVec(R, m.domain, free[i]);
  }

  /** Writing the entry of the k-th pivot column of row i. */
  lemma PartialKernelWrite<T>(R: Ring<T>, m: Mat<T>, pc: seq<nat>, free: seq<nat>, i: nat, k: nat)
    requires KernelInputs(m, pc) && forall j :: 0 <= j < |free| ==> free[j] < m.domain
    requires i < |free| && k < |pc|
    ensures var p := PartialKernel(R, m, pc, free, i);
            SetAt(WithRow(p, i, KernelRowUpTo(R, m, pc, free[i], k)), pc[k], i, R.neg(At(m, free[i], k)))
            == WithRow(p, i, KernelRowUpTo(R, m, pc, free[i], k + 1))
  {
  }

  /** A finished row i is row i of the next partial kernel. */
  lemma PartialKernelNext<T>(R: Ring<T>, m: Mat<T>, pc: seq<nat>, free: seq<nat>, i: nat)
    requires KernelInputs(m, pc) && forall j :: 0 <= j < |free| ==> free[j] < m.domain
    requires i < |free|
    ensures var p := PartialKernel(R, m, pc, free, i);
            WithRow(p, i, KernelRowUpTo(R, m, pc, free[i], |pc|)) == PartialKernel(R, m, pc, free, i + 1)
  {
    var p := PartialKernel(R, m, pc, free, i);
    var row := KernelRowUpTo(R, m, pc, free[i], |pc|);
    assert WithRow(p, i, row).rows == PartialKernel(R, m, pc, free, i + 1).rows;
  }

  /** The `free_vars` loop of `rref_kernel`: the columns below d not in
      `pc`, in order. */
  method FreeColumns(d: nat, pc: seq<nat>) returns (free: seq<nat>)
    ensures free == FreeCols(d, pc)
  {
    free := [];
    for j := 0 to d
      invariant free == FreeCols(j, pc)
    {
      if j !in pc {
        free := free + [j];
      }
    }
  }

  /** One round of the row loop of `rref_kernel`: row i of the storage gets
      its one at free[i] and the negated entries at the pivot columns. */
  method WriteKernelRow<T>(R: Ring<T>, m: FlatMatrix<T>, pc: seq<nat>, free: seq<nat>, i: nat, kernel: seq<T>)
    returns (kernel': seq<T>)
    requires m.Valid() && KernelInputs(m.Value(), pc) && forall j :: 0 <= j < |free| ==> free[j] < m.domain
    requires i < |free| && |kernel| == Area(m.domain, |free|)
    requires MatOf(kernel, m.domain, |free|) == PartialKernel(R, m.Value(), pc, free, i)
    ensures |kernel'| == Area(m.domain, |free|)
    ensures MatOf(kernel', m.domain, |free|) == PartialKernel(R, m.Value(), pc, free, i + 1)
  {
    var d, nf, f := m.domain, |free|, free[i];
    ghost var mv := m.Value();
    PartialKernelStart(R, mv, pc, free, i);
    StoreIsSetAt(kernel, d, nf, f, i, R.one);
    kernel' := kernel[Offset(d, f, i) := R.one];
    for row := 0 to |pc|
      invariant |kernel'| == Area(d, nf)
      invariant MatOf(kernel', d, nf) == WithRow(PartialKernel(R, mv, pc, free, i), i, KernelRowUpTo(R, mv, pc, f, row))
    {
      var v := R.neg(m.GetElement(row, f));
      PartialKernelWrite(R, mv, pc, free, i, row);
      StoreIsSetAt(kernel', d, nf, pc[row], i, v);
      kernel' := kernel'[Offset(d, pc[row], i) := v];
    }
    PartialKernelNext(R, mv, pc, free, i);
  }

  /** `rref_kernel`: one row per column without a pivot, with a one at that
      column and, at the column of the j-th pivot, minus the entry of row j
      in the free column. */
  method RrefKernel<T>(R: Ring<T>, m: FlatMatrix<T>) returns (k: FlatMatrix<T>)
    requires m.Valid()
    ensures fresh(k) && k.Valid()
    ensures var pc := PivotCols(PivotScan(R, m.Value(), 0, 0));
            k.Value() == KernelMat(R, m.Value(), pc, FreeCols(m.domain, pc))
  {
    var ps := Pivots(R, m);
    var pc := PivotCols(ps);
    var d := m.domain;
    var free := FreeColumns(d, pc);
    var nf := |free|;
    var kernel := seq(Size(d, nf), _ => R.zero);
    ZeroStorage(R, kernel, d, nf);
    PartialKernelEnds(R, m.Value(), pc, free);
    for i := 0 to nf
      invariant |kernel| == Area(d, nf)
      invariant MatOf(kernel, d, nf) == PartialKernel(R, m.Value(), pc, free, i)
    {
      kernel := WriteKernelRow(R, m, pc, free, i, kernel);
    }
    k := new FlatMatrix.Raw(kernel, d, nf);
  }

  // ---------------------------------------------------------------------
  // What the kernel rows are

  /** Strictly increasing. */
  ghost predicate Increasing(pc: seq<nat>) {
    forall j, j2 :: 0 <= j < j2 < |pc| ==> pc[j] < pc[j2]
  }

  /** The entries of a kernel row once k pivot columns are written: the one
      at f, the negated entries at those pivot columns, zero elsewhere. */
  ghost predicate KernelRowIs<T>(R: Ring<T>, m: Mat<T>, pc: seq<nat>, f: nat, k: nat, row: seq<T>)
    requires KernelInputs(m, pc) && k <= |pc|
  {
    && |row| == m.domain && f < m.domain
    && row[f] == R.one
    && (forall j :: 0 <= j < k ==> row[pc[j]] == R.neg(At(m, f, j)))
    && (forall x :: 0 <= x < m.domain && x != f && x !in pc[..k] ==> row[x] == R.zero)
  }

  /** Later writes of `rref_kernel` never clobber earlier ones, since the
      pivot columns are distinct and the free column is not one of them. */
  lemma {:induction false} KernelRowEntries<T>(R: Ring<T>, m: Mat<T>, pc: seq<nat>, f: nat, k: nat)
    requires KernelInputs(m, pc) && f < m.domain && k <= |pc| && f !in pc && Increasing(pc)
    ensures KernelRowIs(R, m, pc, f, k, KernelRowUpTo(R, m, pc, f, k))
  {
    if k > 0 {
      KernelRowEntries(R, m, pc, f, k - 1);
      assert pc[..k] == pc[..k - 1] + [pc[k - 1]];
    }
  }

  /** Two lists of pivot columns that agree below n leave the same free
      columns below n. */
  lemma {:induction false} FreeColsAgree(n: nat, pc: seq<nat>, pc': seq<nat>)
    requires forall x :: 0 <= x < n ==> (x in pc <==> x in pc')
    ensures FreeCols(n, pc) == FreeCols(n, pc')
  {
    if n > 0 {
      FreeColsAgree(n - 1, pc, pc');
    }
  }

  /** Strictly increasing naturals below d number at most d. */
  lemma {:induction false} IncreasingBounded(pc: seq<nat>, d: nat)
    requires Increasing(pc) && forall j :: 0 <= j < |pc| ==> pc[j] < d
    ensures |pc| <= d
  {
    if pc != [] {
      var n := |pc| - 1;
      assert pc[n] < d;
      IncreasingBounded(pc[..n], pc[n]);
    }
  }

  /** There are d − |pc| free columns: the number of kernel rows is the
      number of columns minus the rank. */
  lemma {:induction false} FreeColsCount(d: nat, pc: seq<nat>)
    requires Increasing(pc) && forall j :: 0 <= j < |pc| ==> pc[j] < d
    ensures |pc| <= d && |FreeCols(d, pc)| == d - |pc|
  {
    IncreasingBounded(pc, d);
    if d == 0 {
    } else if d - 1 in pc {
      var n := |pc| - 1;
      var j :| 0 <= j < |pc| && pc[j] == d - 1;
      assert pc[n] < d;
      assert j == n;
      var pc' := pc[..n];
      FreeColsAgree(d - 1, pc, pc');
      FreeColsCount(d - 1, pc');
    } else {
      forall j | 0 <= j < |pc| ensures pc[j] < d - 1 {
        assert pc[j] != d - 1;
      }
      FreeColsCount(d - 1, pc);
    }
  }

  /** The kernel row of a free column of a reduced matrix is a kernel vector
      of it: at row y < rank the product picks up entry (f, y) from the one
      and its negation from the pivot column piv[y]; the other rows are
      zero. */
  lemma KernelRowSound<T(!new)>(R: Ring<T>, m: Mat<T>, piv: seq<nat>, f: nat)
    requires IsCRing(R) && Elems(R, m) && IsRref(R, m, piv) && f < m.domain && f !in piv
    ensures KernelInputs(m, piv) && KernelVector(R, m, KernelRowUpTo(R, m, piv, f, |piv|))
  {
    var v := KernelRowUpTo(R, m, piv, f, |piv|);
    KernelRowEntries(R, m, piv, f, |piv|);
    assert piv[..|piv|] == piv;
    ElemsRowsColumns(R, m);
    forall x | 0 <= x < |v| ensures R.elem(v[x]) {
      if x != f && x in piv {
        var j :| 0 <= j < |piv| && piv[j] == x;
      }
    }
    forall y | 0 <= y < m.codomain ensures Apply(R, m, v)[y] == R.zero {
      var u := m.rows[y];
      if y >= |piv| {
        forall x | 0 <= x < m.domain ensures u[x] == R.zero {
          assert At(m, x, y) == R.zero;
        }
        assert u == Zeros(R.zero, m.domain);
        DotZerosLeft(R, v);
      } else {
        forall x | 0 <= x < m.domain && x != f && x != piv[y] ensures R.mul(u[x], v[x]) == R.zero {
          if x in piv {
            var j :| 0 <= j < |piv| && piv[j] == x;
            assert u[x] == At(m, piv[j], y) == R.zero;
            MulZero(R, v[x]);
          } else {
            MulZero(R, u[x]);
          }
        }
        DotSparse(R, u, v, f, piv[y]);
        var e := u[f];
        Laws(R, e, R.one, R.one);
        Laws(R, R.neg(e), R.one, R.one);
        Laws(R, R.one, R.neg(e), R.one);
        Laws(R, e, e, e);
      }
    }
  }

  /** Every row `rref_kernel` builds from a reduced matrix is in its kernel,
      and is a row of ring elements. */
  lemma RrefKernelSound<T(!new)>(R: Ring<T>, m: Mat<T>, piv: seq<nat>)
    requires IsCRing(R) && Elems(R, m) && IsRref(R, m, piv)
    ensures KernelInputs(m, piv)
    ensures var k := KernelMat(R, m, piv, FreeCols(m.domain, piv));
            Elems(R, k) && Annihilates(R, m, k)
  {
    var free := FreeCols(m.domain, piv);
    var k := KernelMat(R, m, piv, free);
    forall i | 0 <= i < |free| ensures KernelVector(R, m, k.rows[i]) {
      KernelRowSound(R, m, piv, free[i]);
    }
  }

  /** A reduced matrix has only the trivial kernel exactly when every column
      holds a pivot. */
  lemma FullRankIffTrivial<T(!new)>(R: Ring<T>, m: Mat<T>, piv: seq<nat>)
    requires IsField(R) && Elems(R, m) && IsRref(R, m, piv)
    ensures |piv| == m.domain <==> TrivialKernel(R, m)
  {
    FreeColsCount(m.domain, piv);
    if |piv| == m.domain {
      FullRankTrivial(R, m, piv);
    } else {
      FreeColumnNontrivial(R, m, piv);
    }
  }

  /** With as many pivots as columns the kernel is trivial. */
  lemma FullRankTrivial<T(!new)>(R: Ring<T>, m: Mat<T>, piv: seq<nat>)
    requires IsField(R) && Elems(R, m) && IsRref(R, m, piv) && |piv| == m.domain
    ensures TrivialKernel(R, m)
  {
    FreeColsCount(m.domain, piv);
    forall x | 0 <= x < m.domain ensures x in piv {
      if x !in piv {
        FreeColsComplete(m.domain, piv, x);
      }
    }
    forall v | KernelVector(R, m, v) ensures v == Zeros(R.zero, m.domain) {
      NoFreeColumnKernel(R, m, piv, v);
    }
  }

  /** A column without a pivot gives a nonzero kernel vector. */
  lemma FreeColumnNontrivial<T(!new)>(R: Ring<T>, m: Mat<T>, piv: seq<nat>)
    requires IsField(R) && Elems(R, m) && IsRref(R, m, piv) && |piv| != m.domain
    ensures !TrivialKernel(R, m)
  {
    FreeColsCount(m.domain, piv);
    var f := FreeCols(m.domain, piv)[0];
    KernelRowSound(R, m, piv, f);
    KernelRowEntries(R, m, piv, f, |piv|);
    var v := KernelRowUpTo(R, m, piv, f, |piv|);
    assert v[f] != Zeros(R.zero, m.domain)[f];
  }

  /** With a pivot in every column a kernel vector is zero: entry piv[y] of
      v is the product of row y with v. */
  lemma NoFreeColumnKernel<T(!new)>(R: Ring<T>, m: Mat<T>, piv: seq<nat>, v: seq<T>)
    requires IsCRing(R) && Elems(R, m) && IsRref(R, m, piv) && KernelVector(R, m, v)
    requires forall x :: 0 <= x < m.domain ==> x in piv
    ensures v == Zeros(R.zero, m.domain)
  {
    ZeroOnFreeKernel(R, m, piv, v);
  }

  /** A kernel vector of a reduced matrix that is zero at every free column
      is zero: entry piv[y] of v is the product of row y with v. */
  lemma ZeroOnFreeKernel<T(!new)>(R: Ring<T>, m: Mat<T>, piv: seq<nat>, v: seq<T>)
    requires IsCRing(R) && Elems(R, m) && IsRref(R, m, piv) && KernelVector(R, m, v)
    requires forall x :: 0 <= x < m.domain && x !in piv ==> v[x] == R.zero
    ensures v == Zeros(R.zero, m.domain)
  {
    ElemsRowsColumns(R, m);
    forall x | 0 <= x < m.domain ensures v[x] == R.zero {
      if x in piv {
        var y :| 0 <= y < |piv| && piv[y] == x;
        var u := m.rows[y];
        forall x2 | 0 <= x2 < m.domain && x2 != x ensures R.mul(u[x2], v[x2]) == R.zero {
          if x2 in piv {
            var j :| 0 <= j < |piv| && piv[j] == x2;
            assert u[x2] == At(m, piv[j], y) == R.zero;
            MulZero(R, v[x2]);
          } else {
            MulZero(R, u[x2]);
          }
        }
        DotSparse(R, u, v, x, m.domain);
        assert Apply(R, m, v)[y] == R.zero;
        Laws(R, R.mul(R.one, v[x]), R.zero, R.zero);
        Laws(R, v[x], R.one, R.one);
      }
    }
  }

  /** The entries of x at the free columns. */
  function FreeEntries<T>(x: seq<T>, free: seq<nat>): (c: seq<T>)
    requires forall i :: 0 <= i < |free| ==> free[i] < |x|
    ensures |c| == |free| && forall i :: 0 <= i < |free| ==> c[i] == x[free[i]]
  {
    seq(|free|, i requires 0 <= i < |free| => x[free[i]])
  }

  /** Column free[j] of the kernel rows is the j-th unit vector: each row
      has its one at its own free column and zero at the others. */
  lemma KernelMatColumn<T>(R: Ring<T>, m: Mat<T>, piv: seq<nat>, j: nat)
    requires IsRref(R, m, piv) && KernelInputs(m, piv) && j < |FreeCols(m.domain, piv)|
    ensures var free := FreeCols(m.domain, piv);
            Column(KernelMat(R, m, piv, free), free[j]) == UnitVec(R, |free|, j)
  {
    var free := FreeCols(m.domain, piv);
    var k0 := KernelMat(R, m, piv, free);
    assert piv[..|piv|] == piv;
    forall i | 0 <= i < |free| ensures k0.rows[i][free[j]] == if i == j then R.one else R.zero {
      KernelRowEntries(R, m, piv, free[i], |piv|);
    }
  }

  /** The kernel rows of a reduced matrix span its kernel: a kernel vector x
      is the combination of the rows with its own entries at the free
      columns, since the difference is a kernel vector that is zero at
      every free column. */
  lemma ReducedKernelSpans<T(!new)>(R: Ring<T>, s: Mat<T>, piv: seq<nat>, x: seq<T>)
    requires IsCRing(R) && Elems(R, s) && IsRref(R, s, piv) && KernelVector(R, s, x)
    ensures KernelInputs(s, piv)
    ensures var free := FreeCols(s.domain, piv);
            ElemsSeq(R, FreeEntries(x, free)) && x == RowTimes(R, FreeEntries(x, free), KernelMat(R, s, piv, free))
  {
    var free := FreeCols(s.domain, piv);
    var k0 := KernelMat(R, s, piv, free);
    var c := FreeEntries(x, free);
    RrefKernelSound(R, s, piv);
    var y := RowTimes(R, c, k0);
    RowTimesElems(R, c, k0);
    CombinationKernel(R, s, k0, c);
    DifferenceKernel(R, s, x, y);
    var d := Plus(R, x, y, R.neg(R.one));
    forall col | 0 <= col < s.domain && col !in piv ensures d[col] == R.zero {
      FreeColsComplete(s.domain, piv, col);
      var j :| 0 <= j < |free| && free[j] == col;
      KernelMatColumn(R, s, piv, j);
      DotUnit(R, c, j);
      assert y[col] == x[col];
      MinusSelf(R, x[col]);
    }
    ZeroOnFreeKernel(R, s, piv, d);
    forall i | 0 <= i < |x| ensures x[i] == y[i] {
      assert d[i] == R.zero;
      DifferenceZero(R, x[i], y[i]);
    }
  }

  /** The kernel rows of a reduced matrix span its kernel. */
  lemma RrefKernelSpans<T(!new)>(R: Ring<T>, s: Mat<T>, piv: seq<nat>)
    requires IsCRing(R) && Elems(R, s) && IsRref(R, s, piv)
    ensures KernelInputs(s, piv) && SpansKernel(R, s, KernelMat(R, s, piv, FreeCols(s.domain, piv)))
  {
    var k0 := KernelMat(R, s, piv, FreeCols(s.domain, piv));
    forall x | KernelVector(R, s, x)
      ensures exists c :: |c| == k0.codomain && ElemsSeq(R, c) && x == RowTimes(R, c, k0)
    {
      ReducedKernelSpans(R, s, piv, x);
    }
  }

  // ---------------------------------------------------------------------
  // Kernels and cokernels (the `Abelian` operations of linalg.rs)

  /** a and s are connected by row operations both ways. */
  ghost predicate RowEquivalent<T(!new)>(R: Ring<T>, a: Mat<T>, s: Mat<T>) {
    exists u, w :: RowTransforms(R, a, s, u, w)
  }

  /** A matrix of ring elements whose every entry tests zero is the zero matrix. */
  lemma AllZeroIsZeroMat<T(!new)>(R: Ring<T>, m: Mat<T>)
    requires IsCRing(R) && Elems(R, m) && AllZero(R, m)
    ensures m == ZeroMat(R, m.domain, m.codomain)
  {
    forall x, y | 0 <= x < m.domain && 0 <= y < m.codomain ensures At(m, x, y) == At(ZeroMat(R, m.domain, m.codomain), x, y) {
      assert R.isZero(At(m, x, y));
    }
    Extensionality(m, ZeroMat(R, m.domain, m.codomain));
  }

  /** The rows `rref_kernel` builds are never all zero: each has a one at its
      free column. */
  lemma KernelMatNonZero<T(!new)>(R: Ring<T>, s: Mat<T>, piv: seq<nat>)
    requires IsField(R) && IsRref(R, s, piv)
    ensures KernelInputs(s, piv)
    ensures FreeCols(s.domain, piv) != [] ==> !AllZero(R, KernelMat(R, s, piv, FreeCols(s.domain, piv)))
  {
    var free := FreeCols(s.domain, piv);
    if free != [] {
      KernelRowEntries(R, s, piv, free[0], |piv|);
      var k0 := KernelMat(R, s, piv, free);
      assert At(k0, free[0], 0) == R.one;
    }
  }

  /** A kernel whose reduced form is zero came from a reduced matrix with no
      free column. */
  lemma ZeroKernelNoFreeColumn<T(!new)>(R: Ring<T>, s: Mat<T>, piv: seq<nat>, k0: Mat<T>, k: Mat<T>, u: Mat<T>, w: Mat<T>)
    requires IsField(R) && IsRref(R, s, piv) && KernelInputs(s, piv)
    requires k0 == KernelMat(R, s, piv, FreeCols(s.domain, piv))
    requires RowTransforms(R, k0, k, u, w) && AllZero(R, k)
    ensures FreeCols(s.domain, piv) == []
  {
    AllZeroIsZeroMat(R, k);
    ComposeZero(R, w, k.domain);
    assert k0 == ZeroMat(R, k0.domain, k0.codomain);
    KernelMatNonZero(R, s, piv);
  }

  /** What `kernel` returns, from the reduced form s of a: the reduced form of
      the kernel rows of s consists of vectors a sends to zero and spans
      all of them, one row per free column. */
  lemma KernelOfReduced<T(!new)>(R: Ring<T>, a: Mat<T>, s: Mat<T>, piv: seq<nat>, u: Mat<T>, w: Mat<T>,
                                 k0: Mat<T>, k: Mat<T>, u2: Mat<T>, w2: Mat<T>)
    requires IsField(R) && RowTransforms(R, a, s, u, w) && IsRref(R, s, piv) && KernelInputs(s, piv)
    requires k0 == KernelMat(R, s, piv, FreeCols(s.domain, piv))
    requires RowTransforms(R, k0, k, u2, w2) && k.codomain == k0.codomain
    ensures k.domain == a.domain && k.codomain == a.domain - |piv|
    ensures Annihilates(R, a, k) && SpansKernel(R, a, k)
  {
    RrefKernelSound(R, s, piv);
    FreeColsCount(s.domain, piv);
    AnnihilatesRowEquivalent(R, a, s, u, w, k0);
    AnnihilatesCombinations(R, a, k0, u2);
    RrefKernelSpans(R, s, piv);
    SpansRowEquivalent(R, a, s, u, w, k0);
    SpansRowTransforms(R, a, k0, k, u2, w2);
  }

  /** The kernel `kernel` returns is zero exactly when a has a trivial kernel. */
  lemma KernelZeroIffTrivial<T(!new)>(R: Ring<T>, a: Mat<T>, s: Mat<T>, piv: seq<nat>, u: Mat<T>, w: Mat<T>,
                                      k0: Mat<T>, k: Mat<T>, u2: Mat<T>, w2: Mat<T>)
    requires IsField(R) && RowTransforms(R, a, s, u, w) && IsRref(R, s, piv) && KernelInputs(s, piv)
    requires k0 == KernelMat(R, s, piv, FreeCols(s.domain, piv))
    requires RowTransforms(R, k0, k, u2, w2) && Annihilates(R, a, k)
    ensures AllZero(R, k) <==> TrivialKernel(R, a)
  {
    TrivialKernelRowEquivalent(R, a, s, u, w);
    if AllZero(R, k) {
      ZeroKernelNoFreeColumn(R, s, piv, k0, k, u2, w2);
      FreeColsCount(s.domain, piv);
      FullRankIffTrivial(R, s, piv);
    }
    if TrivialKernel(R, a) {
      AnnihilatedByTrivial(R, a, k);
    }
  }

  /** The matrix whose column j is the unit vector at the j-th free column:
      composing with it keeps the free columns. */
  function FreeSelector<T>(R: Ring<T>, n: nat, free: seq<nat>): (e: Mat<T>)
    ensures Shaped(e) && e.domain == |free| && e.codomain == n
    ensures forall j :: 0 <= j < |free| ==> Column(e, j) == UnitVec(R, n, free[j])
  {
    Mat(|free|, n, seq(n, x => seq(|free|, j requires 0 <= j < |free| => if x == free[j] then R.one else R.zero)))
  }

  /** Keeping the free columns of the kernel rows leaves the identity. */
  lemma KernelMatFreeColumns<T(!new)>(R: Ring<T>, s: Mat<T>, piv: seq<nat>)
    requires IsCRing(R) && Elems(R, s) && IsRref(R, s, piv) && KernelInputs(s, piv)
    ensures var free := FreeCols(s.domain, piv);
            Compose(R, KernelMat(R, s, piv, free), FreeSelector(R, s.domain, free)) == IdentityMat(R, |free|)
  {
    var free := FreeCols(s.domain, piv);
    var k0 := KernelMat(R, s, piv, free);
    var e := FreeSelector(R, s.domain, free);
    RrefKernelSound(R, s, piv);
    ElemsRowsColumns(R, k0);
    var c := Compose(R, k0, e);
    forall x, y | 0 <= x < |free| && 0 <= y < |free| ensures At(c, x, y) == At(IdentityMat(R, |free|), x, y) {
      DotUnit(R, k0.rows[y], free[x]);
      KernelMatColumn(R, s, piv, x);
      assert Column(k0, free[x])[y] == k0.rows[y][free[x]];
    }
    Extensionality(c, IdentityMat(R, |free|));
  }

  /** Every row of the reduced form of the kernel rows holds a pivot. A
      combination c of the free columns of the reduced form k that its
      pivot rows send to zero is sent to zero by all of k, since the other
      rows are zero; so the vector with c at the free columns is in the
      kernel of k, hence of the kernel rows, whose free columns form the
      identity, and c is zero. The first |kpiv| rows of k restricted to the
      free columns thus have a trivial kernel, and there are at least as
      many of them as free columns. */
  lemma ReducedKernelFullRank<T(!new)>(R: Ring<T>, s: Mat<T>, piv: seq<nat>, k0: Mat<T>, k: Mat<T>, kpiv: seq<nat>,
                                       u2: Mat<T>, w2: Mat<T>)
    requires IsField(R) && Elems(R, s) && IsRref(R, s, piv) && KernelInputs(s, piv)
    requires k0 == KernelMat(R, s, piv, FreeCols(s.domain, piv))
    requires RowTransforms(R, k0, k, u2, w2) && k.codomain == k0.codomain && IsRref(R, k, kpiv)
    ensures |kpiv| == k.codomain
  {
    var free := FreeCols(s.domain, piv);
    var e := FreeSelector(R, s.domain, free);
    assert Elems(R, e);
    var ke := Compose(R, k, e);
    ElemsCompose(R, k, e);
    var top := TopRows(ke, |kpiv|);
    forall c | KernelVector(R, top, c) ensures c == Zeros(R.zero, |free|) {
      PivotRowsKernel(R, s, piv, k0, k, kpiv, u2, w2, c);
    }
    TrivialKernelNarrow(R, top);
  }

  /** The step of `ReducedKernelFullRank` for one vector c. */
  lemma PivotRowsKernel<T(!new)>(R: Ring<T>, s: Mat<T>, piv: seq<nat>, k0: Mat<T>, k: Mat<T>, kpiv: seq<nat>,
                                 u2: Mat<T>, w2: Mat<T>, c: seq<T>)
    requires IsField(R) && Elems(R, s) && IsRref(R, s, piv) && KernelInputs(s, piv)
    requires k0 == KernelMat(R, s, piv, FreeCols(s.domain, piv))
    requires RowTransforms(R, k0, k, u2, w2) && k.codomain == k0.codomain && IsRref(R, k, kpiv)
    requires KernelVector(R, TopRows(Compose(R, k, FreeSelector(R, s.domain, FreeCols(s.domain, piv))), |kpiv|), c)
    ensures c == Zeros(R.zero, |FreeCols(s.domain, piv)|)
  {
    var free := FreeCols(s.domain, piv);
    var e := FreeSelector(R, s.domain, free);
    assert Elems(R, e);
    ReducedRowsKill(R, k, kpiv, e, c);
    ApplyCompose(R, k, e, c);
    var z := Apply(R, e, c);
    ElemsRowsColumns(R, e);
    forall x | 0 <= x < |z| ensures R.elem(z[x]) {
      DotElem(R, e.rows[x], c);
    }
    RowTransformsKeepKernel(R, k0, k, u2, w2, z);
    ApplyCompose(R, k0, e, c);
    KernelMatFreeColumns(R, s, piv);
    forall y | 0 <= y < |free| ensures c[y] == R.zero {
      assert IdentityMat(R, |free|).rows[y] == UnitVec(R, |free|, y);
      DotUnit(R, c, y);
      assert Apply(R, k0, z)[y] == R.zero;
    }
  }

  /** The rows of a reduced k below its pivots are zero, so a vector the
      pivot rows of k·e send to zero is in the kernel of k·e. */
  lemma ReducedRowsKill<T(!new)>(R: Ring<T>, k: Mat<T>, kpiv: seq<nat>, e: Mat<T>, c: seq<T>)
    requires IsCRing(R) && Elems(R, k) && Elems(R, e) && k.domain == e.codomain && IsRref(R, k, kpiv)
    requires KernelVector(R, TopRows(Compose(R, k, e), |kpiv|), c)
    ensures KernelVector(R, Compose(R, k, e), c)
  {
    var ke := Compose(R, k, e);
    ElemsCompose(R, k, e);
    ElemsRowsColumns(R, ke);
    forall y | 0 <= y < ke.codomain ensures Apply(R, ke, c)[y] == R.zero {
      if y < |kpiv| {
        ApplyTop(R, ke, c, |kpiv|);
      } else {
        assert k.rows[y] == Zeros(R.zero, k.domain) by {
          forall x | 0 <= x < k.domain ensures k.rows[y][x] == R.zero {
            assert At(k, x, y) == R.zero;
          }
        }
        forall x | 0 <= x < ke.domain ensures ke.rows[y][x] == R.zero {
          ElemsRowsColumns(R, e);
          DotZerosLeft(R, Column(e, x));
        }
        assert ke.rows[y] == Zeros(R.zero, e.domain);
        DotZerosLeft(R, c);
      }
    }
  }

  /** Rows in a trivial kernel are zero. */
  lemma AnnihilatedByTrivial<T(!new)>(R: Ring<T>, a: Mat<T>, k: Mat<T>)
    requires IsCRing(R) && Annihilates(R, a, k) && TrivialKernel(R, a)
    ensures AllZero(R, k)
  {
    forall x, y | 0 <= x < k.domain && 0 <= y < k.codomain ensures R.isZero(At(k, x, y)) {
      assert KernelVector(R, a, k.rows[y]);
    }
  }

  /** `kernel`: reduce a copy, read off the kernel rows, and reduce those.
      The rows are vectors m sends to zero and every such vector is a
      combination of them, the result is itself reduced, and
      it is zero exactly when the kernel of m is trivial. */
  method Kernel<T(!new)>(R: Ring<T>, m: FlatMatrix<T>) returns (k: FlatMatrix<T>, ghost s: Mat<T>, ghost piv: seq<nat>)
    requires IsField(R) && m.Valid() && Elems(R, m.Value())
    ensures fresh(k) && k.Valid() && k.domain == m.domain && Elems(R, k.Value())
    ensures RowEquivalent(R, m.Value(), s) && IsRref(R, s, piv) && k.codomain == m.domain - |piv|
    ensures Annihilates(R, m.Value(), k.Value()) && SpansKernel(R, m.Value(), k.Value())
    ensures exists kpiv :: IsRref(R, k.Value(), kpiv) && |kpiv| == k.codomain
    ensures AllZero(R, k.Value()) <==> TrivialKernel(R, m.Value())
  {
    ghost var a := m.Value();
    var c;
    ghost var u, w;
    c, piv, u, w := ReducedCopy(R, m);
    s := c.Value();
    var k0 := ReducedKernelRows(R, c, piv);
    ghost var k0v := k0.Value();
    ghost var kpiv, u2, w2;
    kpiv, u2, w2 := Rref(R, k0);
    k := k0;
    ghost var kv := k.Value();
    KernelResult(R, a, s, piv, u, w, k0v, kv, kpiv, u2, w2);
  }

  /** What `kernel` promises, from the facts its three steps establish. */
  lemma KernelResult<T(!new)>(R: Ring<T>, a: Mat<T>, s: Mat<T>, piv: seq<nat>, u: Mat<T>, w: Mat<T>,
                              k0: Mat<T>, k: Mat<T>, kpiv: seq<nat>, u2: Mat<T>, w2: Mat<T>)
    requires IsField(R) && RowTransforms(R, a, s, u, w) && IsRref(R, s, piv) && KernelInputs(s, piv)
    requires k0 == KernelMat(R, s, piv, FreeCols(s.domain, piv))
    requires RowTransforms(R, k0, k, u2, w2) && k.codomain == k0.codomain && IsRref(R, k, kpiv)
    ensures RowEquivalent(R, a, s) && k.domain == a.domain && k.codomain == a.domain - |piv|
    ensures Annihilates(R, a, k) && SpansKernel(R, a, k)
    ensures exists kpiv' :: IsRref(R, k, kpiv') && |kpiv'| == k.codomain
    ensures AllZero(R, k) <==> TrivialKernel(R, a)
  {
    KernelOfReduced(R, a, s, piv, u, w, k0, k, u2, w2);
    KernelZeroIffTrivial(R, a, s, piv, u, w, k0, k, u2, w2);
    ReducedKernelFullRank(R, s, piv, k0, k, kpiv, u2, w2);
  }

  /** The first half of `kernel`: a reduced copy of m. */
  method ReducedCopy<T(!new)>(R: Ring<T>, m: FlatMatrix<T>) returns (c: FlatMatrix<T>, ghost piv: seq<nat>, ghost u: Mat<T>, ghost w: Mat<T>)
    requires IsField(R) && m.Valid() && Elems(R, m.Value())
    ensures fresh(c) && c.Valid() && c.domain == m.domain && c.codomain == m.codomain
    ensures IsRref(R, c.Value(), piv) && RowTransforms(R, m.Value(), c.Value(), u, w)
  {
    c := m.Clone();
    piv, u, w := Rref(R, c);
  }

  /** `rref_kernel` on a reduced matrix c with pivot columns piv. */
  method ReducedKernelRows<T(!new)>(R: Ring<T>, c: FlatMatrix<T>, ghost piv: seq<nat>) returns (k0: FlatMatrix<T>)
    requires IsField(R) && c.Valid() && Elems(R, c.Value()) && IsRref(R, c.Value(), piv)
    ensures KernelInputs(c.Value(), piv)
    ensures fresh(k0) && k0.Valid() && k0.Value() == KernelMat(R, c.Value(), piv, FreeCols(c.domain, piv))
    ensures Elems(R, k0.Value())
  {
    k0 := RrefKernel(R, c);
    PivotsOfRref(R, c.Value(), piv);
    RrefKernelSound(R, c.Value(), piv);
  }

  /** The kernel of an identity is trivial: any reduced matrix row equivalent
      to it has a pivot in every column, so `kernel` returns no rows. */
  lemma KernelOfIdentity<T(!new)>(R: Ring<T>, n: nat, s: Mat<T>, piv: seq<nat>)
    requires IsField(R) && RowEquivalent(R, IdentityMat(R, n), s) && IsRref(R, s, piv)
    ensures |piv| == n
  {
    var u, w :| RowTransforms(R, IdentityMat(R, n), s, u, w);
    IdentityTrivialKernel(R, n);
    TrivialKernelRowEquivalent(R, IdentityMat(R, n), s, u, w);
    FullRankIffTrivial(R, s, piv);
  }

  /** `cokernel`: the kernel of the transpose, paired with the empty matrix. */
  method Cokernel<T(!new)>(R: Ring<T>, m: FlatMatrix<T>)
    returns (coker: FlatMatrix<T>, z: FlatMatrix<T>, ghost s: Mat<T>, ghost piv: seq<nat>)
    requires IsField(R) && m.Valid() && Elems(R, m.Value())
    ensures fresh(coker) && coker.Valid() && coker.domain == m.codomain
    ensures RowEquivalent(R, Transpose(m.Value()), s) && IsRref(R, s, piv) && coker.codomain == m.codomain - |piv|
    ensures Annihilates(R, Transpose(m.Value()), coker.Value())
    ensures SpansKernel(R, Transpose(m.Value()), coker.Value())
    ensures exists kpiv :: IsRref(R, coker.Value(), kpiv) && |kpiv| == coker.codomain
    ensures AllZero(R, coker.Value()) <==> TrivialKernel(R, Transpose(m.Value()))
    ensures fresh(z) && z.Valid() && z.domain == 0 && z.codomain == 0
  {
    var t := m.Transpose(R);
    ElemsTranspose(R, m.Value());
    coker, s, piv := Kernel(R, t);
    z := new FlatMatrix.Zero(R, 0, 0);
  }

  /** Some kernel vector of m is nonzero at column x. */
  ghost predicate Generates<T(!new)>(R: Ring<T>, m: Mat<T>, x: nat) {
    exists v :: KernelVector(R, m, v) && x < |v| && v[x] != R.zero
  }

  /** In a reduced matrix whose first nonzero entry in row-major order lies
      in column col, every column before col is zero. */
  lemma FirstEntryOfReduced<T>(R: Ring<T>, k: Mat<T>, kpiv: seq<nat>, row: nat, col: nat)
    requires R.one != R.zero && IsRref(R, k, kpiv)
    requires row < k.codomain && col < k.domain && At(k, col, row) != R.zero
    requires forall x, y :: 0 <= x < k.domain && 0 <= y < k.codomain && (y < row || (y == row && x < col))
               ==> At(k, x, y) == R.zero
    ensures forall x, y :: 0 <= x < col && 0 <= y < k.codomain ==> At(k, x, y) == R.zero
  {
    assert row < |kpiv|;
    assert At(k, kpiv[0], 0) == R.one;
    assert row == 0;
    assert col <= kpiv[0];
    forall x, y | 0 <= x < col && 0 <= y < k.codomain ensures At(k, x, y) == R.zero {
      if 0 < y < |kpiv| {
        assert kpiv[0] < kpiv[y];
      }
    }
  }

  /** A column at which every row of k is zero: no kernel vector, being a
      combination of those rows, is nonzero there. */
  lemma ZeroColumnGeneratesNothing<T(!new)>(R: Ring<T>, m: Mat<T>, k: Mat<T>, x: nat)
    requires IsCRing(R) && SpansKernel(R, m, k) && x < k.domain
    requires forall y :: 0 <= y < k.codomain ==> At(k, x, y) == R.zero
    ensures !Generates(R, m, x)
  {
    forall v | KernelVector(R, m, v) && x < |v| ensures v[x] == R.zero {
      var c :| |c| == k.codomain && ElemsSeq(R, c) && v == RowTimes(R, c, k);
      assert Column(k, x) == Zeros(R.zero, k.codomain);
      DotZerosLeft(R, c);
    }
  }

  /** `kernel_find_single_generator`: the column of the first nonzero entry
      of the kernel, or None when the kernel is trivial. */
  method KernelFindSingleGenerator<T(!new)>(R: Ring<T>, m: FlatMatrix<T>) returns (g: Option<nat>)
    requires IsField(R) && m.Valid() && Elems(R, m.Value())
    ensures g.None? <==> TrivialKernel(R, m.Value())
    ensures g.Some? ==> g.value < m.domain && Generates(R, m.Value(), g.value)
    ensures g.Some? ==> forall c :: 0 <= c < g.value ==> !Generates(R, m.Value(), c)
  {
    var k, s, piv := Kernel(R, m);
    var e := FirstNonZeroEntry(R, k);
    if e.Some? {
      var row, col := e.value.0, e.value.1;
      ghost var v := k.Value().rows[row];
      assert KernelVector(R, m.Value(), v);
      assert v[col] == At(k.Value(), col, row);
      LeastGenerator(R, m.Value(), k.Value(), row, col);
      g := Some(col);
    } else {
      g := None;
    }
  }

  /** The column of the first nonzero entry of a reduced spanning kernel
      matrix is the least column any kernel vector is nonzero at. */
  lemma LeastGenerator<T(!new)>(R: Ring<T>, m: Mat<T>, k: Mat<T>, row: nat, col: nat)
    requires IsField(R) && Elems(R, k) && SpansKernel(R, m, k) && exists kpiv :: IsRref(R, k, kpiv)
    requires row < k.codomain && col < k.domain && !R.isZero(At(k, col, row))
    requires forall x, y :: 0 <= x < k.domain && 0 <= y < k.codomain && (y < row || (y == row && x < col))
               ==> R.isZero(At(k, x, y))
    ensures forall c :: 0 <= c < col ==> !Generates(R, m, c)
  {
    var kpiv :| IsRref(R, k, kpiv);
    assert R.elem(k.rows[row][col]);
    forall x, y | 0 <= x < k.domain && 0 <= y < k.codomain && (y < row || (y == row && x < col))
      ensures At(k, x, y) == R.zero
    {
      assert R.elem(k.rows[y][x]);
    }
    FirstEntryOfReduced(R, k, kpiv, row, col);
    forall c | 0 <= c < col ensures !Generates(R, m, c) {
      ZeroColumnGeneratesNothing(R, m, k, c);
    }
  }

  /** a with the unit rows e_p, for p in ps, appended below it: the matrix
      `kernel_generators` grows. */
  function WithUnitRows<T>(R: Ring<T>, a: Mat<T>, ps: seq<nat>): (r: Mat<T>)
    requires Shaped(a)
    ensures Shaped(r) && r.domain == a.domain && r.codomain == a.codomain + |ps|
  {
    Mat(a.domain, a.codomain + |ps|, a.rows + seq(|ps|, k requires 0 <= k < |ps| => UnitVec(R, a.domain, ps[k])))
  }

  /** One more row of zeros with a one written at column p gives one more
      unit row. */
  lemma WithUnitRowsStep<T>(R: Ring<T>, a: Mat<T>, ps: seq<nat>, p: nat)
    requires Shaped(a) && p < a.domain
    ensures SetAt(Mats.ExtendOneRow(R, WithUnitRows(R, a, ps)), p, a.codomain + |ps|, R.one)
            == WithUnitRows(R, a, ps + [p])
  {
    var e := SetAt(Mats.ExtendOneRow(R, WithUnitRows(R, a, ps)), p, a.codomain + |ps|, R.one);
    var n := WithUnitRows(R, a, ps + [p]);
    forall x, y | 0 <= x < a.domain && 0 <= y < a.codomain + |ps| + 1 ensures At(e, x, y) == At(n, x, y) {
      if y >= a.codomain {
        assert n.rows[y] == UnitVec(R, a.domain, (ps + [p])[y - a.codomain]);
      }
    }
    Extensionality(e, n);
  }

  lemma ElemsWithUnitRows<T(!new)>(R: Ring<T>, a: Mat<T>, ps: seq<nat>)
    requires IsCRing(R) && Elems(R, a)
    ensures Elems(R, WithUnitRows(R, a, ps))
  {
    var n := WithUnitRows(R, a, ps);
    forall y, x | 0 <= y < n.codomain && 0 <= x < n.domain ensures R.elem(n.rows[y][x]) {
      if y >= a.codomain {
        assert n.rows[y] == UnitVec(R, a.domain, ps[y - a.codomain]);
      }
    }
  }

  /** A kernel vector of a with unit rows appended is zero at each of their
      columns. */
  lemma UnitRowsKill<T(!new)>(R: Ring<T>, a: Mat<T>, ps: seq<nat>, v: seq<T>, k: nat)
    requires IsCRing(R) && Shaped(a) && KernelVector(R, WithUnitRows(R, a, ps), v)
    requires k < |ps| && ps[k] < a.domain
    ensures v[ps[k]] == R.zero
  {
    var n := WithUnitRows(R, a, ps);
    assert n.rows[a.codomain + k] == UnitVec(R, a.domain, ps[k]);
    assert Apply(R, n, v)[a.codomain + k] == R.zero;
    DotUnit(R, v, ps[k]);
  }

  /** Pairwise distinct. */
  ghost predicate Distinct(ps: seq<nat>) {
    forall k, k2 :: 0 <= k < k2 < |ps| ==> ps[k] != ps[k2]
  }

  /** Distinct naturals below d number at most d. */
  lemma {:induction false} DistinctBounded(ps: seq<nat>, d: nat)
    requires Distinct(ps) && forall k :: 0 <= k < |ps| ==> ps[k] < d
    ensures |ps| <= d
    decreases d
  {
    if |ps| > 0 {
      assert ps[0] < d;
    }
    if d > 0 {
      if j :| 0 <= j < |ps| && ps[j] == d - 1 {
        var rest := ps[..j] + ps[j + 1..];
        forall k | 0 <= k < |rest| ensures rest[k] < d - 1 {
          if k < j { assert rest[k] == ps[k]; } else { assert rest[k] == ps[k + 1]; }
        }
        forall k, k2 | 0 <= k < k2 < |rest| ensures rest[k] != rest[k2] {
          var i := if k < j then k else k + 1;
          var i2 := if k2 < j then k2 else k2 + 1;
          assert rest[k] == ps[i] && rest[k2] == ps[i2];
        }
        DistinctBounded(rest, d - 1);
      } else {
        DistinctBounded(ps, d - 1);
      }
    }
  }

  /** One round of `kernel_generators` on the matrix: a zero row, then a one
      at column p. */
  method AddUnitRow<T(!new)>(R: Ring<T>, mat: FlatMatrix<T>, ghost a: Mat<T>, ghost ps: seq<nat>, p: nat)
    requires IsCRing(R) && Elems(R, a) && mat.Valid() && mat.Value() == WithUnitRows(R, a, ps) && p < a.domain
    modifies mat
    ensures mat.Valid() && mat.Value() == WithUnitRows(R, a, ps + [p]) && Elems(R, mat.Value())
  {
    var codom := mat.codomain;
    mat.ExtendOneRow(R);
    mat.Set(p, codom, R.one);
    WithUnitRowsStep(R, a, ps, p);
    ElemsWithUnitRows(R, a, ps + [p]);
  }

  /** The chosen columns stay distinct, bounded and each a generator of the
      matrix grown so far, when p is a generator of the current one. */
  lemma GeneratorsStep<T(!new)>(R: Ring<T>, a: Mat<T>, ps: seq<nat>, p: nat)
    requires IsCRing(R) && Shaped(a) && p < a.domain
    requires Distinct(ps) && forall k :: 0 <= k < |ps| ==> ps[k] < a.domain
    requires forall k :: 0 <= k < |ps| ==> Generates(R, WithUnitRows(R, a, ps[..k]), ps[k])
    requires Generates(R, WithUnitRows(R, a, ps), p)
    ensures Distinct(ps + [p]) && forall k :: 0 <= k < |ps + [p]| ==> (ps + [p])[k] < a.domain
    ensures forall k :: 0 <= k < |ps + [p]| ==> Generates(R, WithUnitRows(R, a, (ps + [p])[..k]), (ps + [p])[k])
    ensures |ps + [p]| <= a.domain
  {
    var v :| KernelVector(R, WithUnitRows(R, a, ps), v) && p < |v| && v[p] != R.zero;
    forall k | 0 <= k < |ps| ensures ps[k] != p {
      UnitRowsKill(R, a, ps, v, k);
    }
    var ps' := ps + [p];
    forall k | 0 <= k < |ps'| ensures Generates(R, WithUnitRows(R, a, ps'[..k]), ps'[k]) {
      if k < |ps| {
        assert ps'[..k] == ps[..k];
      } else {
        assert ps'[..k] == ps;
      }
    }
    DistinctBounded(ps', a.domain);
  }

  /** `kernel_generators`: while the kernel is not trivial, append the unit
      row at a column some kernel vector uses. Each chosen column is new, so
      the loop stops after at most `domain` rounds, and at the end the grown
      matrix has a trivial kernel. */
  method KernelGenerators<T(!new)>(R: Ring<T>, m: FlatMatrix<T>) returns (pivots: seq<nat>)
    requires IsField(R) && m.Valid() && Elems(R, m.Value())
    ensures Distinct(pivots) && forall k :: 0 <= k < |pivots| ==> pivots[k] < m.domain
    ensures forall k :: 0 <= k < |pivots| ==> Generates(R, WithUnitRows(R, m.Value(), pivots[..k]), pivots[k])
    ensures TrivialKernel(R, WithUnitRows(R, m.Value(), pivots))
  {
    ghost var a := m.Value();
    pivots := [];
    var mat := m.Clone();
    assert WithUnitRows(R, a, []) == a;
    var g := KernelFindSingleGenerator(R, mat);
    while g.Some?
      invariant fresh(mat) && mat.Valid() && mat.Value() == WithUnitRows(R, a, pivots) && Elems(R, mat.Value())
      invariant Distinct(pivots) && forall k :: 0 <= k < |pivots| ==> pivots[k] < a.domain
      invariant |pivots| <= a.domain
      invariant forall k :: 0 <= k < |pivots| ==> Generates(R, WithUnitRows(R, a, pivots[..k]), pivots[k])
      invariant g.None? <==> TrivialKernel(R, mat.Value())
      invariant g.Some? ==> g.value < a.domain && Generates(R, mat.Value(), g.value)
      decreases a.domain - |pivots|
    {
      var p := g.value;
      GeneratorsStep(R, a, pivots, p);
      AddUnitRow(R, mat, a, pivots, p);
      pivots := pivots + [p];
      g := KernelFindSingleGenerator(R, mat);
    }
  }
}
