/** `full_snf` of crates/algebra/src/snf.rs: the Smith normal form of a
    matrix over a valuation ring. Row operations act on S and U, column
    operations on S and V, so that U·A·V == S throughout; every operation is
    logged, and the logs replayed backwards with negated factors build U⁻¹
    and V⁻¹. */
module Snf {
  import opened Rings
  import opened Mats
  import opened MatAlgebra
  import opened FlatMatrices
  import FiniteFields
  import NumberTheory

  // ---------------------------------------------------------------------
  // The valuation ring

  /** The laws the algorithm relies on of `divides` and `unsafe_divide`:
      only a nonzero value divides anything, a nonzero value divides zero, of
      a nonzero a and any b one divides the other, divisibility is
      transitive, what a divides is closed under sums and multiples, and the
      quotient b / a times a gives b back. */
  ghost predicate IsValuationRing<T(!new)>(R: Ring<T>, V: Valuation<T>) {
    && IsCRing(R)
    && (forall a, b {:trigger V.divides(a, b)} :: R.elem(a) && R.elem(b) ==>
          && (V.divides(a, b) ==> !R.isZero(a) && R.elem(V.divide(b, a)) && R.mul(V.divide(b, a), a) == b)
          && (!R.isZero(a) && R.isZero(b) ==> V.divides(a, b))
          && (!R.isZero(a) && !V.divides(a, b) ==> V.divides(b, a)))
    && (forall a, b, c {:trigger V.divides(a, b), V.divides(b, c)} ::
          R.elem(a) && R.elem(b) && R.elem(c) && V.divides(a, b) && V.divides(b, c) ==> V.divides(a, c))
    && (forall a, b, c {:trigger V.divides(a, R.add(b, c))} ::
          R.elem(a) && R.elem(b) && R.elem(c) && V.divides(a, b) && V.divides(a, c) ==> V.divides(a, R.add(b, c)))
    && (forall a, b, c {:trigger V.divides(a, R.mul(c, b))} ::
          R.elem(a) && R.elem(b) && R.elem(c) && V.divides(a, b) ==> V.divides(a, R.mul(c, b)))
  }

  /** A field as a valuation ring: every nonzero value divides everything,
      and b / a is b times the inverse of a. */
  function FieldValuation<T>(R: Ring<T>): Valuation<T> {
    Valuation(
      (a: T, b: T) => !R.isZero(a),
      (b: T, a: T) => match R.tryInverse(a) case Some(i) => R.mul(b, i) case None => R.zero)
  }

  /** Every field, F2 and each Fp among them, meets the laws `full_snf`
      relies on with that valuation. */
  lemma FieldIsValuationRing<T(!new)>(R: Ring<T>)
    requires IsField(R)
    ensures IsValuationRing(R, FieldValuation(R))
  {
    var V := FieldValuation(R);
    forall a, b | R.elem(a) && R.elem(b) && V.divides(a, b)
      ensures R.elem(V.divide(b, a)) && R.mul(V.divide(b, a), a) == b
    {
      var i := R.tryInverse(a).value;
      assert V.divide(b, a) == R.mul(b, i);
      Laws(R, b, i, a);
      Laws(R, i, a, a);
      Laws(R, b, R.one, R.one);
    }
  }

  /** `Fp<P>` for a prime P, so `full_snf` applies to matrices over it. */
  lemma FpIsValuationRing(p: nat)
    requires FiniteFields.ValidModulus(p) && NumberTheory.IsPrime(p)
    ensures IsValuationRing(FiniteFields.FpRing(p), FieldValuation(FiniteFields.FpRing(p)))
  {
    FiniteFields.FpIsField(p);
    FieldIsValuationRing(FiniteFields.FpRing(p));
  }

  /** F2, likewise. */
  lemma F2IsValuationRing()
    ensures IsValuationRing(FiniteFields.F2Ring(), FieldValuation(FiniteFields.F2Ring()))
  {
    FiniteFields.F2IsField();
    FieldIsValuationRing(FiniteFields.F2Ring());
  }

  /** c can stand as the pivot over e: c divides e, or both are zero. */
  ghost predicate Dominates<T>(R: Ring<T>, V: Valuation<T>, c: T, e: T) {
    V.divides(c, e) || (R.isZero(c) && R.isZero(e))
  }

  /** When the search replaces c by an entry el that c does not divide, el
      dominates everything c dominated, and itself. */
  lemma DominatesReplaced<T(!new)>(R: Ring<T>, V: Valuation<T>, c: T, el: T, e: T)
    requires IsValuationRing(R, V) && R.elem(c) && R.elem(el) && R.elem(e)
    requires !V.divides(c, el) && Dominates(R, V, c, e)
    ensures Dominates(R, V, el, e) && Dominates(R, V, el, el)
  {
    if !R.isZero(c) {
      assert V.divides(el, c);
      assert V.divides(c, e);
    }
  }

  /** The factor -(e / p) of the elimination loops makes entry e zero. */
  lemma EliminationZero<T(!new)>(R: Ring<T>, V: Valuation<T>, e: T, p: T)
    requires IsValuationRing(R, V) && R.elem(e) && R.elem(p) && V.divides(p, e) && !R.isZero(e)
    ensures var f := R.neg(V.divide(e, p));
            R.elem(f) && !R.isZero(f) && R.add(e, R.mul(f, p)) == R.zero
  {
    var q := V.divide(e, p);
    NegMul(R, q, p);
    Laws(R, e, e, e);
    NegNonZero(R, e);
    MulZero(R, p);
  }

  // ---------------------------------------------------------------------
  // The action logs

  /** A logged operation: `Swap(b, c)` exchanges two lines, `Add(t, s, f)`
      adds f times line s to line t. */
  datatype Action<T> = Swap(b: nat, c: nat) | Add(t: nat, s: nat, f: T)

  /** The action refers to lines below n; an addition has distinct lines
      and a ring element as factor. */
  ghost predicate Fits<T>(R: Ring<T>, act: Action<T>, n: nat) {
    match act
    case Swap(b, c) => b < n && c < n
    case Add(t, s, f) => t < n && s < n && t != s && R.elem(f)
  }

  ghost predicate AllFit<T>(R: Ring<T>, acts: seq<Action<T>>, n: nat) {
    forall i :: 0 <= i < |acts| ==> Fits(R, acts[i], n)
  }

  /** The action on the rows of m. */
  function RowAct<T>(R: Ring<T>, m: Mat<T>, act: Action<T>): (r: Mat<T>)
    requires Shaped(m) && Fits(R, act, m.codomain)
    ensures Shaped(r) && r.domain == m.domain && r.codomain == m.codomain
  {
    match act
    case Swap(b, c) => SwapRows(m, b, c)
    case Add(t, s, f) => AddRowMultiple(R, m, t, s, f)
  }

  /** The inverse action on the rows of m, as the replay applies it. */
  function RowUndo<T>(R: Ring<T>, m: Mat<T>, act: Action<T>): (r: Mat<T>)
    requires Shaped(m) && Fits(R, act, m.codomain)
    ensures Shaped(r) && r.domain == m.domain && r.codomain == m.codomain
  {
    match act
    case Swap(b, c) => SwapRows(m, b, c)
    case Add(t, s, f) => AddRowMultiple(R, m, t, s, R.neg(f))
  }

  /** The action on the columns of m. */
  function ColAct<T>(R: Ring<T>, m: Mat<T>, act: Action<T>): (r: Mat<T>)
    requires Shaped(m) && Fits(R, act, m.domain)
    ensures Shaped(r) && r.domain == m.domain && r.codomain == m.codomain
  {
    match act
    case Swap(b, c) => SwapCols(m, b, c)
    case Add(t, s, f) => AddColMultiple(R, m, t, s, f)
  }

  /** The inverse action on the columns of m. */
  function ColUndo<T>(R: Ring<T>, m: Mat<T>, act: Action<T>): (r: Mat<T>)
    requires Shaped(m) && Fits(R, act, m.domain)
    ensures Shaped(r) && r.domain == m.domain && r.codomain == m.codomain
  {
    match act
    case Swap(b, c) => SwapCols(m, b, c)
    case Add(t, s, f) => AddColMultiple(R, m, t, s, R.neg(f))
  }

  /** The logged row actions applied to m in order. */
  function DoRows<T>(R: Ring<T>, m: Mat<T>, acts: seq<Action<T>>): (r: Mat<T>)
    requires Shaped(m) && AllFit(R, acts, m.codomain)
    ensures Shaped(r) && r.domain == m.domain && r.codomain == m.codomain
    decreases |acts|
  {
    if acts == [] then m else RowAct(R, DoRows(R, m, acts[..|acts| - 1]), acts[|acts| - 1])
  }

  /** The replay of the row log: the inverse actions applied to m, last
      action first. */
  function UndoRows<T>(R: Ring<T>, m: Mat<T>, acts: seq<Action<T>>): (r: Mat<T>)
    requires Shaped(m) && AllFit(R, acts, m.codomain)
    ensures Shaped(r) && r.domain == m.domain && r.codomain == m.codomain
    decreases |acts|
  {
    if acts == [] then m else UndoRows(R, RowUndo(R, m, acts[|acts| - 1]), acts[..|acts| - 1])
  }

  /** The logged column actions applied to m in order. */
  function DoCols<T>(R: Ring<T>, m: Mat<T>, acts: seq<Action<T>>): (r: Mat<T>)
    requires Shaped(m) && AllFit(R, acts, m.domain)
    ensures Shaped(r) && r.domain == m.domain && r.codomain == m.codomain
    decreases |acts|
  {
    if acts == [] then m else ColAct(R, DoCols(R, m, acts[..|acts| - 1]), acts[|acts| - 1])
  }

  /** The replay of the column log. */
  function UndoCols<T>(R: Ring<T>, m: Mat<T>, acts: seq<Action<T>>): (r: Mat<T>)
    requires Shaped(m) && AllFit(R, acts, m.domain)
    ensures Shaped(r) && r.domain == m.domain && r.codomain == m.codomain
    decreases |acts|
  {
    if acts == [] then m else UndoCols(R, ColUndo(R, m, acts[|acts| - 1]), acts[..|acts| - 1])
  }

  lemma NegNeg<T(!new)>(R: Ring<T>, f: T)
    requires IsCRing(R) && R.elem(f)
    ensures R.neg(R.neg(f)) == f
  {
    Laws(R, f, f, f);
    Laws(R, R.neg(f), f, f);
    NegUnique(R, R.neg(f), f);
  }

  lemma ElemsColOps<T(!new)>(R: Ring<T>, m: Mat<T>, t: nat, s: nat, f: T)
    requires IsCRing(R) && Elems(R, m) && t < m.domain && s < m.domain && R.elem(f)
    ensures Elems(R, SwapCols(m, t, s)) && Elems(R, AddColMultiple(R, m, t, s, f))
  {
    var a := AddColMultiple(R, m, t, s, f);
    forall y, x | 0 <= y < m.codomain && 0 <= x < m.domain ensures R.elem(a.rows[y][x]) {
      assert a.rows[y][x] == At(a, x, y);
    }
    var sw := SwapCols(m, t, s);
    forall y, x | 0 <= y < m.codomain && 0 <= x < m.domain ensures R.elem(sw.rows[y][x]) {
      assert sw.rows[y][x] == At(sw, x, y);
    }
  }

  /** Every action and its inverse stay inside the ring. */
  lemma ElemsActs<T(!new)>(R: Ring<T>, m: Mat<T>, act: Action<T>)
    requires IsCRing(R) && Elems(R, m)
    ensures Fits(R, act, m.codomain) ==> Elems(R, RowAct(R, m, act)) && Elems(R, RowUndo(R, m, act))
    ensures Fits(R, act, m.domain) ==> Elems(R, ColAct(R, m, act)) && Elems(R, ColUndo(R, m, act))
  {
    match act
    case Swap(b, c) =>
      if Fits(R, act, m.codomain) { ElemsRowOps(R, m, b, c, R.one); }
      if Fits(R, act, m.domain) { ElemsColOps(R, m, b, c, R.one); }
    case Add(t, s, f) =>
      if Fits(R, act, m.codomain) { ElemsRowOps(R, m, t, s, f); ElemsRowOps(R, m, t, s, R.neg(f)); }
      if Fits(R, act, m.domain) { ElemsColOps(R, m, t, s, f); ElemsColOps(R, m, t, s, R.neg(f)); }
  }

  /** An action and its inverse cancel, in either order. */
  lemma ActUndo<T(!new)>(R: Ring<T>, m: Mat<T>, act: Action<T>)
    requires IsCRing(R) && Elems(R, m)
    ensures Fits(R, act, m.codomain) ==>
              RowAct(R, RowUndo(R, m, act), act) == m && RowUndo(R, RowAct(R, m, act), act) == m
    ensures Fits(R, act, m.domain) ==>
              ColAct(R, ColUndo(R, m, act), act) == m && ColUndo(R, ColAct(R, m, act), act) == m
  {
    match act
    case Swap(b, c) =>
      SwapTwice(m, b, c);
    case Add(t, s, f) =>
      if t != s && R.elem(f) {
        NegNeg(R, f);
        AddMultipleUndo(R, m, t, s, f);
        AddMultipleUndo(R, m, t, s, R.neg(f));
      }
  }

  lemma {:induction false} ElemsLogs<T(!new)>(R: Ring<T>, m: Mat<T>, acts: seq<Action<T>>)
    requires IsCRing(R) && Elems(R, m)
    ensures AllFit(R, acts, m.codomain) ==> Elems(R, DoRows(R, m, acts)) && Elems(R, UndoRows(R, m, acts))
    ensures AllFit(R, acts, m.domain) ==> Elems(R, DoCols(R, m, acts)) && Elems(R, UndoCols(R, m, acts))
    decreases |acts|
  {
    if acts != [] {
      var init, last := acts[..|acts| - 1], acts[|acts| - 1];
      ElemsLogs(R, m, init);
      if AllFit(R, acts, m.codomain) {
        ElemsActs(R, DoRows(R, m, init), last);
        ElemsActs(R, m, last);
        ElemsLogs(R, RowUndo(R, m, last), init);
      }
      if AllFit(R, acts, m.domain) {
        ElemsActs(R, DoCols(R, m, init), last);
        ElemsActs(R, m, last);
        ElemsLogs(R, ColUndo(R, m, last), init);
      }
    }
  }

  /** Replaying the row log undoes it, and applying it undoes the replay. */
  lemma {:induction false} DoUndoRows<T(!new)>(R: Ring<T>, m: Mat<T>, acts: seq<Action<T>>)
    requires IsCRing(R) && Elems(R, m) && AllFit(R, acts, m.codomain)
    ensures DoRows(R, UndoRows(R, m, acts), acts) == m
    ensures UndoRows(R, DoRows(R, m, acts), acts) == m
    decreases |acts|
  {
    if acts != [] {
      var init, last := acts[..|acts| - 1], acts[|acts| - 1];
      var m' := RowUndo(R, m, last);
      ElemsActs(R, m, last);
      DoUndoRows(R, m', init);
      ActUndo(R, m, last);
      ElemsLogs(R, m, init);
      ActUndo(R, DoRows(R, m, init), last);
      DoUndoRows(R, m, init);
    }
  }

  /** The same for the column log. */
  lemma {:induction false} DoUndoCols<T(!new)>(R: Ring<T>, m: Mat<T>, acts: seq<Action<T>>)
    requires IsCRing(R) && Elems(R, m) && AllFit(R, acts, m.domain)
    ensures DoCols(R, UndoCols(R, m, acts), acts) == m
    ensures UndoCols(R, DoCols(R, m, acts), acts) == m
    decreases |acts|
  {
    if acts != [] {
      var init, last := acts[..|acts| - 1], acts[|acts| - 1];
      var m' := ColUndo(R, m, last);
      ElemsActs(R, m, last);
      DoUndoCols(R, m', init);
      ActUndo(R, m, last);
      ElemsLogs(R, m, init);
      ActUndo(R, DoCols(R, m, init), last);
      DoUndoCols(R, m, init);
    }
  }

  /** Row actions are products on the left: applying the log to m is
      composing with the log applied to the identity. */
  lemma {:induction false} DoRowsIsCompose<T(!new)>(R: Ring<T>, m: Mat<T>, acts: seq<Action<T>>)
    requires IsCRing(R) && Elems(R, m) && AllFit(R, acts, m.codomain)
    ensures DoRows(R, m, acts) == Compose(R, DoRows(R, IdentityMat(R, m.codomain), acts), m)
    ensures UndoRows(R, m, acts) == Compose(R, UndoRows(R, IdentityMat(R, m.codomain), acts), m)
    decreases |acts|
  {
    var id := IdentityMat(R, m.codomain);
    ElemsIdentity(R, m.codomain);
    if acts == [] {
      ComposeIdentity(R, m);
    } else {
      var init, last := acts[..|acts| - 1], acts[|acts| - 1];
      DoRowsIsCompose(R, m, init);
      ElemsLogs(R, id, init);
      var p := DoRows(R, id, init);
      match last {
        case Swap(b, c) =>
          RowOpsCommuteWithCompose(R, p, m, b, c, R.one);
          RowOpsCommuteWithCompose(R, id, m, b, c, R.one);
        case Add(t, s, f) =>
          RowOpsCommuteWithCompose(R, p, m, t, s, f);
          RowOpsCommuteWithCompose(R, id, m, t, s, R.neg(f));
      }
      var e := RowUndo(R, id, last);
      ComposeIdentity(R, m);
      ElemsActs(R, id, last);
      ElemsActs(R, m, last);
      DoRowsIsCompose(R, RowUndo(R, m, last), init);
      DoRowsIsCompose(R, e, init);
      var q := UndoRows(R, id, init);
      ElemsLogs(R, id, init);
      ComposeAssoc(R, q, e, m);
    }
  }

  /** Column actions are products on the right. */
  lemma {:induction false} DoColsIsCompose<T(!new)>(R: Ring<T>, m: Mat<T>, acts: seq<Action<T>>)
    requires IsCRing(R) && Elems(R, m) && AllFit(R, acts, m.domain)
    ensures DoCols(R, m, acts) == Compose(R, m, DoCols(R, IdentityMat(R, m.domain), acts))
    ensures UndoCols(R, m, acts) == Compose(R, m, UndoCols(R, IdentityMat(R, m.domain), acts))
    decreases |acts|
  {
    var id := IdentityMat(R, m.domain);
    ElemsIdentity(R, m.domain);
    if acts == [] {
      ComposeIdentity(R, m);
    } else {
      var init, last := acts[..|acts| - 1], acts[|acts| - 1];
      DoColsIsCompose(R, m, init);
      ElemsLogs(R, id, init);
      var p := DoCols(R, id, init);
      match last {
        case Swap(b, c) =>
          ColOpsCommuteWithCompose(R, m, p, b, c, R.one);
          ColOpsCommuteWithCompose(R, m, id, b, c, R.one);
        case Add(t, s, f) =>
          ColOpsCommuteWithCompose(R, m, p, t, s, f);
          ColOpsCommuteWithCompose(R, m, id, t, s, R.neg(f));
      }
      var e := ColUndo(R, id, last);
      ComposeIdentity(R, m);
      ElemsActs(R, id, last);
      ElemsActs(R, m, last);
      DoColsIsCompose(R, ColUndo(R, m, last), init);
      DoColsIsCompose(R, e, init);
      var q := UndoCols(R, id, init);
      ElemsLogs(R, id, init);
      ComposeAssoc(R, m, e, q);
    }
  }

  /** U⁻¹ built by the replay is a two-sided inverse of U. */
  lemma RowLogInverse<T(!new)>(R: Ring<T>, n: nat, acts: seq<Action<T>>)
    requires IsCRing(R) && AllFit(R, acts, n)
    ensures var id := IdentityMat(R, n);
            var u, ui := DoRows(R, id, acts), UndoRows(R, id, acts);
            Compose(R, u, ui) == id && Compose(R, ui, u) == id
  {
    var id := IdentityMat(R, n);
    ElemsIdentity(R, n);
    ElemsLogs(R, id, acts);
    var u, ui := DoRows(R, id, acts), UndoRows(R, id, acts);
    DoRowsIsCompose(R, ui, acts);
    DoRowsIsCompose(R, u, acts);
    DoUndoRows(R, id, acts);
  }

  /** V⁻¹ built by the replay is a two-sided inverse of V. */
  lemma ColLogInverse<T(!new)>(R: Ring<T>, n: nat, acts: seq<Action<T>>)
    requires IsCRing(R) && AllFit(R, acts, n)
    ensures var id := IdentityMat(R, n);
            var v, vi := DoCols(R, id, acts), UndoCols(R, id, acts);
            Compose(R, v, vi) == id && Compose(R, vi, v) == id
  {
    var id := IdentityMat(R, n);
    ElemsIdentity(R, n);
    ElemsLogs(R, id, acts);
    var v, vi := DoCols(R, id, acts), UndoCols(R, id, acts);
    DoColsIsCompose(R, vi, acts);
    DoColsIsCompose(R, v, acts);
    DoUndoCols(R, id, acts);
  }

  // ---------------------------------------------------------------------
  // What the main loop keeps

  /** U and V are the logs applied to identities, and S == U·A·V. */
  ghost predicate Tracks<T(!new)>(R: Ring<T>, a: Mat<T>, s: Mat<T>, u: Mat<T>, v: Mat<T>,
                                  uacts: seq<Action<T>>, vacts: seq<Action<T>>) {
    && Elems(R, a)
    && AllFit(R, uacts, a.codomain) && AllFit(R, vacts, a.domain)
    && u == DoRows(R, IdentityMat(R, a.codomain), uacts)
    && v == DoCols(R, IdentityMat(R, a.domain), vacts)
    && Elems(R, u) && Elems(R, v) && Elems(R, s)
    && s == Compose(R, Compose(R, u, a), v)
  }

  lemma TracksStart<T(!new)>(R: Ring<T>, a: Mat<T>)
    requires IsCRing(R) && Elems(R, a)
    ensures Tracks(R, a, a, IdentityMat(R, a.codomain), IdentityMat(R, a.domain), [], [])
  {
    ElemsIdentity(R, a.codomain);
    ElemsIdentity(R, a.domain);
    ComposeIdentity(R, a);
  }

  /** A row action on S and U, logged, keeps S == U·A·V. */
  lemma TracksRow<T(!new)>(R: Ring<T>, a: Mat<T>, s: Mat<T>, u: Mat<T>, v: Mat<T>,
                           uacts: seq<Action<T>>, vacts: seq<Action<T>>, act: Action<T>)
    requires IsCRing(R) && Tracks(R, a, s, u, v, uacts, vacts) && Fits(R, act, a.codomain)
    ensures Tracks(R, a, RowAct(R, s, act), RowAct(R, u, act), v, uacts + [act], vacts)
  {
    assert (uacts + [act])[..|uacts|] == uacts;
    ElemsActs(R, u, act);
    ElemsActs(R, s, act);
    ElemsCompose(R, u, a);
    var ua := Compose(R, u, a);
    match act {
      case Swap(b, c) =>
        RowOpsCommuteWithCompose(R, u, a, b, c, R.one);
        RowOpsCommuteWithCompose(R, ua, v, b, c, R.one);
      case Add(t, t2, f) =>
        RowOpsCommuteWithCompose(R, u, a, t, t2, f);
        RowOpsCommuteWithCompose(R, ua, v, t, t2, f);
    }
  }

  /** A column action on S and V, logged, keeps S == U·A·V. */
  lemma TracksCol<T(!new)>(R: Ring<T>, a: Mat<T>, s: Mat<T>, u: Mat<T>, v: Mat<T>,
                           uacts: seq<Action<T>>, vacts: seq<Action<T>>, act: Action<T>)
    requires IsCRing(R) && Tracks(R, a, s, u, v, uacts, vacts) && Fits(R, act, a.domain)
    ensures Tracks(R, a, ColAct(R, s, act), u, ColAct(R, v, act), uacts, vacts + [act])
  {
    assert (vacts + [act])[..|vacts|] == vacts;
    ElemsActs(R, v, act);
    ElemsActs(R, s, act);
    ElemsCompose(R, u, a);
    var ua := Compose(R, u, a);
    match act {
      case Swap(b, c) =>
        ColOpsCommuteWithCompose(R, ua, v, b, c, R.one);
      case Add(t, t2, f) =>
        ColOpsCommuteWithCompose(R, ua, v, t, t2, f);
    }
  }

  // ---------------------------------------------------------------------
  // The shape of S

  /** After r rounds: rows and columns before r hold nothing off the
      diagonal, and the first r diagonal entries are nonzero. */
  ghost predicate DiagonalUpTo<T>(R: Ring<T>, s: Mat<T>, r: nat) {
    && Shaped(s) && r <= s.domain && r <= s.codomain
    && (forall x, y :: 0 <= x < s.domain && 0 <= y < s.codomain && (x < r || y < r) && x != y ==> At(s, x, y) == R.zero)
    && (forall i :: 0 <= i < r ==> At(s, i, i) != R.zero)
  }

  /** Each of the first r diagonal entries divides the next. */
  ghost predicate ChainUpTo<T>(R: Ring<T>, V: Valuation<T>, s: Mat<T>, r: nat) {
    && Shaped(s) && r <= s.domain && r <= s.codomain
    && forall i :: 0 < i < r ==> V.divides(At(s, i - 1, i - 1), At(s, i, i))
  }

  /** After round r - 1 its pivot divides everything from (r, r) on. */
  ghost predicate RestDivided<T>(R: Ring<T>, V: Valuation<T>, s: Mat<T>, r: nat) {
    && Shaped(s) && r <= s.domain && r <= s.codomain
    && (0 < r ==> forall x, y :: r <= x < s.domain && r <= y < s.codomain ==> V.divides(At(s, r - 1, r - 1), At(s, x, y)))
  }

  /** The state between rounds: diagonal up to r, with the chain and the
      rest divided by the last pivot. */
  ghost predicate SmithUpTo<T>(R: Ring<T>, V: Valuation<T>, s: Mat<T>, r: nat) {
    DiagonalUpTo(R, s, r) && ChainUpTo(R, V, s, r) && RestDivided(R, V, s, r)
  }

  /** Smith normal form of rank `rank`: the nonzero entries are exactly the
      first `rank` entries of the diagonal, and each of those divides the
      next. */
  ghost predicate SmithForm<T>(R: Ring<T>, V: Valuation<T>, s: Mat<T>, rank: nat) {
    && Shaped(s) && rank <= s.domain && rank <= s.codomain
    && (forall x, y :: 0 <= x < s.domain && 0 <= y < s.codomain ==> (At(s, x, y) != R.zero <==> x == y && x < rank))
    && (forall i :: 0 < i < rank ==> V.divides(At(s, i - 1, i - 1), At(s, i, i)))
  }

  /** The rounds stop with S in Smith form once the rest of S is zero, in
      particular once no row or no column is left. */
  lemma DiagonalDone<T>(R: Ring<T>, V: Valuation<T>, s: Mat<T>, r: nat)
    requires DiagonalUpTo(R, s, r) && ChainUpTo(R, V, s, r)
    requires forall x, y :: r <= x < s.domain && r <= y < s.codomain ==> At(s, x, y) == R.zero
    ensures SmithForm(R, V, s, r)
  {
  }

  /** A zero candidate dominates only zeros: the rest of S is zero. */
  lemma ZeroCandidate<T(!new)>(R: Ring<T>, V: Valuation<T>, s: Mat<T>, r: nat, c: T)
    requires IsValuationRing(R, V) && Elems(R, s) && R.elem(c) && R.isZero(c)
    requires forall x, y :: r <= x < s.domain && r <= y < s.codomain ==> Dominates(R, V, c, At(s, x, y))
    ensures forall x, y :: r <= x < s.domain && r <= y < s.codomain ==> At(s, x, y) == R.zero
  {
    forall x, y | r <= x < s.domain && r <= y < s.codomain ensures At(s, x, y) == R.zero {
      assert R.elem(s.rows[y][x]);
    }
  }

  /** The pivot p of round r divides everything from (r, r) on. */
  ghost predicate PivotDivides<T>(R: Ring<T>, V: Valuation<T>, s: Mat<T>, r: nat, p: T) {
    Shaped(s) && forall x, y :: r <= x < s.domain && r <= y < s.codomain ==> V.divides(p, At(s, x, y))
  }

  /** During the row loop of round r at row k: the pivot p sits at (r, r),
      extends the chain and divides everything from (r, r) on, and column r
      is zero between rows r and k. */
  ghost predicate RowPhase<T>(R: Ring<T>, V: Valuation<T>, s: Mat<T>, r: nat, k: nat, p: T) {
    && DiagonalUpTo(R, s, r) && r < s.domain && r < k <= s.codomain
    && At(s, r, r) == p && p != R.zero
    && ChainUpTo(R, V, s, r + 1) && PivotDivides(R, V, s, r, p)
    && (forall y :: r < y < k ==> At(s, r, y) == R.zero)
  }

  /** During the column loop of round r at column l: column r is zero below
      the pivot, row r is zero between columns r and l, and the pivot still
      extends the chain and divides everything from (r, r) on. */
  ghost predicate ColPhase<T>(R: Ring<T>, V: Valuation<T>, s: Mat<T>, r: nat, l: nat, p: T) {
    && DiagonalUpTo(R, s, r) && r < s.codomain && r < l <= s.domain
    && At(s, r, r) == p && p != R.zero
    && ChainUpTo(R, V, s, r + 1) && PivotDivides(R, V, s, r, p)
    && (forall y :: r < y < s.codomain ==> At(s, r, y) == R.zero)
    && (forall x :: r < x < l ==> At(s, x, r) == R.zero)
  }

  /** Entry (x, y) after swapping rows r and cy, then columns r and cx. */
  lemma SwappedEntry<T>(s: Mat<T>, r: nat, cx: nat, cy: nat, x: nat, y: nat)
    requires Shaped(s) && r <= cx < s.domain && r <= cy < s.codomain && x < s.domain && y < s.codomain
    ensures At(SwapCols(SwapRows(s, r, cy), r, cx), x, y)
              == At(s, if x == r then cx else if x == cx then r else x, if y == r then cy else if y == cy then r else y)
  {
  }

  /** The swaps of round r move only rows and columns from r on, so the
      zeros off the first r diagonal places stay. */
  lemma PlacedDiagonal<T>(R: Ring<T>, s: Mat<T>, r: nat, cx: nat, cy: nat)
    requires DiagonalUpTo(R, s, r) && r <= cx < s.domain && r <= cy < s.codomain
    ensures DiagonalUpTo(R, SwapCols(SwapRows(s, r, cy), r, cx), r)
  {
    var s1 := SwapCols(SwapRows(s, r, cy), r, cx);
    forall x, y | 0 <= x < s.domain && 0 <= y < s.codomain && (x < r || y < r) && x != y ensures At(s1, x, y) == R.zero {
      SwappedEntry(s, r, cx, cy, x, y);
    }
    forall i | 0 <= i < r ensures At(s1, i, i) != R.zero {
      SwappedEntry(s, r, cx, cy, i, i);
    }
  }

  /** The candidate, now at (r, r), still divides everything from row and
      column r on. */
  lemma PlacedDivides<T(!new)>(R: Ring<T>, V: Valuation<T>, s: Mat<T>, r: nat, cx: nat, cy: nat)
    requires Shaped(s) && r <= cx < s.domain && r <= cy < s.codomain && !R.isZero(At(s, cx, cy))
    requires forall x, y :: r <= x < s.domain && r <= y < s.codomain ==> Dominates(R, V, At(s, cx, cy), At(s, x, y))
    ensures PivotDivides(R, V, SwapCols(SwapRows(s, r, cy), r, cx), r, At(s, cx, cy))
  {
    var s1 := SwapCols(SwapRows(s, r, cy), r, cx);
    forall x, y | r <= x < s.domain && r <= y < s.codomain ensures V.divides(At(s, cx, cy), At(s1, x, y)) {
      SwappedEntry(s, r, cx, cy, x, y);
    }
  }

  /** The last pivot divides the candidate, so the chain grows by one. */
  lemma PlacedChain<T>(R: Ring<T>, V: Valuation<T>, s: Mat<T>, r: nat, cx: nat, cy: nat)
    requires SmithUpTo(R, V, s, r) && r <= cx < s.domain && r <= cy < s.codomain
    ensures ChainUpTo(R, V, SwapCols(SwapRows(s, r, cy), r, cx), r + 1)
  {
    var s1 := SwapCols(SwapRows(s, r, cy), r, cx);
    forall i | 0 < i < r + 1 ensures V.divides(At(s1, i - 1, i - 1), At(s1, i, i)) {
      SwappedEntry(s, r, cx, cy, i - 1, i - 1);
      SwappedEntry(s, r, cx, cy, i, i);
      if i == r {
        assert V.divides(At(s, r - 1, r - 1), At(s, cx, cy));
      }
    }
  }

  /** After the swaps of round r the candidate sits at (r, r), and it still
      divides everything from row and column r on. */
  lemma PlacedPhase<T(!new)>(R: Ring<T>, V: Valuation<T>, s: Mat<T>, r: nat, cx: nat, cy: nat)
    requires IsValuationRing(R, V) && Elems(R, s) && SmithUpTo(R, V, s, r)
    requires r <= cx < s.domain && r <= cy < s.codomain && !R.isZero(At(s, cx, cy))
    requires forall x, y :: r <= x < s.domain && r <= y < s.codomain ==> Dominates(R, V, At(s, cx, cy), At(s, x, y))
    ensures RowPhase(R, V, SwapCols(SwapRows(s, r, cy), r, cx), r, r + 1, At(s, cx, cy))
  {
    assert R.elem(s.rows[cy][cx]);
    SwappedEntry(s, r, cx, cy, r, r);
    PlacedDiagonal(R, s, r, cx, cy);
    PlacedDivides(R, V, s, r, cx, cy);
    PlacedChain(R, V, s, r, cx, cy);
  }

  /** One round of the row loop keeps the row phase, one row further. */
  lemma RowPhaseStep<T(!new)>(R: Ring<T>, V: Valuation<T>, s: Mat<T>, r: nat, k: nat, p: T)
    requires IsValuationRing(R, V) && Elems(R, s) && RowPhase(R, V, s, r, k, p) && k < s.codomain
    ensures var e := At(s, r, k);
            var s' := if R.isZero(e) then s else AddRowMultiple(R, s, k, r, R.neg(V.divide(e, p)));
            Elems(R, s') && RowPhase(R, V, s', r, k + 1, p)
  {
    var e := At(s, r, k);
    assert R.elem(s.rows[k][r]) && R.elem(s.rows[r][r]);
    if !R.isZero(e) {
      EliminationZero(R, V, e, p);
      var f := R.neg(V.divide(e, p));
      var s' := AddRowMultiple(R, s, k, r, f);
      ElemsRowOps(R, s, k, r, f);
      MulZero(R, f);
      Laws(R, R.zero, R.zero, R.zero);
      forall x | 0 <= x < r ensures At(s', x, k) == R.zero {
        assert At(s, x, k) == R.zero && At(s, x, r) == R.zero;
      }
      forall x, y | r <= x < s.domain && r <= y < s.codomain ensures V.divides(p, At(s', x, y)) {
        if y == k {
          assert R.elem(s.rows[k][x]) && R.elem(s.rows[r][x]);
          assert V.divides(p, At(s, x, k)) && V.divides(p, At(s, x, r));
          assert V.divides(p, R.mul(f, At(s, x, r)));
        }
      }
      forall i | 0 < i < r + 1 ensures V.divides(At(s', i - 1, i - 1), At(s', i, i)) {
        assert At(s', i - 1, i - 1) == At(s, i - 1, i - 1) && At(s', i, i) == At(s, i, i);
      }
    }
  }

  /** One round of the column loop keeps the column phase, one column
      further. */
  lemma ColPhaseStep<T(!new)>(R: Ring<T>, V: Valuation<T>, s: Mat<T>, r: nat, l: nat, p: T)
    requires IsValuationRing(R, V) && Elems(R, s) && ColPhase(R, V, s, r, l, p) && l < s.domain
    ensures var e := At(s, l, r);
            var s' := if R.isZero(e) then s else AddColMultiple(R, s, l, r, R.neg(V.divide(e, p)));
            Elems(R, s') && ColPhase(R, V, s', r, l + 1, p)
  {
    var e := At(s, l, r);
    assert R.elem(s.rows[r][l]) && R.elem(s.rows[r][r]);
    if !R.isZero(e) {
      EliminationZero(R, V, e, p);
      var f := R.neg(V.divide(e, p));
      var s' := AddColMultiple(R, s, l, r, f);
      ElemsColOps(R, s, l, r, f);
      MulZero(R, f);
      Laws(R, R.zero, R.zero, R.zero);
      forall y | 0 <= y < r ensures At(s', l, y) == R.zero {
        assert At(s, l, y) == R.zero && At(s, r, y) == R.zero;
      }
      forall x, y | r <= x < s.domain && r <= y < s.codomain ensures V.divides(p, At(s', x, y)) {
        if x == l {
          assert R.elem(s.rows[y][l]) && R.elem(s.rows[y][r]);
          assert V.divides(p, At(s, l, y)) && V.divides(p, At(s, r, y));
          assert V.divides(p, R.mul(f, At(s, r, y)));
        }
      }
      forall i | 0 < i < r + 1 ensures V.divides(At(s', i - 1, i - 1), At(s', i, i)) {
        assert At(s', i - 1, i - 1) == At(s, i - 1, i - 1) && At(s', i, i) == At(s, i, i);
      }
    }
  }

  /** The end of the row loop is the start of the column loop. */
  lemma RowsDone<T>(R: Ring<T>, V: Valuation<T>, s: Mat<T>, r: nat, p: T)
    requires RowPhase(R, V, s, r, s.codomain, p)
    ensures ColPhase(R, V, s, r, r + 1, p)
  {
  }

  /** The end of the column loop completes round r. */
  lemma ColsDone<T>(R: Ring<T>, V: Valuation<T>, s: Mat<T>, r: nat, p: T)
    requires ColPhase(R, V, s, r, s.domain, p)
    ensures SmithUpTo(R, V, s, r + 1)
  {
  }

  // ---------------------------------------------------------------------
  // The algorithm

  /** c dominates every entry of the submatrix from (r, r) on that the
      search has passed: the rows r .. y-1 whole, and row y before column x. */
  ghost predicate DominatesSeen<T>(R: Ring<T>, V: Valuation<T>, m: Mat<T>, c: T, r: nat, x: nat, y: nat) {
    && Shaped(m)
    && forall x', y' :: r <= x' < m.domain && r <= y' < m.codomain && (y' < y || (y' == y && x' < x)) ==>
         Dominates(R, V, c, At(m, x', y'))
  }

  /** Every nonzero value divides itself, so every value dominates itself. */
  lemma DominatesSelf<T(!new)>(R: Ring<T>, V: Valuation<T>, e: T)
    requires IsValuationRing(R, V) && R.elem(e)
    ensures Dominates(R, V, e, e)
  {
  }

  /** The step of the search that keeps the candidate keeps its invariant. */
  lemma SearchKept<T>(R: Ring<T>, V: Valuation<T>, m: Mat<T>, c: T, r: nat, x: nat, y: nat)
    requires Shaped(m) && r <= x < m.domain && r <= y < m.codomain
    requires V.divides(c, At(m, x, y)) && DominatesSeen(R, V, m, c, r, x, y)
    ensures DominatesSeen(R, V, m, c, r, x + 1, y)
  {
  }

  /** The step of the search that replaces the candidate keeps its
      invariant. */
  lemma SearchReplaced<T(!new)>(R: Ring<T>, V: Valuation<T>, m: Mat<T>, c: T, el: T, r: nat, x: nat, y: nat)
    requires IsValuationRing(R, V) && Elems(R, m) && r <= x < m.domain && r <= y < m.codomain
    requires R.elem(c) && el == At(m, x, y) && !V.divides(c, el) && DominatesSeen(R, V, m, c, r, x, y)
    ensures DominatesSeen(R, V, m, el, r, x + 1, y)
  {
    assert R.elem(m.rows[y][x]);
    forall x', y' | r <= x' < m.domain && r <= y' < m.codomain && (y' < y || (y' == y && x' < x + 1))
      ensures Dominates(R, V, el, At(m, x', y'))
    {
      assert R.elem(m.rows[y'][x']);
      if y' < y || x' < x {
        DominatesReplaced(R, V, c, el, At(m, x', y'));
      } else {
        DominatesSelf(R, V, el);
      }
    }
  }

  /** A finished row of the search is a passed row. */
  lemma SearchNextRow<T>(R: Ring<T>, V: Valuation<T>, m: Mat<T>, c: T, r: nat, y: nat)
    requires r <= m.domain && DominatesSeen(R, V, m, c, r, m.domain, y)
    ensures DominatesSeen(R, V, m, c, r, r, y + 1)
  {
  }

  /** The search of round r: an entry of the submatrix from (r, r) on that
      divides all the others (or is zero, and then so is all of it). */
  method FindCandidate<T(!new)>(R: Ring<T>, V: Valuation<T>, s: FlatMatrix<T>, r: nat) returns (cx: nat, cy: nat, cval: T)
    requires IsValuationRing(R, V) && s.Valid() && Elems(R, s.Value()) && r < s.domain && r < s.codomain
    ensures r <= cx < s.domain && r <= cy < s.codomain && cval == At(s.Value(), cx, cy)
    ensures forall x, y :: r <= x < s.domain && r <= y < s.codomain ==> Dominates(R, V, cval, At(s.Value(), x, y))
  {
    ghost var m := s.Value();
    assert m.domain == s.domain && m.codomain == s.codomain;
    cx, cy := r, r;
    cval := s.Get(r, r);
    for y := r to s.codomain
      invariant r <= cx < m.domain && r <= cy < m.codomain && cval == At(m, cx, cy)
      invariant DominatesSeen(R, V, m, cval, r, r, y)
    {
      for x := r to s.domain
        invariant r <= cx < m.domain && r <= cy < m.codomain && cval == At(m, cx, cy)
        invariant DominatesSeen(R, V, m, cval, r, x, y)
      {
        var el := s.Get(x, y);
        if !V.divides(cval, el) {
          assert R.elem(m.rows[cy][cx]);
          SearchReplaced(R, V, m, cval, el, r, x, y);
          cval := el;
          cx, cy := x, y;
        } else {
          SearchKept(R, V, m, cval, r, x, y);
        }
      }
      SearchNextRow(R, V, m, cval, r, y);
    }
  }

  /** The swaps of round r: the candidate's row to row r in S and U, its
      column to column r in S and V, both logged. */
  method PlaceCandidate<T(!new)>(R: Ring<T>, V: Valuation<T>, ghost a: Mat<T>, s: FlatMatrix<T>, u: FlatMatrix<T>, v: FlatMatrix<T>,
                                 r: nat, cx: nat, cy: nat, uacts: seq<Action<T>>, vacts: seq<Action<T>>)
    returns (uacts': seq<Action<T>>, vacts': seq<Action<T>>)
    requires IsValuationRing(R, V) && s != u && s != v && u != v && s.Valid() && u.Valid() && v.Valid()
    requires Tracks(R, a, s.Value(), u.Value(), v.Value(), uacts, vacts) && SmithUpTo(R, V, s.Value(), r)
    requires r <= cx < s.domain && r <= cy < s.codomain && !R.isZero(At(s.Value(), cx, cy))
    requires forall x, y :: r <= x < s.domain && r <= y < s.codomain ==> Dominates(R, V, At(s.Value(), cx, cy), At(s.Value(), x, y))
    modifies s, u, v
    ensures s.Valid() && u.Valid() && v.Valid()
    ensures Tracks(R, a, s.Value(), u.Value(), v.Value(), uacts', vacts')
    ensures RowPhase(R, V, s.Value(), r, r + 1, old(At(s.Value(), cx, cy)))
  {
    ghost var s0 := s.Value();
    PlacedPhase(R, V, s0, r, cx, cy);
    uacts' := SwapPivotRow(R, a, s, u, v, r, cy, uacts, vacts);
    vacts' := SwapPivotCol(R, a, s, u, v, r, cx, uacts', vacts);
  }

  /** Row r of S and U trades places with row cy, and the swap is logged. */
  method SwapPivotRow<T(!new)>(R: Ring<T>, ghost a: Mat<T>, s: FlatMatrix<T>, u: FlatMatrix<T>, v: FlatMatrix<T>,
                               r: nat, cy: nat, uacts: seq<Action<T>>, ghost vacts: seq<Action<T>>)
    returns (uacts': seq<Action<T>>)
    requires IsCRing(R) && s != u && s != v && u != v && s.Valid() && u.Valid() && v.Valid()
    requires Tracks(R, a, s.Value(), u.Value(), v.Value(), uacts, vacts) && r < s.codomain && cy < s.codomain
    modifies s, u
    ensures s.Valid() && u.Valid() && s.Value() == SwapRows(old(s.Value()), r, cy)
    ensures Tracks(R, a, s.Value(), u.Value(), v.Value(), uacts', vacts)
  {
    TracksRow(R, a, s.Value(), u.Value(), v.Value(), uacts, vacts, Swap(r, cy));
    u.SwapRows(r, cy);
    s.SwapRows(r, cy);
    uacts' := uacts + [Swap(r, cy)];
  }

  /** Column r of S and V trades places with column cx, and the swap is
      logged. */
  method SwapPivotCol<T(!new)>(R: Ring<T>, ghost a: Mat<T>, s: FlatMatrix<T>, u: FlatMatrix<T>, v: FlatMatrix<T>,
                               r: nat, cx: nat, ghost uacts: seq<Action<T>>, vacts: seq<Action<T>>)
    returns (vacts': seq<Action<T>>)
    requires IsCRing(R) && s != u && s != v && u != v && s.Valid() && u.Valid() && v.Valid()
    requires Tracks(R, a, s.Value(), u.Value(), v.Value(), uacts, vacts) && r < s.domain && cx < s.domain
    modifies s, v
    ensures s.Valid() && v.Valid() && s.Value() == SwapCols(old(s.Value()), r, cx)
    ensures Tracks(R, a, s.Value(), u.Value(), v.Value(), uacts, vacts')
  {
    TracksCol(R, a, s.Value(), u.Value(), v.Value(), uacts, vacts, Swap(r, cx));
    s.SwapCols(r, cx);
    v.SwapCols(r, cx);
    vacts' := vacts + [Swap(r, cx)];
  }

  /** The row loop of round r: clear column r below the pivot p, acting on
      S and U and logging each addition. */
  method ReduceRows<T(!new)>(R: Ring<T>, V: Valuation<T>, ghost a: Mat<T>, s: FlatMatrix<T>, u: FlatMatrix<T>, v: FlatMatrix<T>,
                             r: nat, p: T, uacts: seq<Action<T>>, ghost vacts: seq<Action<T>>)
    returns (uacts': seq<Action<T>>)
    requires IsValuationRing(R, V) && s != u && s != v && u != v && s.Valid() && u.Valid() && v.Valid()
    requires Tracks(R, a, s.Value(), u.Value(), v.Value(), uacts, vacts) && RowPhase(R, V, s.Value(), r, r + 1, p)
    modifies s, u
    ensures s.Valid() && u.Valid()
    ensures Tracks(R, a, s.Value(), u.Value(), v.Value(), uacts', vacts) && ColPhase(R, V, s.Value(), r, r + 1, p)
  {
    uacts' := uacts;
    for k := r + 1 to s.codomain
      invariant s.Valid() && u.Valid()
      invariant Tracks(R, a, s.Value(), u.Value(), v.Value(), uacts', vacts) && RowPhase(R, V, s.Value(), r, k, p)
    {
      uacts' := ReduceRowStep(R, V, a, s, u, v, r, k, p, uacts', vacts);
    }
    RowsDone(R, V, s.Value(), r, p);
  }

  /** One pass of the row loop: clear the entry of row k in column r. */
  method ReduceRowStep<T(!new)>(R: Ring<T>, V: Valuation<T>, ghost a: Mat<T>, s: FlatMatrix<T>, u: FlatMatrix<T>, v: FlatMatrix<T>,
                                r: nat, k: nat, p: T, uacts: seq<Action<T>>, ghost vacts: seq<Action<T>>)
    returns (uacts': seq<Action<T>>)
    requires IsValuationRing(R, V) && s != u && s != v && u != v && s.Valid() && u.Valid() && v.Valid()
    requires r < k < s.codomain
    requires Tracks(R, a, s.Value(), u.Value(), v.Value(), uacts, vacts) && RowPhase(R, V, s.Value(), r, k, p)
    modifies s, u
    ensures s.Valid() && u.Valid()
    ensures Tracks(R, a, s.Value(), u.Value(), v.Value(), uacts', vacts) && RowPhase(R, V, s.Value(), r, k + 1, p)
  {
    ghost var s0, u0 := s.Value(), u.Value();
    var entry := s.Get(r, k);
    RowPhaseStep(R, V, s0, r, k, p);
    uacts' := uacts;
    if !R.isZero(entry) {
      assert R.elem(s0.rows[k][r]) && R.elem(s0.rows[r][r]);
      EliminationZero(R, V, entry, p);
      var factor := R.neg(V.divide(entry, p));
      TracksRow(R, a, s0, u0, v.Value(), uacts, vacts, Add(k, r, factor));
      u.AddRowMultiple(R, k, r, factor);
      uacts' := uacts + [Add(k, r, factor)];
      s.AddRowMultiple(R, k, r, factor);
    }
  }

  /** The column loop of round r: clear row r right of the pivot p, acting
      on S and V and logging each addition. */
  method ReduceCols<T(!new)>(R: Ring<T>, V: Valuation<T>, ghost a: Mat<T>, s: FlatMatrix<T>, u: FlatMatrix<T>, v: FlatMatrix<T>,
                             r: nat, p: T, ghost uacts: seq<Action<T>>, vacts: seq<Action<T>>)
    returns (vacts': seq<Action<T>>)
    requires IsValuationRing(R, V) && s != u && s != v && u != v && s.Valid() && u.Valid() && v.Valid()
    requires Tracks(R, a, s.Value(), u.Value(), v.Value(), uacts, vacts) && ColPhase(R, V, s.Value(), r, r + 1, p)
    modifies s, v
    ensures s.Valid() && v.Valid()
    ensures Tracks(R, a, s.Value(), u.Value(), v.Value(), uacts, vacts') && SmithUpTo(R, V, s.Value(), r + 1)
  {
    vacts' := vacts;
    for l := r + 1 to s.domain
      invariant s.Valid() && v.Valid()
      invariant Tracks(R, a, s.Value(), u.Value(), v.Value(), uacts, vacts') && ColPhase(R, V, s.Value(), r, l, p)
    {
      vacts' := ReduceColStep(R, V, a, s, u, v, r, l, p, uacts, vacts');
    }
    ColsDone(R, V, s.Value(), r, p);
  }

  /** One pass of the column loop: clear the entry of column l in row r. */
  method ReduceColStep<T(!new)>(R: Ring<T>, V: Valuation<T>, ghost a: Mat<T>, s: FlatMatrix<T>, u: FlatMatrix<T>, v: FlatMatrix<T>,
                                r: nat, l: nat, p: T, ghost uacts: seq<Action<T>>, vacts: seq<Action<T>>)
    returns (vacts': seq<Action<T>>)
    requires IsValuationRing(R, V) && s != u && s != v && u != v && s.Valid() && u.Valid() && v.Valid()
    requires r < l < s.domain
    requires Tracks(R, a, s.Value(), u.Value(), v.Value(), uacts, vacts) && ColPhase(R, V, s.Value(), r, l, p)
    modifies s, v
    ensures s.Valid() && v.Valid()
    ensures Tracks(R, a, s.Value(), u.Value(), v.Value(), uacts, vacts') && ColPhase(R, V, s.Value(), r, l + 1, p)
  {
    ghost var s0, v0 := s.Value(), v.Value();
    var entry := s.Get(l, r);
    ColPhaseStep(R, V, s0, r, l, p);
    vacts' := vacts;
    if !R.isZero(entry) {
      assert R.elem(s0.rows[r][l]) && R.elem(s0.rows[r][r]);
      EliminationZero(R, V, entry, p);
      var factor := R.neg(V.divide(entry, p));
      TracksCol(R, a, s0, u.Value(), v0, uacts, vacts, Add(l, r, factor));
      s.AddColMultiple(R, l, r, factor);
      v.AddColMultiple(R, l, r, factor);
      vacts' := vacts + [Add(l, r, factor)];
    }
  }

  /** The inverse of one logged row action, applied in place. */
  method UndoRowAction<T>(R: Ring<T>, m: FlatMatrix<T>, act: Action<T>)
    requires m.Valid() && Fits(R, act, m.codomain)
    modifies m
    ensures m.Valid() && m.Value() == RowUndo(R, old(m.Value()), act)
  {
    match act {
      case Swap(b, c) => m.SwapRows(b, c);
      case Add(b, c, factor) => m.AddRowMultiple(R, b, c, R.neg(factor));
    }
  }

  /** The inverse of one logged column action, applied in place. */
  method UndoColAction<T>(R: Ring<T>, m: FlatMatrix<T>, act: Action<T>)
    requires m.Valid() && Fits(R, act, m.domain)
    modifies m
    ensures m.Valid() && m.Value() == ColUndo(R, old(m.Value()), act)
  {
    match act {
      case Swap(b, c) => m.SwapCols(b, c);
      case Add(b, c, factor) => m.AddColMultiple(R, b, c, R.neg(factor));
    }
  }

  /** Undoing the last action of a prefix first, then the rest. */
  lemma UndoRowsPrefix<T>(R: Ring<T>, m: Mat<T>, acts: seq<Action<T>>, i: nat)
    requires Shaped(m) && AllFit(R, acts, m.codomain) && 0 < i <= |acts|
    ensures UndoRows(R, RowUndo(R, m, acts[i - 1]), acts[..i - 1]) == UndoRows(R, m, acts[..i])
  {
    assert acts[..i][..i - 1] == acts[..i - 1];
  }

  lemma UndoColsPrefix<T>(R: Ring<T>, m: Mat<T>, acts: seq<Action<T>>, i: nat)
    requires Shaped(m) && AllFit(R, acts, m.domain) && 0 < i <= |acts|
    ensures UndoCols(R, ColUndo(R, m, acts[i - 1]), acts[..i - 1]) == UndoCols(R, m, acts[..i])
  {
    assert acts[..i][..i - 1] == acts[..i - 1];
  }

  /** U⁻¹: the identity with the row log replayed, last action first, each
      addition with its factor negated. */
  method ReplayRows<T(!new)>(R: Ring<T>, n: nat, acts: seq<Action<T>>) returns (ui: FlatMatrix<T>)
    requires AllFit(R, acts, n)
    ensures fresh(ui) && ui.Valid() && ui.Value() == UndoRows(R, IdentityMat(R, n), acts)
  {
    ui := new FlatMatrix.Identity(R, n);
    var i := |acts|;
    assert acts[..i] == acts;
    while i > 0
      invariant 0 <= i <= |acts| && ui.Valid() && Shaped(ui.Value()) && ui.Value().codomain == n && AllFit(R, acts[..i], n)
      invariant UndoRows(R, ui.Value(), acts[..i]) == UndoRows(R, IdentityMat(R, n), acts)
    {
      ReplayRowsStep(R, n, ui, acts, i);
      i := i - 1;
    }
  }

  /** One pass of that loop: undo action i - 1 on the matrix. */
  method ReplayRowsStep<T>(R: Ring<T>, n: nat, m: FlatMatrix<T>, acts: seq<Action<T>>, i: nat)
    requires AllFit(R, acts, n) && 0 < i <= |acts| && m.Valid() && m.Value().codomain == n && AllFit(R, acts[..i], n)
    modifies m
    ensures m.Valid() && Shaped(m.Value()) && m.Value().codomain == n && AllFit(R, acts[..i - 1], n)
    ensures UndoRows(R, m.Value(), acts[..i - 1]) == UndoRows(R, old(m.Value()), acts[..i])
  {
    UndoRowsPrefix(R, m.Value(), acts, i);
    UndoRowAction(R, m, acts[i - 1]);
  }

  /** V⁻¹: the identity with the column log replayed, last action first. */
  method ReplayCols<T(!new)>(R: Ring<T>, n: nat, acts: seq<Action<T>>) returns (vi: FlatMatrix<T>)
    requires AllFit(R, acts, n)
    ensures fresh(vi) && vi.Valid() && vi.Value() == UndoCols(R, IdentityMat(R, n), acts)
  {
    vi := new FlatMatrix.Identity(R, n);
    var i := |acts|;
    assert acts[..i] == acts;
    while i > 0
      invariant 0 <= i <= |acts| && vi.Valid() && Shaped(vi.Value()) && vi.Value().domain == n && AllFit(R, acts[..i], n)
      invariant UndoCols(R, vi.Value(), acts[..i]) == UndoCols(R, IdentityMat(R, n), acts)
    {
      ReplayColsStep(R, n, vi, acts, i);
      i := i - 1;
    }
  }

  /** One pass of that loop: undo action i - 1 on the matrix. */
  method ReplayColsStep<T>(R: Ring<T>, n: nat, m: FlatMatrix<T>, acts: seq<Action<T>>, i: nat)
    requires AllFit(R, acts, n) && 0 < i <= |acts| && m.Valid() && m.Value().domain == n && AllFit(R, acts[..i], n)
    modifies m
    ensures m.Valid() && Shaped(m.Value()) && m.Value().domain == n && AllFit(R, acts[..i - 1], n)
    ensures UndoCols(R, m.Value(), acts[..i - 1]) == UndoCols(R, old(m.Value()), acts[..i])
  {
    UndoColsPrefix(R, m.Value(), acts, i);
    UndoColAction(R, m, acts[i - 1]);
  }

  /** Round r once the search has found a nonzero candidate at (cx, cy):
      swap it into place, clear its column, then its row. */
  method Round<T(!new)>(R: Ring<T>, V: Valuation<T>, ghost a: Mat<T>, s: FlatMatrix<T>, u: FlatMatrix<T>, v: FlatMatrix<T>,
                        r: nat, cx: nat, cy: nat, uacts: seq<Action<T>>, vacts: seq<Action<T>>)
    returns (uacts': seq<Action<T>>, vacts': seq<Action<T>>)
    requires IsValuationRing(R, V) && s != u && s != v && u != v && s.Valid() && u.Valid() && v.Valid()
    requires Tracks(R, a, s.Value(), u.Value(), v.Value(), uacts, vacts) && SmithUpTo(R, V, s.Value(), r)
    requires r <= cx < s.domain && r <= cy < s.codomain && !R.isZero(At(s.Value(), cx, cy))
    requires forall x, y :: r <= x < s.domain && r <= y < s.codomain ==> Dominates(R, V, At(s.Value(), cx, cy), At(s.Value(), x, y))
    modifies s, u, v
    ensures s.Valid() && u.Valid() && v.Valid() && s.domain == old(s.domain) && s.codomain == old(s.codomain)
    ensures Tracks(R, a, s.Value(), u.Value(), v.Value(), uacts', vacts') && SmithUpTo(R, V, s.Value(), r + 1)
  {
    var pivot := s.Get(cx, cy);
    uacts', vacts' := PlaceCandidate(R, V, a, s, u, v, r, cx, cy, uacts, vacts);
    uacts' := ReduceRows(R, V, a, s, u, v, r, pivot, uacts', vacts');
    vacts' := ReduceCols(R, V, a, s, u, v, r, pivot, uacts', vacts');
  }

  /** A zero candidate ends the rounds: S is then in Smith form of rank r. */
  lemma StopAtZero<T(!new)>(R: Ring<T>, V: Valuation<T>, m: Mat<T>, r: nat, cx: nat, cy: nat)
    requires IsValuationRing(R, V) && Elems(R, m) && SmithUpTo(R, V, m, r)
    requires r <= cx < m.domain && r <= cy < m.codomain && R.isZero(At(m, cx, cy))
    requires forall x, y :: r <= x < m.domain && r <= y < m.codomain ==> Dominates(R, V, At(m, cx, cy), At(m, x, y))
    ensures SmithForm(R, V, m, r)
  {
    assert R.elem(m.rows[cy][cx]);
    ZeroCandidate(R, V, m, r, At(m, cx, cy));
    DiagonalDone(R, V, m, r);
  }

  /** The body of the rounds at round r: search for a candidate; stop if
      it is zero (S is then in Smith form of rank r), else do the round. */
  method Step<T(!new)>(R: Ring<T>, V: Valuation<T>, ghost a: Mat<T>, s: FlatMatrix<T>, u: FlatMatrix<T>, v: FlatMatrix<T>,
                       r: nat, uacts: seq<Action<T>>, vacts: seq<Action<T>>)
    returns (uacts': seq<Action<T>>, vacts': seq<Action<T>>, stop: bool)
    requires IsValuationRing(R, V) && s != u && s != v && u != v && s.Valid() && u.Valid() && v.Valid()
    requires Tracks(R, a, s.Value(), u.Value(), v.Value(), uacts, vacts) && SmithUpTo(R, V, s.Value(), r)
    requires r < s.domain && r < s.codomain
    modifies s, u, v
    ensures s.Valid() && u.Valid() && v.Valid() && s.domain == old(s.domain) && s.codomain == old(s.codomain)
    ensures Tracks(R, a, s.Value(), u.Value(), v.Value(), uacts', vacts')
    ensures stop ==> SmithForm(R, V, s.Value(), r)
    ensures !stop ==> SmithUpTo(R, V, s.Value(), r + 1)
  {
    var cx, cy, cval := FindCandidate(R, V, s, r);
    if R.isZero(cval) {
      StopAtZero(R, V, s.Value(), r, cx, cy);
      return uacts, vacts, true;
    }
    uacts', vacts' := Round(R, V, a, s, u, v, r, cx, cy, uacts, vacts);
    stop := false;
  }

  /** The rounds of `full_snf`, r = 0, 1, ... up to the smaller dimension:
      search, stop at a zero candidate, swap it into place, clear its column
      and then its row. */
  method Rounds<T(!new)>(R: Ring<T>, V: Valuation<T>, ghost a: Mat<T>, s: FlatMatrix<T>, u: FlatMatrix<T>, v: FlatMatrix<T>)
    returns (uacts: seq<Action<T>>, vacts: seq<Action<T>>, ghost rank: nat)
    requires IsValuationRing(R, V) && s != u && s != v && u != v && s.Valid() && u.Valid() && v.Valid()
    requires Tracks(R, a, s.Value(), u.Value(), v.Value(), [], [])
    modifies s, u, v
    ensures s.Valid() && u.Valid() && v.Valid()
    ensures Tracks(R, a, s.Value(), u.Value(), v.Value(), uacts, vacts) && SmithForm(R, V, s.Value(), rank)
  {
    uacts, vacts := [], [];
    var m, n := s.codomain, s.domain;
    var minR := if m < n then m else n;
    rank := minR;
    var r := 0;
    while r < minR
      invariant r <= minR && s.Valid() && u.Valid() && v.Valid() && s.codomain == m && s.domain == n
      invariant Tracks(R, a, s.Value(), u.Value(), v.Value(), uacts, vacts) && SmithUpTo(R, V, s.Value(), r)
    {
      var stop;
      uacts, vacts, stop := Step(R, V, a, s, u, v, r, uacts, vacts);
      if stop {
        rank := r;
        break;
      }
      r := r + 1;
    }
    if rank == minR {
      DiagonalDone(R, V, s.Value(), minR);
    }
  }

  /** `full_snf`: U, S, V, U⁻¹ and V⁻¹ with U·A·V == S, U and V invertible
      with the inverses returned, and S in Smith normal form. */
  method FullSnf<T(!new)>(R: Ring<T>, V: Valuation<T>, a: FlatMatrix<T>)
    returns (u: FlatMatrix<T>, s: FlatMatrix<T>, v: FlatMatrix<T>, uInv: FlatMatrix<T>, vInv: FlatMatrix<T>, ghost rank: nat)
    requires IsValuationRing(R, V) && a.Valid() && Elems(R, a.Value())
    ensures u.Valid() && s.Valid() && v.Valid() && uInv.Valid() && vInv.Valid()
    ensures var (c, d) := (a.codomain, a.domain);
            && u.Value().domain == c && u.Value().codomain == c && uInv.Value().domain == c && uInv.Value().codomain == c
            && v.Value().domain == d && v.Value().codomain == d && vInv.Value().domain == d && vInv.Value().codomain == d
            && s.Value().domain == d && s.Value().codomain == c
    ensures s.Value() == Compose(R, Compose(R, u.Value(), a.Value()), v.Value())
    ensures Compose(R, u.Value(), uInv.Value()) == IdentityMat(R, a.codomain)
    ensures Compose(R, uInv.Value(), u.Value()) == IdentityMat(R, a.codomain)
    ensures Compose(R, v.Value(), vInv.Value()) == IdentityMat(R, a.domain)
    ensures Compose(R, vInv.Value(), v.Value()) == IdentityMat(R, a.domain)
    ensures SmithForm(R, V, s.Value(), rank)
  {
    ghost var A := a.Value();
    assert A.domain == a.domain && A.codomain == a.codomain;
    s := a.Clone();
    u := new FlatMatrix.Identity(R, a.codomain);
    v := new FlatMatrix.Identity(R, a.domain);
    TracksStart(R, A);
    var uacts, vacts;
    uacts, vacts, rank := Rounds(R, V, A, s, u, v);
    uInv := ReplayRows(R, a.codomain, uacts);
    vInv := ReplayCols(R, a.domain, vacts);
    RowLogInverse(R, a.codomain, uacts);
    ColLogInverse(R, a.domain, vacts);
  }
}
