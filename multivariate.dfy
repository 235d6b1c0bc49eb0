/** Sparse polynomials in N variables over a field (src/polynomial/multivariate.rs):
    a list of (monomial, coefficient) terms, kept sorted by monomial with equal
    monomials merged. A polynomial denotes the map from each monomial to the
    sum of the coefficients of its terms (`Coeff`); the operations are stated
    against that map. */
module Multivariate {
  import opened Wrappers
  import opened Rings

  /** A `u16` exponent. */
  type Exponent = x: int | 0 <= x < 0x1_0000

  /** `Monomial<N>`: one exponent per variable. */
  type Monomial = seq<Exponent>

  /** One term of a polynomial. */
  type Term<T> = (Monomial, T)

  // ---------------------------------------------------------------------
  // The order on monomials

  /** `partial_cmp` on the exponent arrays: lexicographic. */
  predicate Less(a: Monomial, b: Monomial)
    decreases |a|
  {
    if a == [] then b != []
    else if b == [] then false
    else a[0] < b[0] || (a[0] == b[0] && Less(a[1..], b[1..]))
  }

  lemma {:induction false} LessIrreflexive(a: Monomial)
    ensures !Less(a, a)
    decreases |a|
  {
    if a != [] {
      LessIrreflexive(a[1..]);
    }
  }

  lemma {:induction false} LessTransitive(a: Monomial, b: Monomial, c: Monomial)
    requires Less(a, b) && Less(b, c)
    ensures Less(a, c)
    decreases |a|
  {
    if a != [] && b != [] && c != [] && a[0] == b[0] == c[0] {
      LessTransitive(a[1..], b[1..], c[1..]);
    }
  }

  /** The order is total: two different monomials are comparable. */
  lemma {:induction false} LessTotal(a: Monomial, b: Monomial)
    ensures a == b || Less(a, b) || Less(b, a)
    decreases |a|
  {
    if a != [] && b != [] && a[0] == b[0] {
      LessTotal(a[1..], b[1..]);
      if a[1..] == b[1..] {
        assert a == [a[0]] + a[1..] && b == [b[0]] + b[1..];
      }
    }
  }

  lemma LessAsymmetric(a: Monomial, b: Monomial)
    requires Less(a, b)
    ensures !Less(b, a) && a != b
  {
    LessIrreflexive(a);
    if Less(b, a) {
      LessTransitive(a, b, a);
    }
  }

  // ---------------------------------------------------------------------
  // What a list of terms denotes

  /** Every coefficient is an element of the field. */
  ghost predicate Elems<T>(R: Ring<T>, p: seq<Term<T>>) {
    forall t :: t in p ==> R.elem(t.1)
  }

  /** The coefficient of m: the sum of the coefficients of the terms whose
      monomial is m. */
  function Coeff<T>(R: Ring<T>, p: seq<Term<T>>, m: Monomial): T
  {
    if p == [] then R.zero
    else
      var c := Coeff(R, p[..|p| - 1], m);
      if p[|p| - 1].0 == m then R.add(c, p[|p| - 1].1) else c
  }

  lemma CoeffSnoc<T>(R: Ring<T>, p: seq<Term<T>>, t: Term<T>, m: Monomial)
    ensures Coeff(R, p + [t], m)
         == if t.0 == m then R.add(Coeff(R, p, m), t.1) else Coeff(R, p, m)
  {
    assert (p + [t])[..|p|] == p;
  }

  lemma {:induction false} CoeffElem<T(!new)>(R: Ring<T>, p: seq<Term<T>>, m: Monomial)
    requires IsCRing(R) && Elems(R, p)
    ensures R.elem(Coeff(R, p, m))
  {
    if p != [] {
      assert Elems(R, p[..|p| - 1]) by {
        forall t | t in p[..|p| - 1] ensures R.elem(t.1) {
          assert t in p;
        }
      }
      CoeffElem(R, p[..|p| - 1], m);
      assert p[|p| - 1] in p;
    }
  }

  /** A monomial with no term has coefficient zero. */
  lemma {:induction false} CoeffAbsent<T>(R: Ring<T>, p: seq<Term<T>>, m: Monomial)
    requires forall t :: t in p ==> t.0 != m
    ensures Coeff(R, p, m) == R.zero
  {
    if p != [] {
      assert p[|p| - 1] in p;
      CoeffAbsent(R, p[..|p| - 1], m);
    }
  }

  /** Concatenating two lists adds their coefficients. */
  lemma {:induction false} CoeffAppend<T(!new)>(R: Ring<T>, p: seq<Term<T>>, q: seq<Term<T>>, m: Monomial)
    requires IsCRing(R) && Elems(R, p) && Elems(R, q)
    ensures Coeff(R, p + q, m) == R.add(Coeff(R, p, m), Coeff(R, q, m))
    decreases |q|
  {
    CoeffElem(R, p, m);
    if q == [] {
      assert p + q == p;
      Laws(R, Coeff(R, p, m), R.zero, R.zero);
    } else {
      var q', t := q[..|q| - 1], q[|q| - 1];
      assert q == q' + [t] && p + q == (p + q') + [t];
      assert Elems(R, q') by {
        forall u | u in q' ensures R.elem(u.1) {
          assert u in q;
        }
      }
      CoeffAppend(R, p, q', m);
      CoeffSnoc(R, p + q', t, m);
      CoeffSnoc(R, q', t, m);
      if t.0 == m {
        CoeffElem(R, q', m);
        assert t in q;
        Laws(R, Coeff(R, p, m), Coeff(R, q', m), t.1);
      }
    }
  }

  /** Swapping the last two terms keeps every coefficient. */
  lemma CoeffSwap<T(!new)>(R: Ring<T>, p: seq<Term<T>>, x: Term<T>, y: Term<T>, m: Monomial)
    requires IsCRing(R) && Elems(R, p) && R.elem(x.1) && R.elem(y.1)
    ensures Coeff(R, p + [x] + [y], m) == Coeff(R, p + [y] + [x], m)
  {
    CoeffSnoc(R, p + [x], y, m);
    CoeffSnoc(R, p + [y], x, m);
    CoeffSnoc(R, p, x, m);
    CoeffSnoc(R, p, y, m);
    if x.0 == m && y.0 == m {
      CoeffElem(R, p, m);
      Laws(R, Coeff(R, p, m), x.1, y.1);
      Laws(R, Coeff(R, p, m), y.1, x.1);
      Laws(R, x.1, y.1, y.1);
    }
  }

  // ---------------------------------------------------------------------
  // Sorting by monomial (`sort_by` on the monomials)

  /** Sorted by monomial, ties allowed. */
  predicate Sorted<T>(s: seq<Term<T>>) {
    forall i, j :: 0 <= i < j < |s| ==> !Less(s[j].0, s[i].0)
  }

  /** Monomials strictly increasing: sorted with no monomial repeated. */
  predicate Strict<T>(s: seq<Term<T>>) {
    forall i, j :: 0 <= i < j < |s| ==> Less(s[i].0, s[j].0)
  }

  /** Inserts t after every term whose monomial is not above its own, so
      that equal monomials keep their order. */
  function Insert<T>(s: seq<Term<T>>, t: Term<T>): (r: seq<Term<T>>)
    ensures multiset(r) == multiset(s) + multiset{t}
  {
    if s == [] || !Less(t.0, s[|s| - 1].0) then s + [t]
    else
      assert s == s[..|s| - 1] + [s[|s| - 1]];
      Insert(s[..|s| - 1], t) + [s[|s| - 1]]
  }

  lemma {:induction false} InsertSorted<T>(s: seq<Term<T>>, t: Term<T>)
    requires Sorted(s)
    ensures Sorted(Insert(s, t))
  {
    if s == [] || !Less(t.0, s[|s| - 1].0) {
      forall i | 0 <= i < |s| ensures !Less(t.0, s[i].0) {
        if Less(t.0, s[i].0) {
          LessTotal(s[i].0, s[|s| - 1].0);
          if Less(s[i].0, s[|s| - 1].0) {
            LessTransitive(t.0, s[i].0, s[|s| - 1].0);
          }
        }
      }
    } else {
      var init, last := s[..|s| - 1], s[|s| - 1];
      InsertSorted(init, t);
      var w := Insert(init, t);
      forall u | u in w ensures !Less(last.0, u.0) {
        assert u in multiset(w);
        if u == t {
          LessAsymmetric(t.0, last.0);
        } else {
          assert u in init;
        }
      }
      forall i | 0 <= i < |w| ensures !Less(last.0, w[i].0) {
        assert w[i] in w;
      }
    }
  }

  /** `sort_by` on the monomials, as a stable insertion sort. */
  function Sort<T>(p: seq<Term<T>>): (r: seq<Term<T>>)
    ensures multiset(r) == multiset(p)
    ensures Sorted(r)
  {
    if p == [] then []
    else
      assert p == p[..|p| - 1] + [p[|p| - 1]];
      var s := Sort(p[..|p| - 1]);
      InsertSorted(s, p[|p| - 1]);
      Insert(s, p[|p| - 1])
  }

  lemma {:induction false} InsertCoeff<T(!new)>(R: Ring<T>, s: seq<Term<T>>, t: Term<T>, m: Monomial)
    requires IsCRing(R) && Elems(R, s) && R.elem(t.1)
    ensures Coeff(R, Insert(s, t), m) == Coeff(R, s + [t], m)
  {
    if !(s == [] || !Less(t.0, s[|s| - 1].0)) {
      var init, last := s[..|s| - 1], s[|s| - 1];
      assert s == init + [last];
      assert Elems(R, init) by {
        forall u | u in init ensures R.elem(u.1) {
          assert u in s;
        }
      }
      assert last in s;
      InsertCoeff(R, init, t, m);
      CoeffSnoc(R, Insert(init, t), last, m);
      CoeffSnoc(R, init + [t], last, m);
      CoeffSwap(R, init, t, last, m);
    }
  }

  lemma ElemsSub<T>(R: Ring<T>, p: seq<Term<T>>, q: seq<Term<T>>)
    requires Elems(R, p) && multiset(q) <= multiset(p)
    ensures Elems(R, q)
  {
    forall t | t in q ensures R.elem(t.1) {
      assert t in multiset(q);
    }
  }

  /** Sorting keeps every coefficient. */
  lemma {:induction false} SortCoeff<T(!new)>(R: Ring<T>, p: seq<Term<T>>, m: Monomial)
    requires IsCRing(R) && Elems(R, p)
    ensures Coeff(R, Sort(p), m) == Coeff(R, p, m)
  {
    if p != [] {
      var init, last := p[..|p| - 1], p[|p| - 1];
      assert p == init + [last];
      assert last in p;
      ElemsSub(R, p, init);
      SortCoeff(R, init, m);
      ElemsSub(R, init, Sort(init));
      InsertCoeff(R, Sort(init), last, m);
      CoeffSnoc(R, Sort(init), last, m);
      CoeffSnoc(R, init, last, m);
    }
  }

  // ---------------------------------------------------------------------
  // Normal form and `minimize`

  /** The normal form `minimize` is meant to produce: monomials strictly
      increasing and no zero coefficient. */
  ghost predicate Normal<T>(R: Ring<T>, p: seq<Term<T>>) {
    Strict(p) && Elems(R, p) && forall t :: t in p ==> t.1 != R.zero
  }

  /** In a list with no repeated monomial, a term's coefficient is the
      coefficient of its monomial. */
  lemma {:induction false} CoeffStrict<T(!new)>(R: Ring<T>, p: seq<Term<T>>, k: nat)
    requires IsCRing(R) && Elems(R, p) && Strict(p) && k < |p|
    ensures Coeff(R, p, p[k].0) == p[k].1
  {
    var init := p[..|p| - 1];
    assert p == init + [p[|p| - 1]];
    if k == |p| - 1 {
      forall t | t in init ensures t.0 != p[k].0 {
        var i :| 0 <= i < |init| && init[i] == t;
        LessAsymmetric(p[i].0, p[k].0);
      }
      CoeffAbsent(R, init, p[k].0);
      assert p[k] in p;
      AddZeroLeft(R, p[k].1);
    } else {
      LessAsymmetric(p[k].0, p[|p| - 1].0);
      assert init[k] == p[k];
      ElemsSub(R, p, init);
      CoeffStrict(R, init, k);
    }
  }

  lemma StrictPush<T>(a: seq<Term<T>>, t: Term<T>)
    requires Strict(a) && (a == [] || Less(a[|a| - 1].0, t.0))
    ensures Strict(a + [t])
  {
    forall i | 0 <= i < |a| ensures Less(a[i].0, t.0) {
      if i < |a| - 1 {
        LessTransitive(a[i].0, a[|a| - 1].0, t.0);
      }
    }
  }

  /** Drops the terms whose coefficient is zero. */
  function WithoutZeros<T(!new)>(R: Ring<T>, p: seq<Term<T>>): (r: seq<Term<T>>)
    ensures forall t :: t in r <==> t in p && !R.eq(t.1, R.zero)
    ensures Strict(p) ==> Strict(r)
  {
    if p == [] then []
    else
      var init, t := p[..|p| - 1], p[|p| - 1];
      assert p == init + [t];
      var w := WithoutZeros(R, init);
      if R.eq(t.1, R.zero) then w
      else
        assert Strict(p) ==> forall u :: u in w ==> Less(u.0, t.0);
        assert Strict(p) ==> Strict(w + [t]) by {
          if Strict(p) && w != [] {
            assert w[|w| - 1] in w;
            StrictPush(w, t);
          }
        }
        w + [t]
  }

  /** Dropping zero coefficients keeps every coefficient. */
  lemma {:induction false} WithoutZerosCoeff<T(!new)>(R: Ring<T>, p: seq<Term<T>>, m: Monomial)
    requires IsCRing(R) && Elems(R, p)
    ensures Coeff(R, WithoutZeros(R, p), m) == Coeff(R, p, m)
  {
    if p != [] {
      var init, t := p[..|p| - 1], p[|p| - 1];
      assert p == init + [t];
      assert t in p;
      ElemsSub(R, p, init);
      WithoutZerosCoeff(R, init, m);
      if R.eq(t.1, R.zero) {
        CoeffElem(R, init, m);
        Laws(R, Coeff(R, init, m), R.zero, R.zero);
      } else {
        CoeffSnoc(R, WithoutZeros(R, init), t, m);
      }
    }
  }

  /** Merging a term into the last one, of the same monomial, keeps every
      coefficient. */
  lemma MergeCoeff<T(!new)>(R: Ring<T>, a: seq<Term<T>>, last: Term<T>, t: Term<T>, m: Monomial)
    requires IsCRing(R) && Elems(R, a) && R.elem(last.1) && R.elem(t.1) && last.0 == t.0
    ensures Coeff(R, a + [(t.0, R.add(last.1, t.1))], m) == Coeff(R, a + [last] + [t], m)
  {
    CoeffSnoc(R, a, (t.0, R.add(last.1, t.1)), m);
    CoeffSnoc(R, a + [last], t, m);
    CoeffSnoc(R, a, last, m);
    if t.0 == m {
      CoeffElem(R, a, m);
      Laws(R, Coeff(R, a, m), last.1, t.1);
    }
  }

  /** What the merging loop of `minimize` keeps after the first i sorted
      terms: a strictly increasing list whose last monomial is that of the
      i-th term and whose coefficients are those of the first i terms. */
  ghost predicate Merging<T>(R: Ring<T>, s: seq<Term<T>>, i: nat, merged: seq<Term<T>>) {
    && i <= |s|
    && Strict(merged) && Elems(R, merged)
    && (i == 0 ==> merged == [])
    && (i > 0 ==> merged != [] && merged[|merged| - 1].0 == s[i - 1].0)
    && forall m :: Coeff(R, merged, m) == Coeff(R, s[..i], m)
  }

  /** The next sorted term repeats the last monomial: add it in. */
  lemma MergeSame<T(!new)>(R: Ring<T>, s: seq<Term<T>>, i: nat, merged: seq<Term<T>>)
    requires IsCRing(R) && Elems(R, s) && Merging(R, s, i, merged) && i < |s|
    requires merged != [] && merged[|merged| - 1].0 == s[i].0
    ensures Merging(R, s, i + 1, merged[..|merged| - 1]
                + [(s[i].0, R.add(merged[|merged| - 1].1, s[i].1))])
  {
    var t, last, rest := s[i], merged[|merged| - 1], merged[..|merged| - 1];
    assert t in s;
    assert s[..i + 1] == s[..i] + [t];
    assert merged == rest + [last];
    assert last in merged;
    ElemsSub(R, merged, rest);
    var next := rest + [(t.0, R.add(last.1, t.1))];
    forall m ensures Coeff(R, next, m) == Coeff(R, s[..i + 1], m) {
      MergeCoeff(R, rest, last, t, m);
      CoeffSnoc(R, merged, t, m);
      CoeffSnoc(R, s[..i], t, m);
    }
    assert Strict(next) by {
      forall j, k | 0 <= j < k < |next| ensures Less(next[j].0, next[k].0) {
        assert next[j].0 == merged[j].0 && next[k].0 == merged[k].0;
      }
    }
    forall u | u in next ensures R.elem(u.1) {
      if u !in rest {
        Laws(R, last.1, t.1, t.1);
      }
    }
  }

  /** The next sorted term has a new monomial: push it. */
  lemma MergeNew<T(!new)>(R: Ring<T>, s: seq<Term<T>>, i: nat, merged: seq<Term<T>>)
    requires IsCRing(R) && Elems(R, s) && Sorted(s) && Merging(R, s, i, merged) && i < |s|
    requires !(merged != [] && merged[|merged| - 1].0 == s[i].0)
    ensures Merging(R, s, i + 1, merged + [s[i]])
  {
    var t := s[i];
    assert t in s;
    assert s[..i + 1] == s[..i] + [t];
    if merged != [] {
      LessTotal(s[i - 1].0, t.0);
    }
    StrictPush(merged, t);
    forall m ensures Coeff(R, merged + [t], m) == Coeff(R, s[..i + 1], m) {
      CoeffSnoc(R, merged, t, m);
      CoeffSnoc(R, s[..i], t, m);
    }
  }

  /** `minimize` with the previous term kept when the monomial changes, and
      terms whose coefficients cancel dropped: sort by monomial, merge runs
      of equal monomials by adding their coefficients, drop zeros. Dropping
      zeros goes beyond the source, which keeps a merged zero coefficient
      (`AsWrittenKeepsZero`); it is what `is_zero` (an empty term list) and
      `is_minimal` (no zero coefficient after the first term) expect. */
  method Minimized<T(!new)>(R: Ring<T>, p: seq<Term<T>>) returns (r: seq<Term<T>>)
    requires IsCRing(R) && Elems(R, p)
    ensures Normal(R, r)
    ensures forall m :: Coeff(R, r, m) == Coeff(R, p, m)
  {
    var s := Sort(p);
    ElemsSub(R, p, s);
    var merged: seq<Term<T>> := [];
    var i := 0;
    while i < |s|
      invariant Merging(R, s, i, merged)
    {
      if merged != [] && merged[|merged| - 1].0 == s[i].0 {
        MergeSame(R, s, i, merged);
        var last := merged[|merged| - 1];
        merged := merged[..|merged| - 1] + [(s[i].0, R.add(last.1, s[i].1))];
      } else {
        MergeNew(R, s, i, merged);
        merged := merged + [s[i]];
      }
      i := i + 1;
    }
    assert s[..i] == s;
    r := WithoutZeros(R, merged);
    forall m ensures Coeff(R, r, m) == Coeff(R, p, m) {
      WithoutZerosCoeff(R, merged, m);
      SortCoeff(R, p, m);
    }
  }

  /** The outcome of `minimize` as written: only the largest monomial of the
      input survives, with its merged coefficient. */
  ghost predicate KeepsOnlyLargest<T>(R: Ring<T>, p: seq<Term<T>>, r: seq<Term<T>>) {
    if p == [] then r == []
    else
      && |r| == 1
      && (exists t :: t in p && t.0 == r[0].0)
      && (forall t :: t in p ==> !Less(r[0].0, t.0))
      && r[0].1 == Coeff(R, p, r[0].0)
  }

  /** What the loop of `minimize` as written keeps after the first i sorted
      terms: the monomial of the i-th term with the sum of its run. */
  ghost predicate KeptLast<T>(R: Ring<T>, s: seq<Term<T>>, i: nat, r: seq<Term<T>>) {
    && i <= |s|
    && (i == 0 ==> r == [])
    && (i > 0 ==> r == [(s[i - 1].0, Coeff(R, s[..i], s[i - 1].0))])
  }

  /** A new monomial in a sorted list has no term before it. */
  lemma FreshMonomial<T(!new)>(R: Ring<T>, s: seq<Term<T>>, i: nat)
    requires IsCRing(R) && Elems(R, s) && Sorted(s) && i < |s|
    requires i > 0 ==> s[i - 1].0 != s[i].0
    ensures Coeff(R, s[..i + 1], s[i].0) == s[i].1
  {
    var t := s[i];
    assert t in s;
    assert s[..i + 1] == s[..i] + [t];
    CoeffSnoc(R, s[..i], t, t.0);
    if i > 0 {
      LessTotal(s[i - 1].0, t.0);
    }
    forall u | u in s[..i] ensures u.0 != t.0 {
      var k :| 0 <= k < i && s[k] == u;
      if k < i - 1 {
        LessTotal(s[k].0, s[i - 1].0);
        if Less(s[k].0, s[i - 1].0) {
          LessTransitive(s[k].0, s[i - 1].0, t.0);
        }
      }
      LessAsymmetric(u.0, t.0);
    }
    CoeffAbsent(R, s[..i], t.0);
    AddZeroLeft(R, t.1);
  }

  lemma KeptSame<T(!new)>(R: Ring<T>, s: seq<Term<T>>, i: nat, r: seq<Term<T>>)
    requires KeptLast(R, s, i, r) && i < |s| && r != [] && r[0].0 == s[i].0
    ensures KeptLast(R, s, i + 1, [(s[i].0, R.add(r[0].1, s[i].1))])
  {
    assert s[..i + 1] == s[..i] + [s[i]];
    CoeffSnoc(R, s[..i], s[i], s[i].0);
  }

  lemma KeptNew<T(!new)>(R: Ring<T>, s: seq<Term<T>>, i: nat, r: seq<Term<T>>)
    requires IsCRing(R) && Elems(R, s) && Sorted(s) && i < |s| && r == []
    requires i > 0 ==> s[i - 1].0 != s[i].0
    ensures KeptLast(R, s, i + 1, r + [s[i]])
  {
    FreshMonomial(R, s, i);
  }

  /** The largest monomial of a sorted list is its last one. */
  lemma LastIsLargest<T(!new)>(R: Ring<T>, p: seq<Term<T>>, s: seq<Term<T>>, r: seq<Term<T>>)
    requires IsCRing(R) && Elems(R, p) && s == Sort(p) && KeptLast(R, s, |s|, r)
    ensures KeepsOnlyLargest(R, p, r)
  {
    if s == [] {
      return;
    }
    assert s[..|s|] == s;
    var top := s[|s| - 1];
    assert top in multiset(p);
    forall u | u in p ensures !Less(top.0, u.0) {
      assert u in multiset(s);
      var k :| 0 <= k < |s| && s[k] == u;
      if k == |s| - 1 {
        LessIrreflexive(u.0);
      }
    }
    SortCoeff(R, p, top.0);
  }

  /** `minimize` exactly as written: each step pops the last merged term and
      pushes it back only when the monomial repeats, so a term is lost
      whenever the monomial changes. */
  method MinimizedAsWritten<T(!new)>(R: Ring<T>, p: seq<Term<T>>) returns (r: seq<Term<T>>)
    requires IsCRing(R) && Elems(R, p)
    ensures KeepsOnlyLargest(R, p, r)
  {
    var s := Sort(p);
    ElemsSub(R, p, s);
    r := [];
    var i := 0;
    while i < |s|
      invariant KeptLast(R, s, i, r)
    {
      var popped: Option<Term<T>> := None;
      if r != [] {
        popped := Some(r[|r| - 1]);
        r := r[..|r| - 1];
      }
      if popped.Some? && popped.value.0 == s[i].0 {
        KeptSame(R, s, i, [popped.value]);
        r := r + [(s[i].0, R.add(popped.value.1, s[i].1))];
      } else {
        KeptNew(R, s, i, r);
        r := r + [s[i]];
      }
      i := i + 1;
    }
    LastIsLargest(R, p, s, r);
  }

  /** The two-term polynomial x^0 + x^1 in one variable. */
  function TwoTerms<T>(R: Ring<T>): (p: seq<Term<T>>)
    ensures |p| == 2 && p[0].0 != p[1].0
  {
    [([0], R.one), ([1], R.one)]
  }

  lemma TwoTermsCoeff<T>(R: Ring<T>)
    ensures Coeff(R, TwoTerms(R), [0]) == R.add(R.zero, R.one)
  {
    var p: seq<Term<T>> := TwoTerms(R);
    var e: seq<Term<T>> := [];
    assert p[..1] == e + [p[0]];
    CoeffSnoc(R, e, p[0], [0]);
    assert p[1].0[0] == 1;
  }

  /** As written, minimizing x^0 + x^1 loses the term x^0. */
  lemma AsWrittenLosesTerm<T(!new)>(R: Ring<T>, r: seq<Term<T>>)
    requires IsCRing(R) && R.one != R.zero && KeepsOnlyLargest(R, TwoTerms(R), r)
    ensures Coeff(R, TwoTerms(R), [0]) == R.one
    ensures Coeff(R, r, [0]) == R.zero
  {
    var p := TwoTerms(R);
    TwoTermsCoeff(R);
    AddZeroLeft(R, R.one);
    assert Less([0], [1]);
    assert p[1] in p;
    var t :| t in p && t.0 == r[0].0;
    assert !Less(r[0].0, p[1].0);
    assert r[0].0 == [1];
    var e: seq<Term<T>> := [];
    assert r == e + [r[0]];
    CoeffSnoc(R, e, r[0], [0]);
  }

  /** With the previous term kept, minimizing x^0 + x^1 keeps x^0. */
  lemma CorrectedKeepsTerm<T(!new)>(R: Ring<T>, r: seq<Term<T>>)
    requires IsCRing(R)
    requires forall m :: Coeff(R, r, m) == Coeff(R, TwoTerms(R), m)
    ensures Coeff(R, r, [0]) == R.one
  {
    TwoTermsCoeff(R);
    AddZeroLeft(R, R.one);
  }

  /** x − x as `sub` builds it before minimizing: the term x and the term x
      with the negated coefficient. */
  function Cancelling<T>(R: Ring<T>): (p: seq<Term<T>>)
    ensures |p| == 2 && p[0].0 == p[1].0
  {
    [([1], R.one), ([1], R.neg(R.one))]
  }

  lemma CancellingCoeff<T(!new)>(R: Ring<T>, m: Monomial)
    requires IsCRing(R)
    ensures Coeff(R, Cancelling(R), m) == R.zero
  {
    var p := Cancelling(R);
    var e: seq<Term<T>> := [];
    assert p[..1] == e + [p[0]];
    assert p == p[..1] + [p[1]];
    CoeffSnoc(R, e, p[0], m);
    CoeffSnoc(R, p[..1], p[1], m);
    Laws(R, R.one, R.one, R.one);
    AddZeroLeft(R, R.one);
  }

  /** As written, minimizing x − x merges the two terms and keeps the zero
      sum: one term (x, 0), so `is_zero` answers false. */
  lemma AsWrittenKeepsZero<T(!new)>(R: Ring<T>, r: seq<Term<T>>)
    requires IsCRing(R) && KeepsOnlyLargest(R, Cancelling(R), r)
    ensures |r| == 1 && r[0].0 == [1] && r[0].1 == R.zero && !IsZero(r)
  {
    CancellingCoeff(R, r[0].0);
  }

  /** With zeros dropped, x − x minimizes to the empty list, the zero
      polynomial. */
  lemma CorrectedCancels<T(!new)>(R: Ring<T>, r: seq<Term<T>>)
    requires IsCRing(R) && Normal(R, r)
    requires forall m :: Coeff(R, r, m) == Coeff(R, Cancelling(R), m)
    ensures IsZero(r)
  {
    if r != [] {
      CoeffStrict(R, r, 0);
      CancellingCoeff(R, r[0].0);
    }
  }

  // ---------------------------------------------------------------------
  // `is_minimal` and the normal form

  /** What `is_minimal` accepts: every monomial strictly above the one before
      it, and no zero coefficient after the first term. */
  predicate Minimal<T>(R: Ring<T>, p: seq<Term<T>>) {
    forall i :: 1 <= i < |p| ==> Less(p[i - 1].0, p[i].0) && !R.eq(p[i].1, R.zero)
  }

  /** `is_minimal`: rejects a pair out of order, a repeated monomial, or a
      zero coefficient after the first term. */
  method IsMinimal<T>(R: Ring<T>, p: seq<Term<T>>) returns (b: bool)
    ensures b == Minimal(R, p)
  {
    var i := 1;
    while i < |p|
      invariant 1 <= i && (p == [] || i <= |p|)
      invariant forall k :: 1 <= k < i && k < |p| ==>
                  Less(p[k - 1].0, p[k].0) && !R.eq(p[k].1, R.zero)
    {
      if Less(p[i].0, p[i - 1].0) {
        LessAsymmetric(p[i].0, p[i - 1].0);
        return false;
      }
      if p[i - 1].0 == p[i].0 {
        LessIrreflexive(p[i].0);
        return false;
      }
      if R.eq(p[i].1, R.zero) {
        return false;
      }
      LessTotal(p[i - 1].0, p[i].0);
      i := i + 1;
    }
    return true;
  }

  /** Increasing neighbours make the whole list strictly increasing. */
  lemma {:induction false} ChainLess<T>(p: seq<Term<T>>, i: nat, j: nat)
    requires forall k :: 1 <= k < |p| ==> Less(p[k - 1].0, p[k].0)
    requires i < j < |p|
    ensures Less(p[i].0, p[j].0)
    decreases j - i
  {
    if i + 1 < j {
      ChainLess(p, i + 1, j);
      LessTransitive(p[i].0, p[i + 1].0, p[j].0);
    }
  }

  /** `is_minimal` accepts every normal form. */
  lemma NormalIsMinimal<T(!new)>(R: Ring<T>, p: seq<Term<T>>)
    requires IsCRing(R) && Normal(R, p)
    ensures Minimal(R, p)
  {
    forall i | 1 <= i < |p| ensures !R.eq(p[i].1, R.zero) {
      assert p[i] in p;
    }
  }

  /** A list `is_minimal` accepts is a normal form, once its first
      coefficient is nonzero too. */
  lemma MinimalIsNormal<T(!new)>(R: Ring<T>, p: seq<Term<T>>)
    requires IsCRing(R) && Elems(R, p) && Minimal(R, p)
    requires p != [] ==> p[0].1 != R.zero
    ensures Normal(R, p)
  {
    forall i, j | 0 <= i < j < |p| ensures Less(p[i].0, p[j].0) {
      ChainLess(p, i, j);
    }
    forall t | t in p ensures t.1 != R.zero {
      var k :| 0 <= k < |p| && p[k] == t;
      if k > 0 {
        assert R.elem(t.1);
      }
    }
  }

  /** A monomial of a strictly increasing list is at most its last one. */
  lemma AtMostLast<T>(p: seq<Term<T>>, t: Term<T>)
    requires Strict(p) && t in p
    ensures t.0 == p[|p| - 1].0 || Less(t.0, p[|p| - 1].0)
  {
  }

  /** A normal form has no term exactly when every coefficient is zero. */
  lemma NormalZero<T(!new)>(R: Ring<T>, p: seq<Term<T>>)
    requires IsCRing(R) && Normal(R, p)
    ensures p == [] <==> forall m :: Coeff(R, p, m) == R.zero
  {
    if p != [] {
      CoeffStrict(R, p, 0);
      assert p[0] in p;
    }
  }

  /** The coefficient of a monomial present in a normal form is nonzero. */
  lemma PresentNonzero<T(!new)>(R: Ring<T>, p: seq<Term<T>>, t: Term<T>)
    requires IsCRing(R) && Normal(R, p) && t in p
    ensures Coeff(R, p, t.0) == t.1 != R.zero
  {
    var k :| 0 <= k < |p| && p[k] == t;
    CoeffStrict(R, p, k);
  }

  /** Two normal forms with the same coefficients are the same list: the
      normal form of a polynomial is unique. */
  lemma {:induction false} NormalUnique<T(!new)>(R: Ring<T>, p: seq<Term<T>>, q: seq<Term<T>>)
    requires IsCRing(R) && Normal(R, p) && Normal(R, q)
    requires forall m :: Coeff(R, p, m) == Coeff(R, q, m)
    ensures p == q
    decreases |p| + |q|
  {
    NormalZero(R, p);
    NormalZero(R, q);
    if p != [] && q != [] {
      var a, b := p[|p| - 1], q[|q| - 1];
      assert a in p && b in q;
      PresentNonzero(R, p, a);
      PresentNonzero(R, q, b);
      assert a.0 == b.0 by {
        MonomialPresent(R, q, a.0);
        MonomialPresent(R, p, b.0);
        var u :| u in q && u.0 == a.0;
        var v :| v in p && v.0 == b.0;
        AtMostLast(q, u);
        AtMostLast(p, v);
        if a.0 != b.0 {
          LessAsymmetric(a.0, b.0);
        }
      }
      var p', q' := p[..|p| - 1], q[..|q| - 1];
      assert p == p' + [a] && q == q' + [b];
      InitNormal(R, p);
      InitNormal(R, q);
      forall m ensures Coeff(R, p', m) == Coeff(R, q', m) {
        CoeffSnoc(R, p', a, m);
        CoeffSnoc(R, q', b, m);
        if m == a.0 {
          LastAbsent(R, p);
          LastAbsent(R, q);
        }
      }
      NormalUnique(R, p', q');
    }
  }

  /** A monomial whose coefficient is nonzero has a term. */
  lemma MonomialPresent<T>(R: Ring<T>, p: seq<Term<T>>, m: Monomial)
    requires Coeff(R, p, m) != R.zero
    ensures exists t :: t in p && t.0 == m
  {
    if forall t :: t in p ==> t.0 != m {
      CoeffAbsent(R, p, m);
    }
  }

  lemma InitNormal<T>(R: Ring<T>, p: seq<Term<T>>)
    requires Normal(R, p) && p != []
    ensures Normal(R, p[..|p| - 1])
  {
    forall t | t in p[..|p| - 1] ensures t in p {
    }
  }

  /** In a normal form, the monomial of the last term has no other term. */
  lemma LastAbsent<T(!new)>(R: Ring<T>, p: seq<Term<T>>)
    requires Normal(R, p) && p != []
    ensures Coeff(R, p[..|p| - 1], p[|p| - 1].0) == R.zero
  {
    forall t | t in p[..|p| - 1] ensures t.0 != p[|p| - 1].0 {
      var k :| 0 <= k < |p| - 1 && p[k] == t;
      LessAsymmetric(t.0, p[|p| - 1].0);
    }
    CoeffAbsent(R, p[..|p| - 1], p[|p| - 1].0);
  }

  // ---------------------------------------------------------------------
  // Arithmetic

  lemma NegAdd<T(!new)>(R: Ring<T>, a: T, b: T)
    requires IsCRing(R) && R.elem(a) && R.elem(b)
    ensures R.neg(R.add(a, b)) == R.add(R.neg(a), R.neg(b))
  {
    var na, nb := R.neg(a), R.neg(b);
    Laws(R, a, b, R.add(na, nb));
    Laws(R, b, na, nb);
    Laws(R, na, b, nb);
    Laws(R, b, nb, na);
    Laws(R, na, R.zero, R.zero);
    Laws(R, a, na, na);
    AddZeroLeft(R, na);
    assert R.add(R.add(a, b), R.add(na, nb)) == R.zero by {
      calc {
        R.add(R.add(a, b), R.add(na, nb));
        R.add(a, R.add(b, R.add(na, nb)));
        R.add(a, R.add(R.add(b, na), nb));
        R.add(a, R.add(R.add(na, b), nb));
        R.add(a, R.add(na, R.add(b, nb)));
        R.add(a, na);
      }
    }
    NegUnique(R, R.add(a, b), R.add(na, nb));
  }

  /** `neg` (and the negation `-` applies to the right side): every
      coefficient negated. */
  function Negated<T>(R: Ring<T>, p: seq<Term<T>>): (r: seq<Term<T>>)
    ensures |r| == |p|
  {
    seq(|p|, i requires 0 <= i < |p| => (p[i].0, R.neg(p[i].1)))
  }

  lemma NegatedElems<T(!new)>(R: Ring<T>, p: seq<Term<T>>)
    requires IsCRing(R) && Elems(R, p)
    ensures Elems(R, Negated(R, p))
  {
    var r := Negated(R, p);
    forall t | t in r ensures R.elem(t.1) {
      var k :| 0 <= k < |r| && r[k] == t;
      assert p[k] in p;
    }
  }

  /** Negating the terms negates every coefficient of the polynomial. */
  lemma {:induction false} NegatedCoeff<T(!new)>(R: Ring<T>, p: seq<Term<T>>, m: Monomial)
    requires IsCRing(R) && Elems(R, p)
    ensures Elems(R, Negated(R, p))
    ensures Coeff(R, Negated(R, p), m) == R.neg(Coeff(R, p, m))
  {
    var r := Negated(R, p);
    NegatedElems(R, p);
    if p == [] {
      Laws(R, R.zero, R.zero, R.zero);
      NegUnique(R, R.zero, R.zero);
    } else {
      var init, t := p[..|p| - 1], p[|p| - 1];
      assert p == init + [t] && t in p;
      ElemsSub(R, p, init);
      assert r == Negated(R, init) + [(t.0, R.neg(t.1))];
      NegatedCoeff(R, init, m);
      CoeffSnoc(R, Negated(R, init), (t.0, R.neg(t.1)), m);
      CoeffSnoc(R, init, t, m);
      if t.0 == m {
        CoeffElem(R, init, m);
        NegAdd(R, Coeff(R, init, m), t.1);
      }
    }
  }

  /** The coefficients of `scalar_mult` before minimizing: each one times
      the scalar. */
  function Scaled<T>(R: Ring<T>, p: seq<Term<T>>, c: T): (r: seq<Term<T>>)
    ensures |r| == |p|
  {
    seq(|p|, i requires 0 <= i < |p| => (p[i].0, R.mul(p[i].1, c)))
  }

  lemma ScaledElems<T(!new)>(R: Ring<T>, p: seq<Term<T>>, c: T)
    requires IsCRing(R) && Elems(R, p) && R.elem(c)
    ensures Elems(R, Scaled(R, p, c))
  {
    var r := Scaled(R, p, c);
    forall t | t in r ensures R.elem(t.1) {
      var k :| 0 <= k < |r| && r[k] == t;
      assert p[k] in p;
    }
  }

  /** Scaling the terms scales every coefficient of the polynomial. */
  lemma {:induction false} ScaledCoeff<T(!new)>(R: Ring<T>, p: seq<Term<T>>, c: T, m: Monomial)
    requires IsCRing(R) && Elems(R, p) && R.elem(c)
    ensures Elems(R, Scaled(R, p, c))
    ensures Coeff(R, Scaled(R, p, c), m) == R.mul(Coeff(R, p, m), c)
  {
    var r := Scaled(R, p, c);
    ScaledElems(R, p, c);
    if p == [] {
      MulZero(R, c);
    } else {
      var init, t := p[..|p| - 1], p[|p| - 1];
      assert p == init + [t] && t in p;
      ElemsSub(R, p, init);
      assert r == Scaled(R, init, c) + [(t.0, R.mul(t.1, c))];
      ScaledCoeff(R, init, c, m);
      CoeffSnoc(R, Scaled(R, init, c), (t.0, R.mul(t.1, c)), m);
      CoeffSnoc(R, init, t, m);
      if t.0 == m {
        var a := Coeff(R, init, m);
        CoeffElem(R, init, m);
        Laws(R, c, a, t.1);
        Laws(R, R.add(a, t.1), c, c);
        Laws(R, a, c, c);
        Laws(R, t.1, c, c);
      }
    }
  }

  lemma ElemsAppend<T>(R: Ring<T>, p: seq<Term<T>>, q: seq<Term<T>>)
    requires Elems(R, p) && Elems(R, q)
    ensures Elems(R, p + q)
  {
  }

  /** `+` (and `+=`): concatenate the terms, then minimize. */
  method Add<T(!new)>(R: Ring<T>, p: seq<Term<T>>, q: seq<Term<T>>) returns (r: seq<Term<T>>)
    requires IsCRing(R) && Elems(R, p) && Elems(R, q)
    ensures Normal(R, r)
    ensures forall m :: Coeff(R, r, m) == R.add(Coeff(R, p, m), Coeff(R, q, m))
  {
    ElemsAppend(R, p, q);
    r := Minimized(R, p + q);
    forall m ensures Coeff(R, r, m) == R.add(Coeff(R, p, m), Coeff(R, q, m)) {
      CoeffAppend(R, p, q, m);
    }
  }

  /** `-` (and `-=`): concatenate the negated right terms, then minimize. */
  method Sub<T(!new)>(R: Ring<T>, p: seq<Term<T>>, q: seq<Term<T>>) returns (r: seq<Term<T>>)
    requires IsCRing(R) && Elems(R, p) && Elems(R, q)
    ensures Normal(R, r)
    ensures forall m :: Coeff(R, r, m) == R.sub(Coeff(R, p, m), Coeff(R, q, m))
  {
    var nq := Negated(R, q);
    NegatedCoeff(R, q, []);
    ElemsAppend(R, p, nq);
    r := Minimized(R, p + nq);
    forall m ensures Coeff(R, r, m) == R.sub(Coeff(R, p, m), Coeff(R, q, m)) {
      NegatedCoeff(R, q, m);
      CoeffAppend(R, p, nq, m);
      CoeffElem(R, p, m);
      CoeffElem(R, q, m);
      Laws(R, Coeff(R, p, m), Coeff(R, q, m), R.zero);
    }
  }

  /** The exponents of a product term: added componentwise in `u16`, which
      wraps around in a release build. */
  function Times(a: Monomial, b: Monomial): (r: Monomial)
    requires |a| == |b|
    ensures |r| == |a|
    ensures forall k :: 0 <= k < |a| && a[k] as int + b[k] < 0x1_0000 ==> r[k] == a[k] as int + b[k]
  {
    seq(|a|, k requires 0 <= k < |a| => (a[k] as int + b[k]) % 0x1_0000)
  }

  /** All monomials have the N exponents of `Monomial<N>`. */
  ghost predicate Shaped<T>(p: seq<Term<T>>, n: nat) {
    forall t :: t in p ==> |t.0| == n
  }

  /** The products of one term with each term of q, in order. */
  function Row<T>(R: Ring<T>, t: Term<T>, q: seq<Term<T>>, n: nat): (r: seq<Term<T>>)
    requires |t.0| == n && Shaped(q, n)
    ensures |r| == |q|
  {
    seq(|q|, j requires 0 <= j < |q| => (Times(t.0, q[j].0), R.mul(t.1, q[j].1)))
  }

  /** The terms `mul` collects before minimizing: every term of p times
      every term of q, p-major. */
  function Products<T>(R: Ring<T>, p: seq<Term<T>>, q: seq<Term<T>>, n: nat): (r: seq<Term<T>>)
    requires Shaped(p, n) && Shaped(q, n)
    ensures |r| == |p| * |q|
  {
    if p == [] then []
    else
      var init := p[..|p| - 1];
      assert p[|p| - 1] in p;
      assert Shaped(init, n) by {
        forall t | t in init ensures |t.0| == n {
          assert t in p;
        }
      }
      assert (|p| - 1) * |q| + |q| == |p| * |q|;
      Products(R, init, q, n) + Row(R, p[|p| - 1], q, n)
  }

  /** The nested loops of `mul` collect exactly `Products`. */
  method ProductTerms<T>(R: Ring<T>, p: seq<Term<T>>, q: seq<Term<T>>, n: nat) returns (r: seq<Term<T>>)
    requires Shaped(p, n) && Shaped(q, n)
    ensures r == Products(R, p, q, n)
  {
    r := [];
    for i := 0 to |p|
      invariant Shaped(p[..i], n)
      invariant r == Products(R, p[..i], q, n)
    {
      assert p[..i + 1][..i] == p[..i];
      assert p[i] in p;
      ghost var done := r;
      for j := 0 to |q|
        invariant r == done + Row(R, p[i], q, n)[..j]
      {
        assert Row(R, p[i], q, n)[..j + 1] == Row(R, p[i], q, n)[..j] + [Row(R, p[i], q, n)[j]];
        r := r + [(Times(p[i].0, q[j].0), R.mul(p[i].1, q[j].1))];
      }
      assert Row(R, p[i], q, n)[..|q|] == Row(R, p[i], q, n);
    }
    assert p[..|p|] == p;
  }

  lemma {:induction false} ProductsElems<T(!new)>(R: Ring<T>, p: seq<Term<T>>, q: seq<Term<T>>, n: nat)
    requires IsCRing(R) && Elems(R, p) && Elems(R, q) && Shaped(p, n) && Shaped(q, n)
    ensures Elems(R, Products(R, p, q, n))
  {
    if p != [] {
      var init, t := p[..|p| - 1], p[|p| - 1];
      assert t in p && p == init + [t];
      ElemsSub(R, p, init);
      assert Shaped(init, n) by {
        forall u | u in init ensures |u.0| == n {
          assert u in p;
        }
      }
      ProductsElems(R, init, q, n);
      var row := Row(R, t, q, n);
      forall u | u in row ensures R.elem(u.1) {
        var j :| 0 <= j < |row| && row[j] == u;
        assert q[j] in q;
      }
    }
  }

  /** `*`: every pair of terms multiplied (coefficients multiplied,
      exponents added), then minimized. */
  method Mul<T(!new)>(R: Ring<T>, p: seq<Term<T>>, q: seq<Term<T>>, n: nat) returns (r: seq<Term<T>>)
    requires IsCRing(R) && Elems(R, p) && Elems(R, q) && Shaped(p, n) && Shaped(q, n)
    ensures Normal(R, r)
    ensures forall m :: Coeff(R, r, m) == Coeff(R, Products(R, p, q, n), m)
  {
    var terms := ProductTerms(R, p, q, n);
    ProductsElems(R, p, q, n);
    r := Minimized(R, terms);
  }

  /** `zero`: no terms. */
  function Zero<T>(): (p: seq<Term<T>>)
    ensures |p| == 0
  {
    []
  }

  /** `is_zero`: no terms. */
  predicate IsZero<T>(p: seq<Term<T>>) {
    p == []
  }

  /** `one`: the single term 1 with all exponents zero. */
  function One<T>(R: Ring<T>, n: nat): (p: seq<Term<T>>)
    ensures Shaped(p, n)
  {
    [(seq(n, _ => 0), R.one)]
  }

  /** `one` is the polynomial 1, and a normal form when 1 != 0. */
  lemma OneCoeff<T(!new)>(R: Ring<T>, n: nat, m: Monomial)
    requires IsCRing(R)
    ensures Coeff(R, One(R, n), m) == if m == seq(n, _ => 0) then R.one else R.zero
    ensures R.one != R.zero ==> Normal(R, One(R, n))
  {
    var e: seq<Term<T>> := [];
    assert One(R, n) == e + [(seq(n, _ => 0), R.one)];
    CoeffSnoc(R, e, (seq(n, _ => 0), R.one), m);
    AddZeroLeft(R, R.one);
  }

  /** Multiplying by `one` leaves the terms as they are. */
  lemma {:induction false} ProductsByOne<T(!new)>(R: Ring<T>, p: seq<Term<T>>, n: nat)
    requires IsCRing(R) && Elems(R, p) && Shaped(p, n)
    ensures Products(R, p, One(R, n), n) == p
  {
    if p != [] {
      var init, t := p[..|p| - 1], p[|p| - 1];
      assert t in p && p == init + [t];
      ElemsSub(R, p, init);
      assert Shaped(init, n) by {
        forall u | u in init ensures |u.0| == n {
          assert u in p;
        }
      }
      ProductsByOne(R, init, n);
      Laws(R, t.1, R.one, R.one);
      assert Times(t.0, seq(n, _ => 0)) == t.0;
    }
  }

  /** Multiplying by `zero`, on either side, gives no terms. */
  lemma ProductsByZero<T>(R: Ring<T>, p: seq<Term<T>>, n: nat)
    requires Shaped(p, n)
    ensures Products(R, p, Zero(), n) == Zero()
    ensures Products(R, Zero(), p, n) == Zero()
  {
  }

  /** `*` of two single terms is their product term: coefficients
      multiplied, exponents added. */
  lemma ProductOfTerms<T>(R: Ring<T>, t: Term<T>, u: Term<T>, n: nat)
    requires |t.0| == n && |u.0| == n
    ensures Products(R, [t], [u], n) == [(Times(t.0, u.0), R.mul(t.1, u.1))]
  {
    var e: seq<Term<T>> := [];
    assert [t][..0] == e;
  }

  // ---------------------------------------------------------------------
  // The polynomial object

  /** `MultivariatePolynomial`: the list of terms, updated in place by
      `minimize`, `scalar_mult` and the assigning operators. */
  class Polynomial<T(!new)> {
    var terms: seq<Term<T>>

    /** `new`: the given terms, minimized. */
    constructor New(R: Ring<T>, init: seq<Term<T>>)
      requires IsCRing(R) && Elems(R, init)
      ensures Normal(R, terms)
      ensures forall m :: Coeff(R, terms, m) == Coeff(R, init, m)
    {
      var t := Minimized(R, init);
      terms := t;
    }

    /** `minimize` */
    method Minimize(R: Ring<T>)
      requires IsCRing(R) && Elems(R, terms)
      modifies this
      ensures Normal(R, terms)
      ensures forall m :: Coeff(R, terms, m) == Coeff(R, old(terms), m)
    {
      terms := Minimized(R, terms);
    }

    /** `scalar_mult`: every coefficient times c in place, then minimize. */
    method ScalarMult(R: Ring<T>, c: T)
      requires IsCRing(R) && Elems(R, terms) && R.elem(c)
      modifies this
      ensures Normal(R, terms)
      ensures forall m :: Coeff(R, terms, m) == R.mul(Coeff(R, old(terms), m), c)
    {
      ghost var t0 := terms;
      for i := 0 to |terms|
        invariant |terms| == |t0|
        invariant terms[..i] == Scaled(R, t0, c)[..i] && terms[i..] == t0[i..]
      {
        assert terms[i] == t0[i];
        terms := terms[i := (terms[i].0, R.mul(terms[i].1, c))];
      }
      assert terms == Scaled(R, t0, c);
      ScaledCoeff(R, t0, c, []);
      Minimize(R);
      forall m ensures Coeff(R, terms, m) == R.mul(Coeff(R, t0, m), c) {
        ScaledCoeff(R, t0, c, m);
      }
    }

    /** `+=` */
    method AddAssign(R: Ring<T>, rhs: seq<Term<T>>)
      requires IsCRing(R) && Elems(R, terms) && Elems(R, rhs)
      modifies this
      ensures Normal(R, terms)
      ensures forall m :: Coeff(R, terms, m) == R.add(Coeff(R, old(terms), m), Coeff(R, rhs, m))
    {
      terms := Add(R, terms, rhs);
    }

    /** `-=` */
    method SubAssign(R: Ring<T>, rhs: seq<Term<T>>)
      requires IsCRing(R) && Elems(R, terms) && Elems(R, rhs)
      modifies this
      ensures Normal(R, terms)
      ensures forall m :: Coeff(R, terms, m) == R.sub(Coeff(R, old(terms), m), Coeff(R, rhs, m))
    {
      terms := Sub(R, terms, rhs);
    }

    /** `*=` */
    method MulAssign(R: Ring<T>, rhs: seq<Term<T>>, n: nat)
      requires IsCRing(R) && Elems(R, terms) && Elems(R, rhs) && Shaped(terms, n) && Shaped(rhs, n)
      modifies this
      ensures Normal(R, terms)
      ensures forall m :: Coeff(R, terms, m) == Coeff(R, Products(R, old(terms), rhs, n), m)
    {
      terms := Mul(R, terms, rhs, n);
    }
  }
}
