/** `UniPolRing<F>` of crates/algebra/src/rings/univariate_polynomial_ring.rs:
    a single term c·t^k of k[t], with a field coefficient c and a u16
    exponent k. Rust panics where the sum of two terms is not a term; the
    model returns `None` there. */
module UniPol {
  import opened Wrappers
  import opened Rings
  import Text

  /** A Rust `u16`. */
  type Power = k: int | 0 <= k < 0x1_0000

  datatype UniPol<T> = UniPol(c: T, k: Power)

  /** The coefficient is an element of the field. */
  ghost predicate Valid<T>(F: Ring<T>, a: UniPol<T>) { F.elem(a.c) }

  /** The coefficient of t^j in the polynomial the term stands for. */
  function Coef<T>(F: Ring<T>, a: UniPol<T>, j: int): T {
    if j == a.k && !F.isZero(a.c) then a.c else F.zero
  }

  function IsZero<T>(F: Ring<T>, a: UniPol<T>): bool { F.isZero(a.c) }

  function Zero<T>(F: Ring<T>): UniPol<T> { UniPol(F.zero, 0) }

  function One<T>(F: Ring<T>): UniPol<T> { UniPol(F.one, 0) }

  /** `PartialEq`: two zeros are equal whatever their exponents. */
  function Eq<T>(F: Ring<T>, a: UniPol<T>, b: UniPol<T>): bool {
    (IsZero(F, a) && IsZero(F, b)) || (F.eq(a.c, b.c) && a.k == b.k)
  }

  /** Equality of terms is equality of the polynomials they stand for. */
  lemma EqIsPolynomialEquality<T(!new)>(F: Ring<T>, a: UniPol<T>, b: UniPol<T>)
    requires IsCRing(F) && Valid(F, a) && Valid(F, b)
    ensures Eq(F, a, b) <==> forall j :: Coef(F, a, j) == Coef(F, b, j)
  {
    if forall j :: Coef(F, a, j) == Coef(F, b, j) {
      if !IsZero(F, a) {
        assert Coef(F, a, a.k) == a.c;
        assert Coef(F, b, a.k) == a.c;
      } else if !IsZero(F, b) {
        assert Coef(F, b, b.k) == b.c;
        assert Coef(F, a, b.k) == F.zero;
      }
    }
  }

  /** `Neg`: negate the coefficient. */
  function Neg<T>(F: Ring<T>, a: UniPol<T>): UniPol<T> { UniPol(F.neg(a.c), a.k) }

  /** `Add`: coefficients add at equal exponents; a zero term yields the
      other term; two nonzero terms of different degree panic (`None`). */
  function Add<T>(F: Ring<T>, a: UniPol<T>, b: UniPol<T>): (r: Option<UniPol<T>>)
    ensures r.None? <==> a.k != b.k && !F.isZero(a.c) && !F.isZero(b.c)
    ensures r.Some? ==> r.value.k == a.k || r.value.k == b.k
  {
    if a.k == b.k then Some(UniPol(F.add(a.c, b.c), a.k))
    else if F.isZero(a.c) then Some(b)
    else if F.isZero(b.c) then Some(a)
    else None
  }

  /** `Sub` adds the negation. */
  function Sub<T>(F: Ring<T>, a: UniPol<T>, b: UniPol<T>): Option<UniPol<T>> {
    Add(F, a, Neg(F, b))
  }

  /** Addition is defined exactly when the sum of the two polynomials is a
      single term, and then it is that sum. */
  lemma AddIsPolynomialSum<T(!new)>(F: Ring<T>, a: UniPol<T>, b: UniPol<T>)
    requires IsCRing(F) && Valid(F, a) && Valid(F, b)
    ensures Add(F, a, b).Some? ==> forall j ::
              Coef(F, Add(F, a, b).value, j) == F.add(Coef(F, a, j), Coef(F, b, j))
    ensures Add(F, a, b).None? ==> forall m :: Valid(F, m) ==> exists j ::
              Coef(F, m, j) != F.add(Coef(F, a, j), Coef(F, b, j))
  {
    Laws(F, F.zero, F.zero, F.zero);
    Laws(F, a.c, F.zero, F.zero);
    Laws(F, b.c, F.zero, F.zero);
    AddZeroLeft(F, a.c);
    AddZeroLeft(F, b.c);
    AddZeroLeft(F, F.zero);
    match Add(F, a, b)
    case Some(r) =>
      forall j ensures Coef(F, r, j) == F.add(Coef(F, a, j), Coef(F, b, j)) {
        if a.k == b.k && j == a.k {
          if F.isZero(a.c) {
            assert a.c == F.zero;
          } else if F.isZero(b.c) {
            assert b.c == F.zero;
          }
        }
      }
    case None =>
      forall m | Valid(F, m) ensures exists j :: Coef(F, m, j) != F.add(Coef(F, a, j), Coef(F, b, j)) {
        assert Coef(F, a, a.k) == a.c && Coef(F, b, a.k) == F.zero;
        assert Coef(F, a, b.k) == F.zero && Coef(F, b, b.k) == b.c;
        if m.k == a.k {
          assert Coef(F, m, b.k) != F.add(Coef(F, a, b.k), Coef(F, b, b.k));
        } else {
          assert Coef(F, m, a.k) != F.add(Coef(F, a, a.k), Coef(F, b, a.k));
        }
      }
  }

  /** Subtracting a term from itself gives zero. */
  lemma SubSelf<T(!new)>(F: Ring<T>, a: UniPol<T>)
    requires IsCRing(F) && Valid(F, a)
    ensures Sub(F, a, a).Some? && IsZero(F, Sub(F, a, a).value)
  {
    Laws(F, a.c, a.c, a.c);
  }

  /** `Mul`: multiply the coefficients, add the exponents (a u16 sum, which
      wraps in a release build). */
  function Mul<T>(F: Ring<T>, a: UniPol<T>, b: UniPol<T>): (r: UniPol<T>)
    ensures a.k + b.k < 0x1_0000 ==> r.k == a.k + b.k
    ensures a.k + b.k >= 0x1_0000 ==> r.k == a.k + b.k - 0x1_0000 && r.k < a.k && r.k < b.k
  {
    UniPol(F.mul(a.c, b.c), (a.k + b.k) % 0x1_0000)
  }

  /** Without overflow, the product of two terms is the product of the
      polynomials they stand for. */
  lemma MulIsPolynomialProduct<T(!new)>(F: Ring<T>, a: UniPol<T>, b: UniPol<T>, j: int)
    requires IsCRing(F) && Valid(F, a) && Valid(F, b) && a.k + b.k < 0x1_0000
    ensures Coef(F, Mul(F, a, b), j)
            == if j == a.k + b.k then F.mul(Coef(F, a, a.k), Coef(F, b, b.k)) else F.zero
  {
    MulZero(F, a.c);
    MulZero(F, b.c);
    MulZero(F, F.zero);
    if F.isZero(a.c) {
      assert a.c == F.zero;
    }
    if F.isZero(b.c) {
      assert b.c == F.zero;
    }
  }

  /** `is_unit`: a unit coefficient at exponent 0. */
  function IsUnit<T>(F: Ring<T>, a: UniPol<T>): bool {
    F.isUnit(a.c) && a.k == 0
  }

  /** `try_inverse`: none for a positive exponent, else invert the
      coefficient. */
  function TryInverse<T>(F: Ring<T>, a: UniPol<T>): Option<UniPol<T>> {
    if a.k > 0 then None
    else
      match F.tryInverse(a.c)
      case Some(i) => Some(UniPol(i, 0))
      case None => None
  }

  /** Over a field, exactly the units have an inverse, and it is one. */
  lemma UnitsAreInvertible<T(!new)>(F: Ring<T>, a: UniPol<T>)
    requires IsField(F) && Valid(F, a)
    ensures IsUnit(F, a) <==> TryInverse(F, a).Some?
    ensures TryInverse(F, a).Some? ==> Eq(F, Mul(F, a, TryInverse(F, a).value), One(F))
  {
    if TryInverse(F, a).Some? {
      var i := TryInverse(F, a).value;
      assert F.eq(F.mul(a.c, i.c), F.one);
    }
  }

  /** `divides`: a | b when a is nonzero and b is zero or of degree at least
      deg a. */
  function Divides<T>(F: Ring<T>, a: UniPol<T>, b: UniPol<T>): bool {
    !F.isZero(a.c) && (a.k <= b.k || F.isZero(b.c))
  }

  /** The valuation property the SNF relies on: of two terms, not both zero,
      one divides the other. */
  lemma DividesTotal<T>(F: Ring<T>, a: UniPol<T>, b: UniPol<T>)
    requires !IsZero(F, a) || !IsZero(F, b)
    ensures Divides(F, a, b) || Divides(F, b, a)
  {
  }

  /** `unsafe_divide`: a / b; the inverse of b's coefficient and the
      exponent difference must exist, or Rust panics (`None`). */
  function UnsafeDivide<T>(F: Ring<T>, a: UniPol<T>, b: UniPol<T>): Option<UniPol<T>> {
    match F.tryInverse(b.c)
    case None => None
    case Some(i) => if a.k < b.k then None else Some(UniPol(F.mul(a.c, i), a.k - b.k))
  }

  /** With b nonzero and deg b <= deg a, the quotient exists and multiplying
      it back by b gives a. */
  lemma DivideThenMultiply<T(!new)>(F: Ring<T>, a: UniPol<T>, b: UniPol<T>)
    requires IsField(F) && Valid(F, a) && Valid(F, b)
    requires !IsZero(F, b) && b.k <= a.k
    ensures UnsafeDivide(F, a, b).Some?
    ensures Eq(F, Mul(F, UnsafeDivide(F, a, b).value, b), a)
  {
    var i := F.tryInverse(b.c).value;
    var q := UnsafeDivide(F, a, b).value;
    Laws(F, a.c, i, b.c);
    Laws(F, i, b.c, b.c);
    Laws(F, b.c, i, i);
    Laws(F, a.c, F.one, F.one);
    assert F.mul(q.c, b.c) == a.c;
  }

  /** When a | b in the sense of `divides`, b is a times a term, provided b
      is zero or the degrees do not overflow. */
  lemma DividesHasQuotient<T(!new)>(F: Ring<T>, a: UniPol<T>, b: UniPol<T>)
    requires IsField(F) && Valid(F, a) && Valid(F, b) && Divides(F, a, b)
    ensures exists q :: Valid(F, q) && Eq(F, Mul(F, q, a), b)
  {
    if IsZero(F, b) {
      MulZero(F, a.c);
      assert Eq(F, Mul(F, Zero(F), a), b);
    } else {
      DivideThenMultiply(F, b, a);
      Laws(F, b.c, F.tryInverse(a.c).value, F.one);
      var q := UnsafeDivide(F, b, a).value;
      assert Valid(F, q);
    }
  }

  /** `parse`: trimmed text; "" is zero; text with a 't' is a coefficient
      (1 when absent) times t^k, with k after a '^' or 1 without one; text
      without a 't' is a coefficient times t^0. */
  function Parse<T>(F: Ring<T>, input: string): (r: Option<UniPol<T>>)
    ensures Text.Trim(input) == [] ==> r == Some(Zero(F))
    ensures r.Some? && 't' !in Text.Trim(input) ==> r.value.k == 0
    ensures r.Some? && 't' in Text.Trim(input) && '^' !in Text.Trim(input) ==> r.value.k == 1
  {
    var s := Text.Trim(input);
    if s == [] then Some(Zero(F))
    else
      match Text.SplitOnce(s, 't')
      case Some((lhs, p)) =>
        var coefficient := if lhs == [] then Some(F.one) else F.parse(lhs);
        if coefficient.None? then None
        else
          (match Text.SplitOnce(p, '^')
          case Some((_, a)) =>
            (match Text.ParseInt(a, 0, Text.U16_MAX)
             case Ok(k) => Some(UniPol(coefficient.value, k))
             case Err(_) => None)
          case None => Some(UniPol(coefficient.value, 1)))
      case None =>
        match F.parse(s)
        case Some(c) => Some(UniPol(c, 0))
        case None => None
  }

  /** Empty or blank text is the zero term. */
  lemma ParseEmpty<T>(F: Ring<T>, s: string)
    requires forall i :: 0 <= i < |s| ==> Text.IsWhitespace(s[i])
    ensures Parse(F, s) == Some(Zero(F))
  {
    assert Text.LeadingSpace(s) == |s|;
  }

  /** "t" alone is 1·t^1. */
  lemma ParseT<T>(F: Ring<T>)
    ensures Parse(F, "t") == Some(UniPol(F.one, 1))
  {
    Text.SplitOnceFirst([], [], 't');
    assert "t" == [] + ['t'] + [];
    TrimmedUnchanged("t");
  }

  /** Text "c" without a 't' is c·t^0, for a coefficient text the field
      parses. */
  lemma ParseConstant<T>(F: Ring<T>, cs: string, c: T)
    requires F.parse(cs) == Some(c) && cs != [] && 't' !in cs
    requires !Text.IsWhitespace(cs[0]) && !Text.IsWhitespace(cs[|cs| - 1])
    ensures Parse(F, cs) == Some(UniPol(c, 0))
  {
    TrimmedUnchanged(cs);
  }

  /** Text "ct^k" is c·t^k, for a coefficient text the field parses and a
      decimal u16 exponent. */
  lemma ParseTerm<T>(F: Ring<T>, cs: string, c: T, k: Power)
    requires F.parse(cs) == Some(c) && cs != [] && 't' !in cs
    requires !Text.IsWhitespace(cs[0])
    ensures Parse(F, cs + "t^" + Text.Decimal(k)) == Some(UniPol(c, k))
  {
    var d := Text.Decimal(k);
    Text.ParseDecimal(k, 0, Text.U16_MAX);
    TermSplits(cs, d);
    var s := cs + "t^" + d;
    assert s[|s| - 1] == d[|d| - 1] && Text.IsDigit(d[|d| - 1]);
    TrimmedUnchanged(s);
  }

  /** Text "c t^d" splits at its first 't' into c and "^d", and "^d"
      splits at its '^' into nothing and d. */
  lemma TermSplits(cs: string, d: string)
    requires 't' !in cs
    ensures Text.SplitOnce(cs + "t^" + d, 't') == Some((cs, "^" + d))
    ensures Text.SplitOnce("^" + d, '^') == Some(([], d))
  {
    assert cs + "t^" + d == cs + ['t'] + ("^" + d);
    Text.SplitOnceFirst(cs, "^" + d, 't');
    assert "^" + d == [] + ['^'] + d;
    Text.SplitOnceFirst([], d, '^');
  }

  /** Text without whitespace at either end is unchanged by `trim`. */
  lemma TrimmedUnchanged(s: string)
    requires s != [] && !Text.IsWhitespace(s[0]) && !Text.IsWhitespace(s[|s| - 1])
    ensures Text.Trim(s) == s
  {
    assert Text.TrimStart(s) == s;
    assert Text.TrimEnd(s) == s;
  }

  /** `Sum`: fold with `Add` from zero; any panicking addition panics the
      sum. */
  function Sum<T>(F: Ring<T>, s: seq<UniPol<T>>): Option<UniPol<T>> {
    if s == [] then Some(Zero(F))
    else
      match Sum(F, s[..|s| - 1])
      case None => None
      case Some(acc) => Add(F, acc, s[|s| - 1])
  }

  /** The field sum of the coefficients of `s`, folded from zero. */
  function CoefSum<T>(F: Ring<T>, s: seq<UniPol<T>>): T {
    if s == [] then F.zero else F.add(CoefSum(F, s[..|s| - 1]), s[|s| - 1].c)
  }

  /** Terms of one degree always sum, to the term of that degree with the
      summed coefficients. */
  lemma {:induction false} SumOfOneDegree<T(!new)>(F: Ring<T>, s: seq<UniPol<T>>, k: Power)
    requires IsCRing(F) && |s| > 0 && forall i :: 0 <= i < |s| ==> s[i].k == k && Valid(F, s[i])
    ensures Sum(F, s) == Some(UniPol(CoefSum(F, s), k))
  {
    var init := s[..|s| - 1];
    if |s| == 1 {
      assert init == [];
      AddZeroLeft(F, s[0].c);
    } else {
      SumOfOneDegree(F, init, k);
    }
  }

  /** `UniPolRing<F>` as a `Ring` record, so that the generic matrix code
      (zero matrices, unit rows, extra rows) can hold terms. Where the Rust
      addition or subtraction of two terms panics the record answers zero; no
      ring law is claimed for it, and it is used only for its zero and one. */
  function PolRing<T>(F: Ring<T>): (R: Ring<UniPol<T>>)
    ensures R.zero == Zero(F) && R.one == One(F)
  {
    Ring(
      (a: UniPol<T>) => F.elem(a.c),
      Zero(F),
      One(F),
      (a, b) => match Add(F, a, b) case Some(r) => r case None => Zero(F),
      (a, b) => match Sub(F, a, b) case Some(r) => r case None => Zero(F),
      a => Neg(F, a),
      (a, b) => Mul(F, a, b),
      a => IsZero(F, a),
      (a, b) => Eq(F, a, b),
      a => IsUnit(F, a),
      a => TryInverse(F, a),
      s => Parse(F, s))
  }
}
