/** The coefficient rings the matrix code is generic over (the `CRing`,
    `Field` and `ValuationRing` traits of crates/algebra/src/ring.rs and
    field.rs). A Rust type implementing a trait is modelled as a record of its
    operations, passed to the generic code explicitly. */
module Rings {
  import opened Wrappers

  /** The operations of a `CRing`. `elem` tells which values of the carrier
      type are ring elements (for `Fp<P>` a byte below P); the laws below hold
      on elements only. */
  datatype Ring<!T> = Ring(
    elem: T -> bool,
    zero: T,
    one: T,
    add: (T, T) -> T,
    sub: (T, T) -> T,
    neg: T -> T,
    mul: (T, T) -> T,
    isZero: T -> bool,
    eq: (T, T) -> bool,
    isUnit: T -> bool,
    tryInverse: T -> Option<T>,
    parse: string -> Option<T>)

  /** The extra operations of a `ValuationRing`: `divides(a, b)` says a | b,
      and `divide(a, b)` is `a.unsafe_divide(b)`, the quotient a / b. */
  datatype Valuation<!T> = Valuation(divides: (T, T) -> bool, divide: (T, T) -> T)

  /** The commutative-ring laws on the elements of `R`, with the equality and
      zero test agreeing with equality of values. The algebraic laws are
      instantiated on demand through `Laws`, so that proofs about matrices do
      not drown in rearrangements of sums. */
  ghost predicate IsCRing<T(!new)>(R: Ring<T>) {
    && Closed(R) && Decides(R)
    && (forall a, b, c {:trigger LawsAt(R, a, b, c)} :: R.elem(a) && R.elem(b) && R.elem(c) ==>
          LawsAt(R, a, b, c))
  }

  /** The operations do not leave the elements. */
  ghost predicate Closed<T(!new)>(R: Ring<T>) {
    && R.elem(R.zero) && R.elem(R.one)
    && (forall a, b {:trigger R.add(a, b)} :: R.elem(a) && R.elem(b) ==> R.elem(R.add(a, b)))
    && (forall a, b {:trigger R.mul(a, b)} :: R.elem(a) && R.elem(b) ==> R.elem(R.mul(a, b)))
    && (forall a, b {:trigger R.sub(a, b)} :: R.elem(a) && R.elem(b) ==> R.elem(R.sub(a, b)))
    && (forall a {:trigger R.neg(a)} :: R.elem(a) ==> R.elem(R.neg(a)))
  }

  /** `is_zero` and `==` decide equality of elements. */
  ghost predicate Decides<T(!new)>(R: Ring<T>) {
    && (forall a {:trigger R.isZero(a)} :: R.elem(a) ==> (R.isZero(a) <==> a == R.zero))
    && (forall a, b {:trigger R.eq(a, b)} :: R.elem(a) && R.elem(b) ==> (R.eq(a, b) <==> a == b))
  }

  /** The laws of a commutative ring at three given elements. */
  ghost predicate LawsAt<T>(R: Ring<T>, a: T, b: T, c: T) {
    && R.add(a, b) == R.add(b, a)
    && R.add(R.add(a, b), c) == R.add(a, R.add(b, c))
    && R.add(a, R.zero) == a
    && R.add(a, R.neg(a)) == R.zero
    && R.sub(a, b) == R.add(a, R.neg(b))
    && R.mul(a, b) == R.mul(b, a)
    && R.mul(R.mul(a, b), c) == R.mul(a, R.mul(b, c))
    && R.mul(a, R.one) == a
    && R.mul(a, R.add(b, c)) == R.add(R.mul(a, b), R.mul(a, c))
  }

  /** A field: a commutative ring with 1 != 0 in which exactly the nonzero
      elements are units, and `try_inverse` finds their inverses. */
  ghost predicate IsField<T(!new)>(R: Ring<T>) {
    IsCRing(R) && R.one != R.zero && Inverses(R)
  }

  ghost predicate Inverses<T(!new)>(R: Ring<T>) {
    && (forall a {:trigger R.isUnit(a)} :: R.elem(a) ==> (R.isUnit(a) <==> a != R.zero))
    && (forall a {:trigger R.tryInverse(a)} :: R.elem(a) ==>
          if a == R.zero then R.tryInverse(a) == None
          else R.tryInverse(a).Some? && R.elem(R.tryInverse(a).value)
               && R.mul(a, R.tryInverse(a).value) == R.one)
  }

  // ---------------------------------------------------------------------
  // Using the laws

  lemma Laws<T(!new)>(R: Ring<T>, a: T, b: T, c: T)
    requires IsCRing(R) && R.elem(a) && R.elem(b) && R.elem(c)
    ensures LawsAt(R, a, b, c)
  {
  }

  lemma MulZero<T(!new)>(R: Ring<T>, a: T)
    requires IsCRing(R) && R.elem(a)
    ensures R.mul(a, R.zero) == R.zero && R.mul(R.zero, a) == R.zero
  {
    var z := R.mul(a, R.zero);
    Laws(R, a, R.zero, R.zero);
    Laws(R, R.zero, a, a);
    Laws(R, z, z, R.neg(z));
    Laws(R, z, R.zero, R.zero);
    calc {
      z;
      R.mul(a, R.add(R.zero, R.zero));
      R.add(z, z);
    }
    calc {
      R.zero;
      R.add(z, R.neg(z));
      R.add(R.add(z, z), R.neg(z));
      R.add(z, R.add(z, R.neg(z)));
      R.add(z, R.zero);
      z;
    }
  }

  lemma AddZeroLeft<T(!new)>(R: Ring<T>, a: T)
    requires IsCRing(R) && R.elem(a)
    ensures R.add(R.zero, a) == a
  {
    Laws(R, a, R.zero, R.zero);
  }

  lemma NegMul<T(!new)>(R: Ring<T>, a: T, b: T)
    requires IsCRing(R) && R.elem(a) && R.elem(b)
    ensures R.mul(R.neg(a), b) == R.neg(R.mul(a, b))
  {
    var ab, nab := R.mul(a, b), R.mul(R.neg(a), b);
    MulZero(R, b);
    assert R.add(ab, nab) == R.zero by {
      Laws(R, a, b, b);
      Laws(R, R.neg(a), b, b);
      Laws(R, b, a, R.neg(a));
      Laws(R, a, a, a);
      calc {
        R.add(ab, nab);
        R.add(R.mul(b, a), R.mul(b, R.neg(a)));
        R.mul(b, R.add(a, R.neg(a)));
        R.zero;
      }
    }
    NegUnique(R, ab, nab);
  }

  /** An additive inverse is unique. */
  lemma NegUnique<T(!new)>(R: Ring<T>, a: T, b: T)
    requires IsCRing(R) && R.elem(a) && R.elem(b) && R.add(a, b) == R.zero
    ensures b == R.neg(a)
  {
    Laws(R, b, R.zero, R.zero);
    Laws(R, a, R.neg(a), R.zero);
    Laws(R, b, a, R.neg(a));
    Laws(R, a, b, b);
    AddZeroLeft(R, R.neg(a));
    calc {
      b;
      R.add(b, R.zero);
      R.add(b, R.add(a, R.neg(a)));
      R.add(R.add(b, a), R.neg(a));
      R.add(R.zero, R.neg(a));
      R.neg(a);
    }
  }

  lemma SubSelf<T(!new)>(R: Ring<T>, a: T)
    requires IsCRing(R) && R.elem(a)
    ensures R.sub(a, a) == R.zero && R.sub(a, R.zero) == a
  {
    Laws(R, a, a, a);
    Laws(R, a, R.zero, R.zero);
    Laws(R, R.zero, R.zero, R.zero);
    AddZeroLeft(R, R.zero);
    NegUnique(R, R.zero, R.zero);
  }
}
