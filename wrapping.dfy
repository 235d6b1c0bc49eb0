/** Rust's fixed-width integers as the gradings use them: `i16` values whose
    `+`, `-` and `*` wrap around modulo 2^16 (the behaviour of a release
    build), and the `as usize` cast of an `i16`. */
module Wrapping {
  import Text

  /** A Rust `i16`. */
  type I16 = x: int | Text.I16_MIN <= x <= Text.I16_MAX

  const Modulus: int := 0x1_0000

  /** The `i16` that a wrapping operation with exact result `x` leaves: the
      unique value in range congruent to `x` modulo 2^16. */
  function Wrap(x: int): (r: I16)
    ensures Text.I16_MIN <= x <= Text.I16_MAX ==> r == x
  {
    var q := (x - Text.I16_MIN) / Modulus;
    assert Text.I16_MIN <= x <= Text.I16_MAX ==> q == 0;
    (x - Text.I16_MIN) % Modulus + Text.I16_MIN
  }

  /** Wrapping keeps the value modulo 2^16. */
  lemma WrapMod(x: int)
    ensures Wrap(x) % Modulus == x % Modulus
  {
    var q := (x - Text.I16_MIN) / Modulus;
    assert Wrap(x) == x + (-q) * Modulus;
    ModShift(-q, x);
  }

  lemma ModShift(k: int, x: int)
    ensures (x + k * Modulus) % Modulus == x % Modulus
  {
    var q, s := x / Modulus, x % Modulus;
    assert x + k * Modulus == (q + k) * Modulus + s;
  }

  /** Two exact results that agree modulo 2^16 wrap to the same `i16`. */
  lemma {:induction false} WrapCongruent(x: int, y: int)
    requires x % Modulus == y % Modulus
    ensures Wrap(x) == Wrap(y)
  {
    WrapMod(x);
    WrapMod(y);
    var a, b := Wrap(x), Wrap(y);
    var qa, qb := a / Modulus, b / Modulus;
    assert a == qa * Modulus + a % Modulus;
    assert b == qb * Modulus + b % Modulus;
    assert a - b == (qa - qb) * Modulus;
  }

  /** Adding the same amount keeps two numbers congruent. */
  lemma AddCongruent(x: int, y: int, c: int)
    requires x % Modulus == y % Modulus
    ensures (x + c) % Modulus == (y + c) % Modulus
  {
    var qx, qy := x / Modulus, y / Modulus;
    assert x + c == (c + x % Modulus) + qx * Modulus;
    assert y + c == (c + y % Modulus) + qy * Modulus;
    ModShift(qx, c + x % Modulus);
    ModShift(qy, c + y % Modulus);
  }

  /** Adding after wrapping is wrapping after adding. */
  lemma WrapAdd(x: int, c: int)
    ensures Wrap(Wrap(x) + c) == Wrap(x + c)
  {
    WrapMod(x);
    AddCongruent(Wrap(x), x, c);
    WrapCongruent(Wrap(x) + c, x + c);
  }

  /** The `i16` that a wrapping `+` or `-` of two `i16` values leaves: at
      most one turn of 2^16 away from the exact result. */
  function Fold(x: int): (r: I16)
    requires -Modulus <= x < Modulus
    ensures Text.I16_MIN <= x <= Text.I16_MAX ==> r == x
  {
    if x > Text.I16_MAX then x - Modulus
    else if x < Text.I16_MIN then x + Modulus
    else x
  }

  /** On sums of two `i16` values, `Fold` is the general wrap. */
  lemma FoldIsWrap(x: int)
    requires -Modulus <= x < Modulus
    ensures Fold(x) == Wrap(x)
    ensures Fold(x) % Modulus == x % Modulus
  {
    if x > Text.I16_MAX {
      ModShift(-1, x);
    } else if x < Text.I16_MIN {
      ModShift(1, x);
    }
    WrapMod(x);
    WrapCongruent(Fold(x), x);
  }

  /** Wrapping `+` on `i16`. */
  function Plus(x: I16, y: I16): (r: I16)
    ensures Text.I16_MIN <= x + y <= Text.I16_MAX ==> r == x + y
  {
    Fold(x + y)
  }

  /** Wrapping `-` on `i16`. */
  function Minus(x: I16, y: I16): (r: I16)
    ensures Text.I16_MIN <= x - y <= Text.I16_MAX ==> r == x - y
  {
    Fold(x - y)
  }

  /** Wrapping addition is commutative and associative, and wrapping
      subtraction undoes it. */
  lemma PlusLaws(x: I16, y: I16, z: I16)
    ensures Plus(x, y) == Plus(y, x)
    ensures Plus(Plus(x, y), z) == Plus(x, Plus(y, z))
    ensures Minus(Plus(x, y), y) == x
    ensures Plus(Minus(x, y), y) == x
  {
  }

  /** `i as usize` for an `i16`: sign extension, so a negative value becomes
      2^64 plus the value. */
  function AsUsize(x: I16): (r: nat)
    ensures r <= Text.USIZE_MAX
    ensures x >= 0 ==> r == x
    ensures x < 0 ==> r > Text.USIZE_MAX - 0x8000
  {
    if x >= 0 then x else Text.USIZE_MAX + 1 + x
  }

  /** Rust's `Ordering`. */
  datatype Ordering = Less | Equal | Greater

  /** `Ord::cmp` on integers. */
  function Cmp(a: int, b: int): (r: Ordering)
    ensures r == Equal <==> a == b
    ensures r == Less <==> a < b
  {
    if a < b then Less else if a == b then Equal else Greater
  }
}
