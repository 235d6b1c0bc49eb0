/** The prime fields `Fp<P>` and `F2` of crates/algebra/src/rings/finite_fields.rs.
    An `Fp<P>` value is a byte; the operations compute in 64-bit integers and
    reduce modulo P. An `F2` value is a byte too, combined bitwise. */
module FiniteFields {
  import opened Wrappers
  import opened NumberTheory
  import opened Rings
  import Text

  /** A Rust `u8`. */
  type Byte = x: int | 0 <= x < 256

  /** The const parameter P of `Fp<P>`: a `u8`, at least 2 so that the
      reductions are defined. */
  predicate ValidModulus(p: nat) { 2 <= p < 256 }

  // ---------------------------------------------------------------------
  // Fp<P> arithmetic

  /** `(a + b) % P` in u64, which cannot overflow: on two elements, the sum
      itself or the sum less P. */
  function FpAdd(p: nat, a: Byte, b: Byte): (r: Byte)
    requires ValidModulus(p)
    ensures r < p
    ensures a < p && b < p ==> r == a + b || r == a + b - p
  {
    if a + b < 2 * p then
      SumBelowTwice(a + b, p);
      (a + b) % p
    else (a + b) % p
  }

  lemma SumBelowTwice(x: nat, p: nat)
    requires 0 < p && x < 2 * p
    ensures x % p == x || x % p == x - p
  {
    if x < p {
      ModSmall(x, p);
    } else {
      ModMultipleAdd(1, p, x - p);
      ModSmall(x - p, p);
    }
  }

  /** `(a * b) % P` in u64, which cannot overflow: zero absorbs, and a
      product below P is kept as it is. */
  function FpMul(p: nat, a: Byte, b: Byte): (r: Byte)
    requires ValidModulus(p)
    ensures r < p
    ensures a == 0 || b == 0 ==> r == 0
    ensures a * b < p ==> r == a * b
  {
    if a * b < p then
      ModSmall(a * b, p);
      (a * b) % p
    else (a * b) % p
  }

  /** `(P + a - b) % P` in u64: the difference modulo P. The u64 subtraction
      cannot wrap unless b exceeds P + a, which needs a byte b that is not a
      field element. */
  function FpSub(p: nat, a: Byte, b: Byte): (r: Byte)
    requires ValidModulus(p)
    ensures r < p
    ensures b <= p + a ==> r == (a - b) % p
  {
    var d := p + a - b;
    if d >= 0 then
      ModMultipleAdd(1, p, a - b);
      d % p
    else (d + 0x1_0000_0000_0000_0000) % p
  }

  /** `(P - a) % P`: the additive inverse modulo P. */
  function FpNeg(p: nat, a: Byte): (r: Byte)
    requires ValidModulus(p)
    ensures r < p
    ensures a <= p ==> r == (-(a as int)) % p
    ensures a == 0 ==> r == 0
  {
    var d := p - a;
    if d >= 0 then
      ModMultipleAdd(1, p, -(a as int));
      d % p
    else (d + 0x1_0000_0000_0000_0000) % p
  }

  function FpIsZero(a: Byte): bool { a == 0 }

  /** The value `Fp::inv` returns. */
  function FpInverse(p: nat, a: Byte): (r: Option<Byte>)
    requires ValidModulus(p)
  {
    if a == 0 then None
    else if p == 2 || p == 3 then Some(a)
    else Some(Pow(a, p - 2) % p)
  }

  /** `Fp::inv`: square-and-multiply computing a^(P-2) mod P. */
  method FpInv(p: nat, a: Byte) returns (r: Option<Byte>)
    requires ValidModulus(p)
    ensures r == FpInverse(p, a)
    ensures IsPrime(p) && a < p ==> (r.None? <==> a == 0)
    ensures IsPrime(p) && 0 < a < p ==> r.value < p && (a * r.value) % p == 1
  {
    if a == 0 {
      return None;
    }
    if p == 2 || p == 3 {
      r := Some(a);
    } else {
      var result: int := 1;
      var exp: nat := p - 2;
      var base: int := a;
      while exp > 0
        invariant 0 <= result < p && 0 <= base < 256
        invariant (result * Pow(base, exp)) % p == Pow(a, p - 2) % p
        decreases exp
      {
        InvStep(p, result, base, exp);
        if exp % 2 == 1 {
          result := (result * base) % p;
        }
        base := (base * base) % p;
        exp := exp / 2;
      }
      ModSmall(result, p);
      r := Some(result);
    }
    if IsPrime(p) && 0 < a < p {
      FpInverseCorrect(p, a);
    }
  }

  lemma PowAdd(b: int, m: nat, n: nat)
    ensures Pow(b, m + n) == Pow(b, m) * Pow(b, n)
  {
    if m > 0 {
      PowAdd(b, m - 1, n);
      assert b * (Pow(b, m - 1) * Pow(b, n)) == (b * Pow(b, m - 1)) * Pow(b, n);
    }
  }

  lemma {:induction false} PowSquare(b: int, h: nat)
    ensures Pow(b, 2 * h) == Pow(b * b, h)
  {
    if h > 0 {
      PowSquare(b, h - 1);
      PowAdd(b, 2, 2 * (h - 1));
      assert Pow(b, 1) == b;
      assert Pow(b, 2) == b * b;
    }
  }

  lemma {:induction false} PowMod(b: int, n: nat, p: nat)
    requires p > 0
    ensures Pow(b % p, n) % p == Pow(b, n) % p
  {
    if n > 0 {
      PowMod(b, n - 1, p);
      ModMul(b % p, Pow(b % p, n - 1), p);
      ModMul(b, Pow(b, n - 1), p);
      assert (b % p) % p == b % p by { ModSmall(b % p, p); }
    }
  }

  /** One round of the square-and-multiply loop keeps result * base^exp fixed
      modulo p. */
  lemma InvStep(p: nat, result: int, base: int, exp: nat)
    requires p > 0 && exp > 0
    ensures var result' := if exp % 2 == 1 then (result * base) % p else result;
            (result' * Pow((base * base) % p, exp / 2)) % p == (result * Pow(base, exp)) % p
  {
    var h := exp / 2;
    var q := Pow(base * base, h);
    assert Pow((base * base) % p, h) % p == q % p by { PowMod(base * base, h, p); }
    PowSquare(base, h);
    var result' := if exp % 2 == 1 then (result * base) % p else result;
    calc {
      (result' * Pow((base * base) % p, h)) % p;
      { ModMul(result', Pow((base * base) % p, h), p); ModMul(result', q, p); }
      (result' * q) % p;
    }
    if exp % 2 == 1 {
      PowAdd(base, 1, 2 * h);
      assert Pow(base, 1) == base;
      assert exp == 1 + 2 * h;
      ModMulLeft(result * base, q, p);
      assert (result * base) * q == result * (base * Pow(base, 2 * h));
    } else {
      assert exp == 2 * h;
    }
  }

  /** The inverse `Fp::inv` returns is a true inverse when P is prime. */
  lemma FpInverseCorrect(p: nat, a: Byte)
    requires ValidModulus(p) && IsPrime(p) && 0 < a < p
    ensures FpInverse(p, a).Some?
    ensures var v := FpInverse(p, a).value; v < p && (a * v) % p == 1
  {
    if p == 2 {
      assert a == 1;
    } else if p == 3 {
      assert a == 1 || a == 2;
    } else {
      ModSmall(a, p);
      Fermat(p, a);
      var v := Pow(a, p - 2) % p;
      calc {
        (a * v) % p;
        { ModMul(a, Pow(a, p - 2), p); ModSmall(v, p); }
        (a * Pow(a, p - 2)) % p;
        Pow(a, p - 1) % p;
        1;
      }
    }
  }

  /** The integer sum of a sequence. */
  function SumInts(s: seq<int>): int {
    if s == [] then 0 else SumInts(s[..|s| - 1]) + s[|s| - 1]
  }

  /** The field sum folded with `Fp` addition, starting at zero. */
  function FpFold(p: nat, s: seq<Byte>): (r: Byte)
    requires ValidModulus(p)
  {
    if s == [] then 0 else FpAdd(p, FpFold(p, s[..|s| - 1]), s[|s| - 1])
  }

  /** `Sum for Fp<P>`: add the bytes in u64, reduce once at the end. */
  method FpSum(p: nat, s: seq<Byte>) returns (r: Byte)
    requires ValidModulus(p)
    ensures r == SumInts(s) % p
  {
    var sum := 0;
    var i := 0;
    while i < |s|
      invariant 0 <= i <= |s|
      invariant sum == SumInts(s[..i])
    {
      assert s[..i + 1][..i] == s[..i];
      sum := sum + s[i];
      i := i + 1;
    }
    assert s[..|s|] == s;
    r := sum % p;
  }

  /** Summing at once and reducing equals adding one term at a time in Fp. */
  lemma {:induction false} FpSumIsFold(p: nat, s: seq<Byte>)
    requires ValidModulus(p)
    ensures SumInts(s) % p == FpFold(p, s)
  {
    if s != [] {
      var init, x := s[..|s| - 1], s[|s| - 1];
      FpSumIsFold(p, init);
      var n, f := SumInts(init), FpFold(p, init);
      assert SumInts(s) == n + x;
      assert FpFold(p, s) == (f + x) % p;
      ModSumStep(n, f, x, p);
    }
  }

  lemma ModSumStep(n: int, f: int, x: int, p: nat)
    requires p > 0 && n % p == f && 0 <= f < p
    ensures (n + x) % p == (f + x) % p
  {
    ModAdd(n, x, p);
    ModAdd(f, x, p);
    ModSmall(f, p);
  }

  // ---------------------------------------------------------------------
  // Parsing

  /** Rust's `%` on signed integers: truncating division, so the remainder
      takes the sign of the dividend. */
  function TruncRem(a: int, b: nat): (r: int)
    requires b > 0
    ensures a >= 0 ==> r == a % b
    ensures a < 0 ==> -(b as int) < r <= 0 && (r - a) % b == 0
  {
    if a >= 0 then a % b
    else
      var r := -((-a) % b);
      assert r - a == ((-a) / b) * b;
      ModOfMultiple((-a) / b, b);
      r
  }

  /** `as u8` on an i32: keep the low eight bits of the two's-complement
      value. */
  function AsU8(x: int): Byte { x % 256 }

  /** `Fp::parse` as written: an i32 literal, then `(chr % P) as u8`. */
  function FpParse(p: nat, s: string): (r: Option<Byte>)
    requires ValidModulus(p)
    ensures r.None? <==> Text.ParseInt(s, Text.I32_MIN, Text.I32_MAX).Err?
  {
    match Text.ParseInt(s, Text.I32_MIN, Text.I32_MAX)
    case Err(_) => None
    case Ok(chr) => Some(AsU8(TruncRem(chr, p)))
  }

  /** A non-negative literal is reduced modulo P. */
  lemma FpParseNonNegative(p: nat, s: string, n: nat)
    requires ValidModulus(p) && Text.ParseInt(s, Text.I32_MIN, Text.I32_MAX) == Ok(n)
    ensures FpParse(p, s) == Some(n % p)
  {
    ModSmall(n % p, 256);
  }

  /** A negative literal that is not a multiple of P gives a byte that is
      not an element of the field: "-1" in Fp<3> parses to 255, which is
      congruent to 0 yet is not zero. */
  lemma FpParseNegativeOutOfRange()
    ensures FpParse(3, "-1") == Some(255)
    ensures 255 >= 3 && !FpIsZero(255) && 255 % 3 == 0
  {
    assert Text.ParseInt("-1", Text.I32_MIN, Text.I32_MAX) == Ok(-1) by {
      assert "-1"[1..] == "1";
      assert Text.DigitsValue("1") == 1 by {
        assert "1"[..0] == "";
      }
    }
    assert TruncRem(-1, 3) == -1;
  }

  /** The evidently intended parse: reduce with the Euclidean remainder
      (`rem_euclid`), so every literal gives a field element. */
  function FpParseReduced(p: nat, s: string): (r: Option<Byte>)
    requires ValidModulus(p)
    ensures r.None? <==> Text.ParseInt(s, Text.I32_MIN, Text.I32_MAX).Err?
    ensures r.Some? ==> (r.value < p
            && r.value == Text.ParseInt(s, Text.I32_MIN, Text.I32_MAX).value % p)
  {
    match Text.ParseInt(s, Text.I32_MIN, Text.I32_MAX)
    case Err(_) => None
    case Ok(chr) => Some(chr % p)
  }

  /** Every element's decimal text parses back to it. */
  lemma FpParseReducedDecimal(p: nat, a: Byte)
    requires ValidModulus(p) && a < p
    ensures FpParseReduced(p, Text.Decimal(a)) == Some(a)
  {
    Text.ParseDecimal(a, Text.I32_MIN, Text.I32_MAX);
    ModSmall(a, p);
  }

  // ---------------------------------------------------------------------
  // Fp<P> as a ring

  /** `Fp<P>` as the record of its `CRing` operations. Its `parse` is
      `Fp::parse` as written, so a negative literal can give a byte that is
      not a field element (see FpRingParsesAsWritten). */
  function FpRing(p: nat): (R: Ring<int>)
    requires ValidModulus(p)
    ensures R.zero == 0 && R.one == 1
  {
    Ring(
      (a: int) => 0 <= a < p,
      0,
      1,
      (a: int, b: int) => if 0 <= a < 256 && 0 <= b < 256 then FpAdd(p, a, b) else 0,
      (a: int, b: int) => if 0 <= a < 256 && 0 <= b < 256 then FpSub(p, a, b) else 0,
      (a: int) => if 0 <= a < 256 then FpNeg(p, a) else 0,
      (a: int, b: int) => if 0 <= a < 256 && 0 <= b < 256 then FpMul(p, a, b) else 0,
      (a: int) => a == 0,
      (a: int, b: int) => a == b,
      (a: int) => a != 0,
      (a: int) => if 0 <= a < 256 then OptionToInt(FpInverse(p, a)) else None,
      (s: string) => OptionToInt(FpParse(p, s)))
  }

  function OptionToInt(o: Option<Byte>): Option<int> {
    match o
    case None => None
    case Some(v) => Some(v)
  }

  /** The elements of `Fp<P>` are the bytes below P, `is_zero` and
      `is_unit` are exactly zero and nonzero on them, and `parse` fails
      exactly on text that is not an `i32` literal. */
  lemma FpRingOperations(p: nat)
    requires ValidModulus(p)
    ensures var R := FpRing(p);
      && (forall a :: R.elem(a) <==> 0 <= a < p)
      && (forall a :: 0 <= a < p ==> (R.isZero(a) <==> a == 0) && (R.isUnit(a) <==> a != 0))
      && (forall s :: R.parse(s).None? <==> Text.ParseInt(s, Text.I32_MIN, Text.I32_MAX).Err?)
  {
  }

  /** The ring record parses as the code does: in `Fp<3>`, "-1" gives 255,
      which is not an element; a non-negative literal is reduced modulo P. */
  lemma FpRingParsesAsWritten(p: nat, s: string, n: nat)
    requires ValidModulus(p) && Text.ParseInt(s, Text.I32_MIN, Text.I32_MAX) == Ok(n)
    ensures FpRing(p).parse(s) == Some(n % p) && FpRing(p).elem(n % p)
    ensures FpRing(3).parse("-1") == Some(255) && !FpRing(3).elem(255)
  {
    FpParseNonNegative(p, s, n);
    FpParseNegativeOutOfRange();
  }

  /** For a prime P, `Fp<P>` with its operations is a field. */
  lemma FpIsField(p: nat)
    requires ValidModulus(p) && IsPrime(p)
    ensures IsField(FpRing(p))
  {
    var R := FpRing(p);
    forall a, b, c | R.elem(a) && R.elem(b) && R.elem(c) ensures LawsAt(R, a, b, c) {
      FpAddLaws(p, a, b, c);
      FpMulLaws(p, a, b, c);
    }
    FpInverses(p);
  }

  lemma FpAddLaws(p: nat, a: int, b: int, c: int)
    requires ValidModulus(p) && 0 <= a < p && 0 <= b < p && 0 <= c < p
    ensures var R := FpRing(p);
      && R.add(a, b) == R.add(b, a)
      && R.add(R.add(a, b), c) == R.add(a, R.add(b, c))
      && R.add(a, R.zero) == a
      && R.add(a, R.neg(a)) == R.zero
      && R.sub(a, b) == R.add(a, R.neg(b))
  {
    FpAddArith(p, a, b, c);
  }

  /** The additive laws on the byte operations themselves, kept apart from
      the ring record so that the proof does not see its other fields. */
  lemma FpAddArith(p: nat, a: Byte, b: Byte, c: Byte)
    requires ValidModulus(p) && a < p && b < p && c < p
    ensures FpAdd(p, a, b) == FpAdd(p, b, a)
    ensures FpAdd(p, FpAdd(p, a, b), c) == FpAdd(p, a, FpAdd(p, b, c))
    ensures FpAdd(p, a, 0) == a
    ensures FpAdd(p, a, FpNeg(p, a)) == 0
    ensures FpSub(p, a, b) == FpAdd(p, a, FpNeg(p, b))
  {
    ModAdd(a + b, c, p); ModAdd(a, b + c, p); ModSmall(a, p); ModSmall(c, p);
    ModAdd(a, -(a as int), p);
    ModAdd(a, -(b as int), p);
  }

  lemma FpMulLaws(p: nat, a: int, b: int, c: int)
    requires ValidModulus(p) && 0 <= a < p && 0 <= b < p && 0 <= c < p
    ensures var R := FpRing(p);
      && R.mul(a, b) == R.mul(b, a)
      && R.mul(R.mul(a, b), c) == R.mul(a, R.mul(b, c))
      && R.mul(a, R.one) == a
      && R.mul(a, R.add(b, c)) == R.add(R.mul(a, b), R.mul(a, c))
  {
    FpMulArith(p, a, b, c);
  }

  /** The multiplicative laws on the byte operations: commutative,
      associative, with unit 1, distributing over `FpAdd`. */
  lemma FpMulArith(p: nat, a: Byte, b: Byte, c: Byte)
    requires ValidModulus(p) && a < p && b < p && c < p
    ensures FpMul(p, a, b) == FpMul(p, b, a)
    ensures FpMul(p, FpMul(p, a, b), c) == FpMul(p, a, FpMul(p, b, c))
    ensures FpMul(p, a, 1) == a
    ensures FpMul(p, a, FpAdd(p, b, c)) == FpAdd(p, FpMul(p, a, b), FpMul(p, a, c))
  {
    ModSmall(a, p); ModSmall(c, p);
    assert a * b == b * a;
    assert (a * b) * c == a * (b * c);
    ModMul(a * b, c, p); ModMul(a, b * c, p);
    ModMul(a, b + c, p);
    ModAdd(a * b, a * c, p);
    assert a * (b + c) == a * b + a * c;
  }

  lemma FpInverses(p: nat)
    requires ValidModulus(p) && IsPrime(p)
    ensures Inverses(FpRing(p))
  {
    var R := FpRing(p);
    forall a | R.elem(a) && a != R.zero
      ensures R.tryInverse(a).Some? && R.elem(R.tryInverse(a).value)
              && R.mul(a, R.tryInverse(a).value) == R.one
    {
      FpInverseCorrect(p, a);
    }
  }

  // ---------------------------------------------------------------------
  // F2

  /** `F2`: a byte, 0 and 1 being the field elements. */
  function F2Add(a: bv8, b: bv8): bv8 { a ^ b }
  function F2Sub(a: bv8, b: bv8): bv8 { F2Add(a, b) }
  function F2Neg(a: bv8): bv8 { a }
  function F2Mul(a: bv8, b: bv8): bv8 { a & b }

  function F2Inverse(a: bv8): Option<bv8> {
    if a == 0 then None else Some(a)
  }

  /** `From<u64> for F2`: the low bit. */
  function F2FromU64(v: bv64): (r: bv8)
    ensures r == 0 || r == 1
  {
    (v & 1) as bv8
  }

  /** Every byte is its own additive inverse, so a + a == 0. */
  lemma F2AddSelf(a: bv8)
    ensures F2Add(a, F2Neg(a)) == 0 && F2Add(a, a) == 0 && F2Sub(a, a) == 0
  {
  }

  /** `F2::parse`: an i32 literal, then `chr & 1`. On two's complement the
      low bit of a negative number is its remainder modulo 2, so this is the
      parity of the literal. */
  function F2Parse(s: string): (r: Option<bv8>)
    ensures r.None? <==> Text.ParseInt(s, Text.I32_MIN, Text.I32_MAX).Err?
    ensures r.Some? ==> ((r.value == 0 || r.value == 1)
            && r.value as int == Text.ParseInt(s, Text.I32_MIN, Text.I32_MAX).value % 2)
  {
    match Text.ParseInt(s, Text.I32_MIN, Text.I32_MAX)
    case Err(_) => None
    case Ok(chr) => Some((chr % 2) as bv8)
  }

  /** `Sum for F2`: add the bytes in a wrapping u32 and keep the low bit. */
  method F2Sum(s: seq<bv8>) returns (r: bv8)
    ensures r == 0 || r == 1
    ensures r as int == SumInts(Widen(s)) % 2
  {
    var sum: int := 0;
    var i := 0;
    ghost var ints := Widen(s);
    while i < |s|
      invariant 0 <= i <= |s|
      invariant sum == SumInts(ints[..i]) % 0x1_0000_0000
    {
      assert ints[..i + 1][..i] == ints[..i];
      ModAdd(SumInts(ints[..i]), s[i] as int, 0x1_0000_0000);
      ModSmall(s[i] as int, 0x1_0000_0000);
      sum := (sum + s[i] as int) % 0x1_0000_0000;
      i := i + 1;
    }
    assert ints[..|s|] == ints;
    ParityOfWrapped(SumInts(ints));
    r := (sum % 2) as bv8;
  }

  /** The bytes as integers. */
  function Widen(s: seq<bv8>): (r: seq<int>)
    ensures |r| == |s| && forall i :: 0 <= i < |s| ==> r[i] == s[i] as int
  {
    seq(|s|, i requires 0 <= i < |s| => s[i] as int)
  }

  lemma ParityOfWrapped(n: int)
    ensures (n % 0x1_0000_0000) % 2 == n % 2
  {
    var q := n / 0x1_0000_0000;
    assert n == q * 0x1_0000_0000 + n % 0x1_0000_0000;
    ModMultipleAdd(q * 0x8000_0000, 2, n % 0x1_0000_0000);
  }

  function F2Ring(): (R: Ring<bv8>)
    ensures R.zero == 0 && R.one == 1
  {
    Ring(
      (a: bv8) => a == 0 || a == 1,
      0,
      1,
      F2Add,
      F2Sub,
      F2Neg,
      F2Mul,
      (a: bv8) => a == 0,
      (a: bv8, b: bv8) => a == b,
      (a: bv8) => a != 0,
      F2Inverse,
      F2Parse)
  }

  /** F2 with XOR and AND is a field. */
  lemma F2IsField()
    ensures IsField(F2Ring())
  {
    var R := F2Ring();
    forall a: bv8, b: bv8 | R.elem(a) && R.elem(b)
      ensures R.elem(R.add(a, b)) && R.elem(R.mul(a, b)) && R.elem(R.sub(a, b))
    {
      F2Laws2(a, b);
    }
    forall a: bv8, b: bv8, c: bv8 | R.elem(a) && R.elem(b) && R.elem(c)
      ensures LawsAt(R, a, b, c)
    {
      F2Laws2(a, b);
      F2Laws3(a, b, c);
    }
  }

  lemma F2Laws2(a: bv8, b: bv8)
    requires (a == 0 || a == 1) && (b == 0 || b == 1)
    ensures var s, m := a ^ b, a & b; (s == 0 || s == 1) && (m == 0 || m == 1)
    ensures a ^ b == b ^ a && a & b == b & a
  {
    if a == 0 {
      if b == 0 {} else {}
    } else {
      if b == 0 {} else {}
    }
  }

  lemma F2Laws3(a: bv8, b: bv8, c: bv8)
    requires (a == 0 || a == 1) && (b == 0 || b == 1) && (c == 0 || c == 1)
    ensures (a ^ b) ^ c == a ^ (b ^ c)
    ensures (a & b) & c == a & (b & c)
    ensures a & (b ^ c) == (a & b) ^ (a & c)
  {
    if a == 0 {
      if b == 0 { if c == 0 {} else {} } else { if c == 0 {} else {} }
    } else {
      if b == 0 { if c == 0 {} else {} } else { if c == 0 {} else {} }
    }
  }
}
