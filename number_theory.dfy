/** Modular arithmetic facts behind the prime-field inverse: uniqueness of
    quotient and remainder, Euclid's lemma and Fermat's little theorem. */
module NumberTheory {

  ghost predicate IsPrime(p: nat) {
    p >= 2 && forall d :: 2 <= d < p ==> p % d != 0
  }

  function Pow(b: int, e: nat): int {
    if e == 0 then 1 else b * Pow(b, e - 1)
  }

  /** The product of a sequence of integers. */
  function Prod(s: seq<int>): int {
    if s == [] then 1 else Prod(s[..|s| - 1]) * s[|s| - 1]
  }

  /** [1, 2, ..., n] */
  function Iota(n: nat): (r: seq<int>)
    ensures |r| == n
    ensures forall i :: 0 <= i < n ==> r[i] == i + 1
  {
    if n == 0 then [] else Iota(n - 1) + [n]
  }

  // ---------------------------------------------------------------------
  // Quotient and remainder

  lemma MulSign(d: int, p: int)
    requires p > 0
    ensures d >= 1 ==> d * p >= p
    ensures d <= -1 ==> d * p <= -p
  {
    if d >= 1 {
      assert d * p == (d - 1) * p + p;
      assert (d - 1) * p >= 0;
    } else if d <= -1 {
      assert d * p == (d + 1) * p - p;
      assert (d + 1) * p <= 0;
    }
  }

  /** Quotient and remainder are unique. */
  lemma ModUnique(n: int, p: int, m: int, r: int)
    requires p > 0 && 0 <= r < p && n == m * p + r
    ensures n % p == r && n / p == m
  {
    var q, s := n / p, n % p;
    assert n == q * p + s;
    assert (m - q) * p == s - r;
    MulSign(m - q, p);
  }

  lemma ModMultipleAdd(k: int, p: int, z: int)
    requires p > 0
    ensures (k * p + z) % p == z % p
  {
    var q, r := z / p, z % p;
    assert z == q * p + r;
    assert k * p + z == (k + q) * p + r;
    ModUnique(k * p + z, p, k + q, r);
  }

  lemma ModOfMultiple(k: int, p: int)
    requires p > 0
    ensures (k * p) % p == 0 && (p * k) % p == 0
  {
    ModMultipleAdd(k, p, 0);
  }

  lemma ModMulLeft(x: int, y: int, p: int)
    requires p > 0
    ensures ((x % p) * y) % p == (x * y) % p
  {
    var q, r := x / p, x % p;
    assert x == q * p + r;
    assert x * y == (q * y) * p + r * y;
    ModMultipleAdd(q * y, p, r * y);
  }

  lemma ModMul(x: int, y: int, p: int)
    requires p > 0
    ensures ((x % p) * (y % p)) % p == (x * y) % p
  {
    ModMulLeft(x, y % p, p);
    ModMulLeft(y, x, p);
    assert x * (y % p) == (y % p) * x;
    assert y * x == x * y;
  }

  lemma ModAdd(x: int, y: int, p: int)
    requires p > 0
    ensures ((x % p) + (y % p)) % p == (x + y) % p
  {
    var qx, rx := x / p, x % p;
    var qy, ry := y / p, y % p;
    assert x + y == (qx + qy) * p + (rx + ry);
    ModMultipleAdd(qx + qy, p, rx + ry);
  }

  lemma ModSmall(x: int, p: int)
    requires 0 <= x < p
    ensures x % p == x
  {
    ModUnique(x, p, 0, x);
  }

  // ---------------------------------------------------------------------
  // Euclid's lemma

  lemma {:induction false} EuclidPositive(p: nat, a: int, b: int)
    requires IsPrime(p) && 0 < a < p && (a * b) % p == 0
    ensures b % p == 0
    decreases a
  {
    if a == 1 {
      assert a * b == b;
    } else {
      var q, r := p / a, p % a;
      assert p == q * a + r;
      var k := (a * b) / p;
      assert a * b == k * p;
      assert r * b == p * b - q * (a * b) by {
        assert r * b == (p - q * a) * b;
      }
      assert r * b == (b - q * k) * p by {
        assert q * (a * b) == (q * k) * p;
      }
      ModOfMultiple(b - q * k, p);
      if r == 0 {
        assert false;
      } else {
        EuclidPositive(p, r, b);
      }
    }
  }

  /** If a prime divides a product it divides one of the factors. */
  lemma Euclid(p: nat, a: int, b: int)
    requires IsPrime(p) && (a * b) % p == 0
    ensures a % p == 0 || b % p == 0
  {
    var r := a % p;
    if r != 0 {
      ModMulLeft(a, b, p);
      EuclidPositive(p, r, b);
    }
  }

  // ---------------------------------------------------------------------
  // Fermat's little theorem

  lemma {:induction false} ProdIotaNonZero(p: nat, n: nat)
    requires IsPrime(p) && n < p
    ensures Prod(Iota(n)) % p != 0
  {
    if n == 0 {
      ModSmall(1, p);
    } else {
      var s := Iota(n);
      assert s[..n - 1] == Iota(n - 1);
      ProdIotaNonZero(p, n - 1);
      if Prod(s) % p == 0 {
        Euclid(p, Prod(Iota(n - 1)), n);
        ModSmall(n, p);
        assert false;
      }
    }
  }

  /** Multiples a*1, a*2, ..., a*k reduced modulo p. */
  function Multiples(a: int, p: nat, k: nat): (r: seq<int>)
    requires p > 0
    ensures |r| == k
    ensures forall i :: 0 <= i < k ==> r[i] == (a * (i + 1)) % p
  {
    if k == 0 then [] else Multiples(a, p, k - 1) + [(a * k) % p]
  }

  /** Congruent left factors give congruent products. */
  lemma ModMulCongr(x: int, x': int, y: int, p: nat)
    requires p > 0 && x % p == x' % p
    ensures (x * y) % p == (x' * y) % p
  {
    ModMulLeft(x, y, p);
    ModMulLeft(x', y, p);
  }

  lemma MulRearrange(a: int, k: int, e: int, w: int)
    ensures (a * k) * (e * w) == (a * e) * (w * k)
  {
  }

  lemma {:induction false} ProdMultiples(a: int, p: nat, k: nat)
    requires p > 0
    ensures Prod(Multiples(a, p, k)) % p == (Pow(a, k) * Prod(Iota(k))) % p
  {
    if k > 0 {
      var pm, pi, e := Prod(Multiples(a, p, k - 1)), Prod(Iota(k - 1)), Pow(a, k - 1);
      var c := (a * k) % p;
      assert Prod(Multiples(a, p, k)) == pm * c by {
        assert Multiples(a, p, k) == Multiples(a, p, k - 1) + [c];
        ProdSnoc(Multiples(a, p, k - 1), c);
      }
      assert Prod(Iota(k)) == pi * k by {
        ProdSnoc(Iota(k - 1), k);
      }
      assert pm * c == c * pm;
      ModMulLeft(a * k, pm, p);
      ProdMultiples(a, p, k - 1);
      assert pm % p == (e * pi) % p;
      assert pm * (a * k) == (a * k) * pm;
      assert (e * pi) * (a * k) == (a * k) * (e * pi);
      ModMulCongr(pm, e * pi, a * k, p);
      MulRearrange(a, k, e, pi);
    }
  }

  ghost predicate Distinct(s: seq<int>) {
    forall i, j :: 0 <= i < j < |s| ==> s[i] != s[j]
  }

  function RemoveAt(s: seq<int>, i: nat): (r: seq<int>)
    requires i < |s|
    ensures |r| == |s| - 1
    ensures forall k :: 0 <= k < i ==> r[k] == s[k]
    ensures forall k :: i <= k < |r| ==> r[k] == s[k + 1]
    ensures multiset(s) == multiset(r) + multiset{s[i]}
  {
    assert s == s[..i] + [s[i]] + s[i + 1..];
    s[..i] + s[i + 1..]
  }

  lemma FirstInRange(s: seq<int>, m: int)
    requires |s| > 0
    requires forall i :: 0 <= i < |s| ==> 1 <= s[i] <= m
    ensures 1 <= s[0] <= m
  {
  }

  /** Taking the largest value m out of a distinct sequence over 1..m
      leaves a distinct sequence over 1..m-1. */
  lemma RemoveTop(s: seq<int>, m: nat, i: nat)
    requires Distinct(s) && i < |s| && s[i] == m
    requires forall k :: 0 <= k < |s| ==> 1 <= s[k] <= m
    ensures Distinct(RemoveAt(s, i))
    ensures forall k :: 0 <= k < |s| - 1 ==> 1 <= RemoveAt(s, i)[k] <= m - 1
  {
    var t := RemoveAt(s, i);
    forall k | 0 <= k < |t| ensures 1 <= t[k] <= m - 1 {
      var k' := if k < i then k else k + 1;
      assert t[k] == s[k'] && k' != i;
    }
    forall a, b | 0 <= a < b < |t| ensures t[a] != t[b] {
      var a' := if a < i then a else a + 1;
      var b' := if b < i then b else b + 1;
      assert t[a] == s[a'] && t[b] == s[b'];
    }
  }

  /** A distinct sequence over 1..m has at most m elements. */
  lemma {:induction false} Pigeonhole(s: seq<int>, m: nat)
    requires Distinct(s)
    requires forall i :: 0 <= i < |s| ==> 1 <= s[i] <= m
    ensures |s| <= m
  {
    if m == 0 {
      if |s| > 0 {
        FirstInRange(s, m);
        assert false;
      }
    } else if i :| 0 <= i < |s| && s[i] == m {
      var t := RemoveAt(s, i);
      RemoveTop(s, m, i);
      Pigeonhole(t, m - 1);
    } else {
      Pigeonhole(s, m - 1);
    }
  }

  /** A distinct sequence of m > 0 elements over 1..m contains m. */
  lemma FindTop(s: seq<int>, m: nat) returns (i: nat)
    requires Distinct(s) && |s| == m > 0
    requires forall k :: 0 <= k < |s| ==> 1 <= s[k] <= m
    ensures i < |s| && s[i] == m
  {
    if !(exists k :: 0 <= k < |s| && s[k] == m) {
      Pigeonhole(s, m - 1);
      assert false;
    }
    i :| 0 <= i < |s| && s[i] == m;
  }

  /** A distinct sequence of m elements over 1..m is a rearrangement of 1..m. */
  lemma {:induction false} FullRange(s: seq<int>, m: nat)
    requires Distinct(s) && |s| == m
    requires forall i :: 0 <= i < |s| ==> 1 <= s[i] <= m
    ensures multiset(s) == multiset(Iota(m))
  {
    if m > 0 {
      var i := FindTop(s, m);
      var t := RemoveAt(s, i);
      RemoveTop(s, m, i);
      FullRange(t, m - 1);
      assert Iota(m) == Iota(m - 1) + [m];
    }
  }

  lemma {:induction false} ProdAppend(s: seq<int>, t: seq<int>)
    ensures Prod(s + t) == Prod(s) * Prod(t)
    decreases |t|
  {
    if t == [] {
      assert s + t == s;
    } else {
      var t' := t[..|t| - 1];
      assert (s + t)[..|s + t| - 1] == s + t';
      ProdAppend(s, t');
      var a, b, c := Prod(s), Prod(t'), t[|t| - 1];
      assert (a * b) * c == a * (b * c);
    }
  }

  lemma ProdSingle(x: int)
    ensures Prod([x]) == x
  {
    assert [x][..0] == [];
  }

  lemma MulRotate(a: int, x: int, b: int)
    ensures (a * x) * b == (a * b) * x
  {
  }

  lemma ProdSnoc(l: seq<int>, x: int)
    ensures Prod(l + [x]) == Prod(l) * x
  {
    assert (l + [x])[..|l|] == l;
  }

  lemma ProdRemoveAt(t: seq<int>, i: nat)
    requires i < |t|
    ensures Prod(t) == Prod(RemoveAt(t, i)) * t[i]
  {
    ProdAround(t, i);
    ProdWithout(t, i);
    MulRotate(Prod(t[..i]), t[i], Prod(t[i + 1..]));
  }

  lemma ProdAround(t: seq<int>, i: nat)
    requires i < |t|
    ensures Prod(t) == (Prod(t[..i]) * t[i]) * Prod(t[i + 1..])
  {
    var l, x, r := t[..i], t[i], t[i + 1..];
    assert t == (l + [x]) + r;
    ProdAppend(l + [x], r);
    ProdSnoc(l, x);
  }

  lemma ProdWithout(t: seq<int>, i: nat)
    requires i < |t|
    ensures Prod(RemoveAt(t, i)) == Prod(t[..i]) * Prod(t[i + 1..])
  {
    assert RemoveAt(t, i) == t[..i] + t[i + 1..];
    ProdAppend(t[..i], t[i + 1..]);
  }

  /** Rearranging the factors does not change the product. */
  lemma {:induction false} ProdPermutation(s: seq<int>, t: seq<int>)
    requires multiset(s) == multiset(t)
    ensures Prod(s) == Prod(t)
    decreases |s|
  {
    if s == [] {
      assert |t| == |multiset(t)| == 0;
    } else {
      var x := s[|s| - 1];
      var s' := s[..|s| - 1];
      assert s == s' + [x];
      assert x in multiset(t);
      var i :| 0 <= i < |t| && t[i] == x;
      var t' := RemoveAt(t, i);
      ProdRemoveAt(t, i);
      assert multiset(s) == multiset(s') + multiset{x};
      assert multiset(s') == multiset(s) - multiset{x};
      assert multiset(t') == multiset(t) - multiset{x};
      ProdPermutation(s', t');
    }
  }

  lemma MultiplesInRange(p: nat, a: int, n: nat)
    requires IsPrime(p) && a % p != 0 && n < p
    ensures forall i :: 0 <= i < n ==> 1 <= Multiples(a, p, n)[i] <= p - 1
  {
    var m := Multiples(a, p, n);
    forall i | 0 <= i < n ensures 1 <= m[i] <= p - 1 {
      assert m[i] == (a * (i + 1)) % p;
      assert 0 <= m[i] < p;
      if m[i] == 0 {
        Euclid(p, a, i + 1);
        ModSmall(i + 1, p);
        assert false;
      }
    }
  }

  lemma MultiplesDistinct(p: nat, a: int, n: nat)
    requires IsPrime(p) && a % p != 0 && n < p
    ensures Distinct(Multiples(a, p, n))
  {
    var m := Multiples(a, p, n);
    forall i, j | 0 <= i < j < n ensures m[i] != m[j] {
      if m[i] == m[j] {
        var x, y := a * (i + 1), a * (j + 1);
        var qi, qj := x / p, y / p;
        assert x == qi * p + m[i] && y == qj * p + m[j];
        assert a * (j - i) == y - x;
        assert a * (j - i) == (qj - qi) * p;
        ModOfMultiple(qj - qi, p);
        Euclid(p, a, j - i);
        ModSmall(j - i, p);
      }
    }
  }

  /** p divides (x - 1) * w whenever x * w and w agree modulo p. */
  lemma ModCancelStep(x: int, w: int, p: nat)
    requires p > 0 && (x * w) % p == w % p
    ensures ((x - 1) * w) % p == 0
  {
    var q1, q2 := (x * w) / p, w / p;
    assert x * w == q1 * p + (x * w) % p;
    assert w == q2 * p + w % p;
    assert (x - 1) * w == x * w - w;
    assert (x - 1) * w == (q1 - q2) * p;
    ModOfMultiple(q1 - q2, p);
  }

  /** Fermat's little theorem. */
  lemma Fermat(p: nat, a: int)
    requires IsPrime(p) && a % p != 0
    ensures Pow(a, p - 1) % p == 1
  {
    var n := p - 1;
    var w, x := Prod(Iota(n)), Pow(a, n);
    assert (x * w) % p == w % p by {
      var m := Multiples(a, p, n);
      MultiplesInRange(p, a, n);
      MultiplesDistinct(p, a, n);
      FullRange(m, n);
      ProdPermutation(m, Iota(n));
      ProdMultiples(a, p, n);
    }
    assert (x - 1) % p == 0 by {
      ProdIotaNonZero(p, n);
      ModCancelStep(x, w, p);
      Euclid(p, x - 1, w);
    }
    var q := (x - 1) / p;
    assert x == q * p + 1;
    ModUnique(x, p, q, 1);
  }
}
