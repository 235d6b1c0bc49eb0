/** Bits of the `u64` words an F2 matrix is packed into. Each lemma here
    is one fact about one word, so that the solver sees one bit-vector
    question at a time. */
module F2Bits {
  /** Word-sized bit position k (a shift amount of 0 to 63). */
  function BitIndex(k: nat): (s: bv64)
    requires k < 64
    ensures s as int == k && s < 64
  {
    if k == 0 then 0 else BitIndex(k - 1) + 1
  }

  /** Bit s of w, that is `(w >> s) & 1`, as an F2 value. */
  function WordBit(w: bv64, s: bv64): (b: bv8)
    requires s < 64
    ensures b == 0 || b == 1
  {
    if w & (1 << s) == 0 then 0 else 1
  }

  /** Clearing bit s and or-ing in b there makes bit s equal to b ... */
  lemma SetSame(w: bv64, s: bv64, b: bv8)
    requires s < 64 && b <= 1
    ensures WordBit((w & !(1 << s)) | ((b as bv64) << s), s) == b
  {
  }

  /** ... and leaves every other bit. */
  lemma SetOther(w: bv64, s: bv64, t: bv64, b: bv8)
    requires s < 64 && t < 64 && s != t && b <= 1
    ensures WordBit((w & !(1 << s)) | ((b as bv64) << s), t) == WordBit(w, t)
  {
  }

  /** Xor-ing b in at bit s leaves every other bit ... */
  lemma FlipOther(w: bv64, s: bv64, t: bv64, b: bv8)
    requires s < 64 && t < 64 && s != t && b <= 1
    ensures WordBit(w ^ ((b as bv64) << s), t) == WordBit(w, t)
  {
  }

  lemma FlipSameZero(w: bv64, s: bv64)
    requires s < 64
    ensures WordBit(w ^ (((0 as bv8) as bv64) << s), s) == WordBit(w, s)
  {
  }

  lemma FlipSameOne(w: bv64, s: bv64)
    requires s < 64
    ensures WordBit(w ^ (((1 as bv8) as bv64) << s), s) == 1 - WordBit(w, s)
  {
  }

  /** ... and flips bit s when b is one. */
  lemma FlipSameCases(w: bv64, s: bv64, b: bv8)
    requires s < 64 && b <= 1
    ensures WordBit(w ^ ((b as bv64) << s), s) == if b == 0 then WordBit(w, s) else 1 - WordBit(w, s)
  {
    if b == 0 {
      FlipSameZero(w, s);
    } else {
      assert b == 1;
      FlipSameOne(w, s);
    }
  }

  /** ... that is, xors b into bit s. */
  lemma FlipSame(w: bv64, s: bv64, b: bv8)
    requires s < 64 && b <= 1
    ensures WordBit(w ^ ((b as bv64) << s), s) == WordBit(w, s) ^ b
  {
    FlipSameCases(w, s, b);
    var a := WordBit(w, s);
    assert (if b == 0 then a else 1 - a) == a ^ b;
  }

  /** The word of `set_element`: bit s cleared, then `el` or-ed in. */
  function SetBit(w: bv64, s: bv64, el: bv8): bv64
    requires s < 64 && el <= 1
  {
    (w & !(1 << s)) | ((el as bv64) << s)
  }

  /** The word of `add_at`: r xor-ed in at bit s. */
  function FlipBit(w: bv64, s: bv64, r: bv8): bv64
    requires s < 64 && r <= 1
  {
    w ^ ((r as bv64) << s)
  }

  /** `set_element` on a word makes bit s equal to el ... */
  lemma SetBitSame(w: bv64, s: bv64, el: bv8)
    requires s < 64 && el <= 1
    ensures WordBit(SetBit(w, s, el), s) == el
  {
    SetSame(w, s, el);
  }

  /** ... and keeps every other bit. */
  lemma SetBitOther(w: bv64, s: bv64, t: bv64, el: bv8)
    requires s < 64 && t < 64 && s != t && el <= 1
    ensures WordBit(SetBit(w, s, el), t) == WordBit(w, t)
  {
    SetOther(w, s, t, el);
  }

  /** `add_at` on a word adds r to bit s ... */
  lemma FlipBitSame(w: bv64, s: bv64, r: bv8)
    requires s < 64 && r <= 1
    ensures WordBit(FlipBit(w, s, r), s) == WordBit(w, s) ^ r
  {
    FlipSame(w, s, r);
  }

  /** ... and keeps every other bit. */
  lemma FlipBitOther(w: bv64, s: bv64, t: bv64, r: bv8)
    requires s < 64 && t < 64 && s != t && r <= 1
    ensures WordBit(FlipBit(w, s, r), t) == WordBit(w, t)
  {
    FlipOther(w, s, t, r);
  }

  lemma OrSame(w: bv64, s: bv64)
    requires s < 64
    ensures WordBit(w | (1 << s), s) == 1
  {
  }

  lemma OrOther(w: bv64, s: bv64, t: bv64)
    requires s < 64 && t < 64 && s != t
    ensures WordBit(w | (1 << s), t) == WordBit(w, t)
  {
  }

  /** The word of `block_sum`'s second phase: bit s or-ed in. */
  function SetOne(w: bv64, s: bv64): bv64
    requires s < 64
  {
    w | (1 << s)
  }

  /** Or-ing in bit s makes bit s one ... */
  lemma SetOneSame(w: bv64, s: bv64)
    requires s < 64
    ensures WordBit(SetOne(w, s), s) == 1
  {
    OrSame(w, s);
  }

  /** ... and keeps every other bit. */
  lemma SetOneOther(w: bv64, s: bv64, t: bv64)
    requires s < 64 && t < 64 && s != t
    ensures WordBit(SetOne(w, s), t) == WordBit(w, t)
  {
    OrOther(w, s, t);
  }

  /** Xor-ing words xors their bits. */
  lemma XorBit(w: bv64, v: bv64, t: bv64)
    requires t < 64
    ensures WordBit(w ^ v, t) == WordBit(w, t) ^ WordBit(v, t)
  {
  }

  /** The zero word has no bit set. */
  lemma ZeroWordBit(t: bv64)
    requires t < 64
    ensures WordBit(0, t) == 0
  {
  }
}

/** `F2Matrix` of crates/algebra/src/matrices/f2_matrix.rs: a matrix over F2
    packed 64 entries to a `u64` word. Each row takes ⌈domain / 64⌉ words,
    entry (x, y) is bit x mod 64 of word y·⌈domain / 64⌉ + x / 64, and the
    bits of the last word of a row beyond the domain stay zero. */
module F2Matrices {
  import opened Rings
  import opened Mats
  import opened FiniteFields
  import opened F2Bits

  // ---------------------------------------------------------------------
  // The layout

  /** `(domain + 63) >> 6`: the words a row takes. */
  function WordsPerRow(d: nat): (w: nat)
    ensures d <= 64 * w < d + 64
  {
    (d + 63) / 64
  }

  /** The word holding bit position x of row y. */
  function WordOf(d: nat, x: nat, y: nat): nat {
    y * WordsPerRow(d) + x / 64
  }

  /** Bit positions of a row, padding included, fall inside its words, and
      the words of the rows before c are the first c · words-per-row words. */
  lemma WordOfBounds(d: nat, c: nat, x: nat, y: nat)
    requires x < 64 * WordsPerRow(d) && y < c
    ensures x / 64 < WordsPerRow(d)
    ensures y * WordsPerRow(d) <= WordOf(d, x, y) < (y + 1) * WordsPerRow(d) <= WordsPerRow(d) * c
  {
    var w := WordsPerRow(d);
    assert x / 64 < w;
    assert (y + 1) * w == y * w + w;
    MulMono(y + 1, c, w);
  }

  lemma MulMono(a: nat, b: nat, w: nat)
    requires a <= b
    ensures a * w <= w * b
  {
    assert b * w == a * w + (b - a) * w;
  }

  /** Two bit positions share a word only within one row and one block of
      64, and then they have different shifts unless they are equal. */
  lemma WordOfSame(d: nat, x1: nat, y1: nat, x2: nat, y2: nat)
    requires x1 < 64 * WordsPerRow(d) && x2 < 64 * WordsPerRow(d)
    requires WordOf(d, x1, y1) == WordOf(d, x2, y2)
    ensures y1 == y2 && x1 / 64 == x2 / 64
    ensures x1 != x2 ==> BitIndex(x1 % 64) != BitIndex(x2 % 64)
  {
    var w := WordsPerRow(d);
    if y1 < y2 {
      WordOfBounds(d, y2 + 1, x1, y1);
      MulMono(y1 + 1, y2, w);
      WordOfBounds(d, y2 + 1, x2, y2);
    } else if y2 < y1 {
      WordOfBounds(d, y1 + 1, x2, y2);
      MulMono(y2 + 1, y1, w);
      WordOfBounds(d, y1 + 1, x1, y1);
    }
  }

  /** Bit position x (a column, or padding) of row y in packed words. */
  function Slot(data: seq<bv64>, d: nat, c: nat, x: nat, y: nat): (b: bv8)
    requires |data| == WordsPerRow(d) * c && x < 64 * WordsPerRow(d) && y < c
    ensures b == 0 || b == 1
  {
    WordOfBounds(d, c, x, y);
    WordBit(data[WordOf(d, x, y)], BitIndex(x % 64))
  }

  /** The matrix packed words hold. */
  function Unpack(data: seq<bv64>, d: nat, c: nat): (m: Mat<bv8>)
    requires |data| == WordsPerRow(d) * c
    ensures Shaped(m) && m.domain == d && m.codomain == c
    ensures forall x, y :: 0 <= x < d && 0 <= y < c ==> At(m, x, y) == Slot(data, d, c, x, y)
  {
    Mat(d, c, seq(c, y requires 0 <= y < c => seq(d, x requires 0 <= x < d => Slot(data, d, c, x, y))))
  }

  /** The bits of each row beyond the domain are zero. */
  ghost predicate PaddingClear(data: seq<bv64>, d: nat, c: nat)
    requires |data| == WordsPerRow(d) * c
  {
    forall x, y :: d <= x < 64 * WordsPerRow(d) && 0 <= y < c ==> Slot(data, d, c, x, y) == 0
  }

  /** Writing one word changes the bit positions of that word only. */
  lemma SlotAfterWrite(data: seq<bv64>, d: nat, c: nat, i: nat, v: bv64, x: nat, y: nat)
    requires |data| == WordsPerRow(d) * c && i < |data| && x < 64 * WordsPerRow(d) && y < c
    ensures Slot(data[i := v], d, c, x, y) == if WordOf(d, x, y) == i then WordBit(v, BitIndex(x % 64)) else Slot(data, d, c, x, y)
  {
    var k := WordOf(d, x, y);
    WordOfBounds(d, c, x, y);
    var s := BitIndex(x % 64);
    assert Slot(data[i := v], d, c, x, y) == WordBit(data[i := v][k], s);
    assert Slot(data, d, c, x, y) == WordBit(data[k], s);
    if k == i {
      assert data[i := v][k] == v;
    } else {
      assert data[i := v][k] == data[k];
    }
  }

  /** The words of a matrix with ca rows followed by those of one with cb
      rows, both of domain d, are the words of the stacked matrix. */
  lemma SlotConcat(a: seq<bv64>, b: seq<bv64>, d: nat, ca: nat, cb: nat, x: nat, y: nat)
    requires |a| == WordsPerRow(d) * ca && |b| == WordsPerRow(d) * cb
    requires x < 64 * WordsPerRow(d) && y < ca + cb
    ensures |a + b| == WordsPerRow(d) * (ca + cb)
    ensures Slot(a + b, d, ca + cb, x, y) == if y < ca then Slot(a, d, ca, x, y) else Slot(b, d, cb, x, y - ca)
  {
    var w := WordsPerRow(d);
    assert w * (ca + cb) == w * ca + w * cb;
    WordOfBounds(d, ca + cb, x, y);
    var k := WordOf(d, x, y);
    var s := BitIndex(x % 64);
    assert Slot(a + b, d, ca + cb, x, y) == WordBit((a + b)[k], s);
    if y < ca {
      WordOfBounds(d, ca, x, y);
      assert (a + b)[k] == a[k];
    } else {
      WordOfBounds(d, cb, x, y - ca);
      assert y * w == ca * w + (y - ca) * w;
      assert k == |a| + WordOf(d, x, y - ca);
      assert (a + b)[k] == b[WordOf(d, x, y - ca)];
    }
  }

  /** Words-per-row zero words are one zero row. */
  lemma SlotZeroRow(d: nat, x: nat)
    requires x < 64 * WordsPerRow(d)
    ensures |seq(WordsPerRow(d), _ => 0 as bv64)| == WordsPerRow(d) * 1
    ensures Slot(seq(WordsPerRow(d), _ => 0 as bv64), d, 1, x, 0) == 0
  {
    WordOfBounds(d, 1, x, 0);
    ZeroWordBit(BitIndex(x % 64));
  }

  /** Stacking keeps the padding clear. */
  lemma StackedWords(a: seq<bv64>, b: seq<bv64>, d: nat, ca: nat, cb: nat)
    requires |a| == WordsPerRow(d) * ca && |b| == WordsPerRow(d) * cb
    requires PaddingClear(a, d, ca)
    requires PaddingClear(b, d, cb)
    ensures |a + b| == WordsPerRow(d) * (ca + cb) && PaddingClear(a + b, d, ca + cb)
  {
    assert WordsPerRow(d) * (ca + cb) == WordsPerRow(d) * ca + WordsPerRow(d) * cb;
    var ab, c := a + b, ca + cb;
    forall x, y | d <= x < 64 * WordsPerRow(d) && 0 <= y < c ensures Slot(ab, d, c, x, y) == 0 {
      SlotConcat(a, b, d, ca, cb, x, y);
    }
  }

  /** Stacked words hold the stacked matrix. */
  lemma UnpackStacked(a: seq<bv64>, b: seq<bv64>, d: nat, ca: nat, cb: nat)
    requires |a| == WordsPerRow(d) * ca && |b| == WordsPerRow(d) * cb
    requires PaddingClear(a, d, ca) && PaddingClear(b, d, cb)
    ensures |a + b| == WordsPerRow(d) * (ca + cb) && PaddingClear(a + b, d, ca + cb)
    ensures Unpack(a + b, d, ca + cb) == Mats.VStack(Unpack(a, d, ca), Unpack(b, d, cb))
  {
    StackedWords(a, b, d, ca, cb);
    var ab, c := a + b, ca + cb;
    var ma, mb := Unpack(a, d, ca), Unpack(b, d, cb);
    forall x, y | 0 <= x < d && 0 <= y < c
      ensures At(Unpack(ab, d, c), x, y) == At(Mats.VStack(ma, mb), x, y)
    {
      SlotConcat(a, b, d, ca, cb, x, y);
      VStackEntries(ma, mb, x, y);
    }
    Extensionality(Unpack(ab, d, c), Mats.VStack(ma, mb));
  }

  /** Words-per-row zero words hold one zero row, and stacking it is
      `extend_one_row`. */
  lemma UnpackZeroRow(m: Mat<bv8>)
    requires Shaped(m)
    ensures var z := seq(WordsPerRow(m.domain), _ => 0 as bv64);
            |z| == WordsPerRow(m.domain) * 1 && PaddingClear(z, m.domain, 1) &&
            Mats.VStack(m, Unpack(z, m.domain, 1)) == Mats.ExtendOneRow(F2Ring(), m)
  {
    var d := m.domain;
    var z := seq(WordsPerRow(d), _ => 0 as bv64);
    forall x, y | 0 <= x < 64 * WordsPerRow(d) && 0 <= y < 1 ensures Slot(z, d, 1, x, y) == 0 {
      SlotZeroRow(d, x);
    }
    var e := Mats.ExtendOneRow(F2Ring(), m);
    forall x, y | 0 <= x < d && 0 <= y < m.codomain + 1
      ensures At(Mats.VStack(m, Unpack(z, d, 1)), x, y) == At(e, x, y)
    {
      VStackEntries(m, Unpack(z, d, 1), x, y);
    }
    Extensionality(Mats.VStack(m, Unpack(z, d, 1)), e);
  }

  /** Writing a word that differs from the old one at the bit of (x, y)
      changes that bit position only ... */
  lemma WriteWordSlots(data: seq<bv64>, d: nat, c: nat, x: nat, y: nat, idx: nat, v: bv64)
    requires |data| == WordsPerRow(d) * c && x < d && y < c
    requires idx == WordOf(d, x, y) < |data| && AgreesElsewhere(d, c, x, y, data[idx], v)
    ensures forall x', y' :: 0 <= x' < 64 * WordsPerRow(d) && 0 <= y' < c ==>
              Slot(data[idx := v], d, c, x', y') == if (x', y') == (x, y) then WordBit(v, BitIndex(x % 64)) else Slot(data, d, c, x', y')
  {
    forall x', y' | 0 <= x' < 64 * WordsPerRow(d) && 0 <= y' < c
      ensures Slot(data[idx := v], d, c, x', y') == if (x', y') == (x, y) then WordBit(v, BitIndex(x % 64)) else Slot(data, d, c, x', y')
    {
      SlotAfterWrite(data, d, c, idx, v, x', y');
    }
  }

  /** ... so it changes entry (x, y) only and keeps the padding clear. */
  lemma WriteWord(data: seq<bv64>, d: nat, c: nat, x: nat, y: nat, idx: nat, v: bv64)
    requires |data| == WordsPerRow(d) * c && PaddingClear(data, d, c) && x < d && y < c
    requires idx == WordOf(d, x, y) < |data| && AgreesElsewhere(d, c, x, y, data[idx], v)
    ensures PaddingClear(data[idx := v], d, c)
    ensures Unpack(data[idx := v], d, c) == SetAt(Unpack(data, d, c), x, y, WordBit(v, BitIndex(x % 64)))
  {
    WriteWordSlots(data, d, c, x, y, idx, v);
    var data' := data[idx := v];
    forall x', y' | d <= x' < 64 * WordsPerRow(d) && 0 <= y' < c ensures Slot(data', d, c, x', y') == 0 {
      assert Slot(data', d, c, x', y') == Slot(data, d, c, x', y');
    }
    var m, b := Unpack(data, d, c), WordBit(v, BitIndex(x % 64));
    var m' := Unpack(data', d, c);
    forall x', y' | 0 <= x' < d && 0 <= y' < c ensures At(m', x', y') == At(SetAt(m, x, y, b), x', y') {
      GetAfterSet(m, x, y, b, x', y');
    }
    Extensionality(m', SetAt(m, x, y, b));
  }

  /** Or-ing in the bit of (x, y) leaves the other positions of its word. */
  lemma SetOneAgrees(d: nat, c: nat, x: nat, y: nat, w: bv64)
    requires x < d
    ensures AgreesElsewhere(d, c, x, y, w, SetOne(w, BitIndex(x % 64)))
  {
    var s := BitIndex(x % 64);
    forall x', y' | 0 <= x' < 64 * WordsPerRow(d) && 0 <= y' < c && (x', y') != (x, y) && WordOf(d, x', y') == WordOf(d, x, y)
      ensures WordBit(SetOne(w, s), BitIndex(x' % 64)) == WordBit(w, BitIndex(x' % 64))
    {
      WordOfSame(d, x', y', x, y);
      SetOneOther(w, s, BitIndex(x' % 64));
    }
  }

  /** An entry of F2: zero or one. */
  lemma F2Elems(m: Mat<bv8>)
    requires Shaped(m) && forall x, y :: 0 <= x < m.domain && 0 <= y < m.codomain ==> At(m, x, y) <= 1
    ensures Elems(F2Ring(), m)
  {
    forall y, x | 0 <= y < m.codomain && 0 <= x < m.domain ensures F2Ring().elem(m.rows[y][x]) {
      assert At(m, x, y) <= 1;
    }
  }

  /** Word v agrees with word w at the bit of every position that shares
      the word of (x, y), except (x, y) itself. */
  ghost predicate AgreesElsewhere(d: nat, c: nat, x: nat, y: nat, w: bv64, v: bv64) {
    forall x', y' :: 0 <= x' < 64 * WordsPerRow(d) && 0 <= y' < c && (x', y') != (x, y) && WordOf(d, x', y') == WordOf(d, x, y) ==>
      WordBit(v, BitIndex(x' % 64)) == WordBit(w, BitIndex(x' % 64))
  }

  /** Setting the bit of (x, y) leaves the other positions of its word. */
  lemma SetBitAgrees(d: nat, c: nat, x: nat, y: nat, w: bv64, el: bv8)
    requires x < d && el <= 1
    ensures AgreesElsewhere(d, c, x, y, w, SetBit(w, BitIndex(x % 64), el))
  {
    var s := BitIndex(x % 64);
    forall x', y' | 0 <= x' < 64 * WordsPerRow(d) && 0 <= y' < c && (x', y') != (x, y) && WordOf(d, x', y') == WordOf(d, x, y)
      ensures WordBit(SetBit(w, s, el), BitIndex(x' % 64)) == WordBit(w, BitIndex(x' % 64))
    {
      WordOfSame(d, x', y', x, y);
      SetBitOther(w, s, BitIndex(x' % 64), el);
    }
  }

  /** Xor-ing into the bit of (x, y) leaves the other positions of its word. */
  lemma XorBitAgrees(d: nat, c: nat, x: nat, y: nat, w: bv64, r: bv8)
    requires x < d && r <= 1
    ensures AgreesElsewhere(d, c, x, y, w, FlipBit(w, BitIndex(x % 64), r))
  {
    var s := BitIndex(x % 64);
    forall x', y' | 0 <= x' < 64 * WordsPerRow(d) && 0 <= y' < c && (x', y') != (x, y) && WordOf(d, x', y') == WordOf(d, x, y)
      ensures WordBit(FlipBit(w, s, r), BitIndex(x' % 64)) == WordBit(w, BitIndex(x' % 64))
    {
      WordOfSame(d, x', y', x, y);
      FlipBitOther(w, s, BitIndex(x' % 64), r);
    }
  }

  class F2Matrix {
    var data: seq<bv64>
    var domain: nat
    var codomain: nat

    ghost predicate Valid()
      reads this
    {
      |data| == WordsPerRow(domain) * codomain && PaddingClear(data, domain, codomain)
    }

    /** The matrix the words hold. */
    ghost function Value(): Mat<bv8>
      reads this
      requires Valid()
    {
      Unpack(data, domain, codomain)
    }

    /** `zero(domain, codomain)`: words-per-row · codomain zero words. */
    constructor Zero(domain: nat, codomain: nat)
      ensures Valid() && Value() == ZeroMat(F2Ring(), domain, codomain)
      ensures |data| == WordsPerRow(domain) * codomain
    {
      this.data := seq(WordsPerRow(domain) * codomain, _ => 0);
      this.domain := domain;
      this.codomain := codomain;
      new;
      forall x, y | 0 <= x < 64 * WordsPerRow(domain) && 0 <= y < codomain ensures Slot(data, domain, codomain, x, y) == 0 {
        WordOfBounds(domain, codomain, x, y);
        ZeroWordBit(BitIndex(x % 64));
      }
      Extensionality(Value(), ZeroMat(F2Ring(), domain, codomain));
    }

    /** `clone`: a fresh matrix with the same words. */
    method Clone() returns (c: F2Matrix)
      requires Valid()
      ensures fresh(c) && c.Valid() && c.domain == domain && c.codomain == codomain && c.Value() == Value()
    {
      c := new F2Matrix.Zero(0, 0);
      c.data, c.domain, c.codomain := data, domain, codomain;
    }

    /** `index(x, y)`: the word and the shift of entry (x, y); that bit of
        that word is the entry. */
    function Index(x: nat, y: nat): (r: (nat, bv64))
      reads this
      requires Valid() && x < domain && y < codomain
      ensures r.0 < |data| && r.1 < 64 && WordBit(data[r.0], r.1) == At(Value(), x, y)
    {
      WordOfBounds(domain, codomain, x, y);
      (y * WordsPerRow(domain) + x / 64, BitIndex(x % 64))
    }

    /** `get_element(x, y)`. */
    function GetElement(x: nat, y: nat): (r: bv8)
      reads this
      requires Valid() && x < domain && y < codomain
      ensures r == At(Value(), x, y)
    {
      var (idx, shift) := Index(x, y);
      WordBit(data[idx], shift)
    }

    /** `set_element(x, y, el)`: clear the bit, then or `el` into it. */
    method SetElement(x: nat, y: nat, el: bv8)
      requires Valid() && x < domain && y < codomain && el <= 1
      modifies this
      ensures Valid() && domain == old(domain) && codomain == old(codomain)
      ensures Value() == SetAt(old(Value()), x, y, el)
    {
      var (idx, shift) := Index(x, y);
      var v := SetBit(data[idx], shift, el);
      SetBitAgrees(domain, codomain, x, y, data[idx], el);
      SetBitSame(data[idx], shift, el);
      WriteBit(x, y, idx, shift, v);
    }

    /** Replace the word holding entry (x, y) by v, where v agrees with the
        old word at every bit but entry (x, y)'s. */
    method WriteBit(x: nat, y: nat, idx: nat, shift: bv64, v: bv64)
      requires Valid() && x < domain && y < codomain && (idx, shift) == Index(x, y)
      requires AgreesElsewhere(domain, codomain, x, y, data[idx], v)
      modifies this
      ensures Valid() && domain == old(domain) && codomain == old(codomain)
      ensures Value() == SetAt(old(Value()), x, y, WordBit(v, shift))
    {
      WriteWord(data, domain, codomain, x, y, idx, v);
      data := data[idx := v];
    }

    /** `add_at(x, y, r)`: xor r into the bit of entry (x, y). */
    method AddAt(x: nat, y: nat, r: bv8)
      requires Valid() && x < domain && y < codomain && r <= 1
      modifies this
      ensures Valid() && domain == old(domain) && codomain == old(codomain)
      ensures Value() == SetAt(old(Value()), x, y, F2Add(At(old(Value()), x, y), r))
    {
      var (idx, shift) := Index(x, y);
      var v := FlipBit(data[idx], shift, r);
      XorBitAgrees(domain, codomain, x, y, data[idx], r);
      FlipBitSame(data[idx], shift, r);
      WriteBit(x, y, idx, shift, v);
    }

    /** `extend_one_row`: push words-per-row zero words, one more row. */
    method ExtendOneRow()
      requires Valid()
      modifies this
      ensures Valid() && Value() == Mats.ExtendOneRow(F2Ring(), old(Value()))
    {
      ghost var d0, m0 := data, Value();
      var wordsPerRow := (domain + 63) / 64;
      var i := 0;
      while i < wordsPerRow
        invariant 0 <= i <= wordsPerRow && data == d0 + seq(i, _ => 0 as bv64)
        invariant domain == old(domain) && codomain == old(codomain)
      {
        data := data + [0];
        i := i + 1;
      }
      codomain := codomain + 1;
      UnpackZeroRow(m0);
      UnpackStacked(d0, seq(wordsPerRow, _ => 0 as bv64), domain, codomain - 1, 1);
    }

    /** `vstack`: the domains must agree; other's words go after ours. */
    method VStack(other: F2Matrix)
      requires Valid() && other.Valid() && other != this && domain == other.domain
      modifies this
      ensures Valid() && Value() == Mats.VStack(old(Value()), other.Value())
    {
      ghost var d0 := data;
      data := data + other.data;
      codomain := codomain + other.codomain;
      UnpackStacked(d0, other.data, domain, old(codomain), other.codomain);
    }

    /** `block_sum`: self in the top-left corner, other from (old domain,
        old codomain) on, zero elsewhere. */
    method BlockSum(other: F2Matrix)
      requires Valid() && other.Valid() && other != this
      modifies this
      ensures Valid() && Value() == Mats.BlockSum(F2Ring(), old(Value()), other.Value())
    {
      ghost var a := Value();
      var newDomain := domain + other.domain;
      var newCodomain := codomain + other.codomain;
      var newData := CopyWords(data, domain, codomain, newDomain, newCodomain);
      CopiedSlots(newData, data, other.Value(), domain, codomain);
      newData := PlaceOther(newData, other, domain, codomain, a);
      PlacedDone(newData, a, other.Value());
      data := newData;
      domain := newDomain;
      codomain := newCodomain;
    }

    /** `transpose`: a fresh codomain × domain matrix, entry (j, i) set to
        entry (i, j), filled row by row. */
    method Transpose() returns (result: F2Matrix)
      requires Valid()
      ensures fresh(result) && result.Valid() && result.Value() == Mats.Transpose(Value())
    {
      result := new F2Matrix.Zero(codomain, domain);
      ghost var z, t := result.Value(), Mats.Transpose(Value());
      OverwriteEnds(z, t);
      for i := 0 to domain
        invariant result.Valid() && result.domain == codomain && result.codomain == domain
        invariant result.Value() == Overwrite(z, t, i, 0)
      {
        for j := 0 to codomain
          invariant result.Valid() && result.domain == codomain && result.codomain == domain
          invariant result.Value() == Overwrite(z, t, i, j)
        {
          OverwriteStep(z, t, i, j);
          var el := GetElement(i, j);
          result.SetElement(j, i, el);
        }
      }
    }

    /** The sum over k of rhs(i, k) · self(k, j), that is entry (i, j) of
        self ∘ rhs. */
    method ComposedEntry(rhs: F2Matrix, i: nat, j: nat) returns (sum: bv8)
      requires Valid() && rhs.Valid() && domain == rhs.codomain && i < rhs.domain && j < codomain
      ensures sum <= 1 && sum == Dot(F2Ring(), Value().rows[j], Column(rhs.Value(), i))
    {
      ghost var u, v := Value().rows[j], Column(rhs.Value(), i);
      sum := 0;
      for k := 0 to domain
        invariant sum <= 1 && sum == Dot(F2Ring(), u[..k], v[..k])
      {
        var a := rhs.GetElement(i, k);
        var b := GetElement(k, j);
        assert u[..k + 1][..k] == u[..k] && v[..k + 1][..k] == v[..k];
        sum := F2Add(sum, F2Mul(a, b));
      }
      assert u[..domain] == u && v[..domain] == v;
    }

    /** `compose`: self ∘ rhs, the domains and codomains must meet; filled
        column by column. */
    method Compose(rhs: F2Matrix) returns (result: F2Matrix)
      requires Valid() && rhs.Valid() && domain == rhs.codomain
      ensures fresh(result) && result.Valid() && result.Value() == Mats.Compose(F2Ring(), Value(), rhs.Value())
    {
      result := new F2Matrix.Zero(rhs.domain, codomain);
      ghost var z, e := result.Value(), Mats.Compose(F2Ring(), Value(), rhs.Value());
      OverwriteColsEnds(z, e);
      for i := 0 to rhs.domain
        invariant result.Valid() && result.domain == rhs.domain && result.codomain == codomain
        invariant result.Value() == OverwriteCols(z, e, i, 0)
      {
        ComposeColumn(rhs, result, i, z, e);
      }
    }

    /** Column i of self ∘ rhs, written entry by entry into result. */
    method ComposeColumn(rhs: F2Matrix, result: F2Matrix, i: nat, ghost z: Mat<bv8>, ghost e: Mat<bv8>)
      requires Valid() && rhs.Valid() && domain == rhs.codomain && i < rhs.domain
      requires result != this && result != rhs && result.Valid()
      requires result.domain == rhs.domain && result.codomain == codomain
      requires Shaped(z) && z.domain == rhs.domain && z.codomain == codomain
      requires e == Mats.Compose(F2Ring(), Value(), rhs.Value())
      requires result.Value() == OverwriteCols(z, e, i, 0)
      modifies result
      ensures result.Valid() && result.domain == rhs.domain && result.codomain == codomain
      ensures result.Value() == OverwriteCols(z, e, i + 1, 0)
    {
      for j := 0 to codomain
        invariant result.Valid() && result.domain == rhs.domain && result.codomain == codomain
        invariant result.Value() == OverwriteCols(z, e, i, j)
      {
        OverwriteColsStep(z, e, i, j);
        var sum := ComposedEntry(rhs, i, j);
        result.SetElement(i, j, sum);
      }
      OverwriteColsEnds(z, e);
    }
  }

  // ---------------------------------------------------------------------
  // block_sum, phase one: the words of self's rows copied into wider rows

  /** Word w of row r, rows of wpr words each. */
  function WordIdx(wpr: nat, w: nat, r: nat): nat {
    r * wpr + w
  }

  lemma WordIdxBounds(wpr: nat, rows: nat, w: nat, r: nat)
    requires w < wpr && r < rows
    ensures WordIdx(wpr, w, r) < wpr * rows
  {
    assert (r + 1) * wpr == r * wpr + wpr;
    MulMono(r + 1, rows, wpr);
  }

  lemma WordIdxInjective(wpr: nat, w1: nat, r1: nat, w2: nat, r2: nat)
    requires w1 < wpr && w2 < wpr && WordIdx(wpr, w1, r1) == WordIdx(wpr, w2, r2)
    ensures w1 == w2 && r1 == r2
  {
    if r1 < r2 {
      assert (r1 + 1) * wpr == r1 * wpr + wpr;
      MulMono(r1 + 1, r2, wpr);
    } else if r2 < r1 {
      assert (r2 + 1) * wpr == r2 * wpr + wpr;
      MulMono(r2 + 1, r1, wpr);
    }
  }

  /** Word w of row r of words laid out wpr to a row. */
  function WordAt(words: seq<bv64>, wpr: nat, rows: nat, w: nat, r: nat): bv64
    requires |words| == wpr * rows && w < wpr && r < rows
  {
    WordIdxBounds(wpr, rows, w, r);
    words[WordIdx(wpr, w, r)]
  }

  /** nd holds, in rows of wNew words, the words of data's rows before
      `row` and the first `word` words of row `row`; zero elsewhere. */
  ghost predicate Copied(nd: seq<bv64>, data: seq<bv64>, wOld: nat, wNew: nat, c: nat, newC: nat, row: nat, word: nat)
    requires |nd| == wNew * newC && |data| == wOld * c
  {
    forall w, r :: 0 <= w < wNew && 0 <= r < newC ==>
      WordAt(nd, wNew, newC, w, r) == if (r < row || (r == row && w < word)) && r < c && w < wOld then WordAt(data, wOld, c, w, r) else 0
  }

  /** Copying one more word. */
  lemma CopyStep(nd: seq<bv64>, data: seq<bv64>, wOld: nat, wNew: nat, c: nat, newC: nat, row: nat, word: nat)
    requires |nd| == wNew * newC && |data| == wOld * c && wOld <= wNew && c <= newC && row < c && word < wOld
    requires Copied(nd, data, wOld, wNew, c, newC, row, word)
    ensures WordIdx(wNew, word, row) < |nd| && WordIdx(wOld, word, row) < |data|
    ensures Copied(nd[WordIdx(wNew, word, row) := data[WordIdx(wOld, word, row)]], data, wOld, wNew, c, newC, row, word + 1)
  {
    WordIdxBounds(wNew, newC, word, row);
    WordIdxBounds(wOld, c, word, row);
    var k := WordIdx(wNew, word, row);
    var nd' := nd[k := data[WordIdx(wOld, word, row)]];
    forall w, r | 0 <= w < wNew && 0 <= r < newC
      ensures WordAt(nd', wNew, newC, w, r) == if (r < row || (r == row && w < word + 1)) && r < c && w < wOld then WordAt(data, wOld, c, w, r) else 0
    {
      WordIdxBounds(wNew, newC, w, r);
      if WordIdx(wNew, w, r) == k {
        WordIdxInjective(wNew, w, r, word, row);
      } else {
        assert WordAt(nd', wNew, newC, w, r) == WordAt(nd, wNew, newC, w, r);
      }
    }
  }

  /** Zero words have nothing copied yet. */
  lemma CopiedZero(data: seq<bv64>, wOld: nat, wNew: nat, c: nat, newC: nat)
    requires |data| == wOld * c
    ensures Copied(seq(wNew * newC, _ => 0), data, wOld, wNew, c, newC, 0, 0)
  {
    var nd: seq<bv64> := seq(wNew * newC, _ => 0);
    forall w, r | 0 <= w < wNew && 0 <= r < newC ensures WordAt(nd, wNew, newC, w, r) == 0 {
      WordIdxBounds(wNew, newC, w, r);
    }
  }

  /** A copied row is the start of the next. */
  lemma CopyRowDone(nd: seq<bv64>, data: seq<bv64>, wOld: nat, wNew: nat, c: nat, newC: nat, row: nat)
    requires |nd| == wNew * newC && |data| == wOld * c
    requires Copied(nd, data, wOld, wNew, c, newC, row, wOld)
    ensures Copied(nd, data, wOld, wNew, c, newC, row + 1, 0)
  {
  }

  /** `block_sum`'s first loop: zero words for the new shape, then each
      old row's words copied to the start of its new row. */
  method CopyWords(data: seq<bv64>, d: nat, c: nat, newD: nat, newC: nat) returns (nd: seq<bv64>)
    requires |data| == WordsPerRow(d) * c && d <= newD && c <= newC
    ensures |nd| == WordsPerRow(newD) * newC
    ensures Copied(nd, data, WordsPerRow(d), WordsPerRow(newD), c, newC, c, 0)
  {
    var wordsPerOldRow := (d + 63) / 64;
    var wordsPerNewRow := (newD + 63) / 64;
    nd := seq(wordsPerNewRow * newC, _ => 0);
    CopiedZero(data, wordsPerOldRow, wordsPerNewRow, c, newC);
    for row := 0 to c
      invariant |nd| == wordsPerNewRow * newC && Copied(nd, data, wordsPerOldRow, wordsPerNewRow, c, newC, row, 0)
    {
      for word := 0 to wordsPerOldRow
        invariant |nd| == wordsPerNewRow * newC && Copied(nd, data, wordsPerOldRow, wordsPerNewRow, c, newC, row, word)
      {
        CopyStep(nd, data, wordsPerOldRow, wordsPerNewRow, c, newC, row, word);
        var oldIdx := row * wordsPerOldRow + word;
        var newIdx := row * wordsPerNewRow + word;
        nd := nd[newIdx := data[oldIdx]];
      }
      CopyRowDone(nd, data, wordsPerOldRow, wordsPerNewRow, c, newC, row);
    }
  }

  // ---------------------------------------------------------------------
  // block_sum, phase two: other's one bits or-ed in at the offset

  /** Entry (x, y) of the block sum of a and b once b's entries before
      (col, row), row-major, are placed; zero outside both blocks. */
  ghost function BlockSlot(a: Mat<bv8>, b: Mat<bv8>, row: nat, col: nat, x: nat, y: nat): bv8
    requires Shaped(a) && Shaped(b)
  {
    if x < a.domain && y < a.codomain then At(a, x, y)
    else if a.domain <= x < a.domain + b.domain && a.codomain <= y < a.codomain + b.codomain &&
            (y - a.codomain < row || (y - a.codomain == row && x - a.domain < col))
    then At(b, x - a.domain, y - a.codomain)
    else 0
  }

  /** The words nd, padding included, hold that partial block sum. */
  ghost predicate Placed(nd: seq<bv64>, a: Mat<bv8>, b: Mat<bv8>, row: nat, col: nat)
    requires Shaped(a) && Shaped(b) && |nd| == WordsPerRow(a.domain + b.domain) * (a.codomain + b.codomain)
  {
    var d, c := a.domain + b.domain, a.codomain + b.codomain;
    forall x, y :: 0 <= x < 64 * WordsPerRow(d) && 0 <= y < c ==> Slot(nd, d, c, x, y) == BlockSlot(a, b, row, col, x, y)
  }

  /** After the first phase only a is placed. */
  lemma CopiedSlots(nd: seq<bv64>, data: seq<bv64>, b: Mat<bv8>, d: nat, c: nat)
    requires Shaped(b) && |data| == WordsPerRow(d) * c && PaddingClear(data, d, c)
    requires |nd| == WordsPerRow(d + b.domain) * (c + b.codomain)
    requires Copied(nd, data, WordsPerRow(d), WordsPerRow(d + b.domain), c, c + b.codomain, c, 0)
    ensures Placed(nd, Unpack(data, d, c), b, 0, 0)
  {
    var a := Unpack(data, d, c);
    var newD, newC := d + b.domain, c + b.codomain;
    forall x, y | 0 <= x < 64 * WordsPerRow(newD) && 0 <= y < newC
      ensures Slot(nd, newD, newC, x, y) == BlockSlot(a, b, 0, 0, x, y)
    {
      CopiedSlot(nd, data, b, d, c, x, y);
    }
  }

  /** One slot of `CopiedSlots`. */
  lemma CopiedSlot(nd: seq<bv64>, data: seq<bv64>, b: Mat<bv8>, d: nat, c: nat, x: nat, y: nat)
    requires Shaped(b) && |data| == WordsPerRow(d) * c && PaddingClear(data, d, c)
    requires |nd| == WordsPerRow(d + b.domain) * (c + b.codomain)
    requires Copied(nd, data, WordsPerRow(d), WordsPerRow(d + b.domain), c, c + b.codomain, c, 0)
    requires x < 64 * WordsPerRow(d + b.domain) && y < c + b.codomain
    ensures Slot(nd, d + b.domain, c + b.codomain, x, y) == BlockSlot(Unpack(data, d, c), b, 0, 0, x, y)
  {
    var newD, newC := d + b.domain, c + b.codomain;
    var wOld, wNew := WordsPerRow(d), WordsPerRow(newD);
    WordOfBounds(newD, newC, x, y);
    assert Slot(nd, newD, newC, x, y) == WordBit(WordAt(nd, wNew, newC, x / 64, y), BitIndex(x % 64));
    if y < c && x / 64 < wOld {
      WordOfBounds(d, c, x, y);
      assert Slot(nd, newD, newC, x, y) == Slot(data, d, c, x, y);
    } else {
      ZeroWordBit(BitIndex(x % 64));
    }
  }

  /** Placing a one of b is or-ing in its bit. */
  lemma PlaceStep(nd: seq<bv64>, a: Mat<bv8>, b: Mat<bv8>, row: nat, col: nat)
    requires Shaped(a) && Shaped(b) && |nd| == WordsPerRow(a.domain + b.domain) * (a.codomain + b.codomain)
    requires row < b.codomain && col < b.domain && At(b, col, row) == 1
    requires Placed(nd, a, b, row, col)
    ensures var k := WordOf(a.domain + b.domain, a.domain + col, a.codomain + row);
            k < |nd| && Placed(nd[k := SetOne(nd[k], BitIndex((a.domain + col) % 64))], a, b, row, col + 1)
  {
    var d, c := a.domain + b.domain, a.codomain + b.codomain;
    var x, y := a.domain + col, a.codomain + row;
    WordOfBounds(d, c, x, y);
    var k := WordOf(d, x, y);
    var v := SetOne(nd[k], BitIndex(x % 64));
    SetOneAgrees(d, c, x, y, nd[k]);
    SetOneSame(nd[k], BitIndex(x % 64));
    WriteWordSlots(nd, d, c, x, y, k, v);
    PlacedAfterOne(nd, nd[k := v], a, b, row, col);
  }

  /** Words that differ from a placement only by a one at the next slot of
      b place that slot too. */
  lemma PlacedAfterOne(nd: seq<bv64>, nd': seq<bv64>, a: Mat<bv8>, b: Mat<bv8>, row: nat, col: nat)
    requires Shaped(a) && Shaped(b) && |nd| == |nd'| == WordsPerRow(a.domain + b.domain) * (a.codomain + b.codomain)
    requires row < b.codomain && col < b.domain && At(b, col, row) == 1
    requires Placed(nd, a, b, row, col)
    requires forall x', y' :: 0 <= x' < 64 * WordsPerRow(a.domain + b.domain) && 0 <= y' < a.codomain + b.codomain ==>
               Slot(nd', a.domain + b.domain, a.codomain + b.codomain, x', y') ==
               if (x', y') == (a.domain + col, a.codomain + row) then 1 else Slot(nd, a.domain + b.domain, a.codomain + b.codomain, x', y')
    ensures Placed(nd', a, b, row, col + 1)
  {
    var d, c := a.domain + b.domain, a.codomain + b.codomain;
    forall x', y' | 0 <= x' < 64 * WordsPerRow(d) && 0 <= y' < c
      ensures Slot(nd', d, c, x', y') == BlockSlot(a, b, row, col + 1, x', y')
    {
      BlockSlotNext(a, b, row, col, x', y');
    }
  }

  /** Moving the placement one entry on adds exactly that entry. */
  lemma BlockSlotNext(a: Mat<bv8>, b: Mat<bv8>, row: nat, col: nat, x: nat, y: nat)
    requires Shaped(a) && Shaped(b) && row < b.codomain && col < b.domain
    ensures BlockSlot(a, b, row, col + 1, x, y) ==
            if (x, y) == (a.domain + col, a.codomain + row) then At(b, col, row) else BlockSlot(a, b, row, col, x, y)
  {
  }

  /** Placing a zero of b changes no word. */
  lemma PlaceSkip(nd: seq<bv64>, a: Mat<bv8>, b: Mat<bv8>, row: nat, col: nat)
    requires Shaped(a) && Shaped(b) && |nd| == WordsPerRow(a.domain + b.domain) * (a.codomain + b.codomain)
    requires row < b.codomain && col < b.domain && At(b, col, row) == 0
    requires Placed(nd, a, b, row, col)
    ensures Placed(nd, a, b, row, col + 1)
  {
  }

  /** A placed row of b is the start of the next. */
  lemma PlaceRowDone(nd: seq<bv64>, a: Mat<bv8>, b: Mat<bv8>, row: nat)
    requires Shaped(a) && Shaped(b) && |nd| == WordsPerRow(a.domain + b.domain) * (a.codomain + b.codomain)
    requires Placed(nd, a, b, row, b.domain)
    ensures Placed(nd, a, b, row + 1, 0)
  {
  }

  /** With all of b placed, the words hold the block sum, padding clear. */
  lemma PlacedDone(nd: seq<bv64>, a: Mat<bv8>, b: Mat<bv8>)
    requires Shaped(a) && Shaped(b) && |nd| == WordsPerRow(a.domain + b.domain) * (a.codomain + b.codomain)
    requires Placed(nd, a, b, b.codomain, 0)
    ensures PaddingClear(nd, a.domain + b.domain, a.codomain + b.codomain)
    ensures Unpack(nd, a.domain + b.domain, a.codomain + b.codomain) == Mats.BlockSum(F2Ring(), a, b)
  {
    var d, c := a.domain + b.domain, a.codomain + b.codomain;
    Extensionality(Unpack(nd, d, c), Mats.BlockSum(F2Ring(), a, b));
  }

  /** `block_sum`'s second loop: for each one entry of other, or its bit
      into the new words at column old domain + col, row old codomain + row. */
  method PlaceOther(nd0: seq<bv64>, other: F2Matrix, d: nat, c: nat, ghost a: Mat<bv8>) returns (nd: seq<bv64>)
    requires other.Valid() && Shaped(a) && a.domain == d && a.codomain == c
    requires |nd0| == WordsPerRow(d + other.domain) * (c + other.codomain)
    requires Placed(nd0, a, other.Value(), 0, 0)
    ensures |nd| == |nd0| && Placed(nd, a, other.Value(), other.codomain, 0)
  {
    nd := nd0;
    for row := 0 to other.codomain
      invariant |nd| == |nd0| && Placed(nd, a, other.Value(), row, 0)
    {
      nd := PlaceRow(nd, other, d, c, a, row);
    }
  }

  /** One row of the second loop. */
  method PlaceRow(nd0: seq<bv64>, other: F2Matrix, d: nat, c: nat, ghost a: Mat<bv8>, row: nat) returns (nd: seq<bv64>)
    requires other.Valid() && Shaped(a) && a.domain == d && a.codomain == c && row < other.codomain
    requires |nd0| == WordsPerRow(d + other.domain) * (c + other.codomain)
    requires Placed(nd0, a, other.Value(), row, 0)
    ensures |nd| == |nd0| && Placed(nd, a, other.Value(), row + 1, 0)
  {
    ghost var b := other.Value();
    var wordsPerNewRow := (d + other.domain + 63) / 64;
    nd := nd0;
    for col := 0 to other.domain
      invariant |nd| == |nd0| && Placed(nd, a, b, row, col)
    {
      var otherValue := other.GetElement(col, row);
      if otherValue != 0 {
        nd := PlaceBit(nd, other, d, c, a, row, col, wordsPerNewRow);
      } else {
        PlaceSkip(nd, a, b, row, col);
      }
    }
    PlaceRowDone(nd, a, b, row);
  }

  /** The body of the second loop for a one of `other` at (col, row): set
      the bit at (d + col, c + row) of the new data. */
  method PlaceBit(nd0: seq<bv64>, other: F2Matrix, d: nat, c: nat, ghost a: Mat<bv8>, row: nat, col: nat,
                  wordsPerNewRow: nat) returns (nd: seq<bv64>)
    requires other.Valid() && Shaped(a) && a.domain == d && a.codomain == c
    requires row < other.codomain && col < other.domain && At(other.Value(), col, row) == 1
    requires wordsPerNewRow == (d + other.domain + 63) / 64
    requires |nd0| == WordsPerRow(d + other.domain) * (c + other.codomain)
    requires Placed(nd0, a, other.Value(), row, col)
    ensures |nd| == |nd0| && Placed(nd, a, other.Value(), row, col + 1)
  {
    var newRow := c + row;
    var newCol := d + col;
    var wordIdx := newCol / 64;
    var bitIdx := BitIndex(newCol % 64);
    var dataIdx := newRow * wordsPerNewRow + wordIdx;
    assert dataIdx == WordOf(d + other.domain, d + col, c + row);
    PlaceStep(nd0, a, other.Value(), row, col);
    nd := nd0[dataIdx := SetOne(nd0[dataIdx], bitIdx)];
  }

  /** `add_at` with one, done twice, gives the matrix back. */
  lemma AddAtTwice(m: Mat<bv8>, x: nat, y: nat)
    requires Shaped(m) && x < m.domain && y < m.codomain && At(m, x, y) <= 1
    ensures var m1 := SetAt(m, x, y, F2Add(At(m, x, y), 1));
            SetAt(m1, x, y, F2Add(At(m1, x, y), 1)) == m
  {
    var m1 := SetAt(m, x, y, F2Add(At(m, x, y), 1));
    var m2 := SetAt(m1, x, y, F2Add(At(m1, x, y), 1));
    forall x', y' | 0 <= x' < m.domain && 0 <= y' < m.codomain ensures At(m2, x', y') == At(m, x', y') {
      GetAfterSet(m, x, y, F2Add(At(m, x, y), 1), x', y');
      GetAfterSet(m1, x, y, F2Add(At(m1, x, y), 1), x', y');
    }
    Extensionality(m2, m);
  }
}
