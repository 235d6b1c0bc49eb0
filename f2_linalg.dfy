/** Row reduction, kernels and linear systems over F2 on the packed
    `F2Matrix` (crates/algebra/src/matrices/f2_linalg.rs). The Rust code adds
    these as an `impl` block on `F2Matrix` and as its `Abelian<F2>`
    instance; here they are module-level methods on the matrix object. The
    row operations work on whole words; everything above them reads and
    writes single entries. */
module F2LinAlg {
  import opened Wrappers
  import opened Rings
  import opened Mats
  import opened MatAlgebra
  import opened FiniteFields
  import opened F2Bits
  import opened F2Matrices
  import Linalg

  // ---------------------------------------------------------------------
  // Whole-row word operations

  /** The first row's words start at s1 and the second's at s2; the two
      blocks of w words are the same block or do not overlap. */
  ghost predicate RowBlocks(n: nat, s1: nat, s2: nat, w: nat) {
    s1 + w <= n && s2 + w <= n && (s1 == s2 || s1 + w <= s2 || s2 + w <= s1)
  }

  /** Rows r1 and r2 of c rows take the blocks of words-per-row words at
      r1 · words-per-row and r2 · words-per-row. */
  lemma RowBlocksOf(w: nat, c: nat, r1: nat, r2: nat)
    requires r1 < c && r2 < c
    ensures RowBlocks(w * c, r1 * w, r2 * w, w)
    ensures r1 != r2 ==> r1 * w != r2 * w || w == 0
  {
    MulMono(r1 + 1, c, w);
    MulMono(r2 + 1, c, w);
    if r1 < r2 {
      MulMono(r1 + 1, r2, w);
    } else if r2 < r1 {
      MulMono(r2 + 1, r1, w);
    }
  }

  /** Where row r's words start: `r * words_per_row`. */
  function RowStart(r: nat, w: nat): nat {
    r * w
  }

  /** The first j words of the two blocks exchanged. */
  ghost function SwappedWords(data: seq<bv64>, s1: nat, s2: nat, j: nat): (r: seq<bv64>)
    requires s1 + j <= |data| && s2 + j <= |data|
    ensures |r| == |data|
  {
    seq(|data|, k requires 0 <= k < |data| =>
      if s1 <= k < s1 + j then data[k - s1 + s2] else if s2 <= k < s2 + j then data[k - s2 + s1] else data[k])
  }

  /** One more `data.swap(start1 + i, start2 + i)`. */
  lemma SwapWordsStep(data: seq<bv64>, s1: nat, s2: nat, w: nat, i: nat)
    requires RowBlocks(|data|, s1, s2, w) && s1 != s2 && i < w
    ensures var p := SwappedWords(data, s1, s2, i);
            p[s1 + i] == data[s1 + i] && p[s2 + i] == data[s2 + i] &&
            p[s1 + i := p[s2 + i]][s2 + i := p[s1 + i]] == SwappedWords(data, s1, s2, i + 1)
  {
  }

  /** The word of (x, y) lies in the block of row r exactly when y is r;
      its offset in the block is x / 64. */
  lemma WordInRow(d: nat, c: nat, x: nat, y: nat, r: nat)
    requires x < 64 * WordsPerRow(d) && y < c && r < c
    ensures var w, k := WordsPerRow(d), WordOf(d, x, y);
            (r * w <= k < r * w + w <==> y == r) && WordOf(d, x, r) == r * w + (k - y * w)
  {
    var w := WordsPerRow(d);
    WordOfBounds(d, c, x, y);
    if y < r {
      MulMono(y + 1, r, w);
    } else if r < y {
      MulMono(r + 1, y, w);
    }
  }

  /** The slot of (x, y) in words with rows r1 and r2 (at s1 and s2)
      exchanged is the slot of (x, y') in the old words, y' being y with r1
      and r2 exchanged. */
  lemma SwappedSlot(data: seq<bv64>, d: nat, c: nat, r1: nat, r2: nat, s1: nat, s2: nat, x: nat, y: nat)
    requires |data| == WordsPerRow(d) * c && r1 < c && r2 < c && x < 64 * WordsPerRow(d) && y < c
    requires s1 == r1 * WordsPerRow(d) && s2 == r2 * WordsPerRow(d) && RowBlocks(|data|, s1, s2, WordsPerRow(d))
    ensures Slot(SwappedWords(data, s1, s2, WordsPerRow(d)), d, c, x, y)
            == Slot(data, d, c, x, if y == r1 then r2 else if y == r2 then r1 else y)
  {
    var w := WordsPerRow(d);
    var y' := if y == r1 then r2 else if y == r2 then r1 else y;
    var k, k' := WordOf(d, x, y), WordOf(d, x, y');
    WordOfBounds(d, c, x, y);
    WordOfBounds(d, c, x, y');
    WordInRow(d, c, x, y, r1);
    WordInRow(d, c, x, y, r2);
    var p := SwappedWords(data, s1, s2, w);
    assert p[k] == data[k'];
    assert Slot(p, d, c, x, y) == WordBit(p[k], BitIndex(x % 64));
  }

  /** Exchanging the words of two rows keeps the padding clear. */
  lemma SwappedPadding(data: seq<bv64>, d: nat, c: nat, r1: nat, r2: nat)
    requires |data| == WordsPerRow(d) * c && PaddingClear(data, d, c) && r1 < c && r2 < c
    ensures RowBlocks(|data|, r1 * WordsPerRow(d), r2 * WordsPerRow(d), WordsPerRow(d))
    ensures PaddingClear(SwappedWords(data, r1 * WordsPerRow(d), r2 * WordsPerRow(d), WordsPerRow(d)), d, c)
  {
    var w := WordsPerRow(d);
    RowBlocksOf(w, c, r1, r2);
    var s1, s2 := r1 * w, r2 * w;
    var p := SwappedWords(data, s1, s2, w);
    forall x, y | d <= x < 64 * w && 0 <= y < c ensures Slot(p, d, c, x, y) == 0 {
      SwappedSlot(data, d, c, r1, r2, s1, s2, x, y);
    }
  }

  /** Exchanging the words of two rows exchanges the rows and keeps the
      padding clear. */
  lemma SwappedRows(data: seq<bv64>, d: nat, c: nat, r1: nat, r2: nat)
    requires |data| == WordsPerRow(d) * c && PaddingClear(data, d, c) && r1 < c && r2 < c
    ensures RowBlocks(|data|, r1 * WordsPerRow(d), r2 * WordsPerRow(d), WordsPerRow(d))
    ensures var p := SwappedWords(data, r1 * WordsPerRow(d), r2 * WordsPerRow(d), WordsPerRow(d));
            PaddingClear(p, d, c) && Unpack(p, d, c) == Mats.SwapRows(Unpack(data, d, c), r1, r2)
  {
    var w := WordsPerRow(d);
    RowBlocksOf(w, c, r1, r2);
    SwappedPadding(data, d, c, r1, r2);
    var s1, s2 := r1 * w, r2 * w;
    var p := SwappedWords(data, s1, s2, w);
    var m := Unpack(data, d, c);
    SwappedEntries(data, d, c, r1, r2);
    Extensionality(Unpack(p, d, c), Mats.SwapRows(m, r1, r2));
  }

  /** Exchanging the words of two rows exchanges their entries. */
  lemma SwappedEntries(data: seq<bv64>, d: nat, c: nat, r1: nat, r2: nat)
    requires |data| == WordsPerRow(d) * c && PaddingClear(data, d, c) && r1 < c && r2 < c
    requires RowBlocks(|data|, r1 * WordsPerRow(d), r2 * WordsPerRow(d), WordsPerRow(d))
    ensures var p := SwappedWords(data, r1 * WordsPerRow(d), r2 * WordsPerRow(d), WordsPerRow(d));
            forall x, y :: 0 <= x < d && 0 <= y < c ==>
              At(Unpack(p, d, c), x, y) == At(Mats.SwapRows(Unpack(data, d, c), r1, r2), x, y)
  {
    var w := WordsPerRow(d);
    var s1, s2 := r1 * w, r2 * w;
    var p := SwappedWords(data, s1, s2, w);
    var m := Unpack(data, d, c);
    forall x, y | 0 <= x < d && 0 <= y < c ensures At(Unpack(p, d, c), x, y) == At(Mats.SwapRows(m, r1, r2), x, y) {
      SwappedSlot(data, d, c, r1, r2, s1, s2, x, y);
    }
  }

  /** Exchanging a row with itself changes nothing. */
  lemma SwapSameRow<T>(m: Mat<T>, r: nat)
    requires Shaped(m) && r < m.codomain
    ensures Mats.SwapRows(m, r, r) == m
  {
    Extensionality(Mats.SwapRows(m, r, r), m);
  }

  /** `swap_rows(row1, row2)`: exchange the words of the two rows one by
      one; nothing when the rows are the same. */
  method SwapRows(m: F2Matrix, row1: nat, row2: nat)
    requires m.Valid() && row1 < m.codomain && row2 < m.codomain
    modifies m
    ensures m.Valid() && m.domain == old(m.domain) && m.codomain == old(m.codomain)
    ensures m.Value() == Mats.SwapRows(old(m.Value()), row1, row2)
  {
    if row1 == row2 {
      SwapSameRow(m.Value(), row1);
      return;
    }
    var wpr := WordsPerRow(m.domain);
    var start1, start2 := RowStart(row1, wpr), RowStart(row2, wpr);
    ghost var d0 := m.data;
    SwappedRows(d0, m.domain, m.codomain, row1, row2);
    RowBlocksOf(wpr, m.codomain, row1, row2);
    assert SwappedWords(d0, start1, start2, 0) == d0;
    for i := 0 to wpr
      invariant m.domain == old(m.domain) && m.codomain == old(m.codomain)
      invariant m.data == SwappedWords(d0, start1, start2, i)
    {
      SwapWordsStep(d0, start1, start2, wpr, i);
      m.data := m.data[start1 + i := m.data[start2 + i]][start2 + i := m.data[start1 + i]];
    }
  }

  /** The first j words of the block at st xor-ed with the words of the
      block at sf. */
  ghost function XoredWords(data: seq<bv64>, sf: nat, st: nat, j: nat): (r: seq<bv64>)
    requires sf + j <= |data| && st + j <= |data|
    ensures |r| == |data|
  {
    seq(|data|, k requires 0 <= k < |data| => if st <= k < st + j then data[k] ^ data[k - st + sf] else data[k])
  }

  /** One more `data[start_to + i] ^= data[start_from + i]`: the word read
      from the source block is still the old one. */
  lemma XorWordsStep(data: seq<bv64>, sf: nat, st: nat, w: nat, i: nat)
    requires RowBlocks(|data|, sf, st, w) && i < w
    ensures var p := XoredWords(data, sf, st, i);
            p[st + i] == data[st + i] && p[sf + i] == data[sf + i] &&
            p[st + i := p[st + i] ^ p[sf + i]] == XoredWords(data, sf, st, i + 1)
  {
  }

  /** Xor-ing words adds their bits in F2. */
  lemma XorBits(w: bv64, v: bv64, t: bv64)
    requires t < 64
    ensures WordBit(w ^ v, t) == F2Add(WordBit(w, t), WordBit(v, t))
  {
    XorBit(w, v, t);
  }

  lemma AndOne(b: bv8)
    requires b <= 1
    ensures 1 & b == b
  {
  }

  /** The word of (x, y) after the xor: the old word, xor-ed with the
      word of (x, from) when y is `to`. */
  lemma XoredWordOf(data: seq<bv64>, d: nat, c: nat, from: nat, to: nat, sf: nat, st: nat, x: nat, y: nat)
    requires |data| == WordsPerRow(d) * c && from < c && to < c && x < 64 * WordsPerRow(d) && y < c
    requires sf == from * WordsPerRow(d) && st == to * WordsPerRow(d) && RowBlocks(|data|, sf, st, WordsPerRow(d))
    ensures WordOf(d, x, y) < |data| && WordOf(d, x, from) < |data|
    ensures XoredWords(data, sf, st, WordsPerRow(d))[WordOf(d, x, y)]
            == if y == to then data[WordOf(d, x, y)] ^ data[WordOf(d, x, from)] else data[WordOf(d, x, y)]
  {
    WordOfBounds(d, c, x, y);
    WordOfBounds(d, c, x, from);
    WordInRow(d, c, x, y, to);
    if y == to {
      WordInRow(d, c, x, y, from);
    }
  }

  /** The slot of (x, y) in words with row `from` (at sf) xor-ed into row
      `to` (at st). */
  lemma XoredSlot(data: seq<bv64>, d: nat, c: nat, from: nat, to: nat, sf: nat, st: nat, x: nat, y: nat)
    requires |data| == WordsPerRow(d) * c && from < c && to < c && x < 64 * WordsPerRow(d) && y < c
    requires sf == from * WordsPerRow(d) && st == to * WordsPerRow(d) && RowBlocks(|data|, sf, st, WordsPerRow(d))
    ensures Slot(XoredWords(data, sf, st, WordsPerRow(d)), d, c, x, y)
            == if y == to then F2Add(Slot(data, d, c, x, to), Slot(data, d, c, x, from)) else Slot(data, d, c, x, y)
  {
    XoredWordOf(data, d, c, from, to, sf, st, x, y);
    var p := XoredWords(data, sf, st, WordsPerRow(d));
    if y == to {
      XoredSlotTo(p, data, d, c, from, to, x);
    } else {
      SameWordSameSlot(p, data, d, c, x, y);
    }
  }

  /** Words equal at the word of (x, y) give equal slots there. */
  lemma SameWordSameSlot(p: seq<bv64>, data: seq<bv64>, d: nat, c: nat, x: nat, y: nat)
    requires |data| == WordsPerRow(d) * c && |p| == |data| && x < 64 * WordsPerRow(d) && y < c
    requires WordOf(d, x, y) < |data| && p[WordOf(d, x, y)] == data[WordOf(d, x, y)]
    ensures Slot(p, d, c, x, y) == Slot(data, d, c, x, y)
  {
  }

  /** A word that is the xor of the words of (x, to) and (x, from) holds
      the sum of the two slots. */
  lemma XoredSlotTo(p: seq<bv64>, data: seq<bv64>, d: nat, c: nat, from: nat, to: nat, x: nat)
    requires |data| == WordsPerRow(d) * c && |p| == |data| && x < 64 * WordsPerRow(d) && from < c && to < c
    requires WordOf(d, x, to) < |data| && WordOf(d, x, from) < |data|
    requires p[WordOf(d, x, to)] == data[WordOf(d, x, to)] ^ data[WordOf(d, x, from)]
    ensures Slot(p, d, c, x, to) == F2Add(Slot(data, d, c, x, to), Slot(data, d, c, x, from))
  {
    var a, b, s := data[WordOf(d, x, to)], data[WordOf(d, x, from)], BitIndex(x % 64);
    XorBits(a, b, s);
    assert Slot(p, d, c, x, to) == WordBit(a ^ b, s);
    assert Slot(data, d, c, x, to) == WordBit(a, s);
    assert Slot(data, d, c, x, from) == WordBit(b, s);
  }

  /** Xor-ing the words of row `from` into row `to` adds row `from` to row
      `to` and keeps the padding clear. */
  lemma XoredRows(data: seq<bv64>, d: nat, c: nat, from: nat, to: nat)
    requires |data| == WordsPerRow(d) * c && PaddingClear(data, d, c) && from < c && to < c
    ensures RowBlocks(|data|, from * WordsPerRow(d), to * WordsPerRow(d), WordsPerRow(d))
    ensures var p := XoredWords(data, from * WordsPerRow(d), to * WordsPerRow(d), WordsPerRow(d));
            PaddingClear(p, d, c) && Unpack(p, d, c) == AddRowMultiple(F2Ring(), Unpack(data, d, c), to, from, 1)
  {
    var w := WordsPerRow(d);
    RowBlocksOf(w, c, from, to);
    var sf, st := from * w, to * w;
    var p := XoredWords(data, sf, st, w);
    forall x, y | d <= x < 64 * w && 0 <= y < c ensures Slot(p, d, c, x, y) == 0 {
      XoredSlot(data, d, c, from, to, sf, st, x, y);
    }
    var m := Unpack(data, d, c);
    var e := AddRowMultiple(F2Ring(), m, to, from, 1);
    forall x, y | 0 <= x < d && 0 <= y < c ensures At(Unpack(p, d, c), x, y) == At(e, x, y) {
      XoredSlot(data, d, c, from, to, sf, st, x, y);
      AndOne(At(m, x, from));
    }
    Extensionality(Unpack(p, d, c), e);
  }

  /** `add_row_to_row(from, to)`: xor the words of row `from` into row `to`.
      Row `to` becomes the sum of the two rows; every other row, `from`
      included when it differs from `to`, is unchanged. Adding a row to
      itself clears it. */
  method AddRowToRow(m: F2Matrix, from: nat, to: nat)
    requires m.Valid() && from < m.codomain && to < m.codomain
    modifies m
    ensures m.Valid() && m.domain == old(m.domain) && m.codomain == old(m.codomain)
    ensures m.Value() == AddRowMultiple(F2Ring(), old(m.Value()), to, from, 1)
  {
    var wpr := WordsPerRow(m.domain);
    var startFrom, startTo := RowStart(from, wpr), RowStart(to, wpr);
    ghost var d0 := m.data;
    XoredRows(d0, m.domain, m.codomain, from, to);
    RowBlocksOf(wpr, m.codomain, from, to);
    assert XoredWords(d0, startFrom, startTo, 0) == d0;
    for i := 0 to wpr
      invariant m.domain == old(m.domain) && m.codomain == old(m.codomain)
      invariant m.data == XoredWords(d0, startFrom, startTo, i)
    {
      XorWordsStep(d0, startFrom, startTo, wpr, i);
      m.data := m.data[startTo + i := m.data[startTo + i] ^ m.data[startFrom + i]];
    }
  }

  /** Adding a row to itself over F2 gives a zero row: x + x == 0. */
  lemma AddRowToItself(m: Mat<bv8>, r: nat)
    requires Shaped(m) && r < m.codomain && forall x :: 0 <= x < m.domain ==> At(m, x, r) <= 1
    ensures forall x :: 0 <= x < m.domain ==> At(AddRowMultiple(F2Ring(), m, r, r, 1), x, r) == 0
  {
    forall x | 0 <= x < m.domain ensures At(AddRowMultiple(F2Ring(), m, r, r, 1), x, r) == 0 {
      AndOne(At(m, x, r));
      F2AddSelf(At(m, x, r));
    }
  }

  // ---------------------------------------------------------------------
  // Row reduction

  /** Packed words hold F2 elements only. */
  lemma UnpackElems(data: seq<bv64>, d: nat, c: nat)
    requires |data| == WordsPerRow(d) * c
    ensures Elems(F2Ring(), Unpack(data, d, c))
  {
    var m := Unpack(data, d, c);
    forall x, y | 0 <= x < d && 0 <= y < c ensures At(m, x, y) <= 1 {
      assert At(m, x, y) == Slot(data, d, c, x, y);
    }
    F2Elems(m);
  }

  /** The pivot search of `rref`: from row r and column lead0 go down the
      column, and on reaching the bottom move one column right. A pivot
      found is a one at (lead, i) with the rows from r on zero before column
      lead; otherwise those rows are zero everywhere. This reads the
      intended entry, column lead of row i. The source calls
      `get_element(i, lead)`, which takes the column first, so it reads bit i
      of row lead instead (`PivotSearchAsWritten`). */
  method FindPivot(m: F2Matrix, r: nat, lead0: nat) returns (i: nat, lead: nat, found: bool)
    requires m.Valid() && r < m.codomain && lead0 < m.domain
    requires Linalg.ZeroBelow(F2Ring(), m.Value(), r, lead0)
    ensures found ==> r <= i < m.codomain && lead0 <= lead < m.domain && At(m.Value(), lead, i) == 1
    ensures lead <= m.domain && Linalg.ZeroBelow(F2Ring(), m.Value(), r, lead)
    ensures !found ==> lead == m.domain
  {
    ghost var v := m.Value();
    i, lead, found := r, lead0, true;
    while found && m.GetElement(lead, i) == 0
      invariant r <= i < v.codomain && lead0 <= lead <= v.domain
      invariant found <==> lead < v.domain
      invariant Linalg.ZeroBelow(F2Ring(), v, r, lead)
      invariant found ==> forall y :: r <= y < i ==> At(v, lead, y) == 0
      decreases v.domain - lead, v.codomain - i
    {
      i := i + 1;
      if i == m.codomain {
        Linalg.ZeroBelowNext(F2Ring(), v, r, lead);
        i, lead := r, lead + 1;
        found := lead < m.domain;
      }
    }
  }

  /** The middle of one round of `rref`: bring the pivot row i up to row r.
      Over F2 the pivot is already one, so there is nothing to divide by. */
  method PlacePivot(m: F2Matrix, r: nat, i: nat, lead: nat, ghost piv: seq<nat>,
                    ghost a: Mat<bv8>, ghost u: Mat<bv8>, ghost w: Mat<bv8>) returns (ghost u': Mat<bv8>, ghost w': Mat<bv8>)
    requires m.Valid() && |piv| == r <= i < m.codomain && lead < m.domain
    requires Linalg.Echelon(F2Ring(), m.Value(), piv, lead) && At(m.Value(), lead, i) == 1
    requires RowTransforms(F2Ring(), a, m.Value(), u, w)
    modifies m
    ensures m.Valid() && m.domain == old(m.domain) && m.codomain == old(m.codomain)
    ensures Linalg.Ready(F2Ring(), m.Value(), piv, lead) && RowTransforms(F2Ring(), a, m.Value(), u', w')
  {
    F2IsField();
    ghost var R := F2Ring();
    var c := m.codomain;
    SwapKeepsTransforms(R, a, m.Value(), u, w, r, i);
    Linalg.EchelonSwap(R, m.Value(), piv, lead, i);
    ghost var e := Mats.SwapRows(IdentityMat(R, c), r, i);
    u', w' := Compose(R, e, u), Compose(R, w, e);
    if i != r {
      SwapRows(m, r, i);
    } else {
      SwapSameRow(m.Value(), r);
    }
  }

  /** One step of clearing column `lead`: when row i (not the pivot row r)
      has a one there, add row r to it. The test reads column lead of row i,
      the intended read; `ClearColumnAsWritten` models the swapped one. */
  method ClearRow(m: F2Matrix, ghost m1: Mat<bv8>, r: nat, lead: nat, ghost piv: seq<nat>, i: nat,
                  ghost a: Mat<bv8>, ghost u: Mat<bv8>, ghost w: Mat<bv8>) returns (ghost u': Mat<bv8>, ghost w': Mat<bv8>)
    requires m.Valid() && |piv| == r && i < m.codomain
    requires Linalg.Ready(F2Ring(), m1, piv, lead) && Linalg.Cleared(F2Ring(), m1, m.Value(), r, lead, i)
    requires RowTransforms(F2Ring(), a, m.Value(), u, w)
    modifies m
    ensures m.Valid() && m.domain == old(m.domain) && m.codomain == old(m.codomain)
    ensures Linalg.Cleared(F2Ring(), m1, m.Value(), r, lead, i + 1) && RowTransforms(F2Ring(), a, m.Value(), u', w')
  {
    F2IsField();
    ghost var R := F2Ring();
    u', w' := u, w;
    if i != r && m.GetElement(lead, i) == 1 {
      ghost var id := IdentityMat(R, m.codomain);
      Linalg.ClearedStep(R, m1, m.Value(), piv, lead, i);
      AddKeepsTransforms(R, a, m.Value(), u, w, i, r, 1);
      u', w' := Compose(R, AddRowMultiple(R, id, i, r, 1), u), Compose(R, w, AddRowMultiple(R, id, i, r, R.neg(1)));
      AddRowToRow(m, r, i);
    } else if i != r {
      Linalg.ClearedStep(R, m1, m.Value(), piv, lead, i);
      assert AddRowMultiple(R, m.Value(), i, r, R.neg(At(m.Value(), lead, i))) == m.Value();
    }
  }

  /** The end of one round of `rref`: add the pivot row r to every other
      row with a one in column `lead`. */
  method ClearColumn(m: F2Matrix, r: nat, lead: nat, ghost piv: seq<nat>,
                     ghost a: Mat<bv8>, ghost u: Mat<bv8>, ghost w: Mat<bv8>) returns (ghost u': Mat<bv8>, ghost w': Mat<bv8>)
    requires m.Valid() && |piv| == r
    requires Linalg.Ready(F2Ring(), m.Value(), piv, lead) && RowTransforms(F2Ring(), a, m.Value(), u, w)
    modifies m
    ensures m.Valid() && m.domain == old(m.domain) && m.codomain == old(m.codomain)
    ensures Linalg.Echelon(F2Ring(), m.Value(), piv + [lead], lead + 1) && RowTransforms(F2Ring(), a, m.Value(), u', w')
  {
    ghost var m1 := m.Value();
    u', w' := u, w;
    for i := 0 to m.codomain
      invariant m.Valid() && m.domain == m1.domain && m.codomain == m1.codomain
      invariant Linalg.Cleared(F2Ring(), m1, m.Value(), r, lead, i)
      invariant RowTransforms(F2Ring(), a, m.Value(), u', w')
    {
      u', w' := ClearRow(m, m1, r, lead, piv, i, a, u', w');
    }
    Linalg.ClearedDone(F2Ring(), m1, m.Value(), piv, lead);
  }

  /** One round of the row loop of `rref`, for row r: stop when no column
      is left, or when no pivot is left (the rows from r down are then zero,
      so the form holds up to the last column); else place the pivot in row
      r and clear its column. */
  method RrefRound(m: F2Matrix, r: nat, lead: nat, ghost piv: seq<nat>,
                   ghost a: Mat<bv8>, ghost u: Mat<bv8>, ghost w: Mat<bv8>)
    returns (lead': nat, ghost piv': seq<nat>, ghost u': Mat<bv8>, ghost w': Mat<bv8>, done: bool)
    requires m.Valid() && |piv| == r < m.codomain
    requires Linalg.Echelon(F2Ring(), m.Value(), piv, lead) && RowTransforms(F2Ring(), a, m.Value(), u, w)
    modifies m
    ensures m.Valid() && m.domain == old(m.domain) && m.codomain == old(m.codomain)
    ensures RowTransforms(F2Ring(), a, m.Value(), u', w')
    ensures Linalg.Echelon(F2Ring(), m.Value(), piv', lead')
    ensures done ==> piv' == piv && lead' == m.domain
    ensures !done ==> |piv'| == |piv| + 1 && piv'[..|piv|] == piv
  {
    if lead >= m.domain {
      return lead, piv, u, w, true;
    }
    var i, found;
    i, lead', found := FindPivot(m, r, lead);
    if found {
      lead', piv', u', w' := PivotRound(m, r, i, lead, lead', piv, a, u, w);
      done := false;
    } else {
      ghost var v := m.Value();
      Linalg.EchelonWiden(F2Ring(), v, piv, lead, lead');
      piv', u', w', done := piv, u, w, true;
    }
  }

  /** A round of `rref` that found its pivot at (lead, i): swap it up to
      row r, then clear its column. The new pivot list is `piv + [lead]`
      and the next column to scan is `lead + 1`. */
  method PivotRound(m: F2Matrix, r: nat, i: nat, ghost lead0: nat, lead: nat, ghost piv: seq<nat>,
                    ghost a: Mat<bv8>, ghost u: Mat<bv8>, ghost w: Mat<bv8>)
    returns (next: nat, ghost piv': seq<nat>, ghost u': Mat<bv8>, ghost w': Mat<bv8>)
    requires m.Valid() && |piv| == r <= i < m.codomain && lead0 <= lead < m.domain
    requires Linalg.Echelon(F2Ring(), m.Value(), piv, lead0) && Linalg.ZeroBelow(F2Ring(), m.Value(), r, lead)
    requires At(m.Value(), lead, i) == 1
    requires RowTransforms(F2Ring(), a, m.Value(), u, w)
    modifies m
    ensures m.Valid() && m.domain == old(m.domain) && m.codomain == old(m.codomain)
    ensures next == lead + 1 && piv' == piv + [lead]
    ensures Linalg.Echelon(F2Ring(), m.Value(), piv', next) && RowTransforms(F2Ring(), a, m.Value(), u', w')
  {
    ghost var v := m.Value();
    Linalg.EchelonWiden(F2Ring(), v, piv, lead0, lead);
    u', w' := PlacePivot(m, r, i, lead, piv, a, u, w);
    u', w' := ClearColumn(m, r, lead, piv, a, u', w');
    next, piv' := lead + 1, piv + [lead];
  }

  /** `rref`: Gauss-Jordan elimination in place with row swaps and row
      additions. The result is in reduced row echelon form with pivot
      columns `piv` and is row equivalent to the input: result == u ∘ input
      and input == w ∘ result. */
  method Rref(m: F2Matrix) returns (ghost piv: seq<nat>, ghost u: Mat<bv8>, ghost w: Mat<bv8>)
    requires m.Valid()
    modifies m
    ensures m.Valid() && m.domain == old(m.domain) && m.codomain == old(m.codomain)
    ensures Linalg.IsRref(F2Ring(), m.Value(), piv)
    ensures RowTransforms(F2Ring(), old(m.Value()), m.Value(), u, w)
  {
    ghost var a := m.Value();
    UnpackElems(m.data, m.domain, m.codomain);
    F2IsField();
    RowTransformsRefl(F2Ring(), a);
    u, w := IdentityMat(F2Ring(), a.codomain), IdentityMat(F2Ring(), a.codomain);
    piv := [];
    var lead: nat := 0;
    var r, done := 0, false;
    while r < m.codomain && !done
      invariant m.Valid() && m.domain == a.domain && m.codomain == a.codomain
      invariant |piv| == r <= m.codomain && Linalg.Echelon(F2Ring(), m.Value(), piv, lead)
      invariant done ==> lead == m.domain
      invariant RowTransforms(F2Ring(), a, m.Value(), u, w)
      decreases m.codomain - r, if done then 0 else 1
    {
      lead, piv, u, w, done := RrefRound(m, r, lead, piv, a, u, w);
      if !done {
        r := r + 1;
      }
    }
    if !done {
      ghost var v := m.Value();
      Linalg.EchelonFull(F2Ring(), v, piv, lead);
    }
  }

  // ---------------------------------------------------------------------
  // Pivots and the first nonzero entry

  /** `pivots`: for each row, walk right from the column after the last
      pivot to the first one. What it reports is ordered
      (`Linalg.PivotScanOrdered`) and, on a reduced matrix, is exactly its
      pivots (`Linalg.PivotsOfRref`). */
  method Pivots(m: F2Matrix) returns (ps: seq<(nat, nat)>)
    requires m.Valid()
    ensures ps == Linalg.PivotScan(F2Ring(), m.Value(), 0, 0)
  {    ghost var v := m.Value();
    ghost var all := Linalg.PivotScan(F2Ring(), v, 0, 0);
    var col: nat := 0;
    var row: nat := 0;
    ps := [];
    while row < m.codomain
      invariant row <= v.codomain && col <= v.domain
      invariant ps + Linalg.PivotScan(F2Ring(), v, row, col) == all
    {
      col, ps := PivotStep(m, row, col, ps);
      row := row + 1;
    }
    Linalg.PivotScanExhausted(F2Ring(), v, row, col, ps);
  }

  /** One row of `pivots`: scan it and record the pivot it holds, if any. */
  method PivotStep(m: F2Matrix, row: nat, col: nat, ps: seq<(nat, nat)>) returns (col': nat, ps': seq<(nat, nat)>)
    requires m.Valid() && row < m.codomain && col <= m.domain
    ensures col' <= m.domain
    ensures ps' + Linalg.PivotScan(F2Ring(), m.Value(), row + 1, col') == ps + Linalg.PivotScan(F2Ring(), m.Value(), row, col)
  {
    var hit;
    col', hit := ScanRow(m, row, col);
    Linalg.PivotScanStep(F2Ring(), m.Value(), row, col, ps, col', hit);
    ps' := if hit then ps + [(col' - 1, row)] else ps;
  }

  /** The inner loop of `pivots`: walk row `row` right from column `col`
      to its first one; `hit` says whether one was found, and the scan goes
      on from the next row at the returned column. */
  method ScanRow(m: F2Matrix, row: nat, col: nat) returns (col': nat, hit: bool)
    requires m.Valid() && row < m.codomain && col <= m.domain
    ensures hit <==> Linalg.NextNonzero(F2Ring(), m.Value(), row, col) < m.domain
    ensures col' == if hit then Linalg.NextNonzero(F2Ring(), m.Value(), row, col) + 1 else m.domain
  {
    ghost var v := m.Value();
    col' := col;
    while col' < m.domain && m.GetElement(col', row) != 1
      invariant col <= col' <= v.domain
      invariant Linalg.NextNonzero(F2Ring(), v, row, col) == Linalg.NextNonzero(F2Ring(), v, row, col')
    {
      col' := col' + 1;
    }
    hit := col' < m.domain;
    if hit {
      col' := col' + 1;
    }
  }

  /** `first_non_zero_entry`, reading entry (column, row) as `get_element`
      takes it: the first one in row-major order, as (row, column), or None
      when the matrix is zero. */
  method FirstNonZeroEntry(m: F2Matrix) returns (r: Option<(nat, nat)>)
    requires m.Valid()
    ensures r.None? <==> Linalg.AllZero(F2Ring(), m.Value())
    ensures r.Some? ==> r.value.0 < m.codomain && r.value.1 < m.domain && At(m.Value(), r.value.1, r.value.0) == 1
    ensures r.Some? ==> forall x, y ::
              (0 <= x < m.domain && 0 <= y < m.codomain && (y < r.value.0 || (y == r.value.0 && x < r.value.1)))
              ==> At(m.Value(), x, y) == 0
  {
    for codomId := 0 to m.codomain
      invariant forall x, y :: 0 <= x < m.domain && 0 <= y < codomId ==> At(m.Value(), x, y) == 0
    {
      for domId := 0 to m.domain
        invariant forall x, y :: 0 <= x < m.domain && 0 <= y < codomId ==> At(m.Value(), x, y) == 0
        invariant forall x :: 0 <= x < domId ==> At(m.Value(), x, codomId) == 0
      {
        if m.GetElement(domId, codomId) == 1 {
          return Some((codomId, domId));
        }
      }
    }
    return None;
  }

  /** The bit `get_element(x, y)` reads whatever x is: `index` gives word
      y · words-per-row + x / 64 and shift x mod 64, so an x past the domain
      reads padding or a word of a later row. */
  function RawGet(data: seq<bv64>, d: nat, x: nat, y: nat): (b: bv8)
    requires WordOf(d, x, y) < |data|
    ensures b == 0 || b == 1
  {
    WordBit(data[WordOf(d, x, y)], BitIndex(x % 64))
  }

  /** `first_non_zero_entry` as written: it calls `get_element(codom_id,
      dom_id)`, so it reads (row, column) where `get_element` expects
      (column, row). It needs every such read to land inside the words. */
  method FirstNonZeroEntryAsWritten(m: F2Matrix) returns (r: Option<(nat, nat)>)
    requires m.Valid()
    requires forall i, j :: 0 <= i < m.codomain && 0 <= j < m.domain ==> WordOf(m.domain, i, j) < |m.data|
    ensures r.None? <==> forall i, j :: 0 <= i < m.codomain && 0 <= j < m.domain ==> RawGet(m.data, m.domain, i, j) == 0
    ensures r.Some? ==> r.value.0 < m.codomain && r.value.1 < m.domain && RawGet(m.data, m.domain, r.value.0, r.value.1) == 1
  {
    for codomId := 0 to m.codomain
      invariant forall i, j :: 0 <= i < codomId && 0 <= j < m.domain ==> RawGet(m.data, m.domain, i, j) == 0
    {
      for domId := 0 to m.domain
        invariant forall i, j :: 0 <= i < codomId && 0 <= j < m.domain ==> RawGet(m.data, m.domain, i, j) == 0
        invariant forall j :: 0 <= j < domId ==> RawGet(m.data, m.domain, codomId, j) == 0
      {
        if RawGet(m.data, m.domain, codomId, domId) == 1 {
          return Some((codomId, domId));
        }
      }
    }
    return None;
  }

  /** The word 1 has bit 0 set and no other. */
  lemma OneWordBits(t: bv64)
    requires t < 64
    ensures WordBit(1, t) == if t == 0 then 1 else 0
  {
  }

  /** A one-column matrix with two rows whose only one is at row 1. The
      search as written reads "(1, 0)" as bit 1 of row 0, a padding bit, and
      never looks at row 1: every read is zero, so it reports no nonzero
      entry, while the matrix is not zero and `FirstNonZeroEntry` finds
      (1, 0). */
  lemma FirstNonZeroEntryMisread()
    ensures var data: seq<bv64> := [0, 1];
            && |data| == WordsPerRow(1) * 2 && PaddingClear(data, 1, 2)
            && (forall i, j :: 0 <= i < 2 && 0 <= j < 1 ==> WordOf(1, i, j) < |data| && RawGet(data, 1, i, j) == 0)
            && At(Unpack(data, 1, 2), 0, 1) == 1
  {
    var data: seq<bv64> := [0, 1];
    assert WordsPerRow(1) == 1;
    forall x, y | 1 <= x < 64 && 0 <= y < 2 ensures Slot(data, 1, 2, x, y) == 0 {
      ZeroWordBit(BitIndex(x % 64));
      OneWordBits(BitIndex(x % 64));
    }
    forall i, j | 0 <= i < 2 && 0 <= j < 1 ensures WordOf(1, i, j) < |data| && RawGet(data, 1, i, j) == 0 {
      ZeroWordBit(BitIndex(i % 64));
    }
    OneWordBits(BitIndex(0));
    assert Slot(data, 1, 2, 0, 1) == WordBit(1, BitIndex(0));
  }

  /** The pivot search of `rref` as written: it calls `get_element(i, lead)`,
      so it tests bit i of row lead where column lead of row i is meant. It
      needs every such read to land inside the words. Not finding a pivot
      makes `rref` return. */
  method PivotSearchAsWritten(m: F2Matrix, r: nat, lead0: nat) returns (i: nat, lead: nat, found: bool)
    requires m.Valid() && r < m.codomain && lead0 < m.domain
    requires forall i, j :: 0 <= i < m.codomain && 0 <= j < m.domain ==> WordOf(m.domain, i, j) < |m.data|
    ensures found ==> r <= i < m.codomain && lead0 <= lead < m.domain && RawGet(m.data, m.domain, i, lead) == 1
    ensures !found ==> lead == m.domain
    ensures !found ==> forall i, j :: r <= i < m.codomain && lead0 <= j < m.domain ==> RawGet(m.data, m.domain, i, j) == 0
  {
    i, lead, found := r, lead0, true;
    while found && RawGet(m.data, m.domain, i, lead) == 0
      invariant r <= i < m.codomain && lead0 <= lead <= m.domain
      invariant found <==> lead < m.domain
      invariant forall i', j :: r <= i' < m.codomain && lead0 <= j < lead ==> RawGet(m.data, m.domain, i', j) == 0
      invariant found ==> forall i' :: r <= i' < i ==> RawGet(m.data, m.domain, i', lead) == 0
      decreases m.domain - lead, m.codomain - i
    {
      i := i + 1;
      if i == m.codomain {
        assert forall i' :: r <= i' < m.codomain ==> RawGet(m.data, m.domain, i', lead) == 0;
        i, lead := r, lead + 1;
        found := lead < m.domain;
      }
    }
  }

  /** The two-row, one-column matrix whose only one is in row 1: every read
      of the search as written is zero, so it finds no pivot and `rref`
      returns with the matrix unchanged, while column 0 is not zero below
      row 0 and `FindPivot` finds the pivot in row 1. */
  lemma RrefMisread()
    ensures var data: seq<bv64> := [0, 1];
            && |data| == WordsPerRow(1) * 2 && PaddingClear(data, 1, 2)
            && (forall i, j :: 0 <= i < 2 && 0 <= j < 1 ==> WordOf(1, i, j) < |data| && RawGet(data, 1, i, j) == 0)
            && !Linalg.ZeroBelow(F2Ring(), Unpack(data, 1, 2), 0, 1)
  {
    FirstNonZeroEntryMisread();
  }

  /** The elimination loop of `rref` as written: it calls
      `get_element(i, lead)`, so it tests bit i of row lead where column
      lead of row i is meant, and adds the pivot row r to each row that
      passes. It needs every such read to land inside the words. The pivot
      row stays; every other row is kept or has row r added once; and where
      no read as written sees a one, nothing changes. */
  method ClearColumnAsWritten(m: F2Matrix, r: nat, lead: nat)
    requires m.Valid() && r < m.codomain && lead < m.domain
    requires forall i :: 0 <= i < m.codomain ==> WordOf(m.domain, i, lead) < |m.data|
    modifies m
    ensures m.Valid() && m.domain == old(m.domain) && m.codomain == old(m.codomain)
    ensures m.Value().rows[r] == old(m.Value()).rows[r]
    ensures forall y :: 0 <= y < m.codomain && y != r ==>
              m.Value().rows[y] == old(m.Value()).rows[y] ||
              m.Value().rows[y] == AddRowMultiple(F2Ring(), old(m.Value()), y, r, 1).rows[y]
    ensures (forall i :: 0 <= i < m.codomain && i != r ==> RawGet(old(m.data), m.domain, i, lead) == 0) ==>
              m.data == old(m.data)
  {
    ghost var m0 := m.Value();
    for i := 0 to m.codomain
      invariant m.Valid() && m.domain == old(m.domain) && m.codomain == old(m.codomain) && |m.data| == old(|m.data|)
      invariant m.Value().rows[r] == m0.rows[r]
      invariant forall y :: i <= y < m.codomain ==> m.Value().rows[y] == m0.rows[y]
      invariant forall y :: 0 <= y < i && y != r ==>
                  m.Value().rows[y] == m0.rows[y] || m.Value().rows[y] == AddRowMultiple(F2Ring(), m0, y, r, 1).rows[y]
      invariant (forall i' :: 0 <= i' < i && i' != r ==> RawGet(old(m.data), m.domain, i', lead) == 0) ==>
                  m.data == old(m.data)
    {
      if i != r && RawGet(m.data, m.domain, i, lead) == 1 {
        AddRowToRow(m, r, i);
      }
    }
  }

  /** The rows (1 0) and (1 0), pivot row 0 and column 0: the entry of row
      1 in column 0 is one, so the elimination is meant to add row 0 to
      row 1; as written the test reads bit 1 of row 0, which is zero, so
      row 1 keeps its one below the pivot. */
  lemma ClearMisread()
    ensures var data: seq<bv64> := [1, 1];
            && |data| == WordsPerRow(2) * 2 && PaddingClear(data, 2, 2)
            && (forall i :: 0 <= i < 2 ==> WordOf(2, i, 0) < |data|)
            && RawGet(data, 2, 1, 0) == 0
            && At(Unpack(data, 2, 2), 0, 1) == 1 && At(Unpack(data, 2, 2), 0, 0) == 1
  {
    var data: seq<bv64> := [1, 1];
    OnesPaddingClear();
    OneWordBits(BitIndex(1));
    OneWordBits(BitIndex(0));
    assert Slot(data, 2, 2, 0, 1) == WordBit(1, BitIndex(0));
    assert Slot(data, 2, 2, 0, 0) == WordBit(1, BitIndex(0));
  }

  /** Two rows of width 2 holding the word 1 each have clear padding. */
  lemma OnesPaddingClear()
    ensures WordsPerRow(2) == 1 && PaddingClear([1, 1], 2, 2)
  {
    var data: seq<bv64> := [1, 1];
    assert WordsPerRow(2) == 1;
    forall x, y | 2 <= x < 64 && 0 <= y < 2 ensures Slot(data, 2, 2, x, y) == 0 {
      var t := BitIndex(x % 64);
      assert t != 0;
      OneWordBits(t);
      assert Slot(data, 2, 2, x, y) == WordBit(1, t);
    }
  }

  /** The inner loop of `is_rref` as written: it calls
      `get_element(row, pivot_col)`, so it reads bit `row` of row `col`. */
  method OnlyEntryInColumnAsWritten(m: F2Matrix, col: nat, prow: nat) returns (b: bool)
    requires m.Valid() && col < m.domain
    requires forall row :: 0 <= row < m.codomain ==> WordOf(m.domain, row, col) < |m.data|
    ensures b <==> forall row :: 0 <= row < m.codomain && row != prow ==> RawGet(m.data, m.domain, row, col) == 0
  {
    for row := 0 to m.codomain
      invariant forall row' :: 0 <= row' < row && row' != prow ==> RawGet(m.data, m.domain, row', col) == 0
    {
      if row != prow && RawGet(m.data, m.domain, row, col) != 0 {
        return false;
      }
    }
    return true;
  }

  /** The word 3 has bits 0 and 1 set and no other. */
  lemma ThreeWordBits(t: bv64)
    requires t < 64
    ensures WordBit(3, t) == if t < 2 then 1 else 0
  {
  }

  /** The words [3, 0] hold the 2 × 2 matrix with rows (1 1) and (0 0). */
  lemma ThreeZeroUnpacks()
    ensures var data: seq<bv64> := [3, 0];
            && |data| == WordsPerRow(2) * 2 && PaddingClear(data, 2, 2)
            && Unpack(data, 2, 2) == Mat(2, 2, [[1, 1], [0, 0]])
  {
    var data: seq<bv64> := [3, 0];
    assert WordsPerRow(2) == 1;
    forall x, y | 0 <= x < 64 && 0 <= y < 2
      ensures Slot(data, 2, 2, x, y) == if y == 0 && x < 2 then 1 else 0
    {
      ZeroWordBit(BitIndex(x % 64));
      ThreeWordBits(BitIndex(x % 64));
    }
    var m := Unpack(data, 2, 2);
    assert m.rows[0] == [1, 1] && m.rows[1] == [0, 0];
  }

  /** The rows (1 1) and (0 0) have the one pivot (0, 0) and pass the check. */
  lemma OneRowPasses()
    ensures var m := Mat(2, 2, [[1, 1], [0, 0]]);
            && Shaped(m)
            && Linalg.PivotScan(F2Ring(), m, 0, 0) == [(0, 0)]
            && PassesRrefCheck(m)
  {
    var m: Mat<bv8> := Mat(2, 2, [[1, 1], [0, 0]]);
    var R := F2Ring();
    assert Linalg.PivotScan(R, m, 1, 2) == [];
    assert Linalg.PivotScan(R, m, 1, 1) == Linalg.PivotScan(R, m, 1, 2);
    assert Linalg.PivotScan(R, m, 0, 0) == [(0, 0)] + Linalg.PivotScan(R, m, 1, 1);
  }

  /** The 2 × 2 matrix with rows (1 1) and (0 0) is reduced: its one pivot
      is (0, 0) and it passes the check with the intended reads. As
      written, the check of pivot column 0 reads "row 1" as bit 1 of row 0,
      which is one, so `is_rref` answers false. */
  lemma IsRrefMisread()
    ensures var data: seq<bv64> := [3, 0];
            && |data| == WordsPerRow(2) * 2 && PaddingClear(data, 2, 2)
            && (forall row :: 0 <= row < 2 ==> WordOf(2, row, 0) < |data|)
            && RawGet(data, 2, 1, 0) == 1
            && Linalg.PivotScan(F2Ring(), Unpack(data, 2, 2), 0, 0) == [(0, 0)]
            && PassesRrefCheck(Unpack(data, 2, 2))
  {
    ThreeZeroUnpacks();
    OneRowPasses();
    ThreeWordBits(BitIndex(1));
  }

  // ---------------------------------------------------------------------
  // Kernels

  /** One round of the row loop of `rref_kernel`: a one at free[i] in row i,
      then the entry of row j in the free column at the j-th pivot column
      (over F2 the negation is the entry itself). The source guards the
      write with `row < codomain && free_var < domain`, which always holds
      since there are at most codomain pivots. */
  method WriteKernelRow(m: F2Matrix, k: F2Matrix, pc: seq<nat>, free: seq<nat>, i: nat)
    requires m.Valid() && k.Valid() && k != m
    requires Linalg.KernelInputs(m.Value(), pc) && forall j :: 0 <= j < |free| ==> free[j] < m.domain
    requires i < |free| && k.domain == m.domain && k.codomain == |free|
    requires k.Value() == Linalg.PartialKernel(F2Ring(), m.Value(), pc, free, i)
    modifies k
    ensures k.Valid() && k.domain == m.domain && k.codomain == |free|
    ensures k.Value() == Linalg.PartialKernel(F2Ring(), m.Value(), pc, free, i + 1)
  {
    ghost var R := F2Ring();
    var f := free[i];
    ghost var mv := m.Value();
    Linalg.PartialKernelStart(R, mv, pc, free, i);
    k.SetElement(f, i, 1);
    for row := 0 to |pc|
      invariant k.Valid() && k.domain == mv.domain && k.codomain == |free|
      invariant k.Value() == Linalg.WithRow(Linalg.PartialKernel(R, mv, pc, free, i), i, Linalg.KernelRowUpTo(R, mv, pc, f, row))
    {
      Linalg.PartialKernelWrite(R, mv, pc, free, i, row);
      k.SetElement(pc[row], i, m.GetElement(f, row));
    }
    Linalg.PartialKernelNext(R, mv, pc, free, i);
  }

  /** `rref_kernel`: one row per column without a pivot, with a one at that
      column and, at the column of the j-th pivot, the entry of row j in the
      free column. */
  method RrefKernel(m: F2Matrix) returns (k: F2Matrix)
    requires m.Valid()
    ensures fresh(k) && k.Valid()
    ensures var pc := Linalg.PivotCols(Linalg.PivotScan(F2Ring(), m.Value(), 0, 0));
            k.Value() == Linalg.KernelMat(F2Ring(), m.Value(), pc, Linalg.FreeCols(m.domain, pc))
  {
    var ps := Pivots(m);
    var pc := Linalg.PivotCols(ps);
    var d := m.domain;
    var free := Linalg.FreeColumns(d, pc);
    var nf := |free|;
    k := new F2Matrix.Zero(d, nf);
    Linalg.PartialKernelEnds(F2Ring(), m.Value(), pc, free);
    for i := 0 to nf
      invariant k.Valid() && k.domain == d && k.codomain == nf
      invariant k.Value() == Linalg.PartialKernel(F2Ring(), m.Value(), pc, free, i)
    {
      WriteKernelRow(m, k, pc, free, i);
    }
  }

  /** `rref_kernel` on a reduced matrix c with pivot columns piv. */
  method ReducedKernelRows(c: F2Matrix, ghost piv: seq<nat>) returns (k0: F2Matrix)
    requires c.Valid() && Linalg.IsRref(F2Ring(), c.Value(), piv)
    ensures Linalg.KernelInputs(c.Value(), piv)
    ensures fresh(k0) && k0.Valid() && k0.Value() == Linalg.KernelMat(F2Ring(), c.Value(), piv, Linalg.FreeCols(c.domain, piv))
  {
    F2IsField();
    k0 := RrefKernel(c);
    UnpackElems(c.data, c.domain, c.codomain);
    Linalg.PivotsOfRref(F2Ring(), c.Value(), piv);
    Linalg.RrefKernelSound(F2Ring(), c.Value(), piv);
  }

  /** `kernel`: reduce a clone, read off the kernel rows, reduce those. The
      rows are vectors m sends to zero and span all of them, the result is itself reduced, has
      one row per column of m without a pivot, and is zero exactly when the
      kernel of m is trivial. */
  method Kernel(m: F2Matrix) returns (k: F2Matrix, ghost s: Mat<bv8>, ghost piv: seq<nat>)
    requires m.Valid()
    ensures fresh(k) && k.Valid() && k.domain == m.domain
    ensures Linalg.RowEquivalent(F2Ring(), m.Value(), s) && Linalg.IsRref(F2Ring(), s, piv)
    ensures k.codomain == m.domain - |piv|
    ensures Annihilates(F2Ring(), m.Value(), k.Value()) && SpansKernel(F2Ring(), m.Value(), k.Value())
    ensures exists kpiv :: Linalg.IsRref(F2Ring(), k.Value(), kpiv) && |kpiv| == k.codomain
    ensures Linalg.AllZero(F2Ring(), k.Value()) <==> TrivialKernel(F2Ring(), m.Value())
  {
    F2IsField();
    ghost var R := F2Ring();
    ghost var a := m.Value();
    UnpackElems(m.data, m.domain, m.codomain);
    var c := m.Clone();
    ghost var u, w;
    piv, u, w := Rref(c);
    s := c.Value();
    var k0 := ReducedKernelRows(c, piv);
    ghost var k0v := k0.Value();
    UnpackElems(k0.data, k0.domain, k0.codomain);
    ghost var kpiv, u2, w2;
    kpiv, u2, w2 := Rref(k0);
    k := k0;
    ghost var kv := k.Value();
    Linalg.KernelOfReduced(R, a, s, piv, u, w, k0v, kv, u2, w2);
    Linalg.KernelZeroIffTrivial(R, a, s, piv, u, w, k0v, kv, u2, w2);
    Linalg.ReducedKernelFullRank(R, s, piv, k0v, kv, kpiv, u2, w2);
    assert Linalg.IsRref(R, kv, kpiv);
    assert RowTransforms(R, a, s, u, w);
  }

  /** `kernel_find_single_generator`: the column of the first nonzero entry
      of the kernel, or None when the kernel is trivial. */
  method KernelFindSingleGenerator(m: F2Matrix) returns (g: Option<nat>)
    requires m.Valid()
    ensures g.None? <==> TrivialKernel(F2Ring(), m.Value())
    ensures g.Some? ==> g.value < m.domain && Linalg.Generates(F2Ring(), m.Value(), g.value)
    ensures g.Some? ==> forall c :: 0 <= c < g.value ==> !Linalg.Generates(F2Ring(), m.Value(), c)
  {
    var k, s, piv := Kernel(m);
    var e := FirstNonZeroEntry(k);
    if e.Some? {
      var row, col := e.value.0, e.value.1;
      ghost var v := k.Value().rows[row];
      assert KernelVector(F2Ring(), m.Value(), v);
      assert v[col] == At(k.Value(), col, row);
      LeastGenerator(m.Value(), k.Value(), row, col);
      g := Some(col);
    } else {
      g := None;
    }
  }

  /** The column of the first nonzero entry of a reduced spanning kernel
      matrix is the least column any kernel vector is nonzero at. */
  lemma LeastGenerator(m: Mat<bv8>, k: Mat<bv8>, row: nat, col: nat)
    requires SpansKernel(F2Ring(), m, k) && exists kpiv :: Linalg.IsRref(F2Ring(), k, kpiv)
    requires row < k.codomain && col < k.domain && At(k, col, row) == 1
    requires forall x, y :: 0 <= x < k.domain && 0 <= y < k.codomain && (y < row || (y == row && x < col))
               ==> At(k, x, y) == 0
    ensures forall c :: 0 <= c < col ==> !Linalg.Generates(F2Ring(), m, c)
  {
    F2IsField();
    var kpiv :| Linalg.IsRref(F2Ring(), k, kpiv);
    Linalg.FirstEntryOfReduced(F2Ring(), k, kpiv, row, col);
    forall c | 0 <= c < col ensures !Linalg.Generates(F2Ring(), m, c) {
      Linalg.ZeroColumnGeneratesNothing(F2Ring(), m, k, c);
    }
  }

  // ---------------------------------------------------------------------
  // Kernel destroyers

  /** One round of `kernel_destroyers` on the matrix: a zero row, then a one
      at column p. */
  method AddUnitRow(mat: F2Matrix, ghost a: Mat<bv8>, ghost ps: seq<nat>, p: nat)
    requires Shaped(a) && mat.Valid() && mat.Value() == Linalg.WithUnitRows(F2Ring(), a, ps) && p < a.domain
    modifies mat
    ensures mat.Valid() && mat.Value() == Linalg.WithUnitRows(F2Ring(), a, ps + [p])
  {
    var codom := mat.codomain;
    mat.ExtendOneRow();
    mat.SetElement(p, codom, 1);
    Linalg.WithUnitRowsStep(F2Ring(), a, ps, p);
  }

  /** `kernel_destroyers`: while the kernel is not trivial, append the unit
      row at a column some kernel vector uses. Each chosen column is new, so
      the loop stops after at most `domain` rounds, and at the end the grown
      matrix has a trivial kernel. */
  method KernelDestroyers(m: F2Matrix) returns (pivots: seq<nat>)
    requires m.Valid()
    ensures Linalg.Distinct(pivots) && forall k :: 0 <= k < |pivots| ==> pivots[k] < m.domain
    ensures forall k :: 0 <= k < |pivots| ==> Linalg.Generates(F2Ring(), Linalg.WithUnitRows(F2Ring(), m.Value(), pivots[..k]), pivots[k])
    ensures TrivialKernel(F2Ring(), Linalg.WithUnitRows(F2Ring(), m.Value(), pivots))
  {
    F2IsField();
    ghost var a := m.Value();
    pivots := [];
    var mat := m.Clone();
    assert Linalg.WithUnitRows(F2Ring(), a, []) == a;
    var g := KernelFindSingleGenerator(mat);
    while g.Some?
      invariant fresh(mat) && mat.Valid() && mat.Value() == Linalg.WithUnitRows(F2Ring(), a, pivots)
      invariant Linalg.Distinct(pivots) && forall k :: 0 <= k < |pivots| ==> pivots[k] < a.domain
      invariant |pivots| <= a.domain
      invariant forall k :: 0 <= k < |pivots| ==> Linalg.Generates(F2Ring(), Linalg.WithUnitRows(F2Ring(), a, pivots[..k]), pivots[k])
      invariant g.None? <==> TrivialKernel(F2Ring(), mat.Value())
      invariant g.Some? ==> g.value < a.domain && Linalg.Generates(F2Ring(), mat.Value(), g.value)
      decreases a.domain - |pivots|
    {
      var p := g.value;
      Linalg.GeneratorsStep(F2Ring(), a, pivots, p);
      AddUnitRow(mat, a, pivots, p);
      pivots := pivots + [p];
      g := KernelFindSingleGenerator(mat);
    }
  }

  // ---------------------------------------------------------------------
  // Cokernel

  /** The `repr_vecs` matrix of `cokernel`: n columns and d rows, with a one
      at (k, piv[k]) for each pivot and zeros elsewhere. */
  function Selector(n: nat, d: nat, piv: seq<nat>): (s: Mat<bv8>)
    ensures Shaped(s) && s.domain == n && s.codomain == d
    ensures forall x, y :: 0 <= x < n && 0 <= y < d ==> At(s, x, y) == if x < |piv| && piv[x] == y then 1 else 0
  {
    Mat(n, d, seq(d, y => seq(n, x => if 0 <= x < |piv| && piv[x] == y then 1 else 0)))
  }

  /** The n × n matrix with ones at (k, k) for k < r and zeros elsewhere. */
  function PartialIdentity(n: nat, r: nat): (p: Mat<bv8>)
    ensures Shaped(p) && p.domain == n && p.codomain == n
    ensures forall x, y :: 0 <= x < n && 0 <= y < n ==> At(p, x, y) == if x == y && x < r then 1 else 0
  {
    Mat(n, n, seq(n, y => seq(n, x => if x == y && x < r then 1 else 0)))
  }

  /** A reduced matrix composed with its selector is the identity on the
      pivot rows and zero on the others; it is the identity, as `cokernel`
      asserts in debug builds, exactly when every row holds a pivot. */
  lemma SelectorRightInverse(a: Mat<bv8>, piv: seq<nat>)
    requires Linalg.IsRref(F2Ring(), a, piv) && Elems(F2Ring(), a)
    ensures Compose(F2Ring(), a, Selector(a.codomain, a.domain, piv)) == PartialIdentity(a.codomain, |piv|)
    ensures Compose(F2Ring(), a, Selector(a.codomain, a.domain, piv)) == IdentityMat(F2Ring(), a.codomain)
            <==> |piv| == a.codomain
  {
    F2IsField();
    var R := F2Ring();
    var s := Selector(a.codomain, a.domain, piv);
    var e := Compose(R, a, s);
    var p := PartialIdentity(a.codomain, |piv|);
    forall x, y | 0 <= x < a.codomain && 0 <= y < a.codomain ensures At(e, x, y) == At(p, x, y) {
      var row := a.rows[y];
      assert ElemsSeq(R, row);
      if x < |piv| {
        assert Column(s, x) == UnitVec(R, a.domain, piv[x]);
        DotUnit(R, row, piv[x]);
        assert At(e, x, y) == At(a, piv[x], y);
      } else {
        assert Column(s, x) == Zeros(R.zero, a.domain);
        DotZerosLeft(R, row);
        assert At(e, x, y) == 0;
      }
    }
    Extensionality(e, p);
    if |piv| < a.codomain {
      assert At(p, |piv|, |piv|) != At(IdentityMat(R, a.codomain), |piv|, |piv|);
    } else {
      Extensionality(p, IdentityMat(R, a.codomain));
    }
  }

  /** The `repr_vecs` loop of `cokernel`: from the zero matrix, set a one at
      (row, column) for each pivot (column, row) reported. */
  method ReprVecs(n: nat, d: nat, p: seq<(nat, nat)>, ghost piv: seq<nat>) returns (repr: F2Matrix)
    requires p == Linalg.PivotPairs(piv, 0) && |piv| <= n && forall k :: 0 <= k < |piv| ==> piv[k] < d
    ensures fresh(repr) && repr.Valid() && repr.Value() == Selector(n, d, piv)
  {
    repr := new F2Matrix.Zero(n, d);
    Extensionality(repr.Value(), Selector(n, d, piv[..0]));
    for i := 0 to |p|
      invariant repr.Valid() && repr.Value() == Selector(n, d, piv[..i])
    {
      var (domain, codomain) := p[i];
      SelectorGrows(n, d, piv, i);
      repr.SetElement(codomain, domain, 1);
    }
    assert piv[..|p|] == piv;
  }

  /** Setting the one of pivot i extends the selector of the pivots before
      it to the selector of the pivots up to it. */
  lemma SelectorGrows(n: nat, d: nat, piv: seq<nat>, i: nat)
    requires i < |piv| <= n && piv[i] < d
    ensures SetAt(Selector(n, d, piv[..i]), i, piv[i], 1) == Selector(n, d, piv[..i + 1])
  {
    var a, b := SetAt(Selector(n, d, piv[..i]), i, piv[i], 1), Selector(n, d, piv[..i + 1]);
    forall x, y | 0 <= x < n && 0 <= y < d ensures At(a, x, y) == At(b, x, y) {
      GetAfterSet(Selector(n, d, piv[..i]), i, piv[i], 1, x, y);
    }
    Extensionality(a, b);
  }

  /** `cokernel`: the kernel of the transpose, and the selector of its
      pivots (`repr_vecs`), set from what `pivots` reports. Every row of the
      reduced kernel holds a pivot, so the cokernel composed with the
      selector is the identity, as the `debug_assert!` of `cokernel` checks. */
  method Cokernel(m: F2Matrix) returns (coker: F2Matrix, repr: F2Matrix, ghost kpiv: seq<nat>)
    requires m.Valid()
    ensures fresh(coker) && coker.Valid() && coker.domain == m.codomain
    ensures Annihilates(F2Ring(), Transpose(m.Value()), coker.Value())
    ensures SpansKernel(F2Ring(), Transpose(m.Value()), coker.Value())
    ensures Linalg.AllZero(F2Ring(), coker.Value()) <==> TrivialKernel(F2Ring(), Transpose(m.Value()))
    ensures Linalg.IsRref(F2Ring(), coker.Value(), kpiv)
    ensures fresh(repr) && repr.Valid() && repr.Value() == Selector(coker.codomain, coker.domain, kpiv)
    ensures Compose(F2Ring(), coker.Value(), repr.Value()) == PartialIdentity(coker.codomain, |kpiv|)
    ensures |kpiv| == coker.codomain
    ensures Compose(F2Ring(), coker.Value(), repr.Value()) == IdentityMat(F2Ring(), coker.codomain)
  {
    F2IsField();
    var t := m.Transpose();
    ghost var s, piv;
    coker, s, piv := Kernel(t);
    kpiv :| Linalg.IsRref(F2Ring(), coker.Value(), kpiv) && |kpiv| == coker.codomain;
    var p := Pivots(coker);
    Linalg.PivotsOfRref(F2Ring(), coker.Value(), kpiv);
    repr := ReprVecs(coker.codomain, coker.domain, p, kpiv);
    UnpackElems(coker.data, coker.domain, coker.codomain);
    SelectorRightInverse(coker.Value(), kpiv);
  }

  // ---------------------------------------------------------------------
  // The reduced-form check

  /** What `is_rref` checks: the pivots `pivots` reports have increasing
      columns and each is the only nonzero entry in its column. */
  ghost predicate PassesRrefCheck(m: Mat<bv8>)
    requires Shaped(m)
  {
    var ps := Linalg.PivotScan(F2Ring(), m, 0, 0);
    && (forall k :: 1 <= k < |ps| ==> ps[k - 1].0 < ps[k].0)
    && (forall k, row :: 0 <= k < |ps| && 0 <= row < m.codomain && row != ps[k].1 ==> At(m, ps[k].0, row) == 0)
  }

  /** The first loop of `is_rref`: the reported pivot columns increase. */
  method ColumnsIncrease(ps: seq<(nat, nat)>) returns (b: bool)
    ensures b <==> forall k :: 1 <= k < |ps| ==> ps[k - 1].0 < ps[k].0
  {
    var i := 1;
    while i < |ps|
      invariant 1 <= i && (|ps| > 0 ==> i <= |ps|)
      invariant forall k :: 1 <= k < i && k < |ps| ==> ps[k - 1].0 < ps[k].0
    {
      if ps[i].0 <= ps[i - 1].0 {
        return false;
      }
      i := i + 1;
    }
    return true;
  }

  /** The inner loop of `is_rref`: column `col` is zero outside row `prow`.
      This reads column col of each row, the intended entry; the source's
      `get_element(row, pivot_col)` swaps the arguments
      (`OnlyEntryInColumnAsWritten`). */
  method OnlyEntryInColumn(m: F2Matrix, col: nat, prow: nat) returns (b: bool)
    requires m.Valid() && col < m.domain
    ensures b <==> forall row :: 0 <= row < m.codomain && row != prow ==> At(m.Value(), col, row) == 0
  {
    for row := 0 to m.codomain
      invariant forall row' :: 0 <= row' < row && row' != prow ==> At(m.Value(), col, row') == 0
    {
      if row != prow && m.GetElement(col, row) != 0 {
        return false;
      }
    }
    return true;
  }

  /** The second loop of `is_rref`: each reported pivot is the only nonzero
      entry of its column. */
  method PivotsAlone(m: F2Matrix, ps: seq<(nat, nat)>) returns (b: bool)
    requires m.Valid() && forall k :: 0 <= k < |ps| ==> ps[k].0 < m.domain
    ensures b <==> forall k, row :: 0 <= k < |ps| && 0 <= row < m.codomain && row != ps[k].1 ==> At(m.Value(), ps[k].0, row) == 0
  {
    for k := 0 to |ps|
      invariant forall k', row :: 0 <= k' < k && 0 <= row < m.codomain && row != ps[k'].1 ==> At(m.Value(), ps[k'].0, row) == 0
    {
      var (pivotCol, pivotRow) := ps[k];
      var only := OnlyEntryInColumn(m, pivotCol, pivotRow);
      if !only {
        return false;
      }
    }
    return true;
  }

  /** `is_rref` with the intended reads: the pivots are those `pivots`
      reports, and each column is read at (pivot column, row). */
  method IsRref(m: F2Matrix) returns (b: bool)
    requires m.Valid()
    ensures b <==> PassesRrefCheck(m.Value())
  {
    var ps := Pivots(m);
    var increasing := ColumnsIncrease(ps);
    if !increasing {
      return false;
    }
    b := PivotsAlone(m, ps);
  }

  /** Every matrix in reduced row echelon form passes the check. */
  lemma ReducedPassesCheck(m: Mat<bv8>, piv: seq<nat>)
    requires Linalg.IsRref(F2Ring(), m, piv)
    ensures PassesRrefCheck(m)
  {
    F2IsField();
    Linalg.PivotsOfRref(F2Ring(), m, piv);
  }

  /** The check is weaker than the form: the rows (0 1) and (1 0) pass it,
      each column holding one pivot and nothing else, but the pivot of the
      first row lies right of that of the second. */
  lemma CheckAcceptsUnreduced()
    ensures var m := Mat(2, 2, [[0, 1], [1, 0]]);
            Shaped(m) && PassesRrefCheck(m) && forall piv :: !Linalg.IsRref(F2Ring(), m, piv)
  {
    var m: Mat<bv8> := Mat(2, 2, [[0, 1], [1, 0]]);
    var R := F2Ring();
    assert Linalg.PivotScan(R, m, 1, 2) == [];
    assert Linalg.PivotScan(R, m, 0, 1) == [(1, 0)] + Linalg.PivotScan(R, m, 1, 2);
    assert Linalg.PivotScan(R, m, 0, 0) == Linalg.PivotScan(R, m, 0, 1);
    forall piv ensures !Linalg.IsRref(R, m, piv) {
      if |piv| < 2 {
        assert At(m, 0, 1) != R.zero;
      } else if |piv| == 2 && piv[0] < piv[1] < 2 {
        assert piv[0] == 0 && At(m, 0, 0) != R.one;
      }
    }
  }
}
