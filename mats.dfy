/** Matrices as values: the specification the in-place matrix classes are
    proved against. A matrix maps a free module of rank `domain` to one of
    rank `codomain`; it has `codomain` rows of `domain` entries, and entry
    (x, y) — `get(domain, codomain)` in the Rust code — is column x of row y. */
module Mats {
  import opened Rings

  datatype Mat<T> = Mat(domain: nat, codomain: nat, rows: seq<seq<T>>)

  ghost predicate Shaped<T>(m: Mat<T>) {
    |m.rows| == m.codomain && forall y :: 0 <= y < |m.rows| ==> |m.rows[y]| == m.domain
  }

  /** Every entry is an element of the ring. */
  ghost predicate Elems<T>(R: Ring<T>, m: Mat<T>) {
    Shaped(m) && forall y, x :: 0 <= y < m.codomain && 0 <= x < m.domain ==> R.elem(m.rows[y][x])
  }

  ghost predicate ElemsSeq<T>(R: Ring<T>, s: seq<T>) {
    forall i :: 0 <= i < |s| ==> R.elem(s[i])
  }

  function At<T>(m: Mat<T>, x: nat, y: nat): T
    requires Shaped(m) && x < m.domain && y < m.codomain
  {
    m.rows[y][x]
  }

  /** Two matrices of one shape with the same entries are equal. */
  lemma Extensionality<T>(a: Mat<T>, b: Mat<T>)
    requires Shaped(a) && Shaped(b) && a.domain == b.domain && a.codomain == b.codomain
    requires forall x, y :: 0 <= x < a.domain && 0 <= y < a.codomain ==> At(a, x, y) == At(b, x, y)
    ensures a == b
  {
    forall y | 0 <= y < a.codomain ensures a.rows[y] == b.rows[y] {
      forall x | 0 <= x < a.domain ensures a.rows[y][x] == b.rows[y][x] {
        assert At(a, x, y) == At(b, x, y);
      }
    }
  }

  // ---------------------------------------------------------------------
  // Row-major storage: entry (x, y) of a matrix with `d` columns sits at
  // index y·d + x (`get_index` of flat_matrix.rs).

  function Idx(d: nat, x: nat, y: nat): nat {
    RowStart(d, y) + x
  }

  /** Where row y starts: y rows of d entries each come before it. */
  function RowStart(d: nat, y: nat): nat {
    if y == 0 then 0 else d + RowStart(d, y - 1)
  }

  lemma {:induction false} IdxIsProduct(d: nat, x: nat, y: nat)
    ensures Idx(d, x, y) == y * d + x
  {
    if y > 0 {
      IdxIsProduct(d, x, y - 1);
    }
  }

  /** The number of entries of a d × c matrix, d · c, counted row by row. */
  function Area(d: nat, c: nat): nat {
    Idx(d, 0, c)
  }

  lemma AreaIsProduct(d: nat, c: nat)
    ensures Area(d, c) == d * c
  {
    IdxIsProduct(d, 0, c);
  }

  /** In-range coordinates give an index inside the storage, and a whole
      row fits. */
  lemma IdxBound(d: nat, c: nat, x: nat, y: nat)
    requires x <= d && y < c
    ensures Idx(d, x, y) == Idx(d, 0, y) + x
    ensures Idx(d, 0, y) + d <= Area(d, c)
  {
    IdxShift(d, x, y);
    RowsOrdered(d, y, c);
  }

  lemma IdxBounds(d: nat, c: nat)
    ensures forall x, y :: 0 <= x < d && 0 <= y < c ==> Idx(d, x, y) < Area(d, c)
  {
    forall x, y | 0 <= x < d && 0 <= y < c ensures Idx(d, x, y) < Area(d, c) {
      IdxBound(d, c, x, y);
    }
  }

  /** Different in-range coordinates give different indices. */
  lemma IdxInjective(d: nat, x1: nat, y1: nat, x2: nat, y2: nat)
    requires x1 < d && x2 < d && Idx(d, x1, y1) == Idx(d, x2, y2)
    ensures x1 == x2 && y1 == y2
  {
    IdxShift(d, x1, y1);
    IdxShift(d, x2, y2);
    if y1 < y2 {
      RowsOrdered(d, y1, y2);
    } else if y2 < y1 {
      RowsOrdered(d, y2, y1);
    }
  }

  /** Within a row, indices are consecutive. */
  lemma IdxShift(d: nat, x: nat, y: nat)
    ensures Idx(d, x, y) == Idx(d, 0, y) + x
  {
  }

  /** The storage of y1 + y2 rows: y1 whole rows, then y2 more. */
  lemma IdxAdd(d: nat, x: nat, y1: nat, y2: nat)
    ensures Idx(d, x, y1 + y2) == Idx(d, 0, y1) + Idx(d, x, y2)
  {
    RowStartAdd(d, y1, y2);
  }

  lemma {:induction false} RowStartAdd(d: nat, y1: nat, y2: nat)
    ensures RowStart(d, y1 + y2) == RowStart(d, y1) + RowStart(d, y2)
  {
    if y2 > 0 {
      RowStartAdd(d, y1, y2 - 1);
    }
  }

  /** A later row starts after the whole of an earlier one. */
  lemma {:induction false} RowsOrdered(d: nat, y: nat, y2: nat)
    requires y < y2
    ensures Idx(d, 0, y) + d <= Idx(d, 0, y2)
  {
    if y + 1 < y2 {
      RowsOrdered(d, y, y2 - 1);
    }
  }

  /** The matrix stored row-major in `data`. */
  function MatOf<T>(data: seq<T>, d: nat, c: nat): (m: Mat<T>)
    requires |data| == Area(d, c)
    ensures Shaped(m) && m.domain == d && m.codomain == c
    ensures forall x, y :: 0 <= x < d && 0 <= y < c ==>
              Idx(d, x, y) < |data| && At(m, x, y) == data[Idx(d, x, y)]
  {
    var m := Mat(d, c, seq(c, y requires 0 <= y < c => RowOf(data, d, c, y)));
    assert forall x, y :: 0 <= x < d && 0 <= y < c ==> Idx(d, x, y) < |data| && At(m, x, y) == data[Idx(d, x, y)] by {
      forall x, y | 0 <= x < d && 0 <= y < c ensures Idx(d, x, y) < |data| && At(m, x, y) == data[Idx(d, x, y)] {
        assert m.rows[y] == RowOf(data, d, c, y);
      }
    }
    m
  }

  function RowOf<T>(data: seq<T>, d: nat, c: nat, y: nat): (row: seq<T>)
    requires |data| == Area(d, c) && y < c
    ensures |row| == d
    ensures forall x :: 0 <= x < d ==> Idx(d, x, y) < |data| && row[x] == data[Idx(d, x, y)]
  {
    IdxBound(d, c, d, y);
    var s := Idx(d, 0, y);
    assert forall x :: 0 <= x < d ==> Idx(d, x, y) == s + x by {
      forall x | 0 <= x < d ensures Idx(d, x, y) == s + x {
        IdxBound(d, c, x, y);
      }
    }
    data[s..s + d]
  }

  /** Storage whose entries are those of `m` stores `m`. */
  lemma MatOfEntries<T>(data: seq<T>, d: nat, c: nat, m: Mat<T>)
    requires |data| == Area(d, c) && Shaped(m) && m.domain == d && m.codomain == c
    requires forall x, y :: 0 <= x < d && 0 <= y < c ==>
               Idx(d, x, y) < |data| && data[Idx(d, x, y)] == At(m, x, y)
    ensures MatOf(data, d, c) == m
  {
    Extensionality(MatOf(data, d, c), m);
  }

  // ---------------------------------------------------------------------
  // Constructions

  function Zeros<T>(z: T, n: nat): (s: seq<T>)
    ensures |s| == n && forall i :: 0 <= i < n ==> s[i] == z
  {
    seq(n, _ => z)
  }

  function ZeroMat<T>(R: Ring<T>, d: nat, c: nat): (m: Mat<T>)
    ensures Shaped(m) && m.domain == d && m.codomain == c
    ensures forall x, y :: 0 <= x < d && 0 <= y < c ==> At(m, x, y) == R.zero
  {
    Mat(d, c, seq(c, _ => Zeros(R.zero, d)))
  }

  /** The k-th unit vector of length n. */
  function UnitVec<T>(R: Ring<T>, n: nat, k: nat): (u: seq<T>)
    ensures |u| == n
  {
    seq(n, x => if x == k then R.one else R.zero)
  }

  function IdentityMat<T>(R: Ring<T>, d: nat): (m: Mat<T>)
    ensures Shaped(m) && m.domain == d && m.codomain == d
    ensures forall x, y :: 0 <= x < d && 0 <= y < d ==> At(m, x, y) == if x == y then R.one else R.zero
  {
    Mat(d, d, seq(d, (y: nat) => UnitVec(R, d, y)))
  }

  function SetAt<T>(m: Mat<T>, x: nat, y: nat, v: T): (r: Mat<T>)
    requires Shaped(m) && x < m.domain && y < m.codomain
    ensures Shaped(r) && r.domain == m.domain && r.codomain == m.codomain
  {
    m.(rows := m.rows[y := m.rows[y][x := v]])
  }

  /** After a write, reading the written entry gives the value and every
      other entry is unchanged. */
  lemma GetAfterSet<T>(m: Mat<T>, x: nat, y: nat, v: T, x2: nat, y2: nat)
    requires Shaped(m) && x < m.domain && y < m.codomain && x2 < m.domain && y2 < m.codomain
    ensures At(SetAt(m, x, y, v), x2, y2) == if x2 == x && y2 == y then v else At(m, x2, y2)
  {
  }

  function Transpose<T>(m: Mat<T>): (r: Mat<T>)
    requires Shaped(m)
    ensures Shaped(r) && r.domain == m.codomain && r.codomain == m.domain
    ensures forall x, y :: 0 <= x < r.domain && 0 <= y < r.codomain ==> At(r, x, y) == At(m, y, x)
  {
    Mat(m.codomain, m.domain, seq(m.domain, y requires 0 <= y < m.domain => seq(m.codomain, x requires 0 <= x < m.codomain => m.rows[x][y])))
  }

  /** Transposing twice gives the matrix back. */
  lemma TransposeTwice<T>(m: Mat<T>)
    requires Shaped(m)
    ensures Transpose(Transpose(m)) == m
  {
    Extensionality(Transpose(Transpose(m)), m);
  }

  function VStack<T>(a: Mat<T>, b: Mat<T>): (r: Mat<T>)
    requires Shaped(a) && Shaped(b) && a.domain == b.domain
    ensures Shaped(r) && r.domain == a.domain && r.codomain == a.codomain + b.codomain
  {
    Mat(a.domain, a.codomain + b.codomain, a.rows + b.rows)
  }

  /** The rows of the first matrix, then those of the second. */
  lemma VStackEntries<T>(a: Mat<T>, b: Mat<T>, x: nat, y: nat)
    requires Shaped(a) && Shaped(b) && a.domain == b.domain
    requires x < a.domain && y < a.codomain + b.codomain
    ensures At(VStack(a, b), x, y) == if y < a.codomain then At(a, x, y) else At(b, x, y - a.codomain)
  {
  }

  function BlockSum<T>(R: Ring<T>, a: Mat<T>, b: Mat<T>): (r: Mat<T>)
    requires Shaped(a) && Shaped(b)
    ensures Shaped(r) && r.domain == a.domain + b.domain && r.codomain == a.codomain + b.codomain
    ensures forall x, y :: 0 <= x < r.domain && 0 <= y < r.codomain ==>
              At(r, x, y) == if x < a.domain && y < a.codomain then At(a, x, y)
                             else if a.domain <= x && a.codomain <= y then At(b, x - a.domain, y - a.codomain)
                             else R.zero
  {
    var d, c := a.domain + b.domain, a.codomain + b.codomain;
    Mat(d, c, seq(c, y requires 0 <= y < c =>
      seq(d, x requires 0 <= x < d =>
        if x < a.domain && y < a.codomain then a.rows[y][x]
        else if a.domain <= x && a.codomain <= y then b.rows[y - a.codomain][x - a.domain]
        else R.zero)))
  }

  /** `m` with the first k rows of `s` written over it, the corner of `s`
      at column x0 and row y0. */
  function Paste<T>(m: Mat<T>, s: Mat<T>, x0: nat, y0: nat, k: nat): (r: Mat<T>)
    requires Shaped(m) && Shaped(s) && x0 + s.domain <= m.domain && y0 + k <= m.codomain && k <= s.codomain
    ensures Shaped(r) && r.domain == m.domain && r.codomain == m.codomain
    ensures forall x, y :: 0 <= x < m.domain && 0 <= y < m.codomain ==>
              At(r, x, y) == if x0 <= x < x0 + s.domain && y0 <= y < y0 + k then At(s, x - x0, y - y0) else At(m, x, y)
  {
    m.(rows := seq(m.codomain, y requires 0 <= y < m.codomain =>
      if y0 <= y < y0 + k then m.rows[y][..x0] + s.rows[y - y0] + m.rows[y][x0 + s.domain..] else m.rows[y]))
  }

  /** Pasting one more row is writing it into its row. */
  lemma PasteStep<T>(m: Mat<T>, s: Mat<T>, x0: nat, y0: nat, k: nat)
    requires Shaped(m) && Shaped(s) && x0 + s.domain <= m.domain && y0 + k < m.codomain && k < s.codomain
    ensures WriteInRow(Paste(m, s, x0, y0, k), y0 + k, x0, s.rows[k]) == Paste(m, s, x0, y0, k + 1)
  {
    Extensionality(WriteInRow(Paste(m, s, x0, y0, k), y0 + k, x0, s.rows[k]), Paste(m, s, x0, y0, k + 1));
  }

  /** A block sum is a zero matrix with both matrices pasted into it. */
  lemma BlockSumIsPaste<T>(R: Ring<T>, a: Mat<T>, b: Mat<T>)
    requires Shaped(a) && Shaped(b)
    ensures var z := ZeroMat(R, a.domain + b.domain, a.codomain + b.codomain);
            BlockSum(R, a, b) == Paste(Paste(z, a, 0, 0, a.codomain), b, a.domain, a.codomain, b.codomain)
  {
    var z := ZeroMat(R, a.domain + b.domain, a.codomain + b.codomain);
    var p1 := Paste(z, a, 0, 0, a.codomain);
    var p2 := Paste(p1, b, a.domain, a.codomain, b.codomain);
    var bs := BlockSum(R, a, b);
    forall x, y | 0 <= x < bs.domain && 0 <= y < bs.codomain ensures At(bs, x, y) == At(p2, x, y) {
      assert At(p1, x, y) == if x < a.domain && y < a.codomain then At(a, x, y) else R.zero;
    }
    Extensionality(bs, p2);
  }

  function ExtendOneRow<T>(R: Ring<T>, m: Mat<T>): (r: Mat<T>)
    requires Shaped(m)
    ensures Shaped(r) && r.domain == m.domain && r.codomain == m.codomain + 1
  {
    Mat(m.domain, m.codomain + 1, m.rows + [Zeros(R.zero, m.domain)])
  }

  function SetRow<T>(m: Mat<T>, y: nat, row: seq<T>): (r: Mat<T>)
    requires Shaped(m) && y < m.codomain && |row| <= m.domain
    ensures Shaped(r) && r.domain == m.domain && r.codomain == m.codomain
  {
    m.(rows := m.rows[y := row + m.rows[y][|row|..]])
  }

  /** Row y with `row` written over its entries from column x0 on. */
  function WriteInRow<T>(m: Mat<T>, y: nat, x0: nat, row: seq<T>): (r: Mat<T>)
    requires Shaped(m) && y < m.codomain && x0 + |row| <= m.domain
    ensures Shaped(r) && r.domain == m.domain && r.codomain == m.codomain
    ensures forall x, y2 :: 0 <= x < m.domain && 0 <= y2 < m.codomain ==>
              At(r, x, y2) == if y2 == y && x0 <= x < x0 + |row| then row[x - x0] else At(m, x, y2)
  {
    m.(rows := m.rows[y := m.rows[y][..x0] + row + m.rows[y][x0 + |row|..]])
  }

  function Column<T>(m: Mat<T>, x: nat): (col: seq<T>)
    requires Shaped(m) && x < m.domain
    ensures |col| == m.codomain
    ensures forall y :: 0 <= y < m.codomain ==> col[y] == At(m, x, y)
  {
    seq(m.codomain, y requires 0 <= y < m.codomain => m.rows[y][x])
  }

  function SetColumn<T>(m: Mat<T>, x: nat, col: seq<T>): (r: Mat<T>)
    requires Shaped(m) && x < m.domain && |col| >= m.codomain
    ensures Shaped(r) && r.domain == m.domain && r.codomain == m.codomain
  {
    m.(rows := seq(m.codomain, y requires 0 <= y < m.codomain => m.rows[y][x := col[y]]))
  }

  /** Reading back a written column gives what was written; other columns
      are unchanged. */
  lemma ColumnAfterSetColumn<T>(m: Mat<T>, x: nat, col: seq<T>, x2: nat)
    requires Shaped(m) && x < m.domain && |col| >= m.codomain && x2 < m.domain
    ensures Column(SetColumn(m, x, col), x2) == if x2 == x then col[..m.codomain] else Column(m, x2)
  {
  }

  function SetRowZero<T>(R: Ring<T>, m: Mat<T>, y: nat): (r: Mat<T>)
    requires Shaped(m) && y < m.codomain
    ensures Shaped(r) && r.domain == m.domain && r.codomain == m.codomain
  {
    m.(rows := m.rows[y := Zeros(R.zero, m.domain)])
  }

  function SwapRows<T>(m: Mat<T>, a: nat, b: nat): (r: Mat<T>)
    requires Shaped(m) && a < m.codomain && b < m.codomain
    ensures Shaped(r) && r.domain == m.domain && r.codomain == m.codomain
    ensures forall x, y :: 0 <= x < m.domain && 0 <= y < m.codomain ==>
              At(r, x, y) == At(m, x, if y == a then b else if y == b then a else y)
  {
    m.(rows := m.rows[a := m.rows[b]][b := m.rows[a]])
  }

  function SwapCols<T>(m: Mat<T>, a: nat, b: nat): (r: Mat<T>)
    requires Shaped(m) && a < m.domain && b < m.domain
    ensures Shaped(r) && r.domain == m.domain && r.codomain == m.codomain
    ensures forall x, y :: 0 <= x < m.domain && 0 <= y < m.codomain ==>
              At(r, x, y) == At(m, if x == a then b else if x == b then a else x, y)
  {
    m.(rows := seq(m.codomain, y requires 0 <= y < m.codomain => m.rows[y][a := m.rows[y][b]][b := m.rows[y][a]]))
  }

  /** Rows a and b exchanged in their first j columns only: the state of a
      column-by-column row swap after j steps. */
  function SwapRowsUpTo<T>(m: Mat<T>, a: nat, b: nat, j: nat): (r: Mat<T>)
    requires Shaped(m) && a < m.codomain && b < m.codomain && j <= m.domain
    ensures Shaped(r) && r.domain == m.domain && r.codomain == m.codomain
    ensures forall x, y :: 0 <= x < m.domain && 0 <= y < m.codomain ==>
              At(r, x, y) == At(m, x, if x < j && y == a then b else if x < j && y == b then a else y)
  {
    m.(rows := m.rows[a := m.rows[b][..j] + m.rows[a][j..]][b := m.rows[a][..j] + m.rows[b][j..]])
  }

  /** One more column of a row swap: two writes. */
  lemma SwapRowsStep<T>(m: Mat<T>, a: nat, b: nat, j: nat)
    requires Shaped(m) && a < m.codomain && b < m.codomain && a != b && j < m.domain
    ensures SetAt(SetAt(SwapRowsUpTo(m, a, b, j), j, a, At(m, j, b)), j, b, At(m, j, a)) == SwapRowsUpTo(m, a, b, j + 1)
  {
    var p := SwapRowsUpTo(m, a, b, j);
    var q := SetAt(SetAt(p, j, a, At(m, j, b)), j, b, At(m, j, a));
    forall x, y | 0 <= x < m.domain && 0 <= y < m.codomain ensures At(q, x, y) == At(SwapRowsUpTo(m, a, b, j + 1), x, y) {
      GetAfterSet(p, j, a, At(m, j, b), x, y);
      GetAfterSet(SetAt(p, j, a, At(m, j, b)), j, b, At(m, j, a), x, y);
    }
    Extensionality(q, SwapRowsUpTo(m, a, b, j + 1));
  }

  /** No column swapped is the matrix itself; all of them is the row swap. */
  lemma SwapRowsUpToEnds<T>(m: Mat<T>, a: nat, b: nat)
    requires Shaped(m) && a < m.codomain && b < m.codomain
    ensures SwapRowsUpTo(m, a, b, 0) == m
    ensures SwapRowsUpTo(m, a, b, m.domain) == SwapRows(m, a, b)
  {
    Extensionality(SwapRowsUpTo(m, a, b, 0), m);
    Extensionality(SwapRowsUpTo(m, a, b, m.domain), SwapRows(m, a, b));
  }

  /** Columns a and b exchanged in their first i rows only. */
  function SwapColsUpTo<T>(m: Mat<T>, a: nat, b: nat, i: nat): (r: Mat<T>)
    requires Shaped(m) && a < m.domain && b < m.domain && i <= m.codomain
    ensures Shaped(r) && r.domain == m.domain && r.codomain == m.codomain
    ensures forall x, y :: 0 <= x < m.domain && 0 <= y < m.codomain ==>
              At(r, x, y) == At(m, if y < i && x == a then b else if y < i && x == b then a else x, y)
  {
    m.(rows := seq(m.codomain, y requires 0 <= y < m.codomain =>
      if y < i then m.rows[y][a := m.rows[y][b]][b := m.rows[y][a]] else m.rows[y]))
  }

  /** One more row of a column swap: two writes. */
  lemma SwapColsStep<T>(m: Mat<T>, a: nat, b: nat, i: nat)
    requires Shaped(m) && a < m.domain && b < m.domain && a != b && i < m.codomain
    ensures SetAt(SetAt(SwapColsUpTo(m, a, b, i), a, i, At(m, b, i)), b, i, At(m, a, i)) == SwapColsUpTo(m, a, b, i + 1)
  {
    var p := SwapColsUpTo(m, a, b, i);
    var q := SetAt(SetAt(p, a, i, At(m, b, i)), b, i, At(m, a, i));
    forall x, y | 0 <= x < m.domain && 0 <= y < m.codomain ensures At(q, x, y) == At(SwapColsUpTo(m, a, b, i + 1), x, y) {
      GetAfterSet(p, a, i, At(m, b, i), x, y);
      GetAfterSet(SetAt(p, a, i, At(m, b, i)), b, i, At(m, a, i), x, y);
    }
    Extensionality(q, SwapColsUpTo(m, a, b, i + 1));
  }

  lemma SwapColsUpToEnds<T>(m: Mat<T>, a: nat, b: nat)
    requires Shaped(m) && a < m.domain && b < m.domain
    ensures SwapColsUpTo(m, a, b, 0) == m
    ensures SwapColsUpTo(m, a, b, m.codomain) == SwapCols(m, a, b)
  {
    Extensionality(SwapColsUpTo(m, a, b, 0), m);
    Extensionality(SwapColsUpTo(m, a, b, m.codomain), SwapCols(m, a, b));
  }

  /** The entries of `e` before position (col, row) in row-major order, the
      entries of `m` from there on: a matrix being filled row by row. */
  function Overwrite<T>(m: Mat<T>, e: Mat<T>, row: nat, col: nat): (r: Mat<T>)
    requires Shaped(m) && Shaped(e) && e.domain == m.domain && e.codomain == m.codomain
    requires row <= m.codomain && col <= m.domain
    ensures Shaped(r) && r.domain == m.domain && r.codomain == m.codomain
    ensures forall x, y :: 0 <= x < m.domain && 0 <= y < m.codomain ==>
              At(r, x, y) == if y < row || (y == row && x < col) then At(e, x, y) else At(m, x, y)
  {
    m.(rows := seq(m.codomain, y requires 0 <= y < m.codomain =>
      if y < row then e.rows[y] else if y == row then e.rows[y][..col] + m.rows[y][col..] else m.rows[y]))
  }

  /** Filling one more entry is one write. */
  lemma OverwriteStep<T>(m: Mat<T>, e: Mat<T>, row: nat, col: nat)
    requires Shaped(m) && Shaped(e) && e.domain == m.domain && e.codomain == m.codomain
    requires row < m.codomain && col < m.domain
    ensures SetAt(Overwrite(m, e, row, col), col, row, At(e, col, row)) == Overwrite(m, e, row, col + 1)
  {
    var p := Overwrite(m, e, row, col);
    forall x, y | 0 <= x < m.domain && 0 <= y < m.codomain
      ensures At(SetAt(p, col, row, At(e, col, row)), x, y) == At(Overwrite(m, e, row, col + 1), x, y)
    {
      GetAfterSet(p, col, row, At(e, col, row), x, y);
    }
    Extensionality(SetAt(p, col, row, At(e, col, row)), Overwrite(m, e, row, col + 1));
  }

  /** A filled row is the start of the next one; nothing filled is `m`, all
      of it is `e`. */
  lemma OverwriteEnds<T>(m: Mat<T>, e: Mat<T>)
    requires Shaped(m) && Shaped(e) && e.domain == m.domain && e.codomain == m.codomain
    ensures Overwrite(m, e, 0, 0) == m
    ensures Overwrite(m, e, m.codomain, 0) == e
    ensures forall row :: 0 <= row < m.codomain ==> Overwrite(m, e, row, m.domain) == Overwrite(m, e, row + 1, 0)
  {
    Extensionality(Overwrite(m, e, 0, 0), m);
    Extensionality(Overwrite(m, e, m.codomain, 0), e);
    forall row | 0 <= row < m.codomain ensures Overwrite(m, e, row, m.domain) == Overwrite(m, e, row + 1, 0) {
      Extensionality(Overwrite(m, e, row, m.domain), Overwrite(m, e, row + 1, 0));
    }
  }

  /** When `e` differs from `m` in one row only, filling that row goes from
      `m` to `e`. */
  lemma OverwriteOneRow<T>(m: Mat<T>, e: Mat<T>, row: nat)
    requires Shaped(m) && Shaped(e) && e.domain == m.domain && e.codomain == m.codomain && row < m.codomain
    requires forall y :: 0 <= y < m.codomain && y != row ==> e.rows[y] == m.rows[y]
    ensures Overwrite(m, e, row, 0) == m && Overwrite(m, e, row, m.domain) == e
  {
    Extensionality(Overwrite(m, e, row, 0), m);
    Extensionality(Overwrite(m, e, row, m.domain), e);
  }

  /** The entries of `e` before position (col, row) in column-major order,
      the entries of `m` from there on: a matrix being filled column by
      column. */
  function OverwriteCols<T>(m: Mat<T>, e: Mat<T>, col: nat, row: nat): (r: Mat<T>)
    requires Shaped(m) && Shaped(e) && e.domain == m.domain && e.codomain == m.codomain
    requires col <= m.domain && row <= m.codomain
    ensures Shaped(r) && r.domain == m.domain && r.codomain == m.codomain
    ensures forall x, y :: 0 <= x < m.domain && 0 <= y < m.codomain ==>
              At(r, x, y) == if x < col || (x == col && y < row) then At(e, x, y) else At(m, x, y)
  {
    m.(rows := seq(m.codomain, y requires 0 <= y < m.codomain =>
      seq(m.domain, x requires 0 <= x < m.domain =>
        if x < col || (x == col && y < row) then e.rows[y][x] else m.rows[y][x])))
  }

  /** Filling one more entry of a column is one write. */
  lemma OverwriteColsStep<T>(m: Mat<T>, e: Mat<T>, col: nat, row: nat)
    requires Shaped(m) && Shaped(e) && e.domain == m.domain && e.codomain == m.codomain
    requires col < m.domain && row < m.codomain
    ensures SetAt(OverwriteCols(m, e, col, row), col, row, At(e, col, row)) == OverwriteCols(m, e, col, row + 1)
  {
    var p := OverwriteCols(m, e, col, row);
    forall x, y | 0 <= x < m.domain && 0 <= y < m.codomain
      ensures At(SetAt(p, col, row, At(e, col, row)), x, y) == At(OverwriteCols(m, e, col, row + 1), x, y)
    {
      GetAfterSet(p, col, row, At(e, col, row), x, y);
    }
    Extensionality(SetAt(p, col, row, At(e, col, row)), OverwriteCols(m, e, col, row + 1));
  }

  /** A filled column is the start of the next one; nothing filled is `m`,
      all of it is `e`. */
  lemma OverwriteColsEnds<T>(m: Mat<T>, e: Mat<T>)
    requires Shaped(m) && Shaped(e) && e.domain == m.domain && e.codomain == m.codomain
    ensures OverwriteCols(m, e, 0, 0) == m
    ensures OverwriteCols(m, e, m.domain, 0) == e
    ensures forall col :: 0 <= col < m.domain ==> OverwriteCols(m, e, col, m.codomain) == OverwriteCols(m, e, col + 1, 0)
  {
    Extensionality(OverwriteCols(m, e, 0, 0), m);
    Extensionality(OverwriteCols(m, e, m.domain, 0), e);
    forall col | 0 <= col < m.domain ensures OverwriteCols(m, e, col, m.codomain) == OverwriteCols(m, e, col + 1, 0) {
      Extensionality(OverwriteCols(m, e, col, m.codomain), OverwriteCols(m, e, col + 1, 0));
    }
  }

  /** Swapping the same two rows (or columns) twice changes nothing. */
  lemma SwapTwice<T>(m: Mat<T>, a: nat, b: nat)
    requires Shaped(m)
    ensures a < m.codomain && b < m.codomain ==> SwapRows(SwapRows(m, a, b), a, b) == m
    ensures a < m.domain && b < m.domain ==> SwapCols(SwapCols(m, a, b), a, b) == m
  {
    if a < m.codomain && b < m.codomain {
      Extensionality(SwapRows(SwapRows(m, a, b), a, b), m);
    }
    if a < m.domain && b < m.domain {
      Extensionality(SwapCols(SwapCols(m, a, b), a, b), m);
    }
  }

  /** u + f·w, entry by entry. */
  function Plus<T>(R: Ring<T>, u: seq<T>, w: seq<T>, f: T): (r: seq<T>)
    requires |u| == |w|
    ensures |r| == |u|
  {
    seq(|u|, k requires 0 <= k < |u| => R.add(u[k], R.mul(f, w[k])))
  }

  /** `add_row_multiple(target, source, factor)`: row target += factor · row
      source, and nothing at all when the factor is zero. */
  function AddRowMultiple<T>(R: Ring<T>, m: Mat<T>, t: nat, s: nat, f: T): (r: Mat<T>)
    requires Shaped(m) && t < m.codomain && s < m.codomain
    ensures Shaped(r) && r.domain == m.domain && r.codomain == m.codomain
    ensures forall x, y :: 0 <= x < m.domain && 0 <= y < m.codomain ==>
              At(r, x, y) == if y == t && !R.isZero(f) then R.add(At(m, x, t), R.mul(f, At(m, x, s))) else At(m, x, y)
  {
    if R.isZero(f) then m else m.(rows := m.rows[t := Plus(R, m.rows[t], m.rows[s], f)])
  }

  /** `add_col_multiple(target, source, factor)`: column target += factor ·
      column source, and nothing when the factor is zero. */
  function AddColMultiple<T>(R: Ring<T>, m: Mat<T>, t: nat, s: nat, f: T): (r: Mat<T>)
    requires Shaped(m) && t < m.domain && s < m.domain
    ensures Shaped(r) && r.domain == m.domain && r.codomain == m.codomain
    ensures forall x, y :: 0 <= x < m.domain && 0 <= y < m.codomain ==>
              At(r, x, y) == if x == t && !R.isZero(f) then R.add(At(m, t, y), R.mul(f, At(m, s, y))) else At(m, x, y)
  {
    if R.isZero(f) then m
    else m.(rows := seq(m.codomain, y requires 0 <= y < m.codomain =>
                          m.rows[y][t := R.add(m.rows[y][t], R.mul(f, m.rows[y][s]))]))
  }

  /** `scalar_multiply_row`: every entry of row y becomes r · entry. */
  function ScaleRow<T>(R: Ring<T>, m: Mat<T>, y: nat, r: T): (res: Mat<T>)
    requires Shaped(m) && y < m.codomain
    ensures Shaped(res) && res.domain == m.domain && res.codomain == m.codomain
    ensures forall x, y2 :: 0 <= x < m.domain && 0 <= y2 < m.codomain ==>
              At(res, x, y2) == if y2 == y then R.mul(r, At(m, x, y)) else At(m, x, y2)
  {
    m.(rows := m.rows[y := Scaled(R, r, m.rows[y])])
  }

  /** c · u, entry by entry. */
  function Scaled<T>(R: Ring<T>, c: T, u: seq<T>): (r: seq<T>)
    ensures |r| == |u| && forall k :: 0 <= k < |u| ==> r[k] == R.mul(c, u[k])
  {
    seq(|u|, k requires 0 <= k < |u| => R.mul(c, u[k]))
  }

  /** `scalar_multiply_column`: every entry of column x becomes r · entry. */
  function ScaleColumn<T>(R: Ring<T>, m: Mat<T>, x: nat, r: T): (res: Mat<T>)
    requires Shaped(m) && x < m.domain
    ensures Shaped(res) && res.domain == m.domain && res.codomain == m.codomain
    ensures forall x2, y :: 0 <= x2 < m.domain && 0 <= y < m.codomain ==>
              At(res, x2, y) == if x2 == x then R.mul(r, At(m, x, y)) else At(m, x2, y)
  {
    m.(rows := seq(m.codomain, y requires 0 <= y < m.codomain => m.rows[y][x := R.mul(r, m.rows[y][x])]))
  }

  // ---------------------------------------------------------------------
  // Products

  /** Σ u[k]·v[k], summed left to right from zero. */
  function Dot<T>(R: Ring<T>, u: seq<T>, v: seq<T>): (r: T)
    requires |u| == |v|
  {
    if u == [] then R.zero else R.add(Dot(R, u[..|u| - 1], v[..|v| - 1]), R.mul(u[|u| - 1], v[|v| - 1]))
  }

  lemma {:induction false} DotElem<T(!new)>(R: Ring<T>, u: seq<T>, v: seq<T>)
    requires Closed(R) && |u| == |v| && ElemsSeq(R, u) && ElemsSeq(R, v)
    ensures R.elem(Dot(R, u, v))
  {
    if u != [] {
      DotElem(R, u[..|u| - 1], v[..|v| - 1]);
    }
  }

  /** `compose`: a ∘ b, entry (x, y) the product of row y of a and column x
      of b. */
  function Compose<T>(R: Ring<T>, a: Mat<T>, b: Mat<T>): (r: Mat<T>)
    requires Shaped(a) && Shaped(b) && a.domain == b.codomain
    ensures Shaped(r) && r.domain == b.domain && r.codomain == a.codomain
    ensures forall x, y :: 0 <= x < r.domain && 0 <= y < r.codomain ==>
              At(r, x, y) == Dot(R, a.rows[y], Column(b, x))
  {
    Mat(b.domain, a.codomain, seq(a.codomain, y requires 0 <= y < a.codomain =>
      seq(b.domain, x requires 0 <= x < b.domain => Dot(R, a.rows[y], Column(b, x)))))
  }

  /** `eval_vector`: the matrix applied to a vector. */
  function Apply<T>(R: Ring<T>, m: Mat<T>, v: seq<T>): (r: seq<T>)
    requires Shaped(m) && |v| == m.domain
    ensures |r| == m.codomain
  {
    seq(m.codomain, y requires 0 <= y < m.codomain => Dot(R, m.rows[y], v))
  }

  /** Applying a matrix to a vector is composing it with that vector as a
      one-column matrix. */
  lemma ApplyIsCompose<T>(R: Ring<T>, m: Mat<T>, v: seq<T>)
    requires Shaped(m) && |v| == m.domain
    ensures Apply(R, m, v) == Column(Compose(R, m, Mat(1, |v|, seq(|v|, k requires 0 <= k < |v| => [v[k]]))), 0)
  {
    var col := Mat(1, |v|, seq(|v|, k requires 0 <= k < |v| => [v[k]]));
    assert Column(col, 0) == v;
  }

  lemma ElemsPrefix<T>(R: Ring<T>, u: seq<T>, n: nat)
    requires ElemsSeq(R, u) && n <= |u|
    ensures ElemsSeq(R, u[..n])
  {
  }

  /** The product is linear in its left factor: (u + f·w)·v = u·v + f·(w·v). */
  lemma {:induction false} DotPlusLeft<T(!new)>(R: Ring<T>, u: seq<T>, w: seq<T>, v: seq<T>, f: T)
    requires IsCRing(R) && |u| == |w| == |v| && R.elem(f)
    requires ElemsSeq(R, u) && ElemsSeq(R, w) && ElemsSeq(R, v)
    ensures Dot(R, Plus(R, u, w, f), v) == R.add(Dot(R, u, v), R.mul(f, Dot(R, w, v)))
  {
    if u == [] {
      MulZero(R, f);
      Laws(R, R.zero, R.zero, R.zero);
    } else {
      var n := |u| - 1;
      var p := Plus(R, u, w, f);
      assert p[..n] == Plus(R, u[..n], w[..n], f);
      ElemsPrefix(R, u, n);
      ElemsPrefix(R, w, n);
      ElemsPrefix(R, v, n);
      DotPlusLeft(R, u[..n], w[..n], v[..n], f);
      DotElem(R, u[..n], v[..n]);
      DotElem(R, w[..n], v[..n]);
      LinearStepLeft(R, Dot(R, u[..n], v[..n]), Dot(R, w[..n], v[..n]), u[n], w[n], v[n], f);
    }
  }

  /** The product is linear in its right factor: u·(v + f·w) = u·v + f·(u·w). */
  lemma {:induction false} DotPlusRight<T(!new)>(R: Ring<T>, u: seq<T>, v: seq<T>, w: seq<T>, f: T)
    requires IsCRing(R) && |u| == |w| == |v| && R.elem(f)
    requires ElemsSeq(R, u) && ElemsSeq(R, w) && ElemsSeq(R, v)
    ensures Dot(R, u, Plus(R, v, w, f)) == R.add(Dot(R, u, v), R.mul(f, Dot(R, u, w)))
  {
    if u == [] {
      MulZero(R, f);
      Laws(R, R.zero, R.zero, R.zero);
    } else {
      var n := |u| - 1;
      var p := Plus(R, v, w, f);
      assert p[..n] == Plus(R, v[..n], w[..n], f);
      ElemsPrefix(R, u, n);
      ElemsPrefix(R, w, n);
      ElemsPrefix(R, v, n);
      DotPlusRight(R, u[..n], v[..n], w[..n], f);
      DotElem(R, u[..n], v[..n]);
      DotElem(R, u[..n], w[..n]);
      LinearStepRight(R, Dot(R, u[..n], v[..n]), Dot(R, u[..n], w[..n]), u[n], v[n], w[n], f);
    }
  }

  /** The inductive step of `DotPlusLeft`:
      (A + f·B) + (u + f·w)·v == (A + u·v) + f·(B + w·v). */
  lemma LinearStepLeft<T(!new)>(R: Ring<T>, A: T, B: T, u: T, w: T, v: T, f: T)
    requires IsCRing(R) && R.elem(A) && R.elem(B) && R.elem(u) && R.elem(w) && R.elem(v) && R.elem(f)
    ensures R.add(R.add(A, R.mul(f, B)), R.mul(R.add(u, R.mul(f, w)), v))
            == R.add(R.add(A, R.mul(u, v)), R.mul(f, R.add(B, R.mul(w, v))))
  {
    var fw := R.mul(f, w);
    assert R.mul(R.add(u, fw), v) == R.add(R.mul(u, v), R.mul(f, R.mul(w, v))) by {
      Laws(R, R.add(u, fw), v, v);
      Laws(R, v, u, fw);
      Laws(R, v, u, u);
      Laws(R, v, fw, fw);
      Laws(R, f, w, v);
    }
    assert R.mul(f, R.add(B, R.mul(w, v))) == R.add(R.mul(f, B), R.mul(f, R.mul(w, v))) by {
      Laws(R, f, B, R.mul(w, v));
    }
    AddSwapMiddle(R, A, R.mul(f, B), R.mul(u, v), R.mul(f, R.mul(w, v)));
  }

  /** The inductive step of `DotPlusRight`:
      (A + f·B) + u·(v + f·w) == (A + u·v) + f·(B + u·w). */
  lemma LinearStepRight<T(!new)>(R: Ring<T>, A: T, B: T, u: T, v: T, w: T, f: T)
    requires IsCRing(R) && R.elem(A) && R.elem(B) && R.elem(u) && R.elem(w) && R.elem(v) && R.elem(f)
    ensures R.add(R.add(A, R.mul(f, B)), R.mul(u, R.add(v, R.mul(f, w))))
            == R.add(R.add(A, R.mul(u, v)), R.mul(f, R.add(B, R.mul(u, w))))
  {
    var fw := R.mul(f, w);
    assert R.mul(u, R.add(v, fw)) == R.add(R.mul(u, v), R.mul(f, R.mul(u, w))) by {
      Laws(R, u, v, fw);
      Laws(R, u, f, w);
      Laws(R, u, f, f);
      Laws(R, f, u, w);
    }
    assert R.mul(f, R.add(B, R.mul(u, w))) == R.add(R.mul(f, B), R.mul(f, R.mul(u, w))) by {
      Laws(R, f, B, R.mul(u, w));
    }
    AddSwapMiddle(R, A, R.mul(f, B), R.mul(u, v), R.mul(f, R.mul(u, w)));
  }

  /** (a + b) + (c + d) == (a + c) + (b + d) */
  lemma AddSwapMiddle<T(!new)>(R: Ring<T>, a: T, b: T, c: T, d: T)
    requires IsCRing(R) && R.elem(a) && R.elem(b) && R.elem(c) && R.elem(d)
    ensures R.add(R.add(a, b), R.add(c, d)) == R.add(R.add(a, c), R.add(b, d))
  {
    Laws(R, a, b, R.add(c, d));
    Laws(R, b, c, d);
    Laws(R, c, b, d);
    Laws(R, a, c, R.add(b, d));
  }

  /** The product with a unit vector picks out one entry. */
  lemma {:induction false} DotUnit<T(!new)>(R: Ring<T>, v: seq<T>, k: nat)
    requires IsCRing(R) && ElemsSeq(R, v)
    ensures Dot(R, UnitVec(R, |v|, k), v) == if k < |v| then v[k] else R.zero
    ensures Dot(R, v, UnitVec(R, |v|, k)) == if k < |v| then v[k] else R.zero
  {
    if v != [] {
      var n := |v| - 1;
      assert UnitVec(R, |v|, k)[..n] == UnitVec(R, n, k);
      ElemsPrefix(R, v, n);
      DotUnit(R, v[..n], k);
      DotElem(R, UnitVec(R, n, k), v[..n]);
      Laws(R, v[n], v[n], v[n]);
      MulZero(R, v[n]);
      Laws(R, R.zero, R.zero, R.zero);
      AddZeroLeft(R, v[n]);
      if k < n {
        Laws(R, v[k], v[k], v[k]);
      }
      Laws(R, R.one, v[n], v[n]);
    }
  }

  lemma ElemsRowsColumns<T>(R: Ring<T>, m: Mat<T>)
    requires Elems(R, m)
    ensures forall y :: 0 <= y < m.codomain ==> ElemsSeq(R, m.rows[y])
    ensures forall x :: 0 <= x < m.domain ==> ElemsSeq(R, Column(m, x))
  {
  }

  /** The identity is a unit for composition on both sides. */
  lemma ComposeIdentity<T(!new)>(R: Ring<T>, m: Mat<T>)
    requires IsCRing(R) && Elems(R, m)
    ensures Compose(R, IdentityMat(R, m.codomain), m) == m
    ensures Compose(R, m, IdentityMat(R, m.domain)) == m
  {
    ElemsRowsColumns(R, m);
    var l := Compose(R, IdentityMat(R, m.codomain), m);
    forall x, y | 0 <= x < m.domain && 0 <= y < m.codomain ensures At(l, x, y) == At(m, x, y) {
      DotUnit(R, Column(m, x), y);
    }
    Extensionality(l, m);
    var r := Compose(R, m, IdentityMat(R, m.domain));
    forall x, y | 0 <= x < m.domain && 0 <= y < m.codomain ensures At(r, x, y) == At(m, x, y) {
      assert Column(IdentityMat(R, m.domain), x) == UnitVec(R, m.domain, x);
      DotUnit(R, m.rows[y], x);
    }
    Extensionality(r, m);
  }

  /** A row operation on the left factor is that row operation on the
      product. */
  lemma RowOpsCommuteWithCompose<T(!new)>(R: Ring<T>, a: Mat<T>, b: Mat<T>, t: nat, s: nat, f: T)
    requires IsCRing(R) && Elems(R, a) && Elems(R, b) && a.domain == b.codomain
    requires t < a.codomain && s < a.codomain && R.elem(f)
    ensures Compose(R, SwapRows(a, t, s), b) == SwapRows(Compose(R, a, b), t, s)
    ensures Compose(R, AddRowMultiple(R, a, t, s, f), b) == AddRowMultiple(R, Compose(R, a, b), t, s, f)
  {
    Extensionality(Compose(R, SwapRows(a, t, s), b), SwapRows(Compose(R, a, b), t, s));
    if !R.isZero(f) {
      ElemsRowsColumns(R, a);
      ElemsRowsColumns(R, b);
      var l, r := Compose(R, AddRowMultiple(R, a, t, s, f), b), AddRowMultiple(R, Compose(R, a, b), t, s, f);
      forall x, y | 0 <= x < b.domain && 0 <= y < a.codomain ensures At(l, x, y) == At(r, x, y) {
        if y == t {
          DotPlusLeft(R, a.rows[t], a.rows[s], Column(b, x), f);
        }
      }
      Extensionality(l, r);
    }
  }

  /** A column operation on the right factor is that column operation on the
      product. */
  lemma ColOpsCommuteWithCompose<T(!new)>(R: Ring<T>, a: Mat<T>, b: Mat<T>, t: nat, s: nat, f: T)
    requires IsCRing(R) && Elems(R, a) && Elems(R, b) && a.domain == b.codomain
    requires t < b.domain && s < b.domain && R.elem(f)
    ensures Compose(R, a, SwapCols(b, t, s)) == SwapCols(Compose(R, a, b), t, s)
    ensures Compose(R, a, AddColMultiple(R, b, t, s, f)) == AddColMultiple(R, Compose(R, a, b), t, s, f)
  {
    var l0, r0 := Compose(R, a, SwapCols(b, t, s)), SwapCols(Compose(R, a, b), t, s);
    forall x, y | 0 <= x < b.domain && 0 <= y < a.codomain ensures At(l0, x, y) == At(r0, x, y) {
      assert Column(SwapCols(b, t, s), x) == Column(b, if x == t then s else if x == s then t else x);
    }
    Extensionality(l0, r0);
    if !R.isZero(f) {
      ElemsRowsColumns(R, a);
      ElemsRowsColumns(R, b);
      var l, r := Compose(R, a, AddColMultiple(R, b, t, s, f)), AddColMultiple(R, Compose(R, a, b), t, s, f);
      forall x, y | 0 <= x < b.domain && 0 <= y < a.codomain ensures At(l, x, y) == At(r, x, y) {
        if x == t {
          assert Column(AddColMultiple(R, b, t, s, f), t) == Plus(R, Column(b, t), Column(b, s), f);
          DotPlusRight(R, a.rows[y], Column(b, t), Column(b, s), f);
        } else {
          assert Column(AddColMultiple(R, b, t, s, f), x) == Column(b, x);
        }
      }
      Extensionality(l, r);
    }
  }

  /** Adding f times a line and then -f times it gives the matrix back. */
  lemma AddMultipleUndo<T(!new)>(R: Ring<T>, m: Mat<T>, t: nat, s: nat, f: T)
    requires IsCRing(R) && Elems(R, m) && R.elem(f) && t != s
    ensures t < m.codomain && s < m.codomain ==>
              AddRowMultiple(R, AddRowMultiple(R, m, t, s, f), t, s, R.neg(f)) == m
    ensures t < m.domain && s < m.domain ==>
              AddColMultiple(R, AddColMultiple(R, m, t, s, f), t, s, R.neg(f)) == m
  {
    if !R.isZero(f) {
      NegNonZero(R, f);
      var nf := R.neg(f);
      if t < m.codomain && s < m.codomain {
        var m1 := AddRowMultiple(R, m, t, s, f);
        var m2 := AddRowMultiple(R, m1, t, s, nf);
        forall x, y | 0 <= x < m.domain && 0 <= y < m.codomain ensures At(m2, x, y) == At(m, x, y) {
          if y == t {
            AddThenSubtract(R, At(m, x, t), At(m, x, s), f);
            assert At(m1, x, s) == At(m, x, s);
            assert At(m1, x, t) == R.add(At(m, x, t), R.mul(f, At(m, x, s)));
            assert At(m2, x, t) == R.add(At(m1, x, t), R.mul(nf, At(m1, x, s)));
          }
        }
        Extensionality(m2, m);
      }
      if t < m.domain && s < m.domain {
        var m1 := AddColMultiple(R, m, t, s, f);
        var m2 := AddColMultiple(R, m1, t, s, nf);
        forall x, y | 0 <= x < m.domain && 0 <= y < m.codomain ensures At(m2, x, y) == At(m, x, y) {
          if x == t {
            AddThenSubtract(R, At(m, t, y), At(m, s, y), f);
          }
        }
        Extensionality(m2, m);
      }
    } else {
      Laws(R, f, f, f);
      AddZeroLeft(R, R.neg(f));
    }
  }

  lemma NegNonZero<T(!new)>(R: Ring<T>, f: T)
    requires IsCRing(R) && R.elem(f) && f != R.zero
    ensures R.neg(f) != R.zero && !R.isZero(R.neg(f))
  {
    Laws(R, f, f, f);
    assert R.add(f, R.neg(f)) == R.zero;
  }

  /** (a + f·b) + (-f)·b == a */
  lemma AddThenSubtract<T(!new)>(R: Ring<T>, a: T, b: T, f: T)
    requires IsCRing(R) && R.elem(a) && R.elem(b) && R.elem(f)
    ensures R.add(R.add(a, R.mul(f, b)), R.mul(R.neg(f), b)) == a
  {
    NegMul(R, f, b);
    var fb := R.mul(f, b);
    Laws(R, a, fb, R.neg(fb));
    Laws(R, fb, fb, fb);
  }
}
