/** `FlatMatrix<R>` of crates/algebra/src/matrices/flat_matrix.rs together
    with the default methods of the `Matrix` trait (crates/algebra/src/matrix.rs)
    it inherits: a dense matrix stored row-major in one vector. Every method is
    proved against the matrix value `Value()` it stores (module Mats). */
module FlatMatrices {
  import opened Wrappers
  import opened Rings
  import opened Mats

  class FlatMatrix<T> {
    var data: seq<T>
    var domain: nat
    var codomain: nat

    ghost predicate Valid()
      reads this
    {
      |data| == Area(domain, codomain)
    }

    /** The matrix the storage holds. */
    ghost function Value(): Mat<T>
      reads this
      requires Valid()
    {
      MatOf(data, domain, codomain)
    }

    /** `zero(domain, codomain)`: domain·codomain zeros. */
    constructor Zero(R: Ring<T>, domain: nat, codomain: nat)
      ensures Valid() && Value() == ZeroMat(R, domain, codomain)
      ensures |data| == domain * codomain
    {
      var d := seq(Size(domain, codomain), _ => R.zero);
      AreaIsProduct(domain, codomain);
      IdxBounds(domain, codomain);
      MatOfEntries(d, domain, codomain, ZeroMat(R, domain, codomain));
      this.data := d;
      this.domain := domain;
      this.codomain := codomain;
    }

    /** `identity(d)`: zeros, then a one at every diagonal index i·d + i. */
    constructor Identity(R: Ring<T>, d: nat)
      ensures Valid() && Value() == IdentityMat(R, d)
    {
      var a := seq(Size(d, d), _ => R.zero);
      IdxBounds(d, d);
      for i := 0 to d
        invariant |a| == Area(d, d)
        invariant forall x, y :: 0 <= x < d && 0 <= y < d ==>
                    a[Idx(d, x, y)] == if x == y && x < i then R.one else R.zero
      {
        a := a[Offset(d, i, i) := R.one];
        forall x, y | 0 <= x < d && 0 <= y < d && Idx(d, x, y) == Idx(d, i, i) ensures x == i && y == i {
          IdxInjective(d, x, y, i, i);
        }
      }
      MatOfEntries(a, d, d, IdentityMat(R, d));
      this.data := a;
      this.domain := d;
      this.codomain := d;
    }

    /** `get_index(domain, codomain)`: where entry (x, y) is stored. */
    function GetIndex(x: nat, y: nat): (i: nat)
      reads this
      requires Valid() && x < domain && y < codomain
      ensures i == Idx(domain, x, y) && i < |data|
    {
      IdxIsProduct(domain, x, y);
      IdxBounds(domain, codomain);
      y * domain + x
    }

    /** `get_element(row, col)` */
    function GetElement(row: nat, col: nat): (r: T)
      reads this
      requires Valid() && row < codomain && col < domain
      ensures r == At(Value(), col, row)
    {
      data[GetIndex(col, row)]
    }

    /** `get(domain, codomain)` */
    function Get(x: nat, y: nat): (r: T)
      reads this
      requires Valid() && x < domain && y < codomain
      ensures r == At(Value(), x, y)
    {
      GetElement(y, x)
    }

    /** `set_element(row, col, value)` */
    method SetElement(row: nat, col: nat, v: T)
      requires Valid() && row < codomain && col < domain
      modifies this
      ensures Valid() && Value() == SetAt(old(Value()), col, row, v)
    {
      var i := GetIndex(col, row);
      StoreIsSetAt(data, domain, codomain, col, row, v);
      data := data[i := v];
    }

    /** `set(domain, codomain, r)` */
    method Set(x: nat, y: nat, v: T)
      requires Valid() && x < domain && y < codomain
      modifies this
      ensures Valid() && Value() == SetAt(old(Value()), x, y, v)
    {
      SetElement(y, x, v);
    }

    /** `add_at(domain, codomain, r)`: entry (x, y) += r. */
    method AddAt(R: Ring<T>, x: nat, y: nat, r: T)
      requires Valid() && x < domain && y < codomain
      modifies this
      ensures Valid() && Value() == SetAt(old(Value()), x, y, R.add(At(old(Value()), x, y), r))
    {
      var i := GetIndex(x, y);
      SetElement(y, x, R.add(data[i], r));
    }

    /** `get_row(codomain)`: the slice holding row y. */
    function GetRow(y: nat): (row: seq<T>)
      reads this
      requires Valid() && y < codomain
      ensures row == Value().rows[y]
    {
      IdxBound(domain, codomain, domain, y);
      var start := Offset(domain, 0, y);
      assert RowOf(data, domain, codomain, y) == data[start..start + domain];
      data[start..start + domain]
    }

    /** `set_row(codomain, row)`: overwrite the first |row| entries of row y. */
    method SetRow(y: nat, row: seq<T>)
      requires Valid() && y < codomain && |row| <= domain
      modifies this
      ensures Valid() && Value() == Mats.SetRow(old(Value()), y, row)
    {
      var d, c := domain, codomain;
      var start := Offset(d, 0, y);
      var end := start + |row|;
      SliceIsWriteInRow(data, row, d, c, y, 0);
      assert Value().rows[y][..0] == [];
      data := Spliced(data, start, row);
      Extensionality(Value(), Mats.SetRow(old(Value()), y, row));
    }

    /** `transpose`: a new matrix with the dimensions swapped and entry
        (x, y) taken from (y, x). */
    method Transpose(R: Ring<T>) returns (t: FlatMatrix<T>)
      requires Valid()
      ensures fresh(t) && t.Valid() && t.Value() == Mats.Transpose(Value())
    {
      var d, c := domain, codomain;
      AreaIsProduct(d, c);
      AreaIsProduct(c, d);
      var m := seq(|data|, _ => R.zero);
      ghost var old_ := Value();
      IdxBounds(c, d);
      for i := 0 to c
        invariant |m| == Area(c, d)
        invariant forall x, y :: 0 <= x < i && 0 <= y < d ==> m[Idx(c, x, y)] == At(old_, y, x)
      {
        for j := 0 to d
          invariant |m| == Area(c, d)
          invariant forall x, y :: 0 <= x < i && 0 <= y < d ==> m[Idx(c, x, y)] == At(old_, y, x)
          invariant forall y :: 0 <= y < j ==> m[Idx(c, i, y)] == At(old_, y, i)
        {
          ghost var m0 := m;
          m := m[Offset(c, i, j) := GetElement(i, j)];
          forall x, y | 0 <= x < c && 0 <= y < d && (x, y) != (i, j) ensures m[Idx(c, x, y)] == m0[Idx(c, x, y)] {
            if Idx(c, x, y) == Idx(c, i, j) {
              IdxInjective(c, x, y, i, j);
            }
          }
        }
      }
      MatOfEntries(m, c, d, Mats.Transpose(old_));
      t := new FlatMatrix.Raw(m, c, d);
    }

    /** A matrix from its storage (a struct literal in the Rust code). */
    constructor Raw(data: seq<T>, domain: nat, codomain: nat)
      requires |data| == Area(domain, codomain)
      ensures this.data == data && this.domain == domain && this.codomain == codomain
      ensures Valid()
    {
      this.data := data;
      this.domain := domain;
      this.codomain := codomain;
    }

    /** `clone`: a new matrix with the same storage. */
    method Clone() returns (c: FlatMatrix<T>)
      requires Valid()
      ensures fresh(c) && c.Valid() && c.domain == domain && c.codomain == codomain && c.Value() == Value()
    {
      c := new FlatMatrix.Raw(data, domain, codomain);
    }

    /** `extend_one_row`: one more row of zeros. */
    method ExtendOneRow(R: Ring<T>)
      requires Valid()
      modifies this
      ensures Valid() && Value() == Mats.ExtendOneRow(R, old(Value()))
    {
      ghost var m0 := Value();
      ghost var m := Mats.ExtendOneRow(R, m0);
      ghost var d0 := data;
      var d, c := domain, codomain;
      codomain := codomain + 1;
      data := data + seq(domain, _ => R.zero);
      ExtendedEntries(R, d0, d, c);
      MatOfEntries(data, d, c + 1, m);
    }

    /** `swap_rows` (flat_matrix.rs): exchange the two rows word by word;
        nothing to do when they are the same row. */
    method SwapRows(r1: nat, r2: nat)
      requires Valid() && r1 < codomain && r2 < codomain
      modifies this
      ensures Valid() && Value() == Mats.SwapRows(old(Value()), r1, r2)
    {
      ghost var m0 := Value();
      SwapRowsUpToEnds(m0, r1, r2);
      if r1 == r2 {
        Extensionality(m0, Mats.SwapRows(m0, r1, r2));
        return;
      }
      var d, c := domain, codomain;
      for j := 0 to d
        invariant domain == d && codomain == c && Valid()
        invariant Value() == SwapRowsUpTo(m0, r1, r2, j)
      {
        var a := GetIndex(j, r1);
        var b := GetIndex(j, r2);
        SwapData(a, b, j, r1, j, r2);
        SwapRowsStep(m0, r1, r2, j);
      }
    }

    /** `data.swap(a, b)` for the storage indices a, b of entries (x1, y1)
        and (x2, y2): the two entries exchange their values. */
    method SwapData(a: nat, b: nat, ghost x1: nat, ghost y1: nat, ghost x2: nat, ghost y2: nat)
      requires Valid() && x1 < domain && y1 < codomain && x2 < domain && y2 < codomain
      requires a == Idx(domain, x1, y1) && b == Idx(domain, x2, y2)
      modifies this
      ensures domain == old(domain) && codomain == old(codomain) && Valid()
      ensures Value() == SetAt(SetAt(old(Value()), x1, y1, At(old(Value()), x2, y2)), x2, y2, At(old(Value()), x1, y1))
    {
      var d, c := domain, codomain;
      IdxBounds(d, c);
      var va, vb := data[a], data[b];
      StoreIsSetAt(data, d, c, x1, y1, vb);
      data := data[a := vb];
      StoreIsSetAt(data, d, c, x2, y2, va);
      data := data[b := va];
    }

    /** `swap_cols` (flat_matrix.rs): exchange the two columns row by row;
        nothing to do when they are the same column. */
    method SwapCols(c1: nat, c2: nat)
      requires Valid() && c1 < domain && c2 < domain
      modifies this
      ensures Valid() && Value() == Mats.SwapCols(old(Value()), c1, c2)
    {
      ghost var m0 := Value();
      SwapColsUpToEnds(m0, c1, c2);
      if c1 == c2 {
        Extensionality(m0, Mats.SwapCols(m0, c1, c2));
        return;
      }
      var d, c := domain, codomain;
      for i := 0 to c
        invariant domain == d && codomain == c && Valid()
        invariant Value() == SwapColsUpTo(m0, c1, c2, i)
      {
        var a := GetIndex(c1, i);
        var b := GetIndex(c2, i);
        SwapData(a, b, c1, i, c2, i);
        SwapColsStep(m0, c1, c2, i);
      }
    }

    /** `vstack`: the rows of `other` below those of this matrix (the
        domains must agree). */
    method VStack(other: FlatMatrix<T>)
      requires Valid() && other.Valid() && other != this && domain == other.domain
      modifies this
      ensures Valid() && Value() == Mats.VStack(old(Value()), other.Value())
    {
      ghost var d0 := data;
      var c1 := codomain;
      data := data + other.data;
      codomain := codomain + other.codomain;
      StackedEntries(d0, other.data, domain, c1, other.codomain);
      MatOfEntries(data, domain, codomain, Mats.VStack(MatOf(d0, domain, c1), other.Value()));
    }

    /** `block_sum`: this matrix top-left, `other` bottom-right, zeros
        elsewhere; rows are copied slice by slice into a zero matrix. */
    method BlockSum(R: Ring<T>, other: FlatMatrix<T>)
      requires Valid() && other.Valid() && other != this
      modifies this
      ensures Valid() && Value() == Mats.BlockSum(R, old(Value()), other.Value())
    {
      ghost var a, b := Value(), other.Value();
      var nd, nc := domain + other.domain, codomain + other.codomain;
      var n := seq(Size(nd, nc), _ => R.zero);
      ZeroStorage(R, n, nd, nc);
      n := PasteRows(n, nd, nc, 0, 0);
      n := other.PasteRows(n, nd, nc, domain, codomain);
      BlockSumIsPaste(R, a, b);
      data, domain, codomain := n, nd, nc;
    }

    /** The row copies of `block_sum`: each row of this matrix is copied into
        the storage `n` of an nd × nc matrix, at column x0 of row y0 + i. */
    method PasteRows(n: seq<T>, nd: nat, nc: nat, x0: nat, y0: nat) returns (n': seq<T>)
      requires Valid() && |n| == Area(nd, nc) && x0 + domain <= nd && y0 + codomain <= nc
      ensures |n'| == Area(nd, nc)
      ensures MatOf(n', nd, nc) == Paste(MatOf(n, nd, nc), Value(), x0, y0, codomain)
    {
      ghost var m0 := MatOf(n, nd, nc);
      n' := n;
      Extensionality(m0, Paste(m0, Value(), x0, y0, 0));
      for i := 0 to codomain
        invariant |n'| == Area(nd, nc)
        invariant MatOf(n', nd, nc) == Paste(m0, Value(), x0, y0, i)
      {
        var start := Offset(nd, x0, y0 + i);
        var row := GetRow(i);
        PasteRowStep(n', m0, Value(), nd, nc, x0, y0, i);
        n' := Spliced(n', start, row);
      }
    }

    /** `compose`: the product this ∘ rhs (this.domain must equal
        rhs.codomain), each entry summed from zero over k. */
    method Compose(R: Ring<T>, rhs: FlatMatrix<T>) returns (p: FlatMatrix<T>)
      requires Valid() && rhs.Valid() && domain == rhs.codomain
      ensures fresh(p) && p.Valid() && p.Value() == Mats.Compose(R, Value(), rhs.Value())
    {
      ghost var e := Mats.Compose(R, Value(), rhs.Value());
      var rd, c := rhs.domain, codomain;
      var n := seq(Size(rd, c), _ => R.zero);
      ghost var z := ZeroMat(R, rd, c);
      ZeroStorage(R, n, rd, c);
      OverwriteEnds(z, e);
      for x := 0 to c
        invariant |n| == Area(rd, c) && MatOf(n, rd, c) == Overwrite(z, e, x, 0)
      {
        for y := 0 to rd
          invariant |n| == Area(rd, c) && MatOf(n, rd, c) == Overwrite(z, e, x, y)
        {
          var sum := RowTimesColumn(R, rhs, x, y);
          StoreIsSetAt(n, rd, c, y, x, sum);
          n := n[Offset(rd, y, x) := sum];
          OverwriteStep(z, e, x, y);
        }
      }
      p := new FlatMatrix.Raw(n, rd, c);
    }

    /** The inner loop of `compose`: Σ_k self[x][k] · rhs[k][y]. */
    method RowTimesColumn(R: Ring<T>, rhs: FlatMatrix<T>, x: nat, y: nat) returns (sum: T)
      requires Valid() && rhs.Valid() && domain == rhs.codomain && x < codomain && y < rhs.domain
      ensures sum == At(Mats.Compose(R, Value(), rhs.Value()), y, x)
    {
      ghost var u, v := Value().rows[x], Column(rhs.Value(), y);
      sum := R.zero;
      for k := 0 to domain
        invariant sum == Dot(R, u[..k], v[..k])
      {
        assert u[..k + 1][..k] == u[..k] && v[..k + 1][..k] == v[..k];
        sum := R.add(sum, R.mul(GetElement(x, k), rhs.GetElement(k, y)));
      }
      assert u[..domain] == u && v[..domain] == v;
    }

    // -------------------------------------------------------------------
    // Default methods of the `Matrix` trait (crates/algebra/src/matrix.rs)

    /** `scalar_multiply_row`: entry (x, y) becomes r · entry, for every x. */
    method ScalarMultiplyRow(R: Ring<T>, y: nat, r: T)
      requires Valid() && y < codomain
      modifies this
      ensures Valid() && Value() == ScaleRow(R, old(Value()), y, r)
    {
      ghost var m0 := Value();
      for x := 0 to domain
        invariant Valid() && domain == m0.domain && codomain == m0.codomain
        invariant forall i, j :: 0 <= i < m0.domain && 0 <= j < m0.codomain ==>
                    At(Value(), i, j) == if j == y && i < x then R.mul(r, At(m0, i, y)) else At(m0, i, j)
      {
        var el := Get(x, y);
        Set(x, y, R.mul(r, el));
      }
      Extensionality(Value(), ScaleRow(R, m0, y, r));
    }

    /** `scalar_multiply_column`: entry (x, y) becomes r · entry, for every y. */
    method ScalarMultiplyColumn(R: Ring<T>, x: nat, r: T)
      requires Valid() && x < domain
      modifies this
      ensures Valid() && Value() == ScaleColumn(R, old(Value()), x, r)
    {
      ghost var m0 := Value();
      for y := 0 to codomain
        invariant Valid() && domain == m0.domain && codomain == m0.codomain
        invariant forall i, j :: 0 <= i < m0.domain && 0 <= j < m0.codomain ==>
                    At(Value(), i, j) == if i == x && j < y then R.mul(r, At(m0, x, j)) else At(m0, i, j)
      {
        var el := Get(x, y);
        Set(x, y, R.mul(r, el));
      }
      Extensionality(Value(), ScaleColumn(R, m0, x, r));
    }

    /** `eval_vector`: each row's product with the vector, which must have
        `domain` entries. */
    function EvalVector(R: Ring<T>, v: seq<T>): (r: seq<T>)
      reads this
      requires Valid() && |v| == domain
      ensures r == Apply(R, Value(), v)
    {
      var rows := seq(codomain, y requires 0 <= y < codomain && Valid() reads this => GetRow(y));
      seq(|rows|, y requires 0 <= y < |rows| => Dot(R, rows[y], v))
    }

    /** `get_column`: the entries of column x, top to bottom. */
    method GetColumn(x: nat) returns (col: seq<T>)
      requires Valid() && x < domain
      ensures col == Column(Value(), x)
    {
      col := [];
      for i := 0 to codomain
        invariant col == Column(Value(), x)[..i]
      {
        col := col + [Get(x, i)];
      }
    }

    /** `set_column`: write the first `codomain` entries of `col` into
        column x. */
    method SetColumn(x: nat, col: seq<T>)
      requires Valid() && x < domain && |col| >= codomain
      modifies this
      ensures Valid() && Value() == Mats.SetColumn(old(Value()), x, col)
    {
      ghost var m0 := Value();
      for i := 0 to codomain
        invariant Valid() && domain == m0.domain && codomain == m0.codomain
        invariant forall a, b :: 0 <= a < m0.domain && 0 <= b < m0.codomain ==>
                    At(Value(), a, b) == if a == x && b < i then col[b] else At(m0, a, b)
      {
        Set(x, i, col[i]);
      }
      Extensionality(Value(), Mats.SetColumn(m0, x, col));
    }

    /** `set_row_zero`: every entry of row y becomes zero. */
    method SetRowZero(R: Ring<T>, y: nat)
      requires Valid() && y < codomain
      modifies this
      ensures Valid() && Value() == Mats.SetRowZero(R, old(Value()), y)
    {
      ghost var m0 := Value();
      for d := 0 to domain
        invariant Valid() && domain == m0.domain && codomain == m0.codomain
        invariant forall a, b :: 0 <= a < m0.domain && 0 <= b < m0.codomain ==>
                    At(Value(), a, b) == if b == y && a < d then R.zero else At(m0, a, b)
      {
        Set(d, y, R.zero);
      }
      Extensionality(Value(), Mats.SetRowZero(R, m0, y));
    }

    /** `is_row_non_zero`: some entry of row y is not zero. */
    function IsRowNonZero(R: Ring<T>, y: nat): (r: bool)
      reads this
      requires Valid() && y < codomain
      ensures r <==> exists x :: 0 <= x < domain && !R.isZero(At(Value(), x, y))
    {
      var row := GetRow(y);
      AnyNonZeroMeans(R, row);
      AnyNonZero(R, row)
    }

    /** `swap_rows` (the `Matrix` default, which FlatMatrix overrides): swap
        entry by entry through get and set. */
    method DefaultSwapRows(r1: nat, r2: nat)
      requires Valid() && r1 < codomain && r2 < codomain
      modifies this
      ensures Valid() && Value() == Mats.SwapRows(old(Value()), r1, r2)
    {
      ghost var m0 := Value();
      SwapRowsUpToEnds(m0, r1, r2);
      if r1 == r2 {
        Extensionality(m0, Mats.SwapRows(m0, r1, r2));
        return;
      }
      for j := 0 to domain
        invariant Valid() && domain == m0.domain && codomain == m0.codomain
        invariant Value() == SwapRowsUpTo(m0, r1, r2, j)
      {
        var temp := Get(j, r1);
        Set(j, r1, Get(j, r2));
        Set(j, r2, temp);
        SwapRowsStep(m0, r1, r2, j);
      }
    }

    /** `swap_cols` (the `Matrix` default, which FlatMatrix overrides). */
    method DefaultSwapCols(c1: nat, c2: nat)
      requires Valid() && c1 < domain && c2 < domain
      modifies this
      ensures Valid() && Value() == Mats.SwapCols(old(Value()), c1, c2)
    {
      ghost var m0 := Value();
      SwapColsUpToEnds(m0, c1, c2);
      if c1 == c2 {
        Extensionality(m0, Mats.SwapCols(m0, c1, c2));
        return;
      }
      for i := 0 to codomain
        invariant Valid() && domain == m0.domain && codomain == m0.codomain
        invariant Value() == SwapColsUpTo(m0, c1, c2, i)
      {
        var temp := Get(c1, i);
        Set(c1, i, Get(c2, i));
        Set(c2, i, temp);
        SwapColsStep(m0, c1, c2, i);
      }
    }

    /** `is_unit`: Ok exactly when every diagonal entry equals one and every
        other entry is zero. */
    method IsUnit(R: Ring<T>) returns (r: Result<(), ()>)
      requires Valid()
      ensures r.Ok? <==> UnitShaped(R, Value())
    {
      for i := 0 to domain
        invariant forall a, b :: 0 <= a < i && 0 <= b < codomain ==> UnitEntry(R, Value(), a, b)
      {
        for j := 0 to codomain
          invariant forall a, b :: 0 <= a < i && 0 <= b < codomain ==> UnitEntry(R, Value(), a, b)
          invariant forall b :: 0 <= b < j ==> UnitEntry(R, Value(), i, b)
        {
          if i == j {
            if !R.eq(Get(i, j), R.one) {
              assert !UnitEntry(R, Value(), i, j);
              return Err(());
            }
          } else {
            if !R.isZero(Get(i, j)) {
              assert !UnitEntry(R, Value(), i, j);
              return Err(());
            }
          }
        }
      }
      return Ok(());
    }

    /** `add_row_multiple(target, source, factor)`: unless the factor is
        zero, add factor · (entry of row source) at each entry of row target. */
    method AddRowMultiple(R: Ring<T>, t: nat, s: nat, f: T)
      requires Valid() && t < codomain && s < codomain
      modifies this
      ensures Valid() && Value() == Mats.AddRowMultiple(R, old(Value()), t, s, f)
    {
      ghost var m0 := Value();
      if R.isZero(f) {
        return;
      }
      for j := 0 to domain
        invariant Valid() && domain == m0.domain && codomain == m0.codomain
        invariant forall a, b :: 0 <= a < m0.domain && 0 <= b < m0.codomain ==>
                    At(Value(), a, b) == if b == t && a < j then R.add(At(m0, a, t), R.mul(f, At(m0, a, s))) else At(m0, a, b)
      {
        var addition := R.mul(f, Get(j, s));
        AddAt(R, j, t, addition);
      }
      Extensionality(Value(), Mats.AddRowMultiple(R, m0, t, s, f));
    }

    /** `add_col_multiple(target, source, factor)`: unless the factor is
        zero, add factor · (entry of column source) at each entry of column
        target. */
    method AddColMultiple(R: Ring<T>, t: nat, s: nat, f: T)
      requires Valid() && t < domain && s < domain
      modifies this
      ensures Valid() && Value() == Mats.AddColMultiple(R, old(Value()), t, s, f)
    {
      ghost var m0 := Value();
      if R.isZero(f) {
        return;
      }
      for i := 0 to codomain
        invariant Valid() && domain == m0.domain && codomain == m0.codomain
        invariant forall a, b :: 0 <= a < m0.domain && 0 <= b < m0.codomain ==>
                    At(Value(), a, b) == if a == t && b < i then R.add(At(m0, t, b), R.mul(f, At(m0, s, b))) else At(m0, a, b)
      {
        var addition := R.mul(f, Get(s, i));
        AddAt(R, t, i, addition);
      }
      Extensionality(Value(), Mats.AddColMultiple(R, m0, t, s, f));
    }
  }

  /** `any` over a row: some entry is not zero. */
  function AnyNonZero<T>(R: Ring<T>, row: seq<T>): bool {
    row != [] && (!R.isZero(row[0]) || AnyNonZero(R, row[1..]))
  }

  lemma {:induction false} AnyNonZeroMeans<T>(R: Ring<T>, row: seq<T>)
    ensures AnyNonZero(R, row) <==> exists x :: 0 <= x < |row| && !R.isZero(row[x])
  {
    if row != [] {
      AnyNonZeroMeans(R, row[1..]);
      if !R.isZero(row[0]) {
      } else if exists x :: 0 <= x < |row| && !R.isZero(row[x]) {
        var x :| 0 <= x < |row| && !R.isZero(row[x]);
        assert row[1..][x - 1] == row[x];
      }
    }
  }

  /** What `is_unit` checks at entry (x, y): one on the diagonal, zero off it. */
  ghost predicate UnitEntry<T>(R: Ring<T>, m: Mat<T>, x: nat, y: nat)
    requires Shaped(m) && x < m.domain && y < m.codomain
  {
    if x == y then R.eq(At(m, x, y), R.one) else R.isZero(At(m, x, y))
  }

  ghost predicate UnitShaped<T>(R: Ring<T>, m: Mat<T>)
    requires Shaped(m)
  {
    forall x, y :: 0 <= x < m.domain && 0 <= y < m.codomain ==> UnitEntry(R, m, x, y)
  }

  /** For a square matrix, `is_unit` holds exactly of the identity. */
  lemma UnitShapedIsIdentity<T(!new)>(R: Ring<T>, m: Mat<T>)
    requires IsCRing(R) && Elems(R, m) && m.domain == m.codomain
    ensures UnitShaped(R, m) <==> m == IdentityMat(R, m.domain)
  {
    var id := IdentityMat(R, m.domain);
    if UnitShaped(R, m) {
      forall x, y | 0 <= x < m.domain && 0 <= y < m.codomain ensures At(m, x, y) == At(id, x, y) {
        assert UnitEntry(R, m, x, y);
      }
      Extensionality(m, id);
    }
    if m == id {
      forall x, y | 0 <= x < m.domain && 0 <= y < m.codomain ensures UnitEntry(R, m, x, y) {
      }
    }
  }

  /** After `set_row_zero`, `is_row_non_zero` is false for that row. */
  lemma SetRowZeroClearsRow<T(!new)>(R: Ring<T>, m: Mat<T>, y: nat)
    requires IsCRing(R) && Shaped(m) && y < m.codomain
    ensures !exists x :: 0 <= x < m.domain && !R.isZero(At(Mats.SetRowZero(R, m, y), x, y))
  {
  }

  /** Storage with d more zeros holds one more row of zeros. */
  lemma ExtendedEntries<T>(R: Ring<T>, d0: seq<T>, d: nat, c: nat)
    requires |d0| == Area(d, c)
    ensures |d0 + seq(d, _ => R.zero)| == Area(d, c + 1)
    ensures forall x, y :: 0 <= x < d && 0 <= y < c + 1 ==>
              Idx(d, x, y) < |d0 + seq(d, _ => R.zero)| &&
              (d0 + seq(d, _ => R.zero))[Idx(d, x, y)] == At(Mats.ExtendOneRow(R, MatOf(d0, d, c)), x, y)
  {
    var m0 := MatOf(d0, d, c);
    var e := d0 + seq(d, _ => R.zero);
    IdxBounds(d, c);
    forall x, y | 0 <= x < d && 0 <= y < c + 1
      ensures Idx(d, x, y) < |e| && e[Idx(d, x, y)] == At(Mats.ExtendOneRow(R, m0), x, y)
    {
      IdxShift(d, x, y);
      if y < c {
        assert e[Idx(d, x, y)] == d0[Idx(d, x, y)] == At(m0, x, y);
      }
    }
  }

  /** Writing one entry of the storage sets that entry of the matrix. */
  lemma StoreIsSetAt<T>(n0: seq<T>, d: nat, c: nat, x: nat, y: nat, v: T)
    requires |n0| == Area(d, c) && x < d && y < c
    ensures Idx(d, x, y) < |n0|
    ensures MatOf(n0[Idx(d, x, y) := v], d, c) == SetAt(MatOf(n0, d, c), x, y, v)
  {
    IdxBounds(d, c);
    var n := n0[Idx(d, x, y) := v];
    var m := SetAt(MatOf(n0, d, c), x, y, v);
    forall i, j | 0 <= i < d && 0 <= j < c ensures n[Idx(d, i, j)] == At(m, i, j) {
      if Idx(d, i, j) == Idx(d, x, y) {
        IdxInjective(d, i, j, x, y);
      }
    }
    MatOfEntries(n, d, c, m);
  }

  /** Copying row i of s over its place in the storage n of a partly
      pasted matrix pastes one more row. */
  lemma PasteRowStep<T>(n: seq<T>, m0: Mat<T>, s: Mat<T>, nd: nat, nc: nat, x0: nat, y0: nat, i: nat)
    requires Shaped(m0) && m0.domain == nd && m0.codomain == nc && Shaped(s)
    requires x0 + s.domain <= nd && y0 + s.codomain <= nc && i < s.codomain
    requires |n| == Area(nd, nc) && MatOf(n, nd, nc) == Paste(m0, s, x0, y0, i)
    ensures Idx(nd, x0, y0 + i) + s.domain <= |n|
    ensures var n' := Spliced(n, Idx(nd, x0, y0 + i), s.rows[i]);
            |n'| == Area(nd, nc) && MatOf(n', nd, nc) == Paste(m0, s, x0, y0, i + 1)
  {
    SliceIsWriteInRow(n, s.rows[i], nd, nc, y0 + i, x0);
    PasteStep(m0, s, x0, y0, i);
  }

  /** The storage n with `row` copied over its entries from index k on
      (Rust's `copy_from_slice` on a sub-slice). */
  function Spliced<T>(n: seq<T>, k: nat, row: seq<T>): (r: seq<T>)
    requires k + |row| <= |n|
    ensures |r| == |n| && r[..k] == n[..k] && r[k..k + |row|] == row && r[k + |row|..] == n[k + |row|..]
  {
    n[..k] + row + n[k + |row|..]
  }

  /** Writing a slice into row y of the storage writes it into row y of the
      matrix. */
  lemma SliceIsWriteInRow<T>(n0: seq<T>, row: seq<T>, d: nat, c: nat, y: nat, x0: nat)
    requires |n0| == Area(d, c) && y < c && x0 + |row| <= d
    ensures Idx(d, x0, y) + |row| <= |n0|
    ensures var n := Spliced(n0, Idx(d, x0, y), row);
            |n| == Area(d, c) && MatOf(n, d, c) == WriteInRow(MatOf(n0, d, c), y, x0, row)
  {
    IdxBound(d, c, 0, y);
    IdxShift(d, x0, y);
    var n := Spliced(n0, Idx(d, x0, y), row);
    forall x, y2 | 0 <= x < d && 0 <= y2 < c
      ensures Idx(d, x, y2) < |n| && n[Idx(d, x, y2)] == At(WriteInRow(MatOf(n0, d, c), y, x0, row), x, y2)
    {
      IdxBound(d, c, 0, y2);
      SliceWriteEntry(n0, row, d, y, x0, x, y2);
    }
    MatOfEntries(n, d, c, WriteInRow(MatOf(n0, d, c), y, x0, row));
  }

  /** Zeros store the zero matrix. */
  lemma ZeroStorage<T>(R: Ring<T>, n: seq<T>, d: nat, c: nat)
    requires n == seq(Area(d, c), _ => R.zero)
    ensures MatOf(n, d, c) == ZeroMat(R, d, c)
  {
    IdxBounds(d, c);
    MatOfEntries(n, d, c, ZeroMat(R, d, c));
  }

  /** `d * c`, the length of the storage in the Rust code. */
  function Size(d: nat, c: nat): (n: nat)
    ensures n == Area(d, c)
  {
    AreaIsProduct(d, c);
    d * c
  }

  /** `y * d + x`, the index arithmetic of the Rust code. */
  function Offset(d: nat, x: nat, y: nat): (k: nat)
    ensures k == Idx(d, x, y)
  {
    IdxIsProduct(d, x, y);
    y * d + x
  }

  /** The entries after `row` has been written into row y from column x0 on;
      the caller shows that rows y and y2 lie inside the storage. */
  lemma SliceWriteEntry<T>(d0: seq<T>, row: seq<T>, d: nat, y: nat, x0: nat, x: nat, y2: nat)
    requires Idx(d, 0, y) + d <= |d0| && Idx(d, 0, y2) + d <= |d0| && x0 + |row| <= d && x < d
    ensures Idx(d, x0, y) + |row| <= |d0|
    ensures var data := d0[..Idx(d, x0, y)] + row + d0[Idx(d, x0, y) + |row|..];
            |data| == |d0| && Idx(d, x, y2) < |data| &&
            data[Idx(d, x, y2)] == if y2 == y && x0 <= x < x0 + |row| then row[x - x0] else d0[Idx(d, x, y2)]
  {
    var s, k := Idx(d, x0, y), Idx(d, x, y2);
    IdxShift(d, x0, y);
    IdxShift(d, x, y2);
    SliceWriteAt(d0, row, s, k);
    if y < y2 {
      RowsOrdered(d, y, y2);
      assert !(s <= k < s + |row|);
    } else if y2 < y {
      RowsOrdered(d, y2, y);
      assert !(s <= k < s + |row|);
    } else {
      assert k - s == x - x0;
    }
  }

  lemma SliceWriteAt<T>(d0: seq<T>, row: seq<T>, s: nat, k: nat)
    requires s + |row| <= |d0| && k < |d0|
    ensures var data := d0[..s] + row + d0[s + |row|..];
            |data| == |d0| && data[k] == if s <= k < s + |row| then row[k - s] else d0[k]
  {
  }

  /** Storage of two matrices one after the other holds the stacked matrix. */
  lemma StackedEntries<T>(a: seq<T>, b: seq<T>, d: nat, c1: nat, c2: nat)
    requires |a| == Area(d, c1) && |b| == Area(d, c2)
    ensures |a + b| == Area(d, c1 + c2)
    ensures forall x, y :: 0 <= x < d && 0 <= y < c1 + c2 ==>
              Idx(d, x, y) < |a + b| &&
              (a + b)[Idx(d, x, y)] == At(Mats.VStack(MatOf(a, d, c1), MatOf(b, d, c2)), x, y)
  {
    IdxAdd(d, 0, c1, c2);
    forall x, y | 0 <= x < d && 0 <= y < c1 + c2
      ensures Idx(d, x, y) < |a + b| && (a + b)[Idx(d, x, y)] == At(Mats.VStack(MatOf(a, d, c1), MatOf(b, d, c2)), x, y)
    {
      VStackEntries(MatOf(a, d, c1), MatOf(b, d, c2), x, y);
      if y >= c1 {
        StackedLower(a, b, d, c1, c2, x, y);
      } else {
        StackedUpper(a, b, d, c1, c2, x, y);
      }
    }
  }

  lemma StackedUpper<T>(a: seq<T>, b: seq<T>, d: nat, c1: nat, c2: nat, x: nat, y: nat)
    requires |a| == Area(d, c1) && |b| == Area(d, c2) && x < d && y < c1
    ensures Idx(d, x, y) < |a|
    ensures (a + b)[Idx(d, x, y)] == At(MatOf(a, d, c1), x, y)
  {
    IdxBound(d, c1, x, y);
  }

  lemma StackedLower<T>(a: seq<T>, b: seq<T>, d: nat, c1: nat, c2: nat, x: nat, y: nat)
    requires |a| == Area(d, c1) && |b| == Area(d, c2) && x < d && c1 <= y < c1 + c2
    ensures Idx(d, x, y) < |a + b|
    ensures (a + b)[Idx(d, x, y)] == At(MatOf(b, d, c2), x, y - c1)
  {
    IdxAdd(d, x, c1, y - c1);
    IdxBound(d, c2, x, y - c1);
  }

}
