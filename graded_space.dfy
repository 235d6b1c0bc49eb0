/** `GradedVectorSpace` and `GradedLinearMap` of src/k_comodule/graded_space.rs:
    a vector space given by a basis per grade, and a linear map given by one
    matrix per grade. A grade without an entry stands for the zero space, so
    the operations treat a missing matrix as one with no rows or no columns. */
module GradedSpaces {
  import opened Rings
  import opened Mats
  import opened MatAlgebra

  /** A basis (a list of elements) per grade. */
  datatype GradedVectorSpace<G, B> = GradedVectorSpace(spaces: map<G, seq<B>>)

  /** `new`: no grade at all. */
  function EmptySpace<G(!new), B>(): (s: GradedVectorSpace<G, B>)
    ensures forall g :: DimensionInGrade(s, g) == 0
  {
    GradedVectorSpace(map[])
  }

  /** `dimension_in_grade`: the number of basis elements, 0 for a grade
      that is absent. */
  function DimensionInGrade<G, B>(s: GradedVectorSpace<G, B>, g: G): (n: nat)
    ensures g in s.spaces ==> n == |s.spaces[g]|
    ensures g !in s.spaces ==> n == 0
  {
    if g in s.spaces then |s.spaces[g]| else 0
  }

  ghost predicate AllShaped<G, T>(maps: map<G, Mat<T>>) {
    forall g :: g in maps ==> Shaped(maps[g])
  }

  /** The number of columns at a grade; a missing grade has none. */
  function DomainIn<G, T>(maps: map<G, Mat<T>>, g: G): nat {
    if g in maps then maps[g].domain else 0
  }

  /** The number of rows at a grade; a missing grade has none. */
  function CodomainIn<G, T>(maps: map<G, Mat<T>>, g: G): nat {
    if g in maps then maps[g].codomain else 0
  }

  // ---------------------------------------------------------------------
  // vstack

  /** Stacking needs the two matrices of a shared grade to have the same
      domain (the `debug_assert` of the matrix `vstack`). */
  ghost predicate StackableMaps<G, T>(a: map<G, Mat<T>>, b: map<G, Mat<T>>) {
    AllShaped(a) && AllShaped(b) && forall g :: g in a && g in b ==> a[g].domain == b[g].domain
  }

  /** What `vstack` leaves at grade g of `b`: the two matrices stacked, or
      `b`'s matrix alone when `a` has none. */
  function StackedAt<G, T>(a: map<G, Mat<T>>, b: map<G, Mat<T>>, g: G): (r: Mat<T>)
    requires StackableMaps(a, b) && g in b
    ensures Shaped(r)
  {
    if g in a then VStack(a[g], b[g]) else b[g]
  }

  /** The maps once the grades `done` of `b` have been stacked onto `a`. */
  function VStackOn<G, T>(a: map<G, Mat<T>>, b: map<G, Mat<T>>, done: set<G>): (r: map<G, Mat<T>>)
    requires StackableMaps(a, b) && done <= b.Keys
    ensures r.Keys == a.Keys + done
  {
    map g | g in a.Keys + done :: if g in done then StackedAt(a, b, g) else a[g]
  }

  /** Partial stacking keeps every matrix shaped, with the domain of `b`'s
      matrix of its grade. */
  lemma VStackOnShaped<G, T>(a: map<G, Mat<T>>, b: map<G, Mat<T>>, done: set<G>)
    requires StackableMaps(a, b) && done <= b.Keys
    ensures var r := VStackOn(a, b, done);
      forall g :: g in r ==> Shaped(r[g]) && (g in b ==> r[g].domain == b[g].domain)
  {
  }

  /** The maps after `a.vstack(b)`. */
  function VStackMaps<G, T>(a: map<G, Mat<T>>, b: map<G, Mat<T>>): (r: map<G, Mat<T>>)
    requires StackableMaps(a, b)
  {
    VStackOn(a, b, b.Keys)
  }

  /** `entry(g).and_modify(vstack).or_insert(mat)`. */
  function StackInto<G, T>(m: map<G, Mat<T>>, g: G, mat: Mat<T>): (r: map<G, Mat<T>>)
    requires Shaped(mat) && (g in m ==> Shaped(m[g]) && m[g].domain == mat.domain)
  {
    if g in m then m[g := VStack(m[g], mat)] else m[g := mat]
  }

  /** Stacking one more grade of `b` onto the partial result. */
  lemma VStackStep<G, T>(m: map<G, Mat<T>>, a: map<G, Mat<T>>, b: map<G, Mat<T>>, todo: set<G>, g: G)
    requires StackableMaps(a, b) && todo <= b.Keys && g in todo
    requires m == VStackOn(a, b, b.Keys - todo)
    ensures g in m ==> Shaped(m[g]) && m[g].domain == b[g].domain
    ensures StackInto(m, g, b[g]) == VStackOn(a, b, b.Keys - (todo - {g}))
  {
    assert b.Keys - (todo - {g}) == (b.Keys - todo) + {g};
  }

  /** Every grade of either map is kept; at each of them the rows of `a`
      come first, then those of `b`, and a grade missing on one side
      contributes no rows. */
  lemma VStackMapsEntries<G, T>(a: map<G, Mat<T>>, b: map<G, Mat<T>>, g: G, x: nat, y: nat)
    requires StackableMaps(a, b)
    ensures var r := VStackMaps(a, b);
      && (g in r <==> g in a || g in b)
      && (g in r ==> Shaped(r[g]) && r[g].codomain == CodomainIn(a, g) + CodomainIn(b, g))
      && (g in r && x < r[g].domain && y < r[g].codomain ==>
            At(r[g], x, y) == if y < CodomainIn(a, g) then At(a[g], x, y) else At(b[g], x, y - CodomainIn(a, g)))
  {
    var r := VStackMaps(a, b);
    if g in r && x < r[g].domain && y < r[g].codomain && g in a && g in b {
      VStackEntries(a[g], b[g], x, y);
    }
  }

  // ---------------------------------------------------------------------
  // block_sum

  /** The maps after `a.block_sum(b)`: shared grades get the block sum,
      every other grade keeps the one matrix it has. */
  function BlockSumMaps<G, T>(R: Ring<T>, a: map<G, Mat<T>>, b: map<G, Mat<T>>): (r: map<G, Mat<T>>)
    requires AllShaped(a) && AllShaped(b)
  {
    BlockSumOn(R, a, b, b.Keys)
  }

  /** The maps once the shared grades are summed and the grades `done` of
      `b` have been drained into `a`. */
  function BlockSumOn<G, T>(R: Ring<T>, a: map<G, Mat<T>>, b: map<G, Mat<T>>, done: set<G>): (r: map<G, Mat<T>>)
    requires AllShaped(a) && AllShaped(b) && done <= b.Keys
    ensures r.Keys == a.Keys + done
  {
    map g | g in a.Keys + done ::
      if g in a && g in b then BlockSum(R, a[g], b[g]) else if g in a then a[g] else b[g]
  }

  lemma BlockSumMapsShaped<G, T>(R: Ring<T>, a: map<G, Mat<T>>, b: map<G, Mat<T>>)
    requires AllShaped(a) && AllShaped(b)
    ensures AllShaped(BlockSumMaps(R, a, b))
  {
  }

  /** `if !contains_key(g) { insert(g, mat) }`. */
  function InsertAbsent<G, T>(m: map<G, Mat<T>>, g: G, mat: Mat<T>): (r: map<G, Mat<T>>) {
    if g in m then m else m[g := mat]
  }

  /** Draining one more grade of `b` into the partial result. */
  lemma BlockSumStep<G, T>(R: Ring<T>, m: map<G, Mat<T>>, a: map<G, Mat<T>>, b: map<G, Mat<T>>, todo: set<G>, g: G)
    requires AllShaped(a) && AllShaped(b) && todo <= b.Keys && g in todo
    requires m == BlockSumOn(R, a, b, b.Keys - todo)
    ensures InsertAbsent(m, g, b[g]) == BlockSumOn(R, a, b, b.Keys - (todo - {g}))
  {
    assert b.Keys - (todo - {g}) == (b.Keys - todo) + {g};
  }

  // ---------------------------------------------------------------------
  // compose

  /** Composing needs the matrices of a shared grade to fit (the
      `debug_assert` of the matrix `compose`). */
  ghost predicate ComposableMaps<G, T>(a: map<G, Mat<T>>, b: map<G, Mat<T>>) {
    AllShaped(a) && AllShaped(b) && forall g :: g in a && g in b ==> a[g].domain == b[g].codomain
  }

  /** What `a.compose(b)` holds at a grade of either map. */
  function ComposedAt<G, T>(R: Ring<T>, a: map<G, Mat<T>>, b: map<G, Mat<T>>, g: G): (r: Mat<T>)
    requires ComposableMaps(a, b) && (g in a || g in b)
    ensures Shaped(r)
  {
    if g in a && g in b then Compose(R, a[g], b[g])
    else if g in a then ZeroMat(R, 0, a[g].codomain)
    else ZeroMat(R, b[g].domain, 0)
  }

  /** The maps of `a.compose(b)`, a after b. */
  function ComposedMaps<G, T>(R: Ring<T>, a: map<G, Mat<T>>, b: map<G, Mat<T>>): (r: map<G, Mat<T>>)
    requires ComposableMaps(a, b)
  {
    ComposedOn(R, a, b, a.Keys + b.Keys)
  }

  /** The composite restricted to the grades `keys`. */
  function ComposedOn<G, T>(R: Ring<T>, a: map<G, Mat<T>>, b: map<G, Mat<T>>, keys: set<G>): (r: map<G, Mat<T>>)
    requires ComposableMaps(a, b) && keys <= a.Keys + b.Keys
    ensures r.Keys == keys
  {
    map g | g in keys :: ComposedAt(R, a, b, g)
  }

  /** The grades the composite holds while `compose` walks the grades of
      `a`, `todo` being those not visited yet. */
  function LeftFilled<G>(a: set<G>, b: set<G>, todo: set<G>): set<G> {
    (a * b) + (a - todo)
  }

  /** The grades the composite holds while `compose` walks the grades of
      `b`. */
  function RightFilled<G>(a: set<G>, b: set<G>, todo: set<G>): set<G> {
    a + (b - todo)
  }

  lemma FilledBetweenLoops<G>(a: set<G>, b: set<G>)
    ensures LeftFilled(a, b, {}) == RightFilled(a, b, b)
    ensures RightFilled(a, b, {}) == a + b
  {
  }

  /** Filling in one more grade of `a` that `b` lacks. */
  lemma ComposeStepLeft<G, T>(R: Ring<T>, c: map<G, Mat<T>>, a: map<G, Mat<T>>, b: map<G, Mat<T>>, todo: set<G>, g: G)
    requires ComposableMaps(a, b) && todo <= a.Keys && g in todo
    requires c == ComposedOn(R, a, b, LeftFilled(a.Keys, b.Keys, todo))
    ensures InsertAbsent(c, g, ZeroMat(R, 0, a[g].codomain)) == ComposedOn(R, a, b, LeftFilled(a.Keys, b.Keys, todo - {g}))
  {
    assert LeftFilled(a.Keys, b.Keys, todo - {g}) == LeftFilled(a.Keys, b.Keys, todo) + {g};
  }

  /** Filling in one more grade of `b` that `a` lacks. */
  lemma ComposeStepRight<G, T>(R: Ring<T>, c: map<G, Mat<T>>, a: map<G, Mat<T>>, b: map<G, Mat<T>>, todo: set<G>, g: G)
    requires ComposableMaps(a, b) && todo <= b.Keys && g in todo
    requires c == ComposedOn(R, a, b, RightFilled(a.Keys, b.Keys, todo))
    ensures InsertAbsent(c, g, ZeroMat(R, b[g].domain, 0)) == ComposedOn(R, a, b, RightFilled(a.Keys, b.Keys, todo - {g}))
  {
    assert RightFilled(a.Keys, b.Keys, todo - {g}) == RightFilled(a.Keys, b.Keys, todo) + {g};
  }

  /** The composite at grade g goes from the domain of `b` to the codomain of
      `a` there, a missing grade counting as zero. */
  lemma ComposedShape<G, T>(R: Ring<T>, a: map<G, Mat<T>>, b: map<G, Mat<T>>, g: G)
    requires ComposableMaps(a, b)
    ensures var r := ComposedMaps(R, a, b);
      && (g in r <==> g in a || g in b)
      && (g in r ==> Shaped(r[g]) && r[g].domain == DomainIn(b, g) && r[g].codomain == CodomainIn(a, g))
  {
  }

  /** At a grade both maps have, applying the composite is applying `b`
      and then `a`. */
  lemma ComposedApply<G, T(!new)>(R: Ring<T>, a: map<G, Mat<T>>, b: map<G, Mat<T>>, g: G, v: seq<T>)
    requires IsCRing(R) && ComposableMaps(a, b) && g in a && g in b
    requires Elems(R, a[g]) && Elems(R, b[g]) && |v| == b[g].domain && ElemsSeq(R, v)
    ensures var r := ComposedMaps(R, a, b);
      g in r && Apply(R, r[g], v) == Apply(R, a[g], Apply(R, b[g], v))
  {
    ApplyCompose(R, a[g], b[g], v);
  }

  // ---------------------------------------------------------------------
  // pivots

  /** The first column at or after `col` whose entry in row `row` is not
      zero; `m.domain` when there is none. */
  function FirstNonZeroFrom<T>(R: Ring<T>, m: Mat<T>, row: nat, col: nat): (x: nat)
    requires Shaped(m) && row < m.codomain && col <= m.domain
    ensures col <= x <= m.domain
    ensures x < m.domain ==> !R.isZero(At(m, x, row))
    ensures forall c :: col <= c < x ==> R.isZero(At(m, c, row))
    decreases m.domain - col
  {
    if col == m.domain then m.domain
    else if !R.isZero(At(m, col, row)) then col
    else FirstNonZeroFrom(R, m, row, col + 1)
  }

  /** The pivots found from row `row` on, when the column cursor stands at
      `col`: the first non-zero entry of the row at or after the cursor is a
      pivot and the cursor moves past it; a row without one moves the cursor
      to the end. */
  function PivotsFrom<T>(R: Ring<T>, m: Mat<T>, row: nat, col: nat): seq<(nat, nat)>
    requires Shaped(m) && row <= m.codomain && col <= m.domain
    decreases m.codomain - row
  {
    if row == m.codomain then []
    else
      var x := FirstNonZeroFrom(R, m, row, col);
      if x < m.domain then [(x, row)] + PivotsFrom(R, m, row + 1, x + 1)
      else PivotsFrom(R, m, row + 1, m.domain)
  }

  /** The pivots of a matrix, as `(column, row)` pairs. */
  function PivotsOf<T>(R: Ring<T>, m: Mat<T>): seq<(nat, nat)>
    requires Shaped(m)
  {
    PivotsFrom(R, m, 0, 0)
  }

  /** Pivots lie in the matrix from row `row` and column `col` on, their
      entries are not zero, and both their columns and their rows strictly
      increase, so a row has at most one pivot. */
  ghost predicate PivotList<T>(R: Ring<T>, m: Mat<T>, p: seq<(nat, nat)>, row: nat, col: nat)
    requires Shaped(m)
  {
    && (forall i :: 0 <= i < |p| ==> col <= p[i].0 < m.domain && row <= p[i].1 < m.codomain)
    && (forall i :: 0 <= i < |p| ==> p[i].0 < m.domain && p[i].1 < m.codomain && !R.isZero(At(m, p[i].0, p[i].1)))
    && (forall i, j :: 0 <= i < j < |p| ==> p[i].0 < p[j].0 && p[i].1 < p[j].1)
  }

  lemma {:induction false} PivotsFromAreOrdered<T>(R: Ring<T>, m: Mat<T>, row: nat, col: nat)
    requires Shaped(m) && row <= m.codomain && col <= m.domain
    ensures PivotList(R, m, PivotsFrom(R, m, row, col), row, col)
    decreases m.codomain - row
  {
    if row < m.codomain {
      var x := FirstNonZeroFrom(R, m, row, col);
      var next := if x < m.domain then x + 1 else m.domain;
      PivotsFromAreOrdered(R, m, row + 1, next);
      var rest := PivotsFrom(R, m, row + 1, next);
      if x < m.domain {
        PivotListCons(R, m, rest, row, col, x);
      } else {
        PivotListWiden(R, m, rest, row, col, next);
      }
    }
  }

  /** Pivots found from a later row and column also lie from an earlier one. */
  lemma PivotListWiden<T>(R: Ring<T>, m: Mat<T>, p: seq<(nat, nat)>, row: nat, col: nat, col': nat)
    requires Shaped(m) && PivotList(R, m, p, row + 1, col') && col <= col'
    ensures PivotList(R, m, p, row, col)
  {
  }

  /** A pivot placed before pivots of later rows and columns keeps the list
      ordered. */
  lemma PivotListCons<T>(R: Ring<T>, m: Mat<T>, rest: seq<(nat, nat)>, row: nat, col: nat, x: nat)
    requires Shaped(m) && PivotList(R, m, rest, row + 1, x + 1)
    requires col <= x < m.domain && row < m.codomain && !R.isZero(At(m, x, row))
    ensures PivotList(R, m, [(x, row)] + rest, row, col)
  {
    var p := [(x, row)] + rest;
    forall i, j | 0 <= i < j < |p| ensures p[i].0 < p[j].0 && p[i].1 < p[j].1 {
      if i > 0 {
        assert p[i] == rest[i - 1] && p[j] == rest[j - 1];
      } else {
        assert p[j] == rest[j - 1];
      }
    }
  }

  /** The pivots of a matrix lie in it, sit on non-zero entries, and have
      strictly increasing columns and rows. */
  lemma PivotsOfAreOrdered<T>(R: Ring<T>, m: Mat<T>)
    requires Shaped(m)
    ensures PivotList(R, m, PivotsOf(R, m), 0, 0)
  {
    PivotsFromAreOrdered(R, m, 0, 0);
  }

  /** The pivots of one matrix: for every row, the column cursor advances
      until it meets a non-zero entry, which is recorded, and moves past it. */
  method MatrixPivots<T>(R: Ring<T>, m: Mat<T>) returns (pivots: seq<(nat, nat)>)
    requires Shaped(m)
    ensures pivots == PivotsOf(R, m)
  {
    var col: nat := 0;
    pivots := [];
    for row: nat := 0 to m.codomain
      invariant col <= m.domain
      invariant pivots + PivotsFrom(R, m, row, col) == PivotsOf(R, m)
    {
      var col0 := col;
      while col < m.domain
        invariant col0 <= col <= m.domain
        invariant FirstNonZeroFrom(R, m, row, col0) == FirstNonZeroFrom(R, m, row, col)
        decreases m.domain - col
      {
        if !R.isZero(m.rows[row][col]) {
          pivots := pivots + [(col, row)];
          col := col + 1;
          break;
        }
        col := col + 1;
      }
    }
  }

  // ---------------------------------------------------------------------
  // zero_codomain and codomain_space

  /** `zero_codomain`: the map from the space to nothing, a matrix with one
      column per basis element and no rows in every grade of the space. */
  function ZeroCodomain<G, B, T>(R: Ring<T>, s: GradedVectorSpace<G, B>): (r: map<G, Mat<T>>)
    ensures r.Keys == s.spaces.Keys && AllShaped(r)
    ensures forall g :: g in r ==> r[g].domain == DimensionInGrade(s, g) && r[g].codomain == 0
  {
    map g | g in s.spaces :: ZeroMat(R, |s.spaces[g]|, 0)
  }

  /** `codomain_space(b)`: a space with `codomain` copies of `b` in every
      grade whose matrix has rows; grades without rows are left out. */
  function CodomainSpace<G(!new), B, T>(maps: map<G, Mat<T>>, b: B): (s: GradedVectorSpace<G, B>)
    ensures forall g :: DimensionInGrade(s, g) == CodomainIn(maps, g)
    ensures forall g :: g in s.spaces <==> g in maps && maps[g].codomain != 0
    ensures forall g, i :: g in s.spaces && 0 <= i < |s.spaces[g]| ==> s.spaces[g][i] == b
  {
    GradedVectorSpace(map g | g in maps && maps[g].codomain != 0 :: seq(maps[g].codomain, _ => b))
  }

  /** The map to nothing has nothing as its codomain. */
  lemma ZeroCodomainHasEmptyCodomain<G(!new), B, T>(R: Ring<T>, s: GradedVectorSpace<G, B>, b: B)
    ensures CodomainSpace(ZeroCodomain(R, s), b).spaces == map[]
  {
    var c := CodomainSpace(ZeroCodomain(R, s), b);
    assert forall g :: g !in c.spaces;
  }

  /** The loop of `vstack`: each grade of `b` in turn is stacked onto the
      matrix `a` has there, or inserted. */
  method StackAll<G, T>(a: map<G, Mat<T>>, b: map<G, Mat<T>>) returns (m: map<G, Mat<T>>)
    requires StackableMaps(a, b)
    ensures m == VStackMaps(a, b)
  {
    m := a;
    var todo := b.Keys;
    while todo != {}
      invariant todo <= b.Keys
      invariant m == VStackOn(a, b, b.Keys - todo)
      decreases |todo|
    {
      var g :| g in todo;
      VStackStep(m, a, b, todo, g);
      m := StackInto(m, g, b[g]);
      todo := todo - {g};
    }
    assert b.Keys - todo == b.Keys;
  }

  /** The body of `compose`: the shared grades composed, then the grades of
      `a`, then those of `b`, that are still missing filled in with empty
      matrices. */
  method ComposeAll<G, T>(R: Ring<T>, a: map<G, Mat<T>>, b: map<G, Mat<T>>) returns (c: map<G, Mat<T>>)
    requires ComposableMaps(a, b)
    ensures c == ComposedMaps(R, a, b)
  {
    c := map g | g in a && g in b :: Mats.Compose(R, a[g], b[g]);
    assert LeftFilled(a.Keys, b.Keys, a.Keys) == a.Keys * b.Keys;
    c := FillLeft(R, a, b, c);
    FilledBetweenLoops(a.Keys, b.Keys);
    c := FillRight(R, a, b, c);
  }

  /** The first loop of `compose`: a grade of `a` still missing gets
      `zero(0, codomain)`. */
  method FillLeft<G, T>(R: Ring<T>, a: map<G, Mat<T>>, b: map<G, Mat<T>>, c0: map<G, Mat<T>>) returns (c: map<G, Mat<T>>)
    requires ComposableMaps(a, b) && c0 == ComposedOn(R, a, b, LeftFilled(a.Keys, b.Keys, a.Keys))
    ensures c == ComposedOn(R, a, b, LeftFilled(a.Keys, b.Keys, {}))
  {
    c := c0;
    var todo := a.Keys;
    while todo != {}
      invariant todo <= a.Keys
      invariant c == ComposedOn(R, a, b, LeftFilled(a.Keys, b.Keys, todo))
      decreases |todo|
    {
      var g :| g in todo;
      ComposeStepLeft(R, c, a, b, todo, g);
      c := InsertAbsent(c, g, ZeroMat(R, 0, a[g].codomain));
      todo := todo - {g};
    }
  }

  /** The second loop of `compose`: a grade of `b` still missing gets
      `zero(domain, 0)`. */
  method FillRight<G, T>(R: Ring<T>, a: map<G, Mat<T>>, b: map<G, Mat<T>>, c0: map<G, Mat<T>>) returns (c: map<G, Mat<T>>)
    requires ComposableMaps(a, b) && c0 == ComposedOn(R, a, b, RightFilled(a.Keys, b.Keys, b.Keys))
    ensures c == ComposedOn(R, a, b, RightFilled(a.Keys, b.Keys, {}))
  {
    c := c0;
    var todo := b.Keys;
    while todo != {}
      invariant todo <= b.Keys
      invariant c == ComposedOn(R, a, b, RightFilled(a.Keys, b.Keys, todo))
      decreases |todo|
    {
      var g :| g in todo;
      ComposeStepRight(R, c, a, b, todo, g);
      c := InsertAbsent(c, g, ZeroMat(R, b[g].domain, 0));
      todo := todo - {g};
    }
  }

  // ---------------------------------------------------------------------
  // The map as an object

  /** `GradedLinearMap`: one matrix per grade, updated in place by `vstack`
      and `block_sum`. */
  class GradedLinearMap<G(==), T> {
    var maps: map<G, Mat<T>>

    ghost predicate Valid()
      reads this
    {
      AllShaped(maps)
    }

    /** `From<HashMap<G, M>>`: the given matrices. */
    constructor FromMaps(m: map<G, Mat<T>>)
      ensures maps == m
    {
      maps := m;
    }

    /** `empty`: no grade at all. */
    constructor Empty()
      ensures Valid() && maps == map[]
    {
      maps := map[];
    }

    /** `vstack`: every matrix of `other` is stacked below this map's matrix
        of its grade, or inserted when this map has none. */
    method VStack(other: GradedLinearMap<G, T>)
      requires other != this && Valid() && other.Valid() && StackableMaps(maps, other.maps)
      modifies this
      ensures Valid() && maps == VStackMaps(old(maps), other.maps)
    {
      var m := StackAll(maps, other.maps);
      VStackOnShaped(maps, other.maps, other.maps.Keys);
      maps := m;
    }

    /** `block_sum`: shared grades get the block sum of the two matrices;
        then `other` is drained, its grades missing here being inserted. */
    method BlockSum(R: Ring<T>, other: GradedLinearMap<G, T>)
      requires other != this && Valid() && other.Valid()
      modifies this, other
      ensures Valid() && maps == BlockSumMaps(R, old(maps), old(other.maps))
      ensures other.maps == map[]
    {
      var b := other.maps;
      ghost var m0 := maps;
      var m := map g | g in maps :: if g in b then Mats.BlockSum(R, maps[g], b[g]) else maps[g];
      assert m == BlockSumOn(R, m0, b, b.Keys - b.Keys);
      var todo := b.Keys;
      while todo != {}
        invariant todo <= b.Keys
        invariant m == BlockSumOn(R, m0, b, b.Keys - todo)
        decreases |todo|
      {
        var g :| g in todo;
        BlockSumStep(R, m, m0, b, todo, g);
        m := InsertAbsent(m, g, b[g]);
        todo := todo - {g};
      }
      assert b.Keys - todo == b.Keys;
      BlockSumMapsShaped(R, m0, b);
      maps := m;
      other.maps := map[];
    }

    /** `compose(rhs)`: self after rhs, grade by grade; a grade on one side
        only gets an empty matrix of the right shape. */
    method Compose(R: Ring<T>, rhs: GradedLinearMap<G, T>) returns (r: GradedLinearMap<G, T>)
      requires Valid() && rhs.Valid() && ComposableMaps(maps, rhs.maps)
      ensures fresh(r) && r.maps == ComposedMaps(R, maps, rhs.maps)
    {
      var c := ComposeAll(R, maps, rhs.maps);
      r := new GradedLinearMap.FromMaps(c);
    }

    /** `pivots`: the pivots of every grade's matrix. */
    method Pivots(R: Ring<T>) returns (p: map<G, seq<(nat, nat)>>)
      requires Valid()
      ensures p.Keys == maps.Keys
      ensures forall g :: g in p ==> p[g] == PivotsOf(R, maps[g]) && PivotList(R, maps[g], p[g], 0, 0)
    {
      p := map[];
      var todo := maps.Keys;
      while todo != {}
        invariant todo <= maps.Keys
        invariant p.Keys == maps.Keys - todo
        invariant forall g :: g in p ==> p[g] == PivotsOf(R, maps[g]) && PivotList(R, maps[g], p[g], 0, 0)
        decreases |todo|
      {
        var g :| g in todo;
        var q := MatrixPivots(R, maps[g]);
        PivotsOfAreOrdered(R, maps[g]);
        p := p[g := q];
        todo := todo - {g};
      }
    }
  }
}
