/** Rank, nullity and linear systems over F2 on the packed `F2Matrix`, the
    last part of crates/algebra/src/matrices/f2_linalg.rs. They reduce with
    `F2LinAlg.Rref` and read pivots with `F2LinAlg.Pivots`; what they mean
    is stated with the generic results of `RrefPivots` (the pivots of a
    reduced form belong to the matrix) and `Augmented` (the augmented
    matrix [A | B]). */
module F2Systems {
  import opened Wrappers
  import opened Rings
  import opened Mats
  import opened MatAlgebra
  import opened FiniteFields
  import opened F2Matrices
  import opened F2LinAlg
  import F2Bits
  import Linalg
  import RrefPivots
  import Augmented

  /** `rank`: reduce a clone and count its pivots. Every reduced form of m
      has these pivot columns, whichever reduction produced it, so the
      count belongs to m; it is at most either dimension and equals the
      number of columns exactly when only zero maps to zero. */
  method Rank(m: F2Matrix) returns (r: nat, ghost s: Mat<bv8>, ghost piv: seq<nat>)
    requires m.Valid()
    ensures Linalg.RowEquivalent(F2Ring(), m.Value(), s) && Linalg.IsRref(F2Ring(), s, piv) && r == |piv|
    ensures forall s', piv' :: Linalg.RowEquivalent(F2Ring(), m.Value(), s') && Linalg.IsRref(F2Ring(), s', piv') ==> piv' == piv
    ensures r <= m.domain && r <= m.codomain
    ensures r == m.domain <==> TrivialKernel(F2Ring(), m.Value())
  {
    F2IsField();
    ghost var R := F2Ring();
    ghost var a := m.Value();
    var c := m.Clone();
    ghost var u, w;
    piv, u, w := Rref(c);
    s := c.Value();
    var ps := Pivots(c);
    Linalg.PivotsOfRref(R, s, piv);
    r := |ps|;
    RankOfReduced(R, a, s, piv, u, w);
  }

  /** The pivots of one reduced form of a are those of every reduced form
      of a; there are at most as many as either dimension, and as many as
      the columns exactly when only zero maps to zero. */
  lemma RankOfReduced<T(!new)>(R: Ring<T>, a: Mat<T>, s: Mat<T>, piv: seq<nat>, u: Mat<T>, w: Mat<T>)
    requires IsField(R) && RowTransforms(R, a, s, u, w) && Linalg.IsRref(R, s, piv)
    requires s.domain == a.domain && s.codomain == a.codomain
    ensures Linalg.RowEquivalent(R, a, s)
    ensures forall s', piv' :: Linalg.RowEquivalent(R, a, s') && Linalg.IsRref(R, s', piv') ==> piv' == piv
    ensures |piv| <= a.domain && |piv| <= a.codomain
    ensures |piv| == a.domain <==> TrivialKernel(R, a)
  {
    forall s', piv' | Linalg.RowEquivalent(R, a, s') && Linalg.IsRref(R, s', piv') ensures piv' == piv {
      RrefPivots.ReducedFormsSamePivots(R, a, s, piv, s', piv');
    }
    Linalg.FreeColsCount(s.domain, piv);
    Linalg.FullRankIffTrivial(R, s, piv);
    TrivialKernelRowEquivalent(R, a, s, u, w);
  }

  /** `nullity`: the number of columns less the rank, which is the number
      of columns of any reduced form without a pivot, and zero exactly when
      only zero maps to zero. */
  method Nullity(m: F2Matrix) returns (n: nat)
    requires m.Valid()
    ensures forall s, piv :: Linalg.RowEquivalent(F2Ring(), m.Value(), s) && Linalg.IsRref(F2Ring(), s, piv) ==>
              n + |piv| == m.domain && n == |Linalg.FreeCols(m.domain, piv)|
    ensures n == 0 <==> TrivialKernel(F2Ring(), m.Value())
  {
    var r, s, piv := Rank(m);
    n := m.domain - r;
    Linalg.FreeColsCount(m.domain, piv);
  }

  /** The copy loops of `solve`: columns off.. of aug receive the columns of
      src, column by column. */
  method CopyColumns(aug: F2Matrix, src: F2Matrix, off: nat, ghost z: Mat<bv8>, ghost e: Mat<bv8>)
    requires aug.Valid() && src.Valid() && aug != src
    requires Shaped(z) && Shaped(e) && z.domain == e.domain == aug.domain && z.codomain == e.codomain == aug.codomain
    requires Augmented.ColumnsAt(e, src.Value(), off)
    requires aug.Value() == OverwriteCols(z, e, off, 0)
    modifies aug
    ensures aug.Valid() && aug.domain == old(aug.domain) && aug.codomain == old(aug.codomain)
    ensures aug.Value() == OverwriteCols(z, e, off + src.domain, 0)
  {
    for i := 0 to src.domain
      invariant aug.Valid() && aug.domain == e.domain && aug.codomain == e.codomain
      invariant aug.Value() == OverwriteCols(z, e, off + i, 0)
    {
      CopyColumn(aug, src, off, i, z, e);
    }
  }

  /** One column of `CopyColumns`: column off + i of aug receives column i
      of src, top to bottom. */
  method CopyColumn(aug: F2Matrix, src: F2Matrix, off: nat, i: nat, ghost z: Mat<bv8>, ghost e: Mat<bv8>)
    requires aug.Valid() && src.Valid() && aug != src
    requires Shaped(z) && Shaped(e) && z.domain == e.domain == aug.domain && z.codomain == e.codomain == aug.codomain
    requires src.codomain == aug.codomain && i < src.domain && off + src.domain <= aug.domain
    requires forall y :: 0 <= y < src.codomain ==> At(e, off + i, y) == At(src.Value(), i, y)
    requires aug.Value() == OverwriteCols(z, e, off + i, 0)
    modifies aug
    ensures aug.Valid() && aug.domain == old(aug.domain) && aug.codomain == old(aug.codomain)
    ensures aug.Value() == OverwriteCols(z, e, off + i + 1, 0)
  {
    for j := 0 to src.codomain
      invariant aug.Valid() && aug.domain == e.domain && aug.codomain == e.codomain
      invariant aug.Value() == OverwriteCols(z, e, off + i, j)
    {
      CopyEntry(aug, src, off, i, j, z, e);
    }
    OverwriteColsEnds(z, e);
  }

  /** One entry of the copy: entry (i, j) of `src` to (off + i, j) of `aug`. */
  method CopyEntry(aug: F2Matrix, src: F2Matrix, off: nat, i: nat, j: nat, ghost z: Mat<bv8>, ghost e: Mat<bv8>)
    requires aug.Valid() && src.Valid() && aug != src
    requires Shaped(z) && Shaped(e) && z.domain == e.domain == aug.domain && z.codomain == e.codomain == aug.codomain
    requires src.codomain == aug.codomain && i < src.domain && off + src.domain <= aug.domain && j < src.codomain
    requires At(e, off + i, j) == At(src.Value(), i, j)
    requires aug.Value() == OverwriteCols(z, e, off + i, j)
    modifies aug
    ensures aug.Valid() && aug.domain == old(aug.domain) && aug.codomain == old(aug.codomain)
    ensures aug.Value() == OverwriteCols(z, e, off + i, j + 1)
  {
    OverwriteColsStep(z, e, off + i, j);
    aug.SetElement(off + i, j, src.GetElement(i, j));
  }

  /** The extraction loop of `solve`: for each pivot (column, row) of the
      reduced [a | b] below the n columns of a, and each column j of b,
      entry (column, j) of the solution is the entry of that row in column
      n + j. That is the intended read; the source's
      `get_element(pivot_row, n + sol_col)` swaps the arguments
      (`SolutionReadAsWritten`). */
  method ExtractSolution(aug: F2Matrix, n: nat, k: nat, ps: seq<(nat, nat)>, ghost piv: seq<nat>) returns (sol: F2Matrix)
    requires aug.Valid() && n + k == aug.domain && Augmented.SolutionInputs(aug.Value(), piv, n)
    requires ps == Linalg.PivotPairs(piv, 0)
    ensures fresh(sol) && sol.Valid() && sol.domain == n && sol.codomain == k
    ensures sol.Value() == Augmented.SolutionUpTo(F2Ring(), aug.Value(), piv, n, k, |piv|, 0)
  {
    ghost var R := F2Ring();
    ghost var s := aug.Value();
    sol := new F2Matrix.Zero(n, k);
    Augmented.SolutionUpToEnds(R, s, piv, n, k);
    for i := 0 to |ps|
      invariant sol.Valid() && sol.domain == n && sol.codomain == k
      invariant sol.Value() == Augmented.SolutionUpTo(R, s, piv, n, k, i, 0)
    {
      var (pc, pr) := ps[i];
      if pc < n {
        for solCol := 0 to k
          invariant sol.Valid() && sol.domain == n && sol.codomain == k
          invariant sol.Value() == Augmented.SolutionUpTo(R, s, piv, n, k, i, solCol)
        {
          Augmented.SolutionUpToStep(R, s, piv, n, k, i, solCol);
          sol.SetElement(pc, solCol, aug.GetElement(n + solCol, pr));
        }
      }
    }
  }

  /** One read of the extraction loop of `solve` as written: it calls
      `augmented.get_element(pivot_row, n + sol_col)`, which takes the column
      first, so it reads bit pivot_row of row n + sol_col. It is defined only
      where that word exists; elsewhere the source indexes past the end of
      the words and panics. */
  function SolutionReadAsWritten(data: seq<bv64>, d: nat, n: nat, pr: nat, solCol: nat): (b: bv8)
    requires WordOf(d, pr, n + solCol) < |data|
    ensures b == 0 || b == 1
  {
    RawGet(data, d, pr, n + solCol)
  }

  /** The word 3 holds the one-row matrix (1 1), which is [A | b] for
      A = b = (1). */
  lemma OneOneUnpacks()
    ensures |[3 as bv64]| == WordsPerRow(2) * 1
    ensures Unpack([3], 2, 1) == Mat(2, 1, [[1, 1]])
  {
    var data: seq<bv64> := [3];
    assert WordsPerRow(2) == 1;
    forall x | 0 <= x < 2
      ensures Slot(data, 2, 1, x, 0) == 1
    {
      ThreeWordBits(F2Bits.BitIndex(x % 64));
    }
    var m := Unpack(data, 2, 1);
    assert m.rows[0] == [1, 1];
  }

  /** A x = b with A = b = (1): the system is solvable (x = (1)), so `Solve`
      answers Some. The augmented matrix (1 1) is already reduced with pivot
      (0, 0), and the source's extraction then reads "(0, 1)" as bit 0 of
      row 1, in word 1 of a one-word matrix: an index past the end, so the
      source panics. */
  lemma SolveReadsPastEnd()
    ensures var a := Mat(1, 1, [[1 as bv8]]);
            && Shaped(a)
            && Augmented.EverySolvable(F2Ring(), a, a)
            && Augmented.Augment(a, a) == Unpack([3], 2, 1)
            && Linalg.PivotScan(F2Ring(), Unpack([3], 2, 1), 0, 0) == [(0, 0)]
            && WordOf(2, 0, 1 + 0) >= |[3 as bv64]|
  {
    var a: Mat<bv8> := Mat(1, 1, [[1]]);
    var R := F2Ring();
    OneOneUnpacks();
    assert Augmented.Augment(a, a).rows[0] == [1, 1];
    assert Apply(R, a, [1]) == [1];
    assert Augmented.Solvable(R, a, Column(a, 0));
    var m: Mat<bv8> := Mat(2, 1, [[1, 1]]);
    assert Linalg.PivotScan(R, m, 0, 0) == [(0, 0)] + Linalg.PivotScan(R, m, 1, 1);
    assert WordsPerRow(2) == 1;
  }

  /** The augmented matrix of `solve`: a zero matrix with room for the
      columns of a and then those of b, filled column by column. */
  method BuildAugmented(a: F2Matrix, b: F2Matrix) returns (aug: F2Matrix)
    requires a.Valid() && b.Valid() && a.codomain == b.codomain
    ensures fresh(aug) && aug.Valid() && aug.Value() == Augmented.Augment(a.Value(), b.Value())
  {
    ghost var av, bv := a.Value(), b.Value();
    aug := new F2Matrix.Zero(a.domain + b.domain, a.codomain);
    ghost var z := aug.Value();
    ghost var e := Augmented.Augment(av, bv);
    Augmented.AugmentBlocks(av, bv);
    OverwriteColsEnds(z, e);
    CopyColumns(aug, a, 0, z, e);
    assert b.Value() == bv;
    CopyColumns(aug, b, a.domain, z, e);
  }

  /** `solve`: x with a·x = b, one solution row per column of b. None when
      the codomains differ or some column of b is the image of no vector;
      otherwise each row of the result is mapped to its column of b. */
  method Solve(a: F2Matrix, b: F2Matrix) returns (r: Option<F2Matrix>)
    requires a.Valid() && b.Valid()
    ensures r.None? <==> !Augmented.EverySolvable(F2Ring(), a.Value(), b.Value())
    ensures r.Some? ==> fresh(r.value) && r.value.Valid() && r.value.domain == a.domain && r.value.codomain == b.domain
    ensures r.Some? ==> forall j :: 0 <= j < b.domain ==>
              Apply(F2Ring(), a.Value(), r.value.Value().rows[j]) == Column(b.Value(), j)
  {
    if a.codomain != b.codomain {
      return None;
    }
    F2IsField();
    ghost var R := F2Ring();
    ghost var av, bv := a.Value(), b.Value();
    UnpackElems(a.data, a.domain, a.codomain);
    UnpackElems(b.data, b.domain, b.codomain);
    var aug := BuildAugmented(a, b);
    ghost var piv, u, w := Rref(aug);
    ghost var s := aug.Value();
    var aRank, sa, pa := Rank(a);
    var augRank, sg, pg := Rank(aug);
    Augmented.AugmentedRanks(R, av, bv, s, piv, u, w, pa, pg);
    Augmented.SolveOutcome(R, av, bv, s, piv, u, w);
    assert a.Value() == av && b.Value() == bv;
    if augRank > aRank {
      return None;
    }
    var ps := Pivots(aug);
    Linalg.PivotsOfRref(R, s, piv);
    var sol := ExtractSolution(aug, a.domain, b.domain, ps, piv);
    return Some(sol);
  }
}
