/** `TensorMap` of src/grading/tensor.rs: the basis of the tensor product of
    two graded spaces. A pair (left element, right element) whose grades add
    up to a grade the right space has gets an id in that tensor grade;
    `construct` goes from the pair to the id and `deconstruct` back.

    The code is generic over the grading. Here a grade is any type `G`, the
    grading's `+` and `<=` come in a `GradingOps` record, and a graded space
    is the list its `sorted_els` returns: each grade present with its number
    of elements, in increasing grade order. */
module Tensor {
  import opened GradedMaps

  /** `ComoduleIndex<G>` and `CoalgebraIndex<G>`: a grade and an index in it. */
  type Index<G> = (G, nat)

  /** The result of `sorted_els`: (grade, number of elements) per grade. */
  type Els<G> = seq<(G, nat)>

  /** A `HashMap` has each grade once, so `sorted_els` lists each grade once. */
  ghost predicate DistinctGrades<G>(s: Els<G>) {
    forall i, j :: 0 <= i < j < |s| ==> s[i].0 != s[j].0
  }

  /** `contains_grade` */
  function ContainsGrade<G(==)>(s: Els<G>, g: G): bool {
    if s == [] then false else s[0].0 == g || ContainsGrade(s[1..], g)
  }

  /** `els`: the number of elements of a grade, 0 when the grade is absent. */
  function ElsIn<G(==)>(s: Els<G>, g: G): nat {
    if s == [] then 0 else if s[0].0 == g then s[0].1 else ElsIn(s[1..], g)
  }

  /** Where a grade sits in the list (|s| when it is absent). */
  function Position<G(==)>(s: Els<G>, g: G): (i: nat)
    ensures i <= |s|
    ensures i < |s| <==> ContainsGrade(s, g)
    ensures i < |s| ==> s[i].0 == g && ElsIn(s, g) == s[i].1
    ensures i == |s| ==> ElsIn(s, g) == 0
  {
    if s == [] then 0 else if s[0].0 == g then 0 else 1 + Position(s[1..], g)
  }

  /** The entry at position i is what `contains_grade` and `els` see of its grade. */
  lemma {:induction false} EntryLookup<G>(s: Els<G>, i: nat)
    requires DistinctGrades(s) && i < |s|
    ensures Position(s, s[i].0) == i
    ensures ContainsGrade(s, s[i].0) && ElsIn(s, s[i].0) == s[i].1
  {
    if i > 0 {
      assert s[0].0 != s[i].0;
      assert DistinctGrades(s[1..]) by {
        forall a, b | 0 <= a < b < |s| - 1 ensures s[1..][a].0 != s[1..][b].0 {
          assert s[1..][a] == s[a + 1] && s[1..][b] == s[b + 1];
        }
      }
      EntryLookup(s[1..], i - 1);
      assert s[1..][i - 1] == s[i];
    }
  }

  datatype TensorMap<G> = TensorMap(
    construct: map<Index<G>, map<Index<G>, Index<G>>>,
    deconstruct: map<Index<G>, (Index<G>, Index<G>)>,
    dimensions: map<G, nat>)

  /** `default`: all three maps empty. */
  function Default<G(!new)>(): (t: TensorMap<G>)
    ensures IsCorrect(t)
    ensures forall g :: GetDimension(t, g) == 0
  {
    TensorMap(map[], map[], map[])
  }

  /** The pair (a, m) of algebra index a and module index m has an id. */
  predicate Has<G>(t: TensorMap<G>, a: Index<G>, m: Index<G>) {
    m in t.construct && a in t.construct[m]
  }

  /** Every `deconstruct` entry is found back through `construct`. */
  predicate DeconstructAgrees<G>(t: TensorMap<G>) {
    forall k :: k in t.deconstruct ==>
      Has(t, t.deconstruct[k].0, t.deconstruct[k].1) && t.construct[t.deconstruct[k].1][t.deconstruct[k].0] == k
  }

  /** Every `construct` entry is found back through `deconstruct`. */
  predicate ConstructAgrees<G>(t: TensorMap<G>) {
    forall m, a :: m in t.construct && a in t.construct[m] ==>
      t.construct[m][a] in t.deconstruct && t.deconstruct[t.construct[m][a]] == (a, m)
  }

  /** The ids of a tensor grade g are exactly 0 .. dimensions[g] - 1, and
      only grades with at least one id have a dimension. */
  predicate DimensionsAgree<G>(t: TensorMap<G>) {
    && (forall k :: k in t.deconstruct ==> k.0 in t.dimensions && k.1 < t.dimensions[k.0])
    && (forall g, id :: g in t.dimensions && id < t.dimensions[g] ==> (g, id) in t.deconstruct)
    && (forall g :: g in t.dimensions ==> t.dimensions[g] > 0)
  }

  /** `is_correct`: `construct` and `deconstruct` are inverse to each other,
      and the ids found per tensor grade are 0 .. dimensions[g] - 1. (The
      code counts the ids per grade and compares the counts with
      `dimensions`; an id outside its grade's range makes it panic.) In a
      correct map no two pairs share an id. */
  predicate IsCorrect<G>(t: TensorMap<G>): (r: bool)
    ensures r ==> forall m1, a1, m2, a2 ::
                    (m1 in t.construct && a1 in t.construct[m1] && m2 in t.construct && a2 in t.construct[m2]
                     && t.construct[m1][a1] == t.construct[m2][a2]) ==> a1 == a2 && m1 == m2
  {
    DeconstructAgrees(t) && ConstructAgrees(t) && DimensionsAgree(t)
  }

  /** `get_dimension`: the stored dimension, 0 for an absent grade. On a
      correct map it is the number of ids of that grade. */
  function GetDimension<G>(t: TensorMap<G>, g: G): (r: nat)
    ensures g !in t.dimensions ==> r == 0
    ensures IsCorrect(t) ==> forall id: nat :: (g, id) in t.deconstruct <==> id < r
  {
    if g in t.dimensions then t.dimensions[g] else 0
  }

  // ---------------------------------------------------------------------
  // generate

  /** The pair (a, m) is one that `generate` gives an id: a is an element of
      the left space, m one of the right space, and the right space has the
      grade a + m. */
  ghost predicate Included<G>(left: Els<G>, right: Els<G>, add: (G, G) -> G, a: Index<G>, m: Index<G>) {
    a.1 < ElsIn(left, a.0) && m.1 < ElsIn(right, m.0) && ContainsGrade(right, add(a.0, m.0))
  }

  /** Every id belongs to an included pair, in the grade the pair adds up to. */
  ghost predicate Sound<G>(left: Els<G>, right: Els<G>, add: (G, G) -> G, t: TensorMap<G>) {
    forall k :: k in t.deconstruct ==>
      Included(left, right, add, t.deconstruct[k].0, t.deconstruct[k].1)
      && k.0 == add(t.deconstruct[k].0.0, t.deconstruct[k].1.0)
  }

  /** The loop position (left grade, left id, right grade, right id) at which
      `generate` visits a pair. */
  ghost function PosOf<G>(left: Els<G>, right: Els<G>, a: Index<G>, m: Index<G>): (int, int, int, int) {
    (Position(left, a.0), a.1, Position(right, m.0), m.1)
  }

  predicate LexLess(p: (int, int, int, int), q: (int, int, int, int)) {
    p.0 < q.0 || (p.0 == q.0 && (p.1 < q.1 || (p.1 == q.1 && (p.2 < q.2 || (p.2 == q.2 && p.3 < q.3)))))
  }

  /** Within a tensor grade the ids follow the visiting order: the sorted
      left grade, the left id, the sorted right grade, the right id. */
  ghost predicate Ordered<G>(left: Els<G>, right: Els<G>, t: TensorMap<G>) {
    forall k1, k2 :: k1 in t.deconstruct && k2 in t.deconstruct && k1.0 == k2.0 && k1.1 < k2.1 ==>
      LexLess(PosOf(left, right, t.deconstruct[k1].0, t.deconstruct[k1].1),
              PosOf(left, right, t.deconstruct[k2].0, t.deconstruct[k2].1))
  }

  /** A loop position that reaches the innermost loop body. */
  ghost predicate ValidPos<G>(left: Els<G>, right: Els<G>, add: (G, G) -> G, p: (int, int, int, int)) {
    && 0 <= p.0 < |left| && 0 <= p.1 < left[p.0].1
    && 0 <= p.2 < |right| && 0 <= p.3 < right[p.2].1
    && ContainsGrade(right, add(left[p.0].0, right[p.2].0))
  }

  /** Exactly the pairs visited before loop position c have an id. */
  ghost predicate Progress<G>(left: Els<G>, right: Els<G>, add: (G, G) -> G, t: TensorMap<G>, c: (int, int, int, int)) {
    forall li, lid, ri, rid :: ValidPos(left, right, add, (li, lid, ri, rid)) ==>
      (Has(t, (left[li].0, lid), (right[ri].0, rid)) <==> LexLess((li, lid, ri, rid), c))
  }

  /** What the loops of `generate` keep. */
  ghost predicate Inv<G>(left: Els<G>, right: Els<G>, add: (G, G) -> G, t: TensorMap<G>, c: (int, int, int, int)) {
    IsCorrect(t) && Sound(left, right, add, t) && Progress(left, right, add, t, c) && Ordered(left, right, t)
  }

  /** Moving the loop position past positions that do not reach the body. */
  lemma ProgressMoves<G>(left: Els<G>, right: Els<G>, add: (G, G) -> G, t: TensorMap<G>,
                             c1: (int, int, int, int), c2: (int, int, int, int))
    requires Inv(left, right, add, t, c1)
    requires forall p :: ValidPos(left, right, add, p) ==> (LexLess(p, c1) <==> LexLess(p, c2))
    ensures Inv(left, right, add, t, c2)
  {
    forall li, lid, ri, rid | ValidPos(left, right, add, (li, lid, ri, rid))
      ensures Has(t, (left[li].0, lid), (right[ri].0, rid)) <==> LexLess((li, lid, ri, rid), c2)
    {
      assert LexLess((li, lid, ri, rid), c1) <==> LexLess((li, lid, ri, rid), c2);
    }
  }

  /** Past the last element of right grade j comes the next right grade. */
  lemma EndOfRightGrade<G>(left: Els<G>, right: Els<G>, add: (G, G) -> G, i: int, lid: int, j: nat, n: int)
    requires j < |right| && n >= right[j].1
    ensures forall p :: ValidPos(left, right, add, p) ==> (LexLess(p, (i, lid, j, n)) <==> LexLess(p, (i, lid, j + 1, 0)))
  {
  }

  /** A right grade whose sum with the left grade the right space lacks is skipped. */
  lemma SkipRightGrade<G>(left: Els<G>, right: Els<G>, add: (G, G) -> G, i: nat, lid: int, j: nat)
    requires i < |left| && j < |right| && !ContainsGrade(right, add(left[i].0, right[j].0))
    ensures forall p :: ValidPos(left, right, add, p) ==> (LexLess(p, (i, lid, j, 0)) <==> LexLess(p, (i, lid, j + 1, 0)))
  {
  }

  /** Past the last right grade comes the next left element. */
  lemma EndOfRight<G>(left: Els<G>, right: Els<G>, add: (G, G) -> G, i: int, lid: int)
    ensures forall p :: ValidPos(left, right, add, p) ==> (LexLess(p, (i, lid, |right|, 0)) <==> LexLess(p, (i, lid + 1, 0, 0)))
  {
  }

  /** Past the last element of left grade i comes the next left grade. */
  lemma EndOfLeftGrade<G>(left: Els<G>, right: Els<G>, add: (G, G) -> G, i: nat)
    requires i < |left|
    ensures forall p :: ValidPos(left, right, add, p) ==> (LexLess(p, (i, left[i].1, 0, 0)) <==> LexLess(p, (i + 1, 0, 0, 0)))
  {
  }

  /** The next free id of tensor grade tg. */
  function NextId<G>(t: TensorMap<G>, tg: G): nat {
    if tg in t.dimensions then t.dimensions[tg] else 0
  }

  /** The algebra map stored for module index m, empty when there is none. */
  function InnerOf<G>(t: TensorMap<G>, m: Index<G>): map<Index<G>, Index<G>> {
    if m in t.construct then t.construct[m] else map[]
  }

  /** The body of the innermost loop: the pair (a, m) takes the next free
      id of tensor grade tg. */
  function Insert<G>(t: TensorMap<G>, a: Index<G>, m: Index<G>, tg: G): TensorMap<G> {
    TensorMap(t.construct[m := InnerOf(t, m)[a := (tg, NextId(t, tg))]],
              t.deconstruct[(tg, NextId(t, tg)) := (a, m)],
              t.dimensions[tg := NextId(t, tg) + 1])
  }

  /** Inserting adds exactly the pair (a, m) and leaves the other ids. */
  lemma InsertHas<G>(t: TensorMap<G>, a: Index<G>, m: Index<G>, tg: G)
    ensures forall a', m' :: Has(Insert(t, a, m, tg), a', m') <==> Has(t, a', m') || (a' == a && m' == m)
    ensures forall a', m' :: Has(t, a', m') && (a' != a || m' != m) ==>
              Insert(t, a, m, tg).construct[m'][a'] == t.construct[m'][a']
  {
  }

  /** The next id of a grade is not taken, and every id of that grade is below it. */
  lemma NextIdFresh<G>(t: TensorMap<G>, tg: G)
    requires DimensionsAgree(t)
    ensures (tg, NextId(t, tg)) !in t.deconstruct
    ensures forall k :: k in t.deconstruct && k.0 == tg ==> k.1 < NextId(t, tg)
  {
  }

  lemma InsertDimensions<G>(t: TensorMap<G>, a: Index<G>, m: Index<G>, tg: G)
    requires DimensionsAgree(t)
    ensures DimensionsAgree(Insert(t, a, m, tg))
  {
    var t' := Insert(t, a, m, tg);
    forall g, id: nat | g in t'.dimensions && id < t'.dimensions[g] ensures (g, id) in t'.deconstruct {
      if g != tg || id != NextId(t, tg) {
        assert (g, id) in t.deconstruct;
      }
    }
  }

  lemma InsertDeconstruct<G>(t: TensorMap<G>, a: Index<G>, m: Index<G>, tg: G)
    requires DeconstructAgrees(t) && !Has(t, a, m) && (tg, NextId(t, tg)) !in t.deconstruct
    ensures DeconstructAgrees(Insert(t, a, m, tg))
  {
    var t' := Insert(t, a, m, tg);
    InsertHas(t, a, m, tg);
    forall k | k in t'.deconstruct
      ensures Has(t', t'.deconstruct[k].0, t'.deconstruct[k].1) && t'.construct[t'.deconstruct[k].1][t'.deconstruct[k].0] == k
    {
      if k != (tg, NextId(t, tg)) {
        var am := t.deconstruct[k];
        assert Has(t, am.0, am.1);
      }
    }
  }

  lemma InsertConstruct<G>(t: TensorMap<G>, a: Index<G>, m: Index<G>, tg: G)
    requires ConstructAgrees(t) && (tg, NextId(t, tg)) !in t.deconstruct
    ensures ConstructAgrees(Insert(t, a, m, tg))
  {
    var t' := Insert(t, a, m, tg);
    InsertHas(t, a, m, tg);
    forall m', a' | m' in t'.construct && a' in t'.construct[m']
      ensures t'.construct[m'][a'] in t'.deconstruct && t'.deconstruct[t'.construct[m'][a']] == (a', m')
    {
      if (a', m') != (a, m) {
        assert Has(t, a', m');
      }
    }
  }

  /** Inserting a pair that has no id yet keeps the map correct. */
  lemma InsertCorrect<G>(t: TensorMap<G>, a: Index<G>, m: Index<G>, tg: G)
    requires IsCorrect(t) && !Has(t, a, m)
    ensures IsCorrect(Insert(t, a, m, tg))
  {
    NextIdFresh(t, tg);
    InsertDimensions(t, a, m, tg);
    InsertDeconstruct(t, a, m, tg);
    InsertConstruct(t, a, m, tg);
  }

  /** The pair at loop position c. */
  function PairAt<G>(left: Els<G>, right: Els<G>, c: (int, int, int, int)): (Index<G>, Index<G>)
    requires 0 <= c.0 < |left| && 0 <= c.1 && 0 <= c.2 < |right| && 0 <= c.3
  {
    ((left[c.0].0, c.1), (right[c.2].0, c.3))
  }

  lemma ProgressStep<G>(left: Els<G>, right: Els<G>, add: (G, G) -> G, t: TensorMap<G>, c: (int, int, int, int), tg: G)
    requires DistinctGrades(left) && DistinctGrades(right)
    requires Progress(left, right, add, t, c) && ValidPos(left, right, add, c)
    ensures Progress(left, right, add, Insert(t, PairAt(left, right, c).0, PairAt(left, right, c).1, tg), (c.0, c.1, c.2, c.3 + 1))
  {
    var (a, m) := PairAt(left, right, c);
    var t' := Insert(t, a, m, tg);
    InsertHas(t, a, m, tg);
    forall li, lid, ri, rid | ValidPos(left, right, add, (li, lid, ri, rid))
      ensures Has(t', (left[li].0, lid), (right[ri].0, rid)) <==> LexLess((li, lid, ri, rid), (c.0, c.1, c.2, c.3 + 1))
    {
      if (left[li].0, lid) == a && (right[ri].0, rid) == m {
        EntryLookup(left, li);
        EntryLookup(left, c.0);
        EntryLookup(right, ri);
        EntryLookup(right, c.2);
      }
    }
  }

  lemma SoundStep<G>(left: Els<G>, right: Els<G>, add: (G, G) -> G, t: TensorMap<G>, c: (int, int, int, int))
    requires DistinctGrades(left) && DistinctGrades(right)
    requires Sound(left, right, add, t) && ValidPos(left, right, add, c)
    ensures Sound(left, right, add, Insert(t, PairAt(left, right, c).0, PairAt(left, right, c).1, add(left[c.0].0, right[c.2].0)))
  {
    EntryLookup(left, c.0);
    EntryLookup(right, c.2);
  }

  /** Every id already given belongs to a pair visited before position c. */
  lemma BeforeCursor<G>(left: Els<G>, right: Els<G>, add: (G, G) -> G, t: TensorMap<G>, c: (int, int, int, int))
    requires Progress(left, right, add, t, c) && Sound(left, right, add, t) && DeconstructAgrees(t)
    ensures forall k :: k in t.deconstruct ==> LexLess(PosOf(left, right, t.deconstruct[k].0, t.deconstruct[k].1), c)
  {
    forall k | k in t.deconstruct
      ensures LexLess(PosOf(left, right, t.deconstruct[k].0, t.deconstruct[k].1), c)
    {
      var a1, m1 := t.deconstruct[k].0, t.deconstruct[k].1;
      var li, ri := Position(left, a1.0), Position(right, m1.0);
      assert ValidPos(left, right, add, (li, a1.1, ri, m1.1));
      assert Has(t, (left[li].0, a1.1), (right[ri].0, m1.1));
    }
  }

  lemma OrderedStep<G>(left: Els<G>, right: Els<G>, t: TensorMap<G>, a: Index<G>, m: Index<G>, tg: G, c: (int, int, int, int))
    requires Ordered(left, right, t) && PosOf(left, right, a, m) == c
    requires forall k :: k in t.deconstruct ==> LexLess(PosOf(left, right, t.deconstruct[k].0, t.deconstruct[k].1), c)
    requires (tg, NextId(t, tg)) !in t.deconstruct
    requires forall k :: k in t.deconstruct && k.0 == tg ==> k.1 < NextId(t, tg)
    ensures Ordered(left, right, Insert(t, a, m, tg))
  {
    var t' := Insert(t, a, m, tg);
    forall k1, k2 | k1 in t'.deconstruct && k2 in t'.deconstruct && k1.0 == k2.0 && k1.1 < k2.1
      ensures LexLess(PosOf(left, right, t'.deconstruct[k1].0, t'.deconstruct[k1].1),
                      PosOf(left, right, t'.deconstruct[k2].0, t'.deconstruct[k2].1))
    {
      if k2 == (tg, NextId(t, tg)) {
        assert k1 in t.deconstruct;
      }
    }
  }

  /** Inserting the pair at loop position c moves the invariant to the next
      position of the innermost loop. */
  lemma InsertStep<G>(left: Els<G>, right: Els<G>, add: (G, G) -> G, t: TensorMap<G>, c: (int, int, int, int))
    requires DistinctGrades(left) && DistinctGrades(right)
    requires Inv(left, right, add, t, c) && ValidPos(left, right, add, c)
    ensures Inv(left, right, add,
                Insert(t, PairAt(left, right, c).0, PairAt(left, right, c).1, add(left[c.0].0, right[c.2].0)),
                (c.0, c.1, c.2, c.3 + 1))
  {
    var (a, m) := PairAt(left, right, c);
    var tg := add(left[c.0].0, right[c.2].0);
    assert !Has(t, a, m);
    InsertCorrect(t, a, m, tg);
    ProgressStep(left, right, add, t, c, tg);
    SoundStep(left, right, add, t, c);
    BeforeCursor(left, right, add, t, c);
    NextIdFresh(t, tg);
    EntryLookup(left, c.0);
    EntryLookup(right, c.2);
    OrderedStep(left, right, t, a, m, tg, c);
  }

  /** When the loops are done, every included pair has an id. */
  lemma Complete<G>(left: Els<G>, right: Els<G>, add: (G, G) -> G, t: TensorMap<G>)
    requires Progress(left, right, add, t, (|left|, 0, 0, 0))
    ensures forall a, m :: Included(left, right, add, a, m) ==> Has(t, a, m)
  {
    forall a, m | Included(left, right, add, a, m) ensures Has(t, a, m) {
      var li, ri := Position(left, a.0), Position(right, m.0);
      assert ValidPos(left, right, add, (li, a.1, ri, m.1));
    }
  }

  /** The innermost loop of `generate` for left element (i, lid) and the
      right grade at position j: when the right space has the grade
      l + r, every element of the right grade takes the next id of l + r. */
  method VisitRightGrade<G(==)>(left: Els<G>, right: Els<G>, add: (G, G) -> G, t0: TensorMap<G>, i: nat, lid: nat, j: nat)
      returns (t: TensorMap<G>)
    requires DistinctGrades(left) && DistinctGrades(right)
    requires i < |left| && lid < left[i].1 && j < |right|
    requires Inv(left, right, add, t0, (i, lid, j, 0))
    ensures Inv(left, right, add, t, (i, lid, j + 1, 0))
  {
    t := t0;
    var (lg, rg, rn) := (left[i].0, right[j].0, right[j].1);
    var tg := add(lg, rg);
    if ContainsGrade(right, tg) {
      for rid: nat := 0 to rn
        invariant Inv(left, right, add, t, (i, lid, j, rid))
      {
        var c := (i, lid, j, rid);
        assert ValidPos(left, right, add, c);
        assert PairAt(left, right, c) == ((lg, lid), (rg, rid));
        InsertStep(left, right, add, t, c);
        // `dimensions.entry(t_grade).or_insert(0)`, the two inserts and the increment
        t := Insert(t, (lg, lid), (rg, rid), tg);
      }
      EndOfRightGrade(left, right, add, i, lid, j, rn);
      ProgressMoves(left, right, add, t, (i, lid, j, rn), (i, lid, j + 1, 0));
    } else {
      t := t0;
      SkipRightGrade(left, right, add, i, lid, j);
      ProgressMoves(left, right, add, t, (i, lid, j, 0), (i, lid, j + 1, 0));
    }
  }

  /** One left element: each right grade in sorted order. */
  method VisitLeftElement<G(==)>(left: Els<G>, right: Els<G>, add: (G, G) -> G, t0: TensorMap<G>, i: nat, lid: nat)
      returns (t: TensorMap<G>)
    requires DistinctGrades(left) && DistinctGrades(right)
    requires i < |left| && lid < left[i].1
    requires Inv(left, right, add, t0, (i, lid, 0, 0))
    ensures Inv(left, right, add, t, (i, lid + 1, 0, 0))
  {
    t := t0;
    for j := 0 to |right|
      invariant Inv(left, right, add, t, (i, lid, j, 0))
    {
      t := VisitRightGrade(left, right, add, t, i, lid, j);
    }
    EndOfRight(left, right, add, i, lid);
    ProgressMoves(left, right, add, t, (i, lid, |right|, 0), (i, lid + 1, 0, 0));
  }

  /** `generate(left, right)`: visits the left grades in sorted order, each
      left element, the right grades in sorted order, and when the right
      space has the grade l + r, each right element; the pair gets the next
      id of grade l + r. The result is correct, has an id for exactly the
      included pairs, and numbers each grade in visiting order. */
  method Generate<G(==)>(left: Els<G>, right: Els<G>, add: (G, G) -> G) returns (t: TensorMap<G>)
    requires DistinctGrades(left) && DistinctGrades(right)
    ensures IsCorrect(t)
    ensures Sound(left, right, add, t)
    ensures forall a, m :: Included(left, right, add, a, m) ==> Has(t, a, m)
    ensures Ordered(left, right, t)
  {
    t := TensorMap(map[], map[], map[]);
    for i := 0 to |left|
      invariant Inv(left, right, add, t, (i, 0, 0, 0))
    {
      for lid := 0 to left[i].1
        invariant Inv(left, right, add, t, (i, lid, 0, 0))
      {
        t := VisitLeftElement(left, right, add, t, i, lid);
      }
      EndOfLeftGrade(left, right, add, i);
      ProgressMoves(left, right, add, t, (i, left[i].1, 0, 0), (i + 1, 0, 0, 0));
    }
    Complete(left, right, add, t);
  }

  // ---------------------------------------------------------------------
  // add_and_restrict

  /** The `construct` values of one module index, shifted by `add`, keeping
      those whose shifted tensor grade is at most `limit`. */
  function RestrictInner<G(==,!new)>(ops: GradingOps<G>, inner: map<Index<G>, Index<G>>, add: G, limit: G): (r: map<Index<G>, Index<G>>)
    ensures forall a :: a in r <==> a in inner && ops.le(ops.add(inner[a].0, add), limit)
    ensures forall a :: a in r ==> r[a] == (ops.add(inner[a].0, add), inner[a].1)
  {
    map a | a in inner && ops.le(ops.add(inner[a].0, add), limit) :: (ops.add(inner[a].0, add), inner[a].1)
  }

  /** An index with its grade shifted. */
  function Shift<G>(ops: GradingOps<G>, k: Index<G>, add: G): Index<G> {
    (ops.add(k.0, add), k.1)
  }

  /** The index a shifted index came from. */
  function Unshift<G>(ops: GradingOps<G>, k: Index<G>, add: G): Index<G> {
    (ops.sub(k.0, add), k.1)
  }

  lemma ShiftUnshift<G(!new)>(ops: GradingOps<G>, k: Index<G>, add: G)
    requires Lawful(ops)
    ensures Unshift(ops, Shift(ops, k, add), add) == k
    ensures Shift(ops, Unshift(ops, k, add), add) == k
  {
  }

  /** The `construct` part of `add_and_restrict`: module indices shifted,
      those whose shifted grade is above `limit` dropped. */
  function RestrictConstruct<G(==,!new)>(ops: GradingOps<G>, c: map<Index<G>, map<Index<G>, Index<G>>>, add: G, limit: G)
      : (r: map<Index<G>, map<Index<G>, Index<G>>>)
    requires Lawful(ops)
    ensures forall k {:trigger k in r} :: k in r <==> Unshift(ops, k, add) in c && ops.le(k.0, limit)
    ensures forall k {:trigger k in r} :: k in r ==> r[k] == RestrictInner(ops, c[Unshift(ops, k, add)], add, limit)
  {
    var r := map m | m in c && ops.le(ops.add(m.0, add), limit) :: Shift(ops, m, add) := RestrictInner(ops, c[m], add, limit);
    forall k ensures k in r <==> Unshift(ops, k, add) in c && ops.le(k.0, limit) {
      ShiftUnshift(ops, k, add);
    }
    forall k | k in r ensures r[k] == RestrictInner(ops, c[Unshift(ops, k, add)], add, limit) {
      ShiftUnshift(ops, k, add);
    }
    r
  }

  /** The `deconstruct` part: tensor and module indices shifted, entries
      whose shifted tensor grade is above `limit` dropped. */
  function RestrictDeconstruct<G(==,!new)>(ops: GradingOps<G>, d: map<Index<G>, (Index<G>, Index<G>)>, add: G, limit: G)
      : (r: map<Index<G>, (Index<G>, Index<G>)>)
    requires Lawful(ops)
    ensures forall k {:trigger k in r} :: k in r <==> Unshift(ops, k, add) in d && ops.le(k.0, limit)
    ensures forall k {:trigger k in r} :: k in r ==> r[k] == (d[Unshift(ops, k, add)].0, Shift(ops, d[Unshift(ops, k, add)].1, add))
  {
    var r := map k | k in d && ops.le(ops.add(k.0, add), limit) :: Shift(ops, k, add) := (d[k].0, Shift(ops, d[k].1, add));
    forall k ensures k in r <==> Unshift(ops, k, add) in d && ops.le(k.0, limit) {
      ShiftUnshift(ops, k, add);
    }
    forall k | k in r ensures r[k] == (d[Unshift(ops, k, add)].0, Shift(ops, d[Unshift(ops, k, add)].1, add)) {
      ShiftUnshift(ops, k, add);
    }
    r
  }

  /** The `dimensions` part: grades shifted, those above `limit` dropped. */
  function RestrictDimensions<G(==,!new)>(ops: GradingOps<G>, dims: map<G, nat>, add: G, limit: G): (r: map<G, nat>)
    requires Lawful(ops)
    ensures forall g :: g in r <==> ops.sub(g, add) in dims && ops.le(g, limit)
    ensures forall g :: g in r ==> r[g] == dims[ops.sub(g, add)]
  {
    AddRestrict(ops, dims, add, limit)
  }

  /** `add_and_restrict(add, limit)`: shifts every module grade and tensor
      grade by `add` (algebra indices keep theirs) and keeps only what lands
      at or below `limit`: a module index when its shifted grade does, an
      algebra entry, a `deconstruct` entry or a dimension when its shifted
      tensor grade does. */
  function AddAndRestrict<G(==,!new)>(ops: GradingOps<G>, t: TensorMap<G>, add: G, limit: G): (r: TensorMap<G>)
    requires Lawful(ops)
    ensures r.construct == RestrictConstruct(ops, t.construct, add, limit)
    ensures r.deconstruct == RestrictDeconstruct(ops, t.deconstruct, add, limit)
    ensures r.dimensions == RestrictDimensions(ops, t.dimensions, add, limit)
  {
    TensorMap(RestrictConstruct(ops, t.construct, add, limit),
              RestrictDeconstruct(ops, t.deconstruct, add, limit),
              RestrictDimensions(ops, t.dimensions, add, limit))
  }

  /** The shift keeps, for every id that survives, the module index it
      comes from: the module grade is at most the tensor grade after the
      shift. This holds when every algebra grade is non-negative, which is
      what the `debug_assert` on the result relies on. */
  ghost predicate ModuleBelowTensor<G(!new)>(ops: GradingOps<G>, t: TensorMap<G>, add: G, limit: G) {
    forall k :: k in t.deconstruct && ops.le(ops.add(k.0, add), limit) ==>
      ops.le(ops.add(t.deconstruct[k].1.0, add), limit)
  }

  lemma RestrictDeconstructAgrees<G(!new)>(ops: GradingOps<G>, t: TensorMap<G>, add: G, limit: G)
    requires Lawful(ops) && DeconstructAgrees(t) && ModuleBelowTensor(ops, t, add, limit)
    ensures DeconstructAgrees(AddAndRestrict(ops, t, add, limit))
  {
    var r := AddAndRestrict(ops, t, add, limit);
    forall k | k in r.deconstruct
      ensures Has(r, r.deconstruct[k].0, r.deconstruct[k].1) && r.construct[r.deconstruct[k].1][r.deconstruct[k].0] == k
    {
      var k0 := Unshift(ops, k, add);
      var am := t.deconstruct[k0];
      ShiftUnshift(ops, k, add);
      ShiftUnshift(ops, am.1, add);
      var m := Shift(ops, am.1, add);
      assert r.deconstruct[k] == (am.0, m);
      assert m in r.construct;
      assert r.construct[m] == RestrictInner(ops, t.construct[am.1], add, limit);
    }
  }

  lemma RestrictConstructAgrees<G(!new)>(ops: GradingOps<G>, t: TensorMap<G>, add: G, limit: G)
    requires Lawful(ops) && ConstructAgrees(t)
    ensures ConstructAgrees(AddAndRestrict(ops, t, add, limit))
  {
    var r := AddAndRestrict(ops, t, add, limit);
    forall m, a | m in r.construct && a in r.construct[m]
      ensures r.construct[m][a] in r.deconstruct && r.deconstruct[r.construct[m][a]] == (a, m)
    {
      var m0 := Unshift(ops, m, add);
      var k0 := t.construct[m0][a];
      ShiftUnshift(ops, m, add);
      ShiftUnshift(ops, k0, add);
      assert r.construct[m][a] == Shift(ops, k0, add);
    }
  }

  lemma RestrictIdsCovered<G(!new)>(ops: GradingOps<G>, d: map<Index<G>, (Index<G>, Index<G>)>, dims: map<G, nat>, add: G, limit: G)
    requires Lawful(ops)
    requires forall g, id :: g in dims && id < dims[g] ==> (g, id) in d
    ensures var rd := RestrictDeconstruct(ops, d, add, limit);
      var rdims := RestrictDimensions(ops, dims, add, limit);
      forall g, id :: g in rdims && id < rdims[g] ==> (g, id) in rd
  {
    var rd := RestrictDeconstruct(ops, d, add, limit);
    var rdims := RestrictDimensions(ops, dims, add, limit);
    forall g, id | g in rdims && id < rdims[g] ensures (g, id) in rd {
      assert Unshift(ops, (g, id), add) in d;
    }
  }

  lemma RestrictIdsBounded<G(!new)>(ops: GradingOps<G>, d: map<Index<G>, (Index<G>, Index<G>)>, dims: map<G, nat>, add: G, limit: G)
    requires Lawful(ops)
    requires forall k :: k in d ==> k.0 in dims && k.1 < dims[k.0]
    ensures var rd := RestrictDeconstruct(ops, d, add, limit);
      var rdims := RestrictDimensions(ops, dims, add, limit);
      forall k :: k in rd ==> k.0 in rdims && k.1 < rdims[k.0]
  {
    var rd := RestrictDeconstruct(ops, d, add, limit);
    var rdims := RestrictDimensions(ops, dims, add, limit);
    forall k | k in rd ensures k.0 in rdims && k.1 < rdims[k.0] {
      assert Unshift(ops, k, add) in d;
    }
  }

  lemma RestrictDimensionsAgree<G(!new)>(ops: GradingOps<G>, t: TensorMap<G>, add: G, limit: G)
    requires Lawful(ops) && DimensionsAgree(t)
    ensures DimensionsAgree(AddAndRestrict(ops, t, add, limit))
  {
    RestrictIdsCovered(ops, t.deconstruct, t.dimensions, add, limit);
    RestrictIdsBounded(ops, t.deconstruct, t.dimensions, add, limit);
  }

  /** `add_and_restrict` keeps a correct map correct (the `debug_assert` at
      the end of the code) when no surviving id loses its module index. */
  lemma AddAndRestrictCorrect<G(!new)>(ops: GradingOps<G>, t: TensorMap<G>, add: G, limit: G)
    requires Lawful(ops) && IsCorrect(t) && ModuleBelowTensor(ops, t, add, limit)
    ensures IsCorrect(AddAndRestrict(ops, t, add, limit))
  {
    RestrictDeconstructAgrees(ops, t, add, limit);
    RestrictConstructAgrees(ops, t, add, limit);
    RestrictDimensionsAgree(ops, t, add, limit);
  }
}
