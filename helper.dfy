/** `hashmap_add_restrict` and `hashmap_add_restrict_transform` of
    src/helper.rs: every key of a graded map is shifted by a fixed grade, and
    only the entries whose shifted grade is at most a limit are kept. The
    code is generic over the grading; here a grading is passed as the record
    of its `+`, `-` and `<=`, with instances for both gradings. */
module GradedMaps {
  import UniGradings
  import BiGradings
  import opened Wrapping

  /** The operations of a grading that the helpers use. */
  datatype GradingOps<!G> = GradingOps(add: (G, G) -> G, sub: (G, G) -> G, le: (G, G) -> bool)

  /** `-` undoes `+`, and `+` undoes `-`. */
  ghost predicate Lawful<G(!new)>(ops: GradingOps<G>) {
    && (forall a, b :: ops.sub(ops.add(a, b), b) == a)
    && (forall a, b :: ops.add(ops.sub(a, b), b) == a)
  }

  /** `hashmap_add_restrict_transform`: the entry (g, v) becomes
      (g + grade, f(v)) when g + grade <= limit, and is dropped otherwise. */
  function AddRestrictTransform<G(==,!new), V, W>(ops: GradingOps<G>, m: map<G, V>, grade: G, limit: G,
                                                  f: V -> W): (r: map<G, W>)
    requires Lawful(ops)
    ensures forall g :: g in m && ops.le(ops.add(g, grade), limit) ==>
              ops.add(g, grade) in r && r[ops.add(g, grade)] == f(m[g])
    ensures forall h :: h in r <==> ops.sub(h, grade) in m && ops.le(h, limit)
    ensures forall h :: h in r ==> r[h] == f(m[ops.sub(h, grade)])
    ensures |r| <= |m|
  {
    var kept := set g | g in m && ops.le(ops.add(g, grade), limit);
    var r := map g | g in kept :: ops.add(g, grade) := f(m[g]);
    ImageSize(ops, kept, grade);
    assert r.Keys == Shifted(ops, kept, grade);
    SubsetSize(kept, m.Keys);
    r
  }

  /** `hashmap_add_restrict`: the same with the values unchanged. */
  function AddRestrict<G(==,!new), V>(ops: GradingOps<G>, m: map<G, V>, grade: G, limit: G): (r: map<G, V>)
    requires Lawful(ops)
    ensures forall h :: h in r <==> ops.sub(h, grade) in m && ops.le(h, limit)
    ensures forall h :: h in r ==> r[h] == m[ops.sub(h, grade)]
    ensures |r| <= |m|
  {
    AddRestrictTransform(ops, m, grade, limit, v => v)
  }

  /** The keys of a set shifted by a grade. */
  ghost function Shifted<G(!new)>(ops: GradingOps<G>, s: set<G>, grade: G): set<G> {
    set g | g in s :: ops.add(g, grade)
  }

  lemma SubsetSize<G>(a: set<G>, b: set<G>)
    requires a <= b
    ensures |a| <= |b|
  {
    assert b == a + (b - a);
  }

  /** Shifting is injective, so it keeps the number of keys. */
  lemma {:induction false} ImageSize<G(!new)>(ops: GradingOps<G>, s: set<G>, grade: G)
    requires Lawful(ops)
    ensures |Shifted(ops, s, grade)| == |s|
    decreases |s|
  {
    if s != {} {
      var x :| x in s;
      var rest := s - {x};
      ImageSize(ops, rest, grade);
      assert Shifted(ops, s, grade) == Shifted(ops, rest, grade) + {ops.add(x, grade)};
      forall y | y in rest ensures ops.add(y, grade) != ops.add(x, grade) {
        assert ops.sub(ops.add(y, grade), grade) == y;
      }
    }
  }

  // ---------------------------------------------------------------------
  // The two gradings

  function UniOps(): GradingOps<UniGradings.UniGrading> {
    GradingOps((a, b) => UniGradings.Add(a, b), (a, b) => UniGradings.Sub(a, b),
               (a: UniGradings.UniGrading, b: UniGradings.UniGrading) => a.t <= b.t)
  }

  function BiOps(): GradingOps<BiGradings.BiGrading> {
    GradingOps((a, b) => BiGradings.Add(a, b), (a, b) => BiGradings.Sub(a, b),
               (a, b) => BiGradings.Compare(a, b) != Greater)
  }

  /** The wrapping `UniGrading` meets the laws the helpers need. */
  lemma UniLawful()
    ensures Lawful(UniOps())
  {
    forall a, b ensures UniOps().sub(UniOps().add(a, b), b) == a && UniOps().add(UniOps().sub(a, b), b) == a {
      UniGradings.SubUndoesAdd(a, b);
    }
  }

  /** The wrapping `BiGrading` meets the laws the helpers need. */
  lemma BiLawful()
    ensures Lawful(BiOps())
  {
    forall a, b ensures BiOps().sub(BiOps().add(a, b), b) == a && BiOps().add(BiOps().sub(a, b), b) == a {
      BiGradings.SubUndoesAdd(a, b);
    }
  }
}
