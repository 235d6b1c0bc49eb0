/** The second half of `parse_direct` in src/k_t_comodule/k_t_parser.rs:
    the basis lines become a dictionary (no name twice), the dictionary is
    numbered grade by grade in name order, and every tensor of every
    coaction line is looked up and checked for homogeneity. */
module KtParserBasis {
  import opened Wrappers
  import opened Rings
  import Text
  import UniPol
  import opened KtParserSections

  // ---------------------------------------------------------------------
  // The order on names

  /** `Ord for String`: lexicographic by character. */
  predicate StrLess(a: string, b: string) {
    if a == [] then b != []
    else if b == [] then false
    else if a[0] != b[0] then a[0] < b[0]
    else StrLess(a[1..], b[1..])
  }

  lemma {:induction false} StrLessIrreflexive(a: string)
    ensures !StrLess(a, a)
  {
    if a != [] {
      StrLessIrreflexive(a[1..]);
    }
  }

  lemma {:induction false} StrLessTransitive(a: string, b: string, c: string)
    requires StrLess(a, b) && StrLess(b, c)
    ensures StrLess(a, c)
  {
    if a != [] && b != [] && c != [] && a[0] == b[0] && b[0] == c[0] {
      StrLessTransitive(a[1..], b[1..], c[1..]);
    }
  }

  lemma {:induction false} StrLessTotal(a: string, b: string)
    ensures a == b || StrLess(a, b) || StrLess(b, a)
  {
    if a != [] && b != [] && a[0] == b[0] {
      StrLessTotal(a[1..], b[1..]);
      if a[1..] == b[1..] {
        assert a == [a[0]] + a[1..] && b == [b[0]] + b[1..];
      }
    }
  }

  lemma StrLessAsymmetric(a: string, b: string)
    requires StrLess(a, b)
    ensures !StrLess(b, a)
  {
    if StrLess(b, a) {
      StrLessTransitive(a, b, a);
      StrLessIrreflexive(a);
    }
  }

  /** n comes first in s. */
  predicate IsLeast(s: set<string>, n: string) {
    n in s && forall m :: m in s ==> m == n || StrLess(n, m)
  }

  lemma LeastOfOne(s: set<string>, x: string)
    requires x in s && s - {x} == {}
    ensures IsLeast(s, x)
  {
    forall m | m in s
      ensures m == x
    {
      assert m !in s - {x};
    }
  }

  lemma LeastOfMore(s: set<string>, x: string, y: string)
    requires x in s && IsLeast(s - {x}, y)
    ensures IsLeast(s, x) || IsLeast(s, y)
  {
    StrLessTotal(x, y);
    if StrLess(x, y) {
      forall m | m in s
        ensures m == x || StrLess(x, m)
      {
        if m != x && m != y {
          StrLessTransitive(x, y, m);
        }
      }
    }
  }

  /** Every finite non-empty set of names has a least one. */
  lemma {:induction false} LeastExists(s: set<string>)
    requires s != {}
    ensures exists n :: IsLeast(s, n)
    decreases |s|
  {
    var x :| x in s;
    if s - {x} == {} {
      LeastOfOne(s, x);
    } else {
      LeastExists(s - {x});
      var y :| IsLeast(s - {x}, y);
      LeastOfMore(s, x, y);
    }
  }

  // ---------------------------------------------------------------------
  // The basis dictionary (k_t_parser.rs:192-207)

  /** name -> (grade, unigrade). */
  type BasisDict<G> = map<string, (G, int)>

  ghost predicate DistinctNames<G>(basis: seq<BasisEntry<G>>) {
    forall i, j :: 0 <= i < j < |basis| ==> basis[i].name != basis[j].name
  }

  ghost function Names<G>(basis: seq<BasisEntry<G>>): set<string> {
    set i | 0 <= i < |basis| :: basis[i].name
  }

  /** A repeated line whose earlier lines have distinct names is the first
      repeated line: there is only one, so the duplicate-basis error names
      the line where the scan stops. */
  lemma FirstRepeatUnique<G>(basis: seq<BasisEntry<G>>, i: nat, j: nat, i': nat, j': nat)
    requires i < j < |basis| && basis[i].name == basis[j].name && DistinctNames(basis[..j])
    requires i' < j' < |basis| && basis[i'].name == basis[j'].name && DistinctNames(basis[..j'])
    ensures j == j' && i == i'
  {
  }

  /** The basis dictionary: every basis line under its name; a name that
      appears twice is an error. */
  method BuildBasisDict<G>(basis: seq<BasisEntry<G>>) returns (r: Result<BasisDict<G>, ParseError>)
    ensures r.Ok? <==> DistinctNames(basis)
    ensures r.Ok? ==> r.value.Keys == Names(basis)
    ensures r.Ok? ==> forall i :: 0 <= i < |basis| ==> r.value[basis[i].name] == (basis[i].grade, basis[i].unigrade)
    ensures r.Err? ==> exists i, j :: 0 <= i < j < |basis| && basis[i].name == basis[j].name && DistinctNames(basis[..j])
                                      && r.error == DuplicateBasis(basis[j].name)
  {
    var dict: BasisDict<G> := map[];
    for k := 0 to |basis|
      invariant dict.Keys == Names(basis[..k])
      invariant DistinctNames(basis[..k])
      invariant forall i :: 0 <= i < k ==> basis[i].name in dict && dict[basis[i].name] == (basis[i].grade, basis[i].unigrade)
    {
      var e := basis[k];
      if e.name in dict {
        var i :| 0 <= i < k && basis[..k][i].name == e.name;
        assert !DistinctNames(basis) by {
          assert basis[i].name == basis[k].name;
        }
        assert basis[i].name == basis[k].name && DistinctNames(basis[..k]);
        return Err(DuplicateBasis(e.name));
      }
      dict := dict[e.name := (e.grade, e.unigrade)];
      assert basis[..k + 1] == basis[..k] + [e];
      assert Names(basis[..k + 1]) == Names(basis[..k]) + {e.name} by {
        forall n | n in Names(basis[..k + 1])
          ensures n in Names(basis[..k]) + {e.name}
        {
          var i :| 0 <= i < k + 1 && basis[..k + 1][i].name == n;
          if i < k {
            assert basis[..k][i].name == n;
          }
        }
        forall n | n in Names(basis[..k])
          ensures n in Names(basis[..k + 1])
        {
          var i :| 0 <= i < k && basis[..k][i].name == n;
          assert basis[..k + 1][i].name == n;
        }
        assert basis[..k + 1][k].name == e.name;
      }
      forall i, j | 0 <= i < j < k + 1
        ensures basis[i].name != basis[j].name
      {
        if j == k {
          assert basis[..k][i].name in Names(basis[..k]);
        } else {
          assert basis[..k][i].name != basis[..k][j].name;
        }
      }
    }
    assert basis[..|basis|] == basis;
    return Ok(dict);
  }

  // ---------------------------------------------------------------------
  // Numbering the basis (k_t_parser.rs:209-223)

  /** The names of grade g among `names`. */
  ghost function InGrade<G>(names: set<string>, dict: BasisDict<G>, g: G): set<string> {
    set n | n in names && n in dict && dict[n].0 == g
  }

  /** The names of grade g among `names` that come before `name`. */
  ghost function Below<G>(names: set<string>, dict: BasisDict<G>, g: G, name: string): set<string> {
    set n | n in names && n in dict && dict[n].0 == g && StrLess(n, name)
  }

  /** The index a name gets: how many names of its grade come before it. */
  ghost function Rank<G>(dict: BasisDict<G>, name: string): nat
    requires name in dict
  {
    |Below(dict.Keys, dict, dict[name].0, name)|
  }

  lemma StrictSubsetSmaller(a: set<string>, b: set<string>)
    requires a < b
    ensures |a| < |b|
  {
    assert exists x :: x in b && x !in a;
    var x :| x in b && x !in a;
    assert b == a + (b - a);
    assert a * (b - a) == {};
    assert x in b - a;
  }

  /** Within a grade, the numbering follows the order of the names. */
  lemma RankFollowsNames<G>(dict: BasisDict<G>, a: string, b: string)
    requires a in dict && b in dict && dict[a].0 == dict[b].0 && StrLess(a, b)
    ensures Rank(dict, a) < Rank(dict, b)
  {
    var g := dict[a].0;
    var sa, sb := Below(dict.Keys, dict, g, a), Below(dict.Keys, dict, g, b);
    forall n | n in sa
      ensures n in sb
    {
      StrLessTransitive(n, a, b);
    }
    StrLessIrreflexive(a);
    assert a in sb - sa;
    StrictSubsetSmaller(sa, sb);
  }

  /** The index of a name is below the number of names of its grade. */
  lemma RankInGrade<G>(dict: BasisDict<G>, name: string)
    requires name in dict
    ensures Rank(dict, name) < |InGrade(dict.Keys, dict, dict[name].0)|
  {
    var g := dict[name].0;
    StrLessIrreflexive(name);
    assert name in InGrade(dict.Keys, dict, g) - Below(dict.Keys, dict, g, name);
    StrictSubsetSmaller(Below(dict.Keys, dict, g, name), InGrade(dict.Keys, dict, g));
  }

  /** What the numbering keeps true for the names done so far: every
      numbered name has its grade and its rank among the numbered names of
      that grade, and sits at that index of its grade's list. */
  ghost predicate EntriesNumbered<G>(dict: BasisDict<G>, translate: map<string, (G, nat)>, transformed: map<G, seq<(string, int)>>)
    requires translate.Keys <= dict.Keys
  {
    forall n :: n in translate ==>
      && translate[n] == (dict[n].0, |Below(translate.Keys, dict, dict[n].0, n)|)
      && dict[n].0 in transformed
      && translate[n].1 < |transformed[dict[n].0]|
      && transformed[dict[n].0][translate[n].1] == (n, dict[n].1)
  }

  /** Each grade's list is as long as the numbered names of that grade. */
  ghost predicate RowsCounted<G>(dict: BasisDict<G>, keys: set<string>, transformed: map<G, seq<(string, int)>>) {
    forall g :: g in transformed ==> |transformed[g]| == |InGrade(keys, dict, g)|
  }

  ghost predicate Numbered<G>(dict: BasisDict<G>, translate: map<string, (G, nat)>, transformed: map<G, seq<(string, int)>>) {
    && translate.Keys <= dict.Keys
    && EntriesNumbered(dict, translate, transformed)
    && RowsCounted(dict, translate.Keys, transformed)
  }

  /** The row of grade g so far. */
  function Row<G>(transformed: map<G, seq<(string, int)>>, g: G): seq<(string, int)> {
    if g in transformed then transformed[g] else []
  }

  /** Number n next: it goes at the end of its grade's row. */
  function AddName<G>(dict: BasisDict<G>, translate: map<string, (G, nat)>, transformed: map<G, seq<(string, int)>>, n: string)
    : (r: (map<string, (G, nat)>, map<G, seq<(string, int)>>))
    requires n in dict
    ensures r.0.Keys == translate.Keys + {n}
  {
    var g := dict[n].0;
    (translate[n := (g, |Row(transformed, g)|)], transformed[g := Row(transformed, g) + [(n, dict[n].1)]])
  }

  lemma BelowNew<G>(dict: BasisDict<G>, keys: set<string>, n: string)
    requires n in dict && n !in keys
    requires forall a :: a in keys ==> StrLess(a, n)
    ensures Below(keys + {n}, dict, dict[n].0, n) == InGrade(keys, dict, dict[n].0)
  {
    StrLessIrreflexive(n);
  }

  lemma BelowOld<G>(dict: BasisDict<G>, keys: set<string>, n: string, a: string, g: G)
    requires StrLess(a, n)
    ensures Below(keys + {n}, dict, g, a) == Below(keys, dict, g, a)
  {
    StrLessAsymmetric(a, n);
  }

  lemma InGradeAdd<G>(dict: BasisDict<G>, keys: set<string>, n: string, h: G)
    requires n in dict && n !in keys
    ensures h == dict[n].0 ==> InGrade(keys + {n}, dict, h) == InGrade(keys, dict, h) + {n}
    ensures h == dict[n].0 ==> |InGrade(keys + {n}, dict, h)| == |InGrade(keys, dict, h)| + 1
    ensures h != dict[n].0 ==> InGrade(keys + {n}, dict, h) == InGrade(keys, dict, h)
  {
  }

  lemma RowLength<G>(dict: BasisDict<G>, translate: map<string, (G, nat)>, transformed: map<G, seq<(string, int)>>, g: G)
    requires Numbered(dict, translate, transformed)
    ensures |Row(transformed, g)| == |InGrade(translate.Keys, dict, g)|
  {
    if g !in transformed {
      forall a | a in translate.Keys
        ensures dict[a].0 != g
      {
        assert dict[a].0 in transformed;
      }
      assert InGrade(translate.Keys, dict, g) == {};
    }
  }

  lemma NumberNextEntries<G>(dict: BasisDict<G>, translate: map<string, (G, nat)>, transformed: map<G, seq<(string, int)>>, n: string)
    requires Numbered(dict, translate, transformed)
    requires n in dict && n !in translate
    requires forall a :: a in translate ==> StrLess(a, n)
    ensures AddName(dict, translate, transformed, n).0.Keys <= dict.Keys
    ensures EntriesNumbered(dict, AddName(dict, translate, transformed, n).0, AddName(dict, translate, transformed, n).1)
  {
    var (translate', transformed') := AddName(dict, translate, transformed, n);
    var keys := translate.Keys;
    BelowNew(dict, keys, n);
    RowLength(dict, translate, transformed, dict[n].0);
    forall a | a in translate'
      ensures translate'[a] == (dict[a].0, |Below(translate'.Keys, dict, dict[a].0, a)|)
      ensures dict[a].0 in transformed' && translate'[a].1 < |transformed'[dict[a].0]|
      ensures transformed'[dict[a].0][translate'[a].1] == (a, dict[a].1)
    {
      if a != n {
        BelowOld(dict, keys, n, a, dict[a].0);
      }
    }
  }

  lemma NumberNextCounts<G>(dict: BasisDict<G>, translate: map<string, (G, nat)>, transformed: map<G, seq<(string, int)>>, n: string)
    requires Numbered(dict, translate, transformed)
    requires n in dict && n !in translate
    ensures RowsCounted(dict, translate.Keys + {n}, AddName(dict, translate, transformed, n).1)
  {
    var transformed' := AddName(dict, translate, transformed, n).1;
    RowLength(dict, translate, transformed, dict[n].0);
    forall h | h in transformed'
      ensures |transformed'[h]| == |InGrade(translate.Keys + {n}, dict, h)|
    {
      InGradeAdd(dict, translate.Keys, n, h);
    }
  }

  /** Numbering the least name not yet numbered keeps the numbering right. */
  lemma NumberNext<G>(dict: BasisDict<G>, translate: map<string, (G, nat)>, transformed: map<G, seq<(string, int)>>, n: string)
    requires Numbered(dict, translate, transformed)
    requires n in dict && n !in translate
    requires forall a :: a in translate ==> StrLess(a, n)
    ensures Numbered(dict, AddName(dict, translate, transformed, n).0, AddName(dict, translate, transformed, n).1)
  {
    NumberNextEntries(dict, translate, transformed, n);
    NumberNextCounts(dict, translate, transformed, n);
  }

  /** Every name of done comes before every name of rest. */
  ghost predicate AllBefore(done: set<string>, rest: set<string>) {
    forall a, b :: a in done && b in rest ==> StrLess(a, b)
  }

  lemma AllBeforeNext(done: set<string>, rest: set<string>, n: string)
    requires AllBefore(done, rest) && IsLeast(rest, n)
    ensures forall a :: a in done ==> StrLess(a, n)
    ensures AllBefore(done + {n}, rest - {n})
  {
    forall a, b | a in done + {n} && b in rest - {n}
      ensures StrLess(a, b)
    {
      if a != n {
        StrLessTransitive(a, n, b);
      }
    }
  }

  lemma NumberedAll<G>(dict: BasisDict<G>, translate: map<string, (G, nat)>, transformed: map<G, seq<(string, int)>>)
    requires Numbered(dict, translate, transformed) && translate.Keys == dict.Keys
    ensures forall n :: n in dict ==> translate[n] == (dict[n].0, Rank(dict, n))
    ensures forall n :: n in dict ==>
              dict[n].0 in transformed && translate[n].1 < |transformed[dict[n].0]|
              && transformed[dict[n].0][translate[n].1] == (n, dict[n].1)
    ensures forall g :: g in transformed ==> |transformed[g]| == |InGrade(dict.Keys, dict, g)|
  {
  }

  lemma RemoveOne(s: set<string>, n: string)
    requires n in s
    ensures s - {n} < s && |s - {n}| == |s| - 1
  {
    assert (s - {n}) + {n} == s;
  }

  lemma NumberLeastStep<G>(dict: BasisDict<G>, translate: map<string, (G, nat)>, transformed: map<G, seq<(string, int)>>, remaining: set<string>, n: string)
    requires remaining <= dict.Keys
    requires translate.Keys == dict.Keys - remaining
    requires AllBefore(translate.Keys, remaining)
    requires Numbered(dict, translate, transformed)
    requires IsLeast(remaining, n)
    ensures remaining - {n} < remaining && |remaining - {n}| == |remaining| - 1
    ensures AddName(dict, translate, transformed, n).0.Keys == dict.Keys - (remaining - {n})
    ensures AllBefore(AddName(dict, translate, transformed, n).0.Keys, remaining - {n})
    ensures Numbered(dict, AddName(dict, translate, transformed, n).0, AddName(dict, translate, transformed, n).1)
  {
    AllBeforeNext(translate.Keys, remaining, n);
    NumberNext(dict, translate, transformed, n);
    RemoveOne(remaining, n);
  }

  /** One round of the numbering: the least name left gets the next index
      of its grade. */
  method NumberLeast<G>(dict: BasisDict<G>, translate: map<string, (G, nat)>, transformed: map<G, seq<(string, int)>>, remaining: set<string>)
    returns (translate': map<string, (G, nat)>, transformed': map<G, seq<(string, int)>>, remaining': set<string>)
    requires remaining != {} && remaining <= dict.Keys
    requires translate.Keys == dict.Keys - remaining
    requires AllBefore(translate.Keys, remaining)
    requires Numbered(dict, translate, transformed)
    ensures remaining' < remaining && |remaining'| == |remaining| - 1
    ensures translate'.Keys == dict.Keys - remaining'
    ensures AllBefore(translate'.Keys, remaining')
    ensures Numbered(dict, translate', transformed')
  {
    LeastExists(remaining);
    var n :| IsLeast(remaining, n);
    NumberLeastStep(dict, translate, transformed, remaining, n);
    var next := AddName(dict, translate, transformed, n);
    translate', transformed', remaining' := next.0, next.1, remaining - {n};
  }

  /** The numbering of `parse_direct`: the names in order; each one goes at
      the end of its grade's list and gets the index it lands at. */
  method BuildTranslate<G>(dict: BasisDict<G>) returns (translate: map<string, (G, nat)>, transformed: map<G, seq<(string, int)>>)
    ensures translate.Keys == dict.Keys
    ensures forall n :: n in dict ==> translate[n] == (dict[n].0, Rank(dict, n))
    ensures forall n :: n in dict ==>
              dict[n].0 in transformed && translate[n].1 < |transformed[dict[n].0]|
              && transformed[dict[n].0][translate[n].1] == (n, dict[n].1)
    ensures forall g :: g in transformed ==> |transformed[g]| == |InGrade(dict.Keys, dict, g)|
  {
    translate, transformed := map[], map[];
    var remaining := dict.Keys;
    while remaining != {}
      invariant remaining <= dict.Keys
      invariant translate.Keys == dict.Keys - remaining
      invariant AllBefore(translate.Keys, remaining)
      invariant Numbered(dict, translate, transformed)
      decreases |remaining|
    {
      translate, transformed, remaining := NumberLeast(dict, translate, transformed, remaining);
    }
    NumberedAll(dict, translate, transformed);
  }

  // ---------------------------------------------------------------------
  // The coaction lines (k_t_parser.rs:240-277)

  /** A checked tensor: the coacted element's (grade, index), the scalar,
      and the (grade, index) of the left and right factors. */
  datatype Entry<G, T> = Entry(target: (G, nat), scalar: UniPol.UniPol<T>, left: (G, nat), right: (G, nat))

  /** One tensor of the coaction of b, whose (grade, index) is target: the
      scalar must parse, both names be in the basis, and their grades add
      up to b's grade. */
  function CheckTerm<G(==), T>(gs: GradeSyntax<G>, F: Ring<T>, translate: map<string, (G, nat)>, b: string, target: (G, nat), t: Term)
    : (r: Result<Entry<G, T>, ParseError>)
    ensures r.Ok? ==> t.left in translate && t.right in translate
    ensures r.Ok? ==> r.value == Entry(target, r.value.scalar, translate[t.left], translate[t.right])
    ensures r.Ok? ==> gs.add(r.value.left.0, r.value.right.0) == target.0
  {
    match UniPol.Parse(F, t.scalar)
    case None => Err(InvalidScalar(t.scalar))
    case Some(el) =>
      if t.left !in translate then Err(UnknownLeft(t.left))
      else if t.right !in translate then Err(UnknownRight(t.right))
      else
        var l, r := translate[t.left], translate[t.right];
        if gs.add(l.0, r.0) != target.0 then Err(NotHomogeneous(b))
        else Ok(Entry(target, el, l, r))
  }

  /** The tensors of one line from index k on. */
  function CheckTerms<G(==), T>(gs: GradeSyntax<G>, F: Ring<T>, translate: map<string, (G, nat)>, b: string, target: (G, nat), ts: seq<Term>)
    : (r: Result<seq<Entry<G, T>>, ParseError>)
    ensures r.Ok? ==> |r.value| == |ts|
  {
    if ts == [] then Ok([])
    else
      match CheckTerms(gs, F, translate, b, target, ts[..|ts| - 1])
      case Err(e) => Err(e)
      case Ok(es) =>
        match CheckTerm(gs, F, translate, b, target, ts[|ts| - 1])
        case Err(e) => Err(e)
        case Ok(en) => Ok(es + [en])
  }

  /** One coaction line: its element must be in the basis. */
  function CheckLine<G(==), T>(gs: GradeSyntax<G>, F: Ring<T>, translate: map<string, (G, nat)>, line: CoactionLine)
    : Result<seq<Entry<G, T>>, ParseError>
  {
    if line.name !in translate then Err(UnknownBasis(line.name))
    else CheckTerms(gs, F, translate, line.name, translate[line.name], line.terms)
  }

  /** All coaction lines in order; the first error stops. */
  function CoactionEntries<G(==), T>(gs: GradeSyntax<G>, F: Ring<T>, translate: map<string, (G, nat)>, lut: seq<CoactionLine>)
    : Result<seq<Entry<G, T>>, ParseError>
  {
    if lut == [] then Ok([])
    else
      match CoactionEntries(gs, F, translate, lut[..|lut| - 1])
      case Err(e) => Err(e)
      case Ok(es) =>
        match CheckLine(gs, F, translate, lut[|lut| - 1])
        case Err(e) => Err(e)
        case Ok(more) => Ok(es + more)
  }

  /** A checked coaction entry is homogeneous and names only basis
      elements. */
  ghost predicate Homogeneous<G, T>(gs: GradeSyntax<G>, translate: map<string, (G, nat)>, e: Entry<G, T>) {
    && gs.add(e.left.0, e.right.0) == e.target.0
    && e.target in translate.Values && e.left in translate.Values && e.right in translate.Values
  }

  lemma {:induction false} TermsHomogeneous<G, T>(gs: GradeSyntax<G>, F: Ring<T>, translate: map<string, (G, nat)>, b: string, ts: seq<Term>)
    requires b in translate && CheckTerms(gs, F, translate, b, translate[b], ts).Ok?
    ensures forall e :: e in CheckTerms(gs, F, translate, b, translate[b], ts).value ==> Homogeneous(gs, translate, e)
  {
    if ts != [] {
      TermsHomogeneous(gs, F, translate, b, ts[..|ts| - 1]);
      var t := ts[|ts| - 1];
      var en := CheckTerm(gs, F, translate, b, translate[b], t).value;
      assert en.target == translate[b] && en.left == translate[t.left] && en.right == translate[t.right];
    }
  }

  /** Every entry the coaction lines produce is homogeneous: the grades of
      its two factors add up to the grade of the element it belongs to. */
  lemma {:induction false} EntriesHomogeneous<G, T>(gs: GradeSyntax<G>, F: Ring<T>, translate: map<string, (G, nat)>, lut: seq<CoactionLine>)
    requires CoactionEntries(gs, F, translate, lut).Ok?
    ensures forall e :: e in CoactionEntries(gs, F, translate, lut).value ==> Homogeneous(gs, translate, e)
  {
    if lut != [] {
      EntriesHomogeneous(gs, F, translate, lut[..|lut| - 1]);
      var line := lut[|lut| - 1];
      TermsHomogeneous(gs, F, translate, line.name, line.terms);
    }
  }

  lemma {:induction false} CheckTermsErrSticks<G, T>(gs: GradeSyntax<G>, F: Ring<T>, translate: map<string, (G, nat)>, b: string, target: (G, nat), ts: seq<Term>, k: nat)
    requires k <= |ts| && CheckTerms(gs, F, translate, b, target, ts[..k]).Err?
    ensures CheckTerms(gs, F, translate, b, target, ts) == CheckTerms(gs, F, translate, b, target, ts[..k])
    decreases |ts| - k
  {
    if k < |ts| {
      assert ts[..k + 1][..k] == ts[..k];
      CheckTermsErrSticks(gs, F, translate, b, target, ts, k + 1);
    } else {
      assert ts[..k] == ts;
    }
  }

  lemma {:induction false} EntriesErrSticks<G, T>(gs: GradeSyntax<G>, F: Ring<T>, translate: map<string, (G, nat)>, lut: seq<CoactionLine>, k: nat)
    requires k <= |lut| && CoactionEntries(gs, F, translate, lut[..k]).Err?
    ensures CoactionEntries(gs, F, translate, lut) == CoactionEntries(gs, F, translate, lut[..k])
    decreases |lut| - k
  {
    if k < |lut| {
      assert lut[..k + 1][..k] == lut[..k];
      EntriesErrSticks(gs, F, translate, lut, k + 1);
    } else {
      assert lut[..k] == lut;
    }
  }

  /** One tensor: its scalar parsed, both names looked up, and the grades
      required to add up to the target's. */
  method ReadTerm<G(==), T>(gs: GradeSyntax<G>, F: Ring<T>, translate: map<string, (G, nat)>, b: string, target: (G, nat), t: Term)
    returns (r: Result<Entry<G, T>, ParseError>)
    ensures r == CheckTerm(gs, F, translate, b, target, t)
  {
    var el := UniPol.Parse(F, t.scalar);
    if el.None? {
      return Err(InvalidScalar(t.scalar));
    }
    if t.left !in translate {
      return Err(UnknownLeft(t.left));
    }
    if t.right !in translate {
      return Err(UnknownRight(t.right));
    }
    var l, rr := translate[t.left], translate[t.right];
    if gs.add(l.0, rr.0) != target.0 {
      return Err(NotHomogeneous(b));
    }
    return Ok(Entry(target, el.value, l, rr));
  }

  /** One more tensor checked after the first k. */
  lemma CheckTermsSnoc<G, T>(gs: GradeSyntax<G>, F: Ring<T>, translate: map<string, (G, nat)>, b: string, target: (G, nat),
                                  ts: seq<Term>, k: nat)
    requires k < |ts| && CheckTerms(gs, F, translate, b, target, ts[..k]).Ok?
    ensures var e := CheckTerm(gs, F, translate, b, target, ts[k]);
            CheckTerms(gs, F, translate, b, target, ts[..k + 1])
              == if e.Err? then Err(e.error) else Ok(CheckTerms(gs, F, translate, b, target, ts[..k]).value + [e.value])
  {
    assert ts[..k + 1][..k] == ts[..k];
  }

  /** The tensors of one coaction line, checked in order. */
  method CheckLineTerms<G(==), T>(gs: GradeSyntax<G>, F: Ring<T>, translate: map<string, (G, nat)>, line: CoactionLine)
    returns (r: Result<seq<Entry<G, T>>, ParseError>)
    ensures r == CheckLine(gs, F, translate, line)
  {
    if line.name !in translate {
      return Err(UnknownBasis(line.name));
    }
    var target := translate[line.name];
    var entries: seq<Entry<G, T>> := [];
    var ts := line.terms;
    for k := 0 to |ts|
      invariant CheckTerms(gs, F, translate, line.name, target, ts[..k]) == Ok(entries)
    {
      var e := ReadTerm(gs, F, translate, line.name, target, ts[k]);
      CheckTermsSnoc(gs, F, translate, line.name, target, ts, k);
      if e.Err? {
        CheckTermsErrSticks(gs, F, translate, line.name, target, ts, k + 1);
        return Err(e.error);
      }
      entries := entries + [e.value];
    }
    assert ts[..|ts|] == ts;
    return Ok(entries);
  }

  /** The loop over `coaction_lut`: each line's tensors checked, the first
      error returned. */
  method CheckCoaction<G(==), T>(gs: GradeSyntax<G>, F: Ring<T>, translate: map<string, (G, nat)>, lut: seq<CoactionLine>)
    returns (r: Result<seq<Entry<G, T>>, ParseError>)
    ensures r == CoactionEntries(gs, F, translate, lut)
  {
    var entries: seq<Entry<G, T>> := [];
    for k := 0 to |lut|
      invariant CoactionEntries(gs, F, translate, lut[..k]) == Ok(entries)
    {
      assert lut[..k + 1][..k] == lut[..k];
      var more := CheckLineTerms(gs, F, translate, lut[k]);
      if more.Err? {
        EntriesErrSticks(gs, F, translate, lut, k + 1);
        return Err(more.error);
      }
      entries := entries + more.value;
    }
    assert lut[..|lut|] == lut;
    return Ok(entries);
  }

  // ---------------------------------------------------------------------
  // parse_direct (k_t_parser.rs:57-277)

  /** What `parse_direct` has checked: the numbering of the basis, the
      elements of each grade in order, and the coaction entries. */
  datatype Checked<G, T> = Checked(translate: map<string, (G, nat)>, transformed: map<G, seq<(string, int)>>, entries: seq<Entry<G, T>>)

  /** `dict` is the basis dictionary of `basis`: every basis line under its
      name. */
  ghost predicate DictOf<G>(basis: seq<BasisEntry<G>>, dict: BasisDict<G>) {
    && dict.Keys == Names(basis)
    && forall i :: 0 <= i < |basis| ==> dict[basis[i].name] == (basis[i].grade, basis[i].unigrade)
  }

  /** `translate` numbers each name of `dict` by its rank within its grade,
      and `transformed` lists each grade's names at those indices. */
  ghost predicate IsNumbering<G>(dict: BasisDict<G>, translate: map<string, (G, nat)>, transformed: map<G, seq<(string, int)>>) {
    && translate.Keys == dict.Keys
    && (forall n :: n in dict ==> translate[n] == (dict[n].0, Rank(dict, n)))
    && (forall n :: n in dict ==>
          dict[n].0 in transformed && translate[n].1 < |transformed[dict[n].0]|
          && transformed[dict[n].0][translate[n].1] == (n, dict[n].1))
    && (forall g :: g in transformed ==> |transformed[g]| == |InGrade(dict.Keys, dict, g)|)
  }

  /** What `parse_direct` does once the sections have been read: the basis
      dictionary, the numbering and the checked coaction. `dict` and
      `translate` are the dictionary and numbering the basis determines. */
  method CheckSections<G(==), T>(gs: GradeSyntax<G>, F: Ring<T>, m: Machine<G>)
    returns (r: Result<Checked<G, T>, ParseError>, ghost dict: BasisDict<G>, ghost translate: map<string, (G, nat)>)
    ensures DistinctNames(m.basis) ==>
              DictOf(m.basis, dict) && translate.Keys == dict.Keys &&
              forall n :: n in dict ==> translate[n] == (dict[n].0, Rank(dict, n))
    ensures r.Ok? <==> DistinctNames(m.basis) && CoactionEntries(gs, F, translate, m.lut).Ok?
    ensures !DistinctNames(m.basis) ==>
              exists i, j :: 0 <= i < j < |m.basis| && m.basis[i].name == m.basis[j].name && DistinctNames(m.basis[..j])
                             && r == Err(DuplicateBasis(m.basis[j].name))
    ensures DistinctNames(m.basis) && r.Err? ==> r == Err(CoactionEntries(gs, F, translate, m.lut).error)
    ensures r.Ok? ==>
            && r.value.translate == translate
            && IsNumbering(dict, translate, r.value.transformed)
            && r.value.entries == CoactionEntries(gs, F, translate, m.lut).value
    ensures r.Ok? ==>
            && r.value.translate.Keys == Names(m.basis)
            && (forall i :: 0 <= i < |m.basis| ==> r.value.translate[m.basis[i].name].0 == m.basis[i].grade)
            && (forall e :: e in r.value.entries ==> Homogeneous(gs, r.value.translate, e))
  {
    var d := BuildBasisDict(m.basis);
    if d.Err? {
      return Err(d.error), map[], map[];
    }
    dict := d.value;
    var tr, transformed := BuildTranslate(d.value);
    translate := tr;
    var entries := CheckCoaction(gs, F, tr, m.lut);
    if entries.Err? {
      return Err(entries.error), dict, translate;
    }
    EntriesHomogeneous(gs, F, tr, m.lut);
    return Ok(Checked(tr, transformed, entries.value)), dict, translate;
  }

  /** `parse_direct`, up to the coaction matrices: read the sections, build
      the dictionary, number the basis and check every tensor. */
  method ParseDirect<G(==), T>(gs: GradeSyntax<G>, F: Ring<T>, p: nat, input: string)
    returns (r: Result<Checked<G, T>, ParseError>, ghost dict: BasisDict<G>, ghost translate: map<string, (G, nat)>)
    ensures Sections(gs, p, input).Err? ==> r == Err(Sections(gs, p, input).error)
    ensures r.Ok? ==> Sections(gs, p, input).Ok?
    ensures Sections(gs, p, input).Ok? ==> var m := Sections(gs, p, input).value;
            DistinctNames(m.basis) ==>
              DictOf(m.basis, dict) && translate.Keys == dict.Keys &&
              forall n :: n in dict ==> translate[n] == (dict[n].0, Rank(dict, n))
    ensures Sections(gs, p, input).Ok? ==> var m := Sections(gs, p, input).value;
            r.Ok? <==> DistinctNames(m.basis) && CoactionEntries(gs, F, translate, m.lut).Ok?
    ensures Sections(gs, p, input).Ok? ==> var m := Sections(gs, p, input).value;
            !DistinctNames(m.basis) ==>
              exists i, j :: 0 <= i < j < |m.basis| && m.basis[i].name == m.basis[j].name && DistinctNames(m.basis[..j])
                             && r == Err(DuplicateBasis(m.basis[j].name))
    ensures Sections(gs, p, input).Ok? ==> var m := Sections(gs, p, input).value;
            DistinctNames(m.basis) && r.Err? ==> r == Err(CoactionEntries(gs, F, translate, m.lut).error)
    ensures r.Ok? ==> var m := Sections(gs, p, input).value;
            && r.value.translate == translate
            && IsNumbering(dict, translate, r.value.transformed)
            && r.value.entries == CoactionEntries(gs, F, translate, m.lut).value
            && r.value.translate.Keys == Names(m.basis)
            && (forall i :: 0 <= i < |m.basis| ==> r.value.translate[m.basis[i].name].0 == m.basis[i].grade)
            && (forall e :: e in r.value.entries ==> Homogeneous(gs, r.value.translate, e))
  {
    var m := ParseSections(gs, p, input);
    if m.Err? {
      return Err(m.error), map[], map[];
    }
    r, dict, translate := CheckSections(gs, F, m.value);
  }

}
