/** `BiGrading` of src/grading/bigrading.rs: a pair of `i16` degrees (t, s).
    The arithmetic is componentwise and wraps modulo 2^16, the order is the
    lexicographic one that `#[derive(Ord)]` gives, grades print as "(t, s)",
    and a grade indexes a (t+1) x (s+1) table of cells. */
module BiGradings {
  import opened Wrappers
  import opened Wrapping
  import Text

  datatype BiGrading = Bi(t: I16, s: I16)

  /** `zero` */
  function Zero(): BiGrading
  {
    Bi(0, 0)
  }

  /** `+` and `+=`: componentwise. */
  function Add(a: BiGrading, b: BiGrading): (r: BiGrading)
    ensures Text.I16_MIN <= a.t + b.t <= Text.I16_MAX ==> r.t == a.t + b.t
    ensures Text.I16_MIN <= a.s + b.s <= Text.I16_MAX ==> r.s == a.s + b.s
  {
    Bi(Plus(a.t, b.t), Plus(a.s, b.s))
  }

  /** `-` and `-=`: componentwise. */
  function Sub(a: BiGrading, b: BiGrading): (r: BiGrading)
    ensures Text.I16_MIN <= a.t - b.t <= Text.I16_MAX ==> r.t == a.t - b.t
    ensures Text.I16_MIN <= a.s - b.s <= Text.I16_MAX ==> r.s == a.s - b.s
  {
    Bi(Minus(a.t, b.t), Minus(a.s, b.s))
  }

  /** Wrapping addition is commutative with unit zero. */
  lemma AddCommutes(a: BiGrading, b: BiGrading)
    ensures Add(a, b) == Add(b, a)
    ensures Add(a, Zero()) == a
  {
  }

  /** Wrapping addition is associative. */
  lemma AddAssociates(a: BiGrading, b: BiGrading, c: BiGrading)
    ensures Add(Add(a, b), c) == Add(a, Add(b, c))
  {
    PlusLaws(a.t, b.t, c.t);
    PlusLaws(a.s, b.s, c.s);
  }

  /** `-` undoes `+`, and `+` undoes `-`. */
  lemma SubUndoesAdd(a: BiGrading, b: BiGrading)
    ensures Sub(Add(a, b), b) == a
    ensures Add(Sub(a, b), b) == a
    ensures Sub(a, a) == Zero()
  {
    PlusLaws(a.t, b.t, 0);
    PlusLaws(a.s, b.s, 0);
  }

  /** `Sum`: a left fold of `+` starting at zero. */
  function Sum(gs: seq<BiGrading>): (r: BiGrading)
    ensures r.t % Modulus == SumT(gs) % Modulus && r.s % Modulus == SumS(gs) % Modulus
  {
    if gs == [] then Zero()
    else
      var init := Sum(gs[..|gs| - 1]);
      var last := gs[|gs| - 1];
      FoldIsWrap(init.t + last.t);
      AddCongruent(init.t, SumT(gs[..|gs| - 1]), last.t);
      FoldIsWrap(init.s + last.s);
      AddCongruent(init.s, SumS(gs[..|gs| - 1]), last.s);
      Add(init, last)
  }

  /** The exact integer sums of the two components. */
  function SumT(gs: seq<BiGrading>): int {
    if gs == [] then 0 else SumT(gs[..|gs| - 1]) + gs[|gs| - 1].t
  }

  function SumS(gs: seq<BiGrading>): int {
    if gs == [] then 0 else SumS(gs[..|gs| - 1]) + gs[|gs| - 1].s
  }

  /** `integer_multiplication`: both components times k, wrapped. */
  function IntegerMultiplication(g: BiGrading, k: I16): (r: BiGrading)
    ensures Text.I16_MIN <= g.t * k <= Text.I16_MAX ==> r.t == g.t * k
    ensures Text.I16_MIN <= g.s * k <= Text.I16_MAX ==> r.s == g.s * k
  {
    Bi(Wrap(g.t * k), Wrap(g.s * k))
  }

  /** `infty`: the largest grade in both components. */
  function Infty(): (r: BiGrading)
    ensures forall g: BiGrading :: g.t <= r.t && g.s <= r.s
  {
    Bi(Text.I16_MAX, Text.I16_MAX)
  }

  /** `incr`: one more in both components. */
  function Incr(g: BiGrading): (r: BiGrading)
    ensures g.t < Text.I16_MAX ==> r.t == g.t + 1
    ensures g.s < Text.I16_MAX ==> r.s == g.s + 1
  {
    Bi(Plus(g.t, 1), Plus(g.s, 1))
  }

  // ---------------------------------------------------------------------
  // Order

  /** The derived `Ord`: first components, then second components. */
  function Compare(a: BiGrading, b: BiGrading): (r: Ordering)
    ensures r == Equal <==> a == b
  {
    match Cmp(a.t, b.t)
    case Equal => Cmp(a.s, b.s)
    case other => other
  }

  predicate Lt(a: BiGrading, b: BiGrading) { Compare(a, b) == Less }

  /** The derived order is a strict total order, read lexicographically. */
  lemma CompareIsLexicographic(a: BiGrading, b: BiGrading, c: BiGrading)
    ensures Lt(a, b) <==> a.t < b.t || (a.t == b.t && a.s < b.s)
    ensures Compare(a, b) == Greater <==> Lt(b, a)
    ensures a == b || Lt(a, b) || Lt(b, a)
    ensures Lt(a, b) && Lt(b, c) ==> Lt(a, c)
  {
  }

  predicate Sorted(gs: seq<BiGrading>) {
    forall i, j :: 0 <= i < j < |gs| ==> Lt(gs[i], gs[j])
  }

  /** `to_index`: both components cast to `usize`. */
  function ToIndex(g: BiGrading): (i: (nat, nat))
    ensures g.t >= 0 ==> i.0 == g.t
    ensures g.s >= 0 ==> i.1 == g.s
  {
    (AsUsize(g.t), AsUsize(g.s))
  }

  // ---------------------------------------------------------------------
  // Text form

  /** `Display`: "(t, s)". */
  function Display(g: BiGrading): string {
    "(" + Text.Decimal(g.t) + ", " + Text.Decimal(g.s) + ")"
  }

  /** The text between the parentheses of a printed grade. */
  lemma DisplayInner(g: BiGrading)
    ensures Display(g) == "(" + Text.Join([Text.Decimal(g.t), " " + Text.Decimal(g.s)], ',') + ")"
  {
    var a, b := Text.Decimal(g.t), Text.Decimal(g.s);
    assert Text.Join([a, " " + b], ',') == a + [','] + Text.Join([" " + b], ',');
    assert "(" + a + ", " + b + ")" == "(" + (a + [','] + (" " + b)) + ")";
  }

  /** Why a grade did not parse. */
  datatype ParseError = WrongPartCount | BadComponent(kind: Text.IntError)

  /** The comma-separated parts of the text, once trimmed and unwrapped
      from one enclosing pair of parentheses. */
  function Parts(s: string): (parts: seq<string>)
    ensures |parts| >= 1
  {
    Text.Split(Unwrapped(Text.Trim(s)), ',')
  }

  /** `parse`: trim, drop one enclosing pair of parentheses, and read exactly
      two comma-separated `i16` literals, each trimmed. */
  function Parse(s: string): (r: Result<BiGrading, ParseError>)
    ensures r.Ok? ==> |Parts(s)| == 2
    ensures |Parts(s)| != 2 ==> r == Err(WrongPartCount)
  {
    var parts := Parts(s);
    if |parts| != 2 then Err(WrongPartCount)
    else
      match Component(parts[0])
      case Err(e) => Err(BadComponent(e))
      case Ok(t) =>
        match Component(parts[1])
        case Err(e) => Err(BadComponent(e))
        case Ok(u) => Ok(Bi(t, u))
  }

  /** A grade parses exactly when it has two parts and each is an `i16`
      literal once trimmed, and then it holds their values. */
  lemma ParseLiterals(s: string)
    ensures Parse(s).Ok? <==> |Parts(s)| == 2 && IsComponent(Parts(s)[0]) && IsComponent(Parts(s)[1])
    ensures Parse(s).Ok? ==> Parse(s).value == Bi(ComponentValue(Parts(s)[0]), ComponentValue(Parts(s)[1]))
  {
    var parts := Parts(s);
    if |parts| == 2 {
      var a, b := Component(parts[0]), Component(parts[1]);
      assert a.Ok? <==> IsComponent(parts[0]);
      assert b.Ok? <==> IsComponent(parts[1]);
    }
  }

  /** One component: an `i16` literal, once trimmed. */
  function Component(p: string): (r: Result<I16, Text.IntError>)
    ensures r.Ok? <==> IsComponent(p)
    ensures r.Ok? ==> r.value == ComponentValue(p)
  {
    Text.ParseIntLiteral(Text.Trim(p), Text.I16_MIN, Text.I16_MAX);
    match Text.ParseInt(Text.Trim(p), Text.I16_MIN, Text.I16_MAX)
    case Ok(v) => Ok(v)
    case Err(e) => Err(e)
  }

  /** A part that is an `i16` literal once trimmed. */
  predicate IsComponent(p: string) {
    Text.IsIntLiteral(Text.Trim(p), Text.I16_MIN, Text.I16_MAX)
  }

  /** The value of such a part. */
  function ComponentValue(p: string): int
    requires IsComponent(p)
  {
    Text.LiteralValue(Text.Trim(p), true)
  }

  /** The text inside one pair of enclosing parentheses, if there is one. */
  function Unwrapped(s: string): (r: string)
    ensures Text.StartsWith(s, '(') && Text.EndsWith(s, ')') ==> s == "(" + r + ")"
    ensures !(Text.StartsWith(s, '(') && Text.EndsWith(s, ')')) ==> r == s
  {
    if Text.StartsWith(s, '(') && Text.EndsWith(s, ')') then s[1..|s| - 1] else s
  }

  /** A printed grade splits into its two printed components. */
  lemma DisplayParts(g: BiGrading)
    ensures Parts(Display(g)) == [Text.Decimal(g.t), " " + Text.Decimal(g.s)]
  {
    DisplayUnwrapped(g);
    InnerSplit(g);
  }

  /** Trimming and unwrapping a printed grade leaves its two components and
      the comma between them. */
  lemma DisplayUnwrapped(g: BiGrading)
    ensures Unwrapped(Text.Trim(Display(g)))
         == Text.Join([Text.Decimal(g.t), " " + Text.Decimal(g.s)], ',')
  {
    var inner := Text.Join([Text.Decimal(g.t), " " + Text.Decimal(g.s)], ',');
    DisplayInner(g);
    Text.TrimUnchanged(Display(g));
    Enclosed(inner);
  }

  /** The comma between the components is the only one. */
  lemma InnerSplit(g: BiGrading)
    ensures Text.Split(Text.Join([Text.Decimal(g.t), " " + Text.Decimal(g.s)], ','), ',')
         == [Text.Decimal(g.t), " " + Text.Decimal(g.s)]
  {
    Text.DecimalChars(g.t);
    Text.DecimalChars(g.s);
    Text.SplitJoin([Text.Decimal(g.t), " " + Text.Decimal(g.s)], ',');
  }

  lemma Enclosed(x: string)
    ensures Unwrapped("(" + x + ")") == x
  {
    assert ("(" + x + ")")[1..|x| + 1] == x;
  }

  /** A printed component, with or without a leading space, parses back. */
  lemma ComponentOfDecimal(n: I16)
    ensures Component(Text.Decimal(n)) == Ok(n)
  {
    Text.DecimalChars(n);
    Text.TrimUnchanged(Text.Decimal(n));
    Text.ParseDecimal(n, Text.I16_MIN, Text.I16_MAX);
  }

  lemma ComponentOfSpacedDecimal(n: I16)
    ensures Component(" " + Text.Decimal(n)) == Ok(n)
  {
    Text.DecimalChars(n);
    Text.TrimLeadingSpace(Text.Decimal(n));
    Text.ParseDecimal(n, Text.I16_MIN, Text.I16_MAX);
  }

  /** Parsing a printed grade gives the grade back. */
  lemma ParseDisplay(g: BiGrading)
    ensures Parse(Display(g)) == Ok(g)
  {
    DisplayParts(g);
    ComponentOfDecimal(g.t);
    ComponentOfSpacedDecimal(g.s);
  }

  // ---------------------------------------------------------------------
  // Iteration and memory

  /** The grades (x, y) with x0 <= x <= g.t and 0 <= y <= g.s, x-major. */
  function Rows(x0: nat, g: BiGrading): (r: seq<BiGrading>)
    requires g.s >= 0 && x0 <= g.t + 1
    ensures forall h :: h in r <==> x0 <= h.t <= g.t && 0 <= h.s <= g.s
    ensures Sorted(r)
    decreases g.t + 1 - x0
  {
    if x0 > g.t then []
    else
      var column := Column(x0, g.s);
      var rest := Rows(x0 + 1, g);
      SortedConcat(column, rest);
      column + rest
  }

  /** The grades (x, y) with 0 <= y <= b, in increasing order. */
  function Column(x: I16, b: I16): (r: seq<BiGrading>)
    requires b >= 0
    ensures forall h :: h in r <==> h.t == x && 0 <= h.s <= b
    ensures Sorted(r)
  {
    var r := seq(b + 1, y requires 0 <= y <= b => Bi(x, y));
    assert forall h: BiGrading :: h.t == x && 0 <= h.s <= b ==> r[h.s] == h;
    r
  }

  /** Two sorted runs, the first entirely below the second, make a sorted run. */
  lemma SortedConcat(a: seq<BiGrading>, b: seq<BiGrading>)
    requires Sorted(a) && Sorted(b)
    requires forall x, y :: x in a && y in b ==> Lt(x, y)
    ensures Sorted(a + b)
  {
    var c := a + b;
    forall i, j | 0 <= i < j < |c| ensures Lt(c[i], c[j]) {
      if j < |a| {
        assert c[i] == a[i] && c[j] == a[j];
      } else if i >= |a| {
        assert c[i] == b[i - |a|] && c[j] == b[j - |a|];
      } else {
        assert c[i] in a && c[j] in b;
      }
    }
  }

  /** Removing every occurrence of one grade. */
  function Without(gs: seq<BiGrading>, g: BiGrading): (r: seq<BiGrading>)
    ensures forall h :: h in r <==> h in gs && h != g
    ensures Sorted(gs) ==> Sorted(r)
  {
    if gs == [] then []
    else
      var rest := Without(gs[1..], g);
      assert Sorted(gs) ==> forall h :: h in gs[1..] ==> Lt(gs[0], h);
      if gs[0] == g then rest else [gs[0]] + rest
  }

  /** `iterator_from_zero`: every (x, y) with 0 <= x <= t and 0 <= y <= s in
      increasing order, without (t, s) itself unless `include_self`. */
  function IteratorFromZero(g: BiGrading, includeSelf: bool): (r: seq<BiGrading>)
    ensures forall h :: h in r <==>
              0 <= h.t <= g.t && 0 <= h.s <= g.s && (includeSelf || h != g)
    ensures Sorted(r)
  {
    var all := if g.t < 0 || g.s < 0 then [] else Rows(0, g);
    if includeSelf then all else Without(all, g)
  }

  /** `init_memory`: t+1 rows of s+1 cells each, each made by the cell
      constructor (modelled as the value it makes). */
  method InitMemory<A>(g: BiGrading, cell: A) returns (v: seq<seq<A>>)
    ensures |v| == (if g.t < 0 then 0 else g.t + 1)
    ensures forall x :: 0 <= x < |v| ==> |v[x]| == (if g.s < 0 then 0 else g.s + 1)
    ensures forall x, y :: 0 <= x < |v| && 0 <= y < |v[x]| ==> v[x][y] == cell
    ensures forall h :: h in IteratorFromZero(g, true) ==>
              ToIndex(h).0 < |v| && ToIndex(h).1 < |v[ToIndex(h).0]|
  {
    v := [];
    var x: int := 0;
    while x <= g.t
      invariant |v| == x && (g.t < 0 ==> x == 0) && (g.t >= 0 ==> 0 <= x <= g.t + 1)
      invariant forall i :: 0 <= i < |v| ==> v[i] == Filled(g, cell)
      decreases g.t - x
    {
      var w := InitRow(g, cell);
      v := v + [w];
      x := x + 1;
    }
  }

  /** One row of `init_memory`. */
  method InitRow<A>(g: BiGrading, cell: A) returns (w: seq<A>)
    ensures w == Filled(g, cell)
  {
    w := [];
    var y: int := 0;
    while y <= g.s
      invariant |w| == y && (g.s < 0 ==> y == 0) && (g.s >= 0 ==> 0 <= y <= g.s + 1)
      invariant forall i :: 0 <= i < y ==> w[i] == cell
      decreases g.s - y
    {
      w := w + [cell];
      y := y + 1;
    }
  }

  /** The contents of one row: s+1 copies of the cell. */
  function Filled<A>(g: BiGrading, cell: A): (w: seq<A>)
    ensures |w| == (if g.s < 0 then 0 else g.s + 1)
    ensures forall y :: 0 <= y < |w| ==> w[y] == cell
  {
    seq(if g.s < 0 then 0 else g.s + 1, _ => cell)
  }

  /** `nexts`: one step up in each direction. */
  function Nexts(g: BiGrading): (r: seq<BiGrading>)
    ensures |r| == 2
    ensures g.t < Text.I16_MAX ==> r[0] == Bi(g.t + 1, g.s)
    ensures g.s < Text.I16_MAX ==> r[1] == Bi(g.t, g.s + 1)
  {
    [Bi(Plus(g.t, 1), g.s), Bi(g.t, Plus(g.s, 1))]
  }

  /** `incomings`: the number of positive components. */
  function Incomings(g: BiGrading): (n: nat)
    ensures n <= 2
    ensures n == 0 <==> g.t <= 0 && g.s <= 0
  {
    var m := 0;
    var m := if g.t > 0 then m + 1 else m;
    var m := if g.s > 0 then m + 1 else m;
    m
  }

  /** The grades below g (from `iterator_from_zero`) that step up to g. */
  function Predecessors(g: BiGrading): set<BiGrading> {
    set h | h in IteratorFromZero(g, false) && g in Nexts(h)
  }

  /** A grade of the iteration range below g steps up to g exactly when it
      is one below g in one component. */
  lemma PredecessorIsOneBelow(g: BiGrading, h: BiGrading)
    requires h in IteratorFromZero(g, false)
    ensures g in Nexts(h) <==> (h.t == g.t - 1 && h.s == g.s) || (h.t == g.t && h.s == g.s - 1)
    ensures g in Nexts(h) <==> h in OneBelow(g)
  {
    var n := Nexts(h);
    assert g in n <==> g == n[0] || g == n[1];
    if h.t == Text.I16_MAX {
      assert n[0].t == Text.I16_MIN;
    }
    if h.s == Text.I16_MAX {
      assert n[1].s == Text.I16_MIN;
    }
    OneBelowMember(g, h);
  }

  lemma OneBelowMember(g: BiGrading, h: BiGrading)
    ensures h in OneBelow(g) <==>
      (g.t > 0 && h.t == g.t - 1 && h.s == g.s) || (g.s > 0 && h.t == g.t && h.s == g.s - 1)
  {
  }

  /** The grades one below g in a non-negative component. */
  function OneBelow(g: BiGrading): set<BiGrading> {
    (if g.t > 0 then {Bi(g.t - 1, g.s)} else {}) + (if g.s > 0 then {Bi(g.t, g.s - 1)} else {})
  }

  lemma PredecessorsAreOneBelow(g: BiGrading)
    requires g.t >= 0 && g.s >= 0
    ensures Predecessors(g) == OneBelow(g)
  {
    forall h ensures h in Predecessors(g) <==> h in OneBelow(g) {
      PredecessorMember(g, h);
    }
  }

  lemma PredecessorMember(g: BiGrading, h: BiGrading)
    requires g.t >= 0 && g.s >= 0
    ensures h in Predecessors(g) <==> h in OneBelow(g)
  {
    if h in IteratorFromZero(g, false) {
      PredecessorIsOneBelow(g, h);
      assert h in Predecessors(g) <==> g in Nexts(h);
    } else if h in OneBelow(g) {
      OneBelowIsPredecessor(g, h);
      assert false;
    }
  }

  lemma OneBelowIsPredecessor(g: BiGrading, h: BiGrading)
    requires g.t >= 0 && g.s >= 0 && h in OneBelow(g)
    ensures h in IteratorFromZero(g, false) && g in Nexts(h)
  {
    if h == Bi(g.t - 1, g.s) {
      assert Nexts(h)[0] == g;
    } else {
      assert Nexts(h)[1] == g;
    }
  }

  /** `incomings` counts the grades of the iteration range below g whose
      `nexts` reach g. */
  lemma IncomingsCountsPredecessors(g: BiGrading)
    requires g.t >= 0 && g.s >= 0
    ensures Incomings(g) == |Predecessors(g)|
  {
    PredecessorsAreOneBelow(g);
    OneBelowSize(g);
  }

  lemma OneBelowSize(g: BiGrading)
    ensures |OneBelow(g)| == Incomings(g)
  {
    if g.t > 0 && g.s > 0 {
      assert Bi(g.t - 1, g.s) != Bi(g.t, g.s - 1);
    }
  }
}
