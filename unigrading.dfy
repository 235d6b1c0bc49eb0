/** `UniGrading` of src/grading/unigrading.rs: a single `i16` degree. The
    arithmetic wraps modulo 2^16, grades are printed and parsed as decimal
    `i16` literals, and a grade indexes a vector of cells `0..=n`. */
module UniGradings {
  import opened Wrappers
  import opened Wrapping
  import Text

  datatype UniGrading = Uni(t: I16)

  /** `zero` */
  function Zero(): UniGrading
  {
    Uni(0)
  }

  /** `+` and `+=` */
  function Add(a: UniGrading, b: UniGrading): (r: UniGrading)
    ensures Text.I16_MIN <= a.t + b.t <= Text.I16_MAX ==> r.t == a.t + b.t
  {
    Uni(Plus(a.t, b.t))
  }

  /** `-` and `-=` */
  function Sub(a: UniGrading, b: UniGrading): (r: UniGrading)
    ensures Text.I16_MIN <= a.t - b.t <= Text.I16_MAX ==> r.t == a.t - b.t
  {
    Uni(Minus(a.t, b.t))
  }

  /** Wrapping addition is commutative with unit zero. */
  lemma AddCommutes(a: UniGrading, b: UniGrading)
    ensures Add(a, b) == Add(b, a)
    ensures Add(a, Zero()) == a
  {
  }

  /** Wrapping addition is associative. */
  lemma AddAssociates(a: UniGrading, b: UniGrading, c: UniGrading)
    ensures Add(Add(a, b), c) == Add(a, Add(b, c))
  {
    PlusLaws(a.t, b.t, c.t);
  }

  /** `-` undoes `+`, and `+` undoes `-`. */
  lemma SubUndoesAdd(a: UniGrading, b: UniGrading)
    ensures Sub(Add(a, b), b) == a
    ensures Add(Sub(a, b), b) == a
    ensures Sub(a, a) == Zero()
  {
    PlusLaws(a.t, b.t, 0);
  }

  /** `Sum`: a left fold of `+` starting at zero. */
  function Sum(gs: seq<UniGrading>): (r: UniGrading)
    ensures r.t % Modulus == IntSum(gs) % Modulus
  {
    if gs == [] then Zero()
    else
      var init := Sum(gs[..|gs| - 1]);
      FoldIsWrap(init.t + gs[|gs| - 1].t);
      AddCongruent(init.t, IntSum(gs[..|gs| - 1]), gs[|gs| - 1].t);
      Add(init, gs[|gs| - 1])
  }

  /** The exact integer sum of the degrees. */
  function IntSum(gs: seq<UniGrading>): int {
    if gs == [] then 0 else IntSum(gs[..|gs| - 1]) + gs[|gs| - 1].t
  }

  /** When the exact sum fits in an `i16`, `Sum` is that sum. */
  lemma SumExact(gs: seq<UniGrading>)
    requires Text.I16_MIN <= IntSum(gs) <= Text.I16_MAX
    ensures Sum(gs).t == IntSum(gs)
  {
    WrapCongruent(Sum(gs).t, IntSum(gs));
  }

  /** `integer_multiplication`: the wrapped product. */
  function IntegerMultiplication(g: UniGrading, k: I16): (r: UniGrading)
    ensures Text.I16_MIN <= g.t * k <= Text.I16_MAX ==> r.t == g.t * k
  {
    Uni(Wrap(g.t * k))
  }

  /** Multiplying by a non-negative k is adding g to itself k times. */
  lemma {:induction false} MultiplicationIsRepeatedAddition(g: UniGrading, k: I16)
    requires k >= 0
    ensures IntegerMultiplication(g, k) == Sum(seq(k, _ => g))
  {
    var gs := seq(k, _ => g);
    if k > 0 {
      MultiplicationIsRepeatedAddition(g, k - 1);
      assert gs[..k - 1] == seq(k - 1, _ => g);
      assert Sum(gs) == Add(IntegerMultiplication(g, k - 1), g);
      FoldIsWrap(IntegerMultiplication(g, k - 1).t + g.t);
      WrapAdd(g.t * (k - 1), g.t);
      MulSucc(g.t, k - 1);
    }
  }

  lemma MulSucc(a: int, k: int)
    ensures a * k + a == a * (k + 1)
  {
  }

  /** `infty`: the largest grade. */
  function Infty(): (r: UniGrading)
    ensures forall g: UniGrading :: g.t <= r.t
  {
    Uni(Text.I16_MAX)
  }

  /** `incr` */
  function Incr(g: UniGrading): (r: UniGrading)
    ensures g.t < Text.I16_MAX ==> r.t == g.t + 1
    ensures g.t == Text.I16_MAX ==> r.t == Text.I16_MIN
  {
    Uni(Plus(g.t, 1))
  }

  /** `compare`: the order of the degrees. */
  function Compare(a: UniGrading, b: UniGrading): (r: Ordering)
    ensures r == Equal <==> a == b
    ensures r == Less <==> a.t < b.t
    ensures r == Greater <==> b.t < a.t
  {
    Cmp(a.t, b.t)
  }

  /** `to_index`: the degree cast to `usize`. */
  function ToIndex(g: UniGrading): (i: nat)
    ensures g.t >= 0 ==> i == g.t
  {
    AsUsize(g.t)
  }

  // ---------------------------------------------------------------------
  // Text form

  /** `Display`: the decimal degree. */
  function Display(g: UniGrading): string {
    Text.Decimal(g.t)
  }

  /** `parse`: an `i16` literal. */
  function Parse(s: string): (r: Result<UniGrading, Text.IntError>)
    ensures r.Ok? <==> Text.IsIntLiteral(s, Text.I16_MIN, Text.I16_MAX)
    ensures r.Ok? ==> r.value.t == Text.LiteralValue(s, true)
    ensures s == [] ==> r == Err(Text.Empty)
  {
    Text.ParseIntLiteral(s, Text.I16_MIN, Text.I16_MAX);
    match Text.ParseInt(s, Text.I16_MIN, Text.I16_MAX)
    case Ok(v) => Ok(Uni(v))
    case Err(e) => Err(e)
  }

  /** Parsing a printed grade gives the grade back. */
  lemma ParseDisplay(g: UniGrading)
    ensures Parse(Display(g)) == Ok(g)
  {
    Text.ParseDecimal(g.t, Text.I16_MIN, Text.I16_MAX);
  }

  /** Only decimal literals within the `i16` range parse. */
  lemma ParseOutOfRange(n: int)
    requires n > Text.I16_MAX
    ensures Parse(Text.Decimal(n)) == Err(Text.OutOfRange)
  {
    Text.DigitsValueOfDigits(n);
    assert Text.IsDigit(Text.Digits(n)[0]);
  }

  // ---------------------------------------------------------------------
  // Iteration and memory

  /** `iterator_from_zero`: the grades `0..=n`, or `0..n` without the grade
      itself, in increasing order. */
  function IteratorFromZero(g: UniGrading, includeSelf: bool): (r: seq<UniGrading>)
    ensures forall h :: h in r <==> 0 <= h.t && (h.t < g.t || (includeSelf && h.t == g.t))
    ensures forall i :: 0 <= i < |r| ==> r[i].t == i
  {
    var n := if g.t < 0 then 0 else if includeSelf then g.t + 1 else g.t;
    var r := seq(n, i requires 0 <= i < n => Uni(i));
    assert forall h: UniGrading :: 0 <= h.t < n ==> r[h.t] == h;
    r
  }

  /** The number of cells `init_memory` allocates: one per grade `0..=n`. */
  function Cells(g: UniGrading): (c: nat)
    ensures c == |IteratorFromZero(g, true)|
  {
    if g.t < 0 then 0 else g.t + 1
  }

  /** `init_memory`: a vector with one cell per grade `0..=n`, each made by
      the cell constructor (modelled as the value it makes). */
  method InitMemory<A>(g: UniGrading, cell: A) returns (v: seq<A>)
    ensures |v| == Cells(g)
    ensures forall i :: 0 <= i < |v| ==> v[i] == cell
    ensures forall h :: h in IteratorFromZero(g, true) ==> ToIndex(h) < |v|
  {
    v := [];
    var x := 0;
    while x <= g.t
      invariant 0 <= x <= Cells(g) && |v| == x
      invariant forall i :: 0 <= i < |v| ==> v[i] == cell
      decreases g.t - x
    {
      v := v + [cell];
      x := x + 1;
    }
  }

  /** `nexts`: the one grade reached by a step up. */
  function Nexts(g: UniGrading): (r: seq<UniGrading>)
    ensures |r| == 1 && r[0] == Incr(g)
  {
    [Incr(g)]
  }

  /** `incomings`: 1 for a positive grade and 0 otherwise. */
  function Incomings(g: UniGrading): (n: nat)
    ensures n <= 1
  {
    if g.t > 0 then 1 else 0
  }

  /** The grades below g (from `iterator_from_zero`) that step up to g. */
  function Predecessors(g: UniGrading): set<UniGrading> {
    set h | h in IteratorFromZero(g, false) && g in Nexts(h)
  }

  /** `incomings` counts the grades of the iteration range below g whose
      `nexts` reach g. */
  lemma IncomingsCountsPredecessors(g: UniGrading)
    ensures Incomings(g) == |Predecessors(g)|
  {
    if g.t > 0 {
      var p := Uni(g.t - 1);
      assert p in IteratorFromZero(g, false) && g in Nexts(p);
      assert Predecessors(g) == {p};
    } else {
      assert Predecessors(g) == {};
    }
  }
}
