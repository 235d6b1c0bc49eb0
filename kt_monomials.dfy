/** The monomial helpers of src/k_t_comodule/k_t_parser.rs: a monomial in the
    polynomial generators of a Hopf algebra is a vector of exponents
    (`Monomial = Vec<usize>`), read from text like "x^2,y", printed back the
    same way, multiplied and reduced against a list of relations. */
module KtMonomials {
  import opened Wrappers
  import opened Rings
  import Text
  import Wrapping
  import UniPol

  type Monomial = seq<nat>

  /** `RelationType`: a relation sends a monomial to zero, or to a scalar
      times another monomial. */
  datatype Relation<T> = Zero | Equal(coef: UniPol.UniPol<T>, mon: Monomial)

  type Relations<T> = seq<(Monomial, Relation<T>)>

  datatype MonomialError =
    | InvalidExponent(part: string)
    | InvalidFormat(part: string)
    | UnknownGenerator(name: string)

  function Min(a: nat, b: nat): nat { if a <= b then a else b }

  // ---------------------------------------------------------------------
  // Counting a character

  function Count(s: string, c: char): nat {
    if s == [] then 0 else (if s[0] == c then 1 else 0) + Count(s[1..], c)
  }

  lemma {:induction false} CountAppend(a: string, b: string, c: char)
    ensures Count(a + b, c) == Count(a, c) + Count(b, c)
  {
    if a == [] {
      assert a + b == b;
    } else {
      assert (a + b)[0] == a[0];
      assert (a + b)[1..] == a[1..] + b;
      CountAppend(a[1..], b, c);
    }
  }

  lemma {:induction false} CountAbsent(s: string, c: char)
    requires c !in s
    ensures Count(s, c) == 0
  {
    if s != [] {
      assert c !in s[1..];
      CountAbsent(s[1..], c);
    }
  }

  /** `split(c)` yields one more piece than there are occurrences of c. */
  lemma {:induction false} SplitCount(s: string, c: char)
    ensures |Text.Split(s, c)| == Count(s, c) + 1
    decreases |s|
  {
    match Text.SplitOnce(s, c)
    case None =>
      CountAbsent(s, c);
    case Some((a, b)) =>
      CountAppend(a + [c], b, c);
      CountAppend(a, [c], c);
      CountAbsent(a, c);
      assert Count([c], c) == 1;
      SplitCount(b, c);
  }

  // ---------------------------------------------------------------------
  // parse_name_exponent (k_t_parser.rs:702-722)

  /** `parse_name_exponent`: "x" is x to the first power, "x^k" is x to the
      k-th power; a bad k or more than one '^' is an error. */
  function ParseNameExponent(el: string): (r: Result<(string, nat), MonomialError>)
    ensures r.Ok? ==> Count(el, '^') <= 1
    ensures r.Err? ==> r.error == InvalidExponent(el) || r.error == InvalidFormat(el)
  {
    SplitCount(el, '^');
    var parts := Text.Split(el, '^');
    if |parts| == 1 then Ok((Text.Trim(parts[0]), 1))
    else if |parts| == 2 then
      match Text.ParseInt(parts[1], 0, Text.USIZE_MAX)
      case Err(_) => Err(InvalidExponent(el))
      case Ok(k) => Ok((Text.Trim(parts[0]), k))
    else Err(InvalidFormat(el))
  }

  /** The three cases: no '^' gives exponent one; exactly one '^' gives the
      exponent that follows it, or an error when it is not a `usize`; two or
      more are a format error. */
  lemma NameExponentCases(el: string)
    ensures Count(el, '^') == 0 ==> ParseNameExponent(el) == Ok((Text.Trim(el), 1))
    ensures Count(el, '^') >= 2 <==> ParseNameExponent(el) == Err(InvalidFormat(el))
  {
    SplitCount(el, '^');
    if Count(el, '^') == 0 {
      assert Text.Split(el, '^') == [el];
    }
  }

  lemma NameWithExponent(name: string, e: string)
    requires '^' !in name && '^' !in e
    ensures Text.ParseInt(e, 0, Text.USIZE_MAX).Ok? ==>
              ParseNameExponent(name + "^" + e) == Ok((Text.Trim(name), Text.ParseInt(e, 0, Text.USIZE_MAX).value))
    ensures Text.ParseInt(e, 0, Text.USIZE_MAX).Err? ==> ParseNameExponent(name + "^" + e) == Err(InvalidExponent(name + "^" + e))
  {
    Text.SplitOnceFirst(name, e, '^');
    assert Text.Split(e, '^') == [e];
    assert Text.Split(name + "^" + e, '^') == [name, e];
  }

  /** "name^k", with k printed in decimal, reads back as (name, k). */
  lemma NameExponentRoundTrip(name: string, k: nat)
    requires '^' !in name && k <= Text.USIZE_MAX
    ensures ParseNameExponent(name + "^" + Text.Digits(k)) == Ok((Text.Trim(name), k))
  {
    NoCaretInDigits(k);
    NameWithExponent(name, Text.Digits(k));
    assert Text.Decimal(k) == Text.Digits(k);
    Text.ParseDecimal(k, 0, Text.USIZE_MAX);
    assert Text.ParseInt(Text.Digits(k), 0, Text.USIZE_MAX) == Ok(k as int);
  }

  lemma NoCaretInDigits(k: nat)
    ensures '^' !in Text.Digits(k) && ',' !in Text.Digits(k)
  {
    var d := Text.Digits(k);
    assert forall i :: 0 <= i < |d| ==> Text.IsDigit(d[i]);
  }

  // ---------------------------------------------------------------------
  // parse_monomial (k_t_parser.rs:724-742)

  /** Every generator index is inside the monomial. */
  ghost predicate ValidTranslate(translate: map<string, nat>, size: nat) {
    forall n :: n in translate ==> translate[n] < size
  }

  /** A part read by `parse_name_exponent`. */
  type Parsed = Result<(string, nat), MonomialError>

  /** Every ','-separated part, read. */
  function ParseParts(parts: seq<string>): (r: seq<Parsed>)
    ensures |r| == |parts|
  {
    seq(|parts|, k requires 0 <= k < |parts| => ParseNameExponent(parts[k]))
  }

  /** One part: an error stops; "1" is skipped; otherwise the named
      generator's exponent is set (not added to). */
  function AssignPart(mon: Monomial, pe: Parsed, translate: map<string, nat>): (r: Result<Monomial, MonomialError>)
    requires ValidTranslate(translate, |mon|)
    ensures r.Ok? ==> |r.value| == |mon|
  {
    match pe
    case Err(e) => Err(e)
    case Ok((name, expo)) =>
      if name == "1" then Ok(mon)
      else if name !in translate then Err(UnknownGenerator(name))
      else Ok(mon[translate[name] := expo])
  }

  /** The parts applied in order; the first error stops. */
  function AssignAll(mon: Monomial, parsed: seq<Parsed>, translate: map<string, nat>): (r: Result<Monomial, MonomialError>)
    requires ValidTranslate(translate, |mon|)
    ensures r.Ok? ==> |r.value| == |mon|
  {
    if parsed == [] then Ok(mon)
    else
      match AssignAll(mon, parsed[..|parsed| - 1], translate)
      case Err(e) => Err(e)
      case Ok(m) => AssignPart(m, parsed[|parsed| - 1], translate)
  }

  lemma AssignAllSnoc(mon: Monomial, parsed: seq<Parsed>, p: Parsed, translate: map<string, nat>)
    requires ValidTranslate(translate, |mon|)
    ensures AssignAll(mon, parsed, translate).Err? ==> AssignAll(mon, parsed + [p], translate) == AssignAll(mon, parsed, translate)
    ensures AssignAll(mon, parsed, translate).Ok? ==>
              AssignAll(mon, parsed + [p], translate) == AssignPart(AssignAll(mon, parsed, translate).value, p, translate)
  {
    assert (parsed + [p])[..|parsed + [p]| - 1] == parsed;
  }

  /** Once a part fails, the whole fold fails with that error. */
  lemma {:induction false} AssignAllErrSticks(mon: Monomial, parsed: seq<Parsed>, i: nat, translate: map<string, nat>)
    requires ValidTranslate(translate, |mon|) && i <= |parsed|
    requires AssignAll(mon, parsed[..i], translate).Err?
    ensures AssignAll(mon, parsed, translate) == AssignAll(mon, parsed[..i], translate)
    decreases |parsed| - i
  {
    if i < |parsed| {
      assert parsed[..i + 1] == parsed[..i] + [parsed[i]];
      AssignAllSnoc(mon, parsed[..i], parsed[i], translate);
      AssignAllErrSticks(mon, parsed, i + 1, translate);
    } else {
      assert parsed[..i] == parsed;
    }
  }

  function Zeros(n: nat): (r: Monomial)
    ensures |r| == n && forall k :: 0 <= k < n ==> r[k] == 0
  {
    seq(n, _ => 0)
  }

  /** One more part of the fold, from the state the earlier parts left. */
  lemma AssignNext(mon0: Monomial, parsed: seq<Parsed>, i: nat, mon: Monomial, translate: map<string, nat>)
    requires ValidTranslate(translate, |mon0|) && i < |parsed|
    requires AssignAll(mon0, parsed[..i], translate) == Ok(mon)
    ensures AssignAll(mon0, parsed[..i + 1], translate) == AssignPart(mon, parsed[i], translate)
    ensures AssignPart(mon, parsed[i], translate).Err? ==> AssignAll(mon0, parsed, translate) == AssignPart(mon, parsed[i], translate)
  {
    assert parsed[..i + 1] == parsed[..i] + [parsed[i]];
    AssignAllSnoc(mon0, parsed[..i], parsed[i], translate);
    if AssignPart(mon, parsed[i], translate).Err? {
      AssignAllErrSticks(mon0, parsed, i + 1, translate);
    }
  }

  /** The monomial "name" stands for, over `size` generators. */
  function MonomialOf(name: string, translate: map<string, nat>, size: nat): (r: Result<Monomial, MonomialError>)
    requires ValidTranslate(translate, size)
    ensures r.Ok? ==> |r.value| == size
  {
    AssignAll(Zeros(size), ParseParts(Text.Split(name, ',')), translate)
  }

  /** `parse_monomial`: start from zeros and set the exponent of every part
      in turn. */
  method ParseMonomial(name: string, translate: map<string, nat>, size: nat) returns (r: Result<Monomial, MonomialError>)
    requires ValidTranslate(translate, size)
    ensures r == MonomialOf(name, translate, size)
  {
    var mon: Monomial := Zeros(size);
    var parts := Text.Split(name, ',');
    ghost var parsed := ParseParts(parts);
    for i := 0 to |parts|
      invariant |mon| == size
      invariant AssignAll(Zeros(size), parsed[..i], translate) == Ok(mon)
    {
      AssignNext(Zeros(size), parsed, i, mon, translate);
      var pe := ParseNameExponent(parts[i]);
      assert pe == parsed[i];
      if pe.Err? {
        return Err(pe.error);
      }
      var (n, expo) := pe.value;
      if n == "1" {
        continue;
      }
      if n !in translate {
        return Err(UnknownGenerator(n));
      }
      mon := mon[translate[n] := expo];
    }
    assert parsed[..|parts|] == parsed;
    return Ok(mon);
  }

  // ---------------------------------------------------------------------
  // monomial_to_string (k_t_parser.rs:796-814)

  /** One generator with a positive exponent: "name", or "name^k" above
      one. */
  function Part(name: string, x: nat): string {
    if x == 1 then name else name + "^" + Text.Digits(x)
  }

  /** The parts for the first i generators. */
  function Parts(m: Monomial, names: seq<string>, i: nat): (ps: seq<string>)
    requires i <= |m| && i <= |names|
    ensures |ps| <= i
  {
    if i == 0 then []
    else Parts(m, names, i - 1) + (if m[i - 1] > 0 then [Part(names[i - 1], m[i - 1])] else [])
  }

  lemma {:induction false} PartsEmpty(m: Monomial, names: seq<string>, i: nat)
    requires i <= |m| && i <= |names|
    ensures Parts(m, names, i) == [] <==> forall k :: 0 <= k < i ==> m[k] == 0
  {
    if i > 0 {
      PartsEmpty(m, names, i - 1);
    }
  }

  /** `monomial_to_string`: the generators with a positive exponent, as
      "name" or "name^k", joined by ','; "1" when there are none. Exponents
      and names are paired up to the shorter of the two lists. */
  function MonomialToString(m: Monomial, names: seq<string>): (s: string)
    ensures (forall k :: 0 <= k < Min(|m|, |names|) ==> m[k] == 0) ==> s == "1"
  {
    var ps := Parts(m, names, Min(|m|, |names|));
    PartsEmpty(m, names, Min(|m|, |names|));
    if ps == [] then "1" else Text.Join(ps, ',')
  }

  /** A name `monomial_to_string` can print and `parse_monomial` read back. */
  predicate GoodName(n: string) {
    && n != [] && n != "1" && ',' !in n && '^' !in n
    && !Text.IsWhitespace(n[0]) && !Text.IsWhitespace(n[|n| - 1])
  }

  /** translate sends each generator's name to its position. */
  ghost predicate NamesFor(names: seq<string>, translate: map<string, nat>) {
    && (forall i :: 0 <= i < |names| ==> names[i] in translate && translate[names[i]] == i)
    && (forall i :: 0 <= i < |names| ==> GoodName(names[i]))
  }

  /** A printed part reads back as its name and exponent. */
  lemma PartParses(n: string, x: nat)
    requires GoodName(n) && 0 < x <= Text.USIZE_MAX
    ensures ParseNameExponent(Part(n, x)) == Ok((n, x))
  {
    Text.TrimUnchanged(n);
    if x == 1 {
      CountAbsent(n, '^');
      NameExponentCases(n);
    } else {
      NameExponentRoundTrip(n, x);
    }
  }

  /** What the parts for the first i generators read back as. */
  function Pairs(m: Monomial, names: seq<string>, i: nat): (ps: seq<Parsed>)
    requires i <= |m| && i <= |names|
  {
    if i == 0 then []
    else Pairs(m, names, i - 1) + (if m[i - 1] > 0 then [Ok((names[i - 1], m[i - 1]))] else [])
  }

  lemma ParsePartsSnoc(ps: seq<string>, p: string)
    ensures ParseParts(ps + [p]) == ParseParts(ps) + [ParseNameExponent(p)]
  {
  }

  lemma PartsParseStep(m: Monomial, names: seq<string>, i: nat)
    requires 0 < i <= |m| && i <= |names| && m[i - 1] > 0
    requires GoodName(names[i - 1]) && m[i - 1] <= Text.USIZE_MAX
    requires ParseParts(Parts(m, names, i - 1)) == Pairs(m, names, i - 1)
    ensures ParseParts(Parts(m, names, i)) == Pairs(m, names, i)
  {
    var p := Part(names[i - 1], m[i - 1]);
    assert Parts(m, names, i) == Parts(m, names, i - 1) + [p];
    PartParses(names[i - 1], m[i - 1]);
    ParsePartsSnoc(Parts(m, names, i - 1), p);
  }

  lemma {:induction false} PartsParse(m: Monomial, names: seq<string>, i: nat)
    requires i <= |m| && i <= |names|
    requires forall k :: 0 <= k < |names| ==> GoodName(names[k])
    requires forall k :: 0 <= k < |m| ==> m[k] <= Text.USIZE_MAX
    ensures ParseParts(Parts(m, names, i)) == Pairs(m, names, i)
  {
    if i > 0 {
      PartsParse(m, names, i - 1);
      if m[i - 1] > 0 {
        PartsParseStep(m, names, i);
      } else {
        assert Parts(m, names, i) == Parts(m, names, i - 1);
      }
    }
  }

  /** m with the exponents from i on set to zero. */
  function Prefix(m: Monomial, i: nat): (r: Monomial)
    ensures |r| == |m|
  {
    seq(|m|, k requires 0 <= k < |m| => if k < i then m[k] else 0)
  }

  lemma PairsAssignStep(m: Monomial, names: seq<string>, translate: map<string, nat>, i: nat)
    requires |m| == |names| && NamesFor(names, translate) && ValidTranslate(translate, |m|)
    requires 0 < i <= |m| && m[i - 1] > 0
    requires AssignAll(Zeros(|m|), Pairs(m, names, i - 1), translate) == Ok(Prefix(m, i - 1))
    ensures AssignAll(Zeros(|m|), Pairs(m, names, i), translate) == Ok(Prefix(m, i))
  {
    var ps := Pairs(m, names, i - 1);
    var p: Parsed := Ok((names[i - 1], m[i - 1]));
    assert Pairs(m, names, i) == ps + [p];
    AssignAllSnoc(Zeros(|m|), ps, p, translate);
    assert GoodName(names[i - 1]);
    assert Prefix(m, i - 1)[i - 1 := m[i - 1]] == Prefix(m, i);
  }

  lemma PairsSkip(m: Monomial, names: seq<string>, i: nat)
    requires 0 < i <= |m| && i <= |names| && m[i - 1] == 0
    ensures Pairs(m, names, i) == Pairs(m, names, i - 1)
    ensures Prefix(m, i - 1) == Prefix(m, i)
  {
  }

  lemma {:induction false} PairsAssign(m: Monomial, names: seq<string>, translate: map<string, nat>, i: nat)
    requires |m| == |names| && NamesFor(names, translate) && ValidTranslate(translate, |m|)
    requires i <= |m|
    ensures AssignAll(Zeros(|m|), Pairs(m, names, i), translate) == Ok(Prefix(m, i))
  {
    if i == 0 {
      assert Prefix(m, 0) == Zeros(|m|);
    } else {
      PairsAssign(m, names, translate, i - 1);
      if m[i - 1] > 0 {
        PairsAssignStep(m, names, translate, i);
      } else {
        PairsSkip(m, names, i);
      }
    }
  }

  lemma NoSeparatorInParts(m: Monomial, names: seq<string>, i: nat)
    requires i <= |m| && i <= |names| && forall k :: 0 <= k < |names| ==> GoodName(names[k])
    ensures forall k :: 0 <= k < |Parts(m, names, i)| ==> ',' !in Parts(m, names, i)[k]
  {
    if i > 0 {
      NoSeparatorInParts(m, names, i - 1);
      if m[i - 1] > 1 {
        NoCaretInDigits(m[i - 1]);
        assert GoodName(names[i - 1]);
      }
    }
  }

  /** "1" reads back as the monomial with every exponent zero. */
  lemma OneParses(translate: map<string, nat>, size: nat)
    requires ValidTranslate(translate, size)
    ensures MonomialOf("1", translate, size) == Ok(Zeros(size))
  {
    assert Text.Split("1", ',') == ["1"];
    Text.TrimUnchanged("1");
    NameExponentCases("1");
    var one: Parsed := Ok(("1", 1));
    assert ParseNameExponent("1") == one;
    assert ParseParts(["1"]) == [] + [one];
    AssignAllSnoc(Zeros(size), [], one, translate);
  }

  lemma JoinedPartsParse(m: Monomial, names: seq<string>, translate: map<string, nat>)
    requires |m| == |names| && NamesFor(names, translate) && ValidTranslate(translate, |m|)
    requires forall k :: 0 <= k < |m| ==> m[k] <= Text.USIZE_MAX
    requires Parts(m, names, |m|) != []
    ensures MonomialOf(Text.Join(Parts(m, names, |m|), ','), translate, |m|) == Ok(m)
  {
    var ps := Parts(m, names, |m|);
    NoSeparatorInParts(m, names, |m|);
    Text.SplitJoin(ps, ',');
    PartsParse(m, names, |m|);
    PairsAssign(m, names, translate, |m|);
    assert Prefix(m, |m|) == m;
  }

  /** Printing a monomial and parsing the text back gives the monomial. */
  lemma ToStringParses(m: Monomial, names: seq<string>, translate: map<string, nat>)
    requires |m| == |names| && NamesFor(names, translate) && ValidTranslate(translate, |m|)
    requires forall k :: 0 <= k < |m| ==> m[k] <= Text.USIZE_MAX
    ensures MonomialOf(MonomialToString(m, names), translate, |m|) == Ok(m)
  {
    PartsEmpty(m, names, |m|);
    if Parts(m, names, |m|) == [] {
      OneParses(translate, |m|);
      assert Zeros(|m|) == m;
    } else {
      JoinedPartsParse(m, names, translate);
    }
  }

  // ---------------------------------------------------------------------
  // Monomial arithmetic (k_t_parser.rs:745-787)

  /** `increment_monomial`. */
  function IncrementMonomial(m: Monomial, index: nat): (r: Monomial)
    requires index < |m|
    ensures |r| == |m| && r[index] == m[index] + 1
    ensures forall k :: 0 <= k < |m| && k != index ==> r[k] == m[k]
  {
    m[index := m[index] + 1]
  }

  /** `add_monomials`: exponents added pairwise (over the shorter length). */
  function AddMonomials(a: Monomial, b: Monomial): (r: Monomial)
    ensures |r| == Min(|a|, |b|)
  {
    seq(Min(|a|, |b|), k requires 0 <= k < Min(|a|, |b|) => a[k] + b[k])
  }

  /** `monomial_is_divisible`: b divides a, exponent by exponent. */
  predicate MonomialIsDivisible(a: Monomial, b: Monomial) {
    forall k :: 0 <= k < Min(|a|, |b|) ==> a[k] >= b[k]
  }

  /** `monomial_divide`: a / b when b divides a. */
  function MonomialDivide(a: Monomial, b: Monomial): (r: Option<Monomial>)
    ensures r.Some? <==> forall k :: 0 <= k < Min(|a|, |b|) ==> a[k] >= b[k]
    ensures r.Some? ==> |r.value| == Min(|a|, |b|) && forall k :: 0 <= k < |r.value| ==> r.value[k] + b[k] == a[k]
  {
    if MonomialIsDivisible(a, b) then Some(seq(Min(|a|, |b|), k requires 0 <= k < Min(|a|, |b|) => a[k] - b[k]))
    else None
  }

  /** Dividing a product by a factor gives the other factor back. */
  lemma DivideProduct(a: Monomial, b: Monomial)
    requires |a| == |b|
    ensures MonomialDivide(AddMonomials(a, b), b) == Some(a)
  {
    var q := MonomialDivide(AddMonomials(a, b), b);
    assert q.Some?;
    assert q.value == a;
  }

  /** The quotient times the divisor is the dividend. */
  lemma DivideThenAdd(a: Monomial, b: Monomial)
    requires |a| == |b| && MonomialDivide(a, b).Some?
    ensures AddMonomials(MonomialDivide(a, b).value, b) == a
  {
  }

  /** `reduce_monomial`: the monomial, unless some relation divides it. */
  function ReduceMonomial<T>(m: Monomial, relations: Relations<T>): (r: Option<Monomial>)
    ensures r.None? <==> exists k :: 0 <= k < |relations| && MonomialIsDivisible(m, relations[k].0)
    ensures r.Some? ==> r.value == m
  {
    if relations == [] then Some(m)
    else if MonomialIsDivisible(m, relations[0].0) then None
    else
      var r := ReduceMonomial(m, relations[1..]);
      assert forall k :: 1 <= k < |relations| ==> relations[k] == relations[1..][k - 1];
      r
  }

  /** `multiply_monomial_by_generator`: one more of generator `index`, then
      reduced. */
  function MultiplyMonomialByGenerator<T>(m: Monomial, index: nat, relations: Relations<T>): (r: Option<Monomial>)
    requires index < |m|
    ensures r.Some? ==> |r.value| == |m| && r.value[index] == m[index] + 1
                        && forall k :: 0 <= k < |m| && k != index ==> r.value[k] == m[k]
    ensures r.None? <==> exists k :: 0 <= k < |relations| && MonomialIsDivisible(IncrementMonomial(m, index), relations[k].0)
  {
    ReduceMonomial(IncrementMonomial(m, index), relations)
  }

  // ---------------------------------------------------------------------
  // monomial_to_grade (k_t_parser.rs:789-794)

  /** What the generic grade needs: zero, `+` and `integer_multiplication`. */
  datatype GradeOps<!G> = GradeOps(zero: G, add: (G, G) -> G, times: (G, Wrapping.I16) -> G)

  const I32_MOD: int := 0x1_0000_0000

  type I32 = x: int | Text.I32_MIN <= x <= Text.I32_MAX

  /** An integer reduced into the i32 range, as a wrapping cast or
      operation does. */
  function Wrap32(x: int): (r: I32)
    ensures Text.I32_MIN <= x <= Text.I32_MAX ==> r == x
  {
    (x - Text.I32_MIN) % I32_MOD + Text.I32_MIN
  }

  lemma Wrap32Shift(x: int, j: int)
    ensures Wrap32(x + j * I32_MOD) == Wrap32(x)
  {
    assert (x + j * I32_MOD) - Text.I32_MIN == (x - Text.I32_MIN) + j * I32_MOD;
  }

  lemma Wrap32Congruent(x: int)
    ensures exists j :: Wrap32(x) == x + j * I32_MOD
  {
    var q := (x - Text.I32_MIN) / I32_MOD;
    assert Wrap32(x) == x + (-q) * I32_MOD;
  }

  /** Wrapping an operand of a sum or a product changes nothing once the
      result is wrapped. */
  lemma Wrap32Inner(a: int, b: int)
    ensures Wrap32(a + Wrap32(b)) == Wrap32(a + b)
    ensures Wrap32(a * Wrap32(b)) == Wrap32(a * b)
  {
    Wrap32Congruent(b);
    var j :| Wrap32(b) == b + j * I32_MOD;
    Wrap32Shift(a + b, j);
    assert a * Wrap32(b) == a * b + (a * j) * I32_MOD;
    Wrap32Shift(a * b, a * j);
  }

  /** The grade of a monomial over its first i generators: the sum of
      generator grade times exponent (cast to i16), with the unigrade the
      i32 sum of unigrade times exponent, both wrapping. */
  function GradeUpTo<G>(ops: GradeOps<G>, m: Monomial, generators: seq<(string, G, I32)>, i: nat): (G, I32)
    requires i <= |m| && i <= |generators|
  {
    if i == 0 then (ops.zero, 0)
    else
      var (g, e) := GradeUpTo(ops, m, generators, i - 1);
      var (_, gg, ge) := generators[i - 1];
      var x := m[i - 1];
      (ops.add(g, ops.times(gg, Wrapping.Wrap(x))), Wrap32(e + Wrap32(ge * Wrap32(x))))
  }

  /** `monomial_to_grade`: over the generators the monomial and the list
      share, the grade sum and the unigrade weight wrapped to i32. */
  function MonomialToGrade<G>(ops: GradeOps<G>, m: Monomial, generators: seq<(string, G, I32)>): (r: (G, I32))
    ensures r.1 == Wrap32(Weight(m, generators, Min(|m|, |generators|)))
  {
    UnigradeIsWeight(ops, m, generators, Min(|m|, |generators|));
    GradeUpTo(ops, m, generators, Min(|m|, |generators|))
  }

  /** The unigrade weight Σ e_k · x_k of the first i generators. */
  function Weight<G>(m: Monomial, generators: seq<(string, G, I32)>, i: nat): int
    requires i <= |m| && i <= |generators|
  {
    if i == 0 then 0 else Weight(m, generators, i - 1) + generators[i - 1].2 * m[i - 1]
  }

  /** The unigrade `monomial_to_grade` computes is the weight of the
      monomial, wrapped to i32: exact whenever the weight fits. */
  lemma {:induction false} UnigradeIsWeight<G>(ops: GradeOps<G>, m: Monomial, generators: seq<(string, G, I32)>, i: nat)
    requires i <= |m| && i <= |generators|
    ensures GradeUpTo(ops, m, generators, i).1 == Wrap32(Weight(m, generators, i))
  {
    if i > 0 {
      UnigradeIsWeight(ops, m, generators, i - 1);
      var e := GradeUpTo(ops, m, generators, i - 1).1;
      var w := Weight(m, generators, i - 1);
      var ge, x := generators[i - 1].2, m[i - 1];
      Wrap32Inner(ge, x);
      Wrap32Inner(e, ge * x);
      Wrap32Inner(ge * x, w);
    }
  }

  // ---------------------------------------------------------------------
  // multiply_monomials and multiply_tensor_terms (k_t_parser.rs:816-851)

  /** The result of multiplying two monomials under the relations: zero, a
      scalar times a reduced monomial, or (past the fuel bound) no answer. */
  datatype Product<T> = Vanishes | Term(coef: UniPol.UniPol<T>, mon: Monomial) | Unresolved

  /** The first relation from k on that divides p. */
  function FirstDivisor<T>(p: Monomial, relations: Relations<T>, k: nat): (r: Option<nat>)
    requires k <= |relations|
    ensures r.Some? ==> k <= r.value < |relations| && MonomialIsDivisible(p, relations[r.value].0)
    ensures r.None? ==> forall j :: k <= j < |relations| ==> !MonomialIsDivisible(p, relations[j].0)
    decreases |relations| - k
  {
    if k == |relations| then None
    else if MonomialIsDivisible(p, relations[k].0) then Some(k)
    else FirstDivisor(p, relations, k + 1)
  }

  /** `multiply_monomials`: add the exponents; if a relation divides the
      product, it is zero or is rewritten to the relation's scalar times the
      quotient times the relation's monomial, multiplied again; otherwise
      the product itself with coefficient one. The Rust recursion need not
      stop; `fuel` bounds it here. */
  function MultiplyMonomials<T>(F: Ring<T>, a: Monomial, b: Monomial, relations: Relations<T>, fuel: nat): (r: Product<T>)
    ensures r.Term? ==> ReduceMonomial(r.mon, relations).Some?
    ensures relations == [] ==> r == Term(UniPol.One(F), AddMonomials(a, b))
    decreases fuel
  {
    var product := AddMonomials(a, b);
    match FirstDivisor(product, relations, 0)
    case None => Term(UniPol.One(F), product)
    case Some(k) =>
      var q := MonomialDivide(product, relations[k].0).value;
      match relations[k].1
      case Zero => Vanishes
      case Equal(c, items) =>
        if fuel == 0 then Unresolved
        else
          match MultiplyMonomials(F, q, items, relations, fuel - 1)
          case Term(d, mon) => Term(UniPol.Mul(F, d, c), mon)
          case other => other
  }

  /** A tensor term: (left monomial, right monomial) with a coefficient. */
  type TensorTerm<T> = ((Monomial, Monomial), UniPol.UniPol<T>)

  datatype TensorProduct<T> = TVanishes | TTerm(term: TensorTerm<T>) | TUnresolved

  /** `multiply_tensor_terms`: multiply the left monomials, then the right
      ones; zero if either vanishes; the coefficient is the product of the
      four scalars. */
  function MultiplyTensorTerms<T>(F: Ring<T>, x: TensorTerm<T>, y: TensorTerm<T>, relations: Relations<T>, fuel: nat): (r: TensorProduct<T>)
    ensures r.TTerm? ==> ReduceMonomial(r.term.0.0, relations).Some? && ReduceMonomial(r.term.0.1, relations).Some?
    ensures relations == [] ==> r.TTerm? && r.term.0 == (AddMonomials(x.0.0, y.0.0), AddMonomials(x.0.1, y.0.1))
  {
    match MultiplyMonomials(F, x.0.0, y.0.0, relations, fuel)
    case Vanishes => TVanishes
    case Unresolved => TUnresolved
    case Term(lc, lp) =>
      match MultiplyMonomials(F, x.0.1, y.0.1, relations, fuel)
      case Vanishes => TVanishes
      case Unresolved => TUnresolved
      case Term(rc, rp) =>
        TTerm(((lp, rp), UniPol.Mul(F, UniPol.Mul(F, UniPol.Mul(F, x.1, y.1), lc), rc)))
  }

  // ---------------------------------------------------------------------
  // multiply_coaction_elements (k_t_parser.rs:853-874)

  type HelperTensor<T> = map<(Monomial, Monomial), UniPol.UniPol<T>>

  /** A key of the left factor paired with a key of the right one. */
  type KeyPair = ((Monomial, Monomial), (Monomial, Monomial))

  /** Why a product of coaction elements has no answer: a sum of two terms
      of different degree (a Rust panic), or a product past the fuel
      bound. */
  datatype MulFailure = Panicked | OutOfFuel

  /** Every key is a pair of reduced monomials. */
  ghost predicate ReducedKeys<T>(t: HelperTensor<T>, relations: Relations<T>) {
    forall lr :: lr in t ==> ReduceMonomial(lr.0, relations).Some? && ReduceMonomial(lr.1, relations).Some?
  }

  /** Adding one product term into the result: `and_modify(+=)` or
      `or_insert`. */
  function Accumulate<T>(F: Ring<T>, result: HelperTensor<T>, term: TensorTerm<T>): Option<HelperTensor<T>> {
    if term.0 in result then
      match UniPol.Add(F, result[term.0], term.1)
      case None => None
      case Some(s) => Some(result[term.0 := s])
    else Some(result[term.0 := term.1])
  }

  /** Every pair in `order` pairs a key of a with a key of b. */
  predicate PairsIn<T>(order: seq<KeyPair>, a: HelperTensor<T>, b: HelperTensor<T>) {
    forall i :: 0 <= i < |order| ==> order[i].0 in a && order[i].1 in b
  }

  /** No pair occurs twice in `order`. */
  predicate Distinct(order: seq<KeyPair>) {
    forall i, j :: 0 <= i < j < |order| ==> order[i] != order[j]
  }

  /** Every key of a paired with every key of b occurs in `order`. */
  ghost predicate Covers<T>(order: seq<KeyPair>, a: HelperTensor<T>, b: HelperTensor<T>) {
    forall x, y :: x in a && y in b ==> (x, y) in order
  }

  /** The products of the terms the pairs of `order` name, in that order. */
  function Products<T>(F: Ring<T>, a: HelperTensor<T>, b: HelperTensor<T>, relations: Relations<T>, fuel: nat, order: seq<KeyPair>): (ps: seq<TensorProduct<T>>)
    requires PairsIn(order, a, b)
    ensures |ps| == |order|
  {
    if order == [] then []
    else
      var xy := order[|order| - 1];
      Products(F, a, b, relations, fuel, order[..|order| - 1]) +
      [MultiplyTensorTerms(F, (xy.0, a[xy.0]), (xy.1, b[xy.1]), relations, fuel)]
  }

  /** The running sum over the products `ps` in turn; the first unresolved
      product or panicking addition stops it. */
  function Collect<T>(F: Ring<T>, ps: seq<TensorProduct<T>>): Result<HelperTensor<T>, MulFailure> {
    if ps == [] then Ok(map[])
    else
      match Collect(F, ps[..|ps| - 1])
      case Err(e) => Err(e)
      case Ok(acc) =>
        match ps[|ps| - 1]
        case TVanishes => Ok(acc)
        case TUnresolved => Err(OutOfFuel)
        case TTerm(t) =>
          match Accumulate(F, acc, t)
          case None => Err(Panicked)
          case Some(next) => Ok(next)
  }

  /** The coefficients of the products in `ps` that land on the key lr, in
      that order. */
  function KeyCoefs<T>(ps: seq<TensorProduct<T>>, lr: (Monomial, Monomial)): seq<UniPol.UniPol<T>> {
    if ps == [] then []
    else
      var rest := KeyCoefs(ps[..|ps| - 1], lr);
      var p := ps[|ps| - 1];
      if p.TTerm? && p.term.0 == lr then rest + [p.term.1] else rest
  }

  /** Terms added up with `+=` from the first one on; `None` where an
      addition panics. */
  function AddAll<T>(F: Ring<T>, s: seq<UniPol.UniPol<T>>): Option<UniPol.UniPol<T>>
    requires |s| > 0
  {
    if |s| == 1 then Some(s[0])
    else
      match AddAll(F, s[..|s| - 1])
      case None => None
      case Some(acc) => UniPol.Add(F, acc, s[|s| - 1])
  }

  /** The field sum of the coefficients of t^j in `s`, from the first term
      on. */
  function CoefFold<T>(F: Ring<T>, s: seq<UniPol.UniPol<T>>, j: int): T
    requires |s| > 0
  {
    if |s| == 1 then UniPol.Coef(F, s[0], j)
    else F.add(CoefFold(F, s[..|s| - 1], j), UniPol.Coef(F, s[|s| - 1], j))
  }

  /** No product in `ps` is unresolved. */
  predicate Resolved<T>(ps: seq<TensorProduct<T>>) {
    forall i :: 0 <= i < |ps| ==> !ps[i].TUnresolved?
  }

  /** No key's sum panics. */
  ghost predicate KeysAdd<T>(F: Ring<T>, ps: seq<TensorProduct<T>>) {
    forall lr :: |KeyCoefs(ps, lr)| > 0 ==> AddAll(F, KeyCoefs(ps, lr)).Some?
  }

  /** A key has coefficients exactly when some product lands on it. */
  lemma {:induction false} KeyCoefsNonEmpty<T>(ps: seq<TensorProduct<T>>, lr: (Monomial, Monomial))
    ensures |KeyCoefs(ps, lr)| > 0 <==> exists i :: 0 <= i < |ps| && ps[i].TTerm? && ps[i].term.0 == lr
  {
    if ps != [] {
      var init := ps[..|ps| - 1];
      KeyCoefsNonEmpty(init, lr);
      assert forall i :: 0 <= i < |init| ==> init[i] == ps[i];
    }
  }

  /** Adding one more term to a sum extends it by one addition. */
  lemma AddAllSnoc<T>(F: Ring<T>, s: seq<UniPol.UniPol<T>>, c: UniPol.UniPol<T>)
    requires |s| > 0
    ensures AddAll(F, s + [c]) == if AddAll(F, s).None? then None else UniPol.Add(F, AddAll(F, s).value, c)
  {
    assert (s + [c])[..|s|] == s;
  }

  /** A stopped sum stays stopped: a product past the fuel bound, or a key
      whose sum panics, stays in any longer list. */
  lemma CollectErrStep<T>(F: Ring<T>, ps: seq<TensorProduct<T>>)
    requires ps != []
    requires !Resolved(ps[..|ps| - 1]) || !KeysAdd(F, ps[..|ps| - 1])
    ensures !Resolved(ps) || !KeysAdd(F, ps)
  {
    var init := ps[..|ps| - 1];
    if !Resolved(init) {
      var i :| 0 <= i < |init| && init[i].TUnresolved?;
      assert ps[i] == init[i];
    } else {
      var lr :| |KeyCoefs(init, lr)| > 0 && AddAll(F, KeyCoefs(init, lr)).None?;
      var p := ps[|ps| - 1];
      if p.TTerm? && p.term.0 == lr {
        AddAllSnoc(F, KeyCoefs(init, lr), p.term.1);
      }
      assert AddAll(F, KeyCoefs(ps, lr)).None?;
    }
  }

  /** `acc` holds, for each key some product in `ps` lands on, the sum of
      those products' coefficients, and no other key. */
  ghost predicate Tracks<T>(F: Ring<T>, ps: seq<TensorProduct<T>>, acc: HelperTensor<T>) {
    && (forall lr :: lr in acc <==> |KeyCoefs(ps, lr)| > 0)
    && (forall lr :: lr in acc ==> |KeyCoefs(ps, lr)| > 0 && AddAll(F, KeyCoefs(ps, lr)) == Some(acc[lr]))
  }

  /** The sum over `ps`, key by key: it stops exactly when a product is
      unresolved or some key's sum panics; otherwise its keys are those some
      product lands on, each holding the sum of those products'
      coefficients. */
  lemma {:induction false} CollectMeans<T>(F: Ring<T>, ps: seq<TensorProduct<T>>)
    ensures Collect(F, ps).Ok? <==> Resolved(ps) && KeysAdd(F, ps)
    ensures Collect(F, ps) == Err(OutOfFuel) ==> !Resolved(ps)
    ensures Collect(F, ps).Ok? ==> Tracks(F, ps, Collect(F, ps).value)
  {
    if ps != [] {
      var init := ps[..|ps| - 1];
      CollectMeans(F, init);
      match Collect(F, init)
      case Err(e) =>
        CollectErrStep(F, ps);
        if e == OutOfFuel {
          var i :| 0 <= i < |init| && init[i].TUnresolved?;
          assert ps[i] == init[i];
        }
      case Ok(acc) =>
        var n := |ps| - 1;
        assert forall i :: 0 <= i < n ==> ps[i] == init[i];
        match ps[n]
        case TVanishes =>
          StepVanishes(F, ps, acc);
        case TUnresolved =>
        case TTerm(t) =>
          if t.0 in acc {
            StepAdd(F, ps, acc, t);
          } else {
            StepInsert(F, ps, acc, t);
          }
    }
  }

  /** A vanishing product changes nothing. */
  lemma StepVanishes<T>(F: Ring<T>, ps: seq<TensorProduct<T>>, acc: HelperTensor<T>)
    requires ps != [] && ps[|ps| - 1].TVanishes?
    requires KeysAdd(F, ps[..|ps| - 1]) && Tracks(F, ps[..|ps| - 1], acc)
    ensures KeysAdd(F, ps) && Tracks(F, ps, acc)
  {
    assert forall lr :: KeyCoefs(ps, lr) == KeyCoefs(ps[..|ps| - 1], lr);
  }

  /** A product on a key not seen yet is inserted as it is. */
  lemma StepInsert<T>(F: Ring<T>, ps: seq<TensorProduct<T>>, acc: HelperTensor<T>, t: TensorTerm<T>)
    requires ps != [] && ps[|ps| - 1] == TTerm(t) && t.0 !in acc
    requires KeysAdd(F, ps[..|ps| - 1]) && Tracks(F, ps[..|ps| - 1], acc)
    ensures KeysAdd(F, ps) && Tracks(F, ps, acc[t.0 := t.1])
  {
    var init := ps[..|ps| - 1];
    assert KeyCoefs(init, t.0) == [];
    assert KeyCoefs(ps, t.0) == [t.1];
    assert forall lr :: lr != t.0 ==> KeyCoefs(ps, lr) == KeyCoefs(init, lr);
  }

  /** A product on a key seen before is added to its sum; the sum panics
      exactly when that addition does. */
  lemma StepAdd<T>(F: Ring<T>, ps: seq<TensorProduct<T>>, acc: HelperTensor<T>, t: TensorTerm<T>)
    requires ps != [] && ps[|ps| - 1] == TTerm(t) && t.0 in acc
    requires KeysAdd(F, ps[..|ps| - 1]) && Tracks(F, ps[..|ps| - 1], acc)
    ensures UniPol.Add(F, acc[t.0], t.1).None? ==> !KeysAdd(F, ps)
    ensures UniPol.Add(F, acc[t.0], t.1).Some? ==>
              KeysAdd(F, ps) && Tracks(F, ps, acc[t.0 := UniPol.Add(F, acc[t.0], t.1).value])
  {
    var init := ps[..|ps| - 1];
    var ks := KeyCoefs(init, t.0);
    assert KeyCoefs(ps, t.0) == ks + [t.1];
    AddAllSnoc(F, ks, t.1);
    assert AddAll(F, KeyCoefs(ps, t.0)) == UniPol.Add(F, acc[t.0], t.1);
    assert forall lr :: lr != t.0 ==> KeyCoefs(ps, lr) == KeyCoefs(init, lr);
  }

  /** Where the sum does not panic it is the polynomial sum of the terms:
      the coefficient of each power is the field sum of the terms'
      coefficients of that power. */
  lemma {:induction false} AddAllIsPolynomialSum<T(!new)>(F: Ring<T>, s: seq<UniPol.UniPol<T>>)
    requires IsCRing(F) && |s| > 0 && forall i :: 0 <= i < |s| ==> UniPol.Valid(F, s[i])
    ensures AddAll(F, s).Some? ==>
              (UniPol.Valid(F, AddAll(F, s).value) &&
               forall j :: UniPol.Coef(F, AddAll(F, s).value, j) == CoefFold(F, s, j))
  {
    if |s| > 1 {
      var init := s[..|s| - 1];
      AddAllIsPolynomialSum(F, init);
      if AddAll(F, init).Some? {
        UniPol.AddIsPolynomialSum(F, AddAll(F, init).value, s[|s| - 1]);
      }
    }
  }

  /** `multiply_coaction_elements`: the product of every term of a with
      every term of b, summed by key, with the zero sums removed. The
      hash-map iteration order is an arbitrary choice here; `order` is the
      order of the pairs visited. */
  method MultiplyCoactionElements<T>(F: Ring<T>, a: HelperTensor<T>, b: HelperTensor<T>, relations: Relations<T>, fuel: nat)
    returns (r: Result<HelperTensor<T>, MulFailure>, ghost order: seq<KeyPair>)
    ensures PairsIn(order, a, b) && Distinct(order)
    ensures r.Ok? ==> Covers(order, a, b)
    ensures var ps := Products(F, a, b, relations, fuel, order);
            r.Ok? <==> Resolved(ps) && KeysAdd(F, ps)
    ensures r == Err(OutOfFuel) ==> !Resolved(Products(F, a, b, relations, fuel, order))
    ensures var ps := Products(F, a, b, relations, fuel, order);
            r.Ok? ==> forall lr ::
              lr in r.value <==> |KeyCoefs(ps, lr)| > 0 && AddAll(F, KeyCoefs(ps, lr)).Some? &&
                                 !UniPol.IsZero(F, AddAll(F, KeyCoefs(ps, lr)).value)
    ensures var ps := Products(F, a, b, relations, fuel, order);
            r.Ok? ==> forall lr :: lr in r.value ==>
              |KeyCoefs(ps, lr)| > 0 && AddAll(F, KeyCoefs(ps, lr)) == Some(r.value[lr])
    ensures r.Ok? ==> ReducedKeys(r.value, relations)
  {
    var result: HelperTensor<T> := map[];
    order := [];
    var xs := a.Keys;
    while xs != {}
      invariant xs <= a.Keys
      invariant PairsIn(order, a, b) && Distinct(order)
      invariant forall i :: 0 <= i < |order| ==> order[i].0 !in xs
      invariant forall x, y :: x in a && x !in xs && y in b ==> (x, y) in order
      invariant SumSoFar(F, a, b, relations, fuel, order, result)
      invariant ReducedKeys(result, relations)
      decreases |xs|
    {
      var x :| x in xs;
      xs := xs - {x};
      var failure;
      failure, result, order := MultiplyRow(F, a, b, relations, fuel, x, xs, result, order);
      if failure.Some? {
        CollectMeans(F, Products(F, a, b, relations, fuel, order));
        return Err(failure.value), order;
      }
    }
    CollectMeans(F, Products(F, a, b, relations, fuel, order));
    result := map lr | lr in result && !UniPol.IsZero(F, result[lr]) :: result[lr];
    return Ok(result), order;
  }

  /** The sum over the pairs of `order` has not stopped and is `result`. */
  ghost predicate SumSoFar<T>(F: Ring<T>, a: HelperTensor<T>, b: HelperTensor<T>, relations: Relations<T>, fuel: nat,
                              order: seq<KeyPair>, result: HelperTensor<T>)
    requires PairsIn(order, a, b)
  {
    Collect(F, Products(F, a, b, relations, fuel, order)) == Ok(result)
  }

  /** The inner loop of `multiply_coaction_elements`: the term of a at x
      times every term of b, added into `result`; `order` grows by the pairs
      visited. On a failure the sum so far is that failure. */
  method MultiplyRow<T>(F: Ring<T>, a: HelperTensor<T>, b: HelperTensor<T>, relations: Relations<T>, fuel: nat,
                        x: (Monomial, Monomial), xs: set<(Monomial, Monomial)>, result: HelperTensor<T>, ghost order: seq<KeyPair>)
    returns (failure: Option<MulFailure>, result': HelperTensor<T>, ghost order': seq<KeyPair>)
    requires x in a && x !in xs
    requires PairsIn(order, a, b) && Distinct(order)
    requires forall i :: 0 <= i < |order| ==> order[i].0 !in xs && order[i].0 != x
    requires forall x', y :: x' in a && x' !in xs && x' != x && y in b ==> (x', y) in order
    requires SumSoFar(F, a, b, relations, fuel, order, result)
    requires ReducedKeys(result, relations)
    ensures PairsIn(order', a, b) && Distinct(order')
    ensures failure.Some? ==> Collect(F, Products(F, a, b, relations, fuel, order')) == Err(failure.value)
    ensures failure.None? ==> SumSoFar(F, a, b, relations, fuel, order', result')
    ensures failure.None? ==> ReducedKeys(result', relations)
    ensures failure.None? ==> forall i :: 0 <= i < |order'| ==> order'[i].0 !in xs
    ensures failure.None? ==> forall x', y :: x' in a && x' !in xs && y in b ==> (x', y) in order'
  {
    result', order' := result, order;
    var ys := b.Keys;
    while ys != {}
      invariant ys <= b.Keys
      invariant PairsIn(order', a, b) && Distinct(order')
      invariant forall i :: 0 <= i < |order'| ==> order'[i].0 !in xs && (order'[i].0 == x ==> order'[i].1 !in ys)
      invariant forall x', y :: x' in a && x' !in xs && x' != x && y in b ==> (x', y) in order'
      invariant forall y :: y in b && y !in ys ==> (x, y) in order'
      invariant SumSoFar(F, a, b, relations, fuel, order', result')
      invariant ReducedKeys(result', relations)
      decreases |ys|
    {
      var y :| y in ys;
      failure, result' := VisitPair(F, a, b, relations, fuel, (x, y), result', order');
      AppendPair(order', a, b, x, y, xs, ys);
      ys := ys - {y};
      order' := order' + [(x, y)];
      if failure.Some? {
        return failure, result', order';
      }
    }
    return None, result', order';
  }

  /** Visiting the pair (x, y) keeps the pairs distinct and records that y
      is done. */
  lemma AppendPair<T>(order: seq<KeyPair>, a: HelperTensor<T>, b: HelperTensor<T>, x: (Monomial, Monomial), y: (Monomial, Monomial),
                      xs: set<(Monomial, Monomial)>, ys: set<(Monomial, Monomial)>)
    requires x in a && x !in xs && y in b && y in ys
    requires PairsIn(order, a, b) && Distinct(order)
    requires forall i :: 0 <= i < |order| ==> order[i].0 !in xs && (order[i].0 == x ==> order[i].1 !in ys)
    requires forall x', y' :: x' in a && x' !in xs && x' != x && y' in b ==> (x', y') in order
    requires forall y' :: y' in b && y' !in ys ==> (x, y') in order
    ensures PairsIn(order + [(x, y)], a, b) && Distinct(order + [(x, y)])
    ensures forall i :: 0 <= i < |order + [(x, y)]| ==>
              (order + [(x, y)])[i].0 !in xs && ((order + [(x, y)])[i].0 == x ==> (order + [(x, y)])[i].1 !in ys - {y})
    ensures forall x', y' :: x' in a && x' !in xs && x' != x && y' in b ==> (x', y') in order + [(x, y)]
    ensures forall y' :: y' in b && y' !in ys - {y} ==> (x, y') in order + [(x, y)]
  {
    var o := order + [(x, y)];
    forall i, j | 0 <= i < j < |o| ensures o[i] != o[j] {
      if j == |order| {
        assert o[i] == order[i];
      }
    }
  }

  /** One pass of the inner loop: the product of the terms at xy, added into
      `result`. */
  method VisitPair<T>(F: Ring<T>, a: HelperTensor<T>, b: HelperTensor<T>, relations: Relations<T>, fuel: nat,
                      xy: KeyPair, result: HelperTensor<T>, ghost order: seq<KeyPair>)
    returns (failure: Option<MulFailure>, result': HelperTensor<T>)
    requires xy.0 in a && xy.1 in b && PairsIn(order, a, b)
    requires SumSoFar(F, a, b, relations, fuel, order, result)
    requires ReducedKeys(result, relations)
    ensures PairsIn(order + [xy], a, b)
    ensures failure.Some? ==> Collect(F, Products(F, a, b, relations, fuel, order + [xy])) == Err(failure.value)
    ensures failure.None? ==> SumSoFar(F, a, b, relations, fuel, order + [xy], result')
    ensures failure.None? ==> ReducedKeys(result', relations)
  {
    var (x, y) := xy;
    var p := MultiplyTensorTerms(F, (x, a[x]), (y, b[y]), relations, fuel);
    ghost var after := order + [xy];
    assert after[..|after| - 1] == order;
    assert Products(F, a, b, relations, fuel, after) == Products(F, a, b, relations, fuel, order) + [p];
    result' := result;
    match p {
      case TVanishes =>
        failure := None;
      case TUnresolved =>
        failure := Some(OutOfFuel);
      case TTerm(term) =>
        var next := Accumulate(F, result, term);
        if next.None? {
          failure := Some(Panicked);
        } else {
          failure := None;
          result' := next.value;
        }
    }
  }
}
