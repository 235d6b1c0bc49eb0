/** The direct coalgebra format read by `parse_direct` in
    src/k_t_comodule/k_t_parser.rs: a "- FIELD" section with the
    characteristic, a "- BASIS" section of "name: grade,unigrade" lines and
    a "- COACTION" section of "name: s.l|r + ..." lines, in that order.
    This module is the line-by-line pass that collects the three sections;
    KtParserBasis checks what they say. */
module KtParserSections {
  import opened Wrappers
  import Text
  import UniGradings

  const FIELD: string := "- FIELD"
  const BASIS: string := "- BASIS"
  const COACTION: string := "- COACTION"

  predicate IsPrefix(p: string, s: string) {
    |p| <= |s| && s[..|p|] == p
  }

  // ---------------------------------------------------------------------
  // parse (k_t_parser.rs:40-56)

  /** `str::contains`. */
  predicate Contains(s: string, pat: string)
    decreases |s|
  {
    IsPrefix(pat, s) || (s != [] && Contains(s[1..], pat))
  }

  /** `pat` occurs in `s` starting at index i. */
  predicate OccursAt(s: string, pat: string, i: nat) {
    i + |pat| <= |s| && s[i..i + |pat|] == pat
  }

  /** The recursive search finds exactly the occurrences at some index. */
  lemma {:induction false} ContainsIff(s: string, pat: string)
    ensures Contains(s, pat) <==> exists i: nat :: OccursAt(s, pat, i)
    decreases |s|
  {
    if s != [] {
      ContainsIff(s[1..], pat);
    }
    if Contains(s, pat) {
      if IsPrefix(pat, s) {
        assert OccursAt(s, pat, 0);
      } else {
        var j: nat :| OccursAt(s[1..], pat, j);
        assert s[j + 1..j + 1 + |pat|] == s[1..][j..j + |pat|];
        assert OccursAt(s, pat, j + 1);
      }
    }
    if i: nat :| OccursAt(s, pat, i) {
      if i == 0 {
        assert IsPrefix(pat, s);
      } else {
        assert s[1..][i - 1..i - 1 + |pat|] == s[i..i + |pat|];
        assert OccursAt(s[1..], pat, i - 1);
      }
    }
  }

  /** Which reader `parse` hands the input to. */
  datatype Dialect = Direct | PolynomialHopfAlgebra

  /** `parse`: the direct format when the input mentions a BASIS header
      anywhere, the polynomial Hopf algebra format otherwise. */
  function DialectOf(input: string): (r: Dialect)
    ensures r == Direct <==> exists i: nat :: OccursAt(input, BASIS, i)
  {
    ContainsIff(input, BASIS);
    if Contains(input, BASIS) then Direct else PolynomialHopfAlgebra
  }

  // ---------------------------------------------------------------------
  // Lines

  /** `str::lines`: the pieces between the '\n's, without the empty piece
      after a final '\n'. The '\r' of a "\r\n" ending stays on its piece;
      every line is trimmed before use, which removes it. */
  function Lines(input: string): seq<string> {
    var ps := Text.Split(input, '\n');
    if ps[|ps| - 1] == [] then ps[..|ps| - 1] else ps
  }

  /** Every line trimmed, as the loop trims each one before use. */
  function TrimmedLines(input: string): seq<string> {
    var ls := Lines(input);
    seq(|ls|, k requires 0 <= k < |ls| => Text.Trim(ls[k]))
  }

  // ---------------------------------------------------------------------
  // The section machine (k_t_parser.rs:57-190)

  /** The `State` of `parse_direct`: the last header seen. */
  datatype Section = NoSection | FieldSection | BasisSection | CoactionSection

  /** Every way `parse_direct` rejects its input, with the 1-based line
      number where a line is to blame. */
  datatype ParseError =
    | FieldNotFirst(line: nat)
    | FieldExpected(line: nat)
    | BasisExpected(line: nat)
    | FieldTwice(line: nat)
    | InvalidField(line: nat)
    | WrongCharacteristic(line: nat)
    | InvalidBasis(line: nat)
    | InvalidBasisGrades(line: nat)
    | InvalidGrade(line: nat)
    | InvalidUnigrade(line: nat)
    | InvalidCoaction(line: nat)
    | InvalidTensor(line: nat)
    | UnexpectedState(line: nat)
    | MissingSections
    | DuplicateBasis(name: string)
    | UnknownBasis(name: string)
    | InvalidScalar(name: string)
    | UnknownLeft(name: string)
    | UnknownRight(name: string)
    | NotHomogeneous(name: string)

  /** What the generic grade type offers the parser: `G::parse` and `+`. */
  datatype GradeSyntax<!G> = GradeSyntax(parse: string -> Option<G>, add: (G, G) -> G)

  /** A basis line: name, grade and unigrade (an `i16` widened to `i32`). */
  datatype BasisEntry<G> = BasisEntry(name: string, grade: G, unigrade: int)

  /** One tensor of a coaction line: scalar, left and right basis names. */
  datatype Term = Term(scalar: string, left: string, right: string)

  /** A coaction line: the basis element and its tensors. */
  datatype CoactionLine = CoactionLine(name: string, terms: seq<Term>)

  /** The variables of the loop: `state`, `field`, `basis`, `coaction_lut`. */
  datatype Machine<G> = Machine(state: Section, field: Option<int>, basis: seq<BasisEntry<G>>, lut: seq<CoactionLine>)

  /** `field as usize` for an `i32` on a 64-bit target: sign extension, so
      a negative value becomes a huge one. */
  function I32AsUsize(v: int): nat
    requires Text.I32_MIN <= v <= Text.I32_MAX
  {
    if v < 0 then v + 0x1_0000_0000_0000_0000 else v
  }

  /** A line of the FIELD section: an `i32` whose cast to `usize` is the
      characteristic p of the field. */
  function FieldValue(line: string, num: nat, p: nat): (r: Result<int, ParseError>)
    ensures r.Ok? ==> Text.I32_MIN <= r.value <= Text.I32_MAX && I32AsUsize(r.value) == p
  {
    match Text.ParseInt(line, Text.I32_MIN, Text.I32_MAX)
    case Err(_) => Err(InvalidField(num))
    case Ok(v) => if I32AsUsize(v) != p then Err(WrongCharacteristic(num)) else Ok(v)
  }

  /** A line of the BASIS section: "name:grade,unigrade", each part
      trimmed. */
  function BasisEntryOf<G>(gs: GradeSyntax<G>, line: string, num: nat): Result<BasisEntry<G>, ParseError> {
    match Text.SplitOnce(line, ':')
    case None => Err(InvalidBasis(num))
    case Some((name, both)) =>
      match Text.SplitOnce(both, ',')
      case None => Err(InvalidBasisGrades(num))
      case Some((grade, uni)) =>
        match gs.parse(Text.Trim(grade))
        case None => Err(InvalidGrade(num))
        case Some(g) =>
          match UniGradings.Parse(Text.Trim(uni))
          case Err(_) => Err(InvalidUnigrade(num))
          case Ok(u) => Ok(BasisEntry(Text.Trim(name), g, u.t))
  }

  /** One '+'-separated tensor: "s.l|r", or "l|r" with scalar "1". */
  function TermOf(t0: string, num: nat): Result<Term, ParseError> {
    var t := Text.Trim(t0);
    var (s, rest) := match Text.SplitOnce(t, '.') case Some((s, r)) => (s, r) case None => ("1", t);
    match Text.SplitOnce(rest, '|')
    case None => Err(InvalidTensor(num))
    case Some((l, r)) => Ok(Term(Text.Trim(s), Text.Trim(l), Text.Trim(r)))
  }

  /** The tensors in order; the first bad one is the error. */
  function TermsOf(ts: seq<string>, num: nat): (r: Result<seq<Term>, ParseError>)
    ensures r.Ok? ==> |r.value| == |ts|
  {
    if ts == [] then Ok([])
    else
      match TermOf(ts[0], num)
      case Err(e) => Err(e)
      case Ok(t) =>
        match TermsOf(ts[1..], num)
        case Err(e) => Err(e)
        case Ok(rest) => Ok([t] + rest)
  }

  /** A line of the COACTION section: "name:tensors". */
  function CoactionLineOf(line: string, num: nat): (r: Result<CoactionLine, ParseError>)
    ensures r.Ok? ==> |r.value.terms| >= 1
  {
    match Text.SplitOnce(line, ':')
    case None => Err(InvalidCoaction(num))
    case Some((name, tensors)) =>
      match TermsOf(Text.Split(tensors, '+'), num)
      case Err(e) => Err(e)
      case Ok(ts) => Ok(CoactionLine(Text.Trim(name), ts))
  }

  /** Blank lines and comments are skipped. */
  predicate Skipped(line: string) {
    line == [] || line[0] == '#'
  }

  /** The header a trimmed line is, if any; FIELD is tried first, then
      BASIS, then COACTION. */
  function HeaderOf(line: string): Option<Section> {
    if IsPrefix(FIELD, line) then Some(FieldSection)
    else if IsPrefix(BASIS, line) then Some(BasisSection)
    else if IsPrefix(COACTION, line) then Some(CoactionSection)
    else None
  }

  /** What a content line does in the current section. */
  function ContentStep<G>(gs: GradeSyntax<G>, p: nat, m: Machine<G>, line: string, num: nat): Result<Machine<G>, ParseError> {
    match m.state
    case FieldSection =>
      if m.field.Some? then Err(FieldTwice(num))
      else (match FieldValue(line, num, p) case Err(e) => Err(e) case Ok(v) => Ok(m.(field := Some(v))))
    case BasisSection =>
      (match BasisEntryOf(gs, line, num) case Err(e) => Err(e) case Ok(b) => Ok(m.(basis := m.basis + [b])))
    case CoactionSection =>
      (match CoactionLineOf(line, num) case Err(e) => Err(e) case Ok(c) => Ok(m.(lut := m.lut + [c])))
    case NoSection => Err(UnexpectedState(num))
  }

  /** The state a header needs before it, and the error when it is not. */
  function HeaderStep<G>(m: Machine<G>, h: Section, num: nat): Result<Machine<G>, ParseError> {
    match h
    case FieldSection => if m.state != NoSection then Err(FieldNotFirst(num)) else Ok(m.(state := FieldSection))
    case BasisSection => if m.state != FieldSection then Err(FieldExpected(num)) else Ok(m.(state := BasisSection))
    case CoactionSection => if m.state != BasisSection then Err(BasisExpected(num)) else Ok(m.(state := CoactionSection))
    case NoSection => Ok(m)
  }

  /** One trimmed input line, numbered from 1. */
  function Step<G>(gs: GradeSyntax<G>, p: nat, m: Machine<G>, line: string, num: nat): Result<Machine<G>, ParseError> {
    if Skipped(line) then Ok(m)
    else
      match HeaderOf(line)
      case Some(h) => HeaderStep(m, h, num)
      case None => ContentStep(gs, p, m, line, num)
  }

  /** The loop over the first k trimmed lines; the first error stops it. */
  function Run<G>(gs: GradeSyntax<G>, p: nat, lines: seq<string>, k: nat): Result<Machine<G>, ParseError>
    requires k <= |lines|
  {
    if k == 0 then Ok(Machine(NoSection, None, [], []))
    else
      match Run(gs, p, lines, k - 1)
      case Err(e) => Err(e)
      case Ok(m) => Step(gs, p, m, lines[k - 1], k)
  }

  /** The whole pass: every line, then all three sections present. */
  function Sections<G>(gs: GradeSyntax<G>, p: nat, input: string): Result<Machine<G>, ParseError> {
    var lines := TrimmedLines(input);
    match Run(gs, p, lines, |lines|)
    case Err(e) => Err(e)
    case Ok(m) => if m.state != CoactionSection then Err(MissingSections) else Ok(m)
  }

  lemma {:induction false} RunErrSticks<G>(gs: GradeSyntax<G>, p: nat, lines: seq<string>, k: nat, n: nat)
    requires k <= n <= |lines| && Run(gs, p, lines, k).Err?
    ensures Run(gs, p, lines, n) == Run(gs, p, lines, k)
    decreases n
  {
    if n > k {
      RunErrSticks(gs, p, lines, k, n - 1);
    }
  }

  /** A content line, by the section it is in. */
  method ReadContent<G>(gs: GradeSyntax<G>, p: nat, m: Machine<G>, line: string, num: nat)
    returns (next: Machine<G>, err: Option<ParseError>)
    ensures err.None? ==> ContentStep(gs, p, m, line, num) == Ok(next)
    ensures err.Some? ==> ContentStep(gs, p, m, line, num) == Err(err.value)
  {
    next, err := m, None;
    match m.state {
      case FieldSection =>
        if m.field.Some? {
          err := Some(FieldTwice(num));
        } else {
          var v := FieldValue(line, num, p);
          if v.Err? {
            err := Some(v.error);
          } else {
            next := m.(field := Some(v.value));
          }
        }
      case BasisSection =>
        var b := BasisEntryOf(gs, line, num);
        if b.Err? {
          err := Some(b.error);
        } else {
          next := m.(basis := m.basis + [b.value]);
        }
      case CoactionSection =>
        var c := CoactionLineOf(line, num);
        if c.Err? {
          err := Some(c.error);
        } else {
          next := m.(lut := m.lut + [c.value]);
        }
      case NoSection =>
        err := Some(UnexpectedState(num));
    }
  }

  /** A header: the state it needs before it, or the error. */
  method ReadHeader<G>(m: Machine<G>, h: Section, num: nat) returns (next: Machine<G>, err: Option<ParseError>)
    ensures err.None? ==> HeaderStep(m, h, num) == Ok(next)
    ensures err.Some? ==> HeaderStep(m, h, num) == Err(err.value)
  {
    next, err := m, None;
    match h {
      case FieldSection =>
        if m.state != NoSection {
          err := Some(FieldNotFirst(num));
        } else {
          next := m.(state := FieldSection);
        }
      case BasisSection =>
        if m.state != FieldSection {
          err := Some(FieldExpected(num));
        } else {
          next := m.(state := BasisSection);
        }
      case CoactionSection =>
        if m.state != BasisSection {
          err := Some(BasisExpected(num));
        } else {
          next := m.(state := CoactionSection);
        }
      case NoSection =>
    }
  }

  /** One trimmed input line: skipped when blank or a comment; a header
      moves the state on; anything else is content. */
  method ReadLine<G>(gs: GradeSyntax<G>, p: nat, m: Machine<G>, line: string, num: nat)
    returns (next: Machine<G>, err: Option<ParseError>)
    ensures err.None? ==> Step(gs, p, m, line, num) == Ok(next)
    ensures err.Some? ==> Step(gs, p, m, line, num) == Err(err.value)
  {
    if line == [] || line[0] == '#' {
      return m, None;
    }
    var h := HeaderOf(line);
    if h.Some? {
      next, err := ReadHeader(m, h.value, num);
    } else {
      next, err := ReadContent(gs, p, m, line, num);
    }
  }

  /** The first pass of `parse_direct`: every line read in turn, the first
      error returned, and at the end all three sections required. */
  method ParseSections<G>(gs: GradeSyntax<G>, p: nat, input: string) returns (r: Result<Machine<G>, ParseError>)
    ensures r == Sections(gs, p, input)
  {
    var lines := TrimmedLines(input);
    var m: Machine<G> := Machine(NoSection, None, [], []);
    for k := 0 to |lines|
      invariant Run(gs, p, lines, k) == Ok(m)
    {
      var next, err := ReadLine(gs, p, m, lines[k], k + 1);
      if err.Some? {
        RunErrSticks(gs, p, lines, k + 1, |lines|);
        return Err(err.value);
      }
      m := next;
    }
    if m.state != CoactionSection {
      return Err(MissingSections);
    }
    return Ok(m);
  }

  // ---------------------------------------------------------------------
  // What an accepted input looks like

  /** The header a trimmed line is, as a list of zero or one. */
  function HeaderSeq(line: string): seq<Section> {
    if !Skipped(line) && HeaderOf(line).Some? then [HeaderOf(line).value] else []
  }

  /** The headers among the first k lines, in order. */
  function Headers(lines: seq<string>, k: nat): seq<Section>
    requires k <= |lines|
  {
    if k == 0 then [] else Headers(lines, k - 1) + HeaderSeq(lines[k - 1])
  }

  /** The headers that lead to a state. */
  function HeadersFor(s: Section): seq<Section> {
    match s
    case NoSection => []
    case FieldSection => [FieldSection]
    case BasisSection => [FieldSection, BasisSection]
    case CoactionSection => [FieldSection, BasisSection, CoactionSection]
  }

  /** A field value, when one was read, casts to the characteristic. */
  predicate FieldMatches(f: Option<int>, p: nat) {
    f.Some? ==> Text.I32_MIN <= f.value <= Text.I32_MAX && I32AsUsize(f.value) == p
  }

  lemma ContentKeepsSection<G>(gs: GradeSyntax<G>, p: nat, m: Machine<G>, line: string, num: nat)
    requires ContentStep(gs, p, m, line, num).Ok? && FieldMatches(m.field, p)
    ensures ContentStep(gs, p, m, line, num).value.state == m.state
    ensures FieldMatches(ContentStep(gs, p, m, line, num).value.field, p)
  {
    match m.state
    case FieldSection =>
      var v := FieldValue(line, num, p);
    case BasisSection =>
      var b := BasisEntryOf(gs, line, num);
    case CoactionSection =>
      var c := CoactionLineOf(line, num);
  }

  lemma HeaderMovesOn<G>(m: Machine<G>, h: Section, num: nat)
    requires h != NoSection && HeaderStep(m, h, num).Ok?
    ensures HeadersFor(HeaderStep(m, h, num).value.state) == HeadersFor(m.state) + [h]
    ensures HeaderStep(m, h, num).value.field == m.field
  {
  }

  lemma StepInvariant<G>(gs: GradeSyntax<G>, p: nat, m: Machine<G>, line: string, num: nat)
    requires Step(gs, p, m, line, num).Ok? && FieldMatches(m.field, p)
    ensures HeadersFor(Step(gs, p, m, line, num).value.state) == HeadersFor(m.state) + HeaderSeq(line)
    ensures FieldMatches(Step(gs, p, m, line, num).value.field, p)
  {
    var r := Step(gs, p, m, line, num);
    if Skipped(line) {
      assert HeaderSeq(line) == [];
      assert r == Ok(m);
    } else if HeaderOf(line).Some? {
      var h := HeaderOf(line).value;
      assert HeaderSeq(line) == [h];
      assert r == HeaderStep(m, h, num);
      HeaderMovesOn(m, h, num);
    } else {
      assert HeaderSeq(line) == [];
      assert r == ContentStep(gs, p, m, line, num);
      ContentKeepsSection(gs, p, m, line, num);
    }
  }

  /** While the pass runs, the headers seen are exactly those that lead to
      the current state, and a field value read matches the
      characteristic. */
  lemma {:induction false} RunInvariant<G>(gs: GradeSyntax<G>, p: nat, lines: seq<string>, k: nat)
    requires k <= |lines| && Run(gs, p, lines, k).Ok?
    ensures Headers(lines, k) == HeadersFor(Run(gs, p, lines, k).value.state)
    ensures FieldMatches(Run(gs, p, lines, k).value.field, p)
  {
    if k > 0 {
      RunInvariant(gs, p, lines, k - 1);
      StepInvariant(gs, p, Run(gs, p, lines, k - 1).value, lines[k - 1], k);
    }
  }

  /** An accepted input has exactly the three headers, FIELD, BASIS and
      COACTION, in that order, and any field value it gives casts to the
      characteristic. */
  lemma SectionsInOrder<G>(gs: GradeSyntax<G>, p: nat, input: string)
    requires Sections(gs, p, input).Ok?
    ensures Headers(TrimmedLines(input), |Lines(input)|) == [FieldSection, BasisSection, CoactionSection]
    ensures FieldMatches(Sections(gs, p, input).value.field, p)
  {
    RunInvariant(gs, p, TrimmedLines(input), |Lines(input)|);
  }

  // ---------------------------------------------------------------------
  // Accepted input reaches parse_direct

  lemma {:induction false} ContainsAfter(a: string, y: string, pat: string)
    requires Contains(y, pat)
    ensures Contains(a + y, pat)
  {
    if a == [] {
      assert a + y == y;
    } else {
      assert (a + y)[1..] == a[1..] + y;
      ContainsAfter(a[1..], y, pat);
    }
  }

  lemma ContainsInfix(a: string, x: string, b: string, pat: string)
    requires IsPrefix(pat, x)
    ensures Contains(a + x + b, pat)
  {
    assert (x + b)[..|pat|] == x[..|pat|];
    assert a + x + b == a + (x + b);
    ContainsAfter(a, x + b, pat);
  }

  /** Every piece of a join sits inside it. */
  lemma {:induction false} JoinInfix(parts: seq<string>, c: char, k: nat)
    requires k < |parts|
    ensures exists a, b :: Text.Join(parts, c) == a + parts[k] + b
  {
    var j := Text.Join(parts, c);
    if |parts| == 1 {
      assert j == [] + parts[0] + [];
    } else if k == 0 {
      assert j == [] + parts[0] + ([c] + Text.Join(parts[1..], c));
    } else {
      JoinInfix(parts[1..], c, k - 1);
      var a, b :| Text.Join(parts[1..], c) == a + parts[1..][k - 1] + b;
      assert j == (parts[0] + [c] + a) + parts[k] + b;
    }
  }

  lemma LineInfix(input: string, k: nat)
    requires k < |Lines(input)|
    ensures exists a, b :: input == a + Lines(input)[k] + b
  {
    var ps := Text.Split(input, '\n');
    assert Lines(input)[k] == ps[k];
    JoinInfix(ps, '\n', k);
  }

  lemma {:induction false} BasisHeaderLine(lines: seq<string>, n: nat)
    requires n <= |lines| && BasisSection in Headers(lines, n)
    ensures exists k :: 0 <= k < n && IsPrefix(BASIS, lines[k])
  {
    if BasisSection in HeaderSeq(lines[n - 1]) {
      assert IsPrefix(BASIS, lines[n - 1]);
    } else {
      BasisHeaderLine(lines, n - 1);
    }
  }

  lemma InfixCompose(s: string, a: string, y: string, b: string, a1: string, x: string, b1: string)
    requires s == a + y + b && y == a1 + x + b1
    ensures s == (a + a1) + x + (b1 + b)
  {
  }

  /** A line with the BASIS header puts the header in the input. */
  lemma BasisLineInInput(input: string, k: nat)
    requires k < |Lines(input)| && IsPrefix(BASIS, Text.Trim(Lines(input)[k]))
    ensures Contains(input, BASIS)
  {
    var line := Lines(input)[k];
    var a1, b1 := Text.TrimInfix(line);
    LineInfix(input, k);
    var a, b :| input == a + line + b;
    InfixCompose(input, a, line, b, a1, Text.Trim(line), b1);
    ContainsInfix(a + a1, Text.Trim(line), b1 + b, BASIS);
  }

  /** Whatever `parse_direct` accepts, `parse` sends to it: an accepted
      input contains its BASIS header. */
  lemma AcceptedIsDirect<G>(gs: GradeSyntax<G>, p: nat, input: string)
    requires Sections(gs, p, input).Ok?
    ensures DialectOf(input) == Direct
  {
    var lines := TrimmedLines(input);
    SectionsInOrder(gs, p, input);
    assert BasisSection in Headers(lines, |lines|);
    BasisHeaderLine(lines, |lines|);
    var k :| 0 <= k < |lines| && IsPrefix(BASIS, lines[k]);
    BasisLineInInput(input, k);
  }
}
