/** `UniPolMap<F>` of crates/algebra/src/unipol/morphism.rs: a `FlatMatrix`
    of single terms c·t^k mapping one k[t]-module to another. A module is a
    `UniPolModule` (crates/algebra/src/unipol/mod.rs), one entry per
    generator: `Some(p)` is a cyclic summand k[t]/t^p, `None` a free summand
    k[t]. Entry (x, y) sends generator x of the domain to c·t^k times
    generator y of the codomain. */
module UniPolMorphisms {
  import opened Wrappers
  import opened Rings
  import opened Mats
  import opened UniPol
  import opened FlatMatrices
  import Linalg

  type UniPolModule = seq<Option<Power>>

  type PolMat<T> = Mat<UniPol<T>>

  /** `u16::MAX`. */
  const PowMax: Power := 0xFFFF

  // ---------------------------------------------------------------------
  // verify (morphism.rs:48-89)

  /** The failures `verify` reports, in the order it looks for them. */
  datatype VerifyError =
    | DomainSize
    | CodomainSize
      /** A nonzero entry whose power the codomain's quotient divides out. */
    | NotReduced(dom: nat, codom: nat, power: Power)
      /** t^domCycle · t^power does not vanish in k[t]/t^codomCycle. */
    | CyclicBelow(domCycle: Power, codomCycle: Power, power: Power)
      /** A nonzero entry from a cyclic generator to a free one. */
    | CyclicToFree

  /** `dom_cycle + power`: a `u16` sum, which wraps in a release build when
      `wrapping` holds, and the mathematical sum otherwise. */
  function CycleSum(a: Power, b: Power, wrapping: bool): int {
    if wrapping then (a + b) % 0x1_0000 else a + b
  }

  /** The checks made on one entry (x, y) with structures dm and cm. */
  function EntryCheck<T>(F: Ring<T>, el: UniPol<T>, dm: Option<Power>, cm: Option<Power>,
                         x: nat, y: nat, wrapping: bool): Option<VerifyError>
  {
    if IsZero(F, el) then None
    else if cm.Some? && el.k >= cm.value then Some(NotReduced(x, y, el.k))
    else if dm.None? then None
    else if cm.None? then Some(CyclicToFree)
    else if CycleSum(dm.value, el.k, wrapping) < cm.value then Some(CyclicBelow(dm.value, cm.value, el.k))
    else None
  }

  ghost predicate Sized<T>(a: PolMat<T>, domain: UniPolModule, codomain: UniPolModule) {
    Shaped(a) && a.domain == |domain| && a.codomain == |codomain|
  }

  /** The first failing entry at or after (x, y), domain index major as in
      the two nested loops. */
  function ScanFrom<T>(F: Ring<T>, a: PolMat<T>, domain: UniPolModule, codomain: UniPolModule,
                       x: nat, y: nat, wrapping: bool): Option<VerifyError>
    requires Sized(a, domain, codomain) && x <= a.domain && y <= a.codomain
    decreases a.domain - x, a.codomain - y
  {
    if x == a.domain then None
    else if y == a.codomain then ScanFrom(F, a, domain, codomain, x + 1, 0, wrapping)
    else
      match EntryCheck(F, At(a, x, y), domain[x], codomain[y], x, y, wrapping)
      case Some(e) => Some(e)
      case None => ScanFrom(F, a, domain, codomain, x, y + 1, wrapping)
  }

  /** The answer of `verify` on the matrix a, with the cycle sum wrapping or
      not: the domain size is checked first, then the codomain size, and a
      map it accepts is a morphism either way (wrapping only ever turns a
      pass into a failure). */
  function Checked<T>(F: Ring<T>, a: PolMat<T>, domain: UniPolModule, codomain: UniPolModule,
                      wrapping: bool): (r: Result<(), VerifyError>)
    requires Shaped(a)
    ensures a.domain != |domain| ==> r == Err(DomainSize)
    ensures a.domain == |domain| && a.codomain != |codomain| ==> r == Err(CodomainSize)
    ensures r.Ok? ==> IsMorphism(F, a, domain, codomain)
  {
    if a.domain != |domain| then Err(DomainSize)
    else if a.codomain != |codomain| then Err(CodomainSize)
    else
      ScanFromStricter(F, a, domain, codomain, 0, 0);
      ScanFromLegal(F, a, domain, codomain, 0, 0);
      match ScanFrom(F, a, domain, codomain, 0, 0, wrapping)
      case None => Ok(())
      case Some(e) => Err(e)
  }

  /** `verify` as written: `dom_cycle + power` is a `u16` addition. It still
      accepts only morphisms, but may reject some (see
      VerifyAsWrittenRejectsLegalMap). */
  function VerifyAsWritten<T>(F: Ring<T>, a: PolMat<T>, domain: UniPolModule, codomain: UniPolModule): (r: Result<(), VerifyError>)
    requires Shaped(a)
    ensures r.Ok? ==> IsMorphism(F, a, domain, codomain)
    ensures r.Ok? ==> Checked(F, a, domain, codomain, false).Ok?
  {
    VerifyMeansMorphism(F, a, domain, codomain);
    Checked(F, a, domain, codomain, true)
  }

  /** What a legal entry is: it is zero, or it is reduced below the target's
      quotient, and a cyclic source k[t]/t^d is sent to a cyclic target
      k[t]/t^q in which t^d·t^k vanishes (d + k >= q). */
  ghost predicate LegalEntry<T>(F: Ring<T>, el: UniPol<T>, dm: Option<Power>, cm: Option<Power>) {
    IsZero(F, el)
    || ((cm.Some? ==> el.k < cm.value) && (dm.Some? ==> cm.Some? && dm.value + el.k >= cm.value))
  }

  /** a is a well-defined, reduced module map from domain to codomain. */
  ghost predicate IsMorphism<T>(F: Ring<T>, a: PolMat<T>, domain: UniPolModule, codomain: UniPolModule) {
    Sized(a, domain, codomain)
    && forall x, y :: 0 <= x < a.domain && 0 <= y < a.codomain ==> LegalEntry(F, At(a, x, y), domain[x], codomain[y])
  }

  lemma EntryCheckLegal<T>(F: Ring<T>, el: UniPol<T>, dm: Option<Power>, cm: Option<Power>, x: nat, y: nat)
    ensures EntryCheck(F, el, dm, cm, x, y, false).None? <==> LegalEntry(F, el, dm, cm)
  {
  }

  /** The scan from (x, y) finds nothing exactly when every entry from (x, y)
      on is legal. */
  lemma {:induction false} ScanFromLegal<T>(F: Ring<T>, a: PolMat<T>, domain: UniPolModule, codomain: UniPolModule, x: nat, y: nat)
    requires Sized(a, domain, codomain) && x <= a.domain && y <= a.codomain
    ensures ScanFrom(F, a, domain, codomain, x, y, false).None? <==>
            forall x', y' :: x <= x' < a.domain && 0 <= y' < a.codomain && (x' > x || y' >= y) ==>
              LegalEntry(F, At(a, x', y'), domain[x'], codomain[y'])
    decreases a.domain - x, a.codomain - y
  {
    if x == a.domain {
    } else if y == a.codomain {
      ScanFromLegal(F, a, domain, codomain, x + 1, 0);
    } else {
      EntryCheckLegal(F, At(a, x, y), domain[x], codomain[y], x, y);
      ScanFromLegal(F, a, domain, codomain, x, y + 1);
    }
  }

  /** The wrapped sum is never above the true one, so an entry that passes
      with wrapping passes without it. */
  lemma EntryCheckStricter<T>(F: Ring<T>, el: UniPol<T>, dm: Option<Power>, cm: Option<Power>, x: nat, y: nat)
    ensures EntryCheck(F, el, dm, cm, x, y, true).None? ==> EntryCheck(F, el, dm, cm, x, y, false).None?
  {
    if dm.Some? {
      assert CycleSum(dm.value, el.k, true) <= CycleSum(dm.value, el.k, false);
    }
  }

  /** A scan that finds nothing with wrapping finds nothing without it. */
  lemma {:induction false} ScanFromStricter<T>(F: Ring<T>, a: PolMat<T>, domain: UniPolModule, codomain: UniPolModule, x: nat, y: nat)
    requires Sized(a, domain, codomain) && x <= a.domain && y <= a.codomain
    ensures ScanFrom(F, a, domain, codomain, x, y, true).None? ==> ScanFrom(F, a, domain, codomain, x, y, false).None?
    decreases a.domain - x, a.codomain - y
  {
    if x == a.domain {
    } else if y == a.codomain {
      ScanFromStricter(F, a, domain, codomain, x + 1, 0);
    } else {
      EntryCheckStricter(F, At(a, x, y), domain[x], codomain[y], x, y);
      ScanFromStricter(F, a, domain, codomain, x, y + 1);
    }
  }

  /** `verify` (with the cycle sum taken without wrapping) accepts exactly
      the well-defined reduced maps. */
  lemma VerifyMeansMorphism<T>(F: Ring<T>, a: PolMat<T>, domain: UniPolModule, codomain: UniPolModule)
    requires Shaped(a)
    ensures Checked(F, a, domain, codomain, false).Ok? <==> IsMorphism(F, a, domain, codomain)
  {
    if Sized(a, domain, codomain) {
      ScanFromLegal(F, a, domain, codomain, 0, 0);
    }
  }

  /** The wrapping sum rejects a legal map: k[t]/t^65535 → k[t]/t^2 sending
      the generator to t times the generator (t^65535·t is zero in
      k[t]/t^2), yet 65535 + 1 wraps to 0 < 2. */
  lemma VerifyAsWrittenRejectsLegalMap<T>(F: Ring<T>)
    requires !F.isZero(F.one)
    ensures var a := Mat(1, 1, [[UniPol(F.one, 1)]]);
            && IsMorphism(F, a, [Some(PowMax)], [Some(2)])
            && VerifyAsWritten(F, a, [Some(PowMax)], [Some(2)]) == Err(CyclicBelow(PowMax, 2, 1))
  {
    var a := Mat(1, 1, [[UniPol(F.one, 1)]]);
    assert At(a, 0, 0) == UniPol(F.one, 1);
  }

  /** `verify`: the dimension checks, then every entry in turn, domain index
      major; the first failure is returned. The cycle sum does not wrap. */
  method Verify<T>(F: Ring<T>, m: FlatMatrix<UniPol<T>>, domain: UniPolModule, codomain: UniPolModule)
    returns (r: Result<(), VerifyError>)
    requires m.Valid()
    ensures r == Checked(F, m.Value(), domain, codomain, false)
    ensures r.Ok? <==> IsMorphism(F, m.Value(), domain, codomain)
  {
    VerifyMeansMorphism(F, m.Value(), domain, codomain);
    if m.domain != |domain| {
      return Err(DomainSize);
    }
    if m.codomain != |codomain| {
      return Err(CodomainSize);
    }
    ghost var a := m.Value();
    for x := 0 to m.domain
      invariant ScanFrom(F, a, domain, codomain, x, 0, false) == ScanFrom(F, a, domain, codomain, 0, 0, false)
    {
      for y := 0 to m.codomain
        invariant ScanFrom(F, a, domain, codomain, x, y, false) == ScanFrom(F, a, domain, codomain, 0, 0, false)
      {
        var el := m.Get(x, y);
        var e := EntryCheck(F, el, domain[x], codomain[y], x, y, false);
        if e.Some? {
          return Err(e.value);
        }
      }
    }
    return Ok(());
  }

  // ---------------------------------------------------------------------
  // reduce (morphism.rs:92-105)

  /** Entry (x, y) is a power the quotient of codomain generator y divides
      out. */
  function ReduceCond<T>(a: PolMat<T>, codomain: UniPolModule, x: nat, y: nat): bool
    requires Shaped(a) && x < a.domain && y < a.codomain
  {
    y < |codomain| && codomain[y].Some? && At(a, x, y).k >= codomain[y].value
  }

  /** a with the entries that `reduce` clears cleared in rows before y and in
      row y before column x. */
  function ReducedUpTo<T>(F: Ring<T>, a: PolMat<T>, codomain: UniPolModule, y: nat, x: nat): (r: PolMat<T>)
    requires Shaped(a)
    ensures Shaped(r) && r.domain == a.domain && r.codomain == a.codomain
    ensures forall x', y' :: 0 <= x' < a.domain && 0 <= y' < a.codomain ==>
              At(r, x', y') == if (y' < y || (y' == y && x' < x)) && ReduceCond(a, codomain, x', y') then Zero(F) else At(a, x', y')
  {
    Mat(a.domain, a.codomain, seq(a.codomain, y' requires 0 <= y' < a.codomain =>
      seq(a.domain, x' requires 0 <= x' < a.domain =>
        if (y' < y || (y' == y && x' < x)) && ReduceCond(a, codomain, x', y') then Zero(F) else a.rows[y'][x'])))
  }

  /** The matrix `reduce` leaves: every entry in a cyclic row of power at
      least the row's quotient is replaced by zero. */
  function Reduced<T>(F: Ring<T>, a: PolMat<T>, codomain: UniPolModule): (r: PolMat<T>)
    requires Shaped(a)
    ensures Shaped(r) && r.domain == a.domain && r.codomain == a.codomain
  {
    ReducedUpTo(F, a, codomain, a.codomain, 0)
  }

  lemma ReduceStep<T>(F: Ring<T>, a: PolMat<T>, codomain: UniPolModule, y: nat, x: nat)
    requires Shaped(a) && x < a.domain && y < a.codomain
    ensures At(ReducedUpTo(F, a, codomain, y, x), x, y) == At(a, x, y)
    ensures ReduceCond(a, codomain, x, y) ==>
              SetAt(ReducedUpTo(F, a, codomain, y, x), x, y, Zero(F)) == ReducedUpTo(F, a, codomain, y, x + 1)
    ensures !ReduceCond(a, codomain, x, y) ==>
              ReducedUpTo(F, a, codomain, y, x) == ReducedUpTo(F, a, codomain, y, x + 1)
  {
    var n := ReducedUpTo(F, a, codomain, y, x + 1);
    if ReduceCond(a, codomain, x, y) {
      Extensionality(SetAt(ReducedUpTo(F, a, codomain, y, x), x, y, Zero(F)), n);
    } else {
      Extensionality(ReducedUpTo(F, a, codomain, y, x), n);
    }
  }

  /** Finishing a row, or skipping a row with a free generator, moves on to
      the next row. */
  lemma ReduceRowDone<T>(F: Ring<T>, a: PolMat<T>, codomain: UniPolModule, y: nat)
    requires Shaped(a) && y < |codomain|
    ensures (y < a.codomain || a.domain == 0) ==>
              ReducedUpTo(F, a, codomain, y, a.domain) == ReducedUpTo(F, a, codomain, y + 1, 0)
    ensures codomain[y].None? ==>
              ReducedUpTo(F, a, codomain, y, 0) == ReducedUpTo(F, a, codomain, y + 1, 0)
  {
    if y < a.codomain || a.domain == 0 {
      Extensionality(ReducedUpTo(F, a, codomain, y, a.domain), ReducedUpTo(F, a, codomain, y + 1, 0));
    }
    if codomain[y].None? {
      Extensionality(ReducedUpTo(F, a, codomain, y, 0), ReducedUpTo(F, a, codomain, y + 1, 0));
    }
  }

  lemma ReduceStart<T>(F: Ring<T>, a: PolMat<T>, codomain: UniPolModule)
    requires Shaped(a)
    ensures ReducedUpTo(F, a, codomain, 0, 0) == a
  {
    Extensionality(ReducedUpTo(F, a, codomain, 0, 0), a);
  }

  lemma ReduceEnd<T>(F: Ring<T>, a: PolMat<T>, codomain: UniPolModule)
    requires Shaped(a) && (|codomain| <= a.codomain || a.domain == 0)
    ensures ReducedUpTo(F, a, codomain, |codomain|, 0) == Reduced(F, a, codomain)
  {
    Extensionality(ReducedUpTo(F, a, codomain, |codomain|, 0), Reduced(F, a, codomain));
  }

  /** `reduce`: for each cyclic codomain generator y with quotient t^p, set
      every entry of row y of power at least p to zero. */
  method Reduce<T>(F: Ring<T>, m: FlatMatrix<UniPol<T>>, codomain: UniPolModule)
    requires m.Valid() && (|codomain| <= m.codomain || m.domain == 0)
    modifies m
    ensures m.Valid() && m.Value() == Reduced(F, old(m.Value()), codomain)
  {
    ghost var a := m.Value();
    ReduceStart(F, a, codomain);
    for y := 0 to |codomain|
      invariant m.Valid() && m.domain == a.domain && m.codomain == a.codomain
      invariant m.Value() == ReducedUpTo(F, a, codomain, y, 0)
    {
      match codomain[y] {
        case None =>
          ReduceRowDone(F, a, codomain, y);
        case Some(pow) =>
          for x := 0 to m.domain
            invariant m.Valid() && m.domain == a.domain && m.codomain == a.codomain
            invariant m.Value() == ReducedUpTo(F, a, codomain, y, x)
          {
            ReduceStep(F, a, codomain, y, x);
            if m.Get(x, y).k >= pow {
              m.Set(x, y, Zero(F));
            }
          }
          ReduceRowDone(F, a, codomain, y);
      }
    }
    ReduceEnd(F, a, codomain);
  }

  /** What `reduce` does to one entry: in a row with quotient t^p the entry
      becomes zero or stays of power below p, and it still stands for the
      same element of k[t]/t^p (its coefficients below t^p are unchanged);
      in any other row it is unchanged. */
  lemma ReducedEntry<T>(F: Ring<T>, a: PolMat<T>, codomain: UniPolModule, x: nat, y: nat)
    requires Shaped(a) && x < a.domain && y < a.codomain
    ensures var e, r := At(a, x, y), At(Reduced(F, a, codomain), x, y);
            if y < |codomain| && codomain[y].Some? then
              && (r == Zero(F) || r.k < codomain[y].value)
              && forall j :: 0 <= j < codomain[y].value ==> Coef(F, r, j) == Coef(F, e, j)
            else r == e
  {
  }

  /** Reducing twice is reducing once. */
  lemma ReduceIdempotent<T>(F: Ring<T>, a: PolMat<T>, codomain: UniPolModule)
    requires Shaped(a)
    ensures Reduced(F, Reduced(F, a, codomain), codomain) == Reduced(F, a, codomain)
  {
    var r := Reduced(F, a, codomain);
    Extensionality(Reduced(F, r, codomain), r);
  }

  /** On a map `verify` accepts, `reduce` only rewrites zero entries. */
  lemma ReduceKeepsMorphism<T>(F: Ring<T>, a: PolMat<T>, domain: UniPolModule, codomain: UniPolModule)
    requires IsMorphism(F, a, domain, codomain)
    ensures forall x, y :: 0 <= x < a.domain && 0 <= y < a.codomain ==>
              IsZero(F, At(a, x, y)) || At(Reduced(F, a, codomain), x, y) == At(a, x, y)
  {
  }

  // ---------------------------------------------------------------------
  // kernel_find_single_generator (morphism.rs:108-185)

  /** The entries of the matrix [a | D] whose SNF locates the kernel: a, then
      one column per codomain generator y holding -t^p in row y when y is
      cyclic with quotient t^p. */
  function ProbeRow<T>(F: Ring<T>, a: PolMat<T>, codomain: UniPolModule, y: nat): (row: seq<UniPol<T>>)
    requires Shaped(a) && |codomain| == a.codomain && y < a.codomain
    ensures |row| == a.domain + a.codomain
  {
    a.rows[y] + seq(a.codomain, x requires 0 <= x < a.codomain =>
      if x == y && codomain[y].Some? then UniPol(F.neg(F.one), codomain[y].value) else Zero(F))
  }

  /** `new_map` with its first n rows written. */
  function ProbeUpTo<T>(F: Ring<T>, a: PolMat<T>, codomain: UniPolModule, n: nat): (r: PolMat<T>)
    requires Shaped(a) && |codomain| == a.codomain
    ensures Shaped(r) && r.domain == a.domain + a.codomain && r.codomain == a.codomain
  {
    var rows := seq(a.codomain, y requires 0 <= y < a.codomain =>
      if y < n then ProbeRow(F, a, codomain, y) else Zeros(Zero(F), a.domain + a.codomain));
    assert forall y :: 0 <= y < |rows| ==> |rows[y]| == a.domain + a.codomain by {
      forall y | 0 <= y < |rows| ensures |rows[y]| == a.domain + a.codomain {
        if y < n {
          assert rows[y] == ProbeRow(F, a, codomain, y);
        } else {
          assert rows[y] == Zeros(Zero(F), a.domain + a.codomain);
        }
      }
    }
    Mat(a.domain + a.codomain, a.codomain, rows)
  }

  /** `new_map`: the probe of a with codomain relations. */
  function KernelProbe<T>(F: Ring<T>, a: PolMat<T>, codomain: UniPolModule): (r: PolMat<T>)
    requires Shaped(a) && |codomain| == a.codomain
    ensures Shaped(r) && r.domain == a.domain + a.codomain && r.codomain == a.codomain
  {
    ProbeUpTo(F, a, codomain, a.codomain)
  }

  /** The probe is a beside the diagonal of codomain relations: its left
      block is a, and its right block holds -t^p at (y, y) for each cyclic
      codomain generator y with quotient t^p and zero elsewhere. */
  lemma KernelProbeBlocks<T>(F: Ring<T>, a: PolMat<T>, codomain: UniPolModule)
    requires Shaped(a) && |codomain| == a.codomain
    ensures var r := KernelProbe(F, a, codomain);
            && (forall x, y :: 0 <= x < a.domain && 0 <= y < a.codomain ==> At(r, x, y) == At(a, x, y))
            && (forall x, y :: a.domain <= x < a.domain + a.codomain && 0 <= y < a.codomain ==>
                  At(r, x, y) == if x == a.domain + y && codomain[y].Some? then UniPol(F.neg(F.one), codomain[y].value) else Zero(F))
  {
    var r := KernelProbe(F, a, codomain);
    forall y | 0 <= y < a.codomain ensures r.rows[y] == ProbeRow(F, a, codomain, y) {
    }
  }

  lemma ProbeStart<T>(F: Ring<T>, a: PolMat<T>, codomain: UniPolModule)
    requires Shaped(a) && |codomain| == a.codomain
    ensures ProbeUpTo(F, a, codomain, 0) == ZeroMat(PolRing(F), a.domain + a.codomain, a.codomain)
  {
    Extensionality(ProbeUpTo(F, a, codomain, 0), ZeroMat(PolRing(F), a.domain + a.codomain, a.codomain));
  }

  lemma ProbeStep<T>(F: Ring<T>, a: PolMat<T>, codomain: UniPolModule, n: nat)
    requires Shaped(a) && |codomain| == a.codomain && n < a.codomain
    ensures var w := Mats.SetRow(ProbeUpTo(F, a, codomain, n), n, a.rows[n]);
            && (codomain[n].None? ==> w == ProbeUpTo(F, a, codomain, n + 1))
            && (codomain[n].Some? ==>
                  SetAt(w, a.domain + n, n, UniPol(F.neg(F.one), codomain[n].value)) == ProbeUpTo(F, a, codomain, n + 1))
  {
    var w := Mats.SetRow(ProbeUpTo(F, a, codomain, n), n, a.rows[n]);
    var next := ProbeUpTo(F, a, codomain, n + 1);
    assert w.rows[n] == a.rows[n] + Zeros(Zero(F), a.domain + a.codomain)[a.domain..];
    if codomain[n].None? {
      Extensionality(w, next);
    } else {
      Extensionality(SetAt(w, a.domain + n, n, UniPol(F.neg(F.one), codomain[n].value)), next);
    }
  }

  /** One round of building `new_map`: row n of `self` copied in, then
      -t^p at (domain + n, n) when codomain generator n is cyclic. */
  method WriteProbeRow<T>(F: Ring<T>, ghost a: PolMat<T>, codomain: UniPolModule, row: seq<UniPol<T>>,
                          p: FlatMatrix<UniPol<T>>, n: nat)
    requires Shaped(a) && |codomain| == a.codomain && n < a.codomain && row == a.rows[n]
    requires p.Valid() && p.Value() == ProbeUpTo(F, a, codomain, n)
    modifies p
    ensures p.Valid() && p.Value() == ProbeUpTo(F, a, codomain, n + 1)
  {
    assert |row| == a.domain;
    p.SetRow(n, row);
    WriteCycleEntry(F, a, codomain, p, |row|, n);
  }

  /** The second half of a round of `new_map`: -t^p at (domain + n, n) when
      codomain generator n is cyclic, over a matrix whose row n is already
      copied in. */
  method WriteCycleEntry<T>(F: Ring<T>, ghost a: PolMat<T>, codomain: UniPolModule, p: FlatMatrix<UniPol<T>>, d: nat, n: nat)
    requires Shaped(a) && |codomain| == a.codomain && d == a.domain && n < a.codomain
    requires p.Valid() && p.Value() == Mats.SetRow(ProbeUpTo(F, a, codomain, n), n, a.rows[n])
    modifies p
    ensures p.Valid() && p.Value() == ProbeUpTo(F, a, codomain, n + 1)
  {
    ProbeStep(F, a, codomain, n);
    if codomain[n].Some? {
      p.Set(d + n, n, UniPol(F.neg(F.one), codomain[n].value));
    }
  }

  /** Building `new_map`: a zero matrix of the widened shape, each row of
      `self` copied in, and -t^p written at (domain + n, n) for each cyclic
      codomain generator n. */
  method BuildProbe<T>(F: Ring<T>, m: FlatMatrix<UniPol<T>>, codomain: UniPolModule) returns (p: FlatMatrix<UniPol<T>>)
    requires m.Valid() && |codomain| == m.codomain
    ensures fresh(p) && p.Valid() && p.Value() == KernelProbe(F, m.Value(), codomain)
  {
    ghost var a := m.Value();
    p := new FlatMatrix.Zero(PolRing(F), m.domain + m.codomain, m.codomain);
    ProbeStart(F, a, codomain);
    for n := 0 to m.codomain
      invariant p.Valid() && p.Value() == ProbeUpTo(F, a, codomain, n)
    {
      WriteProbeRow(F, a, codomain, m.GetRow(n), p, n);
    }
  }

  /** The shapes of `full_snf`'s S (domain × codomain of a) and V (square on
      the domain of a), the two outputs the search reads. */
  ghost predicate SnfShape<T>(a: PolMat<T>, s: PolMat<T>, v: PolMat<T>) {
    && Shaped(s) && Shaped(v)
    && s.domain == a.domain && s.codomain == a.codomain
    && v.domain == a.domain && v.codomain == a.domain
  }

  /** The SNF, a parameter of the search, answers with matrices of those
      shapes. */
  ghost predicate SnfShapes<T(!new)>(snf: PolMat<T> -> (PolMat<T>, PolMat<T>)) {
    forall a: PolMat<T> {:trigger snf(a)} :: Shaped(a) ==> SnfShape(a, snf(a).0, snf(a).1)
  }

  /** S and V as the SNF of a probe of n + c columns and c rows. */
  ghost predicate ProbeSnf<T>(n: nat, c: nat, s: PolMat<T>, v: PolMat<T>) {
    && Shaped(s) && Shaped(v)
    && s.domain == n + c && s.codomain == c
    && v.domain == n + c && v.codomain == n + c
  }

  /** Column r of V is a kernel vector of the probe (the diagonal entry of S
      at r is zero, or r is past S's rows) whose component at domain
      generator y is nonzero and not killed by y's own quotient. */
  function Candidate<T>(F: Ring<T>, domain: UniPolModule, s: PolMat<T>, v: PolMat<T>, r: nat, y: nat): bool
    requires ProbeSnf(|domain|, s.codomain, s, v) && r < s.domain && y < |domain|
  {
    && (r >= s.codomain || IsZero(F, At(s, r, r)))
    && !IsZero(F, At(v, r, y))
    && (domain[y].None? || At(v, r, y).k < domain[y].value)
  }

  /** `possible_id` and `possible_pow`. */
  datatype Pick = Pick(id: Option<nat>, pow: int)

  /** Cell (r, y) of the search: a candidate of power below the best so far
      becomes the best. */
  function Consider<T>(F: Ring<T>, domain: UniPolModule, s: PolMat<T>, v: PolMat<T>, p: Pick, r: nat, y: nat): Pick
    requires ProbeSnf(|domain|, s.codomain, s, v) && r < s.domain && y < |domain|
  {
    if Candidate(F, domain, s, v, r, y) && At(v, r, y).k < p.pow then Pick(Some(y), At(v, r, y).k) else p
  }

  /** The search state after the cells before (r, y), column r of V major. */
  function ScanTo<T>(F: Ring<T>, domain: UniPolModule, s: PolMat<T>, v: PolMat<T>, r: nat, y: nat): Pick
    requires ProbeSnf(|domain|, s.codomain, s, v) && r <= s.domain && y <= |domain|
    requires r == s.domain ==> y == 0
    decreases r, y
  {
    if y > 0 then Consider(F, domain, s, v, ScanTo(F, domain, s, v, r, y - 1), r, y - 1)
    else if r == 0 then Pick(None, PowMax)
    else ScanTo(F, domain, s, v, r - 1, |domain|)
  }

  /** The generator the search returns for S and V. */
  function FindGenerator<T>(F: Ring<T>, n: nat, c: nat, domain: UniPolModule, s: PolMat<T>, v: PolMat<T>): Option<nat>
    requires |domain| == n && ProbeSnf(n, c, s, v)
  {
    if c == 0 then (if n == 0 then None else Some(0))
    else ScanTo(F, domain, s, v, s.domain, 0).id
  }

  /** `kernel_find_single_generator` on the matrix a. */
  function Found<T(!new)>(F: Ring<T>, a: PolMat<T>, domain: UniPolModule, codomain: UniPolModule,
                    snf: PolMat<T> -> (PolMat<T>, PolMat<T>)): Option<nat>
    requires Sized(a, domain, codomain) && SnfShapes(snf)
  {
    var sv := snf(KernelProbe(F, a, codomain));
    assert SnfShape(KernelProbe(F, a, codomain), sv.0, sv.1);
    FindGenerator(F, a.domain, a.codomain, domain, sv.0, sv.1)
  }

  /** Cell (r, y) comes before (r', y') in the search. */
  predicate Before(r: nat, y: nat, r': nat, y': nat) {
    r < r' || (r == r' && y < y')
  }

  /** The search keeps the least power among the candidates seen: the best
      is a candidate of that power, every candidate seen before it has a
      strictly higher one (ties keep the first), no candidate seen has a
      lower one, and
      nothing is chosen exactly when every candidate seen has power
      `u16::MAX`. */
  lemma {:induction false} ScanToLeast<T>(F: Ring<T>, domain: UniPolModule, s: PolMat<T>, v: PolMat<T>, r: nat, y: nat)
    requires ProbeSnf(|domain|, s.codomain, s, v) && r <= s.domain && y <= |domain|
    requires r == s.domain ==> y == 0
    ensures var p := ScanTo(F, domain, s, v, r, y);
            && p.pow <= PowMax
            && (p.id.None? <==> p.pow == PowMax)
            && (p.id.Some? ==>
                  p.id.value < |domain|
                  && exists r' :: 0 <= r' < s.domain && Before(r', p.id.value, r, y)
                                  && Candidate(F, domain, s, v, r', p.id.value) && At(v, r', p.id.value).k == p.pow
                                  && forall r'', y'' ::
                                       (0 <= r'' < s.domain && 0 <= y'' < |domain| && Before(r'', y'', r', p.id.value)
                                        && Candidate(F, domain, s, v, r'', y''))
                                       ==> p.pow < At(v, r'', y'').k)
            && (forall r', y' ::
                  (0 <= r' < s.domain && 0 <= y' < |domain| && Before(r', y', r, y) && Candidate(F, domain, s, v, r', y'))
                  ==> p.pow <= At(v, r', y').k)
    decreases r, y
  {
    if y > 0 {
      ScanToLeast(F, domain, s, v, r, y - 1);
    } else if r > 0 {
      ScanToLeast(F, domain, s, v, r - 1, |domain|);
    }
  }

  /** What the search finds, when the codomain is not empty: nothing
      exactly when every candidate has power `u16::MAX`, and otherwise a
      domain generator carrying a candidate of least power, the first such
      in column-major order of V. */
  lemma FindGeneratorLeast<T>(F: Ring<T>, n: nat, c: nat, domain: UniPolModule, s: PolMat<T>, v: PolMat<T>)
    requires |domain| == n && ProbeSnf(n, c, s, v) && c > 0
    ensures var g := FindGenerator(F, n, c, domain, s, v);
            && (g.None? <==> forall r, y :: 0 <= r < s.domain && 0 <= y < n && Candidate(F, domain, s, v, r, y) ==>
                                              At(v, r, y).k == PowMax)
            && (g.Some? ==>
                  g.value < n
                  && exists r :: 0 <= r < s.domain && Candidate(F, domain, s, v, r, g.value)
                                 && (forall r', y' :: 0 <= r' < s.domain && 0 <= y' < n && Candidate(F, domain, s, v, r', y') ==>
                                                        At(v, r, g.value).k <= At(v, r', y').k)
                                 && (forall r', y' :: 0 <= r' < s.domain && 0 <= y' < n && Before(r', y', r, g.value)
                                                      && Candidate(F, domain, s, v, r', y') ==>
                                                        At(v, r, g.value).k < At(v, r', y').k))
  {
    ScanToLeast(F, domain, s, v, s.domain, 0);
  }

  /** The generator found is a domain generator. */
  lemma FoundInDomain<T(!new)>(F: Ring<T>, a: PolMat<T>, domain: UniPolModule, codomain: UniPolModule,
                         snf: PolMat<T> -> (PolMat<T>, PolMat<T>))
    requires Sized(a, domain, codomain) && SnfShapes(snf)
    ensures Found(F, a, domain, codomain, snf).Some? ==> Found(F, a, domain, codomain, snf).value < a.domain
    ensures a.codomain == 0 ==> (Found(F, a, domain, codomain, snf).None? <==> a.domain == 0)
  {
    var sv := snf(KernelProbe(F, a, codomain));
    assert SnfShape(KernelProbe(F, a, codomain), sv.0, sv.1);
    if a.codomain > 0 {
      FindGeneratorLeast(F, a.domain, a.codomain, domain, sv.0, sv.1);
    }
  }

  /** A row whose diagonal entry in S is nonzero holds no candidate. */
  lemma {:induction false} SkipRow<T>(F: Ring<T>, domain: UniPolModule, s: PolMat<T>, v: PolMat<T>, r: nat, y: nat)
    requires ProbeSnf(|domain|, s.codomain, s, v) && r < s.codomain && y <= |domain|
    requires !IsZero(F, At(s, r, r))
    ensures ScanTo(F, domain, s, v, r, y) == ScanTo(F, domain, s, v, r, 0)
  {
    if y > 0 {
      SkipRow(F, domain, s, v, r, y - 1);
    }
  }

  /** `kernel_find_single_generator`: with no codomain, the first domain
      generator (if any); otherwise build the probe, take its SNF, and scan
      the columns of V that the SNF sends to zero for the domain component
      of least power that its own quotient does not kill. */
  method KernelFindSingleGenerator<T(!new)>(F: Ring<T>, m: FlatMatrix<UniPol<T>>, domain: UniPolModule, codomain: UniPolModule,
                                      snf: PolMat<T> -> (PolMat<T>, PolMat<T>))
    returns (found: Option<nat>)
    requires m.Valid() && |domain| == m.domain && |codomain| == m.codomain && SnfShapes(snf)
    ensures found == Found(F, m.Value(), domain, codomain, snf)
  {
    if m.codomain == 0 {
      if m.domain == 0 {
        return None;
      }
      return Some(0);
    }
    var probe := BuildProbe(F, m, codomain);
    var sv := snf(MatOf(probe.data, probe.domain, probe.codomain));
    var s, v := sv.0, sv.1;
    assert SnfShape(probe.Value(), s, v);
    var id: Option<nat> := None;
    var pow: int := PowMax;
    for r := 0 to s.codomain
      invariant Pick(id, pow) == ScanTo(F, domain, s, v, r, 0)
    {
      var el := s.rows[r][r];
      if IsZero(F, el) {
        for y := 0 to m.domain
          invariant Pick(id, pow) == ScanTo(F, domain, s, v, r, y)
        {
          var superEl := v.rows[y][r];
          if !IsZero(F, superEl) {
            if superEl.k < pow {
              if domain[y].Some? && domain[y].value <= superEl.k {
                continue;
              }
              id := Some(y);
              pow := superEl.k;
            }
          }
        }
      } else {
        SkipRow(F, domain, s, v, r, m.domain);
      }
    }
    for r := s.codomain to s.domain
      invariant Pick(id, pow) == ScanTo(F, domain, s, v, r, 0)
    {
      for y := 0 to m.domain
        invariant Pick(id, pow) == ScanTo(F, domain, s, v, r, y)
      {
        var superEl := v.rows[y][r];
        if !IsZero(F, superEl) {
          if domain[y].Some? && domain[y].value <= superEl.k {
            continue;
          }
          if superEl.k < pow {
            id := Some(y);
            pow := superEl.k;
          }
        }
      }
    }
    return id;
  }

  // ---------------------------------------------------------------------
  // kernel_destroyers (morphism.rs:30-44)

  /** The quotients of the chosen domain generators. */
  function Relations(domain: UniPolModule, ps: seq<nat>): (r: UniPolModule)
    requires forall k :: 0 <= k < |ps| ==> ps[k] < |domain|
    ensures |r| == |ps| && forall k :: 0 <= k < |ps| ==> r[k] == domain[ps[k]]
  {
    seq(|ps|, k requires 0 <= k < |ps| => domain[ps[k]])
  }

  ghost predicate InDomain(ps: seq<nat>, n: nat) {
    forall k :: 0 <= k < |ps| ==> ps[k] < n
  }

  /** The matrix and codomain after destroying the generators ps: one unit
      row per pivot, each with the pivot's own quotient. */
  function Grown<T>(F: Ring<T>, a: PolMat<T>, ps: seq<nat>): (r: PolMat<T>)
    requires Shaped(a)
    ensures Shaped(r) && r.domain == a.domain && r.codomain == a.codomain + |ps|
  {
    Linalg.WithUnitRows(PolRing(F), a, ps)
  }

  /** Destroying one generator: an extra row of zeros with a one at the
      pivot. */
  method AddUnitRow<T>(F: Ring<T>, ghost a: PolMat<T>, ghost ps: seq<nat>, mat: FlatMatrix<UniPol<T>>, pivot: nat)
    requires Shaped(a) && pivot < a.domain && mat.Valid() && mat.Value() == Grown(F, a, ps)
    modifies mat
    ensures mat.Valid() && mat.Value() == Grown(F, a, ps + [pivot])
  {
    var codom := mat.codomain;
    mat.ExtendOneRow(PolRing(F));
    mat.Set(pivot, codom, One(F));
    Linalg.WithUnitRowsStep(PolRing(F), a, ps, pivot);
  }

  /** The generators found so far, each by the search on the matrix grown
      by the ones before it. */
  ghost predicate FoundInOrder<T(!new)>(F: Ring<T>, a: PolMat<T>, domain: UniPolModule, codomain: UniPolModule,
                                        snf: PolMat<T> -> (PolMat<T>, PolMat<T>), ps: seq<nat>)
    requires Sized(a, domain, codomain) && SnfShapes(snf) && InDomain(ps, a.domain)
  {
    forall k :: 0 <= k < |ps| ==>
      Found(F, Grown(F, a, ps[..k]), domain, codomain + Relations(domain, ps[..k]), snf) == Some(ps[k])
  }

  lemma FoundInOrderStep<T(!new)>(F: Ring<T>, a: PolMat<T>, domain: UniPolModule, codomain: UniPolModule,
                                  snf: PolMat<T> -> (PolMat<T>, PolMat<T>), ps: seq<nat>, p: nat)
    requires Sized(a, domain, codomain) && SnfShapes(snf) && InDomain(ps, a.domain) && p < a.domain
    requires FoundInOrder(F, a, domain, codomain, snf, ps)
    requires Found(F, Grown(F, a, ps), domain, codomain + Relations(domain, ps), snf) == Some(p)
    ensures InDomain(ps + [p], a.domain) && FoundInOrder(F, a, domain, codomain, snf, ps + [p])
    ensures Relations(domain, ps + [p]) == Relations(domain, ps) + [domain[p]]
  {
    var qs := ps + [p];
    forall k | 0 <= k < |qs|
      ensures Found(F, Grown(F, a, qs[..k]), domain, codomain + Relations(domain, qs[..k]), snf) == Some(qs[k])
    {
      if k < |ps| {
        assert qs[..k] == ps[..k];
      } else {
        assert qs[..k] == ps;
      }
    }
  }

  /** `kernel_destroyers`: while the search finds a generator, record it,
      add a row sending it to a new codomain generator with the same
      quotient, and search again. The Rust loop runs until the search
      fails; here at most `fuel` rounds are run. */
  method KernelDestroyers<T(!new)>(F: Ring<T>, m: FlatMatrix<UniPol<T>>, domain: UniPolModule, codomain: UniPolModule,
                                   snf: PolMat<T> -> (PolMat<T>, PolMat<T>), fuel: nat)
    returns (pivots: seq<nat>)
    requires m.Valid() && |domain| == m.domain && |codomain| == m.codomain && SnfShapes(snf)
    ensures |pivots| <= fuel && InDomain(pivots, m.domain)
    ensures FoundInOrder(F, m.Value(), domain, codomain, snf, pivots)
    ensures |pivots| < fuel ==>
              Found(F, Grown(F, m.Value(), pivots), domain, codomain + Relations(domain, pivots), snf) == None
  {
    ghost var a := m.Value();
    pivots := [];
    var mat := m.Clone();
    var cod := codomain;
    while |pivots| < fuel
      invariant fresh(mat) && mat.Valid() && mat.domain == m.domain
      invariant |pivots| <= fuel && InDomain(pivots, m.domain)
      invariant mat.Value() == Grown(F, a, pivots) && cod == codomain + Relations(domain, pivots)
      invariant FoundInOrder(F, a, domain, codomain, snf, pivots)
      decreases fuel - |pivots|
    {
      var next := KernelFindSingleGenerator(F, mat, domain, cod, snf);
      if next.None? {
        return;
      }
      var pivot := next.value;
      FoundInDomain(F, mat.Value(), domain, cod, snf);
      AddUnitRow(F, a, pivots, mat, pivot);
      FoundInOrderStep(F, a, domain, codomain, snf, pivots, pivot);
      cod := cod + [domain[pivot]];
      pivots := pivots + [pivot];
    }
  }
}
