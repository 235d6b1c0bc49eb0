/** String helpers with the behaviour of the Rust standard library functions
    the parsers rely on: `trim`, `split_once`, `split`, `starts_with` and the
    integer `from_str` of a type with a given range. */
module Text {
  import opened Wrappers

  /** `char::is_whitespace`: the Unicode White_Space property. */
  predicate IsWhitespace(c: char) {
    var n := c as int;
    n == 0x20 || 0x09 <= n <= 0x0D || n == 0x85 || n == 0xA0 || n == 0x1680
    || 0x2000 <= n <= 0x200A || n == 0x2028 || n == 0x2029 || n == 0x202F
    || n == 0x205F || n == 0x3000
  }

  /** How many whitespace characters `s` starts with. */
  function LeadingSpace(s: string): (n: nat)
    ensures n <= |s|
    ensures forall i :: 0 <= i < n ==> IsWhitespace(s[i])
    ensures n < |s| ==> !IsWhitespace(s[n])
  {
    if s != [] && IsWhitespace(s[0]) then 1 + LeadingSpace(s[1..]) else 0
  }

  /** Where the whitespace `s` ends with begins. */
  function TrailingSpace(s: string): (n: nat)
    ensures n <= |s|
    ensures forall i :: n <= i < |s| ==> IsWhitespace(s[i])
    ensures 0 < n ==> !IsWhitespace(s[n - 1])
  {
    if s != [] && IsWhitespace(s[|s| - 1]) then TrailingSpace(s[..|s| - 1]) else |s|
  }

  /** `str::trim_start` */
  function TrimStart(s: string): string {
    s[LeadingSpace(s)..]
  }

  /** `str::trim_end` */
  function TrimEnd(s: string): string {
    s[..TrailingSpace(s)]
  }

  /** `str::trim`: both ends, nothing in the middle. */
  function Trim(s: string): (r: string)
    ensures r == [] || (!IsWhitespace(r[0]) && !IsWhitespace(r[|r| - 1]))
  {
    TrimEnd(TrimStart(s))
  }

  /** What trimming removes sits before and after what it keeps. */
  lemma TrimInfix(s: string) returns (a: string, b: string)
    ensures s == a + Trim(s) + b
  {
    var u := TrimStart(s);
    a, b := s[..|s| - |u|], u[|Trim(s)|..];
    assert s == a + u;
    assert u == Trim(s) + b;
  }

  /** Index of the first occurrence of `c`, if any. */
  function Find(s: string, c: char): (r: Option<nat>)
    ensures r.None? <==> c !in s
    ensures r.Some? ==> r.value < |s| && s[r.value] == c && c !in s[..r.value]
  {
    if s == [] then None
    else if s[0] == c then Some(0)
    else
      match Find(s[1..], c)
      case None => None
      case Some(k) =>
        assert s[..k + 1] == [s[0]] + s[1..][..k];
        Some(k + 1)
  }

  /** `str::split_once(c)`: the text before and after the first `c`. */
  function SplitOnce(s: string, c: char): (r: Option<(string, string)>)
    ensures r.None? <==> c !in s
    ensures r.Some? ==> s == r.value.0 + [c] + r.value.1 && c !in r.value.0
  {
    match Find(s, c)
    case None => None
    case Some(k) =>
      assert s == s[..k] + [c] + s[k + 1..];
      Some((s[..k], s[k + 1..]))
  }

  /** `str::split(c)` collected: the pieces between the occurrences of `c`. */
  function Split(s: string, c: char): (r: seq<string>)
    ensures |r| >= 1
    ensures forall i :: 0 <= i < |r| ==> c !in r[i]
    ensures Join(r, c) == s
    decreases |s|
  {
    match SplitOnce(s, c)
    case None => [s]
    case Some((a, b)) => [a] + Split(b, c)
  }

  /** The inverse of `Split`: the pieces with `c` between them. */
  function Join(parts: seq<string>, c: char): string
  {
    if |parts| <= 1 then (if parts == [] then [] else parts[0])
    else parts[0] + [c] + Join(parts[1..], c)
  }

  /** Splitting what `Join` put together gives the pieces back. */
  lemma {:induction false} SplitJoin(parts: seq<string>, c: char)
    requires |parts| >= 1
    requires forall i :: 0 <= i < |parts| ==> c !in parts[i]
    ensures Split(Join(parts, c), c) == parts
  {
    if |parts| > 1 {
      var rest := Join(parts[1..], c);
      assert c !in parts[0];
      assert parts[0] + [c] + rest == Join(parts, c);
      SplitOnceFirst(parts[0], rest, c);
      SplitJoin(parts[1..], c);
    } else {
      assert c !in parts[0];
    }
  }

  lemma SplitOnceFirst(a: string, b: string, c: char)
    requires c !in a
    ensures SplitOnce(a + [c] + b, c) == Some((a, b))
  {
    var s := a + [c] + b;
    var k := Find(s, c).value;
    assert k == |a| by {
      assert s[|a|] == c;
      assert forall i :: 0 <= i < |a| ==> s[i] == a[i];
    }
    assert s[..k] == a && s[k + 1..] == b;
  }

  function StartsWith(s: string, c: char): bool { |s| > 0 && s[0] == c }
  function EndsWith(s: string, c: char): bool { |s| > 0 && s[|s| - 1] == c }

  // ---------------------------------------------------------------------
  // Decimal integers

  predicate IsDigit(c: char) { '0' <= c <= '9' }

  predicate AllDigits(s: string) { forall i :: 0 <= i < |s| ==> IsDigit(s[i]) }

  function DigitsValue(s: string): (n: nat)
    requires AllDigits(s)
  {
    if s == [] then 0 else 10 * DigitsValue(s[..|s| - 1]) + (s[|s| - 1] - '0') as int
  }

  /** The decimal digits of `n`, without leading zeros ("0" for zero). */
  function Digits(n: nat): (s: string)
    ensures |s| >= 1 && AllDigits(s)
  {
    if n < 10 then [('0' as int + n) as char]
    else Digits(n / 10) + [('0' as int + n % 10) as char]
  }

  lemma {:induction false} DigitsValueOfDigits(n: nat)
    ensures DigitsValue(Digits(n)) == n
  {
    if n >= 10 {
      var s := Digits(n);
      assert s[..|s| - 1] == Digits(n / 10);
      DigitsValueOfDigits(n / 10);
    }
  }

  /** The decimal text of `n`, with a minus sign when negative. */
  function Decimal(n: int): (s: string)
  {
    if n < 0 then "-" + Digits(-n) else Digits(n)
  }

  /** Why a number did not parse (Rust's `IntErrorKind`). */
  datatype IntError = Empty | InvalidDigit | OutOfRange

  /** `from_str` for a Rust integer type whose values are `lo..=hi`: an
      optional sign ('-' only for signed types), then one or more ASCII
      digits, and a value in range. */
  function ParseInt(s: string, lo: int, hi: int): (r: Result<int, IntError>)
    requires lo <= 0 <= hi
    ensures r.Ok? ==> lo <= r.value <= hi
    ensures r.Ok? ==> |s| >= 1
    ensures s == [] ==> r == Err(Empty)
  {
    if s == [] then Err(Empty)
    else if (s[0] == '+' || s[0] == '-') && |s| == 1 then Err(InvalidDigit)
    else
      var negative := s[0] == '-' && lo < 0;
      var digits := if s[0] == '+' || negative then s[1..] else s;
      if !AllDigits(digits) then Err(InvalidDigit)
      else
        var v: int := if negative then -(DigitsValue(digits) as int) else DigitsValue(digits);
        if lo <= v <= hi then Ok(v) else Err(OutOfRange)
  }

  /** The literals `from_str` accepts for an integer type: an optional '+'
      (or '-' when the type is signed) followed by one or more ASCII
      digits. */
  predicate IsLiteral(s: string, signed: bool) {
    var digits := if s != [] && (s[0] == '+' || (signed && s[0] == '-')) then s[1..] else s;
    digits != [] && AllDigits(digits)
  }

  /** The value a literal denotes. */
  function LiteralValue(s: string, signed: bool): int
    requires IsLiteral(s, signed)
  {
    if signed && s[0] == '-' then -(DigitsValue(s[1..]) as int)
    else if s[0] == '+' then DigitsValue(s[1..])
    else DigitsValue(s)
  }

  /** A literal whose value lies in `lo..=hi`, the values of the type. */
  predicate IsIntLiteral(s: string, lo: int, hi: int) {
    IsLiteral(s, lo < 0) && lo <= LiteralValue(s, lo < 0) <= hi
  }

  /** `from_str` succeeds exactly on the literals of the type's range, and
      gives their value. */
  lemma ParseIntLiteral(s: string, lo: int, hi: int)
    requires lo <= 0 <= hi
    ensures ParseInt(s, lo, hi).Ok? <==> IsIntLiteral(s, lo, hi)
    ensures ParseInt(s, lo, hi).Ok? ==> ParseInt(s, lo, hi).value == LiteralValue(s, lo < 0)
  {
  }

  /** Printing a number in range and parsing it back gives the number. */
  lemma ParseDecimal(n: int, lo: int, hi: int)
    requires lo <= 0 <= hi && lo <= n <= hi
    ensures ParseInt(Decimal(n), lo, hi) == Ok(n)
  {
    var s := Decimal(n);
    if n < 0 {
      var ds := Digits(-n);
      DigitsValueOfDigits(-n);
      assert s[0] == '-' && |s| >= 2 && lo < 0;
      assert s[1..] == ds;
    } else {
      DigitsValueOfDigits(n);
      assert s == Digits(n) && IsDigit(s[0]);
    }
  }

  /** A decimal numeral has no whitespace and no separator characters: it
      is an optional minus sign followed by digits. */
  lemma DecimalChars(n: int)
    ensures |Decimal(n)| >= 1 && IsDigit(Decimal(n)[|Decimal(n)| - 1])
    ensures forall i :: 0 <= i < |Decimal(n)| ==> Decimal(n)[i] == '-' || IsDigit(Decimal(n)[i])
    ensures ',' !in Decimal(n)
  {
    var s := Decimal(n);
    assert forall i :: 0 <= i < |s| ==> s[i] != ',';
  }

  /** Trimming text that starts and ends with non-whitespace changes nothing. */
  lemma TrimUnchanged(s: string)
    requires s != [] && !IsWhitespace(s[0]) && !IsWhitespace(s[|s| - 1])
    ensures Trim(s) == s
  {
  }

  /** Trimming removes leading spaces. */
  lemma {:induction false} TrimLeadingSpace(s: string)
    requires s != [] && !IsWhitespace(s[0]) && !IsWhitespace(s[|s| - 1])
    ensures Trim(" " + s) == s
  {
    assert (" " + s)[1..] == s;
    assert TrimStart(" " + s) == TrimStart(s) == s;
    assert TrimEnd(s) == s;
  }

  const I16_MIN: int := -0x8000
  const I16_MAX: int := 0x7FFF
  const I32_MIN: int := -0x8000_0000
  const I32_MAX: int := 0x7FFF_FFFF
  const U16_MAX: int := 0xFFFF
  const USIZE_MAX: int := 0xFFFF_FFFF_FFFF_FFFF
}
