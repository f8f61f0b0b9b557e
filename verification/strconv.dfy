/**
  Base-10, 64-bit integer parsing as performed by Go's `strconv.ParseInt(s, 10, 64)`,
  and the optional-parameter wrapper `parseOptionalInt64` that the product listing
  handler applies to its price bounds.

  The parser is modelled after the digit loop of `strconv.ParseUint` (accumulate,
  stop at the first non-digit with a syntax error or at the first overflow with a
  range error) and is proved equal to a declarative description of well-formed
  decimal literals. `FormatInt` is an independent renderer used to state the
  round trip.
*/
module Strconv {
  import opened Wrappers

  const MinInt64: int := -0x8000_0000_0000_0000
  const MaxInt64: int := 0x7fff_ffff_ffff_ffff
  const MaxUint64: int := 0xffff_ffff_ffff_ffff

  /** Go's `int64`. */
  type Int64 = x: int | MinInt64 <= x <= MaxInt64

  /** The two causes a `*strconv.NumError` reports. */
  datatype NumError = ErrSyntax | ErrRange

  predicate IsDigit(c: char) {
    '0' <= c <= '9'
  }

  predicate AllDigits(s: string) {
    forall i :: 0 <= i < |s| ==> IsDigit(s[i])
  }

  function DigitValue(c: char): nat
    requires IsDigit(c)
  {
    c as int - '0' as int
  }

  /** The number a string of decimal digits denotes, read left to right. */
  function Value(s: string): nat
    requires AllDigits(s)
  {
    if |s| == 0 then 0 else Value(s[..|s| - 1]) * 10 + DigitValue(s[|s| - 1])
  }

  /** Length of the longest prefix of `s` made only of digits. */
  function DigitRun(s: string): (k: nat)
    ensures k <= |s|
    ensures AllDigits(s[..k])
    ensures k < |s| ==> !IsDigit(s[k])
  {
    if |s| == 0 || !IsDigit(s[0]) then 0
    else
      var k' := DigitRun(s[1..]);
      assert s[..1 + k'] == [s[0]] + s[1..][..k'];
      1 + k'
  }

  /** `s` without its leading sign character, if it has one. */
  function Magnitude(s: string): string {
    if |s| > 0 && (s[0] == '+' || s[0] == '-') then s[1..] else s
  }

  predicate IsNegative(s: string) {
    |s| > 0 && s[0] == '-'
  }

  /** A base-10 integer literal: an optional sign, then one or more digits. */
  predicate IsDecimal(s: string) {
    |Magnitude(s)| > 0 && AllDigits(Magnitude(s))
  }

  /** The integer a base-10 literal denotes (unbounded). */
  function DecimalValue(s: string): int
    requires IsDecimal(s)
  {
    if IsNegative(s) then -(Value(Magnitude(s)) as int) else Value(Magnitude(s))
  }

  predicate InInt64(x: int) {
    MinInt64 <= x <= MaxInt64
  }

  /** What `ParseInt` accepts: a base-10 literal whose value fits in int64. */
  predicate IsInt64Literal(s: string) {
    IsDecimal(s) && InInt64(DecimalValue(s))
  }

  lemma {:induction false} ValueStep(s: string, i: nat)
    requires i < |s| && AllDigits(s[..i + 1])
    ensures AllDigits(s[..i]) && IsDigit(s[i])
    ensures Value(s[..i + 1]) == Value(s[..i]) * 10 + DigitValue(s[i])
  {
    assert s[..i + 1][..i] == s[..i];
    assert s[..i + 1][i] == s[i];
  }

  /** Reading more digits never makes the value smaller. */
  lemma {:induction false} ValueMonotone(s: string, j: nat, k: nat)
    requires j <= k <= |s| && AllDigits(s[..k])
    ensures AllDigits(s[..j]) && Value(s[..j]) <= Value(s[..k])
  {
    if j < k {
      assert AllDigits(s[..k - 1]) by {
        assert forall i :: 0 <= i < k - 1 ==> s[..k - 1][i] == s[..k][i];
      }
      ValueMonotone(s, j, k - 1);
      ValueStep(s, k - 1);
    }
  }

  /** Smallest accumulator for which one more decimal digit overflows uint64. */
  const Cutoff: nat := MaxUint64 / 10 + 1

  /**
    The digit loop of `strconv.ParseUint` for base 10 and 64 bits, from position
    `i` with accumulator `n`: a non-digit stops it with a syntax error, an
    accumulator that would exceed the uint64 range stops it with a range error.
    The outcome depends only on the digit run at the front of `s`.
  */
  function ScanDigits(s: string, i: nat, n: nat): (r: Result<nat, NumError>)
    requires i <= DigitRun(s)
    requires AllDigits(s[..i]) && n == Value(s[..i]) && n <= MaxUint64
    decreases |s| - i
    ensures r.Ok? <==> AllDigits(s) && Value(s) <= MaxUint64
    ensures r.Ok? ==> r.value == Value(s)
    ensures r == Err(ErrRange) <==> Value(s[..DigitRun(s)]) > MaxUint64
  {
    var k := DigitRun(s);
    assert AllDigits(s) <==> k == |s| by {
      if k < |s| { assert !IsDigit(s[k]); }
      else { assert s[..k] == s; }
    }
    if i == |s| then
      assert s[..i] == s;
      Ok(n)
    else if !IsDigit(s[i]) then
      assert i == k;
      Err(ErrSyntax)
    else
      assert i < k;
      ValueStep(s, i);
      ValueMonotone(s, i + 1, k);
      assert k == |s| ==> s[..k] == s;
      if n >= Cutoff then
        Err(ErrRange)
      else
        var n1 := n * 10 + DigitValue(s[i]);
        if n1 > MaxUint64 then Err(ErrRange)
        else ScanDigits(s, i + 1, n1)
  }

  /** `strconv.ParseUint(s, 10, 64)`. */
  function ParseUint(s: string): (r: Result<nat, NumError>)
    ensures r.Ok? <==> |s| > 0 && AllDigits(s) && Value(s) <= MaxUint64
    ensures r.Ok? ==> r.value == Value(s)
    ensures r == Err(ErrRange) <==> Value(s[..DigitRun(s)]) > MaxUint64
  {
    if s == "" then Err(ErrSyntax)
    else
      assert s[..0] == [];
      ScanDigits(s, 0, 0)
  }

  /** Go's cutoff in `ParseInt` for 64 bits: 1 << 63. */
  const SignBit: nat := 0x8000_0000_0000_0000

  /**
    `strconv.ParseInt(s, 10, 64)`: an optional `+` or `-`, then the unsigned
    digit loop, then a check that the magnitude fits the signed range.
    Succeeds exactly on the base-10 literals whose value fits in int64.
  */
  function ParseInt(s: string): (r: Result<Int64, NumError>)
    ensures r.Ok? <==> IsDecimal(s) && InInt64(DecimalValue(s))
    ensures r.Ok? ==> r.value == DecimalValue(s)
    ensures IsDecimal(s) && !InInt64(DecimalValue(s)) ==> r == Err(ErrRange)
    ensures |Magnitude(s)| == 0 ==> r == Err(ErrSyntax)
  {
    if s == "" then Err(ErrSyntax)
    else
      var neg := s[0] == '-';
      var digits := if s[0] == '+' || s[0] == '-' then s[1..] else s;
      assert digits == Magnitude(s);
      assert AllDigits(digits) ==> digits[..DigitRun(digits)] == digits;
      match ParseUint(digits)
      case Err(e) => Err(e)
      case Ok(un) =>
        if !neg && un >= SignBit then Err(ErrRange)
        else if neg && un > SignBit then Err(ErrRange)
        else Ok(if neg then -(un as int) else un)
  }

  /**
    `parseOptionalInt64`: an absent query parameter (the empty string) yields the
    default, anything else must be an int64 literal.
  */
  function ParseOptionalInt64(value: string, defaultValue: Int64): (r: Result<Int64, NumError>)
    ensures value == "" ==> r == Ok(defaultValue)
    ensures value != "" ==> (r.Ok? <==> IsDecimal(value) && InInt64(DecimalValue(value)))
    ensures value != "" && r.Ok? ==> r.value == DecimalValue(value)
  {
    if value == "" then Ok(defaultValue) else ParseInt(value)
  }

  function DigitChar(d: nat): (c: char)
    requires d < 10
    ensures IsDigit(c) && DigitValue(c) == d
  {
    ('0' as int + d) as char
  }

  /** The base-10 rendering of a natural number, without leading zeros. */
  function FormatNat(n: nat): string
    decreases n
  {
    if n < 10 then [DigitChar(n)] else FormatNat(n / 10) + [DigitChar(n % 10)]
  }

  /** `strconv.FormatInt(v, 10)`: the inverse partner of `ParseInt`. */
  function FormatInt(v: int): string {
    if v < 0 then "-" + FormatNat(-v) else FormatNat(v)
  }

  lemma {:induction false} FormatNatValue(n: nat)
    ensures |FormatNat(n)| > 0 && AllDigits(FormatNat(n))
    ensures Value(FormatNat(n)) == n
  {
    var s := FormatNat(n);
    if n >= 10 {
      FormatNatValue(n / 10);
      assert s[..|s| - 1] == FormatNat(n / 10);
    }
  }

  /** Every int64 survives rendering and parsing back. */
  lemma ParseFormatRoundTrip(v: Int64)
    ensures ParseInt(FormatInt(v)) == Ok(v)
  {
    var s := FormatInt(v);
    var a: nat := if v < 0 then -(v as int) else v;
    var m := FormatNat(a);
    FormatNatValue(a);
    assert IsDigit(m[0]);
    assert Magnitude(s) == m;
    assert IsDecimal(s) && DecimalValue(s) == v;
  }
}
