/**
 Decimal integers as Go's `strconv.ParseInt(s, 10, 64)` reads them and as
 `fmt`'s `%d` verb writes them.
 */
module Decimal {
  import opened Wrappers

  const Int64Min: int := -0x8000_0000_0000_0000
  const Int64Max: int := 0x7FFF_FFFF_FFFF_FFFF

  /** `n` is representable as a Go `int64`. */
  predicate InInt64(n: int) {
    Int64Min <= n <= Int64Max
  }

  predicate IsDigit(c: char) {
    '0' <= c <= '9'
  }

  /** Every character is a decimal digit (the empty string qualifies). */
  predicate AllDigits(s: string) {
    forall i :: 0 <= i < |s| ==> IsDigit(s[i])
  }

  /** The value of a string of decimal digits, most significant first. */
  function DigitsValue(s: string): nat
    requires AllDigits(s)
    decreases |s|
  {
    if |s| == 0 then 0
    else 10 * DigitsValue(s[..|s| - 1]) + (s[|s| - 1] as int - '0' as int)
  }

  function DigitChar(d: int): (c: char)
    requires 0 <= d < 10
    ensures IsDigit(c) && c as int - '0' as int == d
  {
    ('0' as int + d) as char
  }

  /** The shortest decimal spelling of a natural number. */
  function FormatNat(n: nat): (s: string)
    ensures |s| > 0 && AllDigits(s)
    ensures DigitsValue(s) == n
    decreases n
  {
    if n < 10 then [DigitChar(n)]
    else
      var s := FormatNat(n / 10) + [DigitChar(n % 10)];
      assert s[..|s| - 1] == FormatNat(n / 10);
      s
  }

  /** `%d` of an integer: a leading `-` for negative values, no sign otherwise. */
  function FormatInt(n: int): (s: string)
    ensures |s| > 0
    ensures n < 0 <==> s[0] == '-'
    ensures s[0] != '+'
  {
    if n < 0 then "-" + FormatNat(-n) else FormatNat(n)
  }

  /** An optional `+` or `-` in front, then one or more decimal digits and nothing else. */
  predicate WellShaped(s: string) {
    && |s| > 0
    && (s[0] == '+' || s[0] == '-' || IsDigit(s[0]))
    && (s[0] == '+' || s[0] == '-' ==> |s| >= 2)
    && forall i :: 1 <= i < |s| ==> IsDigit(s[i])
  }

  /** The value a well-shaped text spells: its digits' value, negated after a `-`. */
  function Signed(s: string): int
    requires WellShaped(s)
  {
    if s[0] == '-' then -(DigitsValue(s[1..]) as int)
    else if s[0] == '+' then DigitsValue(s[1..])
    else DigitsValue(s)
  }

  /**
   `strconv.ParseInt(s, 10, 64)`: an optional `+` or `-`, then one or more
   decimal digits (no underscores, since the base is given), whose value must
   fit in an `int64`; `None` stands for both the syntax and the range error.
   */
  function ParseInt64(s: string): (r: Option<int>)
    ensures r.Some? <==> WellShaped(s) && InInt64(Signed(s))
    ensures r.Some? ==> r.value == Signed(s) && InInt64(r.value)
  {
    if |s| == 0 then None
    else
      var digits := if s[0] == '+' || s[0] == '-' then s[1..] else s;
      if |digits| == 0 || !AllDigits(digits) then None
      else
        var v: int := if s[0] == '-' then -(DigitsValue(digits) as int) else DigitsValue(digits);
        if InInt64(v) then Some(v) else None
  }

  /** Reading back what `%d` wrote gives the number again, exactly when it fits in an `int64`. */
  lemma FormatParseRoundTrip(n: int)
    ensures ParseInt64(FormatInt(n)) == if InInt64(n) then Some(n) else None
  {
    if n < 0 {
      assert FormatInt(n)[1..] == FormatNat(-n);
    }
  }

  /** A string `ParseInt64` accepts is an optional sign followed by at least one digit. */
  lemma ParsedShape(s: string)
    requires ParseInt64(s).Some?
    ensures |s| > 0
    ensures s[0] == '+' || s[0] == '-' || IsDigit(s[0])
    ensures s[0] == '+' || s[0] == '-' ==> |s| >= 2
    ensures forall i :: 1 <= i < |s| ==> IsDigit(s[i])
  {
    if s[0] == '+' || s[0] == '-' {
      assert forall i :: 1 <= i < |s| ==> s[i] == s[1..][i - 1];
    } else {
      assert IsDigit(s[0]);
    }
  }
}
