/**
 The stateless validation predicates of the forms package. Strings are
 sequences of Unicode code points, so Go's `utf8.RuneCountInString` is the
 sequence length.
 */
module Validation {
  import Decimal

  /** Go's `unicode.IsSpace`: the Latin-1 spaces and the other White_Space code points. */
  predicate IsSpace(c: char) {
    var n := c as int;
    n == 0x09 || n == 0x0A || n == 0x0B || n == 0x0C || n == 0x0D || n == 0x20
    || n == 0x85 || n == 0xA0 || n == 0x1680 || (0x2000 <= n <= 0x200A)
    || n == 0x2028 || n == 0x2029 || n == 0x202F || n == 0x205F || n == 0x3000
  }

  /** Drops the longest all-space prefix. */
  function TrimLeft(s: string): (r: string)
    ensures |r| <= |s| && r == s[|s| - |r|..]
    ensures forall i :: 0 <= i < |s| - |r| ==> IsSpace(s[i])
    ensures |r| > 0 ==> !IsSpace(r[0])
    decreases |s|
  {
    if |s| > 0 && IsSpace(s[0]) then TrimLeft(s[1..]) else s
  }

  /** Drops the longest all-space suffix. */
  function TrimRight(s: string): (r: string)
    ensures |r| <= |s| && r == s[..|r|]
    ensures forall i :: |r| <= i < |s| ==> IsSpace(s[i])
    ensures |r| > 0 ==> !IsSpace(r[|r| - 1])
    decreases |s|
  {
    if |s| > 0 && IsSpace(s[|s| - 1]) then TrimRight(s[..|s| - 1]) else s
  }

  /** `strings.TrimSpace`: leading and trailing white space removed. */
  function TrimSpace(s: string): string {
    TrimRight(TrimLeft(s))
  }

  /** A non-space character survives trimming. */
  lemma TrimSpaceKeeps(s: string, i: int)
    requires 0 <= i < |s| && !IsSpace(s[i])
    ensures TrimSpace(s) != ""
  {
    var l := TrimLeft(s);
    assert l[i - (|s| - |l|)] == s[i];
  }

  /** What trimming leaves ends in a non-space character of the original. */
  lemma TrimSpaceWitness(s: string)
    requires TrimSpace(s) != ""
    ensures exists i :: 0 <= i < |s| && !IsSpace(s[i])
  {
    var l := TrimLeft(s);
    var r := TrimRight(l);
    assert r[|r| - 1] == l[|r| - 1] == s[|s| - |l| + |r| - 1];
  }

  /** Trimming leaves something exactly when some character is not white space. */
  lemma TrimSpaceEmpty(s: string)
    ensures TrimSpace(s) != "" <==> exists i :: 0 <= i < |s| && !IsSpace(s[i])
  {
    if TrimSpace(s) != "" {
      TrimSpaceWitness(s);
    }
    forall i | 0 <= i < |s| && !IsSpace(s[i])
      ensures TrimSpace(s) != ""
    {
      TrimSpaceKeeps(s, i);
    }
  }

  /** NotBlank: the value holds at least one non-white-space character. */
  function NotBlank(value: string): (r: bool)
    ensures r <==> exists i :: 0 <= i < |value| && !IsSpace(value[i])
  {
    TrimSpaceEmpty(value);
    TrimSpace(value) != ""
  }

  /** The first `n` characters of `s`, or all of `s` when it is shorter. */
  function Prefix(s: string, n: nat): (r: string)
    ensures r <= s
    ensures |r| == if n < |s| then n else |s|
  {
    if n < |s| then s[..n] else s
  }

  /** MaxChars: at most `n` characters, so cutting the value to `n` characters loses nothing. */
  function MaxChars(value: string, n: int): (r: bool)
    ensures r <==> n >= 0 && Prefix(value, n) == value
  {
    |value| <= n
  }

  /** MinChars: at least `n` characters, which is exactly being too long for `n - 1`. */
  function MinChars(value: string, n: int): (r: bool)
    ensures r <==> !MaxChars(value, n - 1)
  {
    |value| >= n
  }

  /** A value is long enough for `n` exactly when it is too long for `n - 1`. */
  lemma MinCharsIsNotMaxChars(value: string, n: int)
    ensures MinChars(value, n) == !MaxChars(value, n - 1)
    ensures MaxChars(value, |value|) && !MaxChars(value, |value| - 1)
  {
  }

  /** PermittedValue: `value` occurs among the permitted values; nothing is permitted by an empty list. */
  function PermittedValue<T(==)>(value: T, permitted: seq<T>): (r: bool)
    ensures r <==> value in permitted
    ensures permitted == [] ==> !r
    decreases |permitted|
  {
    |permitted| > 0 && (permitted[0] == value || PermittedValue(value, permitted[1..]))
  }

  /**
   A `time.Time` as seconds since January 1 of year 1 UTC plus nanoseconds;
   the Go zero value `time.Time{}` is both zero.
   */
  datatype Time = Time(seconds: int, nanos: nat)

  const ZeroTime: Time := Time(0, 0)

  /** ValidDate: rejects exactly the zero time. */
  function ValidDate(date: Time): (r: bool)
    ensures r <==> date != ZeroTime
  {
    !(date.seconds == 0 && date.nanos == 0)
  }

  /** Matches: the value is accepted by the regular expression, which the caller supplies as a predicate. */
  function Matches(value: string, rx: string -> bool): (r: bool)
    ensures r <==> rx(value)
  {
    rx(value)
  }

  /** ValidNumber: `strconv.ParseInt(value, 10, 64)` succeeds. */
  function ValidNumber(value: string): (r: bool)
    ensures r ==> |value| > 0 && (value[0] == '+' || value[0] == '-' || Decimal.IsDigit(value[0]))
    ensures r && (value[0] == '+' || value[0] == '-') ==> |value| >= 2
    ensures r ==> forall i :: 1 <= i < |value| ==> Decimal.IsDigit(value[i])
    ensures r <==> Decimal.WellShaped(value) && Decimal.InInt64(Decimal.Signed(value))
  {
    if Decimal.ParseInt64(value).Some? then Decimal.ParsedShape(value); true else false
  }

  /** Every `int64`, written with `%d`, is a valid number; a value outside the `int64` range is not. */
  lemma ValidNumberOfFormatted(n: int)
    ensures ValidNumber(Decimal.FormatInt(n)) <==> Decimal.InInt64(n)
  {
    Decimal.FormatParseRoundTrip(n);
  }

  /** MaxNumber: `value <= max`, with no lower bound. */
  function MaxNumber(value: int, max: int): bool {
    value <= max
  }

  /** MaxNumber accepts the bound and everything below it, however small, and nothing above it. */
  lemma MaxNumberHasNoLowerBound(value: int, max: int, smaller: int)
    requires MaxNumber(value, max) && smaller <= value
    ensures MaxNumber(smaller, max)
    ensures MaxNumber(max, max) && !MaxNumber(max + 1, max)
  {
  }

  /** Signs and leading zeros are accepted; a lone sign, an underscore or a space is not. */
  lemma ValidNumberExamples()
    ensures ValidNumber("+5") && ValidNumber("007") && ValidNumber("-0")
    ensures !ValidNumber("") && !ValidNumber("-") && !ValidNumber("1_000") && !ValidNumber(" 5")
  {
    assert "+5"[1..] == "5" && "5"[..0] == "";
    assert Decimal.Signed("+5") == 5;
    assert "007"[..2] == "00" && "00"[..1] == "0" && "0"[..0] == "";
    assert Decimal.Signed("007") == 7;
    assert "-0"[1..] == "0";
    assert Decimal.Signed("-0") == 0;
    assert !Decimal.IsDigit('_') && !Decimal.IsDigit(' ');
    assert "1_000"[1] == '_';
  }

  /** Both ends of the `int64` range are accepted, and one past either end is not. */
  lemma ValidNumberBounds()
    ensures ValidNumber(Decimal.FormatInt(Decimal.Int64Min)) && ValidNumber(Decimal.FormatInt(Decimal.Int64Max))
    ensures !ValidNumber(Decimal.FormatInt(Decimal.Int64Min - 1)) && !ValidNumber(Decimal.FormatInt(Decimal.Int64Max + 1))
  {
    ValidNumberOfFormatted(Decimal.Int64Min);
    ValidNumberOfFormatted(Decimal.Int64Max);
    ValidNumberOfFormatted(Decimal.Int64Min - 1);
    ValidNumberOfFormatted(Decimal.Int64Max + 1);
  }

  /** The blank cases of the NotBlank test: the empty string and white space only. */
  lemma BlankExamples()
    ensures !NotBlank("") && !NotBlank("   \t\n")
  {
    var ws := "   \t\n";
    assert ws == [' ', ' ', ' ', '\t', '\n'];
    assert forall i :: 0 <= i < |ws| ==> IsSpace(ws[i]);
  }

  /** The non-blank cases of the NotBlank test: surrounding white space does not matter. */
  lemma NotBlankExamples()
    ensures NotBlank("hello") && NotBlank("  hello  ")
  {
    assert "hello"[0] == 'h';
    assert "  hello  "[2] == 'h';
  }

  /** The cases of the MaxChars test: the limit itself passes, one more fails. */
  lemma MaxCharsExamples()
    ensures MaxChars("", 5) && MaxChars("12345", 5) && MaxChars("123", 5) && !MaxChars("123456", 5)
  {
  }

  /** The table-driven cases of the PermittedValue test. */
  lemma PermittedValueExamples()
    ensures PermittedValue(1, [1, 2, 3]) && !PermittedValue(4, [1, 2, 3])
    ensures !PermittedValue("reading", [])
  {
  }

  /** The cases of the ValidDate test: the zero time fails; January 1 2024 and December 25 2020, both at midnight UTC, pass. */
  lemma ValidDateExamples()
    ensures !ValidDate(ZeroTime)
    ensures ValidDate(Time(63839664000, 0)) && ValidDate(Time(63744451200, 0))
  {
  }
}
