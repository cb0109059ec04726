/**
 The few Kotlin standard-library behaviours the code-entry field relies on:
 nullable values, `isDigitsOnly`, `toIntOrNull`, `Int.toString`, the
 `toString` of a nullable value, `orEmpty`, `isNullOrEmpty` and `coerceIn`.

 Strings are sequences of `char`; a digit is an ASCII digit. Kotlin also
 accepts the other Unicode decimal digits, which this model does not.
 */
module KotlinStd {

  /** A Kotlin nullable value `T?`. */
  datatype Option<+T> = None | Some(value: T)

  /** Bounds of Kotlin's 32-bit `Int`. */
  const INT_MIN: int := -0x8000_0000
  const INT_MAX: int := 0x7fff_ffff

  predicate IsAsciiDigit(c: char) {
    '0' <= c <= '9'
  }

  /** `CharSequence.isDigitsOnly()`: holds of the empty string. */
  predicate IsDigitsOnly(s: string) {
    forall k :: 0 <= k < |s| ==> IsAsciiDigit(s[k])
  }

  function DigitValue(c: char): (d: nat)
    requires IsAsciiDigit(c)
    ensures d < 10
  {
    c as int - '0' as int
  }

  function DigitChar(d: nat): (c: char)
    requires d < 10
    ensures IsAsciiDigit(c) && DigitValue(c) == d
  {
    (d + '0' as int) as char
  }

  /** The number a string of decimal digits denotes, most significant first. */
  function DecimalValue(s: string): nat
    requires IsDigitsOnly(s)
  {
    if |s| == 0 then 0 else 10 * DecimalValue(s[..|s| - 1]) + DigitValue(s[|s| - 1])
  }

  /** Decimal text of a natural number, without leading zeros. */
  function NatToString(n: nat): (s: string)
    ensures 0 < |s| && IsDigitsOnly(s)
    ensures n < 10 <==> |s| == 1
    ensures 1 < |s| ==> s[0] != '0'
    decreases n
  {
    if n < 10 then [DigitChar(n)] else NatToString(n / 10) + [DigitChar(n % 10)]
  }

  /** `Int.toString()`: a minus sign for negative values, then the digits. */
  function IntToString(n: int): string {
    if n < 0 then "-" + NatToString(-n) else NatToString(n)
  }

  /**
   `String.toIntOrNull()`: an optional leading `-` or `+`, then at least one
   digit, and the value must fit in a 32-bit `Int`; otherwise null.
   */
  function ToIntOrNull(s: string): (r: Option<int>)
    ensures r.Some? ==> INT_MIN <= r.value <= INT_MAX
    ensures r.Some? ==> 0 < |s|
  {
    if |s| == 0 then None
    else
      var signed := s[0] == '-' || s[0] == '+';
      var digits := if signed then s[1..] else s;
      if |digits| == 0 || !IsDigitsOnly(digits) then None
      else
        var magnitude: int := DecimalValue(digits);
        var v := if s[0] == '-' then -magnitude else magnitude;
        if INT_MIN <= v <= INT_MAX then Some(v) else None
  }

  /** `Any?.toString()`: a null value prints as the four letters `null`. */
  function NullableToString(o: Option<string>): string {
    match o
    case None => "null"
    case Some(s) => s
  }

  /** `Int?.toString()`. */
  function NullableIntToString(o: Option<int>): string {
    match o
    case None => "null"
    case Some(n) => IntToString(n)
  }

  /** `String?.orEmpty()`. */
  function OrEmpty(o: Option<string>): string {
    match o
    case None => ""
    case Some(s) => s
  }

  /** `CharSequence?.isNullOrEmpty()`. */
  predicate IsNullOrEmpty(o: Option<string>) {
    o.None? || o.value == ""
  }

  /**
   `Int.coerceIn(lo, hi)`: the nearest value of the range `[lo, hi]`. Kotlin
   throws when `lo > hi`; here that is the precondition.
   */
  function CoerceIn(x: int, lo: int, hi: int): (r: int)
    requires lo <= hi
    ensures lo <= r <= hi
    ensures lo <= x <= hi ==> r == x
    ensures x < lo ==> r == lo
    ensures hi < x ==> r == hi
  {
    if x < lo then lo else if hi < x then hi else x
  }

  /** The digits of `NatToString(n)` denote `n`. */
  lemma {:induction false} NatToStringValue(n: nat)
    ensures DecimalValue(NatToString(n)) == n
    decreases n
  {
    var s := NatToString(n);
    if n >= 10 {
      var prefix := NatToString(n / 10);
      assert s == prefix + [DigitChar(n % 10)];
      assert s[..|s| - 1] == prefix;
      NatToStringValue(n / 10);
    }
  }

  /** Printing an `Int` and parsing the text back gives the same `Int`. */
  lemma IntToStringRoundTrip(n: int)
    requires INT_MIN <= n <= INT_MAX
    ensures ToIntOrNull(IntToString(n)) == Some(n)
  {
    if n < 0 {
      var digits := NatToString(-n);
      var s := "-" + digits;
      assert s[1..] == digits;
      NatToStringValue(-n);
    } else {
      var s := NatToString(n);
      assert s[0] != '-' && s[0] != '+' by {
        assert IsAsciiDigit(s[0]);
      }
      NatToStringValue(n);
    }
  }

  /** A single digit parses to its value and prints back as itself. */
  lemma SingleDigitRoundTrip(c: char)
    requires IsAsciiDigit(c)
    ensures ToIntOrNull([c]) == Some(DigitValue(c))
    ensures IntToString(DigitValue(c)) == [c]
  {
    var s := [c];
    assert s[..0] == [];
    assert DecimalValue(s) == DigitValue(c);
  }
}
