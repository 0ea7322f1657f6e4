/**
 * Java's decimal rendering and parsing of 32-bit integers, as INCR uses them:
 * `String.valueOf(int)`, `Integer.parseInt(String)` and `int` increment.
 */
module Numerals {
  import opened Values

  predicate IsDigit(c: char) {
    '0' <= c <= '9'
  }

  predicate AllDigits(s: string) {
    forall i :: 0 <= i < |s| ==> IsDigit(s[i])
  }

  function DigitChar(d: nat): (c: char)
    requires d < 10
    ensures IsDigit(c) && c as int - '0' as int == d
  {
    ('0' as int + d) as char
  }

  /** The decimal digits of `n`, most significant first, without leading zeros. */
  function NatToString(n: nat): (s: string)
    ensures |s| > 0 && AllDigits(s)
    ensures n > 0 ==> s[0] != '0'
    decreases n
  {
    if n < 10 then [DigitChar(n)] else NatToString(n / 10) + [DigitChar(n % 10)]
  }

  /** The number a string of decimal digits denotes. */
  function DigitsValue(s: string): nat
    requires AllDigits(s)
  {
    if s == [] then 0 else DigitsValue(s[..|s| - 1]) * 10 + (s[|s| - 1] as int - '0' as int)
  }

  lemma {:induction false} NatToStringRoundTrip(n: nat)
    ensures DigitsValue(NatToString(n)) == n
  {
    var s := NatToString(n);
    if n >= 10 {
      assert s[..|s| - 1] == NatToString(n / 10);
      NatToStringRoundTrip(n / 10);
    } else {
      assert s[..|s| - 1] == [];
    }
  }

  /**
   * `String.valueOf(int)` (also `Integer.toString`): a '-' exactly for a
   * negative number, then decimal digits.
   */
  function IntToString(n: int): (s: string)
    ensures |s| > 0
    ensures s[0] == '-' <==> n < 0
    ensures AllDigits(if n < 0 then s[1..] else s)
  {
    if n < 0 then "-" + NatToString(-n) else NatToString(n)
  }

  /** The digits `String.valueOf(int)` writes after the sign denote the magnitude. */
  lemma IntToStringDenotes(n: int)
    ensures n < 0 ==> DigitsValue(IntToString(n)[1..]) == -n
    ensures n >= 0 ==> DigitsValue(IntToString(n)) == n
  {
    if n < 0 {
      assert IntToString(n)[1..] == NatToString(-n);
      NatToStringRoundTrip(-n);
    } else {
      NatToStringRoundTrip(n);
    }
  }

  /**
   * `Integer.parseInt(s)`: an optional '-' or '+' sign followed by at least
   * one decimal digit, whose value fits in 32 bits; `None` is the
   * NumberFormatException.
   */
  function ParseInt32(s: string): (r: Option<Int32>)
    ensures r.Some? ==> |s| > 0 && (IsDigit(s[0]) || s[0] == '-' || s[0] == '+')
    ensures r.Some? && r.value < 0 ==> s[0] == '-'
  {
    if |s| == 0 then None
    else
      var negative := s[0] == '-';
      var digits := if s[0] == '-' || s[0] == '+' then s[1..] else s;
      if |digits| == 0 || !AllDigits(digits) then None
      else
        var v: int := if negative then -(DigitsValue(digits) as int) else DigitsValue(digits);
        if MIN_INT <= v <= MAX_INT then Some(v) else None
  }

  /** Every 32-bit integer reads back from its decimal text. */
  lemma ParseIntToStringRoundTrip(n: Int32)
    ensures ParseInt32(IntToString(n)) == Some(n)
  {
    var s := IntToString(n);
    if n < 0 {
      var digits := NatToString(-(n as int));
      assert s[0] == '-' && s[1..] == digits;
      NatToStringRoundTrip(-(n as int));
      assert DigitsValue(digits) == -(n as int);
    } else {
      NatToStringRoundTrip(n);
      assert s[0] != '-' && s[0] != '+';
    }
  }

  /** A text whose first character is neither a sign nor a digit never parses. */
  lemma ParseRejectsForeignStart(s: string)
    requires |s| > 0 && !IsDigit(s[0]) && s[0] != '-' && s[0] != '+'
    ensures ParseInt32(s) == None
  {
  }

  /** Java's `numericValue++` on an `int`: two's-complement wrap-around at 2^31. */
  function Inc32(n: Int32): (r: Int32)
    ensures (r - n - 1) % 0x1_0000_0000 == 0
  {
    if n == MAX_INT then MIN_INT else n + 1
  }
}
