/**
 Conversions between numbers and strings: `String(n)` for natural numbers,
 and `Number(s)` restricted to strings that hold a plain decimal integer.
 */
module JsNumber {
  import opened JsString

  predicate IsDigit(c: char) {
    '0' <= c <= '9'
  }

  predicate AllDigits(s: string) {
    forall i :: 0 <= i < |s| ==> IsDigit(s[i])
  }

  function DigitChar(d: int): (c: char)
    requires 0 <= d <= 9
    ensures IsDigit(c)
  {
    ('0' as int + d) as char
  }

  function DigitValue(c: char): (d: nat)
    requires IsDigit(c)
    ensures d <= 9 && DigitChar(d) == c
  {
    c as int - '0' as int
  }

  lemma DigitValueOfChar(d: int)
    requires 0 <= d <= 9
    ensures DigitValue(DigitChar(d)) == d
  {
  }

  /** The value of a string of decimal digits (the empty string counts as 0). */
  function DigitsValue(s: string): nat
    requires AllDigits(s)
  {
    if s == [] then 0 else DigitsValue(s[..|s| - 1]) * 10 + DigitValue(s[|s| - 1])
  }

  /** `String(n)` for a natural number: its decimal digits, without leading zeros. */
  function DecimalString(n: nat): (r: string)
    ensures |r| >= 1 && AllDigits(r)
    ensures r[0] == '0' ==> n == 0
  {
    if n < 10 then [DigitChar(n)] else DecimalString(n / 10) + [DigitChar(n % 10)]
  }

  /** Reading the decimal digits of `n` back gives `n`. */
  lemma {:induction false} DecimalStringRoundTrip(n: nat)
    ensures DigitsValue(DecimalString(n)) == n
  {
    if n >= 10 {
      DecimalStringRoundTrip(n / 10);
      var r := DecimalString(n);
      assert r[..|r| - 1] == DecimalString(n / 10);
    }
  }

  /**
   The outcome of `Number(s)`: an integer, or a value this model does not
   track (NaN, a fraction, an exponent form, a hexadecimal literal, Infinity).
   */
  datatype Num = Int(value: int) | Untracked {
    /** JavaScript `+` of two numbers, as far as it is tracked. */
    function Plus(other: Num): Num {
      if Int? && other.Int? then Int(value + other.value) else Untracked
    }

    function Times(k: int): Num {
      if Int? then Int(value * k) else Untracked
    }
  }

  /**
   `Number(s)`: surrounding white space is ignored, the empty string is 0, and
   an optional sign followed by decimal digits is that integer.
   */
  function ToNumber(s: string): Num
  {
    var t := Trim(s);
    if AllDigits(t) then Int(DigitsValue(t))
    else if |t| >= 2 && t[0] == '-' && AllDigits(t[1..]) then Int(-(DigitsValue(t[1..]) as int))
    else if |t| >= 2 && t[0] == '+' && AllDigits(t[1..]) then Int(DigitsValue(t[1..]))
    else Untracked
  }
}
