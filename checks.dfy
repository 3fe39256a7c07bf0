/**
 The checks of src/checks/index.ts: `isValidNumber` on strings and
 `checkStrEmpty` on its tagged inputs.
 */
module Checks {
  import opened JsArray
  import opened JsString
  import opened Regex

  /** `String(value).replace(/\s/g, "")`: every white-space character removed. */
  function StripWhitespace(s: string): (r: string)
    ensures forall i :: 0 <= i < |r| ==> !IsWhitespace(r[i])
    ensures forall c :: !IsWhitespace(c) ==> multiset(r)[c] == multiset(s)[c]
    ensures IsSubsequence(r, s)
  {
    Filter(s, (c: char) => !IsWhitespace(c))
  }

  /** A string without white space is left as it is. */
  lemma StripWhitespaceKeeps(s: string)
    requires forall i :: 0 <= i < |s| ==> !IsWhitespace(s[i])
    ensures StripWhitespace(s) == s
  {
    FilterAll(s, (c: char) => !IsWhitespace(c));
  }

  /**
   `isValidNumber` on a string. `isFinite` stands for the three coercion
   tests `!Number.isNaN(Number(value))`, `Number(value) !== Infinity` and
   `Number(value) !== -Infinity`, which this model does not compute.
   */
  function IsValidNumber(value: string, isFinite: string -> bool): (r: bool)
    ensures r <==> isFinite(value) && DigitRegex(StripWhitespace(value)) && Count(StripWhitespace(value), '.') <= 1
  {
    var stripped := StripWhitespace(value);
    isFinite(value) && DigitRegex(stripped) && |Split(stripped, '.')| <= 2
  }

  /**
   A valid number is, once white space is removed, an optional `-`, digits
   with at most one dot, and an optional exponent; and it coerces to a
   finite number.
   */
  lemma IsValidNumberShape(value: string, isFinite: string -> bool)
    returns (sign: string, mantissa: string, exponent: string)
    requires IsValidNumber(value, isFinite)
    ensures isFinite(value)
    ensures StripWhitespace(value) == sign + mantissa + exponent
    ensures sign == "" || sign == "-"
    ensures IsMantissa(mantissa) && Count(mantissa, '.') <= 1
    ensures exponent == "" || IsExponent(exponent)
  {
    sign, mantissa, exponent := DigitRegexSound(StripWhitespace(value));
    CountConcat(sign + mantissa, exponent, '.');
    CountConcat(sign, mantissa, '.');
  }

  /** A string that does not match the pattern once white space is removed is never valid. */
  lemma IsValidNumberNeedsPattern(value: string, isFinite: string -> bool)
    requires !DigitRegex(StripWhitespace(value))
    ensures !IsValidNumber(value, isFinite)
  {
  }

  /** A value that coerces to NaN or to an infinity is never valid. */
  lemma IsValidNumberNeedsFinite(value: string, isFinite: string -> bool)
    requires !isFinite(value)
    ensures !IsValidNumber(value, isFinite)
  {
  }

  /** "12.5.6" matches the pattern but holds two dots, so it is not valid whatever its coercion gives. */
  lemma IsValidNumberTwoDots(isFinite: string -> bool)
    ensures DigitRegex("12.5.6")
    ensures !IsValidNumber("12.5.6", isFinite)
  {
    TwoDotsPattern();
    TwoDotsStripped();
    TwoDotsCount();
    MoreThanOneDot("12.5.6", isFinite);
  }

  /** A value with more than one dot once white space is removed is never valid. */
  lemma MoreThanOneDot(value: string, isFinite: string -> bool)
    requires Count(StripWhitespace(value), '.') > 1
    ensures !IsValidNumber(value, isFinite)
  {
  }

  lemma TwoDotsStripped()
    ensures StripWhitespace("12.5.6") == "12.5.6"
  {
    var value := "12.5.6";
    forall i | 0 <= i < |value| ensures !IsWhitespace(value[i]) {
      assert value[i] in "0123456789.";
    }
    StripWhitespaceKeeps(value);
  }

  lemma TwoDotsCount()
    ensures Count("12.5.6", '.') == 2
  {
  }

  lemma TwoDotsPattern()
    ensures DigitRegex("12.5.6")
  {
    assert IsMantissa("12.5.6");
    DigitRegexComplete("", "12.5.6", "");
    assert "" + "12.5.6" + "" == "12.5.6";
  }

  /** One element of an array passed to `checkStrEmpty`. */
  datatype Item =
    | Undefined
    | Str(text: string)
    | NonString   // null, a number, an object or any other value that is not a string

  /** The inputs `checkStrEmpty` distinguishes. */
  datatype StrInput =
    | Absent                 // undefined, null or another falsy value that is not a string
    | Single(text: string)
    | Many(items: seq<Item>)
    | Other                  // a truthy value that is neither a string nor an object

  /** An element that makes an array count as empty. */
  predicate BlankItem(item: Item) {
    !item.Str? || AllWhitespace(item.text)
  }

  /**
   `checkStrEmpty`: true for a falsy input or an input that is neither a
   string nor an object; for a string, whether it is all white space; for an
   array, whether it is empty or some element is `undefined`, not a string,
   or all white space.
   */
  method CheckStrEmpty(str: StrInput) returns (empty: bool)
    ensures str.Absent? || str.Other? ==> empty
    ensures str.Single? ==> (empty <==> AllWhitespace(str.text))
    ensures str.Many? ==> (empty <==> |str.items| == 0 || exists i :: 0 <= i < |str.items| && BlankItem(str.items[i]))
  {
    if str.Absent? || str == Single("") {
      return true;
    }
    if str.Many? {
      var items := str.items;
      if |items| < 1 {
        return true;
      }
      for index := 0 to |items|
        invariant forall j :: 0 <= j < index ==> !BlankItem(items[j])
      {
        var selected := items[index];
        if selected.Undefined? || selected == Str("") {
          return true;
        }
        if !selected.Str? {
          return true;
        }
        TrimEnds(selected.text);
        if |Trim(selected.text)| < 1 {
          return true;
        }
      }
      return false;
    }
    if !str.Single? {
      return true;
    }
    TrimEnds(str.text);
    return |Trim(str.text)| < 1;
  }
}
