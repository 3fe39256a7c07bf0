/**
 The regular expressions of src/regex/index.ts, as hand-written recognisers:
 `digitRegex`, `emailRegex` and the character class of `urlSafeRegex`.
 */
module Regex {
  import opened JsString
  import opened JsNumber

  predicate IsAsciiLetter(c: char) {
    'a' <= c <= 'z' || 'A' <= c <= 'Z'
  }

  predicate IsAsciiAlnum(c: char) {
    IsAsciiLetter(c) || IsDigit(c)
  }

  predicate All(s: string, p: char -> bool) {
    forall i :: 0 <= i < |s| ==> p(s[i])
  }

  /** The length of the longest prefix of `s` whose characters satisfy `p`. */
  function RunLength(s: string, p: char -> bool): (n: nat)
    ensures n <= |s| && All(s[..n], p)
    ensures n < |s| ==> !p(s[n])
  {
    if s != [] && p(s[0]) then
      var n := 1 + RunLength(s[1..], p);
      assert s[..n] == [s[0]] + s[1..][..n - 1];
      n
    else
      0
  }

  /** A run may be followed by anything that does not continue it. */
  lemma {:induction false} RunLengthOf(run: string, rest: string, p: char -> bool)
    requires All(run, p)
    requires rest != [] ==> !p(rest[0])
    ensures RunLength(run + rest, p) == |run|
  {
    if run != [] {
      assert (run + rest)[1..] == run[1..] + rest;
      RunLengthOf(run[1..], rest, p);
    } else {
      assert run + rest == rest;
    }
  }

  // ---------------------------------------------------------------------------
  // digitRegex = /^-?[\d.]+(?:e-?\d+)?$/

  /** `[\d.]`; `\d` is an ASCII digit. */
  predicate IsMantissaChar(c: char) {
    IsDigit(c) || c == '.'
  }

  /** `[\d.]+` */
  predicate IsMantissa(m: string) {
    |m| >= 1 && All(m, IsMantissaChar)
  }

  /** `e-?\d+` */
  predicate IsExponent(e: string) {
    |e| >= 2 && e[0] == 'e' &&
    var digits := if e[1] == '-' then e[2..] else e[1..];
    |digits| >= 1 && AllDigits(digits)
  }

  /**
   `digitRegex.test(s)`: after an optional `-`, the longest run of digits and
   dots must be non-empty and be followed either by nothing or by exactly an
   exponent (the exponent starts with `e`, which ends the run).
   */
  predicate DigitRegex(s: string) {
    DigitBody(if |s| > 0 && s[0] == '-' then s[1..] else s)
  }

  /** `[\d.]+(?:e-?\d+)?$` */
  predicate DigitBody(body: string) {
    var m := RunLength(body, IsMantissaChar);
    m >= 1 && (m == |body| || IsExponent(body[m..]))
  }

  /** Every string of the pattern's shape is accepted. */
  lemma DigitRegexComplete(sign: string, mantissa: string, exponent: string)
    requires sign == "" || sign == "-"
    requires IsMantissa(mantissa)
    requires exponent == "" || IsExponent(exponent)
    ensures DigitRegex(sign + mantissa + exponent)
  {
    var body := mantissa + exponent;
    DigitBodyComplete(mantissa, exponent);
    ConcatAssoc3(sign, mantissa, exponent);
    SignedBody(sign, body);
  }

  /** An optional `-` in front of a body that starts with a digit or a dot is recognised as the sign. */
  lemma SignedBody(sign: string, body: string)
    requires sign == "" || sign == "-"
    requires DigitBody(body)
    ensures DigitRegex(sign + body)
  {
    assert body[0] != '-';
    if sign == "-" {
      assert (sign + body)[0] == '-' && (sign + body)[1..] == body;
    } else {
      assert sign + body == body;
    }
  }

  lemma DigitBodyComplete(mantissa: string, exponent: string)
    requires IsMantissa(mantissa)
    requires exponent == "" || IsExponent(exponent)
    ensures DigitBody(mantissa + exponent)
  {
    RunLengthOf(mantissa, exponent, IsMantissaChar);
    assert (mantissa + exponent)[|mantissa|..] == exponent;
  }

  /** Every accepted string has the pattern's shape. */
  lemma DigitRegexSound(s: string) returns (sign: string, mantissa: string, exponent: string)
    requires DigitRegex(s)
    ensures s == sign + mantissa + exponent
    ensures sign == "" || sign == "-"
    ensures IsMantissa(mantissa)
    ensures exponent == "" || IsExponent(exponent)
  {
    var body;
    if |s| > 0 && s[0] == '-' {
      sign, body := "-", s[1..];
      assert s == sign + body;
    } else {
      sign, body := "", s;
      assert s == sign + body;
    }
    mantissa, exponent := DigitBodySound(body);
    ConcatAssoc3(sign, mantissa, exponent);
  }

  lemma DigitBodySound(body: string) returns (mantissa: string, exponent: string)
    requires DigitBody(body)
    ensures body == mantissa + exponent
    ensures IsMantissa(mantissa)
    ensures exponent == "" || IsExponent(exponent)
  {
    var m := RunLength(body, IsMantissaChar);
    mantissa, exponent := body[..m], body[m..];
    assert body == mantissa + exponent;
  }

  /** Examples the pattern rejects: no digits, a `+` sign, an upper-case `E`, an exponent without digits. */
  lemma DigitRegexRejects()
    ensures !DigitRegex("") && !DigitRegex("+1") && !DigitRegex("1E5") && !DigitRegex("1e")
  {
    assert !IsMantissaChar('+') && !IsMantissaChar('E') && !IsMantissaChar('e');
    RunLengthOf("1", "E5", IsMantissaChar);
    assert "1" + "E5" == "1E5";
    RunLengthOf("1", "e", IsMantissaChar);
    assert "1" + "e" == "1e";
  }

  /** Examples the pattern accepts, among them a string with two dots. */
  lemma DigitRegexAccepts()
    ensures DigitRegex("1.2.3") && DigitRegex("-12.5e-3")
  {
    AcceptsTwoDots();
    AcceptsSignedExponent();
  }

  lemma AcceptsTwoDots()
    ensures DigitRegex("1.2.3")
  {
    TwoDotsMantissa();
    DigitRegexComplete("", "1.2.3", "");
    assert "" + "1.2.3" + "" == "1.2.3";
  }

  lemma TwoDotsMantissa()
    ensures IsMantissa("1.2.3")
  {
    assert IsMantissaChar('1') && IsMantissaChar('.') && IsMantissaChar('2') && IsMantissaChar('3');
  }

  lemma AcceptsSignedExponent()
    ensures DigitRegex("-12.5e-3")
  {
    SignedExponentParts();
    DigitRegexComplete("-", "12.5", "e-3");
    SignedExponentText();
  }

  lemma SignedExponentParts()
    ensures IsMantissa("12.5") && IsExponent("e-3")
  {
    assert IsMantissaChar('1') && IsMantissaChar('2') && IsMantissaChar('.') && IsMantissaChar('5');
    assert "e-3"[2..] == "3";
  }

  lemma SignedExponentText()
    ensures "-" + "12.5" + "e-3" == "-12.5e-3"
  {
  }

  // ---------------------------------------------------------------------------
  // emailRegex = /^([a-zA-Z0-9_.+-])+\@(([a-zA-Z0-9-])+\.)+([a-zA-Z0-9]{2,4})+$/

  /** `[a-zA-Z0-9_.+-]` */
  predicate IsLocalChar(c: char) {
    IsAsciiAlnum(c) || c == '_' || c == '.' || c == '+' || c == '-'
  }

  /** `[a-zA-Z0-9-]` */
  predicate IsLabelChar(c: char) {
    IsAsciiAlnum(c) || c == '-'
  }

  /** `([a-zA-Z0-9]{2,4})+`, one alternative per group length. */
  predicate TldGroups(t: string)
    decreases |t|
  {
    (|t| >= 2 && All(t[..2], IsAsciiAlnum) && (|t| == 2 || TldGroups(t[2..]))) ||
    (|t| >= 3 && All(t[..3], IsAsciiAlnum) && (|t| == 3 || TldGroups(t[3..]))) ||
    (|t| >= 4 && All(t[..4], IsAsciiAlnum) && (|t| == 4 || TldGroups(t[4..])))
  }

  /**
   `(([a-zA-Z0-9-])+\.)+([a-zA-Z0-9]{2,4})+$`: a label cannot hold a dot, so
   each label is the longest run of label characters and must be followed by
   a dot; after it come either the final groups or more labels.
   */
  predicate DomainTail(d: string)
    decreases |d|
  {
    var n := RunLength(d, IsLabelChar);
    1 <= n < |d| && d[n] == '.' && (TldGroups(d[n + 1..]) || DomainTail(d[n + 1..]))
  }

  /**
   `emailRegex.test(s)`: the local part cannot hold `@`, so it is the longest
   run of local-part characters and must be followed by `@`.
   */
  predicate EmailRegex(s: string) {
    var at := RunLength(s, IsLocalChar);
    1 <= at < |s| && s[at] == '@' && DomainTail(s[at + 1..])
  }

  /** A string whose two parts satisfy `p` satisfies it throughout. */
  lemma AllSplit(t: string, k: nat, p: char -> bool)
    requires k <= |t| && All(t[..k], p) && All(t[k..], p)
    ensures All(t, p)
  {
    forall i | 0 <= i < |t| ensures p(t[i]) {
      if i < k { assert t[..k][i] == t[i]; } else { assert t[k..][i - k] == t[i]; }
    }
  }

  /** The final groups of two to four characters admit exactly the alphanumeric strings of length two or more. */
  lemma {:induction false} TldGroupsIff(t: string)
    ensures TldGroups(t) <==> |t| >= 2 && All(t, IsAsciiAlnum)
    decreases |t|
  {
    if |t| > 2 { TldGroupsIff(t[2..]); }
    if |t| > 3 { TldGroupsIff(t[3..]); }
    if |t| > 4 { TldGroupsIff(t[4..]); }
    if |t| >= 2 && All(t, IsAsciiAlnum) {
      if |t| > 4 {
        assert All(t[..2], IsAsciiAlnum) && All(t[2..], IsAsciiAlnum);
      } else {
        assert t[..|t|] == t;
      }
    }
    if TldGroups(t) {
      if |t| >= 2 && All(t[..2], IsAsciiAlnum) && (|t| == 2 || TldGroups(t[2..])) {
        if |t| == 2 { assert t[..2] == t; } else { AllSplit(t, 2, IsAsciiAlnum); }
      } else if |t| >= 3 && All(t[..3], IsAsciiAlnum) && (|t| == 3 || TldGroups(t[3..])) {
        if |t| == 3 { assert t[..3] == t; } else { AllSplit(t, 3, IsAsciiAlnum); }
      } else {
        if |t| == 4 { assert t[..4] == t; } else { AllSplit(t, 4, IsAsciiAlnum); }
      }
    }
  }

  /** Labels, each followed by a dot. */
  function Dotted(labels: seq<string>): string {
    if labels == [] then "" else labels[0] + "." + Dotted(labels[1..])
  }

  /** The part after `@`: the dotted labels, then the final characters. */
  function Domain(labels: seq<string>, tld: string): string {
    Dotted(labels) + tld
  }

  predicate IsLabel(l: string) {
    |l| >= 1 && All(l, IsLabelChar)
  }

  /** Labels followed by alphanumeric final characters form a domain. */
  lemma {:induction false} DomainTailComplete(labels: seq<string>, tld: string)
    requires |labels| >= 1 && forall i :: 0 <= i < |labels| ==> IsLabel(labels[i])
    requires |tld| >= 2 && All(tld, IsAsciiAlnum)
    ensures DomainTail(Domain(labels, tld))
    decreases |labels|
  {
    var rest := Domain(labels[1..], tld);
    assert Dotted(labels) == labels[0] + "." + Dotted(labels[1..]);
    ConcatAssoc3(labels[0] + ".", Dotted(labels[1..]), tld);
    if |labels| == 1 {
      assert rest == tld;
      TldGroupsIff(tld);
    } else {
      DomainTailComplete(labels[1..], tld);
    }
    LabelThenRest(labels[0], rest);
  }

  /** A label, a dot, and then either the final characters or a further domain. */
  lemma LabelThenRest(head: string, rest: string)
    requires IsLabel(head)
    requires TldGroups(rest) || DomainTail(rest)
    ensures DomainTail(head + "." + rest)
  {
    var d := head + "." + rest;
    assert d == head + ("." + rest);
    RunLengthOf(head, "." + rest, IsLabelChar);
    assert d[|head| + 1..] == rest;
  }

  /** Every accepted domain is labels followed by alphanumeric final characters. */
  lemma {:induction false} DomainTailSound(d: string) returns (labels: seq<string>, tld: string)
    requires DomainTail(d)
    ensures d == Domain(labels, tld)
    ensures |labels| >= 1 && forall i :: 0 <= i < |labels| ==> IsLabel(labels[i])
    ensures |tld| >= 2 && All(tld, IsAsciiAlnum)
    decreases |d|
  {
    var n := RunLength(d, IsLabelChar);
    var head, rest := d[..n], d[n + 1..];
    assert d == head + "." + rest;
    if TldGroups(rest) {
      TldGroupsIff(rest);
      labels, tld := [head], rest;
      assert Dotted(labels) == head + ".";
    } else {
      var more;
      more, tld := DomainTailSound(rest);
      labels := [head] + more;
      assert labels[1..] == more;
    }
  }

  /** A local part, `@` and a domain make an accepted address. */
  lemma EmailOf(local: string, domain: string)
    requires |local| >= 1 && All(local, IsLocalChar)
    requires DomainTail(domain)
    ensures EmailRegex(local + "@" + domain)
  {
    var s := local + "@" + domain;
    assert s == local + ("@" + domain);
    RunLengthOf(local, "@" + domain, IsLocalChar);
    assert s[|local| + 1..] == domain;
  }

  /** Every string made of a local part, `@`, labels and final characters is accepted. */
  lemma EmailRegexComplete(local: string, labels: seq<string>, tld: string)
    requires |local| >= 1 && All(local, IsLocalChar)
    requires |labels| >= 1 && forall i :: 0 <= i < |labels| ==> IsLabel(labels[i])
    requires |tld| >= 2 && All(tld, IsAsciiAlnum)
    ensures EmailRegex(local + "@" + Domain(labels, tld))
  {
    DomainTailComplete(labels, tld);
    EmailOf(local, Domain(labels, tld));
  }

  /** Every accepted string is a local part, `@`, labels and final characters. */
  lemma EmailRegexSound(s: string) returns (local: string, labels: seq<string>, tld: string)
    requires EmailRegex(s)
    ensures s == local + "@" + Domain(labels, tld)
    ensures |local| >= 1 && All(local, IsLocalChar)
    ensures |labels| >= 1 && forall i :: 0 <= i < |labels| ==> IsLabel(labels[i])
    ensures |tld| >= 2 && All(tld, IsAsciiAlnum)
  {
    var at := RunLength(s, IsLocalChar);
    local := s[..at];
    labels, tld := DomainTailSound(s[at + 1..]);
    assert s == local + "@" + s[at + 1..];
  }

  /** No character of a domain is `@`. */
  lemma {:induction false} DottedHasNoAt(labels: seq<string>)
    requires forall i :: 0 <= i < |labels| ==> IsLabel(labels[i])
    ensures Count(Dotted(labels), '@') == 0
  {
    if labels != [] {
      DottedHasNoAt(labels[1..]);
      CountConcat(labels[0] + ".", Dotted(labels[1..]), '@');
      CountConcat(labels[0], ".", '@');
      assert '@' !in labels[0] by {
        forall i | 0 <= i < |labels[0]| ensures labels[0][i] != '@' {
          assert IsLabelChar(labels[0][i]);
        }
      }
      CountZero(labels[0], '@');
    }
  }

  /** An accepted address holds exactly one `@`. */
  lemma EmailRegexOneAt(s: string)
    requires EmailRegex(s)
    ensures Count(s, '@') == 1
  {
    var local, labels, tld := EmailRegexSound(s);
    assert '@' !in local by {
      forall i | 0 <= i < |local| ensures local[i] != '@' {
        assert IsLocalChar(local[i]);
      }
    }
    assert '@' !in tld by {
      forall i | 0 <= i < |tld| ensures tld[i] != '@' {
        assert IsAsciiAlnum(tld[i]);
      }
    }
    CountZero(local, '@');
    CountZero(tld, '@');
    DottedHasNoAt(labels);
    CountConcat(local + "@", Domain(labels, tld), '@');
    CountConcat(Dotted(labels), tld, '@');
    CountConcat(local, "@", '@');
  }

  // ---------------------------------------------------------------------------
  // urlSafeRegex = /[^a-zA-Z0-9-_]/g

  /** The ranges of the class `[a-zA-Z0-9-_]` in the order the pattern lists them. */
  const UrlSafeRanges: seq<(char, char)> := [('a', 'z'), ('A', 'Z'), ('0', '9'), ('-', '-'), ('_', '_')]

  predicate InRanges(c: char, ranges: seq<(char, char)>) {
    exists i :: 0 <= i < |ranges| && ranges[i].0 <= c <= ranges[i].1
  }

  /** `urlSafeRegex` matches a character exactly when it lies outside every range of the negated class. */
  predicate UrlUnsafe(c: char) {
    !InRanges(c, UrlSafeRanges)
  }

  /**
   A character is URL-unsafe exactly when it is none of: an ASCII letter, a
   digit, `-` or `_`.
   */
  lemma UrlUnsafeIff(c: char)
    ensures UrlUnsafe(c) <==> !(IsAsciiLetter(c) || IsDigit(c) || c == '-' || c == '_')
  {
    if 'a' <= c <= 'z' { assert UrlSafeRanges[0].0 <= c <= UrlSafeRanges[0].1; }
    else if 'A' <= c <= 'Z' { assert UrlSafeRanges[1].0 <= c <= UrlSafeRanges[1].1; }
    else if '0' <= c <= '9' { assert UrlSafeRanges[2].0 <= c <= UrlSafeRanges[2].1; }
    else if c == '-' { assert UrlSafeRanges[3].0 <= c <= UrlSafeRanges[3].1; }
    else if c == '_' { assert UrlSafeRanges[4].0 <= c <= UrlSafeRanges[4].1; }
  }

  /** `-` is URL-safe, although the documentation comment names only letters, digits and `_`. */
  lemma UrlUnsafeExamples()
    ensures !UrlUnsafe('-') && !UrlUnsafe('_') && !UrlUnsafe('q') && UrlUnsafe(' ') && UrlUnsafe('/') && UrlUnsafe('.')
  {
    UrlUnsafeIff('-');
    UrlUnsafeIff('_');
    UrlUnsafeIff('q');
    UrlUnsafeIff(' ');
    UrlUnsafeIff('/');
    UrlUnsafeIff('.');
  }
}
