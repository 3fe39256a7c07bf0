/**
 The parts of JavaScript's String built-ins that the helpers rely on. A
 string is a sequence of characters; case mapping is restricted to ASCII.
 */
module JsString {

  /**
   JavaScript's WhiteSpace and LineTerminator code points: the characters that
   `trim`, `trimEnd` and the regular-expression class `\s` treat as white space.
   */
  predicate IsWhitespace(c: char) {
    var n := c as int;
    n == 0x09 || n == 0x0A || n == 0x0B || n == 0x0C || n == 0x0D || n == 0x20 ||
    n == 0xA0 || n == 0x1680 || (0x2000 <= n <= 0x200A) || n == 0x2028 || n == 0x2029 ||
    n == 0x202F || n == 0x205F || n == 0x3000 || n == 0xFEFF
  }

  predicate AllWhitespace(s: string) {
    forall i :: 0 <= i < |s| ==> IsWhitespace(s[i])
  }

  /** Concatenation regrouped. */
  lemma ConcatAssoc(a: string, b: string, c: string, d: string)
    ensures a + (b + c + d) == a + b + c + d
  {
  }

  lemma ConcatAssoc3(a: string, b: string, c: string)
    ensures a + (b + c) == a + b + c
  {
  }

  /** `String.prototype.trimStart`: drops the longest all-white-space prefix. */
  function TrimStart(s: string): (r: string)
    ensures |r| <= |s| && r == s[|s| - |r|..]
    ensures AllWhitespace(s[..|s| - |r|])
    ensures r != [] ==> !IsWhitespace(r[0])
  {
    if s != [] && IsWhitespace(s[0]) then
      var r := TrimStart(s[1..]);
      WhitespaceThenSuffix(s, r);
      r
    else
      assert s[..0] == [] && s[0..] == s;
      s
  }

  /** A white-space character in front of a white-space prefix and a suffix `r`. */
  lemma WhitespaceThenSuffix(s: string, r: string)
    requires s != [] && IsWhitespace(s[0])
    requires |r| <= |s[1..]| && r == s[1..][|s[1..]| - |r|..]
    requires AllWhitespace(s[1..][..|s[1..]| - |r|])
    ensures |r| <= |s| && r == s[|s| - |r|..]
    ensures AllWhitespace(s[..|s| - |r|])
  {
    var t, k := s[1..], |s| - 1 - |r|;
    assert t[k..] == s[k + 1..];
    var w := s[..k + 1];
    forall i | 0 <= i < k + 1 ensures IsWhitespace(w[i]) {
      if i > 0 { assert w[i] == t[..k][i - 1]; }
    }
  }

  /** `String.prototype.trimEnd`: drops the longest all-white-space suffix. */
  function TrimEnd(s: string): (r: string)
    ensures |r| <= |s| && r == s[..|r|]
    ensures AllWhitespace(s[|r|..])
    ensures r != [] ==> !IsWhitespace(r[|r| - 1])
  {
    if s != [] && IsWhitespace(s[|s| - 1]) then
      var r := TrimEnd(s[..|s| - 1]);
      PrefixThenWhitespace(s, r);
      r
    else
      s
  }

  /** A prefix `r` followed by white space and a final white-space character. */
  lemma PrefixThenWhitespace(s: string, r: string)
    requires s != [] && IsWhitespace(s[|s| - 1])
    requires |r| <= |s[..|s| - 1]| && r == s[..|s| - 1][..|r|]
    requires AllWhitespace(s[..|s| - 1][|r|..])
    ensures |r| <= |s| && r == s[..|r|]
    ensures AllWhitespace(s[|r|..])
  {
    var t := s[..|s| - 1];
    assert t[..|r|] == s[..|r|];
    var w := s[|r|..];
    forall i | 0 <= i < |w| ensures IsWhitespace(w[i]) {
      if i < |w| - 1 { assert w[i] == t[|r|..][i]; }
    }
  }

  /** `String.prototype.trim`: drops white space at both ends. */
  function Trim(s: string): string {
    TrimEnd(TrimStart(s))
  }

  /**
   The trim of `s` is the part of `s` left between an all-white-space prefix
   and an all-white-space suffix.
   */
  lemma TrimIsInfix(s: string) returns (i: nat)
    ensures i + |Trim(s)| <= |s| && s[i..i + |Trim(s)|] == Trim(s)
    ensures AllWhitespace(s[..i]) && AllWhitespace(s[i + |Trim(s)|..])
  {
    i := |s| - |TrimStart(s)|;
    TrimParts(s, TrimStart(s), Trim(s));
  }

  /** The trim of `s` neither starts nor ends with white space, and it is empty exactly when `s` is all white space. */
  lemma TrimEnds(s: string)
    ensures Trim(s) != [] ==> !IsWhitespace(Trim(s)[0]) && !IsWhitespace(Trim(s)[|Trim(s)| - 1])
    ensures Trim(s) == [] <==> AllWhitespace(s)
  {
    TrimParts(s, TrimStart(s), Trim(s));
  }

  /**
   How the white space dropped at both ends and the remaining part make up
   `s`, given what `TrimStart` and `TrimEnd` promise about `t` and `r`.
   */
  lemma TrimParts(s: string, t: string, r: string)
    requires |t| <= |s| && t == s[|s| - |t|..] && AllWhitespace(s[..|s| - |t|]) && (t != [] ==> !IsWhitespace(t[0]))
    requires |r| <= |t| && r == t[..|r|] && AllWhitespace(t[|r|..]) && (r != [] ==> !IsWhitespace(r[|r| - 1]))
    ensures var i := |s| - |t|;
      i + |r| <= |s| && s[i..i + |r|] == r && AllWhitespace(s[..i]) && AllWhitespace(s[i + |r|..])
    ensures r != [] ==> !IsWhitespace(r[0]) && !IsWhitespace(r[|r| - 1])
    ensures r == [] <==> AllWhitespace(s)
  {
    var i := |s| - |t|;
    assert t[|r|..] == s[i + |r|..];
    if r == [] {
      assert s[..i] == s;
    }
  }

  /** Trimming never changes a string that already neither starts nor ends with white space. */
  lemma TrimOfTrimmed(s: string)
    requires s != [] ==> !IsWhitespace(s[0]) && !IsWhitespace(s[|s| - 1])
    ensures Trim(s) == s
  {
  }

  function ToUpperChar(c: char): char {
    if 'a' <= c <= 'z' then (c as int - 32) as char else c
  }

  function ToLowerChar(c: char): char {
    if 'A' <= c <= 'Z' then (c as int + 32) as char else c
  }

  /** `String.prototype.toLowerCase` on ASCII letters; other characters are kept. */
  function ToLowerCase(s: string): (r: string)
    ensures |r| == |s|
  {
    seq(|s|, i requires 0 <= i < |s| => ToLowerChar(s[i]))
  }

  /** Lower-casing twice is lower-casing once. */
  lemma ToLowerCaseIdempotent(s: string)
    ensures ToLowerCase(ToLowerCase(s)) == ToLowerCase(s)
  {
  }

  /** `sub` occurs in `s` starting at index `k`. */
  predicate OccursAt(s: string, sub: string, k: int) {
    0 <= k && k + |sub| <= |s| && s[k..k + |sub|] == sub
  }

  /** `String.prototype.includes`, scanning the start positions from left to right. */
  function Includes(s: string, sub: string): bool
    decreases |s|
  {
    if |sub| > |s| then false
    else if s[..|sub|] == sub then true
    else Includes(s[1..], sub)
  }

  /** `includes` answers whether `sub` occurs somewhere in `s`. */
  lemma {:induction false} IncludesIffOccurs(s: string, sub: string)
    ensures Includes(s, sub) <==> exists k :: OccursAt(s, sub, k)
    decreases |s|
  {
    if |sub| > |s| {
    } else if s[..|sub|] == sub {
      assert OccursAt(s, sub, 0);
    } else {
      IncludesIffOccurs(s[1..], sub);
      if Includes(s, sub) {
        var k :| OccursAt(s[1..], sub, k);
        assert s[k + 1..k + 1 + |sub|] == s[1..][k..k + |sub|];
        assert OccursAt(s, sub, k + 1);
      } else {
        forall k | OccursAt(s, sub, k) ensures false {
          if k > 0 {
            assert s[1..][k - 1..k - 1 + |sub|] == s[k..k + |sub|];
            assert OccursAt(s[1..], sub, k - 1);
          }
        }
      }
    }
  }

  /** The first start position of `sub` in `s`, or -1 when there is none. */
  function FirstOccurrence(s: string, sub: string): (k: int)
    ensures -1 <= k
    ensures k >= 0 ==> OccursAt(s, sub, k) && forall j :: 0 <= j < k ==> !OccursAt(s, sub, j)
    ensures k == -1 ==> forall j :: !OccursAt(s, sub, j)
    decreases |s|
  {
    if |sub| > |s| then -1
    else if s[..|sub|] == sub then 0
    else
      var k := FirstOccurrence(s[1..], sub);
      OccursShifted(s, sub);
      if k < 0 then -1 else k + 1
  }

  /** Past the first position, `sub` occurs in `s` where it occurs in `s[1..]`, one further on. */
  lemma OccursShifted(s: string, sub: string)
    requires s != []
    ensures forall j :: 0 < j ==> (OccursAt(s, sub, j) <==> OccursAt(s[1..], sub, j - 1))
  {
    forall j | 0 < j ensures OccursAt(s, sub, j) <==> OccursAt(s[1..], sub, j - 1) {
      if j + |sub| <= |s| {
        assert s[1..][j - 1..j - 1 + |sub|] == s[j..j + |sub|];
      }
    }
  }

  /**
   The outcome of `String.prototype.search` with a string argument, which is
   compiled to a regular expression first: the index of the first match (-1
   for none), a pattern the compiler rejects with a `SyntaxError`, or a
   pattern whose regular-expression syntax this model does not interpret.
   */
  datatype SearchResult = Found(index: int) | InvalidPattern | UnmodelledPattern

  /** A quantifier character, which has nothing to repeat at the start of a pattern. */
  predicate IsQuantifier(c: char) {
    c == '?' || c == '*' || c == '+'
  }

  /** A character with a meaning of its own in a regular expression. */
  predicate IsPatternSyntax(c: char) {
    c in "^$\\.*+?()[]{}|/"
  }

  /** `s.search(pattern)` */
  function Search(s: string, pattern: string): (r: SearchResult)
    ensures r.InvalidPattern? <==> |pattern| > 0 && IsQuantifier(pattern[0])
    ensures r.Found? <==> forall i :: 0 <= i < |pattern| ==> !IsPatternSyntax(pattern[i])
    ensures r.Found? && r.index >= 0 ==>
      OccursAt(s, pattern, r.index) && forall j :: 0 <= j < r.index ==> !OccursAt(s, pattern, j)
    ensures r.Found? && r.index < 0 ==> r.index == -1 && forall j :: !OccursAt(s, pattern, j)
  {
    if |pattern| > 0 && IsQuantifier(pattern[0]) then InvalidPattern
    else if forall i :: 0 <= i < |pattern| ==> !IsPatternSyntax(pattern[i]) then Found(FirstOccurrence(s, pattern))
    else UnmodelledPattern
  }

  /** The number of occurrences of `c` in `s`. */
  function Count(s: string, c: char): nat {
    if s == [] then 0 else (if s[0] == c then 1 else 0) + Count(s[1..], c)
  }

  /** Occurrences add up over a concatenation. */
  lemma {:induction false} CountConcat(a: string, b: string, c: char)
    ensures Count(a + b, c) == Count(a, c) + Count(b, c)
  {
    if a != [] {
      assert (a + b)[1..] == a[1..] + b;
      CountConcat(a[1..], b, c);
    } else {
      assert a + b == b;
    }
  }

  /** A character occurs nowhere exactly when it is counted zero times. */
  lemma {:induction false} CountZero(s: string, c: char)
    ensures Count(s, c) == 0 <==> c !in s
  {
    if s != [] {
      CountZero(s[1..], c);
      assert s == [s[0]] + s[1..];
    }
  }

  /** `Array.prototype.join` with a one-character separator. */
  function Join(parts: seq<string>, sep: char): string {
    if parts == [] then ""
    else if |parts| == 1 then parts[0]
    else parts[0] + [sep] + Join(parts[1..], sep)
  }

  /**
   `String.prototype.split` with a one-character separator: the pieces between
   the separators, always at least one.
   */
  function Split(s: string, sep: char): (r: seq<string>)
    ensures |r| == Count(s, sep) + 1
    ensures forall i :: 0 <= i < |r| ==> sep !in r[i]
    ensures Join(r, sep) == s
  {
    if s == [] then [""]
    else
      var rest := Split(s[1..], sep);
      assert s == [s[0]] + s[1..];
      if s[0] == sep then
        [""] + rest
      else
        var r := [[s[0]] + rest[0]] + rest[1..];
        assert r[1..] == rest[1..];
        r
  }

  /** A text with no separator in it splits into itself alone. */
  lemma SplitNoSeparator(s: string, sep: char)
    requires sep !in s
    ensures Split(s, sep) == [s]
  {
  }

  /** Splitting at the first separator peels off the text before it. */
  lemma {:induction false} SplitAtFirst(a: string, sep: char, b: string)
    requires sep !in a
    ensures Split(a + [sep] + b, sep) == [a] + Split(b, sep)
    decreases |a|
  {
    if a == [] {
      assert [] + [sep] + b == [sep] + b;
      assert ([sep] + b)[1..] == b;
    } else {
      var s := a + [sep] + b;
      assert s[1..] == a[1..] + [sep] + b;
      SplitAtFirst(a[1..], sep, b);
      assert [a[0]] + a[1..] == a;
    }
  }

  /** Joining pieces without separators in them and splitting again gives back the pieces. */
  lemma {:induction false} SplitJoin(parts: seq<string>, sep: char)
    requires |parts| >= 1
    requires forall i :: 0 <= i < |parts| ==> sep !in parts[i]
    ensures Split(Join(parts, sep), sep) == parts
    decreases |parts|
  {
    if |parts| == 1 {
      SplitNoSeparator(parts[0], sep);
    } else {
      SplitJoin(parts[1..], sep);
      SplitAtFirst(parts[0], sep, Join(parts[1..], sep));
      assert [parts[0]] + parts[1..] == parts;
    }
  }
}
