/**
 The text helpers of src/string/index.ts: `capitalizeFirstLetter` and
 `limitText`.
 */
module StringHelpers {
  import opened JsString

  /** `text.charAt(0).toUpperCase() + text.slice(1)`. */
  function CapitalizeFirstLetter(text: string): (r: string)
    ensures |r| == |text|
    ensures text == [] ==> r == []
    ensures text != [] ==> r[0] == ToUpperChar(text[0]) && r[1..] == text[1..]
  {
    var first := if text == [] then "" else [ToUpperChar(text[0])];
    var rest := if text == [] then "" else text[1..];
    first + rest
  }

  /** Capitalising twice is capitalising once. */
  lemma CapitalizeFirstLetterIdempotent(text: string)
    ensures CapitalizeFirstLetter(CapitalizeFirstLetter(text)) == CapitalizeFirstLetter(text)
  {
    var r := CapitalizeFirstLetter(text);
    if text != [] {
      assert [r[0]] + r[1..] == r;
    }
  }

  /** Capitalising changes only the case: the lower-cased texts are equal. */
  lemma CapitalizeFirstLetterKeepsLetters(text: string)
    ensures ToLowerCase(CapitalizeFirstLetter(text)) == ToLowerCase(text)
  {
    var r := CapitalizeFirstLetter(text);
    forall i | 0 <= i < |text| ensures ToLowerChar(r[i]) == ToLowerChar(text[i]) {
      if i > 0 {
        assert r[i] == r[1..][i - 1];
      }
    }
  }

  /** The documented example. */
  lemma CapitalizeFirstLetterExample()
    ensures CapitalizeFirstLetter("mike") == "Mike"
  {
  }

  /** The limit `limitText` uses when none is given. */
  const DefaultLimit: int := 50

  /**
   `s.substring(0, end)`: the end index is clamped to the string, and a
   negative one (which substring treats as 0) gives the empty string.
   */
  function Prefix(s: string, end: int): (r: string)
    ensures |r| <= |s| && r == s[..|r|]
    ensures |r| == if end < 0 then 0 else if end > |s| then |s| else end
  {
    if end < 0 then "" else if end > |s| then s else s[..end]
  }

  /**
   `limitText`: a text whose trim fits the limit is returned as given;
   otherwise the trim is cut to the limit, trailing white space is dropped
   from the cut and "..." is appended.
   */
  function LimitText(text: string, limit: int): (r: string)
    ensures |Trim(text)| <= limit ==> r == text
    ensures |Trim(text)| > limit ==> |r| >= 3 && r[|r| - 3..] == "..."
  {
    var trimmed := Trim(text);
    if |trimmed| <= limit then text
    else TrimEnd(Prefix(trimmed, limit)) + "..."
  }

  /**
   When the trim does not fit, the result is `kept + "..."`, where `kept` is
   the cut of the trim to the limit without its trailing white space: a
   prefix of the trim, no longer than the limit, not ending in white space.
   */
  lemma LimitTextTruncates(text: string, limit: int) returns (kept: string)
    requires |Trim(text)| > limit
    ensures LimitText(text, limit) == kept + "..."
    ensures kept == Prefix(Trim(text), limit)[..|kept|]
    ensures AllWhitespace(Prefix(Trim(text), limit)[|kept|..])
    ensures kept != [] ==> !IsWhitespace(kept[|kept| - 1])
    ensures |kept| <= (if limit < 0 then 0 else limit) && kept == Trim(text)[..|kept|]
  {
    var trimmed := Trim(text);
    var cut := Prefix(trimmed, limit);
    kept := TrimEnd(cut);
    assert kept == trimmed[..|kept|] by {
      assert cut[..|kept|] == trimmed[..|cut|][..|kept|] == trimmed[..|kept|];
    }
  }

  /**
   `limitText` called without a limit: a text whose trim has at most 50
   characters comes back unchanged, a longer one is cut to at most 50
   characters of its trim followed by "...".
   */
  function LimitTextDefault(text: string): (r: string)
    ensures |Trim(text)| <= DefaultLimit ==> r == text
    ensures |Trim(text)| > DefaultLimit ==> 3 <= |r| <= DefaultLimit + 3 && r[|r| - 3..] == "..."
  {
    if |Trim(text)| > DefaultLimit then
      LimitTextLength(text, DefaultLimit);
      LimitText(text, DefaultLimit)
    else
      LimitText(text, DefaultLimit)
  }

  /** A truncated text is at most three characters longer than the limit. */
  lemma LimitTextLength(text: string, limit: int)
    requires |Trim(text)| > limit
    ensures |LimitText(text, limit)| <= (if limit < 0 then 0 else limit) + 3
  {
    var kept := LimitTextTruncates(text, limit);
  }

  /** A trim of exactly the limit is not shortened, and the original, untrimmed text comes back. */
  lemma LimitTextExactFit()
    ensures LimitText("I am ", 4) == "I am "
  {
    ExactFitTrim();
  }

  lemma ExactFitTrim()
    ensures Trim("I am ") == "I am"
  {
    ExactFitTrimStart();
    ExactFitTrimEnd();
  }

  lemma ExactFitTrimStart()
    ensures TrimStart("I am ") == "I am "
  {
  }

  lemma ExactFitTrimEnd()
    ensures TrimEnd("I am ") == "I am"
  {
    assert "I am "[..4] == "I am";
  }

  /** The cut "I am " loses its trailing space before "..." is appended. */
  lemma LimitTextDropsTrailingSpace()
    ensures LimitText("I am here", 5) == "I am..."
  {
    ShortenedTrim();
    ShortenedCut();
    ExactFitTrimEnd();
    var kept := "I am";
    TruncatedAs("I am here", 5, "I am here", "I am ", kept);
    DotsText(kept);
  }

  /** The truncated result, given the trim, its cut and the cut without trailing white space. */
  lemma TruncatedAs(text: string, limit: int, t: string, cut: string, kept: string)
    requires Trim(text) == t && |t| > limit && Prefix(t, limit) == cut && TrimEnd(cut) == kept
    ensures LimitText(text, limit) == kept + "..."
  {
  }

  lemma DotsText(kept: string)
    requires kept == "I am"
    ensures kept + "..." == "I am..."
  {
  }

  lemma ShortenedTrim()
    ensures Trim("I am here") == "I am here"
  {
    TrimOfTrimmed("I am here");
  }

  lemma ShortenedCut()
    ensures Prefix("I am here", 5) == "I am "
  {
  }
}
