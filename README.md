# js-utils helpers in Dafny

This project models the stateless helpers of the TypeScript library
`js-utils`. It covers:

- the array helpers (dropping `undefined`/`null`, containment, duplicate
  detection, de-duplication);
- the two URL query builders and the case-insensitive search;
- `isValidNumber` and `checkStrEmpty`;
- `capitalizeFirstLetter` and `limitText`;
- the three regular-expression constants;
- the integer time formatters `formatMin`, `formatSec` and
  `formatTimestamp`.

Each source file is one module:

| module | source file |
|---|---|
| `ArrayHelpers` | src/array/index.ts |
| `Utils` | src/utils/index.ts |
| `Checks` | src/checks/index.ts |
| `StringHelpers` | src/string/index.ts |
| `Regex` | src/regex/index.ts |
| `Format` | src/format/index.ts |

Four small modules model the JavaScript built-ins these files call:

- `JsArray`: `filter`, `every`, `indexOf`, and the insertion order of `new Set`.
- `JsString`: `trim`, `trimStart`, `trimEnd`, ASCII case mapping, `includes`, `search` (for literal patterns and patterns that start with a quantifier), `split` and `join`.
- `JsNumber`: `String(n)` for naturals and `Number(s)` for integer strings.
- `Wrappers`: an `Option` type for optional arguments.

Everything in the source is pure except two things: the query builders
append to a local string in a loop, and `checkStrEmpty` scans an array with
early returns. These are Dafny methods, each with a loop and its invariants.
The postconditions of `Utils.QueryURLBuilder` and `Utils.UrlQueryBuilder`
tie the result to a specification function of the inputs. The
postcondition of `Utils.UrlQueryBuilderAsWritten` states when it returns
and what. The postcondition of `Checks.CheckStrEmpty` characterises the
answer for each kind of input, with a quantifier over the array elements.
Everything else is a function over sequences, with lemmas.

The regular expressions are hand-written recognisers, and each is proved
equal to the shape its pattern describes:

- `digitRegex` is an optional `-`, a run of digits and dots, and an optional exponent.
- `emailRegex` is a local part, `@`, dotted labels, and at least two alphanumeric characters.
- The class of `urlSafeRegex` is everything except letters, digits, `-` and `_`.

`urlSafeRegex`'s comment names only letters, digits and `_` as allowed, but
`-` is in the class as well. The model follows the pattern.

The template at src/utils/index.ts:55 renders every value as text,
`undefined` and `null` included, so the corrected builder
`Utils.UrlQueryBuilder` appends one segment per key
(`Utils.UrlQueryKeepsUndefined`, `Utils.UrlQuerySuffixLength`). As written,
the builder throws before appending anything whenever the data is non-empty
(see Findings).

`urlQueryBuilder` calls `String.prototype.search`, which compiles its
argument as a regular expression. `JsString.Search` models that call: a
pattern that starts with a quantifier (`?`, `*`, `+`) is rejected with a
`SyntaxError`, a pattern free of regular-expression syntax is searched
for literally, and any other pattern is outside the model, whether or not
JavaScript accepts it.

## Model

| member | source | states |
|---|---|---|
| JsArray.Filter | src/array/index.ts:9 | the result holds only elements satisfying the predicate, each as often as in the input, as a subsequence of the input |
| JsArray.FilterUnique | src/array/index.ts:9 | a subsequence with the filter's element counts is the filter's result, so the order is fixed |
| JsArray.FilterFilter | src/array/index.ts:45 | filtering by one test and then another equals filtering once by both |
| JsArray.IndexOf | src/array/index.ts:58 | the result is -1 exactly when the value is absent, and otherwise the first index holding it |
| JsArray.Every | src/array/index.ts:58 | true exactly when every element satisfies the predicate |
| JsArray.NewSet | src/array/index.ts:84 | a Set's entries are distinct, all come from the input, and cover every input element |
| JsArray.NewSetFirstOccurrenceOrder | src/array/index.ts:84 | a Set's entries appear in the order of their first occurrence in the input |
| JsArray.NewSetSize | src/array/index.ts:70 | a Set is as large as its source array exactly when the array has no repeated value |
| JsArray.NewSetOfDistinct | src/array/index.ts:84 | the Set of distinct values lists them unchanged |
| ArrayHelpers.RemoveUndefinedFromArray | src/array/index.ts:7-10 | no `undefined` remains; every other entry keeps its count; the result is a subsequence of the input |
| ArrayHelpers.RemoveNullFromArray | src/array/index.ts:18-20 | no `null` remains; every other entry keeps its count; the result is a subsequence of the input |
| ArrayHelpers.RemoveVoidValuesFromArray | src/array/index.ts:42-46 | each value occurs as often as it is present in the input, and the values keep their relative order |
| ArrayHelpers.RemoveEmptyValuesFromArray | src/array/index.ts:30-34 | same counts and order as the void-value remover |
| ArrayHelpers.RemoveEmptyIsRemoveVoid | src/array/index.ts:30-46 | the deprecated remover and its replacement give equal results on every input |
| ArrayHelpers.RemoveVoidIsRemoveUndefinedThenNull | src/array/index.ts:7-46 | dropping void entries equals dropping `undefined` and then `null` |
| ArrayHelpers.Unwrap | src/array/index.ts:45 | the `as T[]` cast of present entries wraps back to its input |
| ArrayHelpers.ArrayContainsArray | src/array/index.ts:57-59 | true exactly when every element of `subset` occurs in `superset`, or as sets, subset's elements are included in superset's (so true for an empty subset) |
| ArrayHelpers.ArrayHasDuplicates | src/array/index.ts:69-71 | true exactly when some value occurs at two different indices |
| ArrayHelpers.RemoveDuplicatesFromArray | src/array/index.ts:79-85 | the result is distinct, has exactly the input's elements, and lists them in first-occurrence order |
| ArrayHelpers.RemoveDuplicatesIdempotent | src/array/index.ts:79-85 | de-duplicating twice equals de-duplicating once |
| ArrayHelpers.RemoveDuplicatesLeavesNone | src/array/index.ts:69-85 | a de-duplicated array has no duplicates |
| ArrayHelpers.RemoveDuplicatesFixpoint | src/array/index.ts:69-85 | de-duplication leaves an array unchanged exactly when it has no duplicates |
| ArrayHelpers.RemoveDuplicatesSameElements | src/array/index.ts:57-85 | the input and the de-duplicated array each contain the other |
| Utils.QueryStringAppend | src/utils/index.ts:21-25 | one more pair extends the query by `?` (first pair) or `&` (later pairs) and `key=value` |
| Utils.QueryStringStep | src/utils/index.ts:20-26 | the step at `index` appends `?key=value` for index 0 and `&key=value` otherwise |
| Utils.QueryURLBuilder | src/utils/index.ts:15-28 | the result is the URL, then `?k0=v0`, then `&ki=vi` for each later pair in order; with no data, the URL unchanged |
| Utils.UrlQuerySuffixAppend | src/utils/index.ts:51-56 | one more entry appends `&` when the URL had a `?` or entries were already appended, `?` otherwise, then `key=value` |
| Utils.BuiltHasQuery | src/utils/index.ts:55 | the text built so far contains `?` exactly when the URL does or some entry was appended |
| Utils.UrlQuerySuffixStep | src/utils/index.ts:51-56 | each step picks its separator by whether the text built so far contains `?` |
| Utils.UrlQueryBuilder | src/utils/index.ts:43-59 | the result is the URL followed by one separator and `key=value` per entry, in order, with the intended `?` test |
| Utils.UrlQueryBuilderAsWritten | src/utils/index.ts:43-59 | as written, with `search("?")` performed for each entry, the builder returns exactly when the data is empty, and then returns the URL unchanged; otherwise it throws a SyntaxError |
| Utils.DocExampleThrowsAsWritten | src/utils/index.ts:37-41 | as written, the documented call throws, so it does not return the documented URL |
| JsString.Search | src/utils/index.ts:55 | a pattern that starts with `?`, `*` or `+` gives `InvalidPattern` (a SyntaxError); a pattern without regular-expression syntax is found at its first occurrence, or -1 when absent; every other pattern is `UnmodelledPattern`, whether or not JavaScript accepts it |
| JsString.FirstOccurrence | src/utils/index.ts:55 | the index is a start position of the pattern with none before it, or -1 when the pattern occurs nowhere |
| Utils.UrlQueryDocExample | src/utils/index.ts:37-41 | the documented call gives `http://test?cool=true&name=jack` |
| Utils.UrlQueryKeepsUndefined | src/utils/index.ts:51-56 | an `undefined` value is appended as `a=undefined`, not dropped |
| Utils.UrlQuerySuffixLength | src/utils/index.ts:51-56 | each entry contributes exactly one separator, its key, `=` and its rendered value |
| Utils.BuildersAgree | src/utils/index.ts:15-59 | on a URL without `?`, both builders append the same text for the same pairs |
| Utils.AmpSegmentsLength | src/utils/index.ts:24 | the length of the `&key=value` segments is the sum of their parts |
| JsString.Includes | src/utils/index.ts:73 | `includes` compares the query with the text at each start position, left to right; what the answer means is `JsString.IncludesIffOccurs` |
| JsString.IncludesIffOccurs | src/utils/index.ts:73 | `includes` is true exactly when the query occurs at some position |
| JsString.ToLowerCase | src/utils/index.ts:73 | `toLowerCase` keeps the length; each ASCII letter is lower-cased and every other character kept, the case gap admitted under Left out |
| JsString.ToLowerCaseIdempotent | src/utils/index.ts:73 | lower-casing twice equals lower-casing once |
| Utils.IncludeSearch | src/utils/index.ts:68-77 | `includeSearch` maps every defined argument to whether its lower-cased text includes the lower-cased query, `undefined` to `undefined`, and looks for `true`; what the answer means is `Utils.IncludeSearchMatches` |
| Utils.IncludeSearchMatches | src/utils/index.ts:68-77 | true exactly when some defined argument, lower-cased, contains the lower-cased query; so never for `undefined` arguments or for no arguments |
| Utils.IncludeSearchIgnoresQueryCase | src/utils/index.ts:73 | a lower-cased query gives the same answer |
| Utils.IncludeSearchSkipsUndefined | src/utils/index.ts:72-76 | an extra `undefined` argument never changes the answer |
| JsString.Trim | src/string/index.ts:25 | `trim` is `trimStart` followed by `trimEnd`; what it keeps is `JsString.TrimIsInfix` and `JsString.TrimEnds` |
| JsString.TrimStart | src/string/index.ts:25 | the result is a suffix of the input, what was dropped is all white space, and the result does not start with white space |
| JsString.TrimEnd | src/string/index.ts:30 | the result is a prefix of the input, what was dropped is all white space, and the result does not end with white space |
| JsString.TrimIsInfix | src/string/index.ts:25 | the trim is the infix left between an all-white-space prefix and an all-white-space suffix |
| JsString.TrimEnds | src/checks/index.ts:58 | the trim neither starts nor ends with white space, and it is empty exactly when the input is all white space |
| JsString.TrimOfTrimmed | src/string/index.ts:25 | a text that neither starts nor ends with white space is its own trim |
| Checks.StripWhitespace | src/checks/index.ts:15 | the result has no white space, keeps every other character's count, and is a subsequence of the input |
| Checks.StripWhitespaceKeeps | src/checks/index.ts:15 | a text without white space is left unchanged |
| JsString.Split | src/checks/index.ts:16 | `split` gives one more piece than there are separators; no piece holds the separator; the pieces join back to the input |
| JsString.Join | src/format/index.ts:38 | `join` puts the separator between consecutive parts, none for one part, and gives "" for none; `JsString.Split` is proved its inverse |
| JsString.SplitJoin | src/format/index.ts:66-67 | joining pieces without separators and splitting again gives the pieces back |
| JsString.CountConcat | src/checks/index.ts:16 | occurrence counts add up over a concatenation |
| Checks.IsValidNumber | src/checks/index.ts:10-18 | valid exactly when the coercion is finite, the stripped text matches `digitRegex`, and it holds at most one dot |
| Checks.IsValidNumberShape | src/checks/index.ts:11-17 | a valid number is finite and, stripped, an optional `-`, digits with at most one dot, and an optional exponent |
| Checks.IsValidNumberNeedsPattern | src/checks/index.ts:15 | a stripped text that does not match the pattern is never valid |
| Checks.IsValidNumberNeedsFinite | src/checks/index.ts:12-14 | a value coercing to NaN or an infinity is never valid |
| Checks.MoreThanOneDot | src/checks/index.ts:16 | a stripped text with two or more dots is never valid |
| Checks.IsValidNumberTwoDots | src/checks/index.ts:16 | "12.5.6" matches the pattern but is not valid |
| Checks.CheckStrEmpty | src/checks/index.ts:27-59 | true for a falsy or non-string, non-object input; true for a string exactly when it is all white space; true for an array exactly when it is empty or some element is `undefined`, not a string, or all white space |
| StringHelpers.CapitalizeFirstLetter | src/string/index.ts:9-11 | same length; "" gives ""; the first character is upper-cased and the rest is unchanged |
| StringHelpers.CapitalizeFirstLetterIdempotent | src/string/index.ts:10 | capitalising twice equals capitalising once |
| StringHelpers.CapitalizeFirstLetterKeepsLetters | src/string/index.ts:10 | only case changes: the lower-cased result is the lower-cased input |
| StringHelpers.CapitalizeFirstLetterExample | src/string/index.ts:4 | "mike" becomes "Mike" |
| StringHelpers.Prefix | src/string/index.ts:30 | `substring(0, end)` is a prefix whose length is `end` clamped to the string (0 for negative `end`) |
| StringHelpers.LimitText | src/string/index.ts:24-31 | a text whose trim fits the limit comes back untrimmed; otherwise the result ends in "..." |
| StringHelpers.LimitTextTruncates | src/string/index.ts:30 | a truncated result is `kept + "..."`: `kept` is the cut of the trim without trailing white space, a prefix of the trim, no longer than the limit |
| StringHelpers.LimitTextDefault | src/string/index.ts:24-31 | with the default limit of 50, a text whose trim has at most 50 characters comes back unchanged; a longer one becomes at most 53 characters ending in "..." |
| StringHelpers.LimitTextLength | src/string/index.ts:30 | a truncated result is at most three characters longer than the limit |
| StringHelpers.LimitTextExactFit | src/string/index.ts:25 | `"I am "` with limit 4: the trim has exactly 4 characters, so the untrimmed text comes back without "..." |
| StringHelpers.LimitTextDropsTrailingSpace | src/string/index.ts:27-29 | the cut "I am " becomes "I am..." |
| Regex.RunLength | src/regex/index.ts:4 | the longest run of matching characters: all match, and the next one does not |
| Regex.DigitRegex | src/regex/index.ts:4 | `digitRegex.test`: after an optional `-`, the longest run of digits and dots is non-empty and is followed by nothing or by an exponent; its two directions are `Regex.DigitRegexComplete` and `Regex.DigitRegexSound` |
| Regex.DigitRegexComplete | src/regex/index.ts:4 | every optional `-`, non-empty run of digits and dots, and optional exponent `e`, optional `-`, digits is accepted |
| Regex.DigitRegexSound | src/regex/index.ts:4 | every accepted text splits into such a sign, run and exponent, with nothing else |
| Regex.DigitRegexRejects | src/regex/index.ts:4 | "", "+1", "1E5" and "1e" are rejected |
| Regex.DigitRegexAccepts | src/regex/index.ts:4 | "1.2.3" and "-12.5e-3" are accepted |
| Regex.TldGroupsIff | src/regex/index.ts:10 | `([a-zA-Z0-9]{2,4})+` admits exactly the alphanumeric texts of length two or more |
| Regex.DomainTailComplete | src/regex/index.ts:10 | one or more labels, each followed by a dot, then at least two alphanumerics, are accepted after `@` |
| Regex.DomainTailSound | src/regex/index.ts:10 | every accepted text after `@` is such labels and final characters |
| Regex.EmailRegex | src/regex/index.ts:9-10 | `emailRegex.test`: the longest run of local-part characters is non-empty and followed by `@`, then one or more labels each ending in `.`, then the final alphanumeric groups; its two directions are `Regex.EmailRegexComplete` and `Regex.EmailRegexSound` |
| Regex.EmailRegexComplete | src/regex/index.ts:9-10 | every local part, `@`, labels and final characters form an accepted address |
| Regex.EmailRegexSound | src/regex/index.ts:9-10 | every accepted address is a non-empty local part, `@`, labels and at least two alphanumerics |
| Regex.EmailRegexOneAt | src/regex/index.ts:9-10 | an accepted address holds exactly one `@` |
| Regex.UrlUnsafe | src/regex/index.ts:16 | a character outside every range of the negated class `[^a-zA-Z0-9-_]`; which characters these are is `Regex.UrlUnsafeIff` |
| Regex.UrlUnsafeIff | src/regex/index.ts:16 | a character is matched exactly when it is not an ASCII letter, a digit, `-` or `_` |
| Regex.UrlUnsafeExamples | src/regex/index.ts:12-16 | `-`, `_` and letters are safe; space, `/` and `.` are not |
| JsNumber.DecimalString | src/format/index.ts:38 | `String(n)` is a non-empty string of digits with no leading zero |
| JsNumber.ToNumber | src/format/index.ts:68 | `Number(s)` for the trim of `s`: "" is 0, decimal digits after an optional `+` or `-` are that integer, anything else is untracked |
| JsNumber.DecimalStringRoundTrip | src/format/index.ts:38 | reading back the digits of `n` gives `n` |
| Format.Pad2 | src/format/index.ts:38 | `` `0${t}`.slice(-2) `` is two characters |
| Format.Pad2Digits | src/format/index.ts:38 | those characters are the tens digit and the units digit of `t` |
| Format.TwoDigits | src/format/index.ts:38 | two digit characters |
| Format.LastTwoDigits | src/format/index.ts:38 | only `t` modulo 100 matters to the padded field |
| Format.FormatMin | src/format/index.ts:36-39 | `formatMin` has length 5: the last two digits of the whole hours, `:`, and the two digits of the remaining minutes |
| Format.FormatMinWraps | src/format/index.ts:37-38 | the output repeats every 100 hours, since hours of 100 or more lose their leading digits |
| Format.FormatMinExample | src/format/index.ts:34 | 80 gives "01:20" |
| Format.FormatSec | src/format/index.ts:47-54 | `formatSec` has length 8: the two digits of `sec / 3600` modulo 100, of `(sec / 60) % 60`, and of `sec % 60` |
| Format.FormatSecExample | src/format/index.ts:45 | 80 gives "00:01:20" |
| Format.Reduce | src/format/index.ts:69 | `reduce((prev, curr) => prev + curr)` with no initial value, adding the numbers left to right from the first; its value is `Format.ReduceSum` |
| Format.ReduceSum | src/format/index.ts:69 | the reduction is tracked exactly when every number is, and then it is the sum |
| Format.Readings | src/format/index.ts:66-68 | `split(":")` followed by `Number` of each field: never empty, since `split` always gives at least one field |
| Format.ReadingsPerField | src/format/index.ts:66-68 | `Format.Readings` gives one `Number` reading per `:`-separated field, so one more than there are `:` characters |
| Format.FormatTimestamp | src/format/index.ts:64-70 | the first reading times 60, then the later readings added by `reduce`; its value is `Format.FormatTimestampSum` |
| Format.FormatTimestampSum | src/format/index.ts:64-70 | a timestamp gives 60 times its first field plus the sum of the later fields, when every field reads as an integer |
| Format.ReadDigits | src/format/index.ts:68 | `Number` of a non-empty string of digits is its decimal value |
| Format.ReadTwoDigits | src/format/index.ts:68 | the two digits of a number below 100 read back as that number |
| Format.TwoFieldTimestamp | src/format/index.ts:66-69 | a two-field timestamp is the first field times 60 plus the second |
| Format.FormatTimestampExample | src/format/index.ts:59 | "8:15" gives 495 |
| Format.FormatTimestampOfFormatMin | src/format/index.ts:36-70 | for minutes below 6000, reading back what `formatMin` prints gives those minutes |

## Left out

- `formatToCalendarDate` and `formatToHumanDate` are left out. They call the `dayjs` library, which is not part of this model, and their defaults read the clock.
- `formatMoneyStr` is left out because it uses floating-point `toFixed`.
- `currencyFormatter` is left out because it uses the locale formatting of `Intl.NumberFormat`.
- `isValidNumber` takes the result of its three coercion tests as a parameter, `isFinite`. The tests are `Number.isNaN(Number(value))`, `!== Infinity` and `!== -Infinity`, and JavaScript's `Number` coercion is not modelled.
- `isValidNumber` is modelled on strings only. A number argument goes through `String(value)`, whose float formatting is not modelled.
- JsNumber.ToNumber: only integer strings are tracked: surrounding white space, then decimal digits with an optional sign, or the empty string. Fractions, exponents, hexadecimal, `Infinity` and NaN are all `Untracked`, so `formatTimestamp` results involving them are not computed.
- `formatMin` and `formatSec` take natural numbers only. Negative or fractional arguments, and `Math.floor` and `%` on floats, are not modelled.
- Upper- and lower-casing cover ASCII letters only. Other characters are left unchanged, whereas JavaScript maps the whole of Unicode.
- Array elements are compared with Dafny's equality, which agrees with `Set`'s SameValueZero on NaN but leaves out object identity.
- ArrayHelpers.ArrayContainsArray: `indexOf` uses strict equality, under which NaN differs from itself, so `arrayContainsArray([NaN], [NaN])` is false in JavaScript; the model, comparing with Dafny's equality, returns true.
- `urlQueryBuilder` takes its data as a sequence of entries in `Object.keys` order. That ordering rule is not modelled.
- A number value in `queryURLBuilder` and `urlQueryBuilder` is given by its rendered text.
- `checkStrEmpty` models only undefined or other falsy inputs, strings, arrays, and other truthy non-objects. Its behaviour on an arbitrary non-array object, which reads `length` and indexed properties, is not modelled.
- Array elements in `checkStrEmpty` are `undefined`, strings, or any other value. A falsy element, such as `null`, `0` or `false`, returns true at src/checks/index.ts:43. A truthy non-string returns true at src/checks/index.ts:45. Both paths return true, so one case models both.
- `limitText` takes an integer limit. A fractional or NaN limit is not modelled. The default of 50 is `StringHelpers.DefaultLimit`, used by `StringHelpers.LimitTextDefault`.
- StringHelpers.LimitText: lengths are counted in Unicode scalar values, whereas JavaScript counts UTF-16 code units. The two differ for characters outside the Basic Multilingual Plane: `limitText("😀", 1)` returns `"\uD83D..."` in JavaScript, but the model returns `"😀"`, whose length is 1.
- StringHelpers.Prefix: `substring` cuts at a UTF-16 code unit, possibly inside a surrogate pair; the model cuts between Unicode scalar values.
- StringHelpers.CapitalizeFirstLetter: the first character is a Unicode scalar value, whereas `charAt(0)` is the first UTF-16 code unit.
- JsNumber.DecimalString: JavaScript renders a number as a double, and `String(n)` is plain decimal only below 1e21. For example, `String(1e21)` is "1e+21", and integers above 2^53 are rounded first. The model states the decimal text of every natural number.
- Format.Pad2Digits: holds for JavaScript only where `DecimalString` agrees with `String(n)`, that is below 1e21.
- Format.FormatMinWraps: likewise holds for JavaScript only below 1e21 minutes.
- Format.FormatMin: its `hh:mm` closed form holds for JavaScript only below 1e21 hours; at 1e21 or more `` `0${t}` `` is "01e+21" and the hours pad to "21".
- Format.FormatSec: likewise, its `hh:mm:ss` closed form holds for JavaScript only below 1e21 hours.
- Format.ReadDigits: JavaScript's `Number` reads a digit string as a double, which is exact only below 2^53; the model reads every digit string exactly.
- Format.FormatTimestampSum: the sum is exact in the model; in JavaScript it is exact only while every reading and the sum stay below 2^53.
- The string-similarity, email-validation, anchor-tagging and type-narrowing helpers are not part of this model.

## Findings

| source | as written | input that shows it | evidently intended | confidence | as-written member | corrected member |
|---|---|---|---|---|---|---|
| src/utils/index.ts:55 | `queryURL.search("?")` passes "?" to `search`, which compiles it as a regular expression; "?" is not a valid pattern, so the call throws a SyntaxError | `urlQueryBuilder("http://test", {cool: true, name: "jack"})`, the documented example | test whether the text built so far contains the character `?`, and append `&` if so and `?` otherwise | not executed | Utils.UrlQueryBuilderAsWritten, Utils.DocExampleThrowsAsWritten | Utils.UrlQueryBuilder |
