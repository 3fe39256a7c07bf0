/**
 The URL and search helpers of src/utils/index.ts: two query-string builders
 and a case-insensitive search over optional strings.
 */
module Utils {
  import opened Wrappers
  import opened JsArray
  import opened JsString

  /** A key and the text its value renders to in a template literal. */
  datatype Param = Param(key: string, value: string)

  /** `key=value`. */
  function Assignment(p: Param): string {
    p.key + "=" + p.value
  }

  /** `&key=value` for each parameter, in order. */
  function AmpSegments(data: seq<Param>): string {
    if data == [] then "" else "&" + Assignment(data[0]) + AmpSegments(data[1..])
  }

  /** `?k0=v0` followed by `&ki=vi` for every later parameter; nothing for no parameters. */
  function QueryString(data: seq<Param>): string {
    if data == [] then "" else "?" + Assignment(data[0]) + AmpSegments(data[1..])
  }

  lemma {:induction false} AmpSegmentsAppend(data: seq<Param>, p: Param)
    ensures AmpSegments(data + [p]) == AmpSegments(data) + "&" + Assignment(p)
  {
    if data != [] {
      assert (data + [p])[1..] == data[1..] + [p];
      AmpSegmentsAppend(data[1..], p);
    } else {
      assert [p][1..] == [];
    }
  }

  /** One more parameter extends the query by its separator and `key=value`. */
  lemma QueryStringAppend(data: seq<Param>, p: Param)
    ensures QueryString(data + [p]) == QueryString(data) + (if data == [] then "?" else "&") + Assignment(p)
  {
    if data != [] {
      assert (data + [p])[0] == data[0];
      assert (data + [p])[1..] == data[1..] + [p];
      AmpSegmentsAppend(data[1..], p);
      var head := "?" + Assignment(data[0]);
      ConcatAssoc(head, AmpSegments(data[1..]), "&", Assignment(p));
    } else {
      assert [] + [p] == [p];
    }
  }

  /** The query of the first `index + 1` parameters extends that of the first `index` by one segment. */
  lemma QueryStringStep(url: string, data: seq<Param>, index: nat)
    requires index < |data|
    ensures url + QueryString(data[..index + 1]) == url + QueryString(data[..index]) + (if index == 0 then "?" else "&") + Assignment(data[index])
  {
    var prefix := data[..index];
    assert data[..index + 1] == prefix + [data[index]];
    QueryStringAppend(prefix, data[index]);
    ConcatAssoc(url, QueryString(prefix), if index == 0 then "?" else "&", Assignment(data[index]));
  }

  /**
   The deprecated `queryURLBuilder`: appends `?key=value` for the first
   parameter and `&key=value` for every later one.
   */
  method QueryURLBuilder(url: string, data: seq<Param>) returns (queryURL: string)
    ensures queryURL == url + QueryString(data)
    ensures data == [] ==> queryURL == url
  {
    queryURL := url;
    for index := 0 to |data|
      invariant queryURL == url + QueryString(data[..index])
    {
      QueryStringStep(url, data, index);
      if index == 0 {
        queryURL := queryURL + "?" + Assignment(data[index]);
      } else {
        queryURL := queryURL + "&" + Assignment(data[index]);
      }
    }
    assert data[..|data|] == data;
  }

  /** A value of `urlQueryBuilder`'s data object. */
  datatype QueryValue =
    | Text(text: string)
    | Number(rendered: string)   // the decimal text `String(n)` gives
    | Boolean(flag: bool)
    | UndefinedValue
    | NullValue

  /** What `${value}` renders a value to. */
  function Render(v: QueryValue): string {
    match v
    case Text(t) => t
    case Number(n) => n
    case Boolean(b) => if b then "true" else "false"
    case UndefinedValue => "undefined"
    case NullValue => "null"
  }

  /** The data object's entries, in the order `Object.keys` lists them. */
  datatype Entry = Entry(key: string, value: QueryValue)

  function Rendered(data: seq<Entry>): (r: seq<Param>)
    ensures |r| == |data|
  {
    seq(|data|, i requires 0 <= i < |data| => RenderEntry(data[i]))
  }

  /**
   What `urlQueryBuilder` appends to `url`: the first entry gets `&` when
   `url` already holds a query and `?` otherwise, every later entry gets `&`.
   */
  function UrlQuerySuffix(url: string, data: seq<Entry>): string {
    if data == [] then ""
    else
      var params := Rendered(data);
      (if '?' in url then "&" else "?") + Assignment(params[0]) + AmpSegments(params[1..])
  }

  /** The outcome of a call that may throw. */
  datatype Outcome = Returned(text: string) | ThrowsSyntaxError

  /**
   `urlQueryBuilder` as written: each entry first asks `queryURL.search("?")`,
   which compiles "?" as a regular expression. Once the call throws, the
   remaining entries are not visited and the builder returns nothing.
   */
  method UrlQueryBuilderAsWritten(url: string, data: seq<Entry>) returns (r: Outcome)
    ensures r.Returned? <==> data == []
    ensures r.Returned? ==> r.text == url
  {
    var queryURL := url;
    var thrown := false;
    for index := 0 to |data|
      invariant thrown <==> index > 0
      invariant queryURL == url
    {
      if !thrown {
        var key, value := data[index].key, data[index].value;
        match Search(queryURL, "?")
        case InvalidPattern =>
          thrown := true;
        case Found(at) =>
          queryURL := queryURL + (if at > -1 then "&" else "?") + Assignment(Param(key, Render(value)));
        case UnmodelledPattern =>
      }
    }
    r := if thrown then ThrowsSyntaxError else Returned(queryURL);
  }

  /** The documented call throws instead of returning the documented URL. */
  method DocExampleThrowsAsWritten() returns (r: Outcome)
    ensures r == ThrowsSyntaxError
    ensures r != Returned("http://test?cool=true&name=jack")
  {
    r := UrlQueryBuilderAsWritten("http://test", [Entry("cool", Boolean(true)), Entry("name", Text("jack"))]);
  }

  /**
   `urlQueryBuilder` with the intended test "the URL built so far contains
   `?`": each entry appends a separator and `key=value`, the separator being
   `&` when the text built so far holds a `?` and `?` otherwise. Entries with
   an `undefined` or `null` value are appended too.
   */
  method UrlQueryBuilder(url: string, data: seq<Entry>) returns (queryURL: string)
    ensures queryURL == url + UrlQuerySuffix(url, data)
  {
    queryURL := url;
    for index := 0 to |data|
      invariant queryURL == url + UrlQuerySuffix(url, data[..index])
    {
      var key, value := data[index].key, data[index].value;
      UrlQuerySuffixStep(url, data, index);
      queryURL := queryURL + (if '?' in queryURL then "&" else "?") + Assignment(Param(key, Render(value)));
    }
    assert data[..|data|] == data;
  }

  /** An entry and the parameter it renders to. */
  function RenderEntry(e: Entry): Param {
    Param(e.key, Render(e.value))
  }

  /** One more entry extends the suffix by a separator and its `key=value`. */
  lemma UrlQuerySuffixAppend(url: string, data: seq<Entry>, e: Entry)
    ensures UrlQuerySuffix(url, data + [e]) == UrlQuerySuffix(url, data) + (if '?' in url || data != [] then "&" else "?") + Assignment(RenderEntry(e))
  {
    var p := RenderEntry(e);
    assert Rendered(data + [e]) == Rendered(data) + [p];
    if data != [] {
      var params := Rendered(data);
      assert (params + [p])[0] == params[0];
      assert (params + [p])[1..] == params[1..] + [p];
      AmpSegmentsAppend(params[1..], p);
      var head := (if '?' in url then "&" else "?") + Assignment(params[0]);
      ConcatAssoc(head, AmpSegments(params[1..]), "&", Assignment(p));
    } else {
      assert [] + [e] == [e];
      assert [p][1..] == [];
    }
  }

  /** The text built so far holds a `?` exactly when `url` does or some entry has been appended. */
  lemma BuiltHasQuery(url: string, data: seq<Entry>)
    ensures '?' in url + UrlQuerySuffix(url, data) <==> '?' in url || data != []
  {
    var built := url + UrlQuerySuffix(url, data);
    if '?' in url {
      var k :| 0 <= k < |url| && url[k] == '?';
      assert built[k] == '?';
    } else if data != [] {
      assert built[|url|] == '?';
    } else {
      assert built == url;
    }
  }

  /**
   One more entry appends its separator, chosen by whether the text built so
   far contains `?`, and its `key=value`.
   */
  lemma UrlQuerySuffixStep(url: string, data: seq<Entry>, index: nat)
    requires index < |data|
    ensures var built := url + UrlQuerySuffix(url, data[..index]);
      url + UrlQuerySuffix(url, data[..index + 1]) == built + (if '?' in built then "&" else "?") + Assignment(RenderEntry(data[index]))
  {
    var prefix := data[..index];
    assert data[..index + 1] == prefix + [data[index]];
    UrlQuerySuffixAppend(url, prefix, data[index]);
    BuiltHasQuery(url, prefix);
    var sep := if '?' in url || prefix != [] then "&" else "?";
    ConcatAssoc(url, UrlQuerySuffix(url, prefix), sep, Assignment(RenderEntry(data[index])));
  }

  /** The suffix for one entry on a URL without a query. */
  lemma SuffixOfOne(url: string, e1: Entry)
    requires '?' !in url
    ensures UrlQuerySuffix(url, [e1]) == "?" + Assignment(RenderEntry(e1))
  {
    assert Rendered([e1]) == [RenderEntry(e1)];
    assert AmpSegments([]) == "";
  }

  /** The suffix for two entries on a URL without a query. */
  lemma SuffixOfTwo(url: string, e1: Entry, e2: Entry)
    requires '?' !in url
    ensures UrlQuerySuffix(url, [e1, e2]) == "?" + Assignment(RenderEntry(e1)) + "&" + Assignment(RenderEntry(e2))
  {
    SuffixOfOne(url, e1);
    UrlQuerySuffixAppend(url, [e1], e2);
    assert [e1] + [e2] == [e1, e2];
  }

  lemma ExampleUrlHasNoQuery()
    ensures '?' !in "http://test"
  {
  }

  /** The example of the documentation comment. */
  lemma UrlQueryDocExample()
    ensures "http://test" + UrlQuerySuffix("http://test", [Entry("cool", Boolean(true)), Entry("name", Text("jack"))]) == "http://test?cool=true&name=jack"
  {
    ExampleUrlHasNoQuery();
    SuffixOfTwo("http://test", Entry("cool", Boolean(true)), Entry("name", Text("jack")));
    DocExampleText();
  }

  lemma DocExampleText()
    ensures "http://test" + ("?" + Assignment(RenderEntry(Entry("cool", Boolean(true)))) + "&" + Assignment(RenderEntry(Entry("name", Text("jack"))))) == "http://test?cool=true&name=jack"
  {
    DocExampleAssignments();
    assert "http://test" + ("?" + "cool=true" + "&" + "name=jack") == "http://test?cool=true&name=jack";
  }

  lemma DocExampleAssignments()
    ensures Assignment(RenderEntry(Entry("cool", Boolean(true)))) == "cool=true"
    ensures Assignment(RenderEntry(Entry("name", Text("jack")))) == "name=jack"
  {
  }

  /** An `undefined` value is not dropped: it is appended as the text "undefined". */
  lemma UrlQueryKeepsUndefined()
    ensures "http://test" + UrlQuerySuffix("http://test", [Entry("a", UndefinedValue)]) == "http://test?a=undefined"
  {
    ExampleUrlHasNoQuery();
    SuffixOfOne("http://test", Entry("a", UndefinedValue));
    UndefinedExampleText();
  }

  lemma UndefinedExampleText()
    ensures "http://test" + ("?" + Assignment(RenderEntry(Entry("a", UndefinedValue)))) == "http://test?a=undefined"
  {
  }

  /** The length of `&key=value` segments: separator, key, `=` and value for every entry. */
  function SegmentsLength(params: seq<Param>): nat {
    if params == [] then 0 else 2 + |params[0].key| + |params[0].value| + SegmentsLength(params[1..])
  }

  lemma {:induction false} AmpSegmentsLength(params: seq<Param>)
    ensures |AmpSegments(params)| == SegmentsLength(params)
  {
    if params != [] {
      AmpSegmentsLength(params[1..]);
    }
  }

  /**
   Every entry contributes exactly one segment, of its separator, its key, `=`
   and its rendered value: no entry is skipped.
   */
  lemma UrlQuerySuffixLength(url: string, data: seq<Entry>)
    ensures |UrlQuerySuffix(url, data)| == SegmentsLength(Rendered(data))
  {
    if data != [] {
      AmpSegmentsLength(Rendered(data)[1..]);
    }
  }

  /**
   On a URL without a query, both builders produce the same text from the same
   pairs.
   */
  lemma BuildersAgree(url: string, data: seq<Entry>)
    requires '?' !in url
    ensures UrlQuerySuffix(url, data) == QueryString(Rendered(data))
  {
  }

  /**
   `includeSearch`: lower-cases the query and every defined argument and
   reports whether some argument includes the query.
   */
  function IncludeSearch(search: string, args: seq<Option<string>>): bool {
    var query := ToLowerCase(search);
    var res := seq(|args|, i requires 0 <= i < |args| =>
      if args[i].Some? then Some(Includes(ToLowerCase(args[i].value), query)) else None);
    IndexOf(res, Some(true)) != -1
  }

  /**
   `includeSearch` is true exactly when some defined argument, lower-cased,
   holds the lower-cased query somewhere; `undefined` arguments never match,
   and there is no match without arguments.
   */
  lemma IncludeSearchMatches(search: string, args: seq<Option<string>>)
    ensures IncludeSearch(search, args) <==>
      exists i, k :: 0 <= i < |args| && args[i].Some? && OccursAt(ToLowerCase(args[i].value), ToLowerCase(search), k)
  {
    var query := ToLowerCase(search);
    var res := seq(|args|, i requires 0 <= i < |args| =>
      if args[i].Some? then Some(Includes(ToLowerCase(args[i].value), query)) else None);
    forall i | 0 <= i < |args| && args[i].Some? {
      IncludesIffOccurs(ToLowerCase(args[i].value), query);
    }
    if IncludeSearch(search, args) {
      var i := IndexOf(res, Some(true));
      assert res[i] == Some(true);
    }
    if exists i, k :: 0 <= i < |args| && args[i].Some? && OccursAt(ToLowerCase(args[i].value), query, k) {
      var i, k :| 0 <= i < |args| && args[i].Some? && OccursAt(ToLowerCase(args[i].value), query, k);
      assert res[i] == Some(true);
    }
  }

  /** The search ignores case: a lower-cased query finds the same arguments. */
  lemma IncludeSearchIgnoresQueryCase(search: string, args: seq<Option<string>>)
    ensures IncludeSearch(ToLowerCase(search), args) == IncludeSearch(search, args)
  {
    ToLowerCaseIdempotent(search);
  }

  /** An `undefined` argument never changes the answer. */
  lemma IncludeSearchSkipsUndefined(search: string, args: seq<Option<string>>)
    ensures IncludeSearch(search, args + [None]) == IncludeSearch(search, args)
  {
    IncludeSearchMatches(search, args);
    IncludeSearchMatches(search, args + [None]);
    var extended := args + [None];
    assert forall i :: 0 <= i < |args| ==> extended[i] == args[i];
  }
}
