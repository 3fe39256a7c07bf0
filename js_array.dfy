/**
 The parts of JavaScript's Array and Set built-ins that the helpers rely on,
 over elements compared with Dafny's `==`.
 */
module JsArray {

  /** No value occurs at two different indices. */
  predicate Distinct<T(==)>(s: seq<T>) {
    forall i, j :: 0 <= i < j < |s| ==> s[i] != s[j]
  }

  /** `r` is obtained from `s` by deleting elements, keeping the order of the rest. */
  predicate IsSubsequence<T(==)>(r: seq<T>, s: seq<T>)
    decreases |s|
  {
    r == [] || (s != [] && ((r[0] == s[0] && IsSubsequence(r[1..], s[1..])) || IsSubsequence(r, s[1..])))
  }

  /** `Array.prototype.indexOf`: the first index holding `x`, or -1. */
  function IndexOf<T(==)>(s: seq<T>, x: T): (k: int)
    ensures -1 <= k < |s|
    ensures k == -1 <==> x !in s
    ensures k >= 0 ==> s[k] == x && forall j :: 0 <= j < k ==> s[j] != x
  {
    if s == [] then -1
    else if s[0] == x then 0
    else
      var k := IndexOf(s[1..], x);
      if k < 0 then -1 else k + 1
  }

  /** An element appended to a sequence without it is found at the end. */
  lemma IndexOfAppendNew<T>(s: seq<T>, x: T)
    requires x !in s
    ensures IndexOf(s + [x], x) == |s|
  {
    assert (s + [x])[|s|] == x;
    assert forall j :: 0 <= j < |s| ==> (s + [x])[j] == s[j];
  }

  /** Appending an element leaves the first index of an element already present unchanged. */
  lemma IndexOfAppend<T>(s: seq<T>, x: T, y: T)
    requires y in s
    ensures IndexOf(s + [x], y) == IndexOf(s, y)
  {
    var k, m := IndexOf(s + [x], y), IndexOf(s, y);
    assert (s + [x])[m] == y;
    assert forall j :: 0 <= j < |s| ==> (s + [x])[j] == s[j];
  }

  /** `Array.prototype.filter`: the elements satisfying `p`, in their original order. */
  function Filter<T(==,!new)>(s: seq<T>, p: T -> bool): (r: seq<T>)
    ensures forall i :: 0 <= i < |r| ==> p(r[i])
    ensures forall x :: multiset(r)[x] == if p(x) then multiset(s)[x] else 0
    ensures IsSubsequence(r, s)
  {
    if s == [] then []
    else
      var rest := Filter(s[1..], p);
      assert s == [s[0]] + s[1..];
      assert multiset(s) == multiset{s[0]} + multiset(s[1..]);
      if p(s[0]) then
        assert ([s[0]] + rest)[1..] == rest;
        [s[0]] + rest
      else
        rest
  }

  /** Any subsequence of `s` with the element counts of `Filter(s, p)` is `Filter(s, p)`. */
  lemma {:induction false} FilterUnique<T(!new)>(s: seq<T>, p: T -> bool, r: seq<T>)
    requires IsSubsequence(r, s)
    requires forall x :: multiset(r)[x] == if p(x) then multiset(s)[x] else 0
    ensures r == Filter(s, p)
    decreases |s|
  {
    if s != [] {
      assert s == [s[0]] + s[1..];
      assert multiset(s) == multiset{s[0]} + multiset(s[1..]);
      if r != [] && r[0] == s[0] && IsSubsequence(r[1..], s[1..]) {
        assert r == [r[0]] + r[1..];
        assert multiset(r) == multiset{r[0]} + multiset(r[1..]);
        assert p(s[0]) by { assert multiset(r)[s[0]] > 0; }
        FilterUnique(s[1..], p, r[1..]);
      } else {
        assert IsSubsequence(r, s[1..]);
        SubsequenceCount(r, s[1..], s[0]);
        assert !p(s[0]);
        FilterUnique(s[1..], p, r);
      }
    }
  }

  /** A subsequence holds each value at most as often as the sequence does. */
  lemma {:induction false} SubsequenceCount<T>(r: seq<T>, s: seq<T>, x: T)
    requires IsSubsequence(r, s)
    ensures multiset(r)[x] <= multiset(s)[x]
    decreases |s|
  {
    if r != [] {
      assert s == [s[0]] + s[1..];
      assert multiset(s) == multiset{s[0]} + multiset(s[1..]);
      if r[0] == s[0] && IsSubsequence(r[1..], s[1..]) {
        assert r == [r[0]] + r[1..];
        assert multiset(r) == multiset{r[0]} + multiset(r[1..]);
        SubsequenceCount(r[1..], s[1..], x);
      } else {
        SubsequenceCount(r, s[1..], x);
      }
    }
  }

  /** Filtering keeps a sequence whose every element satisfies `p`. */
  lemma {:induction false} FilterAll<T(!new)>(s: seq<T>, p: T -> bool)
    requires forall i :: 0 <= i < |s| ==> p(s[i])
    ensures Filter(s, p) == s
    decreases |s|
  {
    if s != [] {
      FilterAll(s[1..], p);
      assert [s[0]] + s[1..] == s;
    }
  }

  /** Filtering twice is filtering once by the conjunction. */
  lemma {:induction false} FilterFilter<T(!new)>(s: seq<T>, p: T -> bool, q: T -> bool, pq: T -> bool)
    requires forall x :: pq(x) == (p(x) && q(x))
    ensures Filter(Filter(s, p), q) == Filter(s, pq)
    decreases |s|
  {
    if s != [] {
      FilterFilter(s[1..], p, q, pq);
      if p(s[0]) {
        assert Filter(s, p) == [s[0]] + Filter(s[1..], p);
        assert ([s[0]] + Filter(s[1..], p))[1..] == Filter(s[1..], p);
      }
    }
  }

  /** `Array.prototype.every`. */
  function Every<T>(s: seq<T>, p: T -> bool): (r: bool)
    ensures r <==> forall i :: 0 <= i < |s| ==> p(s[i])
  {
    if s == [] then true else p(s[0]) && Every(s[1..], p)
  }

  /**
   The entries of `new Set(s)` in iteration order: a Set keeps one copy of
   each value, in the order in which values were first inserted.
   */
  function NewSet<T(==)>(s: seq<T>): (r: seq<T>)
    ensures Distinct(r)
    ensures forall i :: 0 <= i < |r| ==> r[i] in s
    ensures forall i :: 0 <= i < |s| ==> s[i] in r
    ensures |r| <= |s|
  {
    if s == [] then []
    else
      var prefix, last := s[..|s| - 1], s[|s| - 1];
      assert s == prefix + [last];
      var d := NewSet(prefix);
      if last in d then d else d + [last]
  }

  /** The entries of a Set appear in the order of their first occurrence in `s`. */
  lemma {:induction false} NewSetFirstOccurrenceOrder<T>(s: seq<T>)
    ensures forall i, j :: 0 <= i < j < |NewSet(s)| ==> IndexOf(s, NewSet(s)[i]) < IndexOf(s, NewSet(s)[j])
    decreases |s|
  {
    if s != [] {
      var prefix, last := s[..|s| - 1], s[|s| - 1];
      assert s == prefix + [last];
      var d := NewSet(prefix);
      NewSetFirstOccurrenceOrder(prefix);
      if last in d {
        OrderAfterAppend(prefix, last, d);
      } else {
        OrderWithNew(prefix, last, d);
      }
    }
  }

  /** Appending an element to `s` keeps the order of first occurrences of elements of `s`. */
  lemma OrderAfterAppend<T>(s: seq<T>, x: T, d: seq<T>)
    requires forall i :: 0 <= i < |d| ==> d[i] in s
    requires forall i, j :: 0 <= i < j < |d| ==> IndexOf(s, d[i]) < IndexOf(s, d[j])
    ensures forall i, j :: 0 <= i < j < |d| ==> IndexOf(s + [x], d[i]) < IndexOf(s + [x], d[j])
  {
    forall i | 0 <= i < |d| ensures IndexOf(s + [x], d[i]) == IndexOf(s, d[i]) {
      IndexOfAppend(s, x, d[i]);
    }
  }

  /** An element new to `s` comes after every element of `s` in the order of first occurrences. */
  lemma OrderWithNew<T>(s: seq<T>, x: T, d: seq<T>)
    requires x !in d
    requires forall i :: 0 <= i < |s| ==> s[i] in d
    requires forall i :: 0 <= i < |d| ==> d[i] in s
    requires forall i, j :: 0 <= i < j < |d| ==> IndexOf(s, d[i]) < IndexOf(s, d[j])
    ensures forall i, j :: 0 <= i < j < |d + [x]| ==> IndexOf(s + [x], (d + [x])[i]) < IndexOf(s + [x], (d + [x])[j])
  {
    OrderAfterAppend(s, x, d);
    assert x !in s;
    IndexOfAppendNew(s, x);
    forall i | 0 <= i < |d| ensures IndexOf(s + [x], d[i]) < |s| {
      IndexOfAppend(s, x, d[i]);
    }
    OrderExtend(s + [x], d, x, |s|);
  }

  /** An element whose first index lies beyond those of all elements of `d` extends their order. */
  lemma OrderExtend<T>(t: seq<T>, d: seq<T>, x: T, bound: int)
    requires forall i, j :: 0 <= i < j < |d| ==> IndexOf(t, d[i]) < IndexOf(t, d[j])
    requires forall i :: 0 <= i < |d| ==> IndexOf(t, d[i]) < bound
    requires IndexOf(t, x) == bound
    ensures forall i, j :: 0 <= i < j < |d + [x]| ==> IndexOf(t, (d + [x])[i]) < IndexOf(t, (d + [x])[j])
  {
    var r := d + [x];
    forall i, j | 0 <= i < j < |r| ensures IndexOf(t, r[i]) < IndexOf(t, r[j]) {
      assert r[i] == d[i];
      if j == |d| {
        assert r[j] == x;
      } else {
        assert r[j] == d[j];
      }
    }
  }

  /** A Set built from distinct values holds them all, in the same order. */
  lemma {:induction false} NewSetOfDistinct<T>(s: seq<T>)
    requires Distinct(s)
    ensures NewSet(s) == s
    decreases |s|
  {
    if s != [] {
      var prefix, last := s[..|s| - 1], s[|s| - 1];
      assert s == prefix + [last];
      assert Distinct(prefix);
      NewSetOfDistinct(prefix);
      assert last !in prefix;
    }
  }

  /** A Set is as large as the array it is built from exactly when the array has no repeated value. */
  lemma {:induction false} NewSetSize<T>(s: seq<T>)
    ensures |NewSet(s)| == |s| <==> Distinct(s)
    decreases |s|
  {
    if s != [] {
      var prefix, last := s[..|s| - 1], s[|s| - 1];
      assert s == prefix + [last];
      NewSetSize(prefix);
      if last in prefix {
        var k :| 0 <= k < |prefix| && prefix[k] == last;
        assert s[k] == s[|s| - 1];
      } else if Distinct(prefix) {
        forall i, j | 0 <= i < j < |s| ensures s[i] != s[j] {
          if j < |prefix| { assert s[i] == prefix[i] && s[j] == prefix[j]; }
          else { assert s[i] == prefix[i]; }
        }
      } else {
        var i, j :| 0 <= i < j < |prefix| && prefix[i] == prefix[j];
        assert s[i] == s[j];
      }
    }
  }
}
