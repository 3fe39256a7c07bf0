/**
 Array helpers of src/array/index.ts: dropping `undefined` and `null`
 entries, containment, duplicate detection and de-duplication.
 */
module ArrayHelpers {
  import opened JsArray

  /** An entry of an array whose elements may be `undefined` or `null`. */
  datatype Slot<T> = Undefined | Null | Value(value: T)

  /** The array of the given values, each as a present entry. */
  function Wrap<T>(s: seq<T>): (r: seq<Slot<T>>)
    ensures |r| == |s|
  {
    seq(|s|, i requires 0 <= i < |s| => Value(s[i]))
  }

  /** The `as T[]` cast of an array that holds only present entries. */
  function Unwrap<T>(s: seq<Slot<T>>): (r: seq<T>)
    requires forall i :: 0 <= i < |s| ==> s[i].Value?
    ensures Wrap(r) == s
  {
    seq(|s|, i requires 0 <= i < |s| => s[i].value)
  }

  /** Wrapping keeps how often each value occurs. */
  lemma {:induction false} WrapCount<T>(s: seq<T>, x: T)
    ensures multiset(Wrap(s))[Value(x)] == multiset(s)[x]
  {
    if s != [] {
      WrapCount(s[1..], x);
      assert s == [s[0]] + s[1..];
      assert Wrap(s) == [Value(s[0])] + Wrap(s[1..]);
    }
  }

  /** `removeUndefinedFromArray`: every entry that is not `undefined`, in the original order. */
  function RemoveUndefinedFromArray<T(==,!new)>(arr: seq<Slot<T>>): (r: seq<Slot<T>>)
    ensures forall i :: 0 <= i < |r| ==> !r[i].Undefined?
    ensures forall x :: multiset(r)[x] == if x.Undefined? then 0 else multiset(arr)[x]
    ensures IsSubsequence(r, arr)
  {
    Filter(arr, (a: Slot<T>) => !a.Undefined?)
  }

  /** `removeNullFromArray`: every entry that is not `null`, in the original order. */
  function RemoveNullFromArray<T(==,!new)>(arr: seq<Slot<T>>): (r: seq<Slot<T>>)
    ensures forall i :: 0 <= i < |r| ==> !r[i].Null?
    ensures forall x :: multiset(r)[x] == if x.Null? then 0 else multiset(arr)[x]
    ensures IsSubsequence(r, arr)
  {
    Filter(arr, (a: Slot<T>) => !a.Null?)
  }

  /**
   `removeVoidValuesFromArray`: the values of the present entries, each as
   often as it occurs and in the original order.
   */
  function RemoveVoidValuesFromArray<T(==,!new)>(arr: seq<Slot<T>>): (r: seq<T>)
    ensures forall x :: multiset(r)[x] == multiset(arr)[Value(x)]
    ensures IsSubsequence(Wrap(r), arr)
  {
    var present := Filter(arr, (a: Slot<T>) => !a.Undefined? && !a.Null?);
    var r := Unwrap(present);
    assert forall x :: multiset(r)[x] == multiset(arr)[Value(x)] by {
      forall x ensures multiset(r)[x] == multiset(arr)[Value(x)] {
        WrapCount(r, x);
      }
    }
    r
  }

  /** The deprecated `removeEmptyValuesFromArray`, written with the same filter. */
  function RemoveEmptyValuesFromArray<T(==,!new)>(arr: seq<Slot<T>>): (r: seq<T>)
    ensures forall x :: multiset(r)[x] == multiset(arr)[Value(x)]
    ensures IsSubsequence(Wrap(r), arr)
  {
    var present := Filter(arr, (a: Slot<T>) => !a.Undefined? && !a.Null?);
    var r := Unwrap(present);
    assert forall x :: multiset(r)[x] == multiset(arr)[Value(x)] by {
      forall x ensures multiset(r)[x] == multiset(arr)[Value(x)] {
        WrapCount(r, x);
      }
    }
    r
  }

  /** The deprecated remover and its replacement agree on every input. */
  lemma RemoveEmptyIsRemoveVoid<T(!new)>(arr: seq<Slot<T>>)
    ensures RemoveEmptyValuesFromArray(arr) == RemoveVoidValuesFromArray(arr)
  {
    var r1, r2 := RemoveEmptyValuesFromArray(arr), RemoveVoidValuesFromArray(arr);
    FilterUnique(arr, (a: Slot<T>) => !a.Undefined? && !a.Null?, Wrap(r1));
    FilterUnique(arr, (a: Slot<T>) => !a.Undefined? && !a.Null?, Wrap(r2));
    assert Unwrap(Wrap(r1)) == r1 && Unwrap(Wrap(r2)) == r2;
  }

  /** Dropping the void entries is dropping the `undefined` ones and then the `null` ones. */
  lemma RemoveVoidIsRemoveUndefinedThenNull<T(!new)>(arr: seq<Slot<T>>)
    ensures Wrap(RemoveVoidValuesFromArray(arr)) == RemoveNullFromArray(RemoveUndefinedFromArray(arr))
  {
    FilterFilter(arr, (a: Slot<T>) => !a.Undefined?, (a: Slot<T>) => !a.Null?, (a: Slot<T>) => !a.Undefined? && !a.Null?);
  }

  /** `arrayContainsArray`: every element of `subset` occurs somewhere in `superset`. */
  function ArrayContainsArray<T(==)>(superset: seq<T>, subset: seq<T>): (r: bool)
    ensures r <==> forall i :: 0 <= i < |subset| ==> subset[i] in superset
    ensures r <==> (set x | x in subset) <= (set x | x in superset)
  {
    var r := Every(subset, (value: T) => IndexOf(superset, value) >= 0);
    ContainsAsSets(superset, subset);
    r
  }

  /** Elementwise containment is inclusion of the sets of elements. */
  lemma ContainsAsSets<T>(superset: seq<T>, subset: seq<T>)
    ensures (forall i :: 0 <= i < |subset| ==> subset[i] in superset) <==> (set x | x in subset) <= (set x | x in superset)
  {
    var small, big := set x | x in subset, set x | x in superset;
    if forall i :: 0 <= i < |subset| ==> subset[i] in superset {
      forall x | x in small ensures x in big {
        var i :| 0 <= i < |subset| && subset[i] == x;
      }
    } else {
      var i :| 0 <= i < |subset| && subset[i] !in superset;
      assert subset[i] in small && subset[i] !in big;
    }
  }

  /** `arrayHasDuplicates`: some value occurs at two different indices. */
  function ArrayHasDuplicates<T(==)>(arr: seq<T>): (r: bool)
    ensures r <==> exists i, j :: 0 <= i < j < |arr| && arr[i] == arr[j]
  {
    NewSetSize(arr);
    |NewSet(arr)| != |arr|
  }

  /**
   `removeDuplicatesFromArray`: each value of `arr` exactly once, in the order
   of its first occurrence in `arr`.
   */
  function RemoveDuplicatesFromArray<T(==)>(arr: seq<T>): (r: seq<T>)
    ensures Distinct(r)
    ensures forall i :: 0 <= i < |r| ==> r[i] in arr
    ensures forall i :: 0 <= i < |arr| ==> arr[i] in r
    ensures forall i, j :: 0 <= i < j < |r| ==> IndexOf(arr, r[i]) < IndexOf(arr, r[j])
  {
    NewSetFirstOccurrenceOrder(arr);
    NewSet(arr)
  }

  /** De-duplicating twice is de-duplicating once. */
  lemma RemoveDuplicatesIdempotent<T>(arr: seq<T>)
    ensures RemoveDuplicatesFromArray(RemoveDuplicatesFromArray(arr)) == RemoveDuplicatesFromArray(arr)
  {
    NewSetOfDistinct(RemoveDuplicatesFromArray(arr));
  }

  /** A de-duplicated array has no duplicates. */
  lemma RemoveDuplicatesLeavesNone<T>(arr: seq<T>)
    ensures !ArrayHasDuplicates(RemoveDuplicatesFromArray(arr))
  {
  }

  /** De-duplication leaves an array unchanged exactly when it has no duplicates. */
  lemma RemoveDuplicatesFixpoint<T>(arr: seq<T>)
    ensures RemoveDuplicatesFromArray(arr) == arr <==> !ArrayHasDuplicates(arr)
  {
    if !ArrayHasDuplicates(arr) {
      NewSetOfDistinct(arr);
    }
  }

  /** De-duplication keeps the same elements: each array contains the other. */
  lemma RemoveDuplicatesSameElements<T>(arr: seq<T>)
    ensures ArrayContainsArray(arr, RemoveDuplicatesFromArray(arr))
    ensures ArrayContainsArray(RemoveDuplicatesFromArray(arr), arr)
  {
  }
}
