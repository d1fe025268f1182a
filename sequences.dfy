/**
 * Sequence helpers for the standard algorithms the source leans on:
 * `std::find`, the erase/remove idiom and erasing the first match.
 */
module Sequences {

  /** No element occurs twice. */
  predicate NoDuplicates<T(==)>(s: seq<T>)
  {
    forall i, j :: 0 <= i < j < |s| ==> s[i] != s[j]
  }

  /** `std::find`: the index of the first element equal to `x`, or `|s|` when there is none. */
  function FindIndex<T(==)>(s: seq<T>, x: T): (k: nat)
    ensures k <= |s|
    ensures k < |s| <==> x in s
    ensures k < |s| ==> s[k] == x
    ensures forall j :: 0 <= j < k ==> s[j] != x
  {
    if s == [] then 0
    else if s[0] == x then 0
    else 1 + FindIndex(s[1..], x)
  }

  /** The erase/remove idiom: every element equal to `x` is dropped, the others keep their order. */
  function RemoveAll<T(==,!new)>(s: seq<T>, x: T): (r: seq<T>)
    ensures x !in r
    ensures |r| <= |s|
    ensures forall y :: y in r <==> y in s && y != x
    ensures forall y :: y != x ==> multiset(r)[y] == multiset(s)[y]
  {
    if s == [] then []
    else if s[0] == x then assert s == [s[0]] + s[1..]; RemoveAll(s[1..], x)
    else assert s == [s[0]] + s[1..]; [s[0]] + RemoveAll(s[1..], x)
  }

  /** Erasing the element at position `k`. */
  function RemoveAt<T>(s: seq<T>, k: nat): (r: seq<T>)
    requires k < |s|
    ensures |r| == |s| - 1
    ensures forall j :: 0 <= j < k ==> r[j] == s[j]
    ensures forall j :: k <= j < |r| ==> r[j] == s[j + 1]
  {
    s[..k] + s[k + 1..]
  }

  /** Erasing the first element equal to `x`, if there is one (a find followed by a single erase). */
  function RemoveFirst<T(==)>(s: seq<T>, x: T): (r: seq<T>)
    ensures x !in s ==> r == s
    ensures x in s ==> |r| == |s| - 1 && multiset(r) == multiset(s) - multiset{x}
  {
    var k := FindIndex(s, x);
    if k == |s| then s
    else
      assert s == s[..k] + [s[k]] + s[k + 1..];
      RemoveAt(s, k)
  }
}
