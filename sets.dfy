/** Facts about finite sets used by the fixed-point arguments. */
module Sets {
  lemma {:induction false} SubsetCardinality<T>(a: set<T>, b: set<T>)
    requires a <= b
    ensures |a| <= |b|
    decreases |a|
  {
    if a != {} {
      var x :| x in a;
      SubsetCardinality(a - {x}, b - {x});
    }
  }

  lemma ProperSubsetCardinality<T>(a: set<T>, b: set<T>)
    requires a < b
    ensures |a| < |b|
  {
    var x :| x in b && x !in a;
    SubsetCardinality(a, b - {x});
  }

  /** The union of a sequence of sets. */
  function UnionAll<T>(s: seq<set<T>>): (u: set<T>)
    ensures forall k :: 0 <= k < |s| ==> s[k] <= u
  {
    if s == [] then {} else UnionAll(s[..|s| - 1]) + s[|s| - 1]
  }

  lemma {:induction false} UnionAllMember<T>(s: seq<set<T>>, x: T)
    requires x in UnionAll(s)
    ensures exists k :: 0 <= k < |s| && x in s[k]
  {
    if x !in s[|s| - 1] {
      UnionAllMember(s[..|s| - 1], x);
      var k :| 0 <= k < |s| - 1 && x in s[..|s| - 1][k];
      assert x in s[k];
    }
  }

  /** The naturals below `n`. */
  function Range(n: nat): (r: set<nat>)
    ensures |r| == n
    ensures forall k: int :: k in r <==> 0 <= k < n
  {
    if n == 0 then {} else Range(n - 1) + {n - 1}
  }

  /** A non-empty finite set of naturals has a least element. */
  lemma {:induction false} Minimum(s: set<nat>) returns (m: nat)
    requires s != {}
    ensures m in s && forall x :: x in s ==> m <= x
    decreases |s|
  {
    var y :| y in s;
    if s == {y} {
      m := y;
    } else {
      var m' := Minimum(s - {y});
      m := if y < m' then y else m';
      forall x | x in s
        ensures m <= x
      {
        if x != y {
          assert x in s - {y};
        }
      }
    }
  }
}
