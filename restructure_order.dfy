/**
 * Ordering the meta regions: sorting by size, assigning each region the
 * region it nests in, and listing the regions innermost first.
 */
module RestructureOrder {
  import opened Wrappers
  import opened BasicBlockNodes
  import opened MetaRegions
  import opened Sequences
  import opened Sets
  import opened RestructureRegions

  /** Regions appear in non-decreasing number of nodes. */
  ghost predicate SortedBySize(rs: Regions)
  {
    forall i, j :: 0 <= i < j < |rs| ==> |rs[i]| <= |rs[j]|
  }

  /** Inserting a region before the first region that is at least as large. */
  function InsertBySize(rs: Regions, region: set<NodeId>): (r: Regions)
    requires SortedBySize(rs)
    ensures SortedBySize(r)
    ensures multiset(r) == multiset(rs) + multiset{region}
    ensures forall x :: x in r <==> x in rs || x == region
  {
    if rs == [] then [region]
    else if |region| <= |rs[0]| then [region] + rs
    else
      var tail := InsertBySize(rs[1..], region);
      assert rs == [rs[0]] + rs[1..];
      assert forall k :: 0 <= k < |tail| ==> |rs[0]| <= |tail[k]| by {
        forall k | 0 <= k < |tail|
          ensures |rs[0]| <= |tail[k]|
        {
          assert tail[k] in rs[1..] || tail[k] == region;
        }
      }
      [rs[0]] + tail
  }

  /** sortMetaRegions: the regions, permuted into increasing number of nodes. */
  method SortMetaRegions(rs: Regions) returns (r: Regions)
    ensures SortedBySize(r)
    ensures multiset(r) == multiset(rs)
  {
    r := [];
    for k := 0 to |rs|
      invariant SortedBySize(r)
      invariant multiset(r) == multiset(rs[..k])
    {
      assert rs[..k + 1] == rs[..k] + [rs[k]];
      r := InsertBySize(r, rs[k]);
    }
    assert rs[..|rs|] == rs;
  }

  /** `j` is the first region other than `i` that contains every node of `i`. */
  ghost predicate FirstContainer(rs: Regions, i: nat, j: nat)
  {
    i < |rs| && j < |rs| && j != i && IsSubSet(rs[i], rs[j]) &&
    forall j' :: 0 <= j' < j && j' != i ==> !IsSubSet(rs[i], rs[j'])
  }

  /**
   * computeParents: the parent of a region is the first other region it is a
   * subset of, and the root region (None) when there is none.
   */
  method ComputeParents(rs: Regions) returns (parents: seq<Option<nat>>)
    ensures |parents| == |rs|
    ensures forall i :: 0 <= i < |rs| && parents[i].Some? ==> FirstContainer(rs, i, parents[i].value)
    ensures forall i :: 0 <= i < |rs| ==>
              (parents[i].None? <==> forall j :: 0 <= j < |rs| && j != i ==> !IsSubSet(rs[i], rs[j]))
  {
    parents := [];
    for i := 0 to |rs|
      invariant |parents| == i
      invariant forall i' :: 0 <= i' < i && parents[i'].Some? ==> FirstContainer(rs, i', parents[i'].value)
      invariant forall i' :: 0 <= i' < i ==>
                  (parents[i'].None? <==> forall j :: 0 <= j < |rs| && j != i' ==> !IsSubSet(rs[i'], rs[j]))
    {
      var parentFound := false;
      var j := 0;
      while j < |rs|
        invariant 0 <= j <= |rs|
        invariant forall j' :: 0 <= j' < j && j' != i ==> !IsSubSet(rs[i], rs[j'])
      {
        if j != i && IsSubSet(rs[i], rs[j]) {
          parentFound := true;
          break;
        }
        j := j + 1;
      }
      var parent := if parentFound then Some(j) else None;
      parents := parents + [parent];
    }
  }

  /** Every parent is another region of the vector with strictly more nodes. */
  ghost predicate ParentsGrow(rs: Regions, parents: seq<Option<nat>>)
  {
    |parents| == |rs| &&
    forall i :: 0 <= i < |rs| && parents[i].Some? ==>
      parents[i].value < |rs| && |rs[i]| < |rs[parents[i].value]|
  }

  /**
   * Once the regions are non-empty and pairwise disjoint or strictly nested,
   * as simplifySCS leaves them, the parents computeParents picks are strictly
   * larger.
   */
  lemma NestedParentsGrow(rs: Regions, parents: seq<Option<nat>>)
    requires forall i :: 0 <= i < |rs| ==> rs[i] != {}
    requires forall i, j :: 0 <= i < j < |rs| ==> DisjointOrNested(rs[i], rs[j])
    requires |parents| == |rs|
    requires forall i :: 0 <= i < |rs| && parents[i].Some? ==> FirstContainer(rs, i, parents[i].value)
    ensures ParentsGrow(rs, parents)
  {
    forall i | 0 <= i < |rs| && parents[i].Some?
      ensures |rs[i]| < |rs[parents[i].value]|
    {
      var j := parents[i].value;
      var x :| x in rs[i];
      if i < j {
        assert DisjointOrNested(rs[i], rs[j]);
      } else {
        assert DisjointOrNested(rs[j], rs[i]);
      }
      assert x in rs[i] * rs[j];
      ProperSubsetCardinality(rs[i], rs[j]);
    }
  }

  /** Among the unprocessed regions there is one whose parent is not unprocessed. */
  lemma {:induction false} UnprocessedTop(rs: Regions, parents: seq<Option<nat>>, processed: set<nat>, k: nat)
    returns (top: nat)
    requires ParentsGrow(rs, parents) && k < |rs| && k !in processed
    ensures top < |rs| && top !in processed
    ensures parents[top].None? || parents[top].value in processed
    decreases |UnionAll(rs)| - |rs[k]|
  {
    SubsetCardinality(rs[k], UnionAll(rs));
    if parents[k].Some? && parents[k].value !in processed {
      var p := parents[k].value;
      SubsetCardinality(rs[p], UnionAll(rs));
      top := UnprocessedTop(rs, parents, processed, p);
    } else {
      top := k;
    }
  }

  /** Each listed region's parent is the root or listed earlier. */
  ghost predicate ParentsListedBefore(parents: seq<Option<nat>>, ordered: seq<nat>)
    requires forall p :: 0 <= p < |ordered| ==> ordered[p] < |parents|
  {
    forall p :: 0 <= p < |ordered| ==> parents[ordered[p]].None? || parents[ordered[p]].value in ordered[..p]
  }

  /** Region `i` is unprocessed and no other unprocessed region is its parent. */
  predicate Ready(parents: seq<Option<nat>>, processed: set<nat>, i: nat)
    requires i < |parents|
  {
    i !in processed &&
    (parents[i].None? || parents[i].value == i || parents[i].value >= |parents| || parents[i].value in processed)
  }

  /**
   * One pass of the scan in applyPartialOrder: the first unprocessed region
   * for which no other unprocessed region is the parent.
   */
  method FirstReady(parents: seq<Option<nat>>, processed: set<nat>) returns (i: nat)
    requires exists k :: 0 <= k < |parents| && Ready(parents, processed, k)
    ensures i < |parents| && Ready(parents, processed, i)
    ensures forall k :: 0 <= k < i ==> !Ready(parents, processed, k)
  {
    i := 0;
    while i < |parents|
      invariant 0 <= i <= |parents|
      invariant forall k :: 0 <= k < i ==> !Ready(parents, processed, k)
    {
      if i !in processed {
        var foundParent := false;
        for j := 0 to |parents|
          invariant foundParent <==> exists j' :: 0 <= j' < j && i != j' && j' !in processed && parents[i] == Some(j')
        {
          if i != j && j !in processed && parents[i] == Some(j) {
            foundParent := true;
            break;
          }
        }
        if !foundParent {
          return;
        }
      }
      i := i + 1;
    }
  }

  /** What applyPartialOrder keeps true of the list it builds and of its processed set. */
  ghost predicate OrderInv(n: nat, parents: seq<Option<nat>>, ordered: seq<nat>, processed: set<nat>)
  {
    |parents| == n &&
    (forall p :: 0 <= p < |ordered| ==> ordered[p] < n) &&
    NoDuplicates(ordered) &&
    (forall k :: k in processed <==> k in ordered) &&
    |processed| == |ordered| && processed <= Range(n) &&
    ParentsListedBefore(parents, ordered)
  }

  lemma ListReady(n: nat, parents: seq<Option<nat>>, ordered: seq<nat>, processed: set<nat>, i: nat)
    requires OrderInv(n, parents, ordered, processed) && i < n && i !in processed
    requires parents[i].None? || parents[i].value in processed
    ensures OrderInv(n, parents, ordered + [i], processed + {i})
  {
    var ordered' := ordered + [i];
    assert ordered'[..|ordered|] == ordered;
    forall p | 0 <= p < |ordered'|
      ensures parents[ordered'[p]].None? || parents[ordered'[p]].value in ordered'[..p]
    {
      if p < |ordered| {
        assert ordered'[..p] == ordered[..p];
      }
    }
  }

  /** While a region is unprocessed, some unprocessed region is ready to be listed. */
  lemma SomeReady(rs: Regions, parents: seq<Option<nat>>, ordered: seq<nat>, processed: set<nat>)
    requires ParentsGrow(rs, parents) && OrderInv(|rs|, parents, ordered, processed)
    requires |processed| != |rs|
    ensures exists k :: 0 <= k < |rs| && Ready(parents, processed, k)
  {
    SubsetCardinality(processed, Range(|rs|));
    assert exists k :: 0 <= k < |rs| && k !in processed by {
      if forall k :: 0 <= k < |rs| ==> k in processed {
        assert Range(|rs|) <= processed;
        SubsetCardinality(Range(|rs|), processed);
      }
    }
    var k0 :| 0 <= k0 < |rs| && k0 !in processed;
    var top := UnprocessedTop(rs, parents, processed, k0);
    assert Ready(parents, processed, top);
  }

  /** Reversing a list in which every parent comes first puts every region before its parent. */
  lemma ReversedPutsParentsLast(parents: seq<Option<nat>>, ordered: seq<nat>, r: seq<nat>)
    requires forall p :: 0 <= p < |ordered| ==> ordered[p] < |parents|
    requires ParentsListedBefore(parents, ordered) && NoDuplicates(ordered)
    requires |r| == |ordered| && forall p :: 0 <= p < |r| ==> r[p] == ordered[|ordered| - 1 - p]
    ensures NoDuplicates(r)
    ensures forall p, q :: 0 <= p < |r| && 0 <= q < |r| && parents[r[p]] == Some(r[q]) ==> p < q
  {
    forall p, q | 0 <= p < |r| && 0 <= q < |r| && parents[r[p]] == Some(r[q])
      ensures p < q
    {
      var a := |ordered| - 1 - p;
      assert parents[ordered[a]].value in ordered[..a];
      var b :| 0 <= b < a && ordered[b] == r[q];
      assert ordered[|ordered| - 1 - q] == r[q];
    }
  }

  /**
   * applyPartialOrder: repeatedly lists the first unprocessed region whose
   * parent is not an unprocessed region, then reverses the list. The result
   * is a permutation of the region indices in which every region comes
   * before its parent.
   */
  method ApplyPartialOrder(rs: Regions, parents: seq<Option<nat>>) returns (r: seq<nat>)
    requires ParentsGrow(rs, parents)
    ensures |r| == |rs| && NoDuplicates(r)
    ensures forall p :: 0 <= p < |r| ==> r[p] < |rs|
    ensures forall p, q :: 0 <= p < |r| && 0 <= q < |r| && parents[r[p]] == Some(r[q]) ==> p < q
  {
    var ordered: seq<nat> := [];
    var processed: set<nat> := {};
    while |processed| != |rs|
      invariant OrderInv(|rs|, parents, ordered, processed)
      decreases |rs| - |processed|
    {
      SomeReady(rs, parents, ordered, processed);
      SubsetCardinality(processed, Range(|rs|));
      var i := FirstReady(parents, processed);
      assert parents[i].None? || parents[i].value in processed by {
        if parents[i].Some? {
          assert |rs[i]| < |rs[parents[i].value]|;
        }
      }
      ListReady(|rs|, parents, ordered, processed, i);
      ordered := ordered + [i];
      processed := processed + {i};
    }

    // Reverse the list, so that every region precedes its parent.
    r := seq(|ordered|, p requires 0 <= p < |ordered| => ordered[|ordered| - 1 - p]);
    ReversedPutsParentsLast(parents, ordered, r);
  }

  /** alreadyInMetaregion: whether some region holds the node. */
  method AlreadyInMetaregion(rs: Regions, n: NodeId) returns (found: bool)
    ensures found <==> exists k :: 0 <= k < |rs| && n in rs[k]
    ensures found <==> n in UnionAll(rs)
  {
    UnionAllIff(rs, n);
    for k := 0 to |rs|
      invariant forall k' :: 0 <= k' < k ==> n !in rs[k']
    {
      if n in rs[k] {
        return true;
      }
    }
    return false;
  }
}
