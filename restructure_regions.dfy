/**
 * Growing loop regions to a fixed point. The pass keeps its meta regions in a
 * vector; here the vector is a sequence of node sets, and the steps that
 * merge regions in place take the sequence and return the updated one.
 */
module RestructureRegions {
  import opened BasicBlockNodes
  import opened MetaRegions
  import opened Sequences
  import opened Sets
  import opened RestructureBackedges

  type Regions = seq<set<NodeId>>

  /**
   * The condition of mergeSCSStep: the regions share a node and are either
   * not nested or hold the same nodes.
   */
  predicate Mergeable(a: set<NodeId>, b: set<NodeId>)
  {
    Intersects(a, b) && ((!IsSubSet(a, b) && !IsSubSet(b, a)) || (IsSubSet(a, b) && IsSubSet(b, a)))
  }

  /** Two regions are disjoint or one strictly contains the other. */
  predicate DisjointOrNested(a: set<NodeId>, b: set<NodeId>)
  {
    a * b == {} || a < b || b < a
  }

  lemma NotMergeableIsDisjointOrNested(a: set<NodeId>, b: set<NodeId>)
    ensures !Mergeable(a, b) <==> DisjointOrNested(a, b)
  {
  }

  /** No two regions of the vector can be merged. */
  ghost predicate WellNested(rs: Regions)
  {
    forall i, j :: 0 <= i < j < |rs| ==> !Mergeable(rs[i], rs[j])
  }

  /** `(i, j)` is the first mergeable pair met by the two nested scans of mergeSCSStep. */
  ghost predicate FirstMergeable(rs: Regions, i: nat, j: nat)
  {
    i < j < |rs| && Mergeable(rs[i], rs[j]) &&
    (forall a, b :: 0 <= a < i && a < b < |rs| ==> !Mergeable(rs[a], rs[b])) &&
    (forall b :: i < b < j ==> !Mergeable(rs[i], rs[b]))
  }

  /** Region `i` absorbs region `j`, which is then erased from the vector. */
  function MergeInto(rs: Regions, i: nat, j: nat): (r: Regions)
    requires i < j < |rs|
    ensures |r| == |rs| - 1 && r[i] == rs[i] + rs[j]
  {
    RemoveAt(rs[i := rs[i] + rs[j]], j)
  }

  /**
   * mergeSCSStep: merges exactly when some pair is mergeable, and then merges
   * the first such pair and erases its second region.
   */
  method MergeSCSStep(rs: Regions) returns (changed: bool, r: Regions)
    ensures changed <==> !WellNested(rs)
    ensures !changed ==> r == rs
    ensures changed ==> exists i, j :: FirstMergeable(rs, i, j) && r == MergeInto(rs, i, j)
  {
    var i := 0;
    while i < |rs|
      invariant 0 <= i <= |rs|
      invariant forall a, b :: 0 <= a < i && a < b < |rs| ==> !Mergeable(rs[a], rs[b])
    {
      var j := i + 1;
      while j < |rs|
        invariant i + 1 <= j <= |rs|
        invariant forall b :: i < b < j ==> !Mergeable(rs[i], rs[b])
      {
        var intersects := Intersects(rs[i], rs[j]);
        var isIncluded := IsSubSet(rs[i], rs[j]);
        var isIncludedReverse := IsSubSet(rs[j], rs[i]);
        var areEquivalent := IsSubSet(rs[i], rs[j]) && IsSubSet(rs[j], rs[i]);
        if intersects && ((!isIncluded && !isIncludedReverse) || areEquivalent) {
          assert FirstMergeable(rs, i, j);
          return true, MergeInto(rs, i, j);
        }
        j := j + 1;
      }
      i := i + 1;
    }
    return false, rs;
  }

  /** x is in the union of the regions exactly when some region holds it. */
  lemma UnionAllIff(rs: Regions, x: NodeId)
    ensures x in UnionAll(rs) <==> exists k :: 0 <= k < |rs| && x in rs[k]
  {
    if x in UnionAll(rs) {
      UnionAllMember(rs, x);
    }
  }

  lemma MergeIntoKeepsUnion(rs: Regions, i: nat, j: nat)
    requires i < j < |rs|
    ensures UnionAll(MergeInto(rs, i, j)) == UnionAll(rs)
  {
    var r := MergeInto(rs, i, j);
    forall x | x in UnionAll(rs)
      ensures x in UnionAll(r)
    {
      UnionAllIff(rs, x);
      var k :| 0 <= k < |rs| && x in rs[k];
      if k < j {
        assert x in r[k];
      } else if k == j {
        assert x in r[i];
      } else {
        assert x in r[k - 1];
      }
      UnionAllIff(r, x);
    }
    forall x | x in UnionAll(r)
      ensures x in UnionAll(rs)
    {
      UnionAllIff(r, x);
      var k :| 0 <= k < |r| && x in r[k];
      if k == i && x !in rs[i] {
        assert x in rs[j];
      } else if k < j {
        assert x in rs[k];
      } else {
        assert x in rs[k + 1];
      }
      UnionAllIff(rs, x);
    }
  }

  /** A region holds both endpoints of the edge or neither. */
  predicate Respects(region: set<NodeId>, e: Edge)
  {
    e.0 in region <==> e.1 in region
  }

  ghost predicate RespectedByAll(rs: Regions, e: Edge)
  {
    forall k :: 0 <= k < |rs| ==> Respects(rs[k], e)
  }

  lemma MergeIntoKeepsRespect(rs: Regions, i: nat, j: nat, e: Edge)
    requires i < j < |rs| && RespectedByAll(rs, e)
    ensures RespectedByAll(MergeInto(rs, i, j), e)
  {
    var r := MergeInto(rs, i, j);
    forall k | 0 <= k < |r|
      ensures Respects(r[k], e)
    {
      if k == i {
        assert Respects(rs[i], e) && Respects(rs[j], e);
      } else if k < j {
        assert Respects(rs[k], e);
      } else {
        assert Respects(rs[k + 1], e);
      }
    }
  }

  /**
   * simplifySCS: merging to a fixed point leaves every two regions disjoint
   * or strictly nested, loses no node, and keeps every region closed over
   * any edge all the input regions were closed over.
   */
  method SimplifySCS(rs: Regions) returns (r: Regions)
    ensures forall i, j :: 0 <= i < j < |r| ==> DisjointOrNested(r[i], r[j])
    ensures UnionAll(r) == UnionAll(rs)
    ensures forall e :: RespectedByAll(rs, e) ==> RespectedByAll(r, e)
    ensures |r| <= |rs|
  {
    r := rs;
    var changes := true;
    while changes
      invariant changes || WellNested(r)
      invariant UnionAll(r) == UnionAll(rs) && |r| <= |rs|
      invariant forall e :: RespectedByAll(rs, e) ==> RespectedByAll(r, e)
      decreases |r| + (if changes then 1 else 0)
    {
      var next;
      changes, next := MergeSCSStep(r);
      if changes {
        ghost var i, j :| FirstMergeable(r, i, j) && next == MergeInto(r, i, j);
        MergeIntoKeepsUnion(r, i, j);
        forall e | RespectedByAll(r, e)
          ensures RespectedByAll(next, e)
        {
          MergeIntoKeepsRespect(r, i, j, e);
        }
      }
      r := next;
    }
    forall i, j | 0 <= i < j < |r|
      ensures DisjointOrNested(r[i], r[j])
    {
      NotMergeableIsDisjointOrNested(r[i], r[j]);
    }
  }

  /** Every region holds both endpoints of each backedge or neither. */
  ghost predicate Consistent(rs: Regions, backedges: seq<Edge>)
  {
    forall k, b :: 0 <= k < |rs| && 0 <= b < |backedges| ==> Respects(rs[k], backedges[b])
  }

  /** checkMetaregionConsistency. */
  method CheckMetaregionConsistency(rs: Regions, backedges: seq<Edge>) returns (ok: bool)
    ensures ok <==> Consistent(rs, backedges)
  {
    ok := true;
    for k := 0 to |rs|
      invariant ok <==> forall k', b :: 0 <= k' < k && 0 <= b < |backedges| ==> Respects(rs[k'], backedges[b])
    {
      for b := 0 to |backedges|
        invariant ok <==> (forall k', b' :: 0 <= k' < k && 0 <= b' < |backedges| ==> Respects(rs[k'], backedges[b'])) &&
                          (forall b' :: 0 <= b' < b ==> Respects(rs[k], backedges[b']))
      {
        var hasSource := backedges[b].0 in rs[k];
        var hasTarget := backedges[b].1 in rs[k];
        if hasSource != hasTarget {
          ok := false;
        }
      }
    }
  }

  /** Every backedge the map knows is owned by a region holding both of its endpoints. */
  ghost predicate OwnersHoldEdges(rs: Regions, owner: map<Edge, nat>)
  {
    forall e :: e in owner ==> owner[e] < |rs| && e.0 in rs[owner[e]] && e.1 in rs[owner[e]]
  }

  /** Every region outside the blacklist holds both endpoints of each backedge or neither. */
  ghost predicate SettledOutside(rs: Regions, backedges: seq<Edge>, blacklist: set<nat>)
  {
    forall i, b :: 0 <= i < |rs| && i !in blacklist && 0 <= b < |backedges| ==> Respects(rs[i], backedges[b])
  }

  /** `(i, b)` is the first region and backedge met by the scans of mergeSCSAbnormalRetreating that disagree. */
  ghost predicate FirstAbnormal(rs: Regions, backedges: seq<Edge>, blacklist: set<nat>, i: nat, b: nat)
  {
    i < |rs| && i !in blacklist && b < |backedges| && !Respects(rs[i], backedges[b]) &&
    (forall i', b' :: 0 <= i' < i && i' !in blacklist && 0 <= b' < |backedges| ==> Respects(rs[i'], backedges[b'])) &&
    (forall b' :: 0 <= b' < b ==> Respects(rs[i], backedges[b']))
  }

  /**
   * mergeSCSAbnormalRetreating: when a region outside the blacklist holds
   * exactly one endpoint of a backedge, it absorbs the region that owns the
   * backedge, takes over the backedge, and the absorbed region is blacklisted.
   */
  method MergeSCSAbnormalRetreating(rs: Regions, backedges: seq<Edge>, owner: map<Edge, nat>, blacklist: set<nat>)
    returns (changed: bool, rs': Regions, owner': map<Edge, nat>, blacklist': set<nat>)
    requires forall b :: 0 <= b < |backedges| ==> backedges[b] in owner && owner[backedges[b]] < |rs|
    ensures changed <==> !SettledOutside(rs, backedges, blacklist)
    ensures !changed ==> rs' == rs && owner' == owner && blacklist' == blacklist
    ensures changed ==> exists i: nat, b: nat ::
              (FirstAbnormal(rs, backedges, blacklist, i, b) &&
               rs' == rs[i := rs[i] + rs[owner[backedges[b]]]] &&
               owner' == owner[backedges[b] := i] &&
               blacklist' == blacklist + {owner[backedges[b]]})
  {
    for i := 0 to |rs|
      invariant forall i', b' :: 0 <= i' < i && i' !in blacklist && 0 <= b' < |backedges| ==> Respects(rs[i'], backedges[b'])
    {
      // Do not re-analyze blacklisted regions.
      if i !in blacklist {
        for b := 0 to |backedges|
          invariant forall b' :: 0 <= b' < b ==> Respects(rs[i], backedges[b'])
        {
          var firstIn := backedges[b].0 in rs[i];
          var secondIn := backedges[b].1 in rs[i];
          var abnormalIncoming := firstIn && !secondIn;
          var abnormalOutgoing := !firstIn && secondIn;
          if abnormalIncoming || abnormalOutgoing {
            var other := owner[backedges[b]];
            assert FirstAbnormal(rs, backedges, blacklist, i, b);
            return true, rs[i := rs[i] + rs[other]], owner[backedges[b] := i], blacklist + {other};
          }
        }
      }
    }
    return false, rs, owner, blacklist;
  }

  /** The regions outside the blacklist, in order: the erase/remove_if over the blacklist. */
  function KeepUnlisted(rs: Regions, blacklist: set<nat>): (r: Regions)
    ensures |r| <= |rs|
  {
    if rs == [] then []
    else KeepUnlisted(rs[..|rs| - 1], blacklist) + (if |rs| - 1 in blacklist then [] else [rs[|rs| - 1]])
  }

  /** Every kept region is a region outside the blacklist. */
  lemma {:induction false} KeepUnlistedSource(rs: Regions, blacklist: set<nat>, j: nat) returns (k: nat)
    requires j < |KeepUnlisted(rs, blacklist)|
    ensures k < |rs| && k !in blacklist && KeepUnlisted(rs, blacklist)[j] == rs[k]
  {
    var init := rs[..|rs| - 1];
    var ri := KeepUnlisted(init, blacklist);
    if j < |ri| {
      k := KeepUnlistedSource(init, blacklist, j);
    } else {
      k := |rs| - 1;
    }
  }

  /** Every region outside the blacklist is kept. */
  lemma {:induction false} KeepUnlistedKeeps(rs: Regions, blacklist: set<nat>, k: nat)
    requires k < |rs| && k !in blacklist
    ensures rs[k] in KeepUnlisted(rs, blacklist)
  {
    var init := rs[..|rs| - 1];
    if k < |init| {
      KeepUnlistedKeeps(init, blacklist, k);
      assert init[k] == rs[k];
    }
  }

  /** Erasing the blacklisted regions leaves only regions that were settled. */
  lemma KeepUnlistedConsistent(rs: Regions, backedges: seq<Edge>, blacklist: set<nat>)
    requires SettledOutside(rs, backedges, blacklist)
    ensures Consistent(KeepUnlisted(rs, blacklist), backedges)
  {
    var r := KeepUnlisted(rs, blacklist);
    forall j, b | 0 <= j < |r| && 0 <= b < |backedges|
      ensures Respects(r[j], backedges[b])
    {
      var k := KeepUnlistedSource(rs, blacklist, j);
    }
  }

  /** Every node of the union is still held by a region outside the blacklist. */
  ghost predicate CoveredOutside(rs: Regions, blacklist: set<nat>)
  {
    forall x :: x in UnionAll(rs) ==> exists k :: 0 <= k < |rs| && k !in blacklist && x in rs[k]
  }

  lemma KeepUnlistedUnion(rs: Regions, blacklist: set<nat>)
    requires CoveredOutside(rs, blacklist)
    ensures UnionAll(KeepUnlisted(rs, blacklist)) == UnionAll(rs)
  {
    var r := KeepUnlisted(rs, blacklist);
    forall x | x in UnionAll(r)
      ensures x in UnionAll(rs)
    {
      UnionAllIff(r, x);
      var j :| 0 <= j < |r| && x in r[j];
      var k := KeepUnlistedSource(rs, blacklist, j);
      UnionAllIff(rs, x);
    }
    forall x | x in UnionAll(rs)
      ensures x in UnionAll(r)
    {
      var k :| 0 <= k < |rs| && k !in blacklist && x in rs[k];
      KeepUnlistedKeeps(rs, blacklist, k);
      var j :| 0 <= j < |r| && r[j] == rs[k];
      UnionAllIff(r, x);
    }
  }

  /** Sum, over the first `n` regions outside the blacklist, of the nodes of `u` each still lacks. */
  ghost function Slack(rs: Regions, blacklist: set<nat>, u: int, n: nat): int
    requires n <= |rs|
  {
    if n == 0 then 0
    else Slack(rs, blacklist, u, n - 1) + (if n - 1 in blacklist then 0 else u - |rs[n - 1]|)
  }

  lemma {:induction false} SlackNonNegative(rs: Regions, blacklist: set<nat>, u: int, n: nat)
    requires n <= |rs| && forall k :: 0 <= k < |rs| ==> |rs[k]| <= u
    ensures Slack(rs, blacklist, u, n) >= 0
  {
    if n > 0 {
      SlackNonNegative(rs, blacklist, u, n - 1);
    }
  }

  lemma {:induction false} SlackGrows(rs: Regions, blacklist: set<nat>, u: int, n: nat, i: nat, region: set<NodeId>)
    requires n <= |rs| && i < |rs| && i !in blacklist && |region| > |rs[i]|
    ensures i < n ==> Slack(rs[i := region], blacklist, u, n) < Slack(rs, blacklist, u, n)
    ensures i >= n ==> Slack(rs[i := region], blacklist, u, n) == Slack(rs, blacklist, u, n)
  {
    if n > 0 {
      SlackGrows(rs, blacklist, u, n - 1, i, region);
    }
  }

  lemma {:induction false} SlackBlacklist(rs: Regions, blacklist: set<nat>, u: int, n: nat, o: nat)
    requires n <= |rs| && forall k :: 0 <= k < |rs| ==> |rs[k]| <= u
    ensures Slack(rs, blacklist + {o}, u, n) <= Slack(rs, blacklist, u, n)
  {
    if n > 0 {
      SlackBlacklist(rs, blacklist, u, n - 1, o);
    }
  }

  /** One abnormal-retreating merge keeps the union, the coverage outside the blacklist and the owners. */
  lemma AbnormalMergeStep(rs: Regions, backedges: seq<Edge>, owner: map<Edge, nat>, blacklist: set<nat>, i: nat, b: nat)
    requires FirstAbnormal(rs, backedges, blacklist, i, b) && backedges[b] in owner
    requires OwnersHoldEdges(rs, owner) && CoveredOutside(rs, blacklist)
    ensures var o := owner[backedges[b]];
            var rs' := rs[i := rs[i] + rs[o]];
            o != i && rs[i] < rs'[i] && UnionAll(rs') == UnionAll(rs) &&
            OwnersHoldEdges(rs', owner[backedges[b] := i]) &&
            CoveredOutside(rs', blacklist + {o})
  {
    var e := backedges[b];
    var o := owner[e];
    var rs' := rs[i := rs[i] + rs[o]];
    var u := UnionAll(rs);
    assert o != i;
    assert e.0 in rs'[i] && e.1 in rs'[i];
    forall x | x in UnionAll(rs')
      ensures x in u
    {
      UnionAllIff(rs', x);
      var k :| 0 <= k < |rs'| && x in rs'[k];
      if k == i && x !in rs[i] {
        assert x in rs[o];
      } else {
        assert x in rs[k];
      }
    }
    forall x | x in u
      ensures x in UnionAll(rs') && exists k :: 0 <= k < |rs'| && k !in blacklist + {o} && x in rs'[k]
    {
      var k :| 0 <= k < |rs| && k !in blacklist && x in rs[k];
      if k == o {
        assert x in rs'[i];
      } else {
        assert x in rs'[k];
      }
    }
  }

  /** Growing a region outside the blacklist and blacklisting another lowers the slack. */
  lemma GrowAndBlacklistLowersSlack(rs: Regions, blacklist: set<nat>, u: set<NodeId>, i: nat, o: nat, region: set<NodeId>)
    requires i < |rs| && i !in blacklist && rs[i] < region
    requires forall k :: 0 <= k < |rs| ==> rs[k] <= u
    requires region <= u
    ensures Slack(rs[i := region], blacklist + {o}, |u|, |rs|) < Slack(rs, blacklist, |u|, |rs|)
  {
    var rs' := rs[i := region];
    forall k | 0 <= k < |rs'|
      ensures |rs'[k]| <= |u|
    {
      SubsetCardinality(rs'[k], u);
    }
    ProperSubsetCardinality(rs[i], region);
    SlackGrows(rs, blacklist, |u|, |rs|, i, region);
    SlackBlacklist(rs', blacklist, |u|, |rs|, o);
  }

  /**
   * simplifySCSAbnormalRetreating: the k-th region starts as the owner of the
   * k-th backedge; after merging to a fixed point and erasing the blacklisted
   * regions, every region holds both endpoints of each backedge or neither, and
   * no node is lost.
   */
  method SimplifySCSAbnormalRetreating(rs: Regions, backedges: seq<Edge>) returns (r: Regions)
    requires |backedges| <= |rs|
    requires forall k :: 0 <= k < |backedges| ==> backedges[k].0 in rs[k] && backedges[k].1 in rs[k]
    ensures Consistent(r, backedges)
    ensures UnionAll(r) == UnionAll(rs)
    ensures |r| <= |rs|
  {
    var owner: map<Edge, nat> := map[];
    for k := 0 to |backedges|
      invariant OwnersHoldEdges(rs, owner)
      invariant forall b :: 0 <= b < k ==> backedges[b] in owner
    {
      owner := owner[backedges[k] := k];
    }

    var current := rs;
    var blacklist: set<nat> := {};
    var changes := true;
    ghost var u := UnionAll(rs);
    forall k | 0 <= k < |rs|
      ensures |rs[k]| <= |u|
    {
      SubsetCardinality(rs[k], u);
    }
    SlackNonNegative(rs, {}, |u|, |rs|);
    forall x | x in u
      ensures exists k :: 0 <= k < |rs| && k !in blacklist && x in rs[k]
    {
      UnionAllIff(rs, x);
    }
    while changes
      invariant |current| == |rs| && UnionAll(current) == u
      invariant OwnersHoldEdges(current, owner)
      invariant forall b :: 0 <= b < |backedges| ==> backedges[b] in owner
      invariant CoveredOutside(current, blacklist)
      invariant !changes ==> SettledOutside(current, backedges, blacklist)
      invariant Slack(current, blacklist, |u|, |current|) >= 0
      decreases Slack(current, blacklist, |u|, |current|) + (if changes then 1 else 0)
    {
      var next, owner', blacklist';
      changes, next, owner', blacklist' := MergeSCSAbnormalRetreating(current, backedges, owner, blacklist);
      if changes {
        ghost var i: nat, b: nat :| FirstAbnormal(current, backedges, blacklist, i, b) &&
                          next == current[i := current[i] + current[owner[backedges[b]]]] &&
                          owner' == owner[backedges[b] := i] &&
                          blacklist' == blacklist + {owner[backedges[b]]};
        AbnormalMergeStep(current, backedges, owner, blacklist, i, b);
        GrowAndBlacklistLowersSlack(current, blacklist, u, i, owner[backedges[b]], next[i]);
        forall k | 0 <= k < |next|
          ensures |next[k]| <= |u|
        {
          SubsetCardinality(next[k], u);
        }
        SlackNonNegative(next, blacklist', |u|, |next|);
      }
      current, owner, blacklist := next, owner', blacklist';
    }

    // Erase the regions that were merged into others.
    r := KeepUnlisted(current, blacklist);
    KeepUnlistedUnion(current, blacklist);
    KeepUnlistedConsistent(current, backedges, blacklist);
  }
}
