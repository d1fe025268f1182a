/**
 * createMetaRegions: one loop region per backedge, grown until every node
 * that is itself the target of a backedge (other than the region's own head)
 * brings in the nodes reachable along that backedge.
 *
 * The nodes on the loop of each backedge are an input (`reach[k]` for
 * `backedges[k]`), since computing them is done by an operation this model
 * treats as an oracle.
 */
module RestructureCreate {
  import opened BasicBlockNodes
  import opened Sets
  import opened RestructureBackedges
  import opened RestructureRegions

  /**
   * The map AdditionalSCSNodes after the first `m` backedges: exactly their
   * targets are keys, and each key holds the union of the reach sets of
   * those backedges into it.
   */
  ghost predicate AdditionalUpTo(backedges: seq<Edge>, reach: seq<set<NodeId>>, m: nat, add: map<NodeId, set<NodeId>>)
    requires m <= |reach| == |backedges|
  {
    (forall n :: n in add <==> exists k :: 0 <= k < m && backedges[k].1 == n) &&
    (forall n, x :: n in add ==> (x in add[n] <==> exists k :: 0 <= k < m && backedges[k].1 == n && x in reach[k]))
  }

  /** AdditionalSCSNodes once every backedge is recorded. */
  ghost predicate AdditionalFor(backedges: seq<Edge>, reach: seq<set<NodeId>>, add: map<NodeId, set<NodeId>>)
    requires |reach| == |backedges|
  {
    AdditionalUpTo(backedges, reach, |backedges|, add)
  }

  /** The first loop of createMetaRegions, which fills AdditionalSCSNodes. */
  method CollectAdditionalNodes(backedges: seq<Edge>, reach: seq<set<NodeId>>) returns (add: map<NodeId, set<NodeId>>)
    requires |reach| == |backedges|
    ensures AdditionalFor(backedges, reach, add)
  {
    add := map[];
    for i := 0 to |backedges|
      invariant AdditionalUpTo(backedges, reach, i, add)
    {
      var target := backedges[i].1;
      // `operator[]` starts a missing entry from the empty set.
      var known := if target in add then add[target] else {};
      add := add[target := known + reach[i]];
      forall n, x | n in add
        ensures x in add[n] <==> exists k :: 0 <= k < i + 1 && backedges[k].1 == n && x in reach[k]
      {
        if x in add[n] && (n != target || x !in reach[i]) {
          var k :| 0 <= k < i && backedges[k].1 == n && x in reach[k];
        }
      }
      forall n | n in add
        ensures exists k :: 0 <= k < i + 1 && backedges[k].1 == n
      {
        if n != target {
          var k :| 0 <= k < i && backedges[k].1 == n;
        }
      }
    }
  }

  /** A region is closed when each of its nodes other than the head brings in all its additional nodes. */
  ghost predicate Closed(nodes: set<NodeId>, head: NodeId, add: map<NodeId, set<NodeId>>)
  {
    forall n :: n in nodes && n != head && n in add ==> add[n] <= nodes
  }

  /** Every node any key of the map brings in. */
  ghost function AllAdditional(add: map<NodeId, set<NodeId>>): set<NodeId>
  {
    set n, x | n in add && x in add[n] :: x
  }

  /** The inner scan of one closure round: the additional nodes of every non-head node of the region. */
  method AdditionalOf(nodes: set<NodeId>, head: NodeId, add: map<NodeId, set<NodeId>>) returns (extra: set<NodeId>)
    ensures forall x :: x in extra <==> exists n :: n in nodes && n != head && n in add && x in add[n]
  {
    extra := {};
    var rest := nodes;
    while rest != {}
      invariant rest <= nodes
      invariant forall x :: x in extra <==> exists n :: n in nodes - rest && n != head && n in add && x in add[n]
      decreases rest
    {
      var n :| n in rest;
      if n != head && n in add {
        extra := extra + add[n];
      }
      rest := rest - {n};
    }
  }

  /**
   * The do-while loop of createMetaRegions on one region: adds additional
   * nodes until a round adds nothing. The result is the least closed
   * superset of the starting nodes.
   */
  method CloseRegion(head: NodeId, nodes: set<NodeId>, add: map<NodeId, set<NodeId>>) returns (r: set<NodeId>)
    ensures nodes <= r
    ensures Closed(r, head, add)
    ensures forall s :: nodes <= s && Closed(s, head, add) ==> r <= s
  {
    r := nodes;
    ghost var bound := nodes + AllAdditional(add);
    while true
      invariant nodes <= r <= bound
      invariant forall s :: nodes <= s && Closed(s, head, add) ==> r <= s
      decreases |bound - r|
    {
      var oldNodes := r;
      var extra := AdditionalOf(r, head, add);
      r := r + extra;
      forall s | nodes <= s && Closed(s, head, add)
        ensures r <= s
      {
        forall x | x in extra
          ensures x in s
        {
          var n :| n in oldNodes && n != head && n in add && x in add[n];
        }
      }
      if r == oldNodes {
        break;
      }
      assert extra <= bound by {
        forall x | x in extra
          ensures x in AllAdditional(add)
        {
          var n :| n in oldNodes && n != head && n in add && x in add[n];
        }
      }
      ProperSubsetCardinality(bound - r, bound - oldNodes);
    }
  }

  /**
   * The closure condition stated on the backedges themselves: whenever a
   * region holds the target of some backedge other than its own head, it
   * holds everything that backedge reaches.
   */
  ghost predicate ClosedUnderBackedges(nodes: set<NodeId>, head: NodeId, backedges: seq<Edge>, reach: seq<set<NodeId>>)
    requires |reach| == |backedges|
  {
    forall k :: 0 <= k < |backedges| && backedges[k].1 in nodes && backedges[k].1 != head ==> reach[k] <= nodes
  }

  lemma ClosedIff(backedges: seq<Edge>, reach: seq<set<NodeId>>, add: map<NodeId, set<NodeId>>, nodes: set<NodeId>, head: NodeId)
    requires |reach| == |backedges| && AdditionalFor(backedges, reach, add)
    ensures Closed(nodes, head, add) <==> ClosedUnderBackedges(nodes, head, backedges, reach)
  {
    if Closed(nodes, head, add) {
      forall k | 0 <= k < |backedges| && backedges[k].1 in nodes && backedges[k].1 != head
        ensures reach[k] <= nodes
      {
        var n := backedges[k].1;
        assert n in add;
        forall x | x in reach[k]
          ensures x in add[n]
        {
        }
      }
    }
    if ClosedUnderBackedges(nodes, head, backedges, reach) {
      forall n | n in nodes && n != head && n in add
        ensures add[n] <= nodes
      {
        forall x | x in add[n]
          ensures x in nodes
        {
          var k :| 0 <= k < |backedges| && backedges[k].1 == n && x in reach[k];
        }
      }
    }
  }

  /**
   * createMetaRegions: region `k` is the least superset of `reach[k]` that
   * is closed under the backedges, with `backedges[k]`'s target as head.
   */
  method CreateMetaRegions(backedges: seq<Edge>, reach: seq<set<NodeId>>) returns (rs: Regions)
    requires |reach| == |backedges|
    ensures |rs| == |backedges|
    ensures forall k :: 0 <= k < |rs| ==> reach[k] <= rs[k]
    ensures forall k :: 0 <= k < |rs| ==> ClosedUnderBackedges(rs[k], backedges[k].1, backedges, reach)
    ensures forall k, s :: 0 <= k < |rs| && reach[k] <= s && ClosedUnderBackedges(s, backedges[k].1, backedges, reach) ==> rs[k] <= s
  {
    var add := CollectAdditionalNodes(backedges, reach);
    rs := [];
    for k := 0 to |backedges|
      invariant |rs| == k
      invariant forall j :: 0 <= j < k ==> reach[j] <= rs[j]
      invariant forall j :: 0 <= j < k ==> ClosedUnderBackedges(rs[j], backedges[j].1, backedges, reach)
      invariant forall j, s :: 0 <= j < k && reach[j] <= s && ClosedUnderBackedges(s, backedges[j].1, backedges, reach) ==> rs[j] <= s
    {
      var region := CloseRegion(backedges[k].1, reach[k], add);
      ClosedIff(backedges, reach, add, region, backedges[k].1);
      forall s | reach[k] <= s && ClosedUnderBackedges(s, backedges[k].1, backedges, reach)
        ensures region <= s
      {
        ClosedIff(backedges, reach, add, s, backedges[k].1);
      }
      rs := rs + [region];
    }
  }
}
