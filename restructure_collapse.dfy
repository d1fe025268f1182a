/**
 * The per-region steps of the restructuring that prepare and perform the
 * collapse of one loop region: its retreating edges, the election of its
 * head, the labels of the entry and exit dispatchers, the deduplication of
 * its successors across backedge dummies, the rewrite of the pending
 * backedges once the region becomes a single node, the cleanup of the
 * reverse post-order and the final count of duplicated basic blocks.
 *
 * `std::set`s of node pointers are sets of node IDs here; their iteration
 * order (pointer order) is the order of the IDs.
 */
module RestructureCollapse {
  import opened Wrappers
  import opened BasicBlockNodes
  import opened MachineInts
  import opened Sequences
  import opened Sets
  import opened RestructureBackedges

  /** The backedges of one region and what is left of the pending backedges once they are taken out. */
  method FindRetreatings(meta: set<NodeId>, backedges: set<Edge>)
    returns (retreatings: set<Edge>, targets: set<NodeId>, remaining: set<Edge>)
    requires forall e :: e in backedges && e.0 in meta ==> e.1 in meta
    ensures forall e :: e in retreatings <==> e in backedges && e.0 in meta
    ensures forall n :: n in targets <==> exists e :: e in retreatings && e.1 == n
    ensures targets <= meta
    ensures forall e :: e in remaining <==> e in backedges && e.0 !in meta
  {
    retreatings := {};
    targets := {};
    var rest := backedges;
    while rest != {}
      invariant rest <= backedges
      invariant forall e :: e in retreatings <==> e in backedges && e !in rest && e.0 in meta
      invariant forall n :: n in targets <==> exists e :: e in retreatings && e.1 == n
      decreases rest
    {
      var e :| e in rest;
      if e.0 in meta {
        retreatings := retreatings + {e};
        targets := targets + {e.1};
      }
      rest := rest - {e};
    }
    remaining := backedges;
    rest := retreatings;
    while rest != {}
      invariant rest <= retreatings
      invariant forall e :: e in remaining <==> e in backedges && (e in rest || e !in retreatings)
      decreases rest
    {
      var e :| e in rest;
      remaining := remaining - {e};
      rest := rest - {e};
    }
  }

  /** Position `k` of the reverse post-order is the first node of the region that is a retreating target. */
  predicate IsFirstCandidate(rpot: seq<NodeId>, meta: set<NodeId>, targets: set<NodeId>, k: nat)
  {
    k < |rpot| && rpot[k] in meta && rpot[k] in targets &&
    forall j :: 0 <= j < k ==> rpot[j] !in meta || rpot[j] !in targets
  }

  /**
   * The candidate head: the first node in reverse post-order that is in the
   * region and the target of one of its retreating edges, if any. There is
   * one whenever some retreating target is in both the region and the order.
   */
  method ElectHead(rpot: seq<NodeId>, meta: set<NodeId>, targets: set<NodeId>) returns (candidate: Option<NodeId>)
    ensures candidate.Some? ==> IsFirstCandidate(rpot, meta, targets, FindIndex(rpot, candidate.value))
    ensures candidate.None? <==> forall k :: 0 <= k < |rpot| ==> rpot[k] !in meta || rpot[k] !in targets
    ensures (exists t :: t in targets && t in meta && t in rpot) ==> candidate.Some?
  {
    candidate := None;
    var k := 0;
    while k < |rpot|
      invariant k <= |rpot|
      invariant forall j :: 0 <= j < k ==> rpot[j] !in meta || rpot[j] !in targets
    {
      if rpot[k] in meta && rpot[k] in targets {
        candidate := Some(rpot[k]);
        assert FindIndex(rpot, rpot[k]) == k by {
          var f := FindIndex(rpot, rpot[k]);
          assert f <= k;
        }
        return;
      }
      k := k + 1;
    }
  }

  /** The index a dispatcher gives its `k`-th target: an `unsigned` taken from a `size_t`. */
  function Label(k: nat): (l: uint32)
    ensures k < TWO_TO_THE_32 ==> l == k
  {
    k % TWO_TO_THE_32
  }

  predicate StrictlyIncreasing(s: seq<NodeId>)
  {
    forall i, j :: 0 <= i < j < |s| ==> s[i] < s[j]
  }

  /** The iteration order of a `std::set` of nodes: every node once, in increasing order. */
  method Enumerate(s: set<NodeId>) returns (r: seq<NodeId>)
    ensures |r| == |s|
    ensures forall n :: n in r <==> n in s
    ensures StrictlyIncreasing(r)
  {
    r := [];
    var rest := s;
    while rest != {}
      invariant rest <= s
      invariant |r| + |rest| == |s|
      invariant forall n :: n in r <==> n in s && n !in rest
      invariant StrictlyIncreasing(r)
      invariant |r| > 0 ==> forall b :: b in rest ==> r[|r| - 1] < b
      decreases rest
    {
      ghost var least := Minimum(rest);
      var m :| m in rest && forall x :: x in rest ==> m <= x;
      assert forall i :: 0 <= i < |r| ==> r[i] <= r[|r| - 1];
      r := r + [m];
      rest := rest - {m};
    }
  }

  /**
   * The edges of a new dispatcher: one per target, in set order, each with
   * the single label of the target's position and not inlined, together with
   * the map from each target to that label.
   */
  method DispatcherEdges(targets: set<NodeId>) returns (edges: seq<Link>, idx: map<NodeId, uint32>)
    ensures |edges| == |targets|
    ensures forall n :: n in Targets(edges) <==> n in targets
    ensures StrictlyIncreasing(Targets(edges))
    ensures forall k :: 0 <= k < |edges| ==> edges[k].1 == EdgeInfo({Label(k)}, false)
    ensures forall n :: n in idx <==> n in targets
    ensures forall k :: 0 <= k < |edges| ==> idx[edges[k].0] == Label(k)
  {
    var order := Enumerate(targets);
    edges := [];
    idx := map[];
    for k := 0 to |order|
      invariant |edges| == k
      invariant forall j :: 0 <= j < k ==> edges[j] == (order[j], EdgeInfo({Label(j)}, false))
      invariant forall n :: n in idx <==> n in order[..k]
      invariant forall j :: 0 <= j < k ==> idx[order[j]] == Label(j)
    {
      edges := edges + [(order[k], EdgeInfo({Label(k)}, false))];
      idx := idx[order[k] := Label(k)];
    }
    assert order[..|order|] == order;
    assert Targets(edges) == order;
  }

  /** With fewer than 2^32 targets the dispatcher labels are pairwise different. */
  lemma DispatcherLabelsDistinct(edges: seq<Link>)
    requires |edges| <= TWO_TO_THE_32
    requires forall k :: 0 <= k < |edges| ==> edges[k].1 == EdgeInfo({Label(k)}, false)
    ensures forall j, k :: 0 <= j < k < |edges| ==> edges[j].1.labels != edges[k].1.labels
  {
    forall j, k | 0 <= j < k < |edges|
      ensures edges[j].1.labels != edges[k].1.labels
    {
      assert Label(j) in edges[j].1.labels && Label(k) !in edges[j].1.labels;
    }
  }

  /**
   * Entry dispatcher: needed exactly when the region has more than one
   * retreating target; it then becomes the head and gets one labelled edge
   * per target. Otherwise the elected candidate stays the head.
   */
  method EntryDispatcher(targets: set<NodeId>, firstCandidate: NodeId, dispatcher: NodeId)
    returns (newHeadNeeded: bool, head: NodeId, edges: seq<Link>, idx: map<NodeId, uint32>)
    ensures newHeadNeeded <==> |targets| > 1
    ensures newHeadNeeded ==> head == dispatcher && |edges| == |targets|
    ensures newHeadNeeded ==> forall n :: n in Targets(edges) <==> n in targets
    ensures newHeadNeeded ==> forall n :: n in idx <==> n in targets
    ensures newHeadNeeded ==> forall k :: 0 <= k < |edges| ==> edges[k].1 == EdgeInfo({Label(k)}, false)
    ensures newHeadNeeded ==> forall k :: 0 <= k < |edges| ==> idx[edges[k].0] == Label(k)
    ensures !newHeadNeeded ==> head == firstCandidate && edges == [] && idx == map[]
  {
    newHeadNeeded := |targets| > 1;
    head := firstCandidate;
    edges := [];
    idx := map[];
    if newHeadNeeded {
      head := dispatcher;
      edges, idx := DispatcherEdges(targets);
    }
  }

  /** An Empty node with a successor: the dummy that sits on a backedge. */
  predicate IsBackedgeDummy(g: Graph, n: NodeId)
  {
    n < |g.succ| && n < |g.kind| && g.kind[n] == Empty && |g.succ[n]| > 0
  }

  /** Where a backedge dummy leads. */
  function DummyTarget(g: Graph, n: NodeId): NodeId
    requires IsBackedgeDummy(g, n)
  {
    g.succ[n][0]
  }

  /** Two successors are backedge dummies leading to the same node. */
  predicate SameBackedge(g: Graph, a: NodeId, b: NodeId)
  {
    IsBackedgeDummy(g, a) && IsBackedgeDummy(g, b) && DummyTarget(g, a) == DummyTarget(g, b)
  }

  /** `r` is the representative of successor `s`: the least dummy with its target, or `s` itself. */
  ghost predicate Represents(g: Graph, successors: set<NodeId>, s: NodeId, r: NodeId)
  {
    if IsBackedgeDummy(g, s) then
      r in successors && SameBackedge(g, r, s) &&
      forall u :: u in successors && SameBackedge(g, u, s) ==> r <= u
    else r == s
  }

  /**
   * `order[f]` is the first of the first `i` successors (in set order) that
   * is a backedge dummy leading to `t`.
   */
  ghost predicate FirstDummyAt(g: Graph, order: seq<NodeId>, i: nat, f: nat, t: NodeId)
    requires i <= |order|
  {
    f < i && IsBackedgeDummy(g, order[f]) && DummyTarget(g, order[f]) == t &&
    forall j :: 0 <= j < f ==> !IsBackedgeDummy(g, order[j]) || DummyTarget(g, order[j]) != t
  }

  /** What DeduplicationMap records for successor `n`, given BackedgeToSucc. */
  ghost predicate RecordedAs(g: Graph, firstFor: map<NodeId, NodeId>, n: NodeId, r: NodeId)
  {
    if IsBackedgeDummy(g, n) then DummyTarget(g, n) in firstFor && r == firstFor[DummyTarget(g, n)] else r == n
  }

  /** In set order, the first dummy to a target is the least one. */
  lemma FirstDummyIsLeast(g: Graph, successors: set<NodeId>, order: seq<NodeId>, f: nat, s: NodeId)
    requires StrictlyIncreasing(order) && (forall n :: n in order <==> n in successors)
    requires IsBackedgeDummy(g, s) && FirstDummyAt(g, order, |order|, f, DummyTarget(g, s))
    ensures Represents(g, successors, s, order[f])
  {
    forall u | u in successors && SameBackedge(g, u, s)
      ensures order[f] <= u
    {
      var m :| 0 <= m < |order| && order[m] == u;
      assert f <= m;
    }
  }

  /** BackedgeToSucc maps each target met so far to the first dummy leading there. */
  ghost predicate FirstForOk(g: Graph, order: seq<NodeId>, i: nat, firstFor: map<NodeId, NodeId>, firstAt: map<NodeId, nat>)
    requires i <= |order|
  {
    firstAt.Keys == firstFor.Keys &&
    forall t :: t in firstFor ==> FirstDummyAt(g, order, i, firstAt[t], t) && firstFor[t] == order[firstAt[t]]
  }

  lemma FirstForGrows(g: Graph, order: seq<NodeId>, i: nat, firstFor: map<NodeId, NodeId>, firstAt: map<NodeId, nat>)
    requires i < |order| && FirstForOk(g, order, i, firstFor, firstAt)
    ensures FirstForOk(g, order, i + 1, firstFor, firstAt)
  {
    forall t | t in firstFor
      ensures FirstDummyAt(g, order, i + 1, firstAt[t], t)
    {
      assert FirstDummyAt(g, order, i, firstAt[t], t);
    }
  }

  /**
   * The state of the deduplication loop after the first `i` successors in set
   * order: BackedgeToSucc (`firstFor`, with the positions `firstAt` of its
   * values), DeduplicationMap (`rep`) and the deduplicated successors.
   */
  ghost predicate DedupInv(g: Graph, order: seq<NodeId>, i: nat, firstFor: map<NodeId, NodeId>, firstAt: map<NodeId, nat>,
                           rep: map<NodeId, NodeId>, dedup: set<NodeId>)
    requires i <= |order|
  {
    FirstForOk(g, order, i, firstFor, firstAt) && VisitedOk(order, i, rep) &&
    (forall j :: 0 <= j < i ==> RecordedAs(g, firstFor, order[j], rep[order[j]])) &&
    (forall n :: n in dedup <==> n in rep && rep[n] == n)
  }

  /** DeduplicationMap has an entry exactly for the first `i` successors in set order. */
  ghost predicate VisitedOk(order: seq<NodeId>, i: nat, rep: map<NodeId, NodeId>)
    requires i <= |order|
  {
    (forall j :: 0 <= j < i ==> order[j] in rep) &&
    (forall n :: n in rep ==> n in order) &&
    (i < |order| ==> forall n :: n in rep ==> n < order[i])
  }

  /** What the visit of position `i` needs of the set order. */
  predicate OrderedAt(order: seq<NodeId>, i: nat)
    requires i < |order|
  {
    (forall j :: 0 <= j < i ==> order[j] < order[i]) && (i + 1 < |order| ==> order[i] < order[i + 1])
  }

  lemma VisitedGrows(order: seq<NodeId>, i: nat, rep: map<NodeId, NodeId>, r: NodeId)
    requires i < |order| && (i + 1 < |order| ==> order[i] < order[i + 1]) && VisitedOk(order, i, rep)
    ensures VisitedOk(order, i + 1, rep[order[i] := r])
  {
    if i + 1 < |order| {
      assert order[i] < order[i + 1];
    }
  }

  /** Visiting a dummy whose target was already met: it is mapped to the earlier dummy. */
  lemma VisitSeenDummy(g: Graph, order: seq<NodeId>, i: nat, firstFor: map<NodeId, NodeId>, firstAt: map<NodeId, nat>,
                       rep: map<NodeId, NodeId>, dedup: set<NodeId>)
    requires i < |order| && OrderedAt(order, i) && DedupInv(g, order, i, firstFor, firstAt, rep, dedup)
    requires IsBackedgeDummy(g, order[i]) && DummyTarget(g, order[i]) in firstFor
    ensures DedupInv(g, order, i + 1, firstFor, firstAt, rep[order[i] := firstFor[DummyTarget(g, order[i])]], dedup)
  {
    VisitedGrows(order, i, rep, firstFor[DummyTarget(g, order[i])]);
    var s, t := order[i], DummyTarget(g, order[i]);
    FirstForGrows(g, order, i, firstFor, firstAt);
    assert firstAt[t] < i && order[firstAt[t]] < s;
    var rep' := rep[s := firstFor[t]];
    forall j | 0 <= j < i
      ensures RecordedAs(g, firstFor, order[j], rep'[order[j]])
    {
      assert order[j] < s;
    }
    assert s !in rep;
  }

  /** Visiting a dummy whose target is new: it becomes the representative for that target. */
  lemma VisitNewDummy(g: Graph, order: seq<NodeId>, i: nat, firstFor: map<NodeId, NodeId>, firstAt: map<NodeId, nat>,
                      rep: map<NodeId, NodeId>, dedup: set<NodeId>)
    requires i < |order| && OrderedAt(order, i) && DedupInv(g, order, i, firstFor, firstAt, rep, dedup)
    requires IsBackedgeDummy(g, order[i]) && DummyTarget(g, order[i]) !in firstFor
    ensures DedupInv(g, order, i + 1, firstFor[DummyTarget(g, order[i]) := order[i]], firstAt[DummyTarget(g, order[i]) := i],
                     rep[order[i] := order[i]], dedup + {order[i]})
  {
    VisitedGrows(order, i, rep, order[i]);
    var s, t := order[i], DummyTarget(g, order[i]);
    assert s !in rep;
    var firstFor', firstAt', rep' := firstFor[t := s], firstAt[t := i], rep[s := s];
    forall j | 0 <= j < i
      ensures RecordedAs(g, firstFor', order[j], rep'[order[j]])
    {
      assert order[j] < s;
      assert RecordedAs(g, firstFor, order[j], rep[order[j]]);
    }
    forall j | 0 <= j < i
      ensures !IsBackedgeDummy(g, order[j]) || DummyTarget(g, order[j]) != t
    {
      assert RecordedAs(g, firstFor, order[j], rep[order[j]]);
    }
    FirstForGrows(g, order, i, firstFor, firstAt);
    assert FirstDummyAt(g, order, i + 1, i, t);
    forall t' | t' in firstFor'
      ensures FirstDummyAt(g, order, i + 1, firstAt'[t'], t') && firstFor'[t'] == order[firstAt'[t']]
    {
      if t' != t {
        assert FirstDummyAt(g, order, i + 1, firstAt[t'], t');
      }
    }
  }

  /** Visiting any other successor: it stands for itself. */
  lemma VisitOther(g: Graph, order: seq<NodeId>, i: nat, firstFor: map<NodeId, NodeId>, firstAt: map<NodeId, nat>,
                   rep: map<NodeId, NodeId>, dedup: set<NodeId>)
    requires i < |order| && OrderedAt(order, i) && DedupInv(g, order, i, firstFor, firstAt, rep, dedup)
    requires !IsBackedgeDummy(g, order[i])
    ensures DedupInv(g, order, i + 1, firstFor, firstAt, rep[order[i] := order[i]], dedup + {order[i]})
  {
    VisitedGrows(order, i, rep, order[i]);
    var s := order[i];
    FirstForGrows(g, order, i, firstFor, firstAt);
    assert s !in rep;
    forall j | 0 <= j < i
      ensures RecordedAs(g, firstFor, order[j], rep[s := s][order[j]])
    {
      assert order[j] < s;
    }
  }

  /** Once every successor is visited, each is mapped to its representative. */
  lemma DedupDone(g: Graph, successors: set<NodeId>, order: seq<NodeId>, firstFor: map<NodeId, NodeId>, firstAt: map<NodeId, nat>,
                  rep: map<NodeId, NodeId>, dedup: set<NodeId>)
    requires StrictlyIncreasing(order) && (forall n :: n in order <==> n in successors)
    requires DedupInv(g, order, |order|, firstFor, firstAt, rep, dedup)
    ensures forall s :: s in rep <==> s in successors
    ensures forall s :: s in rep ==> Represents(g, successors, s, rep[s]) && rep[s] in dedup
  {
    forall n | n in rep
      ensures Represents(g, successors, n, rep[n]) && rep[n] in dedup
    {
      var j :| 0 <= j < |order| && order[j] == n;
      assert RecordedAs(g, firstFor, order[j], rep[order[j]]);
      if IsBackedgeDummy(g, n) {
        var t := DummyTarget(g, n);
        FirstDummyIsLeast(g, successors, order, firstAt[t], n);
        var f := firstAt[t];
        assert RecordedAs(g, firstFor, order[f], rep[order[f]]);
      }
    }
  }

  /**
   * Successor deduplication: every region successor that is a backedge dummy
   * is mapped to the first successor (in set order) that is a dummy to the
   * same target; every other successor is mapped to itself. The
   * deduplicated successors are those mapped to themselves.
   */
  method DeduplicateSuccessors(g: Graph, successors: set<NodeId>)
    returns (dedup: set<NodeId>, rep: map<NodeId, NodeId>)
    requires forall s :: s in successors && IsBackedgeDummy(g, s) ==> |g.succ[s]| == 1
    ensures forall s :: s in rep <==> s in successors
    ensures forall s :: s in rep ==> Represents(g, successors, s, rep[s])
    ensures forall n :: n in dedup <==> n in successors && rep[n] == n
    ensures forall s :: s in rep ==> rep[s] in dedup
  {
    dedup := {};
    rep := map[];
    var firstFor: map<NodeId, NodeId> := map[];
    ghost var firstAt: map<NodeId, nat> := map[];
    var order := Enumerate(successors);
    for i := 0 to |order|
      invariant DedupInv(g, order, i, firstFor, firstAt, rep, dedup)
    {
      var s := order[i];
      assert OrderedAt(order, i);
      if IsBackedgeDummy(g, s) {
        var t := DummyTarget(g, s);
        if t in firstFor {
          VisitSeenDummy(g, order, i, firstFor, firstAt, rep, dedup);
          rep := rep[s := firstFor[t]];
        } else {
          VisitNewDummy(g, order, i, firstFor, firstAt, rep, dedup);
          firstFor := firstFor[t := s];
          firstAt := firstAt[t := i];
          dedup := dedup + {s};
          rep := rep[s := s];
        }
      } else {
        VisitOther(g, order, i, firstFor, firstAt, rep, dedup);
        dedup := dedup + {s};
        rep := rep[s := s];
      }
    }
    DedupDone(g, successors, order, firstFor, firstAt, rep, dedup);
  }

  /** Dummies on backedges to the same node share their representative. */
  lemma SameBackedgeSameRepresentative(g: Graph, successors: set<NodeId>, a: NodeId, b: NodeId, ra: NodeId, rb: NodeId)
    requires a in successors && b in successors && SameBackedge(g, a, b)
    requires Represents(g, successors, a, ra) && Represents(g, successors, b, rb)
    ensures ra == rb
  {
    assert SameBackedge(g, rb, a) && SameBackedge(g, ra, b);
    assert ra <= rb && rb <= ra;
  }

  /**
   * Exit dispatcher: needed exactly when more than one deduplicated successor
   * remains; it then gets one labelled edge per deduplicated successor.
   */
  method ExitDispatcher(dedup: set<NodeId>, dispatcher: NodeId)
    returns (newExitNeeded: bool, exit: Option<NodeId>, edges: seq<Link>, idx: map<NodeId, uint32>)
    ensures newExitNeeded <==> |dedup| > 1
    ensures newExitNeeded <==> exit == Some(dispatcher)
    ensures !newExitNeeded <==> exit.None?
    ensures newExitNeeded ==> |edges| == |dedup| && forall n :: n in idx <==> n in dedup
    ensures newExitNeeded ==> forall n :: n in Targets(edges) <==> n in dedup
    ensures newExitNeeded ==> forall k :: 0 <= k < |edges| ==> edges[k].1 == EdgeInfo({Label(k)}, false)
    ensures newExitNeeded ==> forall k :: 0 <= k < |edges| ==> idx[edges[k].0] == Label(k)
    ensures !newExitNeeded ==> edges == [] && idx == map[]
  {
    newExitNeeded := |dedup| > 1;
    exit := None;
    edges := [];
    idx := map[];
    if newExitNeeded {
      exit := Some(dispatcher);
      edges, idx := DispatcherEdges(dedup);
    }
  }

  /**
   * The successor of the collapsed node: the exit dispatcher when there is
   * one, else the only deduplicated successor, else none.
   */
  method CollapsedSuccessor(exit: Option<NodeId>, dedup: set<NodeId>) returns (succ: Option<NodeId>)
    requires exit.None? ==> |dedup| <= 1
    ensures exit.Some? ==> succ == exit
    ensures exit.None? ==> (succ.None? <==> dedup == {})
    ensures exit.None? && succ.Some? ==> dedup == {succ.value}
  {
    if exit.Some? {
      succ := exit;
    } else if |dedup| == 1 {
      var s :| s in dedup;
      assert |dedup - {s}| == 0;
      assert dedup == {s};
      succ := Some(s);
    } else {
      succ := None;
    }
  }

  /**
   * Collapse of the region into node `collapsed`: no pending backedge may
   * leave the region, every pending backedge into it must target the head,
   * and those are redirected to the collapsed node.
   */
  method CollapseBackedges(backedges: set<Edge>, meta: set<NodeId>, head: NodeId, collapsed: NodeId) returns (r: set<Edge>)
    requires forall e :: e in backedges ==> e.0 !in meta
    requires forall e :: e in backedges && e.1 in meta ==> e.1 == head
    ensures forall e :: e in r <==>
      (e in backedges && e.1 !in meta) || (e.1 == collapsed && head in meta && (e.0, head) in backedges)
    ensures collapsed !in meta ==> forall e :: e in r ==> e.0 !in meta && e.1 !in meta
  {
    r := backedges;
    var newBackedges: set<Edge> := {};
    var rest := backedges;
    while rest != {}
      invariant rest <= backedges
      invariant forall e :: e in r <==> e in backedges && (e in rest || e.1 !in meta)
      invariant forall e :: e in newBackedges <==> e.1 == collapsed && exists s :: s in backedges && s !in rest && s.1 in meta && s.0 == e.0
      decreases rest
    {
      var e :| e in rest;
      if e.1 in meta {
        newBackedges := newBackedges + {(e.0, collapsed)};
        r := r - {e};
      }
      rest := rest - {e};
    }
    r := r + newBackedges;
    forall e | e in newBackedges
      ensures head in meta && (e.0, head) in backedges
    {
      var s :| s in backedges && s.1 in meta && s.0 == e.0;
      assert s == (e.0, head);
    }
  }

  /**
   * The redirect of the edges entering the head from outside: any of them
   * that is still a pending backedge is replaced by the same edge into the
   * collapsed node. Once the collapse has rewritten the backedges, none
   * targets the head any more and this leaves them unchanged.
   */
  method RedirectIncoming(backedges: set<Edge>, incoming: set<Edge>, head: NodeId, collapsed: NodeId) returns (r: set<Edge>)
    requires forall e :: e in incoming ==> e.1 == head
    ensures forall e :: e in r <==>
      (e in backedges && e !in incoming) || (e.1 == collapsed && (e.0, head) in backedges && (e.0, head) in incoming)
    ensures (forall e :: e in backedges ==> e.1 != head) ==> r == backedges
  {
    r := backedges;
    var rest := incoming;
    while rest != {}
      invariant rest <= incoming
      invariant forall e :: e in r <==>
        (e in backedges && (e !in incoming || e in rest)) || (e.1 == collapsed && (e.0, head) in backedges && (e.0, head) in incoming && (e.0, head) !in rest)
      decreases rest
    {
      var e :| e in rest;
      if e in r {
        r := r - {e};
        r := r + {(e.0, collapsed)};
      }
      rest := rest - {e};
    }
  }

  /** removeFromRPOT: the erase/remove idiom on the reverse post-order. */
  method RemoveFromRPOT(rpot: seq<NodeId>, node: NodeId) returns (r: seq<NodeId>)
    ensures r == RemoveAll(rpot, node)
  {
    r := [];
    for i := 0 to |rpot|
      invariant r == RemoveAll(rpot[..i], node)
    {
      RemoveAllAppend(rpot[..i], rpot[i], node);
      assert rpot[..i + 1] == rpot[..i] + [rpot[i]];
      if rpot[i] != node {
        r := r + [rpot[i]];
      }
    }
    assert rpot[..|rpot|] == rpot;
  }

  lemma {:induction false} RemoveAllAppend(s: seq<NodeId>, x: NodeId, node: NodeId)
    ensures RemoveAll(s + [x], node) == RemoveAll(s, node) + (if x == node then [] else [x])
  {
    if s != [] {
      assert (s + [x])[1..] == s[1..] + [x];
      RemoveAllAppend(s[1..], x, node);
    }
  }

  /** A node of a region as accumulateDuplicates sees it. */
  datatype RegionNode =
    | CodeNode(original: nat)
    | CollapsedNode(body: seq<RegionNode>)
    | ArtificialNode

  /** How many code nodes stand for basic block `bb`, looking inside collapsed regions. */
  function Occurrences(nodes: seq<RegionNode>, bb: nat): nat
    decreases nodes
  {
    if nodes == [] then 0
    else Occurrences(nodes[..|nodes| - 1], bb) + NodeOccurrences(nodes[|nodes| - 1], bb)
  }

  function NodeOccurrences(n: RegionNode, bb: nat): nat
    decreases n
  {
    match n
    case CodeNode(original) => if original == bb then 1 else 0
    case CollapsedNode(body) => Occurrences(body, bb)
    case ArtificialNode => 0
  }

  /** A count map read through `operator[]`: a missing key counts as zero. */
  function Count(counts: map<nat, nat>, bb: nat): nat
  {
    if bb in counts then counts[bb] else 0
  }

  /**
   * accumulateDuplicates: adds to each basic block's count the number of code
   * nodes for it in the region and, recursively, in every collapsed region
   * inside it.
   */
  method AccumulateDuplicates(nodes: seq<RegionNode>, counts: map<nat, nat>) returns (r: map<nat, nat>)
    ensures forall bb :: Count(r, bb) == Count(counts, bb) + Occurrences(nodes, bb)
    ensures forall bb :: bb in r <==> bb in counts || Occurrences(nodes, bb) > 0
    decreases nodes
  {
    r := counts;
    for i := 0 to |nodes|
      invariant forall bb :: Count(r, bb) == Count(counts, bb) + Occurrences(nodes[..i], bb)
      invariant forall bb :: bb in r <==> bb in counts || Occurrences(nodes[..i], bb) > 0
    {
      assert nodes[..i + 1][..i] == nodes[..i];
      match nodes[i]
      case CodeNode(original) =>
        r := r[original := Count(r, original) + 1];
      case CollapsedNode(body) =>
        r := AccumulateDuplicates(body, r);
      case ArtificialNode =>
    }
    assert nodes[..|nodes|] == nodes;
  }
}
