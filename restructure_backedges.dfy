/**
 * Retreating-edge detection of the control-flow restructuring: a depth-first
 * visit with an explicit stack that records start and finish times and
 * reports an edge as a backedge when its target has been started but not
 * finished.
 *
 * A RegionCFG is seen here through the successor lists of its nodes, indexed
 * by node ID, together with each node's type and the entry node.
 */
module RestructureBackedges {
  import opened BasicBlockNodes

  datatype Graph = Graph(succ: seq<seq<NodeId>>, kind: seq<NodeType>, entry: NodeId)

  type Edge = (NodeId, NodeId)

  /** Every node has a type, the entry exists and every successor is a node of the graph. */
  predicate WellFormed(g: Graph)
  {
    |g.kind| == |g.succ| && g.entry < |g.succ| &&
    forall u, k :: 0 <= u < |g.succ| && 0 <= k < |g.succ[u]| ==> g.succ[u][k] < |g.succ|
  }

  /** `p` is a walk along successor edges. */
  ghost predicate IsPath(g: Graph, p: seq<NodeId>)
  {
    |p| > 0 &&
    (forall k :: 0 <= k < |p| ==> p[k] < |g.succ|) &&
    (forall k :: 0 <= k < |p| - 1 ==> StepsTo(g, p, k))
  }

  /** The node after position `k` of `p` is a successor of the node at `k`. */
  ghost predicate StepsTo(g: Graph, p: seq<NodeId>, k: nat)
    requires k + 1 < |p| && p[k] < |g.succ|
  {
    p[k + 1] in g.succ[p[k]]
  }

  ghost predicate Reaches(g: Graph, a: NodeId, b: NodeId)
  {
    exists p :: IsPath(g, p) && p[0] == a && p[|p| - 1] == b
  }

  /** No walk of at least one edge comes back to where it started. */
  ghost predicate Acyclic(g: Graph)
  {
    forall p :: IsPath(g, p) && |p| > 1 ==> p[0] != p[|p| - 1]
  }

  /** The nodes the visit has not reached yet. */
  ghost function Unstarted(g: Graph, startTime: map<NodeId, int>): set<NodeId>
  {
    set v | 0 <= v < |g.succ| && v !in startTime
  }

  /** Pops still owed to a started stack entry: one per unexplored successor, plus the finishing pop. */
  ghost function Owed(g: Graph, startTime: map<NodeId, int>, e: (NodeId, nat)): nat
  {
    if e.0 in startTime && e.0 < |g.succ| && e.1 <= |g.succ[e.0]| then |g.succ[e.0]| - e.1 + 1 else 0
  }

  ghost function Weight(g: Graph, startTime: map<NodeId, int>, stack: seq<(NodeId, nat)>): nat
  {
    if stack == [] then 0
    else Weight(g, startTime, stack[..|stack| - 1]) + Owed(g, startTime, stack[|stack| - 1])
  }

  lemma WeightPush(g: Graph, startTime: map<NodeId, int>, stack: seq<(NodeId, nat)>, e: (NodeId, nat))
    ensures Weight(g, startTime, stack + [e]) == Weight(g, startTime, stack) + Owed(g, startTime, e)
  {
    assert (stack + [e])[..|stack|] == stack;
  }

  /** Consecutive stack entries follow the successor edge the lower entry explored last. */
  ghost predicate StackIsPath(g: Graph, stack: seq<(NodeId, nat)>)
  {
    (forall k :: 0 <= k < |stack| ==> stack[k].0 < |g.succ| && stack[k].1 <= |g.succ[stack[k].0]|) &&
    (forall k :: 0 <= k < |stack| - 1 ==> Explored(g, stack, k))
  }

  /** The entry above position `k` is the successor the entry at `k` explored last. */
  ghost predicate Explored(g: Graph, stack: seq<(NodeId, nat)>, k: nat)
    requires k + 1 < |stack| && stack[k].0 < |g.succ|
  {
    stack[k].1 >= 1 && stack[k].1 <= |g.succ[stack[k].0]| &&
    stack[k + 1].0 == g.succ[stack[k].0][stack[k].1 - 1]
  }

  lemma {:induction false} StackReaches(g: Graph, stack: seq<(NodeId, nat)>, i: nat, j: nat)
    requires StackIsPath(g, stack) && i <= j < |stack|
    ensures Reaches(g, stack[i].0, stack[j].0)
    decreases j - i
  {
    if i == j {
      assert IsPath(g, [stack[i].0]);
    } else {
      StackReaches(g, stack, i + 1, j);
      var p :| IsPath(g, p) && p[0] == stack[i + 1].0 && p[|p| - 1] == stack[j].0;
      var q := [stack[i].0] + p;
      forall k | 0 <= k < |q| - 1
        ensures StepsTo(g, q, k)
      {
        if k == 0 {
          assert Explored(g, stack, i);
        } else {
          assert StepsTo(g, p, k - 1);
        }
      }
      assert IsPath(g, q);
    }
  }

  /** The vertices on the stack, bottom first. */
  ghost function Vertices(stack: seq<(NodeId, nat)>): (vs: seq<NodeId>)
    ensures |vs| == |stack| && forall k :: 0 <= k < |stack| ==> vs[k] == stack[k].0
  {
    seq(|stack|, k requires 0 <= k < |stack| => stack[k].0)
  }

  lemma VerticesPush(stack: seq<(NodeId, nat)>, e: (NodeId, nat))
    ensures Vertices(stack + [e]) == Vertices(stack) + [e.0]
  {
  }

  /** Advancing the top entry to its next successor, and pushing that successor, keep the stack a path. */
  lemma AdvanceKeepsPath(g: Graph, popped: seq<(NodeId, nat)>, vertex: NodeId, index: nat)
    requires WellFormed(g) && vertex < |g.succ| && index < |g.succ[vertex]|
    requires StackIsPath(g, popped + [(vertex, index)])
    ensures StackIsPath(g, popped + [(vertex, index + 1)])
    ensures StackIsPath(g, popped + [(vertex, index + 1), (g.succ[vertex][index], 0)])
  {
    var s0 := popped + [(vertex, index)];
    var s1 := popped + [(vertex, index + 1)];
    var s2 := popped + [(vertex, index + 1), (g.succ[vertex][index], 0)];
    assert forall k :: 0 <= k < |popped| ==> s1[k] == s0[k] && s2[k] == s0[k];
    forall k | 0 <= k < |s1| - 1
      ensures Explored(g, s1, k) && Explored(g, s2, k)
    {
      assert Explored(g, s0, k);
    }
    assert Explored(g, s2, |s1| - 1);
  }

  lemma PopKeepsPath(g: Graph, popped: seq<(NodeId, nat)>, e: (NodeId, nat))
    requires StackIsPath(g, popped + [e])
    ensures StackIsPath(g, popped)
  {
    assert forall k :: 0 <= k < |popped| ==> (popped + [e])[k] == popped[k];
    forall k | 0 <= k < |popped| - 1
      ensures Explored(g, popped, k)
    {
      assert Explored(g, popped + [e], k);
    }
  }

  /** Every reported edge is an edge of the graph whose target reaches its source. */
  ghost predicate ClosesCycles(g: Graph, backedges: set<Edge>)
  {
    forall e :: e in backedges ==> e.0 < |g.succ| && e.1 in g.succ[e.0] && Reaches(g, e.1, e.0)
  }

  /**
   * What the visit keeps true: the stack is a path, every entry below the top
   * has been started, every started but unfinished ("gray") vertex is on the
   * stack, and every reported edge closes a cycle.
   */
  ghost predicate DfsInv(g: Graph, stack: seq<(NodeId, nat)>, startTime: map<NodeId, int>,
                         finishTime: map<NodeId, int>, backedges: set<Edge>)
  {
    StackIsPath(g, stack) &&
    (forall k :: 0 <= k < |stack| - 1 ==> stack[k].0 in startTime) &&
    (forall v :: v in startTime && v !in finishTime ==> v in Vertices(stack)) &&
    ClosesCycles(g, backedges)
  }

  lemma MarkStarted(g: Graph, stack: seq<(NodeId, nat)>, startTime: map<NodeId, int>,
                    finishTime: map<NodeId, int>, backedges: set<Edge>, time: int)
    requires DfsInv(g, stack, startTime, finishTime, backedges) && stack != []
    ensures DfsInv(g, stack, startTime[stack[|stack| - 1].0 := time], finishTime, backedges)
  {
    assert stack[|stack| - 1].0 == Vertices(stack)[|stack| - 1];
  }

  /** Replacing the top entry by its next successor index keeps the invariant once the edge is classified. */
  lemma AdvanceStep(g: Graph, stack: seq<(NodeId, nat)>, startTime: map<NodeId, int>,
                    finishTime: map<NodeId, int>, backedges: set<Edge>)
    requires WellFormed(g) && DfsInv(g, stack, startTime, finishTime, backedges) && stack != []
    requires stack[|stack| - 1].0 in startTime && stack[|stack| - 1].1 < |g.succ[stack[|stack| - 1].0]|
    ensures var (vertex, index) := stack[|stack| - 1];
            var successor := g.succ[vertex][index];
            var found := if successor in startTime && successor !in finishTime
                         then backedges + {(vertex, successor)} else backedges;
            DfsInv(g, stack[..|stack| - 1] + [(vertex, index + 1)], startTime, finishTime, found)
  {
    var (vertex, index) := stack[|stack| - 1];
    var popped := stack[..|stack| - 1];
    assert stack == popped + [(vertex, index)];
    var successor := g.succ[vertex][index];
    var s1 := popped + [(vertex, index + 1)];
    AdvanceKeepsPath(g, popped, vertex, index);
    assert forall k :: 0 <= k < |popped| ==> s1[k] == stack[k];
    assert Vertices(s1) == Vertices(stack);
    if successor in startTime && successor !in finishTime {
      var k :| 0 <= k < |s1| && Vertices(s1)[k] == successor;
      StackReaches(g, s1, k, |s1| - 1);
    }
  }

  /** Pushing the successor the top entry has just passed to keeps the invariant and adds no weight. */
  lemma PushUnstarted(g: Graph, stack: seq<(NodeId, nat)>, startTime: map<NodeId, int>,
                      finishTime: map<NodeId, int>, backedges: set<Edge>)
    requires WellFormed(g) && DfsInv(g, stack, startTime, finishTime, backedges) && stack != []
    requires stack[|stack| - 1].0 in startTime && stack[|stack| - 1].1 >= 1
    ensures var w := g.succ[stack[|stack| - 1].0][stack[|stack| - 1].1 - 1];
            w !in startTime ==>
              DfsInv(g, stack + [(w, 0)], startTime, finishTime, backedges) &&
              Weight(g, startTime, stack + [(w, 0)]) == Weight(g, startTime, stack)
  {
    var w := g.succ[stack[|stack| - 1].0][stack[|stack| - 1].1 - 1];
    var s := stack + [(w, 0)];
    VerticesPush(stack, (w, 0));
    WeightPush(g, startTime, stack, (w, 0));
    forall k | 0 <= k < |s| - 1
      ensures Explored(g, s, k)
    {
      if k < |stack| - 1 {
        assert Explored(g, stack, k);
      }
    }
  }

  /** Popping a vertex whose successors are exhausted finishes it. */
  lemma FinishStep(g: Graph, stack: seq<(NodeId, nat)>, startTime: map<NodeId, int>,
                   finishTime: map<NodeId, int>, backedges: set<Edge>, time: int)
    requires DfsInv(g, stack, startTime, finishTime, backedges) && stack != []
    ensures DfsInv(g, stack[..|stack| - 1], startTime, finishTime[stack[|stack| - 1].0 := time], backedges)
  {
    var popped := stack[..|stack| - 1];
    assert stack == popped + [stack[|stack| - 1]];
    PopKeepsPath(g, popped, stack[|stack| - 1]);
    VerticesPush(popped, stack[|stack| - 1]);
    assert forall k :: 0 <= k < |popped| ==> stack[k] == popped[k];
  }

  lemma StartShrinksUnstarted(g: Graph, startTime: map<NodeId, int>, vertex: NodeId, time: int)
    requires vertex < |g.succ| && vertex !in startTime
    ensures |Unstarted(g, startTime[vertex := time])| < |Unstarted(g, startTime)|
  {
    assert Unstarted(g, startTime) == Unstarted(g, startTime[vertex := time]) + {vertex};
  }

  /** Revisiting a started vertex pushes back strictly less work than it pops. */
  lemma RevisitLowersWeight(g: Graph, startTime: map<NodeId, int>, stack: seq<(NodeId, nat)>)
    requires stack != [] && StackIsPath(g, stack) && stack[|stack| - 1].0 in startTime
    ensures var (vertex, index) := stack[|stack| - 1];
            (index < |g.succ[vertex]| ==>
               Weight(g, startTime, stack[..|stack| - 1] + [(vertex, index + 1)]) < Weight(g, startTime, stack)) &&
            Weight(g, startTime, stack[..|stack| - 1]) < Weight(g, startTime, stack)
  {
    var (vertex, index) := stack[|stack| - 1];
    var popped := stack[..|stack| - 1];
    assert stack == popped + [(vertex, index)];
    WeightPush(g, startTime, popped, (vertex, index));
    if index < |g.succ[vertex]| {
      WeightPush(g, startTime, popped, (vertex, index + 1));
    }
  }

  /**
   * getBackedges: every edge it reports is an edge of the graph whose target
   * reaches its source, so it closes a cycle.
   */
  method GetBackedges(g: Graph) returns (backedges: set<Edge>)
    requires WellFormed(g)
    ensures ClosesCycles(g, backedges)
  {
    var time := 0;
    var startTime: map<NodeId, int> := map[];
    var finishTime: map<NodeId, int> := map[];
    var stack: seq<(NodeId, nat)> := [(g.entry, 0)];
    backedges := {};

    while stack != []
      invariant DfsInv(g, stack, startTime, finishTime, backedges)
      decreases |Unstarted(g, startTime)|, Weight(g, startTime, stack)
    {
      var vertex := stack[|stack| - 1].0;
      var index := stack[|stack| - 1].1;
      time := time + 1;

      // Mark the start of the visit the first time the vertex is popped.
      if vertex !in startTime {
        MarkStarted(g, stack, startTime, finishTime, backedges, time);
        StartShrinksUnstarted(g, startTime, vertex, time);
        startTime := startTime[vertex := time];
      } else {
        RevisitLowersWeight(g, startTime, stack);
      }

      if index < |g.succ[vertex]| {
        var successor := g.succ[vertex][index];
        AdvanceStep(g, stack, startTime, finishTime, backedges);
        stack := stack[..|stack| - 1] + [(vertex, index + 1)];

        // The successor is being visited: the edge goes back up the stack.
        if successor in startTime && successor !in finishTime {
          backedges := backedges + {(vertex, successor)};
        }

        // Enqueue the successor for the visit.
        if successor !in startTime {
          PushUnstarted(g, stack, startTime, finishTime, backedges);
          stack := stack + [(successor, 0)];
        }
      } else {
        FinishStep(g, stack, startTime, finishTime, backedges, time);
        stack := stack[..|stack| - 1];
        finishTime := finishTime[vertex := time];
      }
    }
  }

  /** An edge whose target reaches its source closes a cycle. */
  lemma BackedgeClosesCycle(g: Graph, e: Edge)
    requires e.0 < |g.succ| && e.1 in g.succ[e.0] && Reaches(g, e.1, e.0)
    ensures !Acyclic(g)
  {
    var p :| IsPath(g, p) && p[0] == e.1 && p[|p| - 1] == e.0;
    var cycle := p + [e.1];
    forall k | 0 <= k < |cycle| - 1
      ensures StepsTo(g, cycle, k)
    {
      if k < |p| - 1 {
        assert StepsTo(g, p, k);
      }
    }
    assert IsPath(g, cycle) && |cycle| > 1 && cycle[0] == cycle[|cycle| - 1];
  }

  /** With no cycle there is no backedge. */
  lemma AcyclicHasNoBackedge(g: Graph, backedges: set<Edge>)
    requires Acyclic(g) && ClosesCycles(g, backedges)
    ensures backedges == {}
  {
    if e :| e in backedges {
      BackedgeClosesCycle(g, e);
    }
  }
}
