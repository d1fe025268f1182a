/**
 * The graph `Binary::verify` builds for each function (`FunctionCFG` and
 * `getGraph` in lib/Model/Binary.cpp), its two checks (every node reachable
 * from the entry, only the invalid address without successors) and the
 * per-function part of `Binary::verify`.
 *
 * `FunctionCFG::Map` gives each address exactly one node, so a node is
 * identified here by its address, and the graph is the map from each node's
 * address to the addresses of its successors, in insertion order.
 */
module FunctionCFGs {
  import opened Wrappers
  import opened BinaryModel
  import Sets

  type Graph = map<MetaAddress, seq<MetaAddress>>

  // ---------------------------------------------------------------------------
  // The graph of a function, as a function of its blocks.

  /** Edges `getGraph` cannot handle (it aborts on them). */
  predicate Drawable(e: ShapedEdge)
  {
    e.kind != InvalidEdge && e.kind != CountEdge
  }

  ghost predicate BlockDrawable(b: BasicBlock)
  {
    forall j :: 0 <= j < |b.successors| ==> Drawable(b.successors[j])
  }

  ghost predicate AllDrawable(cfg: seq<BasicBlock>)
  {
    forall i :: 0 <= i < |cfg| ==> BlockDrawable(cfg[i])
  }

  /**
   * The node an edge of block `b` leads to in `getGraph`: calls go to the end of
   * the block, or to the invalid address when the callee does not return;
   * killer edges go to the invalid address; the other edges to their destination.
   * (`getGraph` aborts on the edge kinds `Drawable` excludes, so only the
   * drawable cases matter.)
   */
  function EdgeTarget(b: BasicBlock, e: ShapedEdge): (t: MetaAddress)
    ensures e.kind == Killer ==> t == InvalidAddress
    ensures (e.kind == FunctionCall || e.kind == IndirectCall) && e.noReturn ==> t == InvalidAddress
    ensures (e.kind == FunctionCall || e.kind == IndirectCall) && !e.noReturn ==> t == b.end
    ensures e.kind != Killer && e.kind != FunctionCall && e.kind != IndirectCall ==> t == e.destination
  {
    match e.kind
    case FunctionCall => if e.noReturn then InvalidAddress else b.end
    case IndirectCall => if e.noReturn then InvalidAddress else b.end
    case Killer => InvalidAddress
    case _ => e.destination
  }

  /** `get` on a graph value: the node is created, with no successors, on first use. */
  function Touch(m: Graph, a: MetaAddress): (r: Graph)
    ensures r.Keys == m.Keys + {a}
    ensures forall x :: x in m ==> r[x] == m[x]
    ensures a !in m ==> r[a] == []
  {
    if a in m then m else m[a := []]
  }

  /** The targets of the first `k` edges of a block, in order. */
  function Targets(b: BasicBlock, k: nat): (r: seq<MetaAddress>)
    requires k <= |b.successors|
    ensures |r| == k
  {
    if k == 0 then [] else Targets(b, k - 1) + [EdgeTarget(b, b.successors[k - 1])]
  }

  /** The targets of all the edges of a block. */
  function AllTargets(b: BasicBlock): seq<MetaAddress>
  {
    Targets(b, |b.successors|)
  }

  /** `addSuccessor` after `get` of the target: one arc appended, the target created if new. */
  function AddArc(g: Graph, source: MetaAddress, target: MetaAddress): (r: Graph)
    requires source in g
    ensures r.Keys == g.Keys + {target}
    ensures r[source] == g[source] + [target]
    ensures forall x :: x in g && x != source ==> r[x] == g[x]
    ensures target !in g ==> r[target] == []
  {
    var withTarget := Touch(g, target);
    withTarget[source := withTarget[source] + [target]]
  }

  /** The graph after the block's source node and its first `k` edges are added. */
  function BlockGraph(m: Graph, b: BasicBlock, k: nat): (r: Graph)
    requires k <= |b.successors|
    ensures b.start in r
  {
    if k == 0 then Touch(m, b.start)
    else AddArc(BlockGraph(m, b, k - 1), b.start, EdgeTarget(b, b.successors[k - 1]))
  }

  /** `getGraph`: the graph after all the blocks are added in order. */
  function GraphOf(cfg: seq<BasicBlock>): Graph
  {
    if |cfg| == 0 then map[]
    else
      var last := cfg[|cfg| - 1];
      BlockGraph(GraphOf(cfg[..|cfg| - 1]), last, |last.successors|)
  }

  /**
   * Adding a block creates its source node and the nodes of its targets and no
   * other node.
   */
  lemma {:induction false} BlockGraphNode(m: Graph, b: BasicBlock, k: nat, a: MetaAddress)
    requires k <= |b.successors|
    ensures a in BlockGraph(m, b, k) <==> a in m || a == b.start || a in Targets(b, k)
  {
    if k > 0 {
      BlockGraphNode(m, b, k - 1, a);
    }
  }

  /** Adding a block leaves the successors of every other node as they were; a new node has none. */
  lemma {:induction false} BlockGraphOthers(m: Graph, b: BasicBlock, k: nat, a: MetaAddress)
    requires k <= |b.successors|
    requires a in BlockGraph(m, b, k) && a != b.start
    ensures BlockGraph(m, b, k)[a] == if a in m then m[a] else []
  {
    if k > 0 {
      if a in BlockGraph(m, b, k - 1) {
        BlockGraphOthers(m, b, k - 1, a);
      } else {
        BlockGraphNode(m, b, k - 1, a);
      }
    }
  }

  /** Adding a block appends its targets, in order, to the successors of its source node. */
  lemma {:induction false} BlockGraphSource(m: Graph, b: BasicBlock, k: nat)
    requires k <= |b.successors|
    ensures BlockGraph(m, b, k)[b.start] == (if b.start in m then m[b.start] else []) + Targets(b, k)
  {
    if k > 0 {
      BlockGraphSource(m, b, k - 1);
      var own := if b.start in m then m[b.start] else [];
      var t := EdgeTarget(b, b.successors[k - 1]);
      assert own + Targets(b, k - 1) + [t] == own + Targets(b, k);
    }
  }

  /** Some block of the CFG starts at `a` and has `t` among its targets. */
  ghost predicate IsArc(cfg: seq<BasicBlock>, a: MetaAddress, t: MetaAddress)
  {
    exists i :: 0 <= i < |cfg| && cfg[i].start == a && t in AllTargets(cfg[i])
  }

  /** A node of the function: a block start or the target of an edge. */
  ghost predicate IsNode(cfg: seq<BasicBlock>, a: MetaAddress)
  {
    exists i :: 0 <= i < |cfg| && (cfg[i].start == a || a in AllTargets(cfg[i]))
  }

  /** A node of a CFG comes from its last block or from the blocks before it. */
  lemma NodeOfLast(cfg: seq<BasicBlock>, a: MetaAddress)
    requires |cfg| > 0
    ensures IsNode(cfg, a) <==> (IsNode(cfg[..|cfg| - 1], a)
                                 || cfg[|cfg| - 1].start == a || a in AllTargets(cfg[|cfg| - 1]))
  {
    var init := cfg[..|cfg| - 1];
    if IsNode(init, a) {
      var i :| 0 <= i < |init| && (init[i].start == a || a in AllTargets(init[i]));
      assert cfg[i] == init[i];
    }
    if IsNode(cfg, a) {
      var i :| 0 <= i < |cfg| && (cfg[i].start == a || a in AllTargets(cfg[i]));
      if i < |init| {
        assert init[i] == cfg[i];
      }
    }
  }

  /** The nodes of the graph of a function are exactly its block starts and edge targets. */
  lemma {:induction false} GraphOfNodes(cfg: seq<BasicBlock>, a: MetaAddress)
    ensures a in GraphOf(cfg) <==> IsNode(cfg, a)
  {
    if |cfg| > 0 {
      var init := cfg[..|cfg| - 1];
      var b := cfg[|cfg| - 1];
      NodeOfLast(cfg, a);
      GraphOfNodes(init, a);
      BlockGraphNode(GraphOf(init), b, |b.successors|, a);
    }
  }

  /** An arc of a CFG comes from its last block or from the blocks before it. */
  lemma ArcOfLast(cfg: seq<BasicBlock>, a: MetaAddress, t: MetaAddress)
    requires |cfg| > 0
    ensures IsArc(cfg, a, t) <==> IsArc(cfg[..|cfg| - 1], a, t)
                                  || (cfg[|cfg| - 1].start == a && t in AllTargets(cfg[|cfg| - 1]))
  {
    var init := cfg[..|cfg| - 1];
    if IsArc(init, a, t) {
      var i :| 0 <= i < |init| && init[i].start == a && t in AllTargets(init[i]);
      assert cfg[i] == init[i];
    }
    if IsArc(cfg, a, t) {
      var i :| 0 <= i < |cfg| && cfg[i].start == a && t in AllTargets(cfg[i]);
      if i < |init| {
        assert init[i] == cfg[i];
      }
    }
  }

  /** The successors of a node of the graph are exactly the targets of the blocks starting there. */
  lemma {:induction false} GraphOfArcs(cfg: seq<BasicBlock>, a: MetaAddress, t: MetaAddress)
    ensures a in GraphOf(cfg) && t in GraphOf(cfg)[a] <==> IsArc(cfg, a, t)
  {
    if |cfg| > 0 {
      var init := cfg[..|cfg| - 1];
      var b := cfg[|cfg| - 1];
      var prev := GraphOf(init);
      ArcOfLast(cfg, a, t);
      GraphOfArcs(init, a, t);
      BlockGraphNode(prev, b, |b.successors|, a);
      if a == b.start {
        BlockGraphSource(prev, b, |b.successors|);
      } else if a in GraphOf(cfg) {
        BlockGraphOthers(prev, b, |b.successors|, a);
      }
    }
  }

  // ---------------------------------------------------------------------------
  // Reachability.

  /** A path along successor edges. */
  ghost predicate IsPath(m: Graph, p: seq<MetaAddress>)
  {
    |p| > 0
    && (forall i :: 0 <= i < |p| ==> p[i] in m)
    && (forall i :: 0 <= i < |p| - 1 ==> p[i] in m && p[i + 1] in m[p[i]])
  }

  ghost predicate Reachable(m: Graph, from: MetaAddress, to: MetaAddress)
  {
    exists p :: IsPath(m, p) && p[0] == from && p[|p| - 1] == to
  }

  /** Every node of the graph can be reached from `entry`. */
  ghost predicate AllReachable(m: Graph, entry: MetaAddress)
  {
    forall a :: a in m ==> Reachable(m, entry, a)
  }

  /** Only the invalid address may lack successors. */
  ghost predicate OnlyInvalidExits(m: Graph)
  {
    forall a :: a in m && a.IsValid() ==> |m[a]| > 0
  }

  /** Every successor is itself a node. */
  ghost predicate Closed(m: Graph)
  {
    forall a :: a in m ==> forall t :: t in m[a] ==> t in m
  }

  /** The graph `getGraph` builds is closed: every target gets its own node. */
  lemma GraphOfClosed(cfg: seq<BasicBlock>)
    ensures Closed(GraphOf(cfg))
  {
    forall a, t | a in GraphOf(cfg) && t in GraphOf(cfg)[a]
      ensures t in GraphOf(cfg)
    {
      GraphOfArcs(cfg, a, t);
      var i :| 0 <= i < |cfg| && cfg[i].start == a && t in AllTargets(cfg[i]);
      GraphOfNodes(cfg, t);
    }
  }

  /** A path followed by one more edge is a path. */
  lemma ExtendPath(m: Graph, p: seq<MetaAddress>, t: MetaAddress)
    requires IsPath(m, p) && t in m[p[|p| - 1]] && t in m
    ensures IsPath(m, p + [t])
  {
    var q := p + [t];
    forall i | 0 <= i < |q| - 1
      ensures q[i] in m && q[i + 1] in m[q[i]]
    {
      if i < |p| - 1 {
        assert q[i] == p[i] && q[i + 1] == p[i + 1];
      }
    }
  }

  /** A set holding the start of a path and closed under successors holds the whole path. */
  lemma {:induction false} ClosedSetHoldsPath(m: Graph, s: set<MetaAddress>, p: seq<MetaAddress>)
    requires IsPath(m, p) && p[0] in s
    requires forall a :: a in s && a in m ==> forall t :: t in m[a] ==> t in s
    ensures p[|p| - 1] in s
    decreases |p|
  {
    if |p| > 1 {
      var q := p[..|p| - 1];
      assert IsPath(m, q) by {
        forall i | 0 <= i < |q| - 1
          ensures q[i] in m && q[i + 1] in m[q[i]]
        {
          assert q[i] == p[i] && q[i + 1] == p[i + 1];
        }
      }
      ClosedSetHoldsPath(m, s, q);
      assert p[|p| - 2] == q[|q| - 1];
      assert p[|p| - 2] in m && p[|p| - 1] in m[p[|p| - 2]];
    }
  }

  /** Every visited node has a recorded path from the entry. */
  ghost predicate Witnessed(m: Graph, entry: MetaAddress, paths: map<MetaAddress, seq<MetaAddress>>,
                            visited: set<MetaAddress>)
  {
    forall v :: v in visited ==> v in paths && IsPath(m, paths[v]) && paths[v][0] == entry
                                 && paths[v][|paths[v]| - 1] == v
  }

  /** `FunctionCFG`: the entry address and the nodes created so far with their successors. */
  class FunctionCFG {
    const entry: MetaAddress
    var successors: Graph

    constructor(entry: MetaAddress)
      ensures this.entry == entry && successors == map[]
    {
      this.entry := entry;
      successors := map[];
    }

    /**
     * `get`: the node of `ma`; the first request for an address creates its
     * node, later requests return that same node and change nothing.
     */
    method Get(ma: MetaAddress) returns (node: MetaAddress)
      modifies this
      ensures node == ma && node in successors
      ensures successors == Touch(old(successors), ma)
      ensures ma in old(successors) ==> successors == old(successors)
    {
      if ma !in successors {
        successors := successors[ma := []];
      }
      node := ma;
    }

    /** `addSuccessor`: appends one successor to a node. */
    method AddSuccessor(source: MetaAddress, target: MetaAddress)
      requires source in successors
      modifies this
      ensures successors == old(successors)[source := old(successors)[source] + [target]]
    {
      successors := successors[source := successors[source] + [target]];
    }

    /** One iteration of the block loop of `getGraph`: the source node, then each edge in turn. */
    method AddBlock(block: BasicBlock)
      requires BlockDrawable(block)
      modifies this
      ensures successors == BlockGraph(old(successors), block, |block.successors|)
    {
      var source := Get(block.start);
      for j := 0 to |block.successors|
        invariant source == block.start
        invariant successors == BlockGraph(old(successors), block, j)
      {
        var target := Get(EdgeTarget(block, block.successors[j]));
        AddSuccessor(source, target);
      }
    }

    /** `hasOnlyInvalidExits`: walks `Map` looking for a valid address without successors. */
    method HasOnlyInvalidExits() returns (ok: bool)
      ensures ok <==> OnlyInvalidExits(successors)
    {
      var remaining := successors.Keys;
      while remaining != {}
        invariant remaining <= successors.Keys
        invariant forall a :: a in successors && a !in remaining && a.IsValid() ==> |successors[a]| > 0
        decreases |remaining|
      {
        var a :| a in remaining;
        if a.IsValid() && |successors[a]| == 0 {
          return false;
        }
        remaining := remaining - {a};
      }
      return true;
    }

    /**
     * `allNodesAreReachable`: true for an empty graph; otherwise a depth-first
     * visit from the entry node must reach as many nodes as the graph has.
     */
    method AllNodesAreReachable() returns (ok: bool)
      requires Closed(successors)
      requires |successors| > 0 ==> entry in successors
      ensures ok <==> |successors| == 0 || AllReachable(successors, entry)
    {
      if |successors| == 0 {
        return true;
      }
      var visited := Visit(successors, entry);
      ok := |visited| == |successors|;
      if ok {
        Sets.SubsetCardinality(visited, successors.Keys);
        if visited != successors.Keys {
          Sets.ProperSubsetCardinality(visited, successors.Keys);
        }
      }
      assert visited == successors.Keys <==> AllReachable(successors, entry) by {
        if visited == successors.Keys {
          assert forall a :: a in successors ==> a in visited;
        } else {
          var a :| a in successors && a !in visited;
          assert !Reachable(successors, entry, a);
        }
      }
    }
  }

  /**
   * `getGraph`: one node per block start, edge target, block end after a call
   * and invalid address, with the successors in the order the edges are
   * listed; `revng_abort` on an invalid or `Count` edge is the precondition.
   */
  method GetGraph(f: Function) returns (g: FunctionCFG)
    requires AllDrawable(f.cfg)
    ensures fresh(g) && g.entry == f.entry && g.successors == GraphOf(f.cfg)
  {
    g := new FunctionCFG(f.entry);
    for i := 0 to |f.cfg|
      invariant g.successors == GraphOf(f.cfg[..i])
    {
      assert f.cfg[..i + 1][..i] == f.cfg[..i];
      g.AddBlock(f.cfg[i]);
    }
    assert f.cfg[..|f.cfg|] == f.cfg;
  }

  /**
   * The visit `depth_first_ext` performs from the entry node: a work list of
   * visited nodes whose successors are still to be explored.
   */
  method Visit(m: Graph, entry: MetaAddress) returns (visited: set<MetaAddress>)
    requires Closed(m) && entry in m
    ensures visited <= m.Keys
    ensures forall a :: a in visited <==> Reachable(m, entry, a)
  {
    visited := {entry};
    var pending := {entry};
    ghost var paths: map<MetaAddress, seq<MetaAddress>> := map[entry := [entry]];
    while pending != {}
      invariant visited <= m.Keys && entry in visited && pending <= visited
      invariant Witnessed(m, entry, paths, visited)
      invariant Explored(m, visited, pending)
      decreases |m.Keys - visited|, |pending|
    {
      var v :| v in pending;
      var found := set t | t in m[v] && t !in visited;
      paths := VisitStep(m, entry, paths, visited, v, found);
      ExploredStep(m, visited, pending, v, found);
      VisitProgress(m.Keys, visited, pending, v, found);
      visited := visited + found;
      pending := pending - {v} + found;
    }
    forall a | Reachable(m, entry, a)
      ensures a in visited
    {
      var p :| IsPath(m, p) && p[0] == entry && p[|p| - 1] == a;
      ClosedSetHoldsPath(m, visited, p);
    }
  }

  /** Each round either visits a new node or shrinks the work list. */
  lemma VisitProgress<T>(keys: set<T>, visited: set<T>, pending: set<T>, v: T, found: set<T>)
    requires found <= keys && v in pending
    requires forall t :: t in found ==> t !in visited
    ensures |keys - (visited + found)| < |keys - visited|
            || (visited + found == visited && |pending - {v} + found| < |pending|)
  {
    if found != {} {
      var t :| t in found;
      assert keys - (visited + found) < keys - visited;
      Sets.ProperSubsetCardinality(keys - (visited + found), keys - visited);
    } else {
      assert pending - {v} + found < pending;
      Sets.ProperSubsetCardinality(pending - {v} + found, pending);
    }
  }

  /** Every visited node off the work list has all its successors visited. */
  ghost predicate Explored(m: Graph, visited: set<MetaAddress>, pending: set<MetaAddress>)
    requires visited <= m.Keys
  {
    forall x :: x in visited && x !in pending ==> forall t :: t in m[x] ==> t in visited
  }

  /** Exploring `v` keeps every node off the work list explored. */
  lemma ExploredStep(m: Graph, visited: set<MetaAddress>, pending: set<MetaAddress>, v: MetaAddress,
                     found: set<MetaAddress>)
    requires visited <= m.Keys && v in pending && pending <= visited && Explored(m, visited, pending)
    requires forall t :: t in m[v] ==> t in visited || t in found
    requires visited + found <= m.Keys
    ensures Explored(m, visited + found, pending - {v} + found)
  {
  }

  /** The paths to newly found successors of `v` extend the path to `v` by one edge. */
  lemma VisitStep(m: Graph, entry: MetaAddress, paths: map<MetaAddress, seq<MetaAddress>>,
                  visited: set<MetaAddress>, v: MetaAddress, found: set<MetaAddress>)
    returns (paths': map<MetaAddress, seq<MetaAddress>>)
    requires Closed(m) && visited <= m.Keys && v in visited
    requires Witnessed(m, entry, paths, visited)
    requires forall t :: t in found ==> t in m[v]
    ensures Witnessed(m, entry, paths', visited + found)
    ensures forall a :: a in visited + found ==> Reachable(m, entry, a)
  {
    paths' := map x | x in paths.Keys + found :: if x in found then paths[v] + [x] else paths[x];
    forall t | t in found
      ensures IsPath(m, paths'[t])
    {
      ExtendPath(m, paths[v], t);
    }
    forall a | a in visited + found
      ensures Reachable(m, entry, a)
    {
      assert IsPath(m, paths'[a]);
    }
  }
}
