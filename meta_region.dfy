/**
 * A meta region: a set of RegionCFG nodes (by node ID) that forms, or is being
 * grown into, a strongly connected subgraph, with its index, its parent in the
 * region nesting and whether it is an SCS.
 */
module MetaRegions {
  import opened BasicBlockNodes

  /** The node sets share a node. */
  predicate Intersects(a: set<NodeId>, b: set<NodeId>)
  {
    a * b != {}
  }

  /** Every node of `a` is in `b` (the relation is not strict). */
  predicate IsSubSet(a: set<NodeId>, b: set<NodeId>)
  {
    a <= b
  }

  lemma IntersectsIff(a: set<NodeId>, b: set<NodeId>)
    ensures Intersects(a, b) <==> exists n :: n in a && n in b
  {
    if Intersects(a, b) {
      var n :| n in a * b;
      assert n in a && n in b;
    }
    if exists n :: n in a && n in b {
      var n :| n in a && n in b;
      assert n in a * b;
    }
  }

  class MetaRegion {
    const index: int
    var nodes: set<NodeId>
    /** The innermost region this one is nested in; null until it is set. */
    var parentRegion: MetaRegion?
    const isSCS: bool

    /** Index, node set and SCS flag (false unless given); the parent is not set yet. */
    constructor (idx: int, regionNodes: set<NodeId>, scs: bool := false)
      ensures index == idx && nodes == regionNodes && isSCS == scs && parentRegion == null
    {
      index := idx;
      nodes := regionNodes;
      isSCS := scs;
      parentRegion := null;
    }

    method SetParent(p: MetaRegion?)
      modifies this`parentRegion
      ensures GetParent() == p
    {
      parentRegion := p;
    }

    function GetParent(): MetaRegion?
      reads this
    {
      parentRegion
    }

    function NodesSize(): (n: nat)
      reads this
      ensures n == |nodes|
    {
      |nodes|
    }

    predicate ContainsNode(n: NodeId)
      reads this
    {
      n in nodes
    }

    method InsertNode(n: NodeId)
      modifies this`nodes
      ensures ContainsNode(n)
      ensures nodes == old(nodes) + {n}
    {
      nodes := nodes + {n};
    }

    method RemoveNode(n: NodeId)
      modifies this`nodes
      ensures !ContainsNode(n)
      ensures nodes == old(nodes) - {n}
    {
      nodes := nodes - {n};
    }

    /** Adds the nodes of `other`; `other` itself is not touched. */
    method MergeWith(other: MetaRegion)
      modifies this`nodes
      ensures nodes == old(nodes) + old(other.nodes)
      ensures other != this ==> other.nodes == old(other.nodes)
      ensures IsSubSet(old(nodes), nodes) && IsSubSet(other.nodes, nodes)
    {
      nodes := nodes + other.nodes;
    }

    predicate IntersectsWith(other: MetaRegion)
      reads this, other
      ensures IntersectsWith(other) <==> exists n :: n in nodes && n in other.nodes
    {
      IntersectsIff(nodes, other.nodes);
      Intersects(nodes, other.nodes)
    }

    predicate IsSubSetOf(other: MetaRegion)
      reads this, other
      ensures IsSubSetOf(other) <==> forall n :: n in nodes ==> n in other.nodes
    {
      IsSubSet(nodes, other.nodes)
    }

    predicate IsSuperSetOf(other: MetaRegion)
      reads this, other
      ensures IsSuperSetOf(other) <==> other.IsSubSetOf(this)
    {
      other.nodes <= nodes
    }

    predicate NodesEquality(other: MetaRegion)
      reads this, other
      ensures NodesEquality(other) <==> IsSubSetOf(other) && other.IsSubSetOf(this)
    {
      nodes == other.nodes
    }
  }
}
