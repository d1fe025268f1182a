/**
 * A node of a RegionCFG: a basic block, a collapsed region or one of the
 * artificial nodes the restructuring inserts, with its labelled successor and
 * predecessor lists.
 *
 * Nodes live in the RegionCFG that owns them and refer to each other by their
 * ID inside that graph; the original LLVM basic block and a collapsed region
 * are likewise opaque identifiers.
 */
module BasicBlockNodes {
  import opened Wrappers
  import opened Sequences
  import opened Strings
  import opened MachineInts

  datatype NodeType = Code | Empty | Break | Continue | Set | Collapsed | Dispatcher

  /** The labels (a set of 64-bit values) of an edge and whether it is an inlined path. */
  datatype EdgeInfo = EdgeInfo(labels: set<uint64>, inlined: bool)

  /** `EdgeInfo()`: no label and not inlined. */
  const PlainEdge: EdgeInfo := EdgeInfo({}, false)

  type NodeId = nat

  /** A successor or predecessor entry: the node at the other end and the edge data. */
  type Link = (NodeId, EdgeInfo)

  /** The nodes at the other end of each link, in list order. */
  function Targets(links: seq<Link>): (r: seq<NodeId>)
    ensures |r| == |links|
    ensures forall i :: 0 <= i < |links| ==> r[i] == links[i].0
  {
    seq(|links|, i requires 0 <= i < |links| => links[i].0)
  }

  /** No two links lead to the same node. */
  predicate DistinctTargets(links: seq<Link>)
  {
    forall i, j :: 0 <= i < j < |links| ==> links[i].0 != links[j].0
  }

  /** The name-only constructor accepts exactly these types. */
  predicate IsNameOnlyType(t: NodeType)
  {
    t == Empty || t == Break || t == Continue || t == Dispatcher
  }

  class BasicBlockNode {
    /** Unique node ID inside the owning RegionCFG. */
    const id: NodeId
    /** The owning RegionCFG. */
    var parent: nat
    /** The collapsed RegionCFG this node stands for (null unless the node is Collapsed). */
    var collapsedRegion: Option<nat>
    var nodeType: NodeType
    var name: string
    var stateVariableValue: uint32
    var successors: seq<Link>
    var predecessors: seq<Link>
    /** The original basic block (null for artificial and collapsed nodes). */
    var originalNode: Option<nat>
    var weaved: bool

    /** The lists never hold two links to the same node. */
    ghost predicate Valid()
      reads this
    {
      DistinctTargets(successors) && DistinctTargets(predecessors)
    }

    /** Node for an LLVM basic block. */
    constructor CodeNode(parentRegion: nat, newId: NodeId, original: Option<nat>, blockName: string)
      ensures Valid()
      ensures id == newId && parent == parentRegion && nodeType == Code
      ensures originalNode == original && collapsedRegion == None && name == blockName
      ensures stateVariableValue == 0 && successors == [] && predecessors == [] && !weaved
    {
      id := newId;
      parent := parentRegion;
      originalNode := original;
      collapsedRegion := None;
      name := blockName;
      nodeType := Code;
      stateVariableValue := 0;
      successors := [];
      predecessors := [];
      weaved := false;
    }

    /** Node standing for a collapsed subgraph. */
    constructor CollapsedNode(parentRegion: nat, newId: NodeId, collapsed: nat)
      ensures Valid()
      ensures id == newId && parent == parentRegion && nodeType == Collapsed
      ensures originalNode == None && collapsedRegion == Some(collapsed) && name == "collapsed"
      ensures stateVariableValue == 0 && successors == [] && predecessors == [] && !weaved
    {
      id := newId;
      parent := parentRegion;
      originalNode := None;
      collapsedRegion := Some(collapsed);
      name := "collapsed";
      nodeType := Collapsed;
      stateVariableValue := 0;
      successors := [];
      predecessors := [];
      weaved := false;
    }

    /** Empty dummy, break, continue or dispatcher node. */
    constructor NamedNode(parentRegion: nat, newId: NodeId, nodeName: string, t: NodeType)
      requires IsNameOnlyType(t)
      ensures Valid()
      ensures id == newId && parent == parentRegion && nodeType == t
      ensures originalNode == None && collapsedRegion == None && name == nodeName
      ensures stateVariableValue == 0 && successors == [] && predecessors == [] && !weaved
    {
      id := newId;
      parent := parentRegion;
      originalNode := None;
      collapsedRegion := None;
      name := nodeName;
      nodeType := t;
      stateVariableValue := 0;
      successors := [];
      predecessors := [];
      weaved := false;
    }

    /** Dummy node that sets the state variable to `value`. */
    constructor SetNode(parentRegion: nat, newId: NodeId, nodeName: string, t: NodeType, value: uint32)
      requires t == Set
      ensures Valid()
      ensures id == newId && parent == parentRegion && nodeType == Set
      ensures originalNode == None && collapsedRegion == None && name == nodeName
      ensures stateVariableValue == value && successors == [] && predecessors == [] && !weaved
    {
      id := newId;
      parent := parentRegion;
      originalNode := None;
      collapsedRegion := None;
      name := nodeName;
      nodeType := t;
      stateVariableValue := value;
      successors := [];
      predecessors := [];
      weaved := false;
    }

    /** Copy of `other` in `parentRegion`, with a new ID and no edges. */
    constructor Clone(other: BasicBlockNode, parentRegion: nat, newId: NodeId)
      ensures Valid()
      ensures id == newId && parent == parentRegion
      ensures originalNode == other.originalNode && collapsedRegion == other.collapsedRegion
      ensures name == other.name && nodeType == other.nodeType
      ensures stateVariableValue == other.stateVariableValue
      ensures successors == [] && predecessors == [] && !weaved
    {
      id := newId;
      parent := parentRegion;
      originalNode := other.originalNode;
      collapsedRegion := other.collapsedRegion;
      name := other.name;
      nodeType := other.nodeType;
      stateVariableValue := other.stateVariableValue;
      successors := [];
      predecessors := [];
      weaved := false;
    }

    predicate IsCode() reads this { nodeType == Code }
    predicate IsEmpty() reads this { nodeType == Empty }
    predicate IsSet() reads this { nodeType == Set }
    predicate IsCollapsed() reads this { nodeType == Collapsed }
    predicate IsDispatcher() reads this { nodeType == Dispatcher }

    /** A node the restructuring made up: neither a basic block nor a collapsed region. */
    predicate IsArtificial()
      reads this
      ensures IsArtificial() <==> nodeType in {Empty, Break, Continue, Set, Dispatcher}
    {
      nodeType != Code && nodeType != Collapsed
    }

    /** The value a Set node stores into the state variable. */
    function GetStateVariableValue(): uint32
      reads this
      requires IsSet()
    {
      stateVariableValue
    }

    /** The original basic block of a Code node. */
    function GetOriginalNode(): (bb: nat)
      reads this
      requires IsCode() && originalNode.Some?
      ensures Some(bb) == originalNode
    {
      originalNode.value
    }

    /** `"ID:" + id + " " + name`. */
    function GetNameStr(): (s: string)
      reads this
      ensures |s| > 4 + |name| && s[..3] == "ID:" && s[|s| - |name|..] == name
      ensures var digits := s[3..|s| - |name| - 1];
        AllDigits(digits) && DecimalValue(digits) == id && s[|s| - |name| - 1] == ' '
    {
      var digits := NatToString(id);
      DecimalRoundTrip(id);
      var s := "ID:" + digits + " " + name;
      assert s[3..|s| - |name| - 1] == digits;
      s
    }

    /** There is a successor link to `candidate` (a `std::find` over the successor nodes). */
    predicate HasSuccessor(candidate: NodeId)
      reads this
      ensures HasSuccessor(candidate) <==> exists i :: 0 <= i < |successors| && successors[i].0 == candidate
    {
      FindIndex(Targets(successors), candidate) < |successors|
    }

    /** There is a predecessor link to `candidate`. */
    predicate HasPredecessor(candidate: NodeId)
      reads this
      ensures HasPredecessor(candidate) <==> exists i :: 0 <= i < |predecessors| && predecessors[i].0 == candidate
    {
      FindIndex(Targets(predecessors), candidate) < |predecessors|
    }

    method SetParent(p: nat)
      modifies this`parent
      ensures parent == p
    {
      parent := p;
    }

    method SetName(n: string)
      modifies this`name
      ensures name == n
    {
      name := n;
    }

    method AddLabeledSuccessor(p: Link)
      requires Valid() && !HasSuccessor(p.0)
      modifies this`successors
      ensures Valid() && HasSuccessor(p.0)
      ensures successors == old(successors) + [p]
    {
      successors := successors + [p];
      assert successors[|successors| - 1].0 == p.0;
    }

    method AddUnlabeledSuccessor(s: NodeId)
      requires Valid() && !HasSuccessor(s)
      modifies this`successors
      ensures Valid() && HasSuccessor(s)
      ensures successors == old(successors) + [(s, EdgeInfo({}, false))]
    {
      AddLabeledSuccessor((s, PlainEdge));
    }

    method AddLabeledPredecessor(p: Link)
      requires Valid() && !HasPredecessor(p.0)
      modifies this`predecessors
      ensures Valid() && HasPredecessor(p.0)
      ensures predecessors == old(predecessors) + [p]
    {
      predecessors := predecessors + [p];
      assert predecessors[|predecessors| - 1].0 == p.0;
    }

    method AddUnlabeledPredecessor(p: NodeId)
      requires Valid() && !HasPredecessor(p)
      modifies this`predecessors
      ensures Valid() && HasPredecessor(p)
      ensures predecessors == old(predecessors) + [(p, EdgeInfo({}, false))]
    {
      AddLabeledPredecessor((p, PlainEdge));
    }

    /** Drops the link to `s`; the other links keep their order. */
    method RemoveSuccessor(s: NodeId)
      requires Valid()
      modifies this`successors
      ensures Valid() && !HasSuccessor(s)
      ensures successors == RemoveLinksTo(old(successors), s)
    {
      RemoveLinksToKeepsNoDuplicates(successors, s);
      successors := RemoveLinksTo(successors, s);
    }

    /** Drops the link to `p`; the other links keep their order. */
    method RemovePredecessor(p: NodeId)
      requires Valid()
      modifies this`predecessors
      ensures Valid() && !HasPredecessor(p)
      ensures predecessors == RemoveLinksTo(old(predecessors), p)
    {
      RemoveLinksToKeepsNoDuplicates(predecessors, p);
      predecessors := RemoveLinksTo(predecessors, p);
    }
  }

  /** The links that do not lead to `n`, in their original order. */
  function RemoveLinksTo(links: seq<Link>, n: NodeId): (r: seq<Link>)
    ensures |r| <= |links|
    ensures forall l :: l in r <==> l in links && l.0 != n
  {
    if links == [] then []
    else if links[0].0 == n then RemoveLinksTo(links[1..], n)
    else [links[0]] + RemoveLinksTo(links[1..], n)
  }

  lemma {:induction false} RemoveLinksToKeepsNoDuplicates(links: seq<Link>, n: NodeId)
    requires DistinctTargets(links)
    ensures DistinctTargets(RemoveLinksTo(links, n))
    ensures (exists i :: 0 <= i < |links| && links[i].0 == n) ==> |RemoveLinksTo(links, n)| == |links| - 1
    ensures (forall i :: 0 <= i < |links| ==> links[i].0 != n) ==> RemoveLinksTo(links, n) == links
  {
    if links != [] {
      var tail := links[1..];
      assert DistinctTargets(tail);
      RemoveLinksToKeepsNoDuplicates(tail, n);
      var r := RemoveLinksTo(tail, n);
      if links[0].0 != n {
        assert forall l :: l in r ==> l in tail;
        assert forall k :: 0 <= k < |tail| ==> tail[k].0 != links[0].0;
        forall i, j | 0 <= i < j < |[links[0]] + r|
          ensures ([links[0]] + r)[i].0 != ([links[0]] + r)[j].0
        {
          if i == 0 {
            assert ([links[0]] + r)[j] in r;
          }
        }
        if exists i :: 0 <= i < |links| && links[i].0 == n {
          var i :| 0 <= i < |links| && links[i].0 == n;
          assert tail[i - 1].0 == n;
        }
      }
    }
  }
}
