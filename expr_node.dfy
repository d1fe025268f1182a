/**
 * The boolean condition expressions attached to AST `if` nodes: an atomic
 * condition (the basic block whose terminator decides it), its negation, and
 * the conjunction and disjunction of two expressions.
 *
 * Expression nodes are immutable once built. Children are referred to by
 * their address in the owning AST's expression list (`ExprPtr`), and the
 * conditional basic block is an opaque identifier.
 */
module ExprNodes {

  type ExprPtr = nat

  /** An LLVM basic block, by identity. */
  type BlockRef = nat

  /** The kind tag, listed in declaration order. */
  datatype NodeKind = AtomicKind | NotKind | AndKind | OrKind

  datatype ExprNode =
    | AtomicNode(conditionBB: BlockRef)
    | NotNode(child: ExprPtr)
    | AndNode(left: ExprPtr, right: ExprPtr)
    | OrNode(left: ExprPtr, right: ExprPtr)

  /** `getKind`: the tag each constructor stores. */
  function GetKind(e: ExprNode): (k: NodeKind)
    ensures k == AtomicKind <==> e.AtomicNode?
    ensures k == NotKind <==> e.NotNode?
    ensures k == AndKind <==> e.AndNode?
    ensures k == OrKind <==> e.OrNode?
  {
    match e
    case AtomicNode(_) => AtomicKind
    case NotNode(_) => NotKind
    case AndNode(_, _) => AndKind
    case OrNode(_, _) => OrKind
  }

  /** The position of a kind in the enumeration, which is its integer value. */
  function Ordinal(k: NodeKind): (n: nat)
    ensures n < 4
  {
    match k
    case AtomicKind => 0
    case NotKind => 1
    case AndKind => 2
    case OrKind => 3
  }

  predicate IsAtomic(e: ExprNode) { GetKind(e) == AtomicKind }
  predicate IsNot(e: ExprNode) { GetKind(e) == NotKind }
  predicate IsAnd(e: ExprNode) { GetKind(e) == AndKind }
  predicate IsOr(e: ExprNode) { GetKind(e) == OrKind }

  /** `BinaryNode::classof`: the kind lies between `NK_And` and `NK_Or` inclusive. */
  predicate IsBinary(e: ExprNode)
  {
    Ordinal(AndKind) <= Ordinal(GetKind(e)) <= Ordinal(OrKind)
  }

  /** The range test of BinaryNode::classof selects exactly the And and Or nodes. */
  lemma BinaryIsAndOrOr(e: ExprNode)
    ensures IsBinary(e) <==> IsAnd(e) || IsOr(e)
    ensures IsBinary(e) <==> !IsAtomic(e) && !IsNot(e)
  {
  }

  /** Exactly one of the four leaf-class tests holds for every node. */
  lemma ClassofExclusive(e: ExprNode)
    ensures IsAtomic(e) || IsNot(e) || IsAnd(e) || IsOr(e)
    ensures IsAtomic(e) ==> !IsNot(e) && !IsAnd(e) && !IsOr(e)
    ensures IsNot(e) ==> !IsAnd(e) && !IsOr(e)
    ensures IsAnd(e) ==> !IsOr(e)
  {
  }

  /** `AtomicNode::getConditionalBasicBlock`: the block given at construction. */
  function GetConditionalBasicBlock(e: ExprNode): (bb: BlockRef)
    requires IsAtomic(e)
    ensures e == AtomicNode(bb)
  {
    e.conditionBB
  }

  /** `NotNode::getNegatedNode`: the child given at construction. */
  function GetNegatedNode(e: ExprNode): (c: ExprPtr)
    requires IsNot(e)
    ensures e == NotNode(c)
  {
    e.child
  }

  /** `BinaryNode::getInternalNodes`: the (left, right) pair given at construction. */
  function GetInternalNodes(e: ExprNode): (p: (ExprPtr, ExprPtr))
    requires IsBinary(e)
    ensures IsAnd(e) ==> e == AndNode(p.0, p.1)
    ensures IsOr(e) ==> e == OrNode(p.0, p.1)
  {
    (e.left, e.right)
  }
}
