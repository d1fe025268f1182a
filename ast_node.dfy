/**
 * The nodes of the abstract syntax tree the restructuring builds: code,
 * break, continue, if, loop (SCS), sequence, switch, switch-break and
 * set-state nodes.
 *
 * Every node lives at an address (`Ptr`) in the store of the AST that owns
 * it, and refers to other nodes by address, so a pointer that still leads
 * into another tree stays visible. The operations that update a node in
 * place are modelled as functions from the node's old value to its new one;
 * the owning tree writes the result back at the node's address.
 */
module ASTNodes {
  import opened Wrappers
  import opened MachineInts
  import opened Sequences
  import ExprNodes
  import BasicBlockNodes

  /** The address of an AST node. */
  type Ptr = nat

  /** An LLVM basic block, by identity. */
  type BlockRef = ExprNodes.BlockRef

  /** The LLVM value a switch dispatches on, by identity. */
  type ValueRef = nat

  datatype NodeKind =
    | CodeKind | BreakKind | ContinueKind | IfKind | ScsKind | ListKind | SwitchKind | SwitchBreakKind | SetKind

  datatype LoopType = Standard | While | DoWhile

  /** The case values of one switch case and the node it leads to. */
  type LabeledCase = (set<uint64>, Ptr)

  /** The fields of each node kind beyond the common ones. */
  datatype Variant =
    | Code
    | Break(breakFromWithinSwitch: bool)
    | Continue(computationIf: Option<Ptr>, isImplicit: bool)
    | If(thenBranch: Option<Ptr>, elseBranch: Option<Ptr>, condExpr: Option<ExprNodes.ExprPtr>)
    | Scs(body: Option<Ptr>, loopType: LoopType, relatedCondition: Option<Ptr>)
    | Sequence(nodeList: seq<Ptr>)
    | Switch(condition: ValueRef, cases: seq<LabeledCase>, defaultCase: Option<Ptr>, isWeaved: bool,
             needStateVariable: bool, needLoopBreakDispatcher: bool)
    | SwitchBreak
    | SetState(stateVariableValue: uint32)

  /**
   * An AST node: its kind-specific fields, the original basic block (null
   * unless built from a code node), its name, the node that follows it while
   * the tree is being built, its ID inside the tree and whether its CFG node
   * was an empty dummy.
   */
  datatype ASTNode = ASTNode(variant: Variant, bb: Option<BlockRef>, name: string, successor: Option<Ptr>,
                             id: nat, isEmpty: bool)

  /** `getKind`: one tag per variant. */
  function Kind(n: ASTNode): (k: NodeKind)
    ensures k == CodeKind <==> n.variant.Code?
    ensures k == BreakKind <==> n.variant.Break?
    ensures k == ContinueKind <==> n.variant.Continue?
    ensures k == IfKind <==> n.variant.If?
    ensures k == ScsKind <==> n.variant.Scs?
    ensures k == ListKind <==> n.variant.Sequence?
    ensures k == SwitchKind <==> n.variant.Switch?
    ensures k == SwitchBreakKind <==> n.variant.SwitchBreak?
    ensures k == SetKind <==> n.variant.SetState?
  {
    match n.variant
    case Code => CodeKind
    case Break(_) => BreakKind
    case Continue(_, _) => ContinueKind
    case If(_, _, _) => IfKind
    case Scs(_, _, _) => ScsKind
    case Sequence(_) => ListKind
    case Switch(_, _, _, _, _, _) => SwitchKind
    case SwitchBreak => SwitchBreakKind
    case SetState(_) => SetKind
  }

  // ---------------------------------------------------------------------
  // Construction

  /**
   * The common fields of a node built from a CFG node: the original block is
   * kept only for code nodes, and the name is the CFG node's printable name.
   */
  function FromCFGNode(v: Variant, cfg: BasicBlockNodes.BasicBlockNode, successor: Option<Ptr>): (n: ASTNode)
    reads cfg
    requires cfg.IsCode() ==> cfg.originalNode.Some?
    ensures n.variant == v && n.successor == successor && n.id == 0
    ensures n.isEmpty <==> cfg.nodeType == BasicBlockNodes.Empty
    ensures n.bb.Some? <==> cfg.nodeType == BasicBlockNodes.Code
    ensures n.bb.Some? ==> n.bb == cfg.originalNode
  {
    ASTNode(v, if cfg.IsCode() then Some(cfg.GetOriginalNode()) else None, cfg.GetNameStr(), successor, 0, cfg.IsEmpty())
  }

  /** A set-state node takes its value from a Set CFG node. */
  function NewSetNode(cfg: BasicBlockNodes.BasicBlockNode, successor: Option<Ptr>): (n: ASTNode)
    reads cfg
    requires cfg.IsSet()
    ensures Kind(n) == SetKind && n.variant.stateVariableValue == cfg.stateVariableValue
    ensures n.bb == None && n.successor == successor
  {
    FromCFGNode(SetState(cfg.GetStateVariableValue()), cfg, successor)
  }

  /** A new switch needs neither a state variable nor a loop-break dispatcher. */
  function NewSwitchNode(name: string, condition: ValueRef, cases: seq<LabeledCase>, defaultCase: Option<Ptr>,
                         successor: Option<Ptr>, weaved: bool): (n: ASTNode)
    ensures Kind(n) == SwitchKind && n.bb == None
    ensures !NeedsStateVariable(n) && !NeedsLoopBreakDispatcher(n)
    ensures n.variant.cases == cases && n.variant.defaultCase == defaultCase
  {
    ASTNode(Switch(condition, cases, defaultCase, weaved, false, false), None, name, successor, 0, false)
  }

  /** `Clone`: a copy of the node, of the same kind and with the same fields. */
  function Clone(n: ASTNode): (c: ASTNode)
    ensures Kind(c) == Kind(n)
    ensures c.variant == n.variant && c.bb == n.bb && c.successor == n.successor
  {
    n
  }

  // ---------------------------------------------------------------------
  // If nodes

  predicate HasThen(n: ASTNode)
    requires n.variant.If?
  {
    n.variant.thenBranch != None
  }

  predicate HasElse(n: ASTNode)
    requires n.variant.If?
  {
    n.variant.elseBranch != None
  }

  /** `hasBothBranches`: both branch pointers are non-null. */
  predicate HasBothBranches(n: ASTNode)
    requires n.variant.If?
    ensures HasBothBranches(n) <==> HasThen(n) && HasElse(n)
    ensures HasBothBranches(n) <==> n.variant.thenBranch.Some? && n.variant.elseBranch.Some?
  {
    if n.variant.thenBranch != None && n.variant.elseBranch != None then true else false
  }

  /** `setThen`: replaces the then branch and nothing else. */
  function SetThen(n: ASTNode, p: Option<Ptr>): (r: ASTNode)
    requires n.variant.If?
    ensures Kind(r) == IfKind && r.variant.thenBranch == p
    ensures r.variant.elseBranch == n.variant.elseBranch && r.variant.condExpr == n.variant.condExpr
    ensures r.bb == n.bb && r.successor == n.successor && r.id == n.id
    ensures HasThen(r) <==> p.Some?
  {
    n.(variant := n.variant.(thenBranch := p))
  }

  /** `setElse`: replaces the else branch and nothing else. */
  function SetElse(n: ASTNode, p: Option<Ptr>): (r: ASTNode)
    requires n.variant.If?
    ensures Kind(r) == IfKind && r.variant.elseBranch == p
    ensures r.variant.thenBranch == n.variant.thenBranch && r.variant.condExpr == n.variant.condExpr
    ensures r.bb == n.bb && r.successor == n.successor && r.id == n.id
    ensures HasElse(r) <==> p.Some?
  {
    n.(variant := n.variant.(elseBranch := p))
  }

  /**
   * `updateCondExprPtr`: the condition is replaced by its image in `m`. The
   * lookup is `operator[]`, so a condition missing from the map becomes null.
   */
  function UpdateCondExprPtr(n: ASTNode, m: map<ExprNodes.ExprPtr, ExprNodes.ExprPtr>): (r: ASTNode)
    requires n.variant.If? && n.variant.condExpr.Some?
    ensures Kind(r) == IfKind
    ensures n.variant.condExpr.value in m ==> r.variant.condExpr == Some(m[n.variant.condExpr.value])
    ensures n.variant.condExpr.value !in m ==> r.variant.condExpr == None
    ensures r == n.(variant := n.variant.(condExpr := r.variant.condExpr))
  {
    var c := n.variant.condExpr.value;
    n.(variant := n.variant.(condExpr := if c in m then Some(m[c]) else None))
  }

  // ---------------------------------------------------------------------
  // Loop (SCS) nodes

  predicate IsStandard(n: ASTNode) requires n.variant.Scs? { n.variant.loopType == Standard }
  predicate IsWhile(n: ASTNode) requires n.variant.Scs? { n.variant.loopType == While }
  predicate IsDoWhile(n: ASTNode) requires n.variant.Scs? { n.variant.loopType == DoWhile }

  /** `setWhile`: the loop becomes a while loop guarded by `condition`. */
  function SetWhile(n: ASTNode, condition: Option<Ptr>): (r: ASTNode)
    requires n.variant.Scs?
    ensures Kind(r) == ScsKind && IsWhile(r) && !IsStandard(r) && !IsDoWhile(r)
    ensures r.variant.relatedCondition == condition && r.variant.body == n.variant.body
    ensures condition.Some? ==> GetRelatedCondition(r) == condition.value
  {
    n.(variant := n.variant.(loopType := While, relatedCondition := condition))
  }

  /** `setDoWhile`: the loop becomes a do-while loop guarded by `condition`. */
  function SetDoWhile(n: ASTNode, condition: Option<Ptr>): (r: ASTNode)
    requires n.variant.Scs?
    ensures Kind(r) == ScsKind && IsDoWhile(r) && !IsStandard(r) && !IsWhile(r)
    ensures r.variant.relatedCondition == condition && r.variant.body == n.variant.body
    ensures condition.Some? ==> GetRelatedCondition(r) == condition.value
  {
    n.(variant := n.variant.(loopType := DoWhile, relatedCondition := condition))
  }

  /** `getRelatedCondition`: only defined on while and do-while loops that have one. */
  function GetRelatedCondition(n: ASTNode): (c: Ptr)
    requires n.variant.Scs? && n.variant.loopType != Standard && n.variant.relatedCondition.Some?
    ensures n.variant.relatedCondition == Some(c)
  {
    n.variant.relatedCondition.value
  }

  // ---------------------------------------------------------------------
  // Continue nodes

  /** `addComputationIfNode`: records the if node computing the loop condition; none may be recorded yet. */
  function AddComputationIfNode(n: ASTNode, ifNode: Ptr): (r: ASTNode)
    requires n.variant.Continue? && n.variant.computationIf.None?
    ensures Kind(r) == ContinueKind && r.variant.computationIf.Some?
    ensures GetComputationIfNode(r) == ifNode
    ensures r.variant.isImplicit == n.variant.isImplicit
  {
    n.(variant := n.variant.(computationIf := Some(ifNode)))
  }

  /** `getComputationIfNode`: only defined once one is recorded. */
  function GetComputationIfNode(n: ASTNode): (p: Ptr)
    requires n.variant.Continue? && n.variant.computationIf.Some?
    ensures n.variant.computationIf == Some(p)
  {
    n.variant.computationIf.value
  }

  // ---------------------------------------------------------------------
  // Switch nodes

  predicate NeedsStateVariable(n: ASTNode) requires n.variant.Switch? { n.variant.needStateVariable }
  predicate NeedsLoopBreakDispatcher(n: ASTNode) requires n.variant.Switch? { n.variant.needLoopBreakDispatcher }

  // ---------------------------------------------------------------------
  // Sequence nodes

  /**
   * Following `successor` pointers from `p` visits exactly `n` nodes of the
   * store and then reaches null.
   */
  predicate ChainOf(store: map<Ptr, ASTNode>, p: Ptr, n: nat)
    decreases n
  {
    n > 0 && p in store &&
    match store[p].successor
    case None => n == 1
    case Some(q) => ChainOf(store, q, n - 1)
  }

  /**
   * `SequenceNode::addNode` on the node list: appends `p`, then, through the
   * recursive call, every node along its successor chain.
   */
  function AddNode(list: seq<Ptr>, store: map<Ptr, ASTNode>, p: Ptr, ghost n: nat): (r: seq<Ptr>)
    requires ChainOf(store, p, n)
    ensures |r| == |list| + n && r[..|list|] == list && r[|list|] == p
    ensures forall i :: |list| <= i < |r| - 1 ==> r[i] in store && store[r[i]].successor == Some(r[i + 1])
    ensures r[|r| - 1] in store && store[r[|r| - 1]].successor == None
    decreases n
  {
    match store[p].successor
    case None => list + [p]
    case Some(q) => AddNode(list + [p], store, q, n - 1)
  }

  /** `SequenceNode::removeNode`: the erase/remove idiom on the node list. */
  function RemoveNode(n: ASTNode, p: Ptr): (r: ASTNode)
    requires n.variant.Sequence?
    ensures Kind(r) == ListKind && p !in r.variant.nodeList
    ensures forall q :: q != p ==> multiset(r.variant.nodeList)[q] == multiset(n.variant.nodeList)[q]
    ensures r.bb == n.bb && r.successor == n.successor && r.id == n.id
  {
    n.(variant := Sequence(RemoveAll(n.variant.nodeList, p)))
  }

  /** Removing a node from a list split in two removes it from each part, so the others keep their order. */
  lemma {:induction false} RemoveAllKeepsOrder(s: seq<Ptr>, t: seq<Ptr>, p: Ptr)
    ensures RemoveAll(s + t, p) == RemoveAll(s, p) + RemoveAll(t, p)
  {
    if s != [] {
      assert (s + t)[1..] == s[1..] + t;
      RemoveAllKeepsOrder(s[1..], t, p);
    } else {
      assert s + t == t;
    }
  }

  // ---------------------------------------------------------------------
  // Pointers between nodes

  function OptionSet(o: Option<Ptr>): set<Ptr>
  {
    if o.Some? then {o.value} else {}
  }

  /** The children `isEqual` follows: branches, loop body, list elements, case nodes and default. */
  function Children(v: Variant): set<Ptr>
  {
    match v
    case If(t, e, _) => OptionSet(t) + OptionSet(e)
    case Scs(b, _, _) => OptionSet(b)
    case Sequence(l) => set p | p in l
    case Switch(_, cases, d, _, _, _) => (set i | 0 <= i < |cases| :: cases[i].1) + OptionSet(d)
    case _ => {}
  }

  /** The other node pointers: a loop's condition node and a continue's computation node. */
  function SideLinks(v: Variant): set<Ptr>
  {
    match v
    case Scs(_, _, c) => OptionSet(c)
    case Continue(c, _) => OptionSet(c)
    case _ => {}
  }

  /** The node pointers `updateASTNodesPointers` looks up in the substitution map. */
  function RemappedLinks(v: Variant): set<Ptr>
  {
    if v.If? || v.Sequence? || v.Switch? then Children(v) else {}
  }

  function Remap(o: Option<Ptr>, sub: map<Ptr, Ptr>): Option<Ptr>
    requires o.Some? ==> o.value in sub
  {
    if o.Some? then Some(sub[o.value]) else None
  }

  /** Each element of a node list replaced by its image. */
  function RemapList(l: seq<Ptr>, sub: map<Ptr, Ptr>): (r: seq<Ptr>)
    requires forall p :: p in l ==> p in sub
    ensures |r| == |l| && forall i :: 0 <= i < |l| ==> r[i] == sub[l[i]]
  {
    seq(|l|, i requires 0 <= i < |l| => sub[l[i]])
  }

  /** Each case keeps its labels and has its node replaced by its image. */
  function RemapCases(cases: seq<LabeledCase>, sub: map<Ptr, Ptr>): (r: seq<LabeledCase>)
    requires forall i :: 0 <= i < |cases| ==> cases[i].1 in sub
    ensures |r| == |cases| && forall i :: 0 <= i < |cases| ==> r[i] == (cases[i].0, sub[cases[i].1])
  {
    seq(|cases|, i requires 0 <= i < |cases| => (cases[i].0, sub[cases[i].1]))
  }

  /**
   * `updateASTNodesPointers`: the branches of an if, the elements of a
   * sequence and the case and default nodes of a switch are replaced by
   * their images (null branches and a null default stay null); every other
   * kind is left untouched.
   */
  function UpdateASTNodesPointers(n: ASTNode, sub: map<Ptr, Ptr>): (r: ASTNode)
    requires RemappedLinks(n.variant) <= sub.Keys
    ensures Kind(r) == Kind(n) && r.bb == n.bb && r.successor == n.successor && r.id == n.id
    ensures n.variant.If? ==>
              r.variant == If(Remap(n.variant.thenBranch, sub), Remap(n.variant.elseBranch, sub), n.variant.condExpr)
    ensures n.variant.Sequence? ==> r.variant.nodeList == RemapList(n.variant.nodeList, sub)
    ensures n.variant.Switch? ==>
              r.variant == n.variant.(cases := RemapCases(n.variant.cases, sub),
                                      defaultCase := Remap(n.variant.defaultCase, sub))
    ensures !(n.variant.If? || n.variant.Sequence? || n.variant.Switch?) ==> r == n
  {
    match n.variant
    case If(t, e, c) =>
      n.(variant := If(Remap(t, sub), Remap(e, sub), c))
    case Sequence(l) =>
      n.(variant := Sequence(RemapList(l, sub)))
    case Switch(cond, cases, d, w, s, b) =>
      assert forall i :: 0 <= i < |cases| ==> cases[i].1 in Children(n.variant);
      n.(variant := Switch(cond, RemapCases(cases, sub), Remap(d, sub), w, s, b))
    case _ => n
  }

  /**
   * After the update, the children of an if, sequence or switch are exactly
   * the images of the old children; the side links are untouched.
   */
  lemma UpdatedChildrenAreImages(n: ASTNode, sub: map<Ptr, Ptr>)
    requires RemappedLinks(n.variant) <= sub.Keys
    ensures var r := UpdateASTNodesPointers(n, sub);
            (n.variant.If? || n.variant.Sequence? || n.variant.Switch? ==>
               Children(r.variant) == (set p | p in Children(n.variant) :: sub[p])) &&
            SideLinks(r.variant) == SideLinks(n.variant)
  {
    var r := UpdateASTNodesPointers(n, sub);
    match n.variant
    case Sequence(l) =>
      var l' := r.variant.nodeList;
      forall q | q in (set p | p in l :: sub[p])
        ensures q in l'
      {
        var p :| p in l && q == sub[p];
        var i :| 0 <= i < |l| && l[i] == p;
        assert l'[i] == q;
      }
    case Switch(_, cases, d, _, _, _) =>
      var cases' := r.variant.cases;
      forall q | q in (set p | p in Children(n.variant) :: sub[p])
        ensures q in Children(r.variant)
      {
        var p :| p in Children(n.variant) && q == sub[p];
        if p !in OptionSet(d) {
          var i :| 0 <= i < |cases| && cases[i].1 == p;
          assert cases'[i].1 == q;
        }
      }
      forall q | q in Children(r.variant)
        ensures q in (set p | p in Children(n.variant) :: sub[p])
      {
        if q !in OptionSet(r.variant.defaultCase) {
          var i :| 0 <= i < |cases'| && cases'[i].1 == q;
          assert cases[i].1 in Children(n.variant);
        }
      }
    case _ =>
  }

  /** Every node pointer a node holds: its children, its side links and its successor. */
  function AllLinks(n: ASTNode): set<Ptr>
  {
    Children(n.variant) + SideLinks(n.variant) + OptionSet(n.successor)
  }

  /**
   * Every node pointer of the node, children, side links and successor
   * alike, replaced by its image: what the copy of a tree needs so that no
   * clone keeps a pointer into the tree it was copied from.
   */
  function RemapAllPointers(n: ASTNode, sub: map<Ptr, Ptr>): (r: ASTNode)
    requires AllLinks(n) <= sub.Keys
    ensures Kind(r) == Kind(n) && r.bb == n.bb && r.id == n.id
    ensures r.successor == Remap(n.successor, sub)
    ensures Children(r.variant) == (set p | p in Children(n.variant) :: sub[p])
    ensures SideLinks(r.variant) == (set p | p in SideLinks(n.variant) :: sub[p])
  {
    var s := Remap(n.successor, sub);
    match n.variant
    case Scs(b, t, c) =>
      n.(variant := Scs(Remap(b, sub), t, Remap(c, sub)), successor := s)
    case Continue(c, i) =>
      n.(variant := Continue(Remap(c, sub), i), successor := s)
    case _ =>
      UpdatedChildrenAreImages(n, sub);
      UpdateASTNodesPointers(n, sub).(successor := s)
  }

  /** After the full remapping, the pointers of the node are exactly the images of its old pointers. */
  lemma RemappedPointersAreImages(n: ASTNode, sub: map<Ptr, Ptr>)
    requires AllLinks(n) <= sub.Keys
    ensures var r := RemapAllPointers(n, sub);
            AllLinks(r) == (set p | p in AllLinks(n) :: sub[p]) && AllLinks(r) <= sub.Values
  {
    var r := RemapAllPointers(n, sub);
    assert OptionSet(r.successor) == (set p | p in OptionSet(n.successor) :: sub[p]);
  }

  /**
   * `updateASTNodesPointers` leaves a loop's body alone: with the body at
   * address 1 remapped to 2, the updated loop still points to 1, which is not
   * an image of the substitution.
   */
  lemma ScsBodyNotRemapped()
    ensures var n := ASTNode(Scs(Some(1), Standard, None), None, "", None, 0, false);
            var sub := map[1 := 2];
            UpdateASTNodesPointers(n, sub).variant.body == Some(1) && 1 !in sub.Values
            && RemapAllPointers(n, sub).variant.body == Some(2)
  {
    var n := ASTNode(Scs(Some(1), Standard, None), None, "", None, 0, false);
    var sub := map[1 := 2];
    assert sub.Keys == {1};
    assert forall v :: v in sub.Values ==> v == 2;
  }

  // ---------------------------------------------------------------------
  // Structural equality

  /**
   * `rank` orders the store so that every child has a smaller rank than its
   * parent, and every loop has a body (`isEqual` dereferences it).
   */
  ghost predicate Comparable(store: map<Ptr, ASTNode>, rank: map<Ptr, nat>)
  {
    forall p :: p in store ==>
      p in rank &&
      (store[p].variant.Scs? ==> store[p].variant.body.Some?) &&
      forall c :: c in Children(store[p].variant) ==> c in store && c in rank && rank[c] < rank[p]
  }

  /** How two if nodes compare their branches. */
  datatype IfComparison =
    /** As written: the else comparison, when there is an else, overwrites the then comparison. */
    | LastBranchWins
    /** Both branches must be present on both sides alike and be equal. */
    | BothBranches

  /**
   * `isEqual`: the dispatch on the kind of `a` to its `nodeIsEqual`. `b` is
   * null when the other side has no node there, which every `nodeIsEqual`
   * answers with false.
   */
  function IsEqual(store: map<Ptr, ASTNode>, ghost rank: map<Ptr, nat>, rule: IfComparison, a: Ptr, b: Option<Ptr>): (eq: bool)
    requires Comparable(store, rank) && a in store && (b.Some? ==> b.value in store)
    ensures eq ==> b.Some? && Kind(store[b.value]) == Kind(store[a])
    decreases rank[a]
  {
    if b.None? then false
    else
      var x := store[a];
      var y := store[b.value];
      match x.variant
      case Code => y.variant.Code? && x.bb.Some? && x.bb == y.bb
      case Break(_) => y.variant.Break?
      case Continue(_, _) => y.variant.Continue?
      case SwitchBreak => y.variant.SwitchBreak?
      case SetState(v) => y.variant.SetState? && v == y.variant.stateVariableValue
      case Scs(body, _, _) =>
        y.variant.Scs? && IsEqual(store, rank, rule, body.value, y.variant.body)
      case If(t, e, _) =>
        y.variant.If? && x.bb.Some? && x.bb == y.bb &&
        (match rule
         case LastBranchWins =>
           if e.Some? then IsEqual(store, rank, rule, e.value, y.variant.elseBranch)
           else if t.Some? then IsEqual(store, rank, rule, t.value, y.variant.thenBranch)
           else true
         case BothBranches =>
           t.Some? == y.variant.thenBranch.Some? && e.Some? == y.variant.elseBranch.Some? &&
           (t.Some? ==> IsEqual(store, rank, rule, t.value, y.variant.thenBranch)) &&
           (e.Some? ==> IsEqual(store, rank, rule, e.value, y.variant.elseBranch)))
      case Sequence(l) =>
        y.variant.Sequence? && |l| == |y.variant.nodeList| &&
        forall i :: 0 <= i < |l| ==> IsEqual(store, rank, rule, l[i], Some(y.variant.nodeList[i]))
      case Switch(_, cases, d, _, _, _) =>
        y.variant.Switch? && x.bb == y.bb &&
        d.Some? == y.variant.defaultCase.Some? &&
        (d.Some? ==> IsEqual(store, rank, rule, d.value, y.variant.defaultCase)) &&
        |cases| == |y.variant.cases| &&
        forall i :: 0 <= i < |cases| ==>
          cases[i].0 == y.variant.cases[i].0 && IsEqual(store, rank, rule, cases[i].1, Some(y.variant.cases[i].1))
  }

  /** Continue, break and switch-break nodes equal every node of their own kind. */
  lemma JumpNodesEqualByKind(store: map<Ptr, ASTNode>, rank: map<Ptr, nat>, rule: IfComparison, a: Ptr, b: Ptr)
    requires Comparable(store, rank) && a in store && b in store
    requires Kind(store[a]) in {ContinueKind, BreakKind, SwitchBreakKind}
    ensures IsEqual(store, rank, rule, a, Some(b)) <==> Kind(store[b]) == Kind(store[a])
  {
  }

  /** Code nodes are equal exactly when they stand for the same, non-null, basic block. */
  lemma CodeNodesEqualByBlock(store: map<Ptr, ASTNode>, rank: map<Ptr, nat>, rule: IfComparison, a: Ptr, b: Ptr)
    requires Comparable(store, rank) && a in store && b in store && Kind(store[a]) == CodeKind
    ensures IsEqual(store, rank, rule, a, Some(b)) <==>
              Kind(store[b]) == CodeKind && store[a].bb.Some? && store[a].bb == store[b].bb
  {
  }

  /** Sequences are equal exactly when they have equal lengths and are pairwise equal. */
  lemma SequencesEqualPairwise(store: map<Ptr, ASTNode>, rank: map<Ptr, nat>, rule: IfComparison, a: Ptr, b: Ptr)
    requires Comparable(store, rank) && a in store && b in store
    requires Kind(store[a]) == ListKind && Kind(store[b]) == ListKind
    ensures var l := store[a].variant.nodeList;
            var m := store[b].variant.nodeList;
            IsEqual(store, rank, rule, a, Some(b)) <==>
              |l| == |m| && forall i :: 0 <= i < |l| ==> IsEqual(store, rank, rule, l[i], Some(m[i]))
  {
  }

  /**
   * As written, when an if has an else branch its then branch plays no part:
   * two ifs on the same block with equal else branches are equal whatever
   * their then branches are.
   */
  lemma ThenBranchIgnored(store: map<Ptr, ASTNode>, rank: map<Ptr, nat>, a: Ptr, b: Ptr)
    requires Comparable(store, rank) && a in store && b in store
    requires Kind(store[a]) == IfKind && Kind(store[b]) == IfKind && HasElse(store[a])
    ensures IsEqual(store, rank, LastBranchWins, a, Some(b)) <==>
              store[a].bb.Some? && store[a].bb == store[b].bb &&
              IsEqual(store, rank, LastBranchWins, store[a].variant.elseBranch.value, store[b].variant.elseBranch)
  {
  }

  /** Every code and if node knows its basic block. */
  ghost predicate Identified(store: map<Ptr, ASTNode>)
  {
    forall p :: p in store && (store[p].variant.Code? || store[p].variant.If?) ==> store[p].bb.Some?
  }

  /** In a tree where every code and if node knows its block, each node equals itself, under either rule. */
  lemma {:induction false} IsEqualReflexive(store: map<Ptr, ASTNode>, rank: map<Ptr, nat>, rule: IfComparison, a: Ptr)
    requires Comparable(store, rank) && Identified(store) && a in store
    ensures IsEqual(store, rank, rule, a, Some(a))
    decreases rank[a]
  {
    var x := store[a];
    match x.variant
    case Scs(body, _, _) =>
      IsEqualReflexive(store, rank, rule, body.value);
    case If(t, e, _) =>
      if t.Some? { IsEqualReflexive(store, rank, rule, t.value); }
      if e.Some? { IsEqualReflexive(store, rank, rule, e.value); }
    case Sequence(l) =>
      forall i | 0 <= i < |l|
        ensures IsEqual(store, rank, rule, l[i], Some(l[i]))
      {
        IsEqualReflexive(store, rank, rule, l[i]);
      }
    case Switch(_, cases, d, _, _, _) =>
      if d.Some? { IsEqualReflexive(store, rank, rule, d.value); }
      forall i | 0 <= i < |cases|
        ensures IsEqual(store, rank, rule, cases[i].1, Some(cases[i].1))
      {
        assert cases[i].1 in Children(x.variant);
        IsEqualReflexive(store, rank, rule, cases[i].1);
      }
    case _ =>
  }

  /**
   * As written, equality is not symmetric: an if with both branches does not
   * equal an if on the same block with only the then branch (its missing
   * else compares as false), while the latter equals the former (only the
   * then branches are compared).
   */
  lemma IfEqualityNotSymmetric()
    ensures var store := map[0 := ASTNode(If(Some(1), Some(2), None), Some(7), "", None, 0, false),
                             1 := ASTNode(Code, Some(5), "", None, 0, false),
                             2 := ASTNode(Code, Some(6), "", None, 0, false),
                             3 := ASTNode(If(Some(1), None, None), Some(7), "", None, 0, false)];
            var rank := map[0 := 1, 1 := 0, 2 := 0, 3 := 1];
            Comparable(store, rank) &&
            IsEqual(store, rank, LastBranchWins, 3, Some(0)) && !IsEqual(store, rank, LastBranchWins, 0, Some(3))
  {
    var store := map[0 := ASTNode(If(Some(1), Some(2), None), Some(7), "", None, 0, false),
                     1 := ASTNode(Code, Some(5), "", None, 0, false),
                     2 := ASTNode(Code, Some(6), "", None, 0, false),
                     3 := ASTNode(If(Some(1), None, None), Some(7), "", None, 0, false)];
    var rank := map[0 := 1, 1 := 0, 2 := 0, 3 := 1];
    assert Children(store[0].variant) == {1, 2};
    assert Children(store[3].variant) == {1};
    assert Comparable(store, rank);
    assert IsEqual(store, rank, LastBranchWins, 1, Some(1));
  }

  /** When both branches are compared, equality is symmetric. */
  lemma {:induction false} IsEqualSymmetric(store: map<Ptr, ASTNode>, rank: map<Ptr, nat>, a: Ptr, b: Ptr)
    requires Comparable(store, rank) && a in store && b in store
    ensures IsEqual(store, rank, BothBranches, a, Some(b)) == IsEqual(store, rank, BothBranches, b, Some(a))
    decreases rank[a] + rank[b]
  {
    var x := store[a];
    var y := store[b];
    if Kind(x) == Kind(y) {
      match x.variant
      case Scs(body, _, _) =>
        IsEqualSymmetric(store, rank, body.value, y.variant.body.value);
      case If(t, e, _) =>
        if t.Some? && y.variant.thenBranch.Some? {
          IsEqualSymmetric(store, rank, t.value, y.variant.thenBranch.value);
        }
        if e.Some? && y.variant.elseBranch.Some? {
          IsEqualSymmetric(store, rank, e.value, y.variant.elseBranch.value);
        }
      case Sequence(l) =>
        var m := y.variant.nodeList;
        if |l| == |m| {
          forall i | 0 <= i < |l|
            ensures IsEqual(store, rank, BothBranches, l[i], Some(m[i])) == IsEqual(store, rank, BothBranches, m[i], Some(l[i]))
          {
            IsEqualSymmetric(store, rank, l[i], m[i]);
          }
        }
      case Switch(_, cases, d, _, _, _) =>
        var cs := y.variant.cases;
        if d.Some? && y.variant.defaultCase.Some? {
          IsEqualSymmetric(store, rank, d.value, y.variant.defaultCase.value);
        }
        if |cases| == |cs| {
          forall i | 0 <= i < |cases|
            ensures IsEqual(store, rank, BothBranches, cases[i].1, Some(cs[i].1)) == IsEqual(store, rank, BothBranches, cs[i].1, Some(cases[i].1))
          {
            assert cases[i].1 in Children(x.variant);
            assert cs[i].1 in Children(y.variant);
            IsEqualSymmetric(store, rank, cases[i].1, cs[i].1);
          }
        }
      case _ =>
    }
  }
}
