/**
 * The AST of one region: the list of nodes it owns (in insertion order), the
 * contents of those nodes by address, the two maps between CFG nodes and AST
 * nodes, the owned condition expressions and the root.
 */
module ASTTrees {
  import opened Wrappers
  import opened Sequences
  import opened Strings
  import ExprNodes
  import opened ASTNodes

  /** A node of the RegionCFG the tree was built from, by identity. */
  type CFGRef = nat


  /**
   * The map `m0` with `keys[i]` assigned `vals[i]` for every `i < k`, in
   * index order (`Map[Key] = Value`).
   */
  function Assigned<V>(m0: map<nat, V>, keys: seq<nat>, vals: seq<V>, k: nat): map<nat, V>
    requires k <= |keys| == |vals|
    decreases k
  {
    if k == 0 then m0
    else Assigned(m0, keys, vals, k - 1)[keys[k - 1] := vals[k - 1]]
  }

  /** The assignments keep every key of `m0`, add the first `k` keys and no other. */
  lemma {:induction false} AssignedKeys<V>(m0: map<nat, V>, keys: seq<nat>, vals: seq<V>, k: nat)
    requires k <= |keys| == |vals|
    ensures var m := Assigned(m0, keys, vals, k);
            (forall p :: p in m0 ==> p in m) &&
            (forall j :: 0 <= j < k ==> keys[j] in m) &&
            (forall p :: p in m ==> p in m0 || p in keys)
    decreases k
  {
    if k > 0 {
      AssignedKeys(m0, keys, vals, k - 1);
    }
  }

  /** Assigning distinct keys new to `m0` adds one key per assignment, and not the later keys. */
  lemma {:induction false} AssignedFreshKeys<V>(m0: map<nat, V>, keys: seq<nat>, vals: seq<V>, k: nat)
    requires k <= |keys| == |vals| && FreshFor(keys, m0)
    ensures var m := Assigned(m0, keys, vals, k);
            (forall j :: k <= j < |keys| ==> keys[j] !in m) && |m| == |m0| + k
    decreases k
  {
    if k > 0 {
      AssignedFreshKeys(m0, keys, vals, k - 1);
      var q := keys[k - 1];
      forall j | 0 <= j < |keys| && j != k - 1
        ensures keys[j] != q
      {
      }
    }
  }

  /**
   * With distinct keys, each of the first `k` keys holds its own value, and
   * every other key of `m0` keeps its old value.
   */
  lemma {:induction false} AssignedValues<V>(m0: map<nat, V>, keys: seq<nat>, vals: seq<V>, k: nat)
    requires k <= |keys| == |vals| && NoDuplicates(keys)
    ensures var m := Assigned(m0, keys, vals, k);
            (forall j :: 0 <= j < k ==> keys[j] in m && m[keys[j]] == vals[j]) &&
            (forall p :: p in m0 && p !in keys ==> p in m && m[p] == m0[p]) &&
            (forall j :: k <= j < |keys| && keys[j] in m0 ==> keys[j] in m && m[keys[j]] == m0[keys[j]])
    decreases k
  {
    if k > 0 {
      AssignedValues(m0, keys, vals, k - 1);
      var m0' := Assigned(m0, keys, vals, k - 1);
      var q := keys[k - 1];
      forall j | 0 <= j < |keys| && j != k - 1
        ensures keys[j] != q
      {
      }
      forall j | 0 <= j < k
        ensures keys[j] in Assigned(m0, keys, vals, k) && Assigned(m0, keys, vals, k)[keys[j]] == vals[j]
      {
        if j < k - 1 {
          assert keys[j] != q && m0'[keys[j]] == vals[j];
        }
      }
    }
  }

  /** `Map[Old] = New` for each old entry and its new counterpart, in order. */
  function Substitution(olds: seq<nat>, news: seq<nat>): map<nat, nat>
    requires |olds| == |news|
  {
    Assigned(map[], olds, news, |olds|)
  }

  /** A substitution over distinct old entries maps exactly those, each to its counterpart. */
  lemma SubstitutionMaps(olds: seq<nat>, news: seq<nat>)
    requires |olds| == |news| && NoDuplicates(olds)
    ensures forall p :: p in Substitution(olds, news) <==> p in olds
    ensures forall j :: 0 <= j < |olds| ==> olds[j] in Substitution(olds, news) && Substitution(olds, news)[olds[j]] == news[j]
  {
    AssignedKeys(map[], olds, news, |olds|);
    AssignedValues(map[], olds, news, |olds|);
  }

  /** `std::map::insert`: nothing happens when the key is already there. */
  function Insert<K, V>(m: map<K, V>, k: K, v: V): map<K, V>
  {
    if k in m then m else m[k := v]
  }

  /**
   * BBASTMap after the first `k` clones of copyASTNodesFrom: the CFG node of
   * each cloned node that has one is inserted, mapped to the clone.
   */
  function CopiedBBAST(m0: map<CFGRef, Ptr>, oldList: seq<Ptr>, clones: seq<Ptr>, oldAstBb: map<Ptr, CFGRef>, k: nat): map<CFGRef, Ptr>
    requires k <= |oldList| == |clones|
    decreases k
  {
    if k == 0 then m0
    else
      var m := CopiedBBAST(m0, oldList, clones, oldAstBb, k - 1);
      var o := oldList[k - 1];
      if o in oldAstBb then Insert(m, oldAstBb[o], clones[k - 1]) else m
  }

  /**
   * Copying the CFG associations keeps every existing entry, adds an entry
   * for the CFG node of every copied node that has one, and every added
   * entry leads to the clone of a node with that CFG node.
   */
  lemma {:induction false} CopiedBBASTEntries(m0: map<CFGRef, Ptr>, oldList: seq<Ptr>, clones: seq<Ptr>, oldAstBb: map<Ptr, CFGRef>, k: nat)
    requires k <= |oldList| == |clones|
    ensures var m := CopiedBBAST(m0, oldList, clones, oldAstBb, k);
            (forall c :: c in m0 ==> c in m && m[c] == m0[c]) &&
            (forall i :: 0 <= i < k && oldList[i] in oldAstBb ==> oldAstBb[oldList[i]] in m) &&
            (forall c :: c in m && c !in m0 ==>
               exists i :: 0 <= i < k && oldList[i] in oldAstBb && oldAstBb[oldList[i]] == c && m[c] == clones[i])
    decreases k
  {
    if k > 0 {
      CopiedBBASTEntries(m0, oldList, clones, oldAstBb, k - 1);
    }
  }

  /**
   * ASTBBMap after the first `k` clones of copyASTNodesFrom: each clone of a
   * node that has a CFG node is inserted, mapped to that CFG node.
   */
  function CopiedASTBB(m0: map<Ptr, CFGRef>, oldList: seq<Ptr>, clones: seq<Ptr>, oldAstBb: map<Ptr, CFGRef>, k: nat): map<Ptr, CFGRef>
    requires k <= |oldList| == |clones|
    decreases k
  {
    if k == 0 then m0
    else
      var m := CopiedASTBB(m0, oldList, clones, oldAstBb, k - 1);
      var o := oldList[k - 1];
      if o in oldAstBb then Insert(m, clones[k - 1], oldAstBb[o]) else m
  }

  /**
   * Copying the AST-to-CFG associations keeps every existing entry, maps
   * each new clone of a node with a CFG node to that CFG node, and adds no
   * other key.
   */
  lemma {:induction false} CopiedASTBBEntries(m0: map<Ptr, CFGRef>, oldList: seq<Ptr>, clones: seq<Ptr>, oldAstBb: map<Ptr, CFGRef>, k: nat)
    requires k <= |oldList| == |clones|
    ensures var m := CopiedASTBB(m0, oldList, clones, oldAstBb, k);
            (forall p :: p in m0 ==> p in m && m[p] == m0[p]) &&
            (NoDuplicates(clones) ==>
               forall i :: 0 <= i < k && oldList[i] in oldAstBb && clones[i] !in m0 ==>
                 clones[i] in m && m[clones[i]] == oldAstBb[oldList[i]]) &&
            (forall p :: p in m ==> p in m0 || p in clones[..k])
    decreases k
  {
    if k > 0 {
      CopiedASTBBEntries(m0, oldList, clones, oldAstBb, k - 1);
      assert clones[..k] == clones[..k - 1] + [clones[k - 1]];
    }
  }

  /**
   * What copyASTNodesFrom leaves at the address of a clone: the clone's
   * pointers updated through the substitution map and, for an if, its
   * condition replaced by the cloned expression.
   */
  function CopiedNode(clone: ASTNode, sub: map<Ptr, Ptr>, exprSub: map<ExprNodes.ExprPtr, ExprNodes.ExprPtr>): ASTNode
    requires RemappedLinks(clone.variant) <= sub.Keys
    requires clone.variant.If? ==> clone.variant.condExpr.Some?
  {
    var u := UpdateASTNodesPointers(clone, sub);
    if u.variant.If? then UpdateCondExprPtr(u, exprSub) else u
  }

  /**
   * A copied if, sequence or switch only points to images of the
   * substitution, that is to nodes of the copy; a copied loop keeps its old
   * body pointer.
   */
  lemma CopiedNodePointers(clone: ASTNode, sub: map<Ptr, Ptr>, exprSub: map<ExprNodes.ExprPtr, ExprNodes.ExprPtr>)
    requires RemappedLinks(clone.variant) <= sub.Keys
    requires clone.variant.If? ==> clone.variant.condExpr.Some?
    ensures var c := CopiedNode(clone, sub, exprSub);
            Kind(c) == Kind(clone) && c.id == clone.id && c.bb == clone.bb &&
            (clone.variant.If? || clone.variant.Sequence? || clone.variant.Switch? ==> Children(c.variant) <= sub.Values) &&
            (clone.variant.Scs? ==> c.variant.body == clone.variant.body)
  {
    UpdatedChildrenAreImages(clone, sub);
  }


  /** A set all of whose elements are listed in `s` has no more elements than `s`. */
  lemma {:induction false} ListedSetBound(s: seq<nat>, keys: set<nat>)
    requires forall p :: p in keys ==> p in s
    ensures |keys| <= |s|
    decreases |s|
  {
    if |s| == 0 {
      assert keys == {};
    } else {
      var t, x := s[..|s| - 1], s[|s| - 1];
      assert s == t + [x];
      ListedSetBound(t, keys - {x});
    }
  }

  /**
   * A list with exactly as many entries as the set of its elements has no
   * duplicates.
   */
  lemma {:induction false} CountedListDistinct(s: seq<nat>, keys: set<nat>)
    requires forall p :: p in keys <==> p in s
    requires |keys| == |s|
    ensures NoDuplicates(s)
    decreases |s|
  {
    if |s| > 0 {
      var t, x := s[..|s| - 1], s[|s| - 1];
      assert s == t + [x];
      if x in t {
        ListedSetBound(t, keys);
        assert false;
      }
      CountedListDistinct(t, keys - {x});
      forall i, j | 0 <= i < j < |s|
        ensures s[i] != s[j]
      {
        assert s[i] == t[i];
        if j < |s| - 1 {
          assert s[j] == t[j];
        }
      }
    }
  }

  /** Growing a list by the next element of `s`. */
  lemma AppendStep(a: seq<nat>, s: seq<nat>, i: nat)
    requires i < |s|
    ensures a + s[..i] + [s[i]] == a + s[..i + 1]
  {
    assert s[..i + 1] == s[..i] + [s[i]];
  }

  /** Addresses fit for new contents: distinct, and without contents in `store0` yet. */
  predicate FreshFor<V>(added: seq<nat>, store0: map<nat, V>)
  {
    NoDuplicates(added) && forall p :: p in added ==> p !in store0
  }

  /**
   * The clones the first copy loop of copyASTNodesFrom makes, in list
   * order: the clone `j` is the old node `j` with the ID `id0 + j`.
   */
  function ClonedNodes(oldList: seq<Ptr>, oldStore: map<Ptr, ASTNode>, id0: nat): (r: seq<ASTNode>)
    requires forall p :: p in oldList ==> p in oldStore
    ensures |r| == |oldList|
    ensures forall j :: 0 <= j < |oldList| ==> r[j] == oldStore[oldList[j]].(id := id0 + j)
  {
    seq(|oldList|, j requires 0 <= j < |oldList| => Clone(oldStore[oldList[j]]).(id := id0 + j))
  }

  /** The node store once the first copy loop has stored every clone at its fresh address. */
  function ClonedStore(store0: map<Ptr, ASTNode>, oldList: seq<Ptr>, oldStore: map<Ptr, ASTNode>,
                       freshNodes: seq<Ptr>, id0: nat): map<Ptr, ASTNode>
    requires |oldList| == |freshNodes|
    requires forall p :: p in oldList ==> p in oldStore
  {
    Assigned(store0, freshNodes, ClonedNodes(oldList, oldStore, id0), |freshNodes|)
  }

  /**
   * The second copy loop casts every old expression to an atomic node and
   * builds a new one on the same block: an equal node.
   */
  function AtomicCopies(oldList: seq<ExprNodes.ExprPtr>, oldStore: map<ExprNodes.ExprPtr, ExprNodes.ExprNode>)
    : (r: seq<ExprNodes.ExprNode>)
    requires forall e :: e in oldList ==> e in oldStore && ExprNodes.IsAtomic(oldStore[e])
    ensures |r| == |oldList|
    ensures forall j :: 0 <= j < |oldList| ==> r[j] == oldStore[oldList[j]]
  {
    seq(|oldList|, j requires 0 <= j < |oldList| =>
      ExprNodes.AtomicNode(ExprNodes.GetConditionalBasicBlock(oldStore[oldList[j]])))
  }

  /**
   * Appending fresh addresses to a list whose entries are exactly the keys
   * of a store, one entry per key, and giving each of them contents keeps
   * that correspondence.
   */
  lemma AppendedKeys<V>(list0: seq<nat>, store0: map<nat, V>, added: seq<nat>, vals: seq<V>)
    requires (forall p :: p in store0 <==> p in list0) && |store0| == |list0|
    requires |added| == |vals| && FreshFor(added, store0)
    ensures var m := Assigned(store0, added, vals, |added|);
            (forall p :: p in m <==> p in list0 + added) && |m| == |list0 + added|
  {
    var m := Assigned(store0, added, vals, |added|);
    AssignedKeys(store0, added, vals, |added|);
    AssignedFreshKeys(store0, added, vals, |added|);
    forall p
      ensures p in m <==> p in list0 + added
    {
      if p in added {
        var j :| 0 <= j < |added| && added[j] == p;
      }
    }
  }

  /**
   * Every node at one of the addresses `clones` can have its pointers
   * updated: it has contents, each pointer updateASTNodesPointers follows
   * has an image, and an if has a condition.
   */
  ghost predicate Remappable(store: map<Ptr, ASTNode>, clones: seq<Ptr>, sub: map<Ptr, Ptr>)
  {
    forall p :: p in clones ==>
      p in store && RemappedLinks(store[p].variant) <= sub.Keys &&
      (store[p].variant.If? ==> store[p].variant.condExpr.Some?)
  }

  /** The updated copy of the node at each address of `clones`, in order. */
  function CopiedNodes(store0: map<Ptr, ASTNode>, clones: seq<Ptr>, sub: map<Ptr, Ptr>,
                       exprSub: map<ExprNodes.ExprPtr, ExprNodes.ExprPtr>): (r: seq<ASTNode>)
    requires Remappable(store0, clones, sub)
    ensures |r| == |clones|
    ensures forall j :: 0 <= j < |clones| ==> r[j] == CopiedNode(store0[clones[j]], sub, exprSub)
  {
    seq(|clones|, j requires 0 <= j < |clones| => CopiedNode(store0[clones[j]], sub, exprSub))
  }

  /** The node store once the last loop of copyASTNodesFrom has updated the node at every address of `clones`. */
  function UpdatedStore(store0: map<Ptr, ASTNode>, clones: seq<Ptr>, sub: map<Ptr, Ptr>,
                        exprSub: map<ExprNodes.ExprPtr, ExprNodes.ExprPtr>): map<Ptr, ASTNode>
    requires Remappable(store0, clones, sub)
  {
    Assigned(store0, clones, CopiedNodes(store0, clones, sub, exprSub), |clones|)
  }

  /** Updating the nodes at addresses that all have contents changes no key. */
  lemma UpdatedKeys(store0: map<Ptr, ASTNode>, clones: seq<Ptr>, sub: map<Ptr, Ptr>,
                    exprSub: map<ExprNodes.ExprPtr, ExprNodes.ExprPtr>)
    requires Remappable(store0, clones, sub)
    ensures var m := UpdatedStore(store0, clones, sub, exprSub);
            m.Keys == store0.Keys && |m| == |store0|
  {
    AssignedKeys(store0, clones, CopiedNodes(store0, clones, sub, exprSub), |clones|);
    assert UpdatedStore(store0, clones, sub, exprSub).Keys == store0.Keys;
  }

  /**
   * What copyASTNodesFrom needs of the old tree: every listed node has
   * contents and vice versa, each listed once, and every node can have its
   * pointers updated through a map that knows every old node.
   */
  ghost predicate CopyableTree(oldList: seq<Ptr>, oldStore: map<Ptr, ASTNode>)
  {
    (forall p :: p in oldList <==> p in oldStore) && NoDuplicates(oldList) &&
    (forall p :: p in oldStore ==> RemappedLinks(oldStore[p].variant) <= oldStore.Keys) &&
    (forall p :: p in oldStore && oldStore[p].variant.If? ==> oldStore[p].variant.condExpr.Some?)
  }

  /** The clones of a copyable tree can all have their pointers updated through the old-to-new map. */
  lemma CopyIsRemappable(store0: map<Ptr, ASTNode>, oldList: seq<Ptr>, oldStore: map<Ptr, ASTNode>, freshNodes: seq<Ptr>, id0: nat)
    requires |freshNodes| == |oldList| && FreshFor(freshNodes, store0) && CopyableTree(oldList, oldStore)
    ensures Remappable(ClonedStore(store0, oldList, oldStore, freshNodes, id0), freshNodes, Substitution(oldList, freshNodes))
  {
    var cloned := ClonedStore(store0, oldList, oldStore, freshNodes, id0);
    var sub := Substitution(oldList, freshNodes);
    AssignedValues(store0, freshNodes, ClonedNodes(oldList, oldStore, id0), |freshNodes|);
    SubstitutionMaps(oldList, freshNodes);
    forall p | p in freshNodes
      ensures p in cloned && RemappedLinks(cloned[p].variant) <= sub.Keys
      ensures cloned[p].variant.If? ==> cloned[p].variant.condExpr.Some?
    {
      var j :| 0 <= j < |freshNodes| && freshNodes[j] == p;
      assert oldList[j] in oldStore;
    }
  }

  /**
   * copyASTNodesFrom on the node store, for the nodes the tree had: each is
   * kept as it was, and the only new addresses are the fresh ones.
   */
  lemma CopyKeepsNodes(store0: map<Ptr, ASTNode>, oldList: seq<Ptr>, oldStore: map<Ptr, ASTNode>, freshNodes: seq<Ptr>, id0: nat,
                       exprSub: map<ExprNodes.ExprPtr, ExprNodes.ExprPtr>)
    requires |freshNodes| == |oldList| && FreshFor(freshNodes, store0) && CopyableTree(oldList, oldStore)
    ensures var sub := Substitution(oldList, freshNodes);
            var cloned := ClonedStore(store0, oldList, oldStore, freshNodes, id0);
            Remappable(cloned, freshNodes, sub) &&
            var copied := UpdatedStore(cloned, freshNodes, sub, exprSub);
            (forall p :: p in copied <==> p in store0 || p in freshNodes) &&
            (forall p :: p in store0 ==> copied[p] == store0[p])
  {
    var sub := Substitution(oldList, freshNodes);
    CopyIsRemappable(store0, oldList, oldStore, freshNodes, id0);
    var clones := ClonedNodes(oldList, oldStore, id0);
    var cloned := ClonedStore(store0, oldList, oldStore, freshNodes, id0);
    AssignedKeys(store0, freshNodes, clones, |freshNodes|);
    AssignedValues(store0, freshNodes, clones, |freshNodes|);
    UpdatedKeys(cloned, freshNodes, sub, exprSub);
    AssignedValues(cloned, freshNodes, CopiedNodes(cloned, freshNodes, sub, exprSub), |freshNodes|);
  }

  /**
   * copyASTNodesFrom on the node store, for the copies: the substitution
   * knows exactly the old nodes, maps old node `j` to the fresh address
   * `j`, and that address holds old node `j` with the ID `id0 + j`, its
   * pointers updated through the substitution and its condition through
   * the expression map.
   */
  lemma CopiedNodeEntries(store0: map<Ptr, ASTNode>, oldList: seq<Ptr>, oldStore: map<Ptr, ASTNode>, freshNodes: seq<Ptr>, id0: nat,
                          exprSub: map<ExprNodes.ExprPtr, ExprNodes.ExprPtr>)
    requires |freshNodes| == |oldList| && FreshFor(freshNodes, store0) && CopyableTree(oldList, oldStore)
    ensures var sub := Substitution(oldList, freshNodes);
            var cloned := ClonedStore(store0, oldList, oldStore, freshNodes, id0);
            Remappable(cloned, freshNodes, sub) &&
            var copied := UpdatedStore(cloned, freshNodes, sub, exprSub);
            sub.Keys == oldStore.Keys &&
            (forall j :: 0 <= j < |freshNodes| ==>
               sub[oldList[j]] == freshNodes[j] && freshNodes[j] in copied &&
               copied[freshNodes[j]] == CopiedNode(oldStore[oldList[j]].(id := id0 + j), sub, exprSub))
  {
    var sub := Substitution(oldList, freshNodes);
    CopyIsRemappable(store0, oldList, oldStore, freshNodes, id0);
    var clones := ClonedNodes(oldList, oldStore, id0);
    var cloned := ClonedStore(store0, oldList, oldStore, freshNodes, id0);
    AssignedValues(store0, freshNodes, clones, |freshNodes|);
    AssignedValues(cloned, freshNodes, CopiedNodes(cloned, freshNodes, sub, exprSub), |freshNodes|);
    SubstitutionMaps(oldList, freshNodes);
  }


  /**
   * The first loop of copyASTNodesFrom on the fields it updates: for each
   * old node in list order, a clone with the next ID is appended at its
   * fresh address, its CFG associations are inserted, and the old-to-new
   * pair is recorded.
   */
  method CloneLoop(nodeList: seq<Ptr>, store: map<Ptr, ASTNode>, bbAst: map<CFGRef, Ptr>, astBb: map<Ptr, CFGRef>, nextId: nat,
                   oldList: seq<Ptr>, oldStore: map<Ptr, ASTNode>, oldAstBb: map<Ptr, CFGRef>, freshNodes: seq<Ptr>)
    returns (list: seq<Ptr>, nodes: map<Ptr, ASTNode>, toAst: map<CFGRef, Ptr>, toCfg: map<Ptr, CFGRef>, sub: map<Ptr, Ptr>, id: nat)
    requires |freshNodes| == |oldList| && forall p :: p in oldList ==> p in oldStore
    ensures list == nodeList + freshNodes
    ensures nodes == ClonedStore(store, oldList, oldStore, freshNodes, nextId)
    ensures sub == Substitution(oldList, freshNodes)
    ensures toAst == CopiedBBAST(bbAst, oldList, freshNodes, oldAstBb, |freshNodes|)
    ensures toCfg == CopiedASTBB(astBb, oldList, freshNodes, oldAstBb, |freshNodes|)
    ensures id == nextId + |freshNodes|
  {
    ghost var clones := ClonedNodes(oldList, oldStore, nextId);
    var n := |oldList|;
    list, nodes, toAst, toCfg, id := nodeList, store, bbAst, astBb, nextId;
    sub := map[];
    for i := 0 to n
      invariant list == nodeList + freshNodes[..i]
      invariant nodes == Assigned(store, freshNodes, clones, i)
      invariant sub == Assigned(map[], oldList, freshNodes, i)
      invariant toAst == CopiedBBAST(bbAst, oldList, freshNodes, oldAstBb, i)
      invariant toCfg == CopiedASTBB(astBb, oldList, freshNodes, oldAstBb, i)
      invariant id == nextId + i
    {
      var o := oldList[i];
      var clone := Clone(oldStore[o]).(id := id);
      assert clone == clones[i];
      id := id + 1;
      AppendStep(nodeList, freshNodes, i);
      list := list + [freshNodes[i]];
      nodes := nodes[freshNodes[i] := clone];
      if o in oldAstBb {
        toAst := Insert(toAst, oldAstBb[o], freshNodes[i]);
        toCfg := Insert(toCfg, freshNodes[i], oldAstBb[o]);
      }
      sub := sub[o := freshNodes[i]];
    }
    assert freshNodes[..n] == freshNodes;
  }

  /**
   * One round of the last copy loop: the node at the next address has not
   * been updated yet, so updating it is the next assignment of the fold.
   */
  lemma UpdateStep(store: map<Ptr, ASTNode>, clones: seq<Ptr>, sub: map<Ptr, Ptr>,
                   exprSub: map<ExprNodes.ExprPtr, ExprNodes.ExprPtr>, i: nat)
    requires i < |clones| && Remappable(store, clones, sub) && NoDuplicates(clones)
    ensures var copies := CopiedNodes(store, clones, sub, exprSub);
            var m := Assigned(store, clones, copies, i);
            var p := clones[i];
            p in m && m[p] == store[p] && RemappedLinks(m[p].variant) <= sub.Keys &&
            (m[p].variant.If? ==> m[p].variant.condExpr.Some?) &&
            m[p := CopiedNode(m[p], sub, exprSub)] == Assigned(store, clones, copies, i + 1)
  {
    var copies := CopiedNodes(store, clones, sub, exprSub);
    AssignedValues(store, clones, copies, i);
    assert clones[i] in clones;
  }

  /**
   * Erasing the entry of `p` from a list that lists each key of a store
   * once leaves a list that lists each key of the store without `p` once.
   */
  lemma RemovedKeys<V>(list: seq<nat>, store: map<nat, V>, p: nat)
    requires (forall q :: q in store <==> q in list) && |store| == |list|
    ensures var r := RemoveFirst(list, p);
            (forall q :: q in store - {p} <==> q in r) && |store - {p}| == |r| && p !in r
  {
    CountedListDistinct(list, store.Keys);
    var r := RemoveFirst(list, p);
    if p in list {
      var k := FindIndex(list, p);
      assert r == RemoveAt(list, k);
      forall q
        ensures q in r <==> q in list && q != p
      {
        if q in r {
          var j :| 0 <= j < |r| && r[j] == q;
          if j < k { assert list[j] == q; } else { assert list[j + 1] == q; }
        }
        if q in list && q != p {
          var j :| 0 <= j < |list| && list[j] == q;
          if j < k { assert r[j] == q; } else { assert j != k && r[j - 1] == q; }
        }
      }
      assert (store - {p}).Keys == store.Keys - {p};
    }
  }

  /** The global `Counter` behind `getID`, shared by every tree; it starts at 1. */
  class SequenceCounter {
    var counter: nat

    constructor()
      ensures counter == 1
    {
      counter := 1;
    }

    /** `getID`: the current value, after which the counter moves on by one. */
    method GetID() returns (id: nat)
      modifies this
      ensures id == old(counter) && counter == old(counter) + 1
    {
      id := counter;
      counter := counter + 1;
    }
  }

  /** The name of the sequence node made with counter value `n`. */
  function SequenceName(n: nat): string
  {
    "sequence " + NatToString(n)
  }

  /** Different counter values give different names, so successive sequence nodes are told apart. */
  lemma SequenceNamesDistinct(m: nat, n: nat)
    ensures SequenceName(m) == SequenceName(n) <==> m == n
  {
    if SequenceName(m) == SequenceName(n) {
      var prefix := "sequence ";
      assert SequenceName(m)[|prefix|..] == NatToString(m);
      assert SequenceName(n)[|prefix|..] == NatToString(n);
      NatToStringInjective(m, n);
    }
  }

  class ASTTree {
    /** ASTNodeList: the addresses of the owned nodes, in insertion order. */
    var nodeList: seq<Ptr>
    /** The contents of the owned nodes. */
    var store: map<Ptr, ASTNode>
    /** BBASTMap and ASTBBMap. */
    var bbAst: map<CFGRef, Ptr>
    var astBb: map<Ptr, CFGRef>
    /** CondExprList: the owned condition expressions and their contents. */
    var condExprs: seq<ExprNodes.ExprPtr>
    var exprStore: map<ExprNodes.ExprPtr, ExprNodes.ExprNode>
    var root: Option<Ptr>
    /** The next ID `getNewID` hands out. */
    var nextId: nat

    /**
     * Each owned node has contents and is listed once (the list is as long
     * as the set of addresses with contents); likewise for expressions.
     */
    ghost predicate Valid()
      reads this
    {
      (forall p :: p in store <==> p in nodeList) && |store| == |nodeList| &&
      (forall e :: e in exprStore <==> e in condExprs) && |exprStore| == |condExprs|
    }

    /** The lists of a valid tree have no duplicates. */
    lemma ValidListsDistinct()
      requires Valid()
      ensures NoDuplicates(nodeList) && NoDuplicates(condExprs)
    {
      CountedListDistinct(nodeList, store.Keys);
      CountedListDistinct(condExprs, exprStore.Keys);
    }

    constructor()
      ensures Valid()
      ensures nodeList == [] && store == map[] && bbAst == map[] && astBb == map[]
      ensures condExprs == [] && exprStore == map[] && root == None && nextId == 0
    {
      nodeList := [];
      store := map[];
      bbAst := map[];
      astBb := map[];
      condExprs := [];
      exprStore := map[];
      root := None;
      nextId := 0;
    }

    /** `size`: the number of owned nodes. */
    function Size(): nat
      reads this
    {
      |nodeList|
    }

    /**
     * `addSequenceNode`: appends one new, empty sequence node at the fresh
     * address `addr`, named after the value `getID` takes from the global
     * counter, which it advances.
     */
    method AddSequenceNode(addr: Ptr, ids: SequenceCounter) returns (s: Ptr)
      requires Valid() && addr !in store
      modifies this, ids
      ensures Valid() && s == addr
      ensures nodeList == old(nodeList) + [addr] && Size() == old(Size()) + 1
      ensures store == old(store)[addr := ASTNode(Sequence([]), None, SequenceName(old(ids.counter)), None, old(nextId), false)]
      ensures nextId == old(nextId) + 1 && ids.counter == old(ids.counter) + 1
      ensures bbAst == old(bbAst) && astBb == old(astBb) && root == old(root)
      ensures condExprs == old(condExprs) && exprStore == old(exprStore)
    {
      var id := ids.GetID();
      nodeList := nodeList + [addr];
      store := store[addr := ASTNode(Sequence([]), None, SequenceName(id), None, nextId, false)];
      nextId := nextId + 1;
      s := addr;
    }

    /**
     * `addASTNode`: appends `node` at the fresh address `addr` with a new ID
     * and records it as the AST node of `cfg`; neither map may know either
     * end yet.
     */
    method AddASTNode(cfg: CFGRef, addr: Ptr, node: ASTNode)
      requires Valid() && addr !in store
      requires cfg !in bbAst && addr !in astBb
      modifies this
      ensures Valid()
      ensures nodeList == old(nodeList) + [addr]
      ensures store == old(store)[addr := node.(id := old(nextId))]
      ensures bbAst == old(bbAst)[cfg := addr] && astBb == old(astBb)[addr := cfg]
      ensures FindASTNode(cfg) == addr && FindCFGNode(addr) == Some(cfg)
      ensures nextId == old(nextId) + 1 && root == old(root)
      ensures condExprs == old(condExprs) && exprStore == old(exprStore)
    {
      nodeList := nodeList + [addr];
      store := store[addr := node.(id := nextId)];
      nextId := nextId + 1;
      bbAst := bbAst[cfg := addr];
      astBb := astBb[addr := cfg];
    }

    /**
     * `removeASTNode`: erases the first list entry equal to `p`, which frees
     * that node; the CFG maps are not touched.
     */
    method RemoveASTNode(p: Ptr)
      requires Valid()
      modifies this
      ensures Valid()
      ensures nodeList == RemoveFirst(old(nodeList), p)
      ensures p !in nodeList
      ensures store == old(store) - {p}
      ensures bbAst == old(bbAst) && astBb == old(astBb) && root == old(root) && nextId == old(nextId)
      ensures condExprs == old(condExprs) && exprStore == old(exprStore)
    {
      RemovedKeys(nodeList, store, p);
      var list := nodeList;
      var i := 0;
      while i < |list| && list[i] != p
        invariant 0 <= i <= |list|
        invariant forall j :: 0 <= j < i ==> list[j] != p
      {
        i := i + 1;
      }
      if i < |list| {
        assert i == FindIndex(list, p);
        nodeList := list[..i] + list[i + 1..];
      }
      store := store - {p};
    }

    /** `findASTNode`: the AST node of a CFG node, which must have one. */
    function FindASTNode(cfg: CFGRef): (p: Ptr)
      reads this
      requires cfg in bbAst
      ensures (cfg, p) in bbAst.Items
    {
      bbAst[cfg]
    }

    /** `findCFGNode`: the CFG node of an AST node, or null when it has none (a break or a continue, say). */
    function FindCFGNode(p: Ptr): (c: Option<CFGRef>)
      reads this
      ensures c.None? <==> p !in astBb
      ensures c.Some? ==> (p, c.value) in astBb.Items
    {
      if p in astBb then Some(astBb[p]) else None
    }

    method SetRoot(r: Ptr)
      modifies this
      ensures root == Some(r)
      ensures nodeList == old(nodeList) && store == old(store) && bbAst == old(bbAst) && astBb == old(astBb)
      ensures condExprs == old(condExprs) && exprStore == old(exprStore) && nextId == old(nextId)
    {
      root := Some(r);
    }

    /** `addCondExpr`: takes ownership of an expression, stored at the fresh address `addr`. */
    method AddCondExpr(addr: ExprNodes.ExprPtr, e: ExprNodes.ExprNode) returns (r: ExprNodes.ExprPtr)
      requires Valid() && addr !in exprStore
      modifies this
      ensures Valid() && r == addr
      ensures condExprs == old(condExprs) + [addr] && exprStore == old(exprStore)[addr := e]
      ensures nodeList == old(nodeList) && store == old(store) && bbAst == old(bbAst) && astBb == old(astBb)
      ensures root == old(root) && nextId == old(nextId)
    {
      condExprs := condExprs + [addr];
      exprStore := exprStore[addr := e];
      r := addr;
    }

    /**
     * The first loop of copyASTNodesFrom: appends a clone of each node of
     * `oldAST`, with a new ID, at the fresh addresses `freshNodes`, copies
     * the CFG associations, and returns the old-to-new substitution map.
     */
    method CloneNodes(oldAST: ASTTree, freshNodes: seq<Ptr>) returns (sub: map<Ptr, Ptr>)
      requires oldAST != this
      requires |freshNodes| == |oldAST.nodeList| && forall p :: p in oldAST.nodeList ==> p in oldAST.store
      modifies this
      ensures nodeList == old(nodeList) + freshNodes
      ensures store == ClonedStore(old(store), oldAST.nodeList, oldAST.store, freshNodes, old(nextId))
      ensures sub == Substitution(oldAST.nodeList, freshNodes)
      ensures bbAst == CopiedBBAST(old(bbAst), oldAST.nodeList, freshNodes, oldAST.astBb, |freshNodes|)
      ensures astBb == CopiedASTBB(old(astBb), oldAST.nodeList, freshNodes, oldAST.astBb, |freshNodes|)
      ensures nextId == old(nextId) + |freshNodes|
      ensures condExprs == old(condExprs) && exprStore == old(exprStore) && root == old(root)
    {
      var list, nodes, toAst, toCfg, id;
      list, nodes, toAst, toCfg, sub, id :=
        CloneLoop(nodeList, store, bbAst, astBb, nextId, oldAST.nodeList, oldAST.store, oldAST.astBb, freshNodes);
      nodeList, store, bbAst, astBb, nextId := list, nodes, toAst, toCfg, id;
    }

    /**
     * The second loop of copyASTNodesFrom: appends a copy of each (atomic)
     * condition expression of `oldAST` at the fresh addresses `freshExprs`
     * and returns the old-to-new expression map.
     */
    method CloneExpressions(oldAST: ASTTree, freshExprs: seq<ExprNodes.ExprPtr>) returns (exprSub: map<ExprNodes.ExprPtr, ExprNodes.ExprPtr>)
      requires oldAST != this
      requires |freshExprs| == |oldAST.condExprs|
      requires forall e :: e in oldAST.condExprs ==> e in oldAST.exprStore && ExprNodes.IsAtomic(oldAST.exprStore[e])
      modifies this
      ensures condExprs == old(condExprs) + freshExprs
      ensures exprStore == Assigned(old(exprStore), freshExprs, AtomicCopies(oldAST.condExprs, oldAST.exprStore), |freshExprs|)
      ensures exprSub == Substitution(oldAST.condExprs, freshExprs)
      ensures nodeList == old(nodeList) && store == old(store) && bbAst == old(bbAst) && astBb == old(astBb)
      ensures nextId == old(nextId) && root == old(root)
    {
      exprSub := map[];
      var oldExprs := oldAST.condExprs;
      var oldExprStore := oldAST.exprStore;
      ghost var copies := AtomicCopies(oldExprs, oldExprStore);
      for i := 0 to |oldExprs|
        invariant condExprs == old(condExprs) + freshExprs[..i]
        invariant exprStore == Assigned(old(exprStore), freshExprs, copies, i)
        invariant exprSub == Assigned(map[], oldExprs, freshExprs, i)
        invariant nodeList == old(nodeList) && store == old(store) && bbAst == old(bbAst) && astBb == old(astBb)
        invariant nextId == old(nextId) && root == old(root)
      {
        var e := oldExprStore[oldExprs[i]];
        AppendStep(old(condExprs), freshExprs, i);
        condExprs := condExprs + [freshExprs[i]];
        exprStore := exprStore[freshExprs[i] := ExprNodes.AtomicNode(ExprNodes.GetConditionalBasicBlock(e))];
        exprSub := exprSub[oldExprs[i] := freshExprs[i]];
      }
      assert freshExprs[..|oldExprs|] == freshExprs;
    }

    /**
     * The last loop of copyASTNodesFrom: the node at each address of
     * `clones` has its pointers updated and, for an if, its condition.
     */
    method UpdateClones(clones: seq<Ptr>, sub: map<Ptr, Ptr>, exprSub: map<ExprNodes.ExprPtr, ExprNodes.ExprPtr>)
      requires Remappable(store, clones, sub) && NoDuplicates(clones)
      modifies this
      ensures store == UpdatedStore(old(store), clones, sub, exprSub)
      ensures nodeList == old(nodeList) && bbAst == old(bbAst) && astBb == old(astBb)
      ensures condExprs == old(condExprs) && exprStore == old(exprStore) && nextId == old(nextId) && root == old(root)
    {
      ghost var store0 := store;
      for i := 0 to |clones|
        invariant store == Assigned(store0, clones, CopiedNodes(store0, clones, sub, exprSub), i)
        invariant nodeList == old(nodeList) && bbAst == old(bbAst) && astBb == old(astBb)
        invariant condExprs == old(condExprs) && exprStore == old(exprStore) && nextId == old(nextId) && root == old(root)
      {
        UpdateStep(store0, clones, sub, exprSub, i);
        var p := clones[i];
        store := store[p := CopiedNode(store[p], sub, exprSub)];
      }
    }

    /**
     * `copyASTNodesFrom`: clones every node of `oldAST` into this tree (at
     * the fresh addresses `freshNodes`, with new IDs), copies their CFG
     * associations, clones the (atomic) condition expressions (at
     * `freshExprs`), then updates the pointers of the new nodes through the
     * old-to-new maps. Returns the clone of the old root. `oldAST` is not
     * modified.
     */
    method CopyASTNodesFrom(oldAST: ASTTree, freshNodes: seq<Ptr>, freshExprs: seq<ExprNodes.ExprPtr>) returns (r: Ptr)
      requires oldAST != this && Valid() && oldAST.Valid()
      requires |freshNodes| == |oldAST.nodeList| && FreshFor(freshNodes, store)
      requires |freshExprs| == |oldAST.condExprs| && FreshFor(freshExprs, exprStore)
      // updateASTNodesPointers finds every pointer it follows in the substitution map
      requires forall p :: p in oldAST.store ==> RemappedLinks(oldAST.store[p].variant) <= oldAST.store.Keys
      // updateCondExprPtr needs a condition
      requires forall p :: p in oldAST.store && oldAST.store[p].variant.If? ==> oldAST.store[p].variant.condExpr.Some?
      // every expression is cast to an atomic node
      requires forall e :: e in oldAST.exprStore ==> ExprNodes.IsAtomic(oldAST.exprStore[e])
      // the old root has an image
      requires oldAST.root.Some? && oldAST.root.value in oldAST.store
      modifies this
      ensures Valid()
      ensures nodeList == old(nodeList) + freshNodes && condExprs == old(condExprs) + freshExprs
      ensures var sub := Substitution(oldAST.nodeList, freshNodes);
              var cloned := ClonedStore(old(store), oldAST.nodeList, oldAST.store, freshNodes, old(nextId));
              Remappable(cloned, freshNodes, sub) &&
              store == UpdatedStore(cloned, freshNodes, sub, Substitution(oldAST.condExprs, freshExprs)) &&
              oldAST.root.value in sub && r == sub[oldAST.root.value]
      ensures exprStore == Assigned(old(exprStore), freshExprs, AtomicCopies(oldAST.condExprs, oldAST.exprStore), |freshExprs|)
      ensures bbAst == CopiedBBAST(old(bbAst), oldAST.nodeList, freshNodes, oldAST.astBb, |freshNodes|)
      ensures astBb == CopiedASTBB(old(astBb), oldAST.nodeList, freshNodes, oldAST.astBb, |freshNodes|)
      ensures nextId == old(nextId) + |freshNodes| && root == old(root)
    {
      oldAST.ValidListsDistinct();
      assert CopyableTree(oldAST.nodeList, oldAST.store);
      var sub := CloneNodes(oldAST, freshNodes);
      var exprSub := CloneExpressions(oldAST, freshExprs);
      CopyIsRemappable(old(store), oldAST.nodeList, oldAST.store, freshNodes, old(nextId));
      ghost var cloned := store;
      UpdateClones(freshNodes, sub, exprSub);
      AppendedKeys(old(nodeList), old(store), freshNodes, ClonedNodes(oldAST.nodeList, oldAST.store, old(nextId)));
      UpdatedKeys(cloned, freshNodes, sub, exprSub);
      AppendedKeys(old(condExprs), old(exprStore), freshExprs, AtomicCopies(oldAST.condExprs, oldAST.exprStore));
      SubstitutionMaps(oldAST.nodeList, freshNodes);
      r := sub[oldAST.root.value];
    }
  }
}
