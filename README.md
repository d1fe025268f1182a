# revng core, modelled in Dafny

revng lifts machine code to LLVM IR, rebuilds each function's control-flow
graph and decompiles it to C. This project models the parts of that pipeline
whose logic stands on its own, and proves properties of the model:

- **Control-flow restructuring** (`lib/RestructureCFGPass`):
  - backedge discovery by an explicit-stack depth-first search
    (`restructure_backedges.dfy`);
  - growing, merging and simplifying strongly-connected meta-regions
    (`restructure_regions.dfy`);
  - ordering them and computing their parents (`restructure_order.dfy`);
  - building meta-regions from backedges and their reachable nodes
    (`restructure_create.dfy`);
  - collapsing a region: retreating edges, head election, dispatcher
    labels, successor deduplication, backedge rewriting, RPOT pruning and
    duplicate counting (`restructure_collapse.dfy`).
- **The restructuring data structures**:
  - `BasicBlockNode` with its successor and predecessor lists
    (`basic_block_node.dfy`);
  - `MetaRegion` with its node set and parent (`meta_region.dfy`);
  - condition expressions (`expr_node.dfy`);
  - AST nodes, their structural equality and pointer remapping
    (`ast_node.dfy`);
  - the `ASTTree` that owns them, including `copyASTNodesFrom`
    (`ast_tree.dfy`).
  AST nodes live at addresses in their tree's store, so a pointer that still
  points into another tree can be stated and seen.
- **Stack segregation** (`segregate_stack.dfy`):
  - the `StackAccessRedirector` span map;
  - the stack-byte transfer function;
  - the return-address store purge;
  - the `shiftAmount` computation.
- **The binary model** (`binary_model.dfy`, `binary_verify.dfy`,
  `function_cfg.dfy`):
  - edge, call-edge, function and segment verification;
  - custom-name uniqueness;
  - the ELF relocation table;
  - `FunctionCFG` and its graph.
- **Pipeline contracts** (`pipeline_contract.dfy`):
  - kind and rank matching;
  - rank promotion and forwarding;
  - `deduceResults`, `deduceRequirements` and `insertDefaultInput`;
  - contract groups.
- **Memory accesses** (`memory_access.dfy`):
  - `MemoryAccess` equality and `mayAlias`;
  - the `TypeSizeProvider` cache.
- **Assignment marking flags** (`mark_assignments.dfy`).
- **Integer literal formatting** (`pretty_int.dfy`).
- **Memory-operation compatibility and side effects**
  (`decompilation_helpers.dfy`).
- **The lifter's opcode tables and bit semantics**
  (`instruction_translator.dfy`):
  - register sizes, binary operations and condition predicates;
  - `pc`;
  - deposit, rotate and double-width arithmetic, over machine words.
- **The daemon's clean-up helpers**
  (`python/revng/daemon/util.py`, in `daemon_util.dfy`).

Small shared definitions live in `wrappers.dfy` (Option, Result),
`machine_ints.dfy`, `sequences.dfy`, `sets.dfy` and `strings.dfy`.

Where the source updates objects in place, the model does the same:
`BasicBlockNode`, `MetaRegion`, `ASTTree`, `StackAccessRedirector`,
`FunctionCFG`, `ContainerToTargetsMap`, `TypeSizeProvider` and `Flags` are
classes, and their methods state their whole new state. Loops become `while`
or `for` loops, proved against specification functions. Pure queries and case
tables become functions and lemmas.

Where the code and its documentation disagree, the model follows the code:
- `IfNode` equality keeps only the else comparison when an else branch exists.
- `deduceResults` without a source builds `depth - 1` path components, while
  `insertDefaultInput` builds `depth`.
- In `target_dict_to_graphql`, an existing `"pathComponents"` key is kept,
  because the original dictionary is spread after the new entry.

## Model

| member | source | states |
|---|---|---|
| RestructureBackedges.GetBackedges | lib/RestructureCFGPass/RestructureCFG.cpp:60-115 | the explicit-stack depth-first visit terminates, and every edge it reports as a backedge (its target started and not finished when the edge is explored) is an edge of the graph whose target reaches its source |
| RestructureBackedges.BackedgeClosesCycle | lib/RestructureCFGPass/RestructureCFG.cpp:60-115 | an edge whose target reaches its source makes the graph cyclic |
| RestructureBackedges.AcyclicHasNoBackedge | lib/RestructureCFGPass/RestructureCFG.cpp:60-115 | on an acyclic graph the set of backedges is empty |
| RestructureRegions.NotMergeableIsDisjointOrNested | lib/RestructureCFGPass/RestructureCFG.cpp:122-127 | two regions fail the merge condition exactly when they are disjoint or one strictly contains the other |
| RestructureRegions.MergeInto | lib/RestructureCFGPass/RestructureCFG.cpp:128-129 | the first region becomes the union of the two and the second is erased, so the vector shrinks by one |
| RestructureRegions.MergeSCSStep | lib/RestructureCFGPass/RestructureCFG.cpp:117-136 | it merges exactly when some pair of regions is mergeable, and then it merges the first such pair in scan order; otherwise the regions are unchanged |
| RestructureRegions.MergeIntoKeepsUnion | lib/RestructureCFGPass/RestructureCFG.cpp:128-129 | a merge loses no node: the union of all regions is unchanged |
| RestructureRegions.MergeIntoKeepsRespect | lib/RestructureCFGPass/RestructureCFG.cpp:128-129 | if every region held both endpoints of an edge or neither, that still holds after a merge |
| RestructureRegions.SimplifySCS | lib/RestructureCFGPass/RestructureCFG.cpp:138-143 | at the fixed point any two regions are disjoint or strictly nested, no node is lost, the vector does not grow, and edges all regions respected are still respected |
| RestructureRegions.CheckMetaregionConsistency | lib/RestructureCFGPass/RestructureCFG.cpp:228-246 | the result is true exactly when every region holds both endpoints of each backedge or neither |
| RestructureRegions.MergeSCSAbnormalRetreating | lib/RestructureCFGPass/RestructureCFG.cpp:145-185 | it changes something exactly when a region outside the blacklist holds one endpoint of a backedge; the first such region absorbs the backedge's owner region, takes over the backedge, and the absorbed region is blacklisted |
| RestructureRegions.AbnormalMergeStep | lib/RestructureCFGPass/RestructureCFG.cpp:169-174 | one abnormal merge strictly grows the absorbing region, keeps the union of all regions, and keeps every backedge owned by a region holding both endpoints |
| RestructureRegions.KeepUnlisted | lib/RestructureCFGPass/RestructureCFG.cpp:210-217 | erasing the blacklisted regions never lengthens the vector |
| RestructureRegions.KeepUnlistedSource | lib/RestructureCFGPass/RestructureCFG.cpp:210-217 | every region kept by the erase/remove_if is a region outside the blacklist |
| RestructureRegions.KeepUnlistedKeeps | lib/RestructureCFGPass/RestructureCFG.cpp:210-217 | every region outside the blacklist is kept |
| RestructureRegions.KeepUnlistedConsistent | lib/RestructureCFGPass/RestructureCFG.cpp:210-217 | once every region outside the blacklist is settled, the remaining regions pass the consistency check |
| RestructureRegions.KeepUnlistedUnion | lib/RestructureCFGPass/RestructureCFG.cpp:210-217 | when every node is still held by a region outside the blacklist, erasing the blacklisted regions loses no node |
| RestructureRegions.GrowAndBlacklistLowersSlack | lib/RestructureCFGPass/RestructureCFG.cpp:202-208 | growing a region and blacklisting another strictly lowers a bounded measure, so the fixed-point loop terminates |
| RestructureRegions.SimplifySCSAbnormalRetreating | lib/RestructureCFGPass/RestructureCFG.cpp:187-218 | when the k-th region starts as the owner of the k-th backedge, the final regions hold both endpoints of each backedge or neither (the check at line 549), no node is lost, and the vector does not grow |
| RestructureOrder.InsertBySize | lib/RestructureCFGPass/RestructureCFG.cpp:220-226 | inserting one region into a list sorted by size keeps it sorted and adds exactly that region |
| RestructureOrder.SortMetaRegions | lib/RestructureCFGPass/RestructureCFG.cpp:220-226 | the result is ordered by increasing node count and is a permutation of the input |
| RestructureOrder.ComputeParents | lib/RestructureCFGPass/RestructureCFG.cpp:248-279 | each region's parent is the first other region it is a subset of, and it is the root exactly when no other region contains it |
| RestructureOrder.NestedParentsGrow | lib/RestructureCFGPass/RestructureCFG.cpp:248-279 | when regions are non-empty and pairwise disjoint or nested, following parents strictly grows the region, so the parent relation has no cycle |
| RestructureOrder.UnprocessedTop | lib/RestructureCFGPass/RestructureCFG.cpp:285-305 | from any unprocessed region, climbing parents reaches an unprocessed region whose parent is the root or already processed |
| RestructureOrder.FirstReady | lib/RestructureCFGPass/RestructureCFG.cpp:286-303 | the scan picks the first unprocessed region whose parent is not an unprocessed region |
| RestructureOrder.ListReady | lib/RestructureCFGPass/RestructureCFG.cpp:298-301 | appending a ready region keeps every listed region after its listed parent and the list free of duplicates |
| RestructureOrder.SomeReady | lib/RestructureCFGPass/RestructureCFG.cpp:285 | while some region is unprocessed, some region is ready, so the outer loop always makes progress |
| RestructureOrder.ReversedPutsParentsLast | lib/RestructureCFGPass/RestructureCFG.cpp:307 | reversing a list in which parents come first puts every region before its parent |
| RestructureOrder.ApplyPartialOrder | lib/RestructureCFGPass/RestructureCFG.cpp:281-309 | the result is a permutation of the region indices in which each region precedes its parent |
| RestructureOrder.AlreadyInMetaregion | lib/RestructureCFGPass/RestructureCFG.cpp:311-322 | the result is true exactly when some region holds the node, that is when the node is in the union of the regions |
| RestructureCreate.CollectAdditionalNodes | lib/RestructureCFGPass/RestructureCFG.cpp:330-346 | the additional-nodes map sends each backedge target to the union of the reachable sets of the backedges that target it |
| RestructureCreate.AdditionalOf | lib/RestructureCFGPass/RestructureCFG.cpp:357-364 | one round adds exactly the additional nodes of the region's nodes other than its head |
| RestructureCreate.CloseRegion | lib/RestructureCFGPass/RestructureCFG.cpp:351-368 | the do-while loop returns the least closed superset of the starting nodes |
| RestructureCreate.ClosedIff | lib/RestructureCFGPass/RestructureCFG.cpp:351-368 | closure under the additional-nodes map is closure under the backedges that enter the region at a non-head node |
| RestructureCreate.CreateMetaRegions | lib/RestructureCFGPass/RestructureCFG.cpp:324-380 | one region per backedge; each contains the nodes reachable between the backedge's target and source, is closed, and is the least such set |
| RestructureCollapse.FindRetreatings | lib/RestructureCFGPass/RestructureCFG.cpp:618-645 | the retreating edges are exactly the pending backedges whose source is in the region, their targets lie in the region, and the pending backedges left are exactly those whose source is outside |
| RestructureCollapse.ElectHead | lib/RestructureCFGPass/RestructureCFG.cpp:647-657 | the candidate is the first node of the reverse post-order that is in the region and is a retreating target; there is none only when no node of the order is both, so with a retreating target in the order one is always found |
| RestructureCollapse.Label | lib/RestructureCFGPass/RestructureCFG.cpp:680 | the `unsigned` index of a target equals its position while the position fits in 32 bits |
| RestructureCollapse.Enumerate | lib/RestructureCFGPass/RestructureCFG.cpp:678 | enumerating a `std::set` of nodes lists each node exactly once, in increasing order |
| RestructureCollapse.DispatcherEdges | lib/RestructureCFGPass/RestructureCFG.cpp:677-690 | one edge per target, in set order, each carrying only the label of its position and not inlined; the index map sends each target to that label |
| RestructureCollapse.DispatcherLabelsDistinct | lib/RestructureCFGPass/RestructureCFG.cpp:680-688 | with fewer than 2^32 targets no two dispatcher edges carry the same label |
| RestructureCollapse.EntryDispatcher | lib/RestructureCFGPass/RestructureCFG.cpp:665-690 | an entry dispatcher is made exactly when there is more than one retreating target; it becomes the head with one labelled edge per target, otherwise the elected candidate is the head and no edge is added |
| RestructureCollapse.FirstDummyIsLeast | lib/RestructureCFGPass/RestructureCFG.cpp:899-915 | in set order, the first backedge dummy leading to a target is the least such successor, the representative |
| RestructureCollapse.VisitSeenDummy | lib/RestructureCFGPass/RestructureCFG.cpp:911-915 | a dummy whose target was already met is mapped to the dummy recorded first for that target, keeping the loop invariant |
| RestructureCollapse.VisitNewDummy | lib/RestructureCFGPass/RestructureCFG.cpp:906-910 | a dummy whose target is new is recorded for that target, maps to itself and joins the deduplicated successors |
| RestructureCollapse.VisitOther | lib/RestructureCFGPass/RestructureCFG.cpp:916-919 | any other successor maps to itself and joins the deduplicated successors |
| RestructureCollapse.DedupDone | lib/RestructureCFGPass/RestructureCFG.cpp:896-921 | once every successor is visited, each is mapped to its representative, which is deduplicated |
| RestructureCollapse.DeduplicateSuccessors | lib/RestructureCFGPass/RestructureCFG.cpp:896-921 | every successor is mapped to its representative (the first dummy to the same backedge target, or itself); the deduplicated successors are exactly those mapped to themselves |
| RestructureCollapse.SameBackedgeSameRepresentative | lib/RestructureCFGPass/RestructureCFG.cpp:899-915 | two dummies on backedges to the same node share one representative |
| RestructureCollapse.ExitDispatcher | lib/RestructureCFGPass/RestructureCFG.cpp:923-950 | an exit dispatcher is made exactly when more than one deduplicated successor remains, with one labelled edge per deduplicated successor |
| RestructureCollapse.CollapsedSuccessor | lib/RestructureCFGPass/RestructureCFG.cpp:1025-1039 | the collapsed node leads to the exit dispatcher if there is one, else to the only deduplicated successor, else nowhere |
| RestructureCollapse.CollapseBackedges | lib/RestructureCFGPass/RestructureCFG.cpp:980-999 | given that no pending backedge leaves the region and those entering it target the head, backedges into the region are redirected to the collapsed node and all others are kept |
| RestructureCollapse.RedirectIncoming | lib/RestructureCFGPass/RestructureCFG.cpp:1009-1023 | an incoming edge that is still a pending backedge is replaced by the same edge into the collapsed node; after the collapse above none targets the head, so nothing changes |
| RestructureCollapse.RemoveFromRPOT | lib/RestructureCFGPass/RestructureCFG.cpp:382-394 | the order loses every occurrence of the node and keeps the other nodes in order |
| RestructureCollapse.AccumulateDuplicates | lib/RestructureCFGPass/RestructureCFG.cpp:413-426 | each block's count grows by the number of code nodes for it in the region and, recursively, in the collapsed regions inside it; no other key appears |
| BasicBlockNodes.Targets | include/revng-c/RestructureCFGPass/BasicBlockNode.h:265-271 | the successor (or predecessor) nodes are the first components of the labelled links, in order |
| BasicBlockNodes.BasicBlockNode.CodeNode | include/revng-c/RestructureCFGPass/BasicBlockNode.h:149-152 | a Code node records its original block and name, has no collapsed region, no edges and state value 0 |
| BasicBlockNodes.BasicBlockNode.CollapsedNode | include/revng-c/RestructureCFGPass/BasicBlockNode.h:155-156 | a Collapsed node records its region, is named "collapsed", has no original block and no edges |
| BasicBlockNodes.BasicBlockNode.NamedNode | include/revng-c/RestructureCFGPass/BasicBlockNode.h:159-165 | the name-only constructor accepts only Empty, Break, Continue and Dispatcher and builds an edgeless node of that type |
| BasicBlockNodes.BasicBlockNode.SetNode | include/revng-c/RestructureCFGPass/BasicBlockNode.h:168-174 | the value constructor accepts only Set and records the state value |
| BasicBlockNodes.BasicBlockNode.Clone | include/revng-c/RestructureCFGPass/BasicBlockNode.h:140-146 | the clone copies original node, collapsed region, name, type and state value, belongs to the new parent and has no edges |
| BasicBlockNodes.BasicBlockNode.IsArtificial | include/revng-c/RestructureCFGPass/BasicBlockNode.h:182-184 | a node is artificial exactly when it is Empty, Break, Continue, Set or Dispatcher |
| BasicBlockNodes.BasicBlockNode.GetOriginalNode | include/revng-c/RestructureCFGPass/BasicBlockNode.h:296-299 | only a Code node with an original block may be asked, and it returns that block |
| BasicBlockNodes.BasicBlockNode.GetNameStr | include/revng-c/RestructureCFGPass/BasicBlockNode.h:302-304 | the string is "ID:", the decimal digits of the node's ID, a space, then the name |
| BasicBlockNodes.BasicBlockNode.HasSuccessor | include/revng-c/RestructureCFGPass/BasicBlockNode.h:215-224 | true exactly when some successor link leads to the candidate |
| BasicBlockNodes.BasicBlockNode.HasPredecessor | include/revng-c/RestructureCFGPass/BasicBlockNode.h:238-248 | true exactly when some predecessor link comes from the candidate |
| BasicBlockNodes.BasicBlockNode.SetParent | include/revng-c/RestructureCFGPass/BasicBlockNode.h:194 | the parent becomes the given region and nothing else changes |
| BasicBlockNodes.BasicBlockNode.SetName | include/revng-c/RestructureCFGPass/BasicBlockNode.h:306 | the name becomes the given string and nothing else changes |
| BasicBlockNodes.BasicBlockNode.AddLabeledSuccessor | include/revng-c/RestructureCFGPass/BasicBlockNode.h:201-209 | requires that no link to the node exists; appends exactly that link, so the list stays free of duplicate targets |
| BasicBlockNodes.BasicBlockNode.AddUnlabeledSuccessor | include/revng-c/RestructureCFGPass/BasicBlockNode.h:211-213 | appends a link whose edge information has no label and is not inlined |
| BasicBlockNodes.BasicBlockNode.AddLabeledPredecessor | include/revng-c/RestructureCFGPass/BasicBlockNode.h:229-232 | requires that no link from the node exists; appends exactly that link |
| BasicBlockNodes.BasicBlockNode.AddUnlabeledPredecessor | include/revng-c/RestructureCFGPass/BasicBlockNode.h:234-236 | appends a predecessor link with no label, not inlined |
| BasicBlockNodes.BasicBlockNode.RemoveSuccessor | include/revng-c/RestructureCFGPass/BasicBlockNode.h:226 | afterwards no successor link leads to the node and the other links are kept in order |
| BasicBlockNodes.BasicBlockNode.RemovePredecessor | include/revng-c/RestructureCFGPass/BasicBlockNode.h:250 | afterwards no predecessor link comes from the node and the other links are kept in order |
| BasicBlockNodes.RemoveLinksTo | include/revng-c/RestructureCFGPass/BasicBlockNode.h:226 | the links kept are exactly those not leading to the node |
| BasicBlockNodes.RemoveLinksToKeepsNoDuplicates | include/revng-c/RestructureCFGPass/BasicBlockNode.h:226 | on a list without duplicate targets, removal keeps it so and removes exactly one link when one leads to the node, none otherwise |
| MetaRegions.IntersectsIff | include/revng-c/RestructureCFGPass/MetaRegion.h:90 | two node sets intersect exactly when some node is in both |
| MetaRegions.MetaRegion.constructor | include/revng-c/RestructureCFGPass/MetaRegion.h:55-58 | the region records its index, its node set and its IsSCS flag; the source leaves the parent pointer uninitialised, the model starts it at null |
| MetaRegions.MetaRegion.SetParent | include/revng-c/RestructureCFGPass/MetaRegion.h:70-72 | getParent then returns the region that was set |
| MetaRegions.MetaRegion.NodesSize | include/revng-c/RestructureCFGPass/MetaRegion.h:76 | the result is the number of nodes in the region |
| MetaRegions.MetaRegion.InsertNode | include/revng-c/RestructureCFGPass/MetaRegion.h:107 | the node set gains exactly that node |
| MetaRegions.MetaRegion.RemoveNode | include/revng-c/RestructureCFGPass/MetaRegion.h:109 | the node set loses exactly that node |
| MetaRegions.MetaRegion.MergeWith | include/revng-c/RestructureCFGPass/MetaRegion.h:98-101 | the nodes become the union with the other region's nodes, and the other region is unchanged |
| MetaRegions.MetaRegion.IntersectsWith | include/revng-c/RestructureCFGPass/MetaRegion.h:90 | true exactly when the regions share a node |
| MetaRegions.MetaRegion.IsSubSetOf | include/revng-c/RestructureCFGPass/MetaRegion.h:92 | true exactly when every node of this region is in the other |
| MetaRegions.MetaRegion.IsSuperSetOf | include/revng-c/RestructureCFGPass/MetaRegion.h:94 | true exactly when the other region is a subset of this one |
| MetaRegions.MetaRegion.NodesEquality | include/revng-c/RestructureCFGPass/MetaRegion.h:96 | true exactly when each region is a subset of the other |
| ExprNodes.GetKind | include/revng-c/RestructureCFGPass/ExprNode.h:25-31 | the kind is Atomic, Not, And or Or exactly for nodes of that variant |
| ExprNodes.Ordinal | include/revng-c/RestructureCFGPass/ExprNode.h:25 | the enumerator values are 0 to 3 |
| ExprNodes.BinaryIsAndOrOr | include/revng-c/RestructureCFGPass/ExprNode.h:94-96 | BinaryNode::classof, the kind range from And to Or, holds exactly for And and Or nodes |
| ExprNodes.ClassofExclusive | include/revng-c/RestructureCFGPass/ExprNode.h:49-134 | every node satisfies exactly one of the four classof tests |
| ExprNodes.GetConditionalBasicBlock | include/revng-c/RestructureCFGPass/ExprNode.h:51-62 | an atomic node returns the block it was built with |
| ExprNodes.GetNegatedNode | include/revng-c/RestructureCFGPass/ExprNode.h:73-84 | a Not node returns the child it was built with |
| ExprNodes.GetInternalNodes | include/revng-c/RestructureCFGPass/ExprNode.h:99-112 | a binary node returns the (left, right) pair it was built with |
| BasicBlockNodes.BasicBlockNode.IsSet | include/revng-c/RestructureCFGPass/BasicBlockNode.h:179 | true exactly when the node type is Set |
| BasicBlockNodes.BasicBlockNode.IsCode | include/revng-c/RestructureCFGPass/BasicBlockNode.h:180 | true exactly when the node type is Code |
| BasicBlockNodes.BasicBlockNode.IsEmpty | include/revng-c/RestructureCFGPass/BasicBlockNode.h:181 | true exactly when the node type is Empty |
| BasicBlockNodes.BasicBlockNode.IsDispatcher | include/revng-c/RestructureCFGPass/BasicBlockNode.h:185 | true exactly when the node type is Dispatcher |
| BasicBlockNodes.BasicBlockNode.IsCollapsed | include/revng-c/RestructureCFGPass/BasicBlockNode.h:308 | true exactly when the node type is Collapsed |
| BasicBlockNodes.BasicBlockNode.GetStateVariableValue | include/revng-c/RestructureCFGPass/BasicBlockNode.h:188-191 | requires a Set node (the assertion); the stored state-variable value |
| ExprNodes.IsAtomic | include/revng-c/RestructureCFGPass/ExprNode.h:49 | true exactly for the atomic kind |
| ExprNodes.IsNot | include/revng-c/RestructureCFGPass/ExprNode.h:71 | true exactly for the not kind |
| ExprNodes.IsBinary | include/revng-c/RestructureCFGPass/ExprNode.h:94-96 | true exactly when the kind lies between And and Or in declaration order |
| ExprNodes.IsAnd | include/revng-c/RestructureCFGPass/ExprNode.h:117 | true exactly for the and kind |
| ExprNodes.IsOr | include/revng-c/RestructureCFGPass/ExprNode.h:134 | true exactly for the or kind |
| MetaRegions.MetaRegion.GetParent | include/revng-c/RestructureCFGPass/MetaRegion.h:72 | the parent region, null when there is none |
| MetaRegions.MetaRegion.ContainsNode | include/revng-c/RestructureCFGPass/MetaRegion.h:105 | true exactly when the node is in the region node set |
| ASTNodes.Kind | include/revng-c/RestructureCFGPass/ASTNode.h:33-43 | each of the nine kinds belongs exactly to the node variant of the same name |
| ASTNodes.FromCFGNode | include/revng-c/RestructureCFGPass/ASTNode.h:70-74 | a node built from a CFG node is empty exactly when the CFG node is Empty, and has a basic block exactly when the CFG node is Code, its original block |
| ASTNodes.NewSetNode | include/revng-c/RestructureCFGPass/ASTNode.h:441-447 | a Set node takes the state value of its CFG node, which must be a Set node |
| ASTNodes.NewSwitchNode | include/revng-c/RestructureCFGPass/ASTNode.h:484-494 | a new switch keeps its cases and default and needs neither a state variable nor a loop-break dispatcher |
| ASTNodes.Clone | include/revng-c/RestructureCFGPass/ASTNode.h:554-576 | the clone has the same kind and the same fields as the original |
| ASTNodes.HasBothBranches | include/revng-c/RestructureCFGPass/ASTNode.h:187-207 | an if node has both branches exactly when its then and else pointers are both non-null |
| ASTNodes.SetThen | include/revng-c/RestructureCFGPass/ASTNode.h:183 | only the then branch changes; hasThen afterwards is whether the new pointer is non-null |
| ASTNodes.SetElse | include/revng-c/RestructureCFGPass/ASTNode.h:185 | only the else branch changes; hasElse afterwards is whether the new pointer is non-null |
| ASTNodes.UpdateCondExprPtr | lib/RestructureCFGPass/ASTNode.cpp:22-25 | requires a condition; the condition becomes its image in the map, or null when the map has none (`operator[]`), and nothing else changes |
| ASTNodes.SetWhile | include/revng-c/RestructureCFGPass/ASTNode.h:270-273 | the loop becomes a while loop with the given related condition, the body unchanged |
| ASTNodes.SetDoWhile | include/revng-c/RestructureCFGPass/ASTNode.h:275-278 | the loop becomes a do-while loop with the given related condition, the body unchanged |
| ASTNodes.GetRelatedCondition | include/revng-c/RestructureCFGPass/ASTNode.h:280-285 | only a while or do-while loop with a condition may be asked, and it returns that condition |
| ASTNodes.AddComputationIfNode | lib/RestructureCFGPass/ASTNode.cpp:27-30 | requires that no computation if is recorded yet; records the given one |
| ASTNodes.GetComputationIfNode | lib/RestructureCFGPass/ASTNode.cpp:32-35 | requires a recorded computation if and returns it |
| ASTNodes.AddNode | include/revng-c/RestructureCFGPass/ASTNode.h:317-322 | the list grows by the node and then every node along its successor chain, in chain order, ending at a node without successor |
| ASTNodes.RemoveNode | include/revng-c/RestructureCFGPass/ASTNode.h:324-327 | every occurrence of the node is removed and every other node keeps its count (and, by RemoveAllKeepsOrder, its order) |
| ASTNodes.RemoveAllKeepsOrder | include/revng-c/RestructureCFGPass/ASTNode.h:324-327 | the erase/remove idiom commutes with concatenation, so the kept nodes stay in order |
| ASTNodes.RemapList | lib/RestructureCFGPass/ASTNode.cpp:52-60 | every node of the list is replaced by its image, position by position |
| ASTNodes.RemapCases | lib/RestructureCFGPass/ASTNode.cpp:62-65 | every case keeps its labels and gets the image of its node |
| ASTNodes.UpdateASTNodesPointers | include/revng-c/RestructureCFGPass/ASTNode.h:578-586 | requires every non-null child to be in the map; If, Sequence and Switch nodes get the images of their children, null branches and a null default stay null, every other kind is unchanged |
| ASTNodes.UpdatedChildrenAreImages | lib/RestructureCFGPass/ASTNode.cpp:39-68 | after the update the children of an If, Sequence or Switch node are exactly the images of the old children, and the other links are untouched |
| ASTNodes.RemapAllPointers | include/revng-c/RestructureCFGPass/ASTNode.h:578-586 | the corrected remap: every child, every side link (loop body, related condition, computation if) and the successor become their images; kind, block and ID are kept |
| ASTNodes.RemappedPointersAreImages | lib/RestructureCFGPass/ASTTree.cpp:128-133 | after the corrected remap the node pointers of the copy (children, side links and successor) are exactly the images of the old ones, so every one of them points into the new tree |
| ASTNodes.ScsBodyNotRemapped | include/revng-c/RestructureCFGPass/ASTNode.h:578-586 | a loop node's body is left pointing to the old node by the update as written, while the corrected remap moves it |
| ASTNodes.IsEqual | include/revng-c/RestructureCFGPass/ASTNode.h:613-636 | two nodes can be equal only when the second exists and has the same kind |
| ASTNodes.JumpNodesEqualByKind | include/revng-c/RestructureCFGPass/ASTNode.h:357-359 | Continue, Break and SwitchBreak nodes equal any node of the same kind |
| ASTNodes.CodeNodesEqualByBlock | lib/RestructureCFGPass/ASTNode.cpp:115-122 | a Code node equals a node exactly when that is a Code node with the same non-null basic block |
| ASTNodes.SequencesEqualPairwise | lib/RestructureCFGPass/ASTNode.cpp:159-180 | two sequences are equal exactly when they have the same length and their nodes are pairwise equal |
| ASTNodes.ThenBranchIgnored | lib/RestructureCFGPass/ASTNode.cpp:124-142 | for an if node with an else branch the result is the block check and the else comparison alone, because the then result is overwritten |
| ASTNodes.IsEqualReflexive | lib/RestructureCFGPass/ASTNode.cpp:79-180 | every node of a tree whose code and if nodes know their block is equal to itself |
| ASTNodes.IfEqualityNotSymmetric | lib/RestructureCFGPass/ASTNode.cpp:124-142 | an if node with only a then branch equals one with both branches, but not the other way round |
| ASTNodes.IsEqualSymmetric | lib/RestructureCFGPass/ASTNode.cpp:79-180 | with both branches compared, node equality is symmetric |
| ASTNodes.HasThen | include/revng-c/RestructureCFGPass/ASTNode.h:187-192 | on an if node, true exactly when the then branch is present |
| ASTNodes.HasElse | include/revng-c/RestructureCFGPass/ASTNode.h:194-199 | on an if node, true exactly when the else branch is present |
| ASTNodes.IsStandard | include/revng-c/RestructureCFGPass/ASTNode.h:264 | on a loop node, true exactly when the loop type is Standard |
| ASTNodes.IsWhile | include/revng-c/RestructureCFGPass/ASTNode.h:266 | on a loop node, true exactly when the loop type is While |
| ASTNodes.IsDoWhile | include/revng-c/RestructureCFGPass/ASTNode.h:268 | on a loop node, true exactly when the loop type is DoWhile |
| ASTNodes.NeedsStateVariable | include/revng-c/RestructureCFGPass/ASTNode.h:529 | on a switch node, its need-state-variable flag |
| ASTNodes.NeedsLoopBreakDispatcher | include/revng-c/RestructureCFGPass/ASTNode.h:533 | on a switch node, its need-loop-break-dispatcher flag |
| ASTTrees.ASTTree.AddSequenceNode | lib/RestructureCFGPass/ASTTree.cpp:25-37 | appends one empty sequence node named "sequence <n>", where n is the value of the shared global counter before the call, gives it the next node ID and returns it; the counter and the ID both move on by one, nothing else changes |
| ASTTrees.ASTTree.AddASTNode | lib/RestructureCFGPass/ASTTree.cpp:43-56 | requires that neither the CFG node nor the AST node is mapped yet; appends the node with the next ID and records it in both maps, so the two lookups find each other |
| ASTTrees.ASTTree.RemoveASTNode | lib/RestructureCFGPass/ASTTree.cpp:58-67 | removes the first occurrence of the node from the list (and it is then absent), the maps untouched |
| ASTTrees.ASTTree.FindASTNode | lib/RestructureCFGPass/ASTTree.cpp:69-71 | requires a mapped CFG node (`at`) and returns its AST node |
| ASTTrees.ASTTree.FindCFGNode | lib/RestructureCFGPass/ASTTree.cpp:73-80 | null exactly when the AST node has no CFG node, otherwise the mapped CFG node |
| ASTTrees.ASTTree.SetRoot | lib/RestructureCFGPass/ASTTree.cpp:82-84 | the root becomes the given node and nothing else changes |
| ASTTrees.ASTTree.AddCondExpr | lib/RestructureCFGPass/ASTTree.cpp:180-183 | appends one condition expression and returns it; the node side unchanged |
| ASTTrees.ASTTree.CloneNodes | lib/RestructureCFGPass/ASTTree.cpp:96-111 | the fresh clones are appended with consecutive IDs, the CFG associations copied to them, and the old-to-new map returned |
| ASTTrees.ASTTree.CloneExpressions | lib/RestructureCFGPass/ASTTree.cpp:113-119 | every (atomic) condition expression is copied at a fresh address and the old-to-new map returned |
| ASTTrees.ASTTree.UpdateClones | lib/RestructureCFGPass/ASTTree.cpp:121-133 | every clone has its pointers and, for an if node, its condition remapped; other nodes unchanged |
| ASTTrees.ASTTree.CopyASTNodesFrom | lib/RestructureCFGPass/ASTTree.cpp:90-136 | the tree keeps its invariant, gains exactly the clones and the copied expressions, and returns the clone of the old root |
| ASTTrees.CopyKeepsNodes | lib/RestructureCFGPass/ASTTree.cpp:90-136 | copying leaves every node already in the tree unchanged and adds exactly the fresh nodes |
| ASTTrees.CopiedNodeEntries | lib/RestructureCFGPass/ASTTree.cpp:96-133 | the j-th fresh node is the j-th old node with ID next+j and its pointers remapped |
| ASTTrees.CopiedNodePointers | lib/RestructureCFGPass/ASTTree.cpp:128-133 | a copied node keeps kind, ID and block, and the children of If, Sequence and Switch nodes point to new nodes, while a loop body is left as it was |
| ASTTrees.CopiedBBASTEntries | lib/RestructureCFGPass/ASTTree.cpp:105-109 | the CFG-to-AST map keeps its old entries (insert does not overwrite) and gains an entry for the CFG node of each cloned node |
| ASTTrees.CopiedASTBBEntries | lib/RestructureCFGPass/ASTTree.cpp:105-109 | the AST-to-CFG map keeps its old entries and maps each fresh clone to the CFG node of its original |
| ASTTrees.SubstitutionMaps | lib/RestructureCFGPass/ASTTree.cpp:110 | the substitution is defined exactly on the old nodes and maps the j-th to the j-th clone |
| ASTTrees.ClonedNodes | lib/RestructureCFGPass/ASTTree.cpp:96-103 | the j-th clone equals the j-th old node with ID first+j |
| ASTTrees.AtomicCopies | lib/RestructureCFGPass/ASTTree.cpp:113-116 | the j-th expression copy equals the j-th old expression |
| ASTTrees.CopyIsRemappable | lib/RestructureCFGPass/ASTTree.cpp:126-133 | every pointer followed while updating the clones has an image in the substitution |
| ASTTrees.ASTTree.ValidListsDistinct | lib/RestructureCFGPass/ASTTree.cpp:30-56 | in a valid tree the node list and the expression list have no duplicates |
| ASTTrees.CloneLoop | lib/RestructureCFGPass/ASTTree.cpp:96-111 | the clone loop appends the fresh nodes, stores the clones with consecutive IDs, builds the substitution and copies the CFG associations |
| ASTTrees.SequenceCounter.constructor | lib/RestructureCFGPass/ASTTree.cpp:25 | the global counter starts at 1 |
| ASTTrees.SequenceCounter.GetID | lib/RestructureCFGPass/ASTTree.cpp:26-28 | returns the current counter value and advances the counter by one |
| ASTTrees.SequenceNamesDistinct | lib/RestructureCFGPass/ASTTree.cpp:25-31 | two sequence names "sequence <m>" and "sequence <n>" are equal exactly when m and n are, so distinct counter values give distinct names |
| ASTTrees.ASTTree.constructor | lib/RestructureCFGPass/ASTTree.cpp:30-56 | a new tree is valid, with no nodes, no block mappings and no condition expressions |
| ASTTrees.ASTTree.Size | lib/RestructureCFGPass/ASTTree.cpp:30-67 | the number of nodes the tree owns |
| StackSegregation.LessIsStrictTotalOrder | lib/PromoteStackPointer/SegregateStackAccessesPass.cpp:89-95 | the lexicographic order on (stack offset, store, store offset) is irreflexive, transitive, total and asymmetric |
| StackSegregation.EraseRemovesAccessedBytes | lib/PromoteStackPointer/SegregateStackAccessesPass.cpp:213-216 | erasing between the two search keys removes exactly the bytes whose stack offset lies in the accessed range |
| StackSegregation.StoreBytes | lib/PromoteStackPointer/SegregateStackAccessesPass.cpp:218-221 | a store of n bytes records exactly the bytes (start + i, store, i) for i < n |
| StackSegregation.IsolatedCallClears | lib/PromoteStackPointer/SegregateStackAccessesPass.cpp:187-190 | a call to an isolated function forgets every byte |
| StackSegregation.AccessEffect | lib/PromoteStackPointer/SegregateStackAccessesPass.cpp:202-221 | a load at a known offset removes the bytes of its range; a store removes them and records its own bytes |
| StackSegregation.UnknownOffsetKeeps | lib/PromoteStackPointer/SegregateStackAccessesPass.cpp:192-204 | an access whose pointer has no known stack offset leaves the set unchanged |
| StackSegregation.TransferKeepsOwned | lib/PromoteStackPointer/SegregateStackAccessesPass.cpp:181-224 | the transfer function never records a byte of the null store |
| StackSegregation.StoreOwnsItsRange | lib/PromoteStackPointer/SegregateStackAccessesPass.cpp:213-221 | after a store, the only byte at each offset of its range is the store's own byte there |
| StackSegregation.ApplyTransferFunction | lib/PromoteStackPointer/SegregateStackAccessesPass.cpp:180-224 | the loop over the block returns the instruction-by-instruction transfer of the incoming set |
| StackSegregation.Inserted | lib/PromoteStackPointer/SegregateStackAccessesPass.cpp:112 | inserting an absent key adds exactly one entry and keeps the keys increasing |
| StackSegregation.InsertedKeepsEntries | lib/PromoteStackPointer/SegregateStackAccessesPass.cpp:112 | every span recorded earlier, and the new one, is in the map afterwards |
| StackSegregation.AdjacentGivesPairwise | lib/PromoteStackPointer/SegregateStackAccessesPass.cpp:149-162 | with sizes that fit int64, checking neighbouring spans is the same as checking that no two spans overlap |
| StackSegregation.AdjacentChain | lib/PromoteStackPointer/SegregateStackAccessesPass.cpp:149-162 | in a verified map every span ends before every later span starts |
| StackSegregation.LastAtOrBefore | lib/PromoteStackPointer/SegregateStackAccessesPass.cpp:123-130 | finds the last span starting at or before the offset, or none when every span starts after it |
| StackSegregation.NewBase | lib/PromoteStackPointer/SegregateStackAccessesPass.cpp:118-145 | an answer exists exactly when that span holds the whole access without overflow, and is the distance from the span start and the span's base |
| StackSegregation.NewBaseFindsContainingSpan | lib/PromoteStackPointer/SegregateStackAccessesPass.cpp:118-145 | on a well-formed map, whenever some span holds the access, the lookup returns that span |
| StackSegregation.StackAccessRedirector.constructor | lib/PromoteStackPointer/SegregateStackAccessesPass.cpp:107 | a new redirector has the given base offset and no spans |
| StackSegregation.StackAccessRedirector.RecordSpan | lib/PromoteStackPointer/SegregateStackAccessesPass.cpp:109-115 | requires an absent key and a map that still verifies; inserts the span at base offset plus span offset |
| StackSegregation.StackAccessRedirector.Verify | lib/PromoteStackPointer/SegregateStackAccessesPass.cpp:149-162 | returns true exactly when every span ends no later than the next one starts |
| StackSegregation.TallyCounts | lib/PromoteStackPointer/SegregateStackAccessesPass.cpp:774-781 | a store has an entry exactly when it owns a byte; the count is its number of bytes and the offset is its start as recorded by its last byte |
| StackSegregation.CollectStores | lib/PromoteStackPointer/SegregateStackAccessesPass.cpp:774-781 | the loop builds the tally of the block's final bytes |
| StackSegregation.PurgedIff | lib/PromoteStackPointer/SegregateStackAccessesPass.cpp:783-818 | a store is dropped exactly when the call owns all of it, it is as wide as the pushed return address and it starts at the stack pointer before the call |
| StackSegregation.DecideStoreCases | lib/PromoteStackPointer/SegregateStackAccessesPass.cpp:795-822 | a store not wholly owned is ignored; an owned store that does not target the return address is redirected exactly when a span holds it |
| StackSegregation.SameReinterpretation | lib/PromoteStackPointer/SegregateStackAccessesPass.cpp:785-786 | two values read as the same int64 exactly when they agree modulo 2^64 |
| StackSegregation.ShiftAmountLittleEndian | lib/PromoteStackPointer/SegregateStackAccessesPass.cpp:980-986 | a wider or equal new size gives no shift; otherwise the little-endian shift is the offset in bits |
| StackSegregation.ShiftAmountBigEndianWraps | lib/PromoteStackPointer/SegregateStackAccessesPass.cpp:980-989 | the big-endian shift as written always wraps to 2^32 minus eight times the shortfall |
| StackSegregation.ShiftAmountBigEndianExample | lib/PromoteStackPointer/SegregateStackAccessesPass.cpp:980-989 | 4 bytes at offset 0 of 8 give 4294967264 as written and 32 as intended |
| StackSegregation.ShiftAmountIntendedInRange | lib/PromoteStackPointer/SegregateStackAccessesPass.cpp:980-989 | the intended big-endian shift is the bits above the piece, stays below the width and mirrors the little-endian shift |
| StackSegregation.Less | lib/PromoteStackPointer/SegregateStackAccessesPass.cpp:89-95 | the lexicographic order on stack offset, store and store offset; LessIsStrictTotalOrder proves it strict and total |
| StackSegregation.StackAccessRedirector.ComputeNewBase | lib/PromoteStackPointer/SegregateStackAccessesPass.cpp:118-145 | the new base of an access computed from the recorded spans (NewBase) |
| StackSegregation.EraseRange | lib/PromoteStackPointer/SegregateStackAccessesPass.cpp:213-216 | the stored bytes outside the erased key range; EraseRemovesAccessedBytes states its effect |
| StackSegregation.Step | lib/PromoteStackPointer/SegregateStackAccessesPass.cpp:180-224 | the effect of one instruction: an isolated call clears, other instructions keep, an access erases and a store then records its bytes |
| StackSegregation.Transfer | lib/PromoteStackPointer/SegregateStackAccessesPass.cpp:180-224 | the transfer function of a block, one instruction after the other; TransferKeepsOwned proves the invariant it keeps |
| StackSegregation.DecideStore | lib/PromoteStackPointer/SegregateStackAccessesPass.cpp:795-822 | the decision for a store before a call: DecideStoreCases states each case |
| StackSegregation.ShiftAmount | lib/PromoteStackPointer/SegregateStackAccessesPass.cpp:980-989 | shiftAmount in 32-bit unsigned arithmetic as written; see ShiftAmountLittleEndian and ShiftAmountBigEndianWraps |
| StackSegregation.ShiftAmountIntended | lib/PromoteStackPointer/SegregateStackAccessesPass.cpp:980-989 | the corrected big-endian shift, measured from the least significant end |
| BinaryModel.EdgeRulesByGroup | lib/Model/Binary.cpp:524-557 | Invalid and Count edges never verify, three kinds need a valid destination, seven need an invalid one, and a direct call needs one exactly when it names no dynamic function; every kind is in one group |
| BinaryModel.CallEdgeRules | lib/Model/Binary.cpp:603-623 | a direct call verifies iff it has exactly one of destination and dynamic callee and no prototype; an indirect call iff its prototype exists and verifies and it has no destination |
| BinaryModel.VerifyFunction | lib/Model/Binary.cpp:432-474 | the loop over blocks and edges returns true exactly when the function meets every rule of `Function::verify` |
| BinaryModel.StartingAtPrefix | lib/Model/Binary.cpp:432-474 | counting the blocks at an address over a prefix of the CFG never exceeds the count over the whole CFG |
| BinaryModel.DynamicFunctionNeedsName | lib/Model/Binary.cpp:489-509 | a dynamic function without an original name never verifies, and one that verifies has no prototype or a function-type one |
| BinaryModel.PrototypeOr | lib/Model/Binary.cpp:303-310 | requires the default to be present when the own prototype is not; the result is always present and is the own prototype when there is one, otherwise the default |
| BinaryModel.FunctionName | lib/Model/Binary.cpp:292-301 | the naming rule of NameOr with the prefix "function_" and the entry address |
| BinaryModel.DynamicFunctionName | lib/Model/Binary.cpp:316-325 | the naming rule of NameOr with the prefix "dynamic_function_" and the original name |
| BinaryModel.BlockName | lib/Model/Binary.cpp:625-631 | the naming rule of NameOr with the prefix "bb_" and the start address |
| BinaryModel.AutomaticNamesDisjoint | lib/Model/Binary.cpp:292-325 | the automatic names of a function, a dynamic function and a block never coincide |
| BinaryModel.CheckCustomNames | lib/Model/Binary.cpp:203-212 | the check over the custom names succeeds exactly when no non-empty name occurs twice |
| BinaryModel.CustomNames | lib/Model/Binary.cpp:214-286 | the names are checked functions first, then dynamic functions, then each type with its enum entries |
| BinaryModel.EntryCount | lib/Model/Binary.cpp:276-286 | every type contributes at least its own custom name |
| BinaryModel.DuplicateFunctionNameFails | lib/Model/Binary.cpp:203-219 | two functions with the same non-empty custom name make the name check fail |
| BinaryModel.VerifyTypes | lib/Model/Binary.cpp:163-178 | returns true exactly when every type verifies and no two types share a name |
| BinaryModel.RelocationAtSegmentEndRejected | lib/Model/Binary.cpp:408-414 | a 4-byte relocation ending exactly at the segment end is rejected as written and accepted by the corrected check |
| BinaryModel.RelocationInsideIntendedIff | lib/Model/Binary.cpp:392-414 | with the corrected bound a relocation is accepted iff every byte it patches lies in the segment |
| BinaryModel.RelocationInsideAsWritten | lib/Model/Binary.cpp:408-414 | as written a relocation is accepted iff it ends strictly before the segment end |
| BinaryModel.SegmentVerifyConsequences | lib/Model/Binary.cpp:374-417 | in a segment that verifies, the file size is at most the virtual size, every section starts inside and a code section implies an executable segment |
| BinaryModel.ELFRelocationTable | lib/Model/Binary.cpp:659-746 | the x86 relative and 32-bit codes add a 32-bit address, the x86-64 relative code a 64-bit one, AArch64 has no types and R_386_COPY none |
| BinaryModel.BaseRelativeAgreesWithType | lib/Model/Binary.cpp:659-835 | a base-relative code always becomes an "add" relocation, a "write" relocation always has an answer, and a code without a type is never base-relative |
| BinaryVerification.Entries | lib/Model/Binary.cpp:253-257 | the set of function keys is exactly the set of entry addresses |
| BinaryVerification.ImportedNames | lib/Model/Binary.cpp:246-250 | the set of imported keys is exactly the set of original names |
| BinaryVerification.ValidFunctionDrawable | lib/Model/Binary.cpp:76-119 | a function that verifies has no Invalid or Count edge, so building its graph never aborts |
| BinaryVerification.StartingAtWitness | lib/Model/Binary.cpp:432-474 | when some blocks start at an address, one of them can be named |
| BinaryVerification.ValidFunctionEntry | lib/Model/Binary.cpp:76-119 | the graph of a function that verifies is empty or has a node at the entry |
| BinaryVerification.DynamicCallHasNoDestination | lib/Model/Binary.cpp:239-243 | in a function that verifies, a direct call to a dynamic function has no destination, so that check never fails |
| BinaryVerification.CheckCalls | lib/Model/Binary.cpp:232-261 | the loop succeeds exactly when every direct call names an existing callee |
| BinaryVerification.CheckFunction | lib/Model/Binary.cpp:214-261 | succeeds exactly when the function verifies, its graph is reachable from the entry with only invalid exits, and its calls resolve |
| BinaryVerification.VerifyBinary | lib/Model/Binary.cpp:200-290 | returns true exactly when every function, dynamic function and type passes, the custom names are distinct and the types verify |
| BinaryModel.NameOr | lib/Model/Binary.cpp:292-301 | the custom name when it is not empty, otherwise the prefix followed by the automatic text, which then starts with that prefix |
| BinaryModel.EdgeRules | lib/Model/Binary.cpp:524-557 | the destination rules of each edge kind; EdgeRulesByGroup states them by group |
| BinaryModel.EdgeVerify | lib/Model/Binary.cpp:568-588 | a call edge verifies by the call rules, every other edge by the edge kind rules |
| BinaryModel.CallEdgeVerify | lib/Model/Binary.cpp:603-623 | the call edge checks; CallEdgeRules states them |
| BinaryModel.BlockVerify | lib/Model/Binary.cpp:646-656 | both addresses are valid, the name verifies and every successor edge verifies |
| BinaryModel.FunctionValid | lib/Model/Binary.cpp:432-474 | what Function::verify accepts; VerifyFunction decides it |
| BinaryModel.DynamicFunctionVerify | lib/Model/Binary.cpp:489-509 | an original name is present and the prototype, if any, is a function type |
| BinaryModel.TypesVerify | lib/Model/Binary.cpp:163-178 | every type verifies and no two types share a name; VerifyTypes decides it |
| BinaryModel.SectionVerify | lib/Model/Binary.cpp:357-362 | the section end address does not overflow |
| BinaryModel.RelocationInside | lib/Model/Binary.cpp:405-414 | the relocation checks of Segment::verify as written: a valid kind, its address and its end address inside the segment |
| BinaryModel.SegmentVerify | lib/Model/Binary.cpp:374-417 | what Segment::verify accepts; SegmentVerifyConsequences states what follows |
| BinaryModel.RelocationInsideIntended | lib/Model/Binary.cpp:405-414 | the corrected relocation check: its last byte, not its end, must be inside |
| BinaryModel.SegmentVerifyIntended | lib/Model/Binary.cpp:374-417 | Segment::verify with the corrected relocation check |
| BinaryModel.FromELFRelocation | lib/Model/Binary.cpp:659-746 | the relocation type of each ELF relocation code per architecture; ELFRelocationTable states it |
| BinaryModel.IsELFRelocationBaseRelative | lib/Model/Binary.cpp:748-835 | whether an ELF relocation code is base-relative per architecture; BaseRelativeAgreesWithType relates it to the type |
| BinaryVerification.BinaryValid | lib/Model/Binary.cpp:200-290 | what Binary::verify accepts; VerifyBinary decides it |
| FunctionCFGs.EdgeTarget | lib/Model/Binary.cpp:83-111 | killer edges and calls to noreturn callees go to the invalid address, other calls to the end of the block, every other edge to its destination |
| FunctionCFGs.Touch | lib/Model/Binary.cpp:43-54 | looking a node up creates it with no successors if it is new and changes nothing else |
| FunctionCFGs.Targets | lib/Model/Binary.cpp:83-111 | one target per edge considered |
| FunctionCFGs.AddArc | lib/Model/Binary.cpp:92 | the source gains the target as its last successor, the target node exists afterwards and every other node is unchanged |
| FunctionCFGs.BlockGraph | lib/Model/Binary.cpp:80-113 | after a block is added its start is a node |
| FunctionCFGs.BlockGraphNode | lib/Model/Binary.cpp:80-113 | adding a block creates exactly its start node and its target nodes |
| FunctionCFGs.BlockGraphOthers | lib/Model/Binary.cpp:80-113 | adding a block leaves every other node's successors unchanged; a new node has none |
| FunctionCFGs.BlockGraphSource | lib/Model/Binary.cpp:80-113 | adding a block appends its targets, in order, to its start node's successors |
| FunctionCFGs.NodeOfLast | lib/Model/Binary.cpp:76-119 | a node of the CFG comes from its last block or from the blocks before it |
| FunctionCFGs.GraphOfNodes | lib/Model/Binary.cpp:76-119 | the graph's nodes are exactly the block starts and the edge targets |
| FunctionCFGs.ArcOfLast | lib/Model/Binary.cpp:76-119 | an arc of the CFG comes from its last block or from the blocks before it |
| FunctionCFGs.GraphOfArcs | lib/Model/Binary.cpp:76-119 | t is a successor of a in the graph exactly when a block starting at a has an edge to t |
| FunctionCFGs.GraphOfClosed | lib/Model/Binary.cpp:76-119 | every successor in the built graph is itself a node |
| FunctionCFGs.ExtendPath | lib/Model/Binary.cpp:56-65 | a path followed by one more edge is a path |
| FunctionCFGs.ClosedSetHoldsPath | lib/Model/Binary.cpp:56-65 | a set closed under successors that holds a path's start holds its end |
| FunctionCFGs.FunctionCFG.constructor | lib/Model/Binary.cpp:36 | a new graph has the given entry and no nodes |
| FunctionCFGs.FunctionCFG.Get | lib/Model/Binary.cpp:43-54 | returns the node of the address, creating it only on first request; a later request changes nothing |
| FunctionCFGs.FunctionCFG.AddSuccessor | lib/Model/Binary.cpp:92 | appends one successor to an existing node and changes nothing else |
| FunctionCFGs.FunctionCFG.AddBlock | lib/Model/Binary.cpp:80-113 | the block loop body turns the graph into its block-added value |
| FunctionCFGs.FunctionCFG.HasOnlyInvalidExits | lib/Model/Binary.cpp:67-72 | true exactly when every valid address has a successor |
| FunctionCFGs.FunctionCFG.AllNodesAreReachable | lib/Model/Binary.cpp:56-65 | requires the entry node to exist when the graph is not empty (`Map.at`); true exactly when the graph is empty or every node is reachable from the entry |
| FunctionCFGs.GetGraph | lib/Model/Binary.cpp:76-119 | requires no Invalid or Count edge (abort); returns a new graph with the function's entry whose nodes and arcs are those of the CFG |
| FunctionCFGs.Visit | lib/Model/Binary.cpp:60-63 | the depth-first visit marks exactly the nodes reachable from the entry |
| FunctionCFGs.VisitProgress | lib/Model/Binary.cpp:60-63 | each round of the visit either marks a new node or shrinks the work list |
| FunctionCFGs.ExploredStep | lib/Model/Binary.cpp:60-63 | exploring a node keeps every node off the work list fully explored |
| FunctionCFGs.VisitStep | lib/Model/Binary.cpp:60-63 | every node found from a visited node is reachable from the entry |
| FunctionCFGs.AllReachable | lib/Model/Binary.cpp:57-66 | every node of the graph is reachable from the entry |
| FunctionCFGs.OnlyInvalidExits | lib/Model/Binary.cpp:68-73 | only the invalid address may lack successors |
| PipelineContracts.RankParent | lib/Pipeline/Contract.cpp:173-176 | a rank's parent, when it has one, has a smaller index, so walking to the parent ends |
| PipelineContracts.KindParent | lib/Pipeline/Contract.cpp:222-236 | a kind's parent, when it has one, has a smaller index |
| PipelineContracts.AncestorDepth | lib/Pipeline/Contract.cpp:168-176 | an ancestor rank is never deeper than its descendant and only the rank itself is as deep, so the walk up meets it |
| PipelineContracts.Alls | lib/Pipeline/Contract.cpp:172-176 | n components, all of them `*` |
| PipelineContracts.ExactMatchIsDerivedMatch | lib/Pipeline/Contract.cpp:129-138 | a target that matches an exact contract also matches the derived-from version of it |
| PipelineContracts.TargetCanBePromotedToShallowerRank | lib/Pipeline/Contract.cpp:37-50 | false exactly when there is a target kind and some component between its depth and the input kind's depth names a single element |
| PipelineContracts.ExactPipeMatchesBackward | lib/Pipeline/Contract.cpp:238-250 | for an exact pipe that keeps the kind, every output it matched forward also matches backward |
| PipelineContracts.BackwardInputKind | lib/Pipeline/Contract.cpp:222-236 | the source kind, or the output's own kind only when the contract accepts derived kinds, keeps the kind and the source kind is its ancestor |
| PipelineContracts.BackwardInputContract | lib/Pipeline/Contract.cpp:149-157 | an exact contract sends back exact targets, and a derived answer comes only from a derived contract |
| PipelineContracts.RerankedLength | lib/Pipeline/Contract.cpp:159-220 | re-ranking changes the number of components by the difference in depth |
| PipelineContracts.RerankedRoundTrip | lib/Pipeline/Contract.cpp:159-220 | going down in rank and back up gives the original components |
| PipelineContracts.AddComponents | lib/Pipeline/Contract.cpp:168-174 | the walk adds one `*` per level between the rank and its ancestor |
| PipelineContracts.DropComponents | lib/Pipeline/Contract.cpp:179-188 | the walk drops one trailing component per level between the rank and its ancestor |
| PipelineContracts.ForwardRank | lib/Pipeline/Contract.cpp:159-192 | the components are re-ranked from the input rank to the output rank |
| PipelineContracts.BackwardRank | lib/Pipeline/Contract.cpp:194-220 | the components are re-ranked from the output rank back to the input rank |
| PipelineContracts.Forwarded | lib/Pipeline/Contract.cpp:118-127 | the result has the produced kind, is exact, and keeps the components when the kind is unchanged |
| PipelineContracts.Forward | lib/Pipeline/Contract.cpp:118-127 | computes the forwarded target |
| PipelineContracts.Backwarded | lib/Pipeline/Contract.cpp:140-147 | a target that does not match backward is unchanged; one that does gets the backward input kind and contract |
| PipelineContracts.Backward | lib/Pipeline/Contract.cpp:140-147 | computes the backwarded target |
| PipelineContracts.ForwardThenBackward | lib/Pipeline/Contract.cpp:118-147 | for a pipe producing a deeper kind, sending a result back gives the source kind and the input's components |
| PipelineContracts.ResultMembers | lib/Pipeline/Contract.cpp:67-74 | the copied targets are exactly the matching ones and the erased list keeps exactly the others |
| PipelineContracts.ResultPartition | lib/Pipeline/Contract.cpp:67-74 | copied and kept targets together are the original list, each as often |
| PipelineContracts.RequirementMembers | lib/Pipeline/Contract.cpp:96-115 | the moved outputs are exactly the matching ones and the remaining ones exactly the others |
| PipelineContracts.RequirementPartition | lib/Pipeline/Contract.cpp:96-115 | moved and remaining outputs together are the original list, each as often |
| PipelineContracts.ForwardedAll | lib/Pipeline/Contract.cpp:76-77 | every target moved forward, in order |
| PipelineContracts.BackwardedAll | lib/Pipeline/Contract.cpp:109-110 | every target moved backward, in order |
| PipelineContracts.ForwardEach | lib/Pipeline/Contract.cpp:76-77 | the loop replaces every element by its forwarded target |
| PipelineContracts.BackwardEach | lib/Pipeline/Contract.cpp:109-110 | the loop replaces every element by its backwarded target |
| PipelineContracts.DefaultResult | lib/Pipeline/Contract.cpp:55-61 | a producer without a source emits the target kind with depth minus one `*` components |
| PipelineContracts.Get | lib/Pipeline/Contract.cpp:65 | a missing container has no targets |
| PipelineContracts.DeduceResultsInto | lib/Pipeline/Contract.cpp:52-79 | the results grow by the deduced targets, and the status becomes the erased status |
| PipelineContracts.SelectResults | lib/Pipeline/Contract.cpp:72 | the `copy_if` loop returns the matching targets in order |
| PipelineContracts.KeepNonResults | lib/Pipeline/Contract.cpp:73-74 | the `erase_if` loop returns the non-matching targets in order |
| PipelineContracts.ErasedInputsMoved | lib/Pipeline/Contract.cpp:67-74 | after erasing, no source target matches, and none is lost or duplicated |
| PipelineContracts.DeduceRequirementsLists | lib/Pipeline/Contract.cpp:94-116 | the target list keeps the non-matching outputs and the source list gains the matching ones moved backward |
| PipelineContracts.SelectRequirements | lib/Pipeline/Contract.cpp:105 | the `copy_if` loop returns the matching outputs in order |
| PipelineContracts.KeepNonRequirements | lib/Pipeline/Contract.cpp:113 | the `erase_if` loop returns the non-matching outputs in order |
| PipelineContracts.NoSourceRequiresNothing | lib/Pipeline/Contract.cpp:96-99 | a contract without a source moves nothing |
| PipelineContracts.RequiredContents | lib/Pipeline/Contract.cpp:81-92 | the target container keeps the outputs the pipe does not produce, the source container ends with those it does moved backward, and every other container is unchanged |
| PipelineContracts.DeduceRequirements | lib/Pipeline/Contract.cpp:81-92 | returns the required map |
| PipelineContracts.DefaultInput | lib/Pipeline/Contract.cpp:282-290 | the default input has the source kind, the contract's exactness and one `*` per level of depth |
| PipelineContracts.InsertDefaultInput | lib/Pipeline/Contract.cpp:282-290 | one default input is appended to the source container and nothing else changes |
| PipelineContracts.SingletonGroup | lib/Pipeline/Contract.cpp:292-304 | a group of one contract matches forward and backward exactly as that contract does |
| PipelineContracts.GroupDeduceRequirements | lib/Pipeline/Contract.cpp:306-322 | without a backward match the status is returned unchanged; otherwise the contracts' requirements are merged from the last one back |
| PipelineContracts.DeduceResultsInPlace | lib/Pipeline/Contract.cpp:19-27 | the deduced targets are appended to the target container after the inputs were erased from the source container |
| PipelineContracts.DeduceResultsToMap | lib/Pipeline/Contract.cpp:29-35 | the status loses the erased inputs and the results map gains the deduced targets in the target container |
| PipelineContracts.ReadyCanDeduce | lib/Pipeline/Contract.cpp:52-79 | a status whose targets are all ready lets a contract deduce its results |
| PipelineContracts.ReadyAfterErase | lib/Pipeline/Contract.cpp:67-74 | erasing inputs for one contract keeps every target ready for another |
| PipelineContracts.GroupReadyAfterErase | lib/Pipeline/Contract.cpp:324-334 | erasing inputs for one contract keeps the whole group able to deduce |
| PipelineContracts.GroupDeduceResults | lib/Pipeline/Contract.cpp:324-334 | when some contract finds no input the status is unchanged; otherwise the contracts' results, deduced in order, are merged into the status |
| PipelineContracts.ForwardMatches | lib/Pipeline/Contract.cpp:129-138 | exactly the source kind, or a kind the source kind is an ancestor of; ExactMatchIsDerivedMatch relates the two |
| PipelineContracts.BackwardMatches | lib/Pipeline/Contract.cpp:238-251 | the target kind when the contract has one, otherwise the source-kind match |
| PipelineContracts.ContainerForwardMatches | lib/Pipeline/Contract.cpp:253-265 | the source container exists and holds a target that matches forward |
| PipelineContracts.ContainerBackwardMatches | lib/Pipeline/Contract.cpp:267-280 | the target container exists and holds a target that matches backward |
| PipelineContracts.GroupForwardMatches | lib/Pipeline/Contract.cpp:292-297 | every contract of the group matches forward |
| PipelineContracts.GroupBackwardMatches | lib/Pipeline/Contract.cpp:299-304 | some contract of the group matches backward |
| PipelineContracts.ContainerToTargetsMap.constructor | lib/Pipeline/Contract.cpp:85 | the map holds exactly the given containers |
| PipelineContracts.ContainerToTargetsMap.Lookup | lib/Pipeline/Contract.cpp:65 | the targets of a container, none when the container is missing |
| MemoryAccesses.DefaultAccess | memoryaccess.h:40 | the default access is invalid, with no base, offset 0 and size 0 |
| MemoryAccesses.EqualIsEquivalence | memoryaccess.h:78-97 | `operator==` is reflexive, symmetric and transitive, and `operator!=` is its negation |
| MemoryAccesses.MayAliasSymmetric | memoryaccess.h:99-148 | `mayAlias` does not depend on the order of its operands |
| MemoryAccesses.EqualAccessesAliasAlike | memoryaccess.h:78-128 | two equal accesses may alias exactly the same accesses |
| MemoryAccesses.SelfAliasLostAtTop | memoryaccess.h:120-125 | as written, an 8-byte register-relative access at offset 2^64 - 8 does not alias itself, because its end wraps to 0 |
| MemoryAccesses.IntersectIntendedIsOverlap | memoryaccess.h:145-148 | measured without wrap-around, two non-empty ranges intersect exactly when some byte is in both |
| MemoryAccesses.MayAliasIntendedReflexive | memoryaccess.h:99-128 | with the corrected ranges every access covering a byte may alias itself |
| MemoryAccesses.MayAliasIntendedSymmetric | memoryaccess.h:99-148 | the corrected check is symmetric too |
| MemoryAccesses.MayAliasAgreesBelowTop | memoryaccess.h:99-148 | where no range reaches 2^64 the check as written and the corrected one agree |
| MemoryAccesses.AccessSize | memoryaccess.h:158 | as written the recorded size is the bit size times 8 |
| MemoryAccesses.AdjacentWordsAliasAsWritten | memoryaccess.h:158 | with that size, two 32-bit words at offsets 0 and 4 of the same base alias |
| MemoryAccesses.StoreSize | memoryaccess.h:158 | the corrected size is the number of bytes the bits occupy |
| MemoryAccesses.AdjacentAccessesDisjoint | memoryaccess.h:145-158 | with sizes in bytes, two accesses side by side never alias |
| MemoryAccesses.MayAliasInBlock | memoryaccess.h:132-141 | true exactly when some store of the block may alias the access under mayAlias as written, with the 64-bit wrap of the range ends |
| MemoryAccesses.TypeSizeProvider.constructor | memoryaccess.h:19 | a new provider has an empty cache |
| MemoryAccesses.TypeSizeProvider.GetSize | memoryaccess.h:21-30 | a cached size is returned without change; otherwise the type size in bits times 8, truncated to 32-bit unsigned as written, is computed, cached and returned; every cached size is that value for its type |
| MemoryAccesses.IsValid | memoryaccess.h:130 | the access is not of the invalid kind |
| MemoryAccesses.Equal | memoryaccess.h:78-95 | same kind and size, and the base and offset the kind uses agree |
| MemoryAccesses.NotEqual | memoryaccess.h:97 | the negation of Equal |
| MemoryAccesses.MayAlias | memoryaccess.h:99-128 | mayAlias as written: invalid aliases everything, CPU state by base only, different bases alias, otherwise the 64-bit wrapped ranges intersect |
| MemoryAccesses.Intersect | memoryaccess.h:145-148 | intersect as written, with both ends wrapped to 64 bits |
| MemoryAccesses.IntersectIntended | memoryaccess.h:145-148 | intersect on the mathematical ends of the two ranges |
| MemoryAccesses.MayAliasIntended | memoryaccess.h:99-128 | mayAlias with the ranges compared without wrap-around |
| MarkAssignments.ReasonsAreDistinctBits | lib/IRCanonicalization/MarkAssignments/MarkAssignments.h:16-48 | each of the five reasons is a single bit, no two share a bit, and None has none |
| MarkAssignments.Or | lib/IRCanonicalization/MarkAssignments/MarkAssignments.h:54-60 | the result holds every bit of both operands |
| MarkAssignments.And | lib/IRCanonicalization/MarkAssignments/MarkAssignments.h:62-68 | the result holds only bits of both operands, and every bit they share |
| MarkAssignments.Not | lib/IRCanonicalization/MarkAssignments/MarkAssignments.h:70-75 | the result holds exactly the bits the operand lacks |
| MarkAssignments.OrIsBitwise | lib/IRCanonicalization/MarkAssignments/MarkAssignments.h:54-60 | bit k of a OR b is set iff it is set in a or in b |
| MarkAssignments.AndIsBitwise | lib/IRCanonicalization/MarkAssignments/MarkAssignments.h:62-68 | bit k of a AND b is set iff it is set in both |
| MarkAssignments.NotIsBitwise | lib/IRCanonicalization/MarkAssignments/MarkAssignments.h:70-75 | bit k of NOT a is set iff it is not set in a |
| MarkAssignments.SetKeepsFlags | lib/IRCanonicalization/MarkAssignments/MarkAssignments.h:96-100 | setting a flag makes it set, keeps every flag already set, and is idempotent |
| MarkAssignments.SideEffectsAreTheLowBits | lib/IRCanonicalization/MarkAssignments/MarkAssignments.h:102-106 | side effects are marked iff one of the two semantic bits is set |
| MarkAssignments.CosmeticReasonsKeepSideEffects | lib/IRCanonicalization/MarkAssignments/MarkAssignments.h:32-47 | adding a cosmetic reason never changes whether side effects are marked |
| MarkAssignments.Flags.Empty | lib/IRCanonicalization/MarkAssignments/MarkAssignments.h:82-87 | the default flags hold no reason |
| MarkAssignments.Flags.constructor | lib/IRCanonicalization/MarkAssignments/MarkAssignments.h:85 | the flags hold the given mask |
| MarkAssignments.Flags.Set | lib/IRCanonicalization/MarkAssignments/MarkAssignments.h:96-98 | the mask becomes the old mask OR the flag |
| MarkAssignments.Flags.IsSet | lib/IRCanonicalization/MarkAssignments/MarkAssignments.h:100 | true iff some bit of the flag is set in the mask |
| MarkAssignments.Flags.HasMarkedSideEffects | lib/IRCanonicalization/MarkAssignments/MarkAssignments.h:102-106 | true iff one of the two semantic bits is set |
| MarkAssignments.Flags.AsBool | lib/IRCanonicalization/MarkAssignments/MarkAssignments.h:110 | true iff some bit of the mask is set |
| MarkAssignments.AnyBitSet | lib/IRCanonicalization/MarkAssignments/MarkAssignments.h:110 | a mask other than None has a bit set |
| MarkAssignments.NoBitsIsNone | lib/IRCanonicalization/MarkAssignments/MarkAssignments.h:110 | a mask with no bit set is None |
| MarkAssignments.IsSetIn | lib/IRCanonicalization/MarkAssignments/MarkAssignments.h:100 | some bit of the flag is set in the mask |
| MarkAssignments.HasMarkedSideEffectsIn | lib/IRCanonicalization/MarkAssignments/MarkAssignments.h:102-106 | the side-effect bit or the interfering-side-effect bit is set |
| MarkAssignments.Flags.Value | lib/IRCanonicalization/MarkAssignments/MarkAssignments.h:108 | the mask the flags hold |
| PrettyIntFormatting.GetIntFormat | lib/IRCanonicalization/PrettyIntFormattingPass.cpp:105-153 | no format for non-constants and excluded instructions; hexadecimal exactly in the hex positions; otherwise character exactly for 8-bit and boolean exactly for 1-bit constants |
| PrettyIntFormatting.ShiftAmountIsNotHex | lib/IRCanonicalization/PrettyIntFormattingPass.cpp:130-145 | the amount operand of a shift is never hexadecimal, and a byte-wide one is a character |
| PrettyIntFormatting.BitwiseConstantsAreHex | lib/IRCanonicalization/PrettyIntFormattingPass.cpp:137-141 | every constant operand of and, or and xor is hexadecimal whatever its width |
| DecompilationHelpers.SideEffectsComeFromStoresAndCalls | include/revng-c/Support/DecompilationHelpers.h:19-34 | only stores and calls have side effects; a call to a plain untagged function has none; a call to a memory-writing function has them |
| DecompilationHelpers.AreMemOpCompatible | include/revng-c/Support/DecompilationHelpers.h:38-62 | requires a size for pointer and scalar types (`value()`); true only for pointers and scalars, with the pointer size for an LLVM pointer and otherwise exactly the bytes of the value, at least one |
| DecompilationHelpers.MemOpCompatibleIsByteSize | include/revng-c/Support/DecompilationHelpers.h:55-61 | for a non-pointer value, compatible iff the model type occupies exactly the bytes the value needs, one for `i1` |
| PrettyIntFormatting.Excluded | lib/IRCanonicalization/PrettyIntFormattingPass.cpp:108-126 | switch instructions, assignment markers and abs intrinsics |
| PrettyIntFormatting.IsShift | lib/IRCanonicalization/PrettyIntFormattingPass.cpp:131-133 | shl, ashr and lshr |
| PrettyIntFormatting.IsBitwise | lib/IRCanonicalization/PrettyIntFormattingPass.cpp:137-139 | and, or and xor |
| PrettyIntFormatting.HexPosition | lib/IRCanonicalization/PrettyIntFormattingPass.cpp:130-141 | the shifted operand of a shift, or any operand of a bitwise operation |
| DecompilationHelpers.HasSideEffects | include/revng-c/Support/DecompilationHelpers.h:19-34 | every store; a call when the callee is unknown, an intrinsic, an isolated function, a memory-writing function or a QEMU helper; nothing else; SideEffectsComeFromStoresAndCalls states its consequences |
| InstructionTranslation.GetRegisterSize | lib/Lift/InstructionTranslator.cpp:327-451 | the size is the width the opcode's suffix names, 0 exactly for the control opcodes, and none exactly for opcodes outside the table (unreachable) |
| InstructionTranslation.BothWidthsHaveTheirSize | lib/Lift/InstructionTranslator.cpp:327-451 | an operation that exists at both widths has register size 32 at `_i32` and 64 at `_i64` |
| InstructionTranslation.OpcodeToBinaryOp | lib/Lift/InstructionTranslator.cpp:262-311 | defined exactly for the arithmetic opcodes; signed exactly for div, rem and sar; add and add2 give Add, sub and sub2 give Sub |
| InstructionTranslation.BinaryOpIgnoresWidth | lib/Lift/InstructionTranslator.cpp:262-311 | the `_i32` and `_i64` variants give the same LLVM operation |
| InstructionTranslation.ConditionToPredicate | lib/Lift/InstructionTranslator.cpp:221-254 | signed conditions give exactly the signed predicates, unsigned ones the unsigned predicates, EQ/NE/NEVER/ALWAYS their own |
| InstructionTranslation.ConditionToPredicatePreservesMeaning | lib/Lift/InstructionTranslator.cpp:221-254 | the emitted comparison holds of two register values exactly when the libtcg condition does |
| InstructionTranslation.ConditionToPredicateInjective | lib/Lift/InstructionTranslator.cpp:221-254 | no two conditions give the same predicate |
| InstructionTranslation.Pc | lib/Lift/InstructionTranslator.cpp:213-219 | requires an insn_start with a constant; one constant is the pc itself; with a second one, when the first fits in 32 bits, the low half is the first and the high half the second |
| InstructionTranslation.GetMaxValue | lib/Lift/InstructionTranslator.cpp:315-322 | for 32 and 64 bits, the largest value of that many bits |
| InstructionTranslation.NotOp | lib/Lift/InstructionTranslator.cpp:1229-1231 | `not` flips every bit |
| InstructionTranslation.NotValue | lib/Lift/InstructionTranslator.cpp:1229-1231 | the complement of a value is the largest value of its width minus the value |
| InstructionTranslation.NegOp | lib/Lift/InstructionTranslator.cpp:1232-1236 | `neg` gives a register value that adds up to zero with the operand |
| InstructionTranslation.NegIsNotPlusOne | lib/Lift/InstructionTranslator.cpp:1229-1236 | negation is the complement plus one, in the register width |
| InstructionTranslation.NegInvolutive | lib/Lift/InstructionTranslator.cpp:1232-1236 | negating twice gives the operand back |
| InstructionTranslation.ShlOp | lib/Lift/InstructionTranslator.cpp:1140-1146 | an LLVM `shl` by a register amount is defined exactly when the amount is below the width |
| InstructionTranslation.LShrOp | lib/Lift/InstructionTranslator.cpp:1140-1146 | an LLVM `lshr` by a register amount is defined exactly when the amount is below the width |
| InstructionTranslation.DepositMaskAsWritten | lib/Lift/InstructionTranslator.cpp:1160-1167 | the mask as written is defined exactly for a field as wide as the register or shorter than 31 bits, and is then the low `len` bits |
| InstructionTranslation.DepositAsWritten | lib/Lift/InstructionTranslator.cpp:1152-1176 | a field starting at the register size leaves the base as it is; otherwise undefined exactly where the mask is |
| InstructionTranslation.DepositHalfIsUndefined | lib/Lift/InstructionTranslator.cpp:1160-1167 | a 64-bit deposit of a 32-bit field is undefined as written |
| InstructionTranslation.Deposit | lib/Lift/InstructionTranslator.cpp:1152-1176 | inside the field the low bits of the value in order, elsewhere the bits of the base |
| InstructionTranslation.DepositAsWrittenAgrees | lib/Lift/InstructionTranslator.cpp:1152-1176 | where the mask as written is defined, the deposit as written is the corrected one |
| InstructionTranslation.DepositThenExtract | lib/Lift/InstructionTranslator.cpp:1152-1176 | reading the field back gives the low bits of the value, and the bits outside the field are the base's |
| InstructionTranslation.RotateAsWritten | lib/Lift/InstructionTranslator.cpp:1123-1150 | when defined, the rotation as written has the register's width |
| InstructionTranslation.RotateByZeroIsPoison | lib/Lift/InstructionTranslator.cpp:1140-1149 | a rotation by zero is poison as written, because the second shift is by the whole width |
| InstructionTranslation.RotatedIndex | lib/Lift/InstructionTranslator.cpp:1123-1150 | the bit a rotation brings to a position lies inside the register |
| InstructionTranslation.Rotate | lib/Lift/InstructionTranslator.cpp:1123-1150 | every bit moves n places, wrapping round at the ends, and a rotation by zero changes nothing |
| InstructionTranslation.RotateAsWrittenAgrees | lib/Lift/InstructionTranslator.cpp:1123-1150 | for amounts between 1 and the width minus 1 the rotation as written is the corrected one |
| InstructionTranslation.RotatedIndexInverse | lib/Lift/InstructionTranslator.cpp:1123-1150 | moving n places one way and then the other comes back to the same bit |
| InstructionTranslation.RotateRightUndoesLeft | lib/Lift/InstructionTranslator.cpp:1123-1150 | rotating right undoes rotating left by the same amount |
| InstructionTranslation.RotateLeftUndoesRight | lib/Lift/InstructionTranslator.cpp:1123-1150 | rotating left undoes rotating right by the same amount |
| InstructionTranslation.AddSub2 | lib/Lift/InstructionTranslator.cpp:1412-1442 | the double-word add gives the low sum and the high sum plus the carry; the double-word subtract gives the low difference and the high difference minus the borrow |
| InstructionTranslation.Add2Parts | lib/Lift/InstructionTranslator.cpp:1412-1442 | splitting the double-width sum gives the low sum and the high sum with the carry |
| InstructionTranslation.Sub2Parts | lib/Lift/InstructionTranslator.cpp:1412-1442 | splitting the double-width difference gives the low difference and the high difference with the borrow |
| InstructionTranslation.MulU2 | lib/Lift/InstructionTranslator.cpp:1444-1470 | the two result registers hold the whole unsigned product |
| InstructionTranslation.MulS2 | lib/Lift/InstructionTranslator.cpp:1444-1470 | the high register read as signed and the low register together hold the whole signed product |
| InstructionTranslation.SignedProductSplits | lib/Lift/InstructionTranslator.cpp:1453-1470 | sign-extending, multiplying and splitting the product gives back the signed product |
| InstructionTranslation.PcMixesConstants | lib/Lift/InstructionTranslator.cpp:213-219 | with two constants, the low half of the pc is the low half of the first, and the high half is the high half of the first OR-ed with the second |
| InstructionTranslation.BinaryOpOf | lib/Lift/InstructionTranslator.cpp:262-311 | the LLVM binary operation of each libtcg operation, both widths together |
| DaemonUtil.KeepIfMembers | python/revng/daemon/util.py:44-47 | an element survives the filter exactly when it was in the list and passes the test |
| DaemonUtil.KeepIfAppend | python/revng/daemon/util.py:44-47 | filtering a concatenation is concatenating the filtered parts, so order is kept |
| DaemonUtil.KeepIfIdempotent | python/revng/daemon/util.py:44-47 | filtering twice is filtering once |
| DaemonUtil.RemoveFirstAfter | python/revng/daemon/util.py:41 | `list.remove` of an element not in the prefix before its first occurrence removes exactly that occurrence |
| DaemonUtil.RemoveStep | python/revng/daemon/util.py:45-47 | one iteration over the copy keeps the list equal to the filtered prefix followed by the unvisited rest |
| DaemonUtil.RemoveEachFailing | python/revng/daemon/util.py:45-47 | removing, in a walk over a copy, every element that fails the test leaves exactly the passing elements in order |
| DaemonUtil.Cleaned | python/revng/daemon/util.py:25-32 | every remaining key has a non-empty list, every key with a non-empty list remains with its list, and no key is added |
| DaemonUtil.CleanedIdempotent | python/revng/daemon/util.py:25-32 | cleaning a cleaned dictionary changes nothing |
| DaemonUtil.CleanedEmpty | python/revng/daemon/util.py:25-32 | the cleaned dictionary is empty exactly when every list was empty |
| DaemonUtil.Without | python/revng/daemon/util.py:21-22 | popping the listed keys leaves exactly the other keys with their values |
| DaemonUtil.PopAll | python/revng/daemon/util.py:31-32 | the pop loop removes exactly the listed keys |
| DaemonUtil.CleanDict | python/revng/daemon/util.py:25-32 | the two loops produce the cleaned dictionary |
| DaemonUtil.DoubleCleaned | python/revng/daemon/util.py:14-22 | a key remains exactly when its inner dictionary is non-empty once cleaned, and then holds that cleaned dictionary |
| DaemonUtil.DoubleCleanedIdempotent | python/revng/daemon/util.py:14-22 | cleaning twice is cleaning once |
| DaemonUtil.CleanDoubleDict | python/revng/daemon/util.py:14-22 | the loops produce the double-cleaned dictionary |
| DaemonUtil.CleanContainerList | python/revng/daemon/util.py:44-47 | exactly the containers with targets remain, in order |
| DaemonUtil.WithCleanContainers | python/revng/daemon/util.py:36-37 | a step keeps its name and only its containers with targets, in order |
| DaemonUtil.CleanedStepsAreClean | python/revng/daemon/util.py:35-41 | every remaining step has containers and every remaining container has targets |
| DaemonUtil.CleanedStepsIdempotent | python/revng/daemon/util.py:35-41 | cleaning a cleaned step list changes nothing |
| DaemonUtil.CleanStepList | python/revng/daemon/util.py:35-41 | the two loops produce the cleaned step list |
| DaemonUtil.TargetDictToGraphql | python/revng/daemon/util.py:73-74 | fails exactly when "path_components" is missing; otherwise the keys are the input keys plus "pathComponents", every input key keeps its value, and a new "pathComponents" holds the path components |
| DaemonUtil.ProjectWorkdir | python/revng/daemon/util.py:55-67 | a fresh temporary directory exactly when neither variable is set, the data dir exactly when only it is set, and with a project id the encoded id under the data dir or under the XDG data home |
| DaemonUtil.CleanedSteps | python/revng/daemon/util.py:35-41 | each step with its containers cleaned, then the steps without containers dropped; CleanedStepsAreClean states it |

## Left out

- Logging, graph and AST dumps, the metrics file and its floating-point increase ratio in the restructuring pass: output only.
- Successor refinement through the LLVM dominator tree, `insertBulkNodes`, `moveEdgeTarget`, `removeNotReachables`, `isDAG`, outlining, and CFG edge moves in general: these rely on LLVM graph algorithms. The model covers the steps of `runOnFunction` that act on the region list and the node lists, not the whole pass end to end.
- `findReachableNodes`: an input of the model. It is a map from each backedge to the nodes its cycle reaches, and it contains both endpoints of the edge.
- RestructureBackedges.GetBackedges: only soundness is proved (every reported edge closes a cycle). Completeness (every cycle contains a reported edge) is not stated.
- The insertion of an empty dummy node on each backedge (lib/RestructureCFGPass/RestructureCFG.cpp:527-533) and the assertion at :538 that every recomputed backedge leaves such a dummy: the insertion goes through `moveEdgeTarget` and `addArtificialNode`, which are not part of this model.
- MetaRegions.MetaRegion.IntersectsWith, IsSubSetOf, IsSuperSetOf and NodesEquality: MetaRegion.cpp is not part of this model. These relations are given their natural set meaning, and the subset relation is non-strict.
- ASTTree.h is not part of this model. The `ASTTree` fields follow their uses in ASTTree.cpp.
- IR construction in the lifter is not modelled: IRBuilder calls, `newInstruction`, `translate`, `translateCall`, `finalizeNewPCMarkers` and `registerDirectJumps`. The same holds for branch and label handling, `andc`/`orc`/`eqv`/`nand`/`nor`, extensions, byte swaps and `div2`. Only the opcode tables and the word-level semantics of `not`, `neg`, shifts, deposit, rotate and the double-width operations are modelled.
- `muluh`/`mulsh`: the source does not implement them.
- Function rewriting in the stack segregation pass is left out: `upgradeLocalFunctions`, `upgradeDynamicFunctions`, `recreateApplyingModelPrototype`, `replace`, `pushALAP` and `adjustStackFrame`. The monotone-framework fixpoint driver is a library outside this model. Its transfer function is modelled.
- `isCallToIsolatedFunction`, `getStackOffset` and `getMemoryAccessSize` are fields of the modelled instruction, not LLVM queries.
- The stack segregation pass models the pointer size as a parameter.
- DOT output, `dumpCFG`, serialisation and `toString` in Binary.cpp: printing.
- InstructionTranslation.ConditionToPredicatePreservesMeaning: for the constant conditions NEVER and ALWAYS the source hands the floating-point predicates `FCMP_FALSE` and `FCMP_TRUE` to `CreateICmp` (lib/Lift/InstructionTranslator.cpp:221-229, :467), which an integer comparison does not accept; the model gives them their constant meanings, false and true.
- Stack offsets and sizes in the stack segregation pass are `int64_t` and `uint64_t` in the source; the model does offset arithmetic on unbounded integers and does not wrap it at 64 bits, except where StackSegregation.SameReinterpretation, StackSegregation.DecideStore and the int64 bounds of StackSegregation.AdjacentGivesPairwise state the reinterpretation explicitly.
- BasicBlockNode.cpp is not part of this model: BasicBlockNodes.BasicBlockNode.RemoveSuccessor and RemovePredecessor follow the declarations in BasicBlockNode.h, removing every link to (from) the given node and keeping the others in order.
- BinaryModel.DynamicFunctionName: the automatic name is passed through `Identifier::fromString` (lib/Model/Binary.cpp:323), which is not part of this model and is taken as the identity; BinaryModel.FunctionName leaves the same step (:299) to its `entryText` parameter.
- BinaryModel.BaseRelativeAgreesWithType: `isELFRelocationBaseRelative` returns the `Invalid` enumerator as a bool in its default cases, and that value depends on an enum outside this model. Only the `true` cases are stated; the default cases give None.
- MetaRegions.MetaRegion.constructor: the source leaves the parent pointer uninitialised, which has no value to model; the model starts it at null.
- ASTTrees.SequenceCounter.GetID: the source counter is a signed `int`; the model counter is unbounded, so its overflow after 2^31 - 1 sequence nodes is not captured.
- `MemoryAccess::initialize` walks LLVM instructions: an access is built from its kind, base, offset and size.
- The `DataLayout` size query behind `TypeSizeProvider::getSize` is the parameter `sizeInBits`.
- `PrettyIntFormatting::runOnFunction` rewrites IR through function pools. Only `getIntFormat` is modelled.
- The call tags (`Isolated`, `WritesMemory`, QEMU helpers) and the LLVM instruction and type queries in DecompilationHelpers.h are abstract descriptors.
- `Kind`, `Rank` and `Target` are outside Contract.cpp. Ranks and kinds are modelled as parent-link forests in which a parent's index is below its child's; `ancestorOf` is reflexive; `addPathComponent` appends an "all" component.
- `ContainerToTargetsMap::merge` is outside this model and is the parameter `merge`.
- In python/revng/daemon/util.py, `b64e`, `mkdtemp`, `xdg_data_home` and `mkdir` touch the filesystem, the environment and the base64 library. DaemonUtil.ProjectWorkdir states only which directory is chosen, with the encoded project id as a parameter.
- The `clean_*` functions mutate their argument in place; the model returns the cleaned value, so aliasing of the argument is not captured. Python dictionaries keep insertion order, and the model's maps do not.
- The daemon web server, `Lift.cpp`'s dynamic loading, the C decompiler front end, statistics signal handling and header generation: network, process and file I/O.
- IR-only passes (`RemoveExtractValues`, `InjectStackSizeProbesAtCallSites`, the indirect branch info printer, interprocedural DLA type creation) and declaration-only headers: they contain no standalone logic to model.

## Findings

| source | as written | input that shows it | evidently intended | confidence | as-written member | corrected member |
|---|---|---|---|---|---|---|
| lib/RestructureCFGPass/ASTTree.cpp:128-133 with include/revng-c/RestructureCFGPass/ASTNode.h:578-586 | `copyASTNodesFrom` remaps the copied nodes through `updateASTNodesPointers`, which does not touch a `ScsNode`'s body, so the copy's body still points into the old tree | a loop node whose body is at address 1, with the substitution 1 to 2: after the update its body is still 1, which is not an image of the substitution | every pointer of a copied node refers to the new tree | medium, not executed | ASTNodes.ScsBodyNotRemapped | ASTNodes.RemapAllPointers |
| lib/RestructureCFGPass/ASTNode.cpp:124-142 | when the node has an else branch, the then comparison is overwritten by the else comparison, and a missing else on the other side compares as false | an if on block 7 with then and else branches is not equal to an if on block 7 with only the same then branch, while the reverse comparison holds | both branches compared, and equality symmetric | high, not executed | ASTNodes.IfEqualityNotSymmetric | ASTNodes.IsEqualSymmetric |
| lib/PromoteStackPointer/SegregateStackAccessesPass.cpp:980-989 | on big-endian targets `(NewSize - Offset - OldSize) * 8` is computed on `unsigned`, and it always wraps because NewSize < OldSize on that path | Offset 0, NewSize 4, OldSize 8 gives 4294967264 | `(OldSize - Offset - NewSize) * 8`, which gives 32 | medium, not executed | StackSegregation.ShiftAmountBigEndianExample | StackSegregation.ShiftAmountIntendedInRange |
| lib/Model/Binary.cpp:409-410 | a relocation must have both its address and its end address (one past its last byte) inside the half-open segment range | a segment at 0x1000 of size 0x1000 with a 4-byte relocation at 0x1FFC is rejected | a relocation whose bytes all lie in the segment is accepted | low, not executed | BinaryModel.RelocationAtSegmentEndRejected | BinaryModel.RelocationInsideIntendedIff |
| memoryaccess.h:145-148 | `intersect` adds offset and size in `uint64_t`, so a range that ends at 2^64 wraps to end at 0 | a register-relative access at offset 2^64 - 8 of size 8 does not alias itself | ranges compared on their true ends, so every access aliases itself | medium, not executed | MemoryAccesses.SelfAliasLostAtTop | MemoryAccesses.MayAliasIntendedReflexive |
| memoryaccess.h:158 | the access size is the type's size in bits multiplied by 8 (the same product is at line 26, where MemoryAccesses.TypeSizeProvider.GetSize keeps it as written) | two 32-bit accesses at offsets 0 and 4 of the same base alias | the size in bytes, so adjacent accesses are disjoint | medium, not executed | MemoryAccesses.AdjacentWordsAliasAsWritten | MemoryAccesses.AdjacentAccessesDisjoint |
| lib/Lift/InstructionTranslator.cpp:1160-1167 | the deposit mask `(1 << Length) - 1` is a shift on `int`, undefined once Length reaches 31 unless Length is the register size | a 64-bit deposit at position 32 with length 32 | the mask of the Length low bits, computed at the register width | medium, not executed | InstructionTranslation.DepositHalfIsUndefined | InstructionTranslation.DepositThenExtract |
| lib/Lift/InstructionTranslator.cpp:1140-1149 | a rotate is built from a shift by n and a shift by width minus n, and for n = 0 the second shift equals the width, which is poison in LLVM | a rotate by 0 of any word | a rotate by 0 returns its operand | medium, not executed | InstructionTranslation.RotateByZeroIsPoison | InstructionTranslation.RotateRightUndoesLeft |
