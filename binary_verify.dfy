/**
 * `Binary::verify` (lib/Model/Binary.cpp): every function verifies, its graph
 * has every node reachable from the entry and only the invalid address
 * without successors, every direct call names a callee that exists; every
 * dynamic function verifies; no custom name is used twice; the types verify.
 */
module BinaryVerification {
  import opened Wrappers
  import opened BinaryModel
  import opened FunctionCFGs

  /** The part of the binary `Binary::verify` looks at. */
  datatype Binary = Binary(functions: seq<Function>, dynamicFunctions: seq<DynamicFunction>,
                           types: seq<ModelType>)

  /** The keys of `Functions`: the entry addresses. */
  function Entries(b: Binary): (r: set<MetaAddress>)
    ensures forall a :: a in r <==> exists i :: 0 <= i < |b.functions| && b.functions[i].entry == a
  {
    set f | f in b.functions :: f.entry
  }

  /** The keys of `ImportedDynamicFunctions`: the original names. */
  function ImportedNames(b: Binary): (r: set<string>)
    ensures forall n :: n in r <==> exists i :: 0 <= i < |b.dynamicFunctions| && b.dynamicFunctions[i].originalName == n
  {
    set d | d in b.dynamicFunctions :: d.originalName
  }

  /**
   * A direct call names a callee that exists: a dynamic call has no
   * destination and an imported dynamic function of that name, any other
   * direct call a function whose entry is its destination.
   */
  predicate CallResolved(b: Binary, e: ShapedEdge)
  {
    e.kind == FunctionCall ==>
      if |e.dynamicFunction| > 0 then !e.destination.IsValid() && e.dynamicFunction in ImportedNames(b)
      else e.destination in Entries(b)
  }

  /** Every direct call of the function names a callee that exists. */
  ghost predicate CallsResolved(b: Binary, f: Function)
  {
    forall i, j :: 0 <= i < |f.cfg| && 0 <= j < |f.cfg[i].successors| ==> CallResolved(b, f.cfg[i].successors[j])
  }

  /** The two checks on the graph of a function. */
  ghost predicate GraphChecks(f: Function)
  {
    var g := GraphOf(f.cfg);
    (|g| == 0 || AllReachable(g, f.entry)) && OnlyInvalidExits(g)
  }

  /** What the loop over the functions accepts for one function. */
  ghost predicate FunctionChecks(b: Binary, f: Function)
  {
    FunctionValid(f) && GraphChecks(f) && CallsResolved(b, f)
  }

  /** What `Binary::verify` accepts. */
  ghost predicate BinaryValid(b: Binary)
  {
    (forall i :: 0 <= i < |b.functions| ==> FunctionChecks(b, b.functions[i]))
    && (forall i :: 0 <= i < |b.dynamicFunctions| ==> DynamicFunctionVerify(b.dynamicFunctions[i]))
    && NonEmptyNamesDistinct(CustomNames(b.functions, b.dynamicFunctions, b.types))
    && TypesVerify(b.types)
  }

  /** A function that verifies has no invalid or `Count` edge, so `getGraph` does not abort on it. */
  lemma ValidFunctionDrawable(f: Function)
    requires FunctionValid(f)
    ensures AllDrawable(f.cfg)
  {
    forall i, j | 0 <= i < |f.cfg| && 0 <= j < |f.cfg[i].successors|
      ensures Drawable(f.cfg[i].successors[j])
    {
      EdgeRulesByGroup(f.cfg[i].successors[j]);
    }
  }

  /** Some block starts at every address `StartingAt` counts. */
  lemma {:induction false} StartingAtWitness(cfg: seq<BasicBlock>, a: MetaAddress) returns (i: nat)
    requires StartingAt(cfg, a) > 0
    ensures i < |cfg| && cfg[i].start == a
  {
    if cfg[|cfg| - 1].start == a {
      i := |cfg| - 1;
    } else {
      i := StartingAtWitness(cfg[..|cfg| - 1], a);
    }
  }

  /** The graph of a function that verifies is empty or has a node at the entry. */
  lemma ValidFunctionEntry(f: Function)
    requires FunctionValid(f)
    ensures |GraphOf(f.cfg)| > 0 ==> f.entry in GraphOf(f.cfg)
  {
    if |f.cfg| > 0 {
      var i := StartingAtWitness(f.cfg, f.entry);
      GraphOfNodes(f.cfg, f.entry);
    }
  }

  /**
   * In a function that verifies, a direct call to a dynamic function already
   * has no destination: the check `Binary::verify` makes on it never fails.
   */
  lemma DynamicCallHasNoDestination(f: Function, i: nat, j: nat)
    requires FunctionValid(f) && i < |f.cfg| && j < |f.cfg[i].successors|
    requires f.cfg[i].successors[j].kind == FunctionCall && |f.cfg[i].successors[j].dynamicFunction| > 0
    ensures !f.cfg[i].successors[j].destination.IsValid()
  {
    CallEdgeRules(f.cfg[i].successors[j]);
  }

  /** The calls of the blocks before `k`, and of the first `j` edges of block `k`, are resolved. */
  ghost predicate CallsResolvedUpTo(b: Binary, cfg: seq<BasicBlock>, k: nat, j: nat)
    requires k < |cfg| && j <= |cfg[k].successors|
  {
    (forall i, l :: 0 <= i < k && 0 <= l < |cfg[i].successors| ==> CallResolved(b, cfg[i].successors[l]))
    && forall l :: 0 <= l < j ==> CallResolved(b, cfg[k].successors[l])
  }

  /** The "Check function calls" loop of `Binary::verify` for one function. */
  method CheckCalls(b: Binary, f: Function) returns (ok: bool)
    ensures ok <==> CallsResolved(b, f)
  {
    var entries := Entries(b);
    var imported := ImportedNames(b);
    for k := 0 to |f.cfg|
      invariant forall i, l :: 0 <= i < k && 0 <= l < |f.cfg[i].successors| ==> CallResolved(b, f.cfg[i].successors[l])
    {
      var block := f.cfg[k];
      for j := 0 to |block.successors|
        invariant CallsResolvedUpTo(b, f.cfg, k, j)
      {
        var edge := block.successors[j];
        if !CallResolved(b, edge) {
          assert !CallResolved(b, f.cfg[k].successors[j]);
        }
        if edge.kind == FunctionCall {
          if |edge.dynamicFunction| > 0 {
            if edge.destination.IsValid() {
              return false;
            }
            if edge.dynamicFunction !in imported {
              return false;
            }
          } else if edge.destination !in entries {
            return false;
          }
        }
      }
    }
    ok := true;
  }

  /** The checks the loop over the functions makes on one function. */
  method CheckFunction(b: Binary, f: Function) returns (ok: bool)
    ensures ok <==> FunctionChecks(b, f)
  {
    ok := VerifyFunction(f);
    if !ok {
      return;
    }
    ValidFunctionDrawable(f);
    ValidFunctionEntry(f);
    GraphOfClosed(f.cfg);
    var graph := GetGraph(f);
    ok := graph.AllNodesAreReachable();
    if !ok {
      return;
    }
    ok := graph.HasOnlyInvalidExits();
    if !ok {
      return;
    }
    ok := CheckCalls(b, f);
  }

  /**
   * `Binary::verify`. The custom names are checked in one pass over the names
   * in the order the source visits them; since every failed check makes the
   * whole verification fail, the verdict does not depend on when that pass runs.
   */
  method VerifyBinary(b: Binary) returns (ok: bool)
    ensures ok <==> BinaryValid(b)
  {
    for i := 0 to |b.functions|
      invariant forall k :: 0 <= k < i ==> FunctionChecks(b, b.functions[k])
    {
      ok := CheckFunction(b, b.functions[i]);
      if !ok {
        return;
      }
    }
    for i := 0 to |b.dynamicFunctions|
      invariant forall k :: 0 <= k < i ==> DynamicFunctionVerify(b.dynamicFunctions[k])
    {
      if !DynamicFunctionVerify(b.dynamicFunctions[i]) {
        return false;
      }
    }
    ok := CheckCustomNames(CustomNames(b.functions, b.dynamicFunctions, b.types));
    if !ok {
      return;
    }
    ok := VerifyTypes(b.types);
  }
}
