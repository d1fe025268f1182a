/**
 * Contract deduction of the pipeline (lib/Pipeline/Contract.cpp): a contract
 * says which targets of a pipe's source container it consumes, what kind they
 * have afterwards in the target container, and whether the inputs are kept.
 *
 * Kinds and ranks are nodes of two forests. A node is a number and its parent,
 * when it has one, a smaller number, so every walk up a tree ends; a parent
 * link that does not point to a smaller number is read as "no parent".
 * A kind's depth is the depth of its rank, the root rank having depth 0.
 * `ancestorOf` is reflexive. Adding a path component appends `*` ("all").
 */
module PipelineContracts {
  import opened Wrappers

  // ---------------------------------------------------------------------------
  // Kinds, ranks and targets.

  datatype PathComponent = All | Single(name: string)

  datatype Exactness = Exact | DerivedFrom

  datatype Preservation = Erase | Preserve

  /** The kind and rank forests: parent links and the rank of each kind. */
  datatype Registry = Registry(rankParent: seq<Option<nat>>, kindParent: seq<Option<nat>>, kindRank: seq<nat>)

  /** A target: path components, a kind and whether kinds derived from it are meant too. */
  datatype Target = Target(components: seq<PathComponent>, kind: nat, exactness: Exactness)

  function RankParent(reg: Registry, r: nat): (p: Option<nat>)
    ensures p.Some? ==> p.value < r
  {
    if r < |reg.rankParent| && reg.rankParent[r].Some? && reg.rankParent[r].value < r then reg.rankParent[r]
    else None
  }

  function KindParent(reg: Registry, k: nat): (p: Option<nat>)
    ensures p.Some? ==> p.value < k
  {
    if k < |reg.kindParent| && reg.kindParent[k].Some? && reg.kindParent[k].value < k then reg.kindParent[k]
    else None
  }

  /** `Rank::ancestorOf`: `a` is `b` or an ancestor of `b`. */
  predicate RankAncestorOf(reg: Registry, a: nat, b: nat)
    decreases b
  {
    a == b || (RankParent(reg, b).Some? && RankAncestorOf(reg, a, RankParent(reg, b).value))
  }

  /** `Kind::ancestorOf`: `a` is `b` or an ancestor of `b`. */
  predicate KindAncestorOf(reg: Registry, a: nat, b: nat)
    decreases b
  {
    a == b || (KindParent(reg, b).Some? && KindAncestorOf(reg, a, KindParent(reg, b).value))
  }

  /** `Rank::depth`: the number of parent links up to the root. */
  function RankDepth(reg: Registry, r: nat): nat
    decreases r
  {
    if RankParent(reg, r).Some? then 1 + RankDepth(reg, RankParent(reg, r).value) else 0
  }

  function KindRank(reg: Registry, k: nat): nat
  {
    if k < |reg.kindRank| then reg.kindRank[k] else 0
  }

  /** `Kind::depth`: the depth of the kind's rank. */
  function KindDepth(reg: Registry, k: nat): nat
  {
    RankDepth(reg, KindRank(reg, k))
  }

  /** An ancestor is never deeper than its descendant, and only the node itself is as deep. */
  lemma {:induction false} AncestorDepth(reg: Registry, a: nat, b: nat)
    requires RankAncestorOf(reg, a, b)
    ensures RankDepth(reg, a) <= RankDepth(reg, b)
    ensures RankDepth(reg, a) == RankDepth(reg, b) ==> a == b
    decreases b
  {
    if a != b {
      AncestorDepth(reg, a, RankParent(reg, b).value);
    }
  }

  /** `n` components `*`. */
  function Alls(n: int): (r: seq<PathComponent>)
    ensures |r| == if n > 0 then n else 0
    ensures forall i :: 0 <= i < |r| ==> r[i] == All
  {
    if n <= 0 then [] else Alls(n - 1) + [All]
  }

  // ---------------------------------------------------------------------------
  // Contracts.

  /**
   * A contract: the kind it consumes (none for a pipe that only produces),
   * how that kind must match, the kind it produces (none: the input kind),
   * what happens to the inputs, and the positions of its two containers
   * among the pipe's arguments.
   */
  datatype Contract = Contract(source: Option<nat>, inputContract: Exactness, targetKind: Option<nat>,
                               preservation: Preservation, sourceIndex: nat, targetIndex: nat)

  /** The rank of the source kind. */
  function InputRank(reg: Registry, c: Contract): nat
    requires c.source.Some?
  {
    KindRank(reg, c.source.value)
  }

  /** The rank of the produced kind: the target kind's, or else the source kind's. */
  function OutputRank(reg: Registry, c: Contract): nat
    requires c.source.Some?
  {
    if c.targetKind.Some? then KindRank(reg, c.targetKind.value) else InputRank(reg, c)
  }

  /** `forwardMatches(Target)`: exactly the source kind, or a kind the source kind is an ancestor of. */
  predicate ForwardMatches(reg: Registry, c: Contract, t: Target)
  {
    match c.inputContract
    case Exact => c.source == Some(t.kind)
    case DerivedFrom => c.source.Some? && KindAncestorOf(reg, c.source.value, t.kind)
  }

  /** A target that matches exactly also matches a contract that accepts derived kinds. */
  lemma ExactMatchIsDerivedMatch(reg: Registry, c: Contract, t: Target)
    requires c.inputContract == Exact && ForwardMatches(reg, c, t)
    ensures ForwardMatches(reg, c.(inputContract := DerivedFrom), t)
  {
  }

  /**
   * `targetCanBePromotedToShallowerRank`, as a property: no component between
   * the depth of the target kind and the depth of the input's kind names a
   * single element.
   */
  predicate Promotable(reg: Registry, c: Contract, t: Target)
  {
    c.targetKind.Some? ==>
      forall i :: KindDepth(reg, c.targetKind.value) <= i < KindDepth(reg, t.kind) && i < |t.components|
                  ==> !t.components[i].Single?
  }

  /** Every component the promotion check reads exists. */
  predicate PromotionIndexable(reg: Registry, c: Contract, t: Target)
  {
    c.targetKind.Some? && KindDepth(reg, c.targetKind.value) < KindDepth(reg, t.kind)
    ==> KindDepth(reg, t.kind) <= |t.components|
  }

  /** `targetCanBePromotedToShallowerRank`: the loop over those components. */
  method TargetCanBePromotedToShallowerRank(reg: Registry, c: Contract, t: Target) returns (ok: bool)
    requires PromotionIndexable(reg, c, t)
    ensures ok <==> Promotable(reg, c, t)
    ensures !ok <==> c.targetKind.Some? &&
                     exists i :: KindDepth(reg, c.targetKind.value) <= i < KindDepth(reg, t.kind)
                                 && t.components[i].Single?
  {
    if c.targetKind.Some? {
      var i := KindDepth(reg, c.targetKind.value);
      while i < KindDepth(reg, t.kind)
        invariant forall j :: KindDepth(reg, c.targetKind.value) <= j < i && j < |t.components|
                              ==> !t.components[j].Single?
      {
        if t.components[i].Single? {
          return false;
        }
        i := i + 1;
      }
    }
    return true;
  }

  /** What `deduceResults` selects: matching inputs that can be promoted. */
  predicate ResultMatches(reg: Registry, c: Contract, t: Target)
  {
    ForwardMatches(reg, c, t) && Promotable(reg, c, t)
  }

  /**
   * What `deduceRequirements` selects: nothing without a source; otherwise the
   * outputs that match backward, or, when inputs are preserved, forward.
   */
  predicate RequirementMatches(reg: Registry, c: Contract, t: Target)
  {
    c.source.Some? && (BackwardMatches(reg, c, t) || (c.preservation == Preserve && ForwardMatches(reg, c, t)))
  }

  /** `backwardMatches(Target)`. */
  predicate BackwardMatches(reg: Registry, c: Contract, t: Target)
    requires c.source.Some? || c.targetKind.Some?
  {
    if c.targetKind.Some? then t.kind == c.targetKind.value
    else match c.inputContract
      case DerivedFrom => KindAncestorOf(reg, c.source.value, t.kind)
                          || (t.exactness == DerivedFrom && KindAncestorOf(reg, t.kind, c.source.value))
      case Exact => KindAncestorOf(reg, t.kind, c.source.value)
  }

  /**
   * A pipe that produces the very kinds it consumes, exactly, sends back every
   * output of that kind: backward matching accepts what forward matching produced.
   */
  lemma ExactPipeMatchesBackward(reg: Registry, c: Contract, t: Target)
    requires c.source.Some? && c.targetKind.None? && c.inputContract == Exact
    requires ForwardMatches(reg, c, t)
    ensures BackwardMatches(reg, c, t)
  {
  }

  /** `backwardInputKind`: the source kind, unless a derived kind of an output is more precise. */
  function BackwardInputKind(reg: Registry, c: Contract, t: Target): (k: nat)
    requires c.source.Some?
    ensures k == c.source.value || k == t.kind
    ensures k == t.kind && k != c.source.value ==>
              c.inputContract.DerivedFrom? && c.targetKind.None? && KindAncestorOf(reg, c.source.value, t.kind)
  {
    if c.inputContract == Exact then c.source.value
    else if c.targetKind.Some? then c.source.value
    else if KindAncestorOf(reg, c.source.value, t.kind) then t.kind
    else c.source.value
  }

  /** `backwardInputContract`. */
  function BackwardInputContract(c: Contract, t: Target): (e: Exactness)
    ensures c.inputContract == Exact ==> e == Exact
    ensures e.DerivedFrom? ==> c.inputContract.DerivedFrom?
  {
    if c.targetKind.Some? then c.inputContract
    else if c.inputContract == Exact then Exact
    else t.exactness
  }

  // ---------------------------------------------------------------------------
  // Ranks of path components.

  /** Changing rank from `from` to `to`: one `*` added per level down, one component dropped per level up. */
  function Reranked(reg: Registry, comps: seq<PathComponent>, from: nat, to: nat): seq<PathComponent>
    requires RankAncestorOf(reg, from, to) || RankAncestorOf(reg, to, from)
    requires !RankAncestorOf(reg, from, to) ==> RankDepth(reg, from) - RankDepth(reg, to) <= |comps|
  {
    if RankAncestorOf(reg, from, to) then comps + Alls(RankDepth(reg, to) - RankDepth(reg, from))
    else
      AncestorDepth(reg, to, from);
      comps[..|comps| - (RankDepth(reg, from) - RankDepth(reg, to))]
  }

  /** The number of components changes by the difference in depth. */
  lemma RerankedLength(reg: Registry, comps: seq<PathComponent>, from: nat, to: nat)
    requires RankAncestorOf(reg, from, to) || RankAncestorOf(reg, to, from)
    requires !RankAncestorOf(reg, from, to) ==> RankDepth(reg, from) - RankDepth(reg, to) <= |comps|
    ensures |Reranked(reg, comps, from, to)| == |comps| + RankDepth(reg, to) - RankDepth(reg, from)
  {
    if RankAncestorOf(reg, from, to) {
      AncestorDepth(reg, from, to);
    } else {
      AncestorDepth(reg, to, from);
    }
  }

  /** Going down in rank and back up again gives the original components. */
  lemma RerankedRoundTrip(reg: Registry, comps: seq<PathComponent>, from: nat, to: nat)
    requires RankAncestorOf(reg, from, to)
    ensures RankDepth(reg, to) - RankDepth(reg, from) <= |Reranked(reg, comps, from, to)|
    ensures Reranked(reg, Reranked(reg, comps, from, to), to, from) == comps
  {
    AncestorDepth(reg, from, to);
    var down := Reranked(reg, comps, from, to);
    if from != to {
      assert !RankAncestorOf(reg, to, from) by {
        if RankAncestorOf(reg, to, from) {
          AncestorDepth(reg, to, from);
        }
      }
      assert down[..|down| - (RankDepth(reg, to) - RankDepth(reg, from))] == comps;
    }
  }

  /**
   * The walk of `forwardRank` and `backwardRank` from a rank up to one of its
   * ancestors, adding one component `*` per level.
   */
  method AddComponents(reg: Registry, comps: seq<PathComponent>, ancestor: nat, start: nat)
    returns (r: seq<PathComponent>)
    requires RankAncestorOf(reg, ancestor, start)
    ensures r == comps + Alls(RankDepth(reg, start) - RankDepth(reg, ancestor))
  {
    r := comps;
    var rank := start;
    ghost var n := 0;
    while rank != ancestor
      invariant RankAncestorOf(reg, ancestor, rank)
      invariant r == comps + Alls(n) && RankDepth(reg, start) == RankDepth(reg, rank) + n
      decreases rank
    {
      r := r + [All];
      rank := RankParent(reg, rank).value;
      n := n + 1;
    }
  }

  /** The walk from a rank up to one of its ancestors, dropping the last component per level. */
  method DropComponents(reg: Registry, comps: seq<PathComponent>, ancestor: nat, start: nat)
    returns (r: seq<PathComponent>)
    requires RankAncestorOf(reg, ancestor, start)
    requires RankDepth(reg, start) - RankDepth(reg, ancestor) <= |comps|
    ensures RankDepth(reg, ancestor) <= RankDepth(reg, start)
    ensures r == comps[..|comps| - (RankDepth(reg, start) - RankDepth(reg, ancestor))]
  {
    AncestorDepth(reg, ancestor, start);
    r := comps;
    var rank := start;
    while rank != ancestor
      invariant RankAncestorOf(reg, ancestor, rank)
      invariant RankDepth(reg, ancestor) <= RankDepth(reg, rank) <= RankDepth(reg, start)
      invariant r == comps[..|comps| - (RankDepth(reg, start) - RankDepth(reg, rank))]
      decreases rank
    {
      AncestorDepth(reg, ancestor, RankParent(reg, rank).value);
      r := r[..|r| - 1];
      rank := RankParent(reg, rank).value;
    }
  }

  /** What `forwardRank` needs: comparable ranks and, going up, enough components, all `*`. */
  predicate ForwardRankable(reg: Registry, c: Contract, t: Target)
    requires c.source.Some?
  {
    var inRank := InputRank(reg, c);
    var outRank := OutputRank(reg, c);
    (RankAncestorOf(reg, inRank, outRank) || RankAncestorOf(reg, outRank, inRank))
    && (!RankAncestorOf(reg, inRank, outRank) ==>
          var d := RankDepth(reg, inRank) - RankDepth(reg, outRank);
          d <= |t.components| && forall i :: |t.components| - d <= i < |t.components| ==> t.components[i] == All)
  }

  /** `forwardRank`: the components re-ranked from the input rank to the output rank. */
  method ForwardRank(reg: Registry, c: Contract, t: Target) returns (r: Target)
    requires c.source.Some? && ForwardRankable(reg, c, t)
    ensures r == t.(components := Reranked(reg, t.components, InputRank(reg, c), OutputRank(reg, c)))
  {
    var inRank := InputRank(reg, c);
    var outRank := OutputRank(reg, c);
    if inRank == outRank {
      assert t.components + Alls(0) == t.components;
      return t;
    }
    if RankAncestorOf(reg, inRank, outRank) {
      var comps := AddComponents(reg, t.components, inRank, outRank);
      return t.(components := comps);
    }
    var comps := DropComponents(reg, t.components, outRank, inRank);
    return t.(components := comps);
  }

  /** What `backwardRank` needs: comparable ranks and, going up, enough components. */
  predicate BackwardRankable(reg: Registry, c: Contract, t: Target)
    requires c.source.Some?
  {
    var inRank := InputRank(reg, c);
    var outRank := OutputRank(reg, c);
    (RankAncestorOf(reg, inRank, outRank) || RankAncestorOf(reg, outRank, inRank))
    && (!RankAncestorOf(reg, outRank, inRank) ==> RankDepth(reg, outRank) - RankDepth(reg, inRank) <= |t.components|)
  }

  /** `backwardRank`: the components re-ranked from the output rank back to the input rank. */
  method BackwardRank(reg: Registry, c: Contract, t: Target) returns (r: Target)
    requires c.source.Some? && BackwardRankable(reg, c, t)
    ensures r == t.(components := Reranked(reg, t.components, OutputRank(reg, c), InputRank(reg, c)))
  {
    var inRank := InputRank(reg, c);
    var outRank := OutputRank(reg, c);
    if inRank == outRank {
      assert t.components + Alls(0) == t.components;
      return t;
    }
    if RankAncestorOf(reg, outRank, inRank) {
      var comps := AddComponents(reg, t.components, outRank, inRank);
      return t.(components := comps);
    }
    var comps := DropComponents(reg, t.components, inRank, outRank);
    return t.(components := comps);
  }

  // ---------------------------------------------------------------------------
  // Moving one target forward and backward through a pipe.

  /** What `forward` needs: an exact target (the assertion) that can be re-ranked. */
  predicate Forwardable(reg: Registry, c: Contract, t: Target)
  {
    c.source.Some? && t.exactness == Exact && ForwardRankable(reg, c, t)
  }

  /** The target `forward` produces: the output kind, re-ranked components. */
  function Forwarded(reg: Registry, c: Contract, t: Target): (r: Target)
    requires Forwardable(reg, c, t)
    ensures r.kind == (if c.targetKind.Some? then c.targetKind.value else t.kind)
    ensures r.exactness == Exact
    ensures c.targetKind.None? ==> r.components == t.components
  {
    var comps := Reranked(reg, t.components, InputRank(reg, c), OutputRank(reg, c));
    assert c.targetKind.None? ==> comps == t.components + Alls(0) == t.components;
    Target(comps, if c.targetKind.Some? then c.targetKind.value else t.kind, t.exactness)
  }

  /** `forward`. */
  method Forward(reg: Registry, c: Contract, t: Target) returns (r: Target)
    requires Forwardable(reg, c, t)
    ensures r == Forwarded(reg, c, t)
  {
    var kind := if c.targetKind.Some? then c.targetKind.value else t.kind;
    r := ForwardRank(reg, c, t.(kind := kind));
  }

  /** What `backward` needs: a source kind and, for a matching target, a possible re-ranking. */
  predicate Backwardable(reg: Registry, c: Contract, t: Target)
  {
    c.source.Some? && (BackwardMatches(reg, c, t) ==> BackwardRankable(reg, c, t))
  }

  /** The target `backward` produces: a target that does not match backward is left as it is. */
  function Backwarded(reg: Registry, c: Contract, t: Target): (r: Target)
    requires Backwardable(reg, c, t)
    ensures !BackwardMatches(reg, c, t) ==> r == t
    ensures BackwardMatches(reg, c, t) ==>
              r.kind == BackwardInputKind(reg, c, t) && r.exactness == BackwardInputContract(c, t)
  {
    if !BackwardMatches(reg, c, t) then t
    else Target(Reranked(reg, t.components, OutputRank(reg, c), InputRank(reg, c)),
                BackwardInputKind(reg, c, t), BackwardInputContract(c, t))
  }

  /** `backward`. */
  method Backward(reg: Registry, c: Contract, t: Target) returns (r: Target)
    requires Backwardable(reg, c, t)
    ensures r == Backwarded(reg, c, t)
  {
    if !BackwardMatches(reg, c, t) {
      return t;
    }
    r := t.(kind := BackwardInputKind(reg, c, t), exactness := BackwardInputContract(c, t));
    r := BackwardRank(reg, c, r);
  }

  /**
   * A pipe whose produced kind has a deeper rank than its source kind: the
   * target it sends back for one of its results has the components of the
   * input that produced it.
   */
  lemma ForwardThenBackward(reg: Registry, c: Contract, t: Target)
    requires Forwardable(reg, c, t) && c.targetKind.Some?
    requires RankAncestorOf(reg, InputRank(reg, c), OutputRank(reg, c))
    ensures Backwardable(reg, c, Forwarded(reg, c, t))
    ensures Backwarded(reg, c, Forwarded(reg, c, t)).components == t.components
    ensures Backwarded(reg, c, Forwarded(reg, c, t)).kind == c.source.value
  {
    var f := Forwarded(reg, c, t);
    RerankedRoundTrip(reg, t.components, InputRank(reg, c), OutputRank(reg, c));
    assert BackwardMatches(reg, c, f);
  }

  // ---------------------------------------------------------------------------
  // Target lists.

  /** The targets that satisfy `ResultMatches`, in order. */
  function ResultSelected(reg: Registry, c: Contract, ts: seq<Target>): seq<Target>
  {
    if |ts| == 0 then []
    else ResultSelected(reg, c, ts[..|ts| - 1])
         + (if ResultMatches(reg, c, ts[|ts| - 1]) then [ts[|ts| - 1]] else [])
  }

  /** The targets that do not satisfy `ResultMatches`, in order. */
  function ResultKept(reg: Registry, c: Contract, ts: seq<Target>): seq<Target>
  {
    if |ts| == 0 then []
    else ResultKept(reg, c, ts[..|ts| - 1])
         + (if ResultMatches(reg, c, ts[|ts| - 1]) then [] else [ts[|ts| - 1]])
  }

  /** The selected targets are exactly those that match, the kept ones exactly those that do not. */
  lemma {:induction false} ResultMembers(reg: Registry, c: Contract, ts: seq<Target>)
    ensures forall t :: t in ResultSelected(reg, c, ts) <==> t in ts && ResultMatches(reg, c, t)
    ensures forall t :: t in ResultKept(reg, c, ts) <==> t in ts && !ResultMatches(reg, c, t)
  {
    if |ts| > 0 {
      ResultMembers(reg, c, ts[..|ts| - 1]);
      assert ts == ts[..|ts| - 1] + [ts[|ts| - 1]];
    }
  }

  /** The selected and the kept targets together are the original ones, each as often. */
  lemma {:induction false} ResultPartition(reg: Registry, c: Contract, ts: seq<Target>)
    ensures multiset(ResultSelected(reg, c, ts)) + multiset(ResultKept(reg, c, ts)) == multiset(ts)
  {
    if |ts| > 0 {
      ResultPartition(reg, c, ts[..|ts| - 1]);
      assert ts == ts[..|ts| - 1] + [ts[|ts| - 1]];
    }
  }

  /** The targets that satisfy `RequirementMatches`, in order. */
  function RequirementSelected(reg: Registry, c: Contract, ts: seq<Target>): seq<Target>
  {
    if |ts| == 0 then []
    else RequirementSelected(reg, c, ts[..|ts| - 1])
         + (if RequirementMatches(reg, c, ts[|ts| - 1]) then [ts[|ts| - 1]] else [])
  }

  /** The targets that do not satisfy `RequirementMatches`, in order. */
  function RequirementKept(reg: Registry, c: Contract, ts: seq<Target>): seq<Target>
  {
    if |ts| == 0 then []
    else RequirementKept(reg, c, ts[..|ts| - 1])
         + (if RequirementMatches(reg, c, ts[|ts| - 1]) then [] else [ts[|ts| - 1]])
  }

  /** The moved outputs are exactly those that match, the remaining ones exactly those that do not. */
  lemma {:induction false} RequirementMembers(reg: Registry, c: Contract, ts: seq<Target>)
    ensures forall t :: t in RequirementSelected(reg, c, ts) <==> t in ts && RequirementMatches(reg, c, t)
    ensures forall t :: t in RequirementKept(reg, c, ts) <==> t in ts && !RequirementMatches(reg, c, t)
  {
    if |ts| > 0 {
      RequirementMembers(reg, c, ts[..|ts| - 1]);
      assert ts == ts[..|ts| - 1] + [ts[|ts| - 1]];
    }
  }

  /** The moved and the remaining outputs together are the original ones, each as often. */
  lemma {:induction false} RequirementPartition(reg: Registry, c: Contract, ts: seq<Target>)
    ensures multiset(RequirementSelected(reg, c, ts)) + multiset(RequirementKept(reg, c, ts)) == multiset(ts)
  {
    if |ts| > 0 {
      RequirementPartition(reg, c, ts[..|ts| - 1]);
      assert ts == ts[..|ts| - 1] + [ts[|ts| - 1]];
    }
  }

  /** Every target of the list can be moved forward. */
  predicate AllForwardable(reg: Registry, c: Contract, ts: seq<Target>)
  {
    forall i :: 0 <= i < |ts| ==> Forwardable(reg, c, ts[i])
  }

  /** Every target of the list can be moved backward. */
  predicate AllBackwardable(reg: Registry, c: Contract, ts: seq<Target>)
  {
    forall i :: 0 <= i < |ts| ==> Backwardable(reg, c, ts[i])
  }

  /** Each target moved forward, in order. */
  function ForwardedAll(reg: Registry, c: Contract, ts: seq<Target>): (r: seq<Target>)
    requires AllForwardable(reg, c, ts)
    ensures |r| == |ts|
    ensures forall i :: 0 <= i < |ts| ==> r[i] == Forwarded(reg, c, ts[i])
  {
    seq(|ts|, i requires 0 <= i < |ts| && AllForwardable(reg, c, ts) => Forwarded(reg, c, ts[i]))
  }

  /** Each target moved backward, in order. */
  function BackwardedAll(reg: Registry, c: Contract, ts: seq<Target>): (r: seq<Target>)
    requires AllBackwardable(reg, c, ts)
    ensures |r| == |ts|
    ensures forall i :: 0 <= i < |ts| ==> r[i] == Backwarded(reg, c, ts[i])
  {
    seq(|ts|, i requires 0 <= i < |ts| && AllBackwardable(reg, c, ts) => Backwarded(reg, c, ts[i]))
  }

  /** `for (Target &T : Tmp) forward(T)`: every element replaced in place. */
  method ForwardEach(reg: Registry, c: Contract, ts: seq<Target>) returns (r: seq<Target>)
    requires AllForwardable(reg, c, ts)
    ensures r == ForwardedAll(reg, c, ts)
  {
    r := ts;
    for i := 0 to |ts|
      invariant |r| == |ts|
      invariant forall j :: 0 <= j < i ==> r[j] == Forwarded(reg, c, ts[j])
      invariant forall j :: i <= j < |ts| ==> r[j] == ts[j]
    {
      var f := Forward(reg, c, r[i]);
      r := r[i := f];
    }
  }

  /** `for (Target &T : Tmp) backward(T)`: every element replaced in place. */
  method BackwardEach(reg: Registry, c: Contract, ts: seq<Target>) returns (r: seq<Target>)
    requires AllBackwardable(reg, c, ts)
    ensures r == BackwardedAll(reg, c, ts)
  {
    r := ts;
    for i := 0 to |ts|
      invariant |r| == |ts|
      invariant forall j :: 0 <= j < i ==> r[j] == Backwarded(reg, c, ts[j])
      invariant forall j :: i <= j < |ts| ==> r[j] == ts[j]
    {
      var b := Backward(reg, c, r[i]);
      r := r[i := b];
    }
  }

  // ---------------------------------------------------------------------------
  // Container maps.

  /** `ContainerToTargetsMap`: the targets of each container, by container name. */
  class ContainerToTargetsMap {
    var containers: map<string, seq<Target>>

    constructor(containers: map<string, seq<Target>>)
      ensures this.containers == containers
    {
      this.containers := containers;
    }

    /** `operator[]` read without inserting: the targets of a container, none when it is missing. */
    function Lookup(name: string): seq<Target>
      reads this
    {
      Get(containers, name)
    }
  }

  /** The target a pipe without a source produces: the target kind, all components `*`. */
  function DefaultResult(reg: Registry, c: Contract): (r: Target)
    requires c.targetKind.Some?
    ensures r.kind == c.targetKind.value
    ensures |r.components| == if KindDepth(reg, c.targetKind.value) > 0 then KindDepth(reg, c.targetKind.value) - 1 else 0
    ensures forall i :: 0 <= i < |r.components| ==> r.components[i] == All
  {
    Target(Alls(KindDepth(reg, c.targetKind.value) - 1), c.targetKind.value, Exact)
  }

  /** The targets of a container; a container that is not there has none. */
  function Get(m: map<string, seq<Target>>, name: string): (r: seq<Target>)
    ensures name !in m ==> r == []
  {
    if name in m then m[name] else []
  }

  /** What `deduceResults` needs: a kind to produce when there is no source, and movable inputs. */
  predicate CanDeduceResults(reg: Registry, c: Contract, m: map<string, seq<Target>>, names: seq<string>)
  {
    if c.source.None? then c.targetKind.Some?
    else c.sourceIndex < |names|
         && var src := Get(m, names[c.sourceIndex]);
         AllForwardable(reg, c, ResultSelected(reg, c, src))
         && forall i :: 0 <= i < |src| ==> ForwardMatches(reg, c, src[i]) ==> PromotionIndexable(reg, c, src[i])
  }

  /** The targets `deduceResults` produces: the default one, or the matching inputs moved forward. */
  function Deduced(reg: Registry, c: Contract, m: map<string, seq<Target>>, names: seq<string>): seq<Target>
    requires CanDeduceResults(reg, c, m, names)
  {
    if c.source.None? then [DefaultResult(reg, c)]
    else ForwardedAll(reg, c, ResultSelected(reg, c, Get(m, names[c.sourceIndex])))
  }

  /**
   * The status after `deduceResults`: the source container, which is created
   * when missing, loses its matching inputs when the contract erases them.
   */
  function Erased(reg: Registry, c: Contract, m: map<string, seq<Target>>, names: seq<string>)
    : map<string, seq<Target>>
    requires c.source.Some? ==> c.sourceIndex < |names|
  {
    if c.source.None? then m
    else
      var src := Get(m, names[c.sourceIndex]);
      m[names[c.sourceIndex] := if c.preservation == Erase then ResultKept(reg, c, src) else src]
  }

  /** The map with `ts` appended to the container `name`. */
  function Appended(m: map<string, seq<Target>>, name: string, ts: seq<Target>): map<string, seq<Target>>
  {
    m[name := Get(m, name) + ts]
  }

  /**
   * `deduceResults(StepStatus, Results, Names)` into a list: without a source,
   * one default target is appended; otherwise the matching inputs, moved
   * forward, are appended in order, and removed from the source container when
   * the contract erases its inputs.
   */
  method DeduceResultsInto(reg: Registry, c: Contract, status: ContainerToTargetsMap, results: seq<Target>,
                           names: seq<string>) returns (results': seq<Target>)
    requires CanDeduceResults(reg, c, status.containers, names)
    modifies status
    ensures results' == results + Deduced(reg, c, old(status.containers), names)
    ensures status.containers == Erased(reg, c, old(status.containers), names)
  {
    if c.source.None? {
      var depth := KindDepth(reg, c.targetKind.value);
      var list: seq<PathComponent> := [];
      var i := 1;
      while i < depth
        invariant 1 <= i <= (if depth > 1 then depth else 1)
        invariant list == Alls(i - 1)
      {
        list := list + [All];
        i := i + 1;
      }
      assert list == Alls(depth - 1);
      return results + [Target(list, c.targetKind.value, Exact)];
    }
    var name := names[c.sourceIndex];
    var src := status.Lookup(name);
    var selected := SelectResults(reg, c, src);
    if c.preservation == Erase {
      var kept := KeepNonResults(reg, c, src);
      status.containers := status.containers[name := kept];
    } else {
      status.containers := status.containers[name := src];
    }
    var moved := ForwardEach(reg, c, selected);
    results' := results + moved;
  }

  /** `copy_if` with the `deduceResults` predicate. */
  method SelectResults(reg: Registry, c: Contract, ts: seq<Target>) returns (r: seq<Target>)
    requires forall i :: 0 <= i < |ts| ==> ForwardMatches(reg, c, ts[i]) ==> PromotionIndexable(reg, c, ts[i])
    ensures r == ResultSelected(reg, c, ts)
  {
    r := [];
    for i := 0 to |ts|
      invariant r == ResultSelected(reg, c, ts[..i])
    {
      assert ts[..i + 1][..i] == ts[..i];
      if ForwardMatches(reg, c, ts[i]) {
        var promotable := TargetCanBePromotedToShallowerRank(reg, c, ts[i]);
        if promotable {
          r := r + [ts[i]];
        }
      }
    }
    assert ts[..|ts|] == ts;
  }

  /** `erase_if` with the `deduceResults` predicate. */
  method KeepNonResults(reg: Registry, c: Contract, ts: seq<Target>) returns (r: seq<Target>)
    requires forall i :: 0 <= i < |ts| ==> ForwardMatches(reg, c, ts[i]) ==> PromotionIndexable(reg, c, ts[i])
    ensures r == ResultKept(reg, c, ts)
  {
    r := [];
    for i := 0 to |ts|
      invariant r == ResultKept(reg, c, ts[..i])
    {
      assert ts[..i + 1][..i] == ts[..i];
      var matches := ForwardMatches(reg, c, ts[i]);
      if matches {
        matches := TargetCanBePromotedToShallowerRank(reg, c, ts[i]);
      }
      if !matches {
        r := r + [ts[i]];
      }
    }
    assert ts[..|ts|] == ts;
  }

  /**
   * An erasing contract moves every matching input: afterwards no input in the
   * source container matches, and none is lost or duplicated.
   */
  lemma ErasedInputsMoved(reg: Registry, c: Contract, src: seq<Target>)
    ensures forall t :: t in ResultKept(reg, c, src) ==> !ResultMatches(reg, c, t)
    ensures |ResultSelected(reg, c, src)| + |ResultKept(reg, c, src)| == |src|
  {
    ResultMembers(reg, c, src);
    ResultPartition(reg, c, src);
    assert |multiset(ResultSelected(reg, c, src)) + multiset(ResultKept(reg, c, src))| == |multiset(src)|;
  }

  /** `deduceRequirements(Source, Target)` on the lists of two distinct containers. */
  method DeduceRequirementsLists(reg: Registry, c: Contract, source: seq<Target>, target: seq<Target>)
    returns (source': seq<Target>, target': seq<Target>)
    requires AllBackwardable(reg, c, RequirementSelected(reg, c, target))
    ensures target' == RequirementKept(reg, c, target)
    ensures source' == source + BackwardedAll(reg, c, RequirementSelected(reg, c, target))
  {
    var tmp := SelectRequirements(reg, c, target);
    tmp := BackwardEach(reg, c, tmp);
    target' := KeepNonRequirements(reg, c, target);
    source' := source + tmp;
  }

  /** `copy_if` with the `deduceRequirements` predicate. */
  method SelectRequirements(reg: Registry, c: Contract, ts: seq<Target>) returns (r: seq<Target>)
    ensures r == RequirementSelected(reg, c, ts)
  {
    r := [];
    for i := 0 to |ts|
      invariant r == RequirementSelected(reg, c, ts[..i])
    {
      assert ts[..i + 1][..i] == ts[..i];
      if RequirementMatches(reg, c, ts[i]) {
        r := r + [ts[i]];
      }
    }
    assert ts[..|ts|] == ts;
  }

  /** `erase_if` with the `deduceRequirements` predicate. */
  method KeepNonRequirements(reg: Registry, c: Contract, ts: seq<Target>) returns (r: seq<Target>)
    ensures r == RequirementKept(reg, c, ts)
  {
    r := [];
    for i := 0 to |ts|
      invariant r == RequirementKept(reg, c, ts[..i])
    {
      assert ts[..i + 1][..i] == ts[..i];
      if !RequirementMatches(reg, c, ts[i]) {
        r := r + [ts[i]];
      }
    }
    assert ts[..|ts|] == ts;
  }

  /** A contract without a source requires nothing: the outputs stay where they are. */
  lemma NoSourceRequiresNothing(reg: Registry, c: Contract, target: seq<Target>)
    requires c.source.None?
    ensures RequirementSelected(reg, c, target) == []
    ensures RequirementKept(reg, c, target) == target
  {
    if target != [] {
      assert RequirementKept(reg, c, target) == RequirementKept(reg, c, target[..|target| - 1]) + [target[|target| - 1]];
      NoSourceRequiresNothing(reg, c, target[..|target| - 1]);
      assert target == target[..|target| - 1] + [target[|target| - 1]];
    }
  }

  /** What `deduceRequirements` needs: both containers named, and the outputs to send back movable. */
  predicate CanDeduceRequirements(reg: Registry, c: Contract, output: map<string, seq<Target>>, names: seq<string>)
  {
    c.sourceIndex < |names| && c.targetIndex < |names|
    && AllBackwardable(reg, c, RequirementSelected(reg, c, Get(output, names[c.targetIndex])))
  }

  /** The map `deduceRequirements` returns. */
  function Required(reg: Registry, c: Contract, output: map<string, seq<Target>>, names: seq<string>)
    : map<string, seq<Target>>
    requires CanDeduceRequirements(reg, c, output, names)
  {
    var t := Get(output, names[c.targetIndex]);
    var moved := BackwardedAll(reg, c, RequirementSelected(reg, c, t));
    if names[c.sourceIndex] == names[c.targetIndex] then
      output[names[c.targetIndex] := RequirementKept(reg, c, t) + moved]
    else
      output[names[c.sourceIndex] := Get(output, names[c.sourceIndex]) + moved]
            [names[c.targetIndex] := RequirementKept(reg, c, t)]
  }

  /**
   * What the requirements hold: the target container keeps only the outputs
   * the pipe does not produce; the source container gains, at its end, each
   * of those outputs moved backward; every other container is as it was.
   */
  lemma RequiredContents(reg: Registry, c: Contract, output: map<string, seq<Target>>, names: seq<string>,
                         other: string)
    requires CanDeduceRequirements(reg, c, output, names)
    ensures var sourceName := names[c.sourceIndex];
            var targetName := names[c.targetIndex];
            var t := Get(output, targetName);
            var r := Required(reg, c, output, names);
            var moved := BackwardedAll(reg, c, RequirementSelected(reg, c, t));
            sourceName in r && targetName in r
            && r[targetName][..|RequirementKept(reg, c, t)|] == RequirementKept(reg, c, t)
            && (forall u :: u in r[targetName][..|RequirementKept(reg, c, t)|] ==> !RequirementMatches(reg, c, u))
            && r[sourceName][|r[sourceName]| - |moved|..] == moved
            && (sourceName != targetName ==> r[sourceName] == Get(output, sourceName) + moved)
            && (other != sourceName && other != targetName ==> Get(r, other) == Get(output, other))
  {
    RequirementMembers(reg, c, Get(output, names[c.targetIndex]));
  }

  /**
   * `deduceRequirements(Output, Names)`: a copy of the output map in which the
   * matching targets of the target container move, backward, to the end of the
   * source container. When both arguments name the same container, the two
   * lists are one list: the remaining targets come first, then the moved ones.
   */
  method DeduceRequirements(reg: Registry, c: Contract, output: map<string, seq<Target>>, names: seq<string>)
    returns (requirements: map<string, seq<Target>>)
    requires CanDeduceRequirements(reg, c, output, names)
    ensures requirements == Required(reg, c, output, names)
  {
    var sourceName := names[c.sourceIndex];
    var targetName := names[c.targetIndex];
    var s := if sourceName in output then output[sourceName] else [];
    var t := if targetName in output then output[targetName] else [];
    if sourceName == targetName {
      var source', target' := DeduceRequirementsLists(reg, c, [], t);
      assert source' == BackwardedAll(reg, c, RequirementSelected(reg, c, t));
      requirements := output[targetName := target' + source'];
    } else {
      var source', target' := DeduceRequirementsLists(reg, c, s, t);
      requirements := output[sourceName := source'][targetName := target'];
    }
  }

  /** `forwardMatches(StepStatus, Names)`: the source container holds a matching target. */
  predicate ContainerForwardMatches(reg: Registry, c: Contract, status: map<string, seq<Target>>, names: seq<string>)
    requires c.sourceIndex < |names|
  {
    names[c.sourceIndex] in status
    && exists i :: 0 <= i < |status[names[c.sourceIndex]]| && ForwardMatches(reg, c, status[names[c.sourceIndex]][i])
  }

  /** `backwardMatches(StepStatus, Names)`: the target container holds a target to send back. */
  predicate ContainerBackwardMatches(reg: Registry, c: Contract, status: map<string, seq<Target>>, names: seq<string>)
    requires c.targetIndex < |names| && (c.source.Some? || c.targetKind.Some?)
  {
    names[c.targetIndex] in status
    && exists i :: 0 <= i < |status[names[c.targetIndex]]| &&
                   (BackwardMatches(reg, c, status[names[c.targetIndex]][i])
                    || (c.preservation == Preserve && ForwardMatches(reg, c, status[names[c.targetIndex]][i])))
  }

  /** The target `insertDefaultInput` appends: the source kind with all components `*`. */
  function DefaultInput(reg: Registry, c: Contract): (r: Target)
    requires c.source.Some?
    ensures r.kind == c.source.value && r.exactness == c.inputContract
    ensures |r.components| == KindDepth(reg, c.source.value)
    ensures forall i :: 0 <= i < |r.components| ==> r.components[i] == All
  {
    Target(Alls(KindDepth(reg, c.source.value)), c.source.value, c.inputContract)
  }

  /** `insertDefaultInput`: one default input appended to the source container. */
  method InsertDefaultInput(reg: Registry, c: Contract, status: ContainerToTargetsMap, names: seq<string>)
    requires c.source.Some? && c.sourceIndex < |names|
    modifies status
    ensures status.containers == Appended(old(status.containers), names[c.sourceIndex], [DefaultInput(reg, c)])
  {
    var name := names[c.sourceIndex];
    var comps := seq(KindDepth(reg, c.source.value), _ => All);
    assert comps == Alls(KindDepth(reg, c.source.value));
    status.containers := status.containers[name := status.Lookup(name) + [Target(comps, c.source.value, c.inputContract)]];
  }

  // ---------------------------------------------------------------------------
  // Contract groups.

  /** `ContractGroup::forwardMatches`: every contract matches. */
  predicate GroupForwardMatches(reg: Registry, group: seq<Contract>, status: map<string, seq<Target>>,
                                names: seq<string>)
    requires forall i :: 0 <= i < |group| ==> group[i].sourceIndex < |names|
  {
    forall i :: 0 <= i < |group| ==> ContainerForwardMatches(reg, group[i], status, names)
  }

  /** `ContractGroup::backwardMatches`: some contract matches. */
  predicate GroupBackwardMatches(reg: Registry, group: seq<Contract>, status: map<string, seq<Target>>,
                                 names: seq<string>)
    requires forall i :: 0 <= i < |group| ==>
               group[i].targetIndex < |names| && (group[i].source.Some? || group[i].targetKind.Some?)
  {
    exists i :: 0 <= i < |group| && ContainerBackwardMatches(reg, group[i], status, names)
  }

  /** A group with one contract matches as that contract does, both ways. */
  lemma SingletonGroup(reg: Registry, c: Contract, status: map<string, seq<Target>>, names: seq<string>)
    requires c.sourceIndex < |names| && c.targetIndex < |names| && (c.source.Some? || c.targetKind.Some?)
    ensures GroupForwardMatches(reg, [c], status, names) <==> ContainerForwardMatches(reg, c, status, names)
    ensures GroupBackwardMatches(reg, [c], status, names) <==> ContainerBackwardMatches(reg, c, status, names)
  {
    assert [c][0] == c;
  }

  /** What the contracts of a group need to be asked for their requirements. */
  ghost predicate GroupCanDeduceRequirements(reg: Registry, group: seq<Contract>, status: map<string, seq<Target>>,
                                             names: seq<string>)
  {
    forall i :: 0 <= i < |group| ==>
      var c := group[i];
      CanDeduceRequirements(reg, c, status, names)
      && (c.source.Some? || (c.targetKind.Some? && ContainerBackwardMatches(reg, c, status, names)))
  }

  /**
   * The requirements of the contracts before the `i`-th, from the last one
   * back: each matching contract's requirements merged in, a default input
   * for each other one.
   */
  ghost function GroupRequirements(reg: Registry, group: seq<Contract>, i: nat, status: map<string, seq<Target>>,
                                   names: seq<string>,
                                   merge: (map<string, seq<Target>>, map<string, seq<Target>>) -> map<string, seq<Target>>,
                                   acc: map<string, seq<Target>>): map<string, seq<Target>>
    requires i <= |group| && GroupCanDeduceRequirements(reg, group, status, names)
  {
    if i == 0 then acc
    else
      var c := group[i - 1];
      if ContainerBackwardMatches(reg, c, status, names) then
        GroupRequirements(reg, group, i - 1, status, names, merge, merge(acc, Required(reg, c, status, names)))
      else
        GroupRequirements(reg, group, i - 1, status, names, merge, Appended(acc, names[c.sourceIndex], [DefaultInput(reg, c)]))
  }

  /**
   * `ContractGroup::deduceRequirements`. `ContainerToTargetsMap::merge` is not
   * part of this model: it is the parameter `merge`. Without a backward match
   * the status is returned as it was.
   */
  method GroupDeduceRequirements(reg: Registry, group: seq<Contract>, status: map<string, seq<Target>>,
                                 names: seq<string>,
                                 merge: (map<string, seq<Target>>, map<string, seq<Target>>) -> map<string, seq<Target>>)
    returns (results: map<string, seq<Target>>)
    requires GroupCanDeduceRequirements(reg, group, status, names)
    ensures !GroupBackwardMatches(reg, group, status, names) ==> results == status
    ensures GroupBackwardMatches(reg, group, status, names) ==>
              results == GroupRequirements(reg, group, |group|, status, names, merge, map[])
  {
    var any := false;
    for i := 0 to |group|
      invariant any <==> exists j :: 0 <= j < i && ContainerBackwardMatches(reg, group[j], status, names)
    {
      if ContainerBackwardMatches(reg, group[i], status, names) {
        any := true;
      }
    }
    if !any {
      return status;
    }
    var box := new ContainerToTargetsMap(map[]);
    var i: nat := |group|;
    while i > 0
      invariant i <= |group|
      invariant GroupRequirements(reg, group, i, status, names, merge, box.containers)
                == GroupRequirements(reg, group, |group|, status, names, merge, map[])
      decreases i
    {
      i := i - 1;
      var c := group[i];
      if ContainerBackwardMatches(reg, c, status, names) {
        var deduced := DeduceRequirements(reg, c, status, names);
        box.containers := merge(box.containers, deduced);
      } else {
        InsertDefaultInput(reg, c, box, names);
      }
    }
    results := box.containers;
  }

  /**
   * `deduceResults(StepStatus, Names)`: the deduced targets are appended to the
   * target container of the status itself, after the inputs were erased from
   * the source container (which may be the same container).
   */
  method DeduceResultsInPlace(reg: Registry, c: Contract, status: ContainerToTargetsMap, names: seq<string>)
    requires c.targetIndex < |names| && CanDeduceResults(reg, c, status.containers, names)
    modifies status
    ensures status.containers == Appended(Erased(reg, c, old(status.containers), names), names[c.targetIndex],
                                          Deduced(reg, c, old(status.containers), names))
  {
    var tmp := DeduceResultsInto(reg, c, status, [], names);
    assert tmp == Deduced(reg, c, old(status.containers), names);
    var name := names[c.targetIndex];
    status.containers := status.containers[name := status.Lookup(name) + tmp];
  }

  /** `deduceResults(StepStatus, Results, Names)`: the deduced targets are appended to `Results`. */
  method DeduceResultsToMap(reg: Registry, c: Contract, status: ContainerToTargetsMap,
                            results: ContainerToTargetsMap, names: seq<string>)
    requires status != results
    requires c.targetIndex < |names| && CanDeduceResults(reg, c, status.containers, names)
    modifies status, results
    ensures status.containers == Erased(reg, c, old(status.containers), names)
    ensures results.containers == Appended(old(results.containers), names[c.targetIndex],
                                           Deduced(reg, c, old(status.containers), names))
  {
    var name := names[c.targetIndex];
    var output := results.Lookup(name);
    output := DeduceResultsInto(reg, c, status, output, names);
    results.containers := results.containers[name := output];
  }

  /** A target every contract can move forward when it matches. */
  predicate TargetReady(reg: Registry, c: Contract, t: Target)
  {
    (ForwardMatches(reg, c, t) ==> PromotionIndexable(reg, c, t))
    && (ResultMatches(reg, c, t) ==> Forwardable(reg, c, t))
  }

  /** Every target of every container is ready for the contract. */
  ghost predicate ReadyIn(reg: Registry, c: Contract, m: map<string, seq<Target>>)
  {
    forall name, t :: name in m && t in m[name] ==> TargetReady(reg, c, t)
  }

  /** What the contracts of a group need to deduce their results from any status. */
  ghost predicate GroupCanDeduceResults(reg: Registry, group: seq<Contract>, m: map<string, seq<Target>>,
                                        names: seq<string>)
  {
    forall i :: 0 <= i < |group| ==>
      group[i].sourceIndex < |names| && group[i].targetIndex < |names|
      && (group[i].source.None? ==> group[i].targetKind.Some?)
      && ReadyIn(reg, group[i], m)
  }

  /** Targets that are all ready let a contract deduce its results. */
  lemma ReadyCanDeduce(reg: Registry, c: Contract, m: map<string, seq<Target>>, names: seq<string>)
    requires c.sourceIndex < |names| && (c.source.None? ==> c.targetKind.Some?)
    requires ReadyIn(reg, c, m)
    ensures CanDeduceResults(reg, c, m, names)
  {
    if c.source.Some? {
      var src := Get(m, names[c.sourceIndex]);
      var selected := ResultSelected(reg, c, src);
      ResultMembers(reg, c, src);
      var name := names[c.sourceIndex];
      forall i | 0 <= i < |selected|
        ensures Forwardable(reg, c, selected[i])
      {
        assert selected[i] in src && ResultMatches(reg, c, selected[i]);
        assert name in m && selected[i] in m[name];
        assert TargetReady(reg, c, selected[i]);
      }
      forall i | 0 <= i < |src|
        ensures ForwardMatches(reg, c, src[i]) ==> PromotionIndexable(reg, c, src[i])
      {
        assert name in m && src[i] in m[name];
        assert TargetReady(reg, c, src[i]);
      }
    }
  }

  /** Erasing inputs for a contract `d` keeps every target ready for the contract `c`. */
  lemma ReadyAfterErase(reg: Registry, c: Contract, d: Contract, m: map<string, seq<Target>>, names: seq<string>)
    requires d.source.Some? ==> d.sourceIndex < |names|
    requires ReadyIn(reg, c, m)
    ensures ReadyIn(reg, c, Erased(reg, d, m, names))
  {
    if d.source.Some? {
      ResultMembers(reg, d, Get(m, names[d.sourceIndex]));
    }
  }

  /** The results of the contracts from the `i`-th on, deduced one after the other. */
  ghost function GroupResults(reg: Registry, group: seq<Contract>, i: nat, m: map<string, seq<Target>>,
                              results: map<string, seq<Target>>, names: seq<string>)
    : (r: (map<string, seq<Target>>, map<string, seq<Target>>))
    requires i <= |group| && GroupCanDeduceResults(reg, group, m, names)
    decreases |group| - i
  {
    if i == |group| then (m, results)
    else
      var c := group[i];
      ReadyCanDeduce(reg, c, m, names);
      GroupReadyAfterErase(reg, group, c, m, names);
      GroupResults(reg, group, i + 1, Erased(reg, c, m, names),
                   Appended(results, names[c.targetIndex], Deduced(reg, c, m, names)), names)
  }

  /** Erasing inputs for one contract keeps the whole group able to deduce its results. */
  lemma GroupReadyAfterErase(reg: Registry, group: seq<Contract>, d: Contract, m: map<string, seq<Target>>,
                             names: seq<string>)
    requires d.source.Some? ==> d.sourceIndex < |names|
    requires GroupCanDeduceResults(reg, group, m, names)
    ensures GroupCanDeduceResults(reg, group, Erased(reg, d, m, names), names)
  {
    forall k | 0 <= k < |group|
      ensures ReadyIn(reg, group[k], Erased(reg, d, m, names))
    {
      ReadyAfterErase(reg, group[k], d, m, names);
    }
  }

  /**
   * `ContractGroup::deduceResults`. `ContainerToTargetsMap::merge` is not part
   * of this model: it is the parameter `merge`. When some contract finds no
   * input the status is left as it was; otherwise each contract, in order,
   * erases its inputs from the status and appends its results to a separate
   * map, which is then merged into the status.
   */
  method GroupDeduceResults(reg: Registry, group: seq<Contract>, status: ContainerToTargetsMap, names: seq<string>,
                            merge: (map<string, seq<Target>>, map<string, seq<Target>>) -> map<string, seq<Target>>)
    requires GroupCanDeduceResults(reg, group, status.containers, names)
    modifies status
    ensures !GroupForwardMatches(reg, group, old(status.containers), names) ==> status.containers == old(status.containers)
    ensures GroupForwardMatches(reg, group, old(status.containers), names) ==>
              var r := GroupResults(reg, group, 0, old(status.containers), map[], names);
              status.containers == merge(r.0, r.1)
  {
    var all := true;
    for i := 0 to |group|
      invariant all <==> forall j :: 0 <= j < i ==> ContainerForwardMatches(reg, group[j], status.containers, names)
    {
      if !ContainerForwardMatches(reg, group[i], status.containers, names) {
        all := false;
      }
    }
    if !all {
      return;
    }
    var results := new ContainerToTargetsMap(map[]);
    for i := 0 to |group|
      invariant GroupCanDeduceResults(reg, group, status.containers, names)
      invariant GroupResults(reg, group, i, status.containers, results.containers, names)
                == GroupResults(reg, group, 0, old(status.containers), map[], names)
    {
      var c := group[i];
      ReadyCanDeduce(reg, c, status.containers, names);
      GroupReadyAfterErase(reg, group, c, status.containers, names);
      DeduceResultsToMap(reg, c, status, results, names);
    }
    status.containers := merge(status.containers, results.containers);
  }
}
