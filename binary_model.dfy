/**
 * The consistency checks of the binary model (lib/Model/Binary.cpp): function
 * edges, call edges, functions, dynamic functions, sections, segments and
 * relocations, the automatic names, and the classification of ELF relocations.
 *
 * A MetaAddress is either invalid or a valid 64-bit address; its architecture
 * and kind tags are not part of this model. Whatever a check learns from a
 * type it cannot see (the prototype's own `verify`, whether it is a function
 * type, whether a callee is `noreturn`) is recorded on the entity as a flag.
 */
module BinaryModel {
  import opened Wrappers
  import opened MachineInts

  datatype MetaAddress = InvalidAddress | Address(value: uint64)
  {
    predicate IsValid() { Address? }
  }

  /**
   * `MetaAddress + n`: a valid address moved by `n` bytes, invalid when the
   * result leaves the 64-bit address space or the address was invalid.
   */
  function Plus(a: MetaAddress, n: int): MetaAddress
  {
    if a.Address? && 0 <= a.value + n < TWO_TO_THE_64 then Address(a.value + n) else InvalidAddress
  }

  // ---------------------------------------------------------------------------
  // Edges.

  datatype EdgeType =
    | InvalidEdge
    | DirectBranch
    | FakeFunctionCall
    | FakeFunctionReturn
    | FunctionCall
    | IndirectCall
    | Return
    | BrokenReturn
    | IndirectTailCall
    | LongJmp
    | Killer
    | Unreachable
    | CountEdge

  /** A prototype reference: absent (an invalid type path) or present with what its checks say. */
  datatype Prototype = NoPrototype | SomePrototype(verifies: bool, isFunctionType: bool)

  /**
   * A successor edge of a basic block: a plain `FunctionEdge` or a `CallEdge`,
   * which also names a dynamic callee (empty when none), carries a prototype and
   * knows whether the call is `noreturn`.
   */
  datatype Edge =
    | FunctionEdge(kind: EdgeType, destination: MetaAddress)
    | CallEdge(kind: EdgeType, destination: MetaAddress, dynamicFunction: string,
               prototype: Prototype, noReturn: bool)

  /**
   * Call kinds are always carried by call edges. This encodes the split between
   * `FunctionEdge` and `CallEdge`: the graph construction casts both call kinds
   * to `CallEdge` (lib/Model/Binary.cpp:96-98) and `verifyFunctionEdge` casts
   * direct calls (:539), while `Function::verify` does not check it itself, so a
   * plain edge of kind `IndirectCall` is outside the model.
   */
  type ShapedEdge = e: Edge | e.kind == FunctionCall || e.kind == IndirectCall ==> e.CallEdge?
    witness FunctionEdge(DirectBranch, Address(0))

  /** Edge kinds that must have a valid destination. */
  predicate NeedsDestination(k: EdgeType)
  {
    k == DirectBranch || k == FakeFunctionCall || k == FakeFunctionReturn
  }

  /** Edge kinds that must not have a valid destination. */
  predicate ForbidsDestination(k: EdgeType)
  {
    k == IndirectCall || k == Return || k == BrokenReturn || k == IndirectTailCall
    || k == LongJmp || k == Killer || k == Unreachable
  }

  /** `verifyFunctionEdge`: the destination rules of each edge kind. */
  predicate EdgeRules(e: ShapedEdge)
  {
    match e.kind
    case InvalidEdge => false
    case CountEdge => false
    case DirectBranch => e.destination.IsValid()
    case FakeFunctionCall => e.destination.IsValid()
    case FakeFunctionReturn => e.destination.IsValid()
    case FunctionCall => e.destination.IsValid() == (|e.dynamicFunction| == 0)
    case IndirectCall => !e.destination.IsValid()
    case Return => !e.destination.IsValid()
    case BrokenReturn => !e.destination.IsValid()
    case IndirectTailCall => !e.destination.IsValid()
    case LongJmp => !e.destination.IsValid()
    case Killer => !e.destination.IsValid()
    case Unreachable => !e.destination.IsValid()
  }

  /**
   * The edge kinds fall in four groups: two always fail, three need a valid
   * destination, seven need an invalid one and a direct call needs a valid
   * destination exactly when it names no dynamic function.
   */
  lemma EdgeRulesByGroup(e: ShapedEdge)
    ensures e.kind == InvalidEdge || e.kind == CountEdge ==> !EdgeRules(e)
    ensures NeedsDestination(e.kind) ==> (EdgeRules(e) <==> e.destination.IsValid())
    ensures ForbidsDestination(e.kind) ==> (EdgeRules(e) <==> !e.destination.IsValid())
    ensures e.kind == FunctionCall ==>
              (EdgeRules(e) <==> (e.destination.IsValid() <==> |e.dynamicFunction| == 0))
    ensures e.kind == InvalidEdge || e.kind == CountEdge || NeedsDestination(e.kind)
            || ForbidsDestination(e.kind) || e.kind == FunctionCall
  {
  }

  /** `CallEdge::verify`. */
  predicate CallEdgeVerify(e: ShapedEdge)
    requires e.CallEdge?
  {
    if e.kind == FunctionCall then
      var isDynamic := |e.dynamicFunction| > 0;
      var hasDestination := e.destination.IsValid();
      if !hasDestination && !isDynamic then false
      else if hasDestination && isDynamic then false
      else if e.prototype.SomePrototype? then false
      else EdgeRules(e)
    else if e.prototype.NoPrototype? || !e.prototype.verifies then false
    else EdgeRules(e)
  }

  /**
   * A direct call verifies iff it has exactly one of a destination and a dynamic
   * callee and no prototype; an indirect call iff it has a prototype that
   * verifies and no destination.
   */
  lemma CallEdgeRules(e: ShapedEdge)
    requires e.CallEdge?
    ensures e.kind == FunctionCall ==>
              (CallEdgeVerify(e) <==> (e.destination.IsValid() <==> |e.dynamicFunction| == 0)
                                      && e.prototype.NoPrototype?)
    ensures e.kind == IndirectCall ==>
              (CallEdgeVerify(e) <==> e.prototype.SomePrototype? && e.prototype.verifies
                                      && !e.destination.IsValid())
    ensures e.kind != FunctionCall && e.prototype.NoPrototype? ==> !CallEdgeVerify(e)
  {
  }

  /** `FunctionEdgeBase::verify`: dispatch on the dynamic class. */
  predicate EdgeVerify(e: ShapedEdge)
  {
    if e.CallEdge? then CallEdgeVerify(e) else EdgeRules(e)
  }

  // ---------------------------------------------------------------------------
  // Blocks and functions.

  /** A basic block of a function's CFG; `nameVerifies` is what its custom name's own check says. */
  datatype BasicBlock = BasicBlock(start: MetaAddress, end: MetaAddress, customName: string,
                                   nameVerifies: bool, successors: seq<ShapedEdge>)

  /** `BasicBlock::verify`. */
  predicate BlockVerify(b: BasicBlock)
  {
    b.start.IsValid() && b.end.IsValid() && b.nameVerifies
    && forall i :: 0 <= i < |b.successors| ==> EdgeVerify(b.successors[i])
  }

  datatype FunctionType = InvalidFunction | Regular | NoReturnFunction | Fake

  datatype Function = Function(entry: MetaAddress, kind: FunctionType, customName: string,
                               cfg: seq<BasicBlock>, prototype: Prototype)

  /** The number of blocks starting at `a`. */
  function StartingAt(cfg: seq<BasicBlock>, a: MetaAddress): nat
  {
    if |cfg| == 0 then 0
    else StartingAt(cfg[..|cfg| - 1], a) + (if cfg[|cfg| - 1].start == a then 1 else 0)
  }

  /** Every successor edge of every block verifies. */
  ghost predicate AllEdgesVerify(cfg: seq<BasicBlock>)
  {
    forall i, j :: 0 <= i < |cfg| && 0 <= j < |cfg[i].successors| ==> EdgeVerify(cfg[i].successors[j])
  }

  /** A prototype, when present, verifies and is a raw or C-ABI function type. */
  predicate PrototypeOk(p: Prototype)
  {
    p.SomePrototype? ==> p.verifies && p.isFunctionType
  }

  /** What `Function::verify` accepts. */
  ghost predicate FunctionValid(f: Function)
  {
    if f.kind == Fake || f.kind == InvalidFunction then |f.cfg| == 0
    else (|f.cfg| > 0 ==> StartingAt(f.cfg, f.entry) == 1 && AllEdgesVerify(f.cfg))
         && PrototypeOk(f.prototype)
  }

  /** All edges of the blocks before `k`, and the first `j` edges of block `k`, verify. */
  ghost predicate EdgesVerifiedUpTo(cfg: seq<BasicBlock>, k: nat, j: nat)
    requires k < |cfg| && j <= |cfg[k].successors|
  {
    (forall i, l :: 0 <= i < k && 0 <= l < |cfg[i].successors| ==> EdgeVerify(cfg[i].successors[l]))
    && forall l :: 0 <= l < j ==> EdgeVerify(cfg[k].successors[l])
  }

  /**
   * `Function::verify`: fake and invalid functions must have no blocks; otherwise
   * a non-empty CFG has exactly one block at the entry and only edges that
   * verify, and a prototype, if any, is a verifying function type.
   */
  method VerifyFunction(f: Function) returns (ok: bool)
    ensures ok <==> FunctionValid(f)
  {
    if f.kind == Fake || f.kind == InvalidFunction {
      return |f.cfg| == 0;
    }
    if |f.cfg| > 0 {
      var hasEntry := false;
      for k := 0 to |f.cfg|
        invariant hasEntry <==> StartingAt(f.cfg[..k], f.entry) == 1
        invariant StartingAt(f.cfg[..k], f.entry) <= 1
        invariant forall i, l :: 0 <= i < k && 0 <= l < |f.cfg[i].successors| ==> EdgeVerify(f.cfg[i].successors[l])
      {
        assert f.cfg[..k + 1][..k] == f.cfg[..k];
        var block := f.cfg[k];
        if block.start == f.entry {
          if hasEntry {
            StartingAtPrefix(f.cfg, k + 1, f.entry);
            return false;
          }
          hasEntry := true;
        }
        for j := 0 to |block.successors|
          invariant EdgesVerifiedUpTo(f.cfg, k, j)
        {
          if !EdgeVerify(block.successors[j]) {
            return false;
          }
        }
      }
      assert f.cfg[..|f.cfg|] == f.cfg;
      if !hasEntry {
        return false;
      }
    }
    ok := PrototypeOk(f.prototype);
  }

  /** Counting a prefix never gives more than counting the whole CFG. */
  lemma {:induction false} StartingAtPrefix(cfg: seq<BasicBlock>, k: nat, a: MetaAddress)
    requires k <= |cfg|
    ensures StartingAt(cfg[..k], a) <= StartingAt(cfg, a)
    decreases |cfg| - k
  {
    if k < |cfg| {
      StartingAtPrefix(cfg, k + 1, a);
      assert cfg[..k + 1][..k] == cfg[..k];
    } else {
      assert cfg[..k] == cfg;
    }
  }

  /** A dynamically linked function, keyed by its original name. */
  datatype DynamicFunction = DynamicFunction(originalName: string, customName: string, prototype: Prototype)

  /** `DynamicFunction::verify`: it has an original name and its prototype, if any, is a function type. */
  predicate DynamicFunctionVerify(d: DynamicFunction)
  {
    |d.originalName| > 0 && PrototypeOk(d.prototype)
  }

  /** A dynamic function without an original name never verifies, whatever its prototype. */
  lemma DynamicFunctionNeedsName(d: DynamicFunction)
    ensures |d.originalName| == 0 ==> !DynamicFunctionVerify(d)
    ensures DynamicFunctionVerify(d) ==> d.prototype.NoPrototype? || d.prototype.isFunctionType
  {
  }

  /** `prototypeOr`: the own prototype when present, otherwise the default, which must be present. */
  function PrototypeOr(p: Prototype, default: Prototype): (r: Prototype)
    requires p.NoPrototype? ==> default.SomePrototype?
    ensures r.SomePrototype?
    ensures r == p || (p.NoPrototype? && r == default)
  {
    if p.SomePrototype? then p else default
  }

  // ---------------------------------------------------------------------------
  // Names.

  /**
   * The naming rule shared by functions, dynamic functions and blocks: the
   * custom name when there is one, otherwise a reserved prefix followed by a
   * text that identifies the entity.
   */
  function NameOr(customName: string, prefix: string, text: string): (r: string)
    ensures |customName| > 0 ==> r == customName
    ensures |customName| == 0 ==> r == prefix + text && r[..|prefix|] == prefix
  {
    if |customName| > 0 then customName else prefix + text
  }

  /** `Function::name`: the custom name, or "function_" followed by the entry address text. */
  function FunctionName(f: Function, entryText: string): string
  {
    NameOr(f.customName, "function_", entryText)
  }

  /** `DynamicFunction::name`: the custom name, or "dynamic_function_" followed by the original name. */
  function DynamicFunctionName(d: DynamicFunction): string
  {
    NameOr(d.customName, "dynamic_function_", d.originalName)
  }

  /** `BasicBlock::name`: the custom name, or "bb_" followed by the start address text. */
  function BlockName(b: BasicBlock, startText: string): string
  {
    NameOr(b.customName, "bb_", startText)
  }

  /** Automatic names of functions, dynamic functions and blocks never coincide: their prefixes differ. */
  lemma AutomaticNamesDisjoint(f: Function, d: DynamicFunction, b: BasicBlock, t1: string, t2: string)
    requires |f.customName| == 0 && |d.customName| == 0 && |b.customName| == 0
    ensures FunctionName(f, t1) != DynamicFunctionName(d)
    ensures FunctionName(f, t1) != BlockName(b, t2)
    ensures DynamicFunctionName(d) != BlockName(b, t2)
  {
    assert FunctionName(f, t1)[0] == 'f';
    assert DynamicFunctionName(d)[0] == 'd';
    assert BlockName(b, t2)[0] == 'b';
  }

  /** No two positions hold the same non-empty name. */
  ghost predicate NonEmptyNamesDistinct(names: seq<string>)
  {
    forall i, j :: 0 <= i < j < |names| && |names[i]| > 0 ==> names[i] != names[j]
  }

  /**
   * The `CheckCustomName` calls of `Binary::verify` over the custom names in the
   * order they are visited: empty names are skipped, and a name already in
   * `Symbols` fails the check.
   */
  method CheckCustomNames(names: seq<string>) returns (ok: bool)
    ensures ok <==> NonEmptyNamesDistinct(names)
  {
    var symbols: set<string> := {};
    for k := 0 to |names|
      invariant forall x :: x in symbols <==> |x| > 0 && x in names[..k]
      invariant NonEmptyNamesDistinct(names[..k])
    {
      var name := names[k];
      assert names[..k + 1] == names[..k] + [name];
      if |name| > 0 {
        if name in symbols {
          var i :| 0 <= i < k && names[..k][i] == name;
          assert names[i] == names[k];
          return false;
        }
        symbols := symbols + {name};
      }
      forall i | 0 <= i < k && |names[i]| > 0
        ensures names[i] != name
      {
        assert names[i] in names[..k];
      }
    }
    assert names[..|names|] == names;
    return true;
  }

  /** A type of the model: its name, custom name, enum entries' custom names, and its own check. */
  datatype ModelType = ModelType(name: string, customName: string, enumEntries: seq<string>, verifies: bool)

  /** The enum entries' custom names of the types, type after type. */
  function EntryNames(types: seq<ModelType>): seq<string>
  {
    if |types| == 0 then [] else EntryNames(types[..|types| - 1]) + [types[|types| - 1].customName]
                                 + types[|types| - 1].enumEntries
  }

  /**
   * The custom names in the order `Binary::verify` checks them: functions,
   * dynamic functions, then each type followed by its enum entries.
   */
  function CustomNames(functions: seq<Function>, dynamics: seq<DynamicFunction>, types: seq<ModelType>): (r: seq<string>)
    ensures |r| >= |functions| + |dynamics| + |types|
    ensures forall i :: 0 <= i < |functions| ==> r[i] == functions[i].customName
    ensures forall i :: 0 <= i < |dynamics| ==> r[|functions| + i] == dynamics[i].customName
  {
    EntryCount(types);
    seq(|functions|, i requires 0 <= i < |functions| => functions[i].customName)
    + seq(|dynamics|, i requires 0 <= i < |dynamics| => dynamics[i].customName)
    + EntryNames(types)
  }

  lemma {:induction false} EntryCount(types: seq<ModelType>)
    ensures |EntryNames(types)| >= |types|
  {
    if |types| > 0 {
      EntryCount(types[..|types| - 1]);
    }
  }

  /** Two functions with the same non-empty custom name make the name check fail. */
  lemma DuplicateFunctionNameFails(functions: seq<Function>, dynamics: seq<DynamicFunction>,
                                   types: seq<ModelType>, i: nat, j: nat)
    requires i < j < |functions|
    requires |functions[i].customName| > 0 && functions[i].customName == functions[j].customName
    ensures !NonEmptyNamesDistinct(CustomNames(functions, dynamics, types))
  {
    var names := CustomNames(functions, dynamics, types);
    assert names[i] == names[j];
  }

  /** `verifyTypes`: every type verifies and no two types share a name. */
  ghost predicate TypesVerify(types: seq<ModelType>)
  {
    (forall i :: 0 <= i < |types| ==> types[i].verifies)
    && forall i, j :: 0 <= i < j < |types| ==> types[i].name != types[j].name
  }

  /** `verifyTypes`: the loop over the types with the set of names seen so far. */
  method VerifyTypes(types: seq<ModelType>) returns (ok: bool)
    ensures ok <==> TypesVerify(types)
  {
    var names: set<string> := {};
    for k := 0 to |types|
      invariant forall i :: 0 <= i < k ==> types[i].verifies
      invariant forall i, j :: 0 <= i < j < k ==> types[i].name != types[j].name
      invariant forall x :: x in names <==> exists i :: 0 <= i < k && types[i].name == x
    {
      if !types[k].verifies {
        return false;
      }
      var name := types[k].name;
      if name in names {
        var i :| 0 <= i < k && types[i].name == name;
        return false;
      }
      names := names + {name};
    }
    return true;
  }

  // ---------------------------------------------------------------------------
  // Segments, sections and relocations.

  datatype RelocationType =
    | InvalidRelocation
    | WriteAbsoluteAddress32
    | WriteAbsoluteAddress64
    | AddAbsoluteAddress32
    | AddAbsoluteAddress64

  /** The number of bytes a relocation of each type patches. */
  function RelocationSize(t: RelocationType): nat
  {
    match t
    case InvalidRelocation => 0
    case WriteAbsoluteAddress32 => 4
    case AddAbsoluteAddress32 => 4
    case WriteAbsoluteAddress64 => 8
    case AddAbsoluteAddress64 => 8
  }

  datatype Relocation = Relocation(address: MetaAddress, kind: RelocationType)

  function RelocationEnd(r: Relocation): MetaAddress
  {
    Plus(r.address, RelocationSize(r.kind))
  }

  datatype Section = Section(startAddress: MetaAddress, size: uint64, containsCode: bool)

  function SectionEnd(s: Section): MetaAddress
  {
    Plus(s.startAddress, s.size)
  }

  /** `Section::verify`: the end address does not overflow. */
  predicate SectionVerify(s: Section)
  {
    SectionEnd(s).IsValid()
  }

  datatype Segment = Segment(startAddress: MetaAddress, virtualSize: uint64, startOffset: uint64,
                             fileSize: uint64, isExecutable: bool,
                             sections: seq<Section>, relocations: seq<Relocation>)

  /** `Segment::contains`: the address lies in [StartAddress, StartAddress + VirtualSize). */
  predicate SegmentContains(s: Segment, a: MetaAddress)
  {
    a.IsValid() && s.startAddress.IsValid()
    && s.startAddress.value <= a.value < s.startAddress.value + s.virtualSize
  }

  /** The section checks of `Segment::verify`. */
  predicate SectionInside(s: Segment, sec: Section)
  {
    SectionVerify(sec)
    && SegmentContains(s, sec.startAddress)
    && (s.virtualSize > 0 ==> SegmentContains(s, Plus(SectionEnd(sec), -1)))
    && (sec.containsCode ==> s.isExecutable)
  }

  /** The relocation checks of `Segment::verify`, as written. */
  predicate RelocationInside(s: Segment, r: Relocation)
  {
    r.kind != InvalidRelocation
    && SegmentContains(s, r.address) && SegmentContains(s, RelocationEnd(r))
  }

  /** `Segment::verify`. */
  predicate SegmentVerify(s: Segment)
  {
    s.fileSize <= s.virtualSize
    && s.startOffset + s.fileSize < TWO_TO_THE_64
    && Plus(s.startAddress, s.virtualSize).IsValid()
    && (forall i :: 0 <= i < |s.sections| ==> SectionInside(s, s.sections[i]))
    && (forall i :: 0 <= i < |s.relocations| ==> RelocationInside(s, s.relocations[i]))
  }

  /**
   * As written, a relocation is accepted only if the address one past its last
   * byte is still inside the segment: a relocation that ends exactly at the end
   * of the segment is rejected, although all of its bytes are inside.
   */
  lemma RelocationAtSegmentEndRejected()
    ensures var seg := Segment(Address(0x1000), 0x1000, 0, 0, false, [],
                               [Relocation(Address(0x1FFC), WriteAbsoluteAddress32)]);
            !SegmentVerify(seg) && SegmentVerifyIntended(seg)
  {
    var seg := Segment(Address(0x1000), 0x1000, 0, 0, false, [],
                       [Relocation(Address(0x1FFC), WriteAbsoluteAddress32)]);
    assert !RelocationInside(seg, seg.relocations[0]);
  }

  /** The relocation check measured like the section check: its last byte must be inside. */
  predicate RelocationInsideIntended(s: Segment, r: Relocation)
  {
    r.kind != InvalidRelocation
    && SegmentContains(s, r.address) && SegmentContains(s, Plus(RelocationEnd(r), -1))
  }

  /** `Segment::verify` with the relocation bound corrected. */
  predicate SegmentVerifyIntended(s: Segment)
  {
    s.fileSize <= s.virtualSize
    && s.startOffset + s.fileSize < TWO_TO_THE_64
    && Plus(s.startAddress, s.virtualSize).IsValid()
    && (forall i :: 0 <= i < |s.sections| ==> SectionInside(s, s.sections[i]))
    && (forall i :: 0 <= i < |s.relocations| ==> RelocationInsideIntended(s, s.relocations[i]))
  }

  /** With the correction, a valid relocation is accepted iff every byte it patches lies in the segment. */
  lemma RelocationInsideIntendedIff(s: Segment, r: Relocation)
    requires r.kind != InvalidRelocation && r.address.IsValid() && s.startAddress.IsValid()
    requires r.address.value + RelocationSize(r.kind) < TWO_TO_THE_64
    ensures RelocationInsideIntended(s, r)
            <==> s.startAddress.value <= r.address.value
                 && r.address.value + RelocationSize(r.kind) <= s.startAddress.value + s.virtualSize
  {
  }

  /** As written, the accepted relocations are exactly those that end strictly before the segment does. */
  lemma RelocationInsideAsWritten(s: Segment, r: Relocation)
    requires r.kind != InvalidRelocation && r.address.IsValid() && s.startAddress.IsValid()
    requires r.address.value + RelocationSize(r.kind) < TWO_TO_THE_64
    ensures RelocationInside(s, r)
            <==> s.startAddress.value <= r.address.value
                 && r.address.value + RelocationSize(r.kind) < s.startAddress.value + s.virtualSize
  {
  }

  /** A segment holding a code section verifies only if it is executable; file data never exceeds memory size. */
  lemma SegmentVerifyConsequences(s: Segment, i: nat)
    requires SegmentVerify(s)
    requires i < |s.sections|
    ensures s.sections[i].containsCode ==> s.isExecutable
    ensures s.fileSize <= s.virtualSize
    ensures SegmentContains(s, s.sections[i].startAddress)
  {
    assert SectionInside(s, s.sections[i]);
  }

  // ---------------------------------------------------------------------------
  // ELF relocations.

  datatype Architecture = X86 | X86_64 | Arm | AArch64 | Mips | Mipsel | SystemZ

  type uint8 = x: int | 0 <= x < 256

  // Relocation codes of the System V ABI processor supplements.
  const R_386_32: uint8 := 1
  const R_386_COPY: uint8 := 5
  const R_386_GLOB_DAT: uint8 := 6
  const R_386_JUMP_SLOT: uint8 := 7
  const R_386_RELATIVE: uint8 := 8
  const R_X86_64_64: uint8 := 1
  const R_X86_64_COPY: uint8 := 5
  const R_X86_64_GLOB_DAT: uint8 := 6
  const R_X86_64_JUMP_SLOT: uint8 := 7
  const R_X86_64_RELATIVE: uint8 := 8
  const R_X86_64_32: uint8 := 10
  const R_ARM_COPY: uint8 := 20
  const R_ARM_GLOB_DAT: uint8 := 21
  const R_ARM_JUMP_SLOT: uint8 := 22
  const R_ARM_RELATIVE: uint8 := 23
  const R_MIPS_GLOB_DAT: uint8 := 51
  const R_MIPS_COPY: uint8 := 126
  const R_MIPS_JUMP_SLOT: uint8 := 127
  /** Defined outside the modelled files; its value is left open. */
  const R_MIPS_IMPLICIT_RELATIVE: uint8
  const R_390_COPY: uint8 := 9
  const R_390_GLOB_DAT: uint8 := 10

  /** `fromELFRelocation`: the relocation type of an ELF relocation code on each architecture. */
  function FromELFRelocation(arch: Architecture, code: uint8): RelocationType
  {
    match arch
    case X86 =>
      if code == R_386_RELATIVE || code == R_386_32 then AddAbsoluteAddress32
      else if code == R_386_JUMP_SLOT || code == R_386_GLOB_DAT then WriteAbsoluteAddress32
      else InvalidRelocation
    case X86_64 =>
      if code == R_X86_64_RELATIVE then AddAbsoluteAddress64
      else if code == R_X86_64_JUMP_SLOT || code == R_X86_64_GLOB_DAT || code == R_X86_64_64 then WriteAbsoluteAddress64
      else if code == R_X86_64_32 then WriteAbsoluteAddress32
      else InvalidRelocation
    case Arm =>
      if code == R_ARM_RELATIVE then AddAbsoluteAddress32
      else if code == R_ARM_JUMP_SLOT || code == R_ARM_GLOB_DAT then WriteAbsoluteAddress32
      else InvalidRelocation
    case AArch64 => InvalidRelocation
    case Mips =>
      MipsRelocation(code)
    case Mipsel =>
      MipsRelocation(code)
    case SystemZ =>
      if code == R_390_GLOB_DAT then WriteAbsoluteAddress64 else InvalidRelocation
  }

  function MipsRelocation(code: uint8): RelocationType
  {
    if code == R_MIPS_IMPLICIT_RELATIVE then AddAbsoluteAddress32
    else if code == R_MIPS_JUMP_SLOT || code == R_MIPS_GLOB_DAT then WriteAbsoluteAddress32
    else InvalidRelocation
  }

  /**
   * `isELFRelocationBaseRelative`, for the codes it lists; for any other code it
   * converts an enumerator to `bool`, whose value is not part of this model (None).
   */
  function IsELFRelocationBaseRelative(arch: Architecture, code: uint8): Option<bool>
  {
    match arch
    case X86 =>
      if code == R_386_RELATIVE then Some(true)
      else if code == R_386_32 || code == R_386_JUMP_SLOT || code == R_386_GLOB_DAT then Some(false)
      else None
    case X86_64 =>
      if code == R_X86_64_RELATIVE then Some(true)
      else if code == R_X86_64_JUMP_SLOT || code == R_X86_64_GLOB_DAT || code == R_X86_64_64
              || code == R_X86_64_32 then Some(false)
      else None
    case Arm =>
      if code == R_ARM_RELATIVE then Some(true)
      else if code == R_ARM_JUMP_SLOT || code == R_ARM_GLOB_DAT then Some(false)
      else None
    case AArch64 => None
    case Mips => MipsBaseRelative(code)
    case Mipsel => MipsBaseRelative(code)
    case SystemZ =>
      if code == R_390_GLOB_DAT then Some(false) else None
  }

  function MipsBaseRelative(code: uint8): Option<bool>
  {
    if code == R_MIPS_IMPLICIT_RELATIVE then Some(true)
    else if code == R_MIPS_JUMP_SLOT || code == R_MIPS_GLOB_DAT then Some(false)
    else None
  }

  /** The listed mappings: the x86 relative and 32-bit codes add a 32-bit address, the x86-64 relative code a 64-bit one. */
  lemma ELFRelocationTable(code: uint8)
    ensures FromELFRelocation(X86, R_386_RELATIVE) == AddAbsoluteAddress32
    ensures FromELFRelocation(X86, R_386_32) == AddAbsoluteAddress32
    ensures FromELFRelocation(X86_64, R_X86_64_RELATIVE) == AddAbsoluteAddress64
    ensures FromELFRelocation(AArch64, code) == InvalidRelocation
    ensures FromELFRelocation(X86, R_386_COPY) == InvalidRelocation
  {
  }

  /**
   * The two tables agree: a base-relative code always becomes an "add" relocation,
   * a "write" relocation is never base-relative, and a code with no relocation
   * type is never reported as base-relative.
   */
  lemma BaseRelativeAgreesWithType(arch: Architecture, code: uint8)
    ensures IsELFRelocationBaseRelative(arch, code) == Some(true) ==>
              FromELFRelocation(arch, code) in {AddAbsoluteAddress32, AddAbsoluteAddress64}
    ensures FromELFRelocation(arch, code) in {WriteAbsoluteAddress32, WriteAbsoluteAddress64} ==>
              IsELFRelocationBaseRelative(arch, code).Some?
    ensures FromELFRelocation(arch, code) == InvalidRelocation ==>
              IsELFRelocationBaseRelative(arch, code) != Some(true)
  {
  }
}
