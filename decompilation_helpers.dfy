/**
 * Two rules the C back-end relies on (include/revng-c/Support/DecompilationHelpers.h):
 * which instructions count as having side effects, and which model types a
 * load or store of an LLVM type may use. `getPointerSize` of the model's
 * architecture is not part of this model: it is the parameter `pointerSize`.
 */
module DecompilationHelpers {
  import opened Wrappers

  /** What `hasSideEffects` looks at: the kind of instruction and, for a call, its callee. */
  datatype Callee = Callee(isIntrinsic: bool, isolated: bool, writesMemory: bool, qemu: bool)

  datatype InstructionKind =
    | Store
    | Call(callee: Option<Callee>)   // `None`: an indirect call
    | OtherInstruction

  /** `hasSideEffects`. */
  predicate HasSideEffects(i: InstructionKind)
  {
    match i
    case Store => true
    case Call(callee) =>
      callee.None? || callee.value.isIntrinsic || callee.value.isolated
      || callee.value.writesMemory || callee.value.qemu
    case OtherInstruction => false
  }

  /** Only stores and calls can have side effects; a call to a plain, untagged function has none. */
  lemma SideEffectsComeFromStoresAndCalls(i: InstructionKind)
    ensures HasSideEffects(i) ==> i.Store? || i.Call?
    ensures i == Call(Some(Callee(false, false, false, false))) ==> !HasSideEffects(i)
    ensures i.Call? && i.callee.Some? && i.callee.value.writesMemory ==> HasSideEffects(i)
  {
  }

  /** What `areMemOpCompatible` looks at in the model type: its shape and its size, when it has one. */
  datatype ModelType = ModelType(isPointer: bool, isScalar: bool, size: Option<nat>)

  /** What it looks at in the LLVM type: whether it is a pointer, and its scalar bit width. */
  datatype LLVMType = LLVMType(isPointerTy: bool, scalarSizeInBits: nat)

  /**
   * `areMemOpCompatible`: only pointers and scalars qualify; an LLVM pointer
   * needs a model type of the architecture's pointer size; an LLVM value
   * narrower than a byte needs one byte; any other needs exactly its bytes.
   */
  function AreMemOpCompatible(m: ModelType, t: LLVMType, pointerSize: nat): (r: bool)
    requires m.isPointer || m.isScalar ==> m.size.Some?
    ensures r ==> (m.isPointer || m.isScalar)
    ensures r && t.isPointerTy ==> m.size == Some(pointerSize)
    ensures r && !t.isPointerTy ==> m.size.value * 8 >= t.scalarSizeInBits && m.size.value >= 1
    ensures (m.isPointer || m.isScalar) && !t.isPointerTy && t.scalarSizeInBits >= 8 ==>
              (r <==> m.size.value * 8 == t.scalarSizeInBits)
  {
    if !m.isPointer && !m.isScalar then false
    else
      var modelSize := m.size.value;
      if t.isPointerTy then pointerSize == modelSize
      else if t.scalarSizeInBits < 8 then modelSize == 1
      else modelSize * 8 == t.scalarSizeInBits
  }

  /**
   * For a value that is not a pointer, compatibility is the rule "the model
   * type occupies exactly the bytes the value needs": `i1` needs one byte.
   */
  lemma MemOpCompatibleIsByteSize(m: ModelType, t: LLVMType, pointerSize: nat)
    requires (m.isPointer || m.isScalar) && m.size.Some? && !t.isPointerTy
    requires t.scalarSizeInBits < 8 || t.scalarSizeInBits % 8 == 0
    requires t.scalarSizeInBits > 0
    ensures AreMemOpCompatible(m, t, pointerSize) <==> m.size.value == (t.scalarSizeInBits + 7) / 8
  {
  }
}
