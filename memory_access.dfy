/**
 * Accesses to the CPU state or to memory and when two of them may alias
 * (memoryaccess.h). An access is invalid (nothing is known), a whole CPU
 * state variable, or a byte range at an offset from the address held in a
 * CPU state variable. Values of the IR are numbers; `None` is the null base.
 * Offsets and sizes are `uint64_t`.
 */
module MemoryAccesses {
  import opened Wrappers
  import opened MachineInts

  datatype AccessType = Invalid | CPUState | RegisterAndOffset

  datatype MemoryAccess = MemoryAccess(kind: AccessType, base: Option<nat>, offset: uint64, size: uint64)

  /** The access the default constructor builds. */
  function DefaultAccess(): (r: MemoryAccess)
    ensures !IsValid(r) && r.base.None? && r.offset == 0 && r.size == 0
  {
    MemoryAccess(Invalid, None, 0, 0)
  }

  /** `isValid`. */
  predicate IsValid(a: MemoryAccess)
  {
    a.kind != Invalid
  }

  /**
   * `operator==`: the same type and size and, beyond that, only what the type
   * makes meaningful: the base of a CPU state access, base and offset of a
   * register-relative one.
   */
  predicate Equal(a: MemoryAccess, b: MemoryAccess)
  {
    a.kind == b.kind && a.size == b.size &&
    match a.kind
    case Invalid => true
    case CPUState => a.base == b.base
    case RegisterAndOffset => a.base == b.base && a.offset == b.offset
  }

  /** `operator!=`. */
  predicate NotEqual(a: MemoryAccess, b: MemoryAccess)
  {
    !Equal(a, b)
  }

  /** `operator==` is an equivalence. */
  lemma EqualIsEquivalence(a: MemoryAccess, b: MemoryAccess, c: MemoryAccess)
    ensures Equal(a, a)
    ensures Equal(a, b) ==> Equal(b, a)
    ensures Equal(a, b) && Equal(b, c) ==> Equal(a, c)
    ensures NotEqual(a, b) <==> !Equal(b, a)
  {
  }

  /** `intersect`, as written: the ends are computed in 64-bit unsigned arithmetic. */
  predicate Intersect(aOffset: uint64, aSize: uint64, bOffset: uint64, bSize: uint64)
  {
    aOffset < Wrap64(bOffset + bSize) && bOffset < Wrap64(aOffset + aSize)
  }

  /**
   * `mayAlias`, as written: an invalid access may alias anything; a CPU state
   * access aliases only an access with the same base; two register-relative
   * accesses may alias when their bases differ or their ranges intersect.
   */
  predicate MayAlias(a: MemoryAccess, b: MemoryAccess)
  {
    if a.kind == Invalid || b.kind == Invalid then true
    else if a.kind == CPUState || b.kind == CPUState then a.base == b.base
    else if a.base != b.base then true
    else Intersect(a.offset, a.size, b.offset, b.size)
  }

  /** `mayAlias` does not depend on the order of its operands. */
  lemma MayAliasSymmetric(a: MemoryAccess, b: MemoryAccess)
    ensures MayAlias(a, b) <==> MayAlias(b, a)
  {
  }

  /** Equal accesses alias the same accesses. */
  lemma EqualAccessesAliasAlike(a: MemoryAccess, b: MemoryAccess, c: MemoryAccess)
    requires Equal(a, b)
    ensures MayAlias(a, c) <==> MayAlias(b, c)
  {
  }

  /**
   * A register-relative access whose range ends at 2^64 (an offset of -8, as
   * an addition of a negative constant gives it, and a size of 8) does not
   * alias itself: the end wraps around to 0.
   */
  lemma SelfAliasLostAtTop()
    ensures var a := MemoryAccess(RegisterAndOffset, Some(1), TWO_TO_THE_64 - 8, 8);
            !MayAlias(a, a)
  {
    var a := MemoryAccess(RegisterAndOffset, Some(1), TWO_TO_THE_64 - 8, 8);
    assert Wrap64(a.offset + a.size) == 0;
  }

  /** `intersect` on the mathematical ends of the two ranges. */
  predicate IntersectIntended(aOffset: nat, aSize: nat, bOffset: nat, bSize: nat)
  {
    aOffset < bOffset + bSize && bOffset < aOffset + aSize
  }

  /** Byte `x` is in the range of `size` bytes at `offset`. */
  predicate InRange(x: int, offset: nat, size: nat)
  {
    offset <= x < offset + size
  }

  /** Two non-empty ranges intersect exactly when some byte is in both. */
  lemma IntersectIntendedIsOverlap(aOffset: nat, aSize: nat, bOffset: nat, bSize: nat)
    requires aSize > 0 && bSize > 0
    ensures IntersectIntended(aOffset, aSize, bOffset, bSize) <==>
            exists x :: InRange(x, aOffset, aSize) && InRange(x, bOffset, bSize)
  {
    if IntersectIntended(aOffset, aSize, bOffset, bSize) {
      var x := if aOffset < bOffset then bOffset else aOffset;
      assert InRange(x, aOffset, aSize) && InRange(x, bOffset, bSize);
    }
  }

  /** `mayAlias` with the ranges compared without wrap-around. */
  predicate MayAliasIntended(a: MemoryAccess, b: MemoryAccess)
  {
    if a.kind == Invalid || b.kind == Invalid then true
    else if a.kind == CPUState || b.kind == CPUState then a.base == b.base
    else if a.base != b.base then true
    else IntersectIntended(a.offset, a.size, b.offset, b.size)
  }

  /** Every access that covers at least one byte may alias itself. */
  lemma MayAliasIntendedReflexive(a: MemoryAccess)
    requires a.kind != RegisterAndOffset || a.size > 0
    ensures MayAliasIntended(a, a)
  {
  }

  /** The corrected check does not depend on the order of its operands either. */
  lemma MayAliasIntendedSymmetric(a: MemoryAccess, b: MemoryAccess)
    ensures MayAliasIntended(a, b) <==> MayAliasIntended(b, a)
  {
  }

  /** Where no range reaches 2^64 the check as written and the corrected one agree. */
  lemma MayAliasAgreesBelowTop(a: MemoryAccess, b: MemoryAccess)
    requires a.offset + a.size < TWO_TO_THE_64 && b.offset + b.size < TWO_TO_THE_64
    ensures MayAlias(a, b) <==> MayAliasIntended(a, b)
  {
    assert Wrap64(a.offset + a.size) == a.offset + a.size;
    assert Wrap64(b.offset + b.size) == b.offset + b.size;
  }

  /** The size `initialize` records for a value of `bits` bits, as written: the bit size times 8. */
  function AccessSize(bits: nat): (r: uint64)
    ensures bits * 8 < TWO_TO_THE_64 ==> r == bits * 8
  {
    Wrap64(bits * 8)
  }

  /** Two 32-bit words side by side at offsets 0 and 4 of the same base alias, as written. */
  lemma AdjacentWordsAliasAsWritten()
    ensures MayAlias(MemoryAccess(RegisterAndOffset, Some(1), 0, AccessSize(32)),
                     MemoryAccess(RegisterAndOffset, Some(1), 4, AccessSize(32)))
  {
  }

  /** The size in bytes of a value of `bits` bits: the bytes its bits occupy. */
  function StoreSize(bits: nat): (r: nat)
    ensures bits <= r * 8 < bits + 8
  {
    (bits + 7) / 8
  }

  /** With sizes in bytes, two accesses side by side never alias. */
  lemma AdjacentAccessesDisjoint(base: nat, offset: nat, bits: nat)
    requires offset + 2 * StoreSize(bits) < TWO_TO_THE_64
    ensures !MayAliasIntended(MemoryAccess(RegisterAndOffset, Some(base), offset, StoreSize(bits)),
                              MemoryAccess(RegisterAndOffset, Some(base), offset + StoreSize(bits), StoreSize(bits)))
  {
  }

  /**
   * The static `mayAlias(BB, Other, DL)`: some store of the block may alias
   * `other`. `stores` are the accesses of the block's stores, in order.
   */
  method MayAliasInBlock(stores: seq<MemoryAccess>, other: MemoryAccess) returns (r: bool)
    ensures r <==> exists i :: 0 <= i < |stores| && MayAlias(stores[i], other)
  {
    for i := 0 to |stores|
      invariant forall j :: 0 <= j < i ==> !MayAlias(stores[j], other)
    {
      if MayAlias(stores[i], other) {
        return true;
      }
    }
    return false;
  }

  /**
   * `TypeSizeProvider`: the size of a type, computed once from the data
   * layout (`sizeInBits`) and then served from a cache. As written, the
   * computed size is the size in bits times 8, kept in an `unsigned`.
   */
  class TypeSizeProvider {
    const sizeInBits: nat -> nat
    var cache: map<nat, uint32>

    /** Every cached size is the one computed from the data layout. */
    ghost predicate Valid()
      reads this
    {
      forall t :: t in cache ==> cache[t] == Wrap32(sizeInBits(t) * 8)
    }

    constructor(sizeInBits: nat -> nat)
      ensures this.sizeInBits == sizeInBits && cache == map[] && Valid()
    {
      this.sizeInBits := sizeInBits;
      cache := map[];
    }

    /** `getSize`: the cached size, or the computed one, which is then cached. */
    method GetSize(t: nat) returns (size: uint32)
      requires Valid()
      modifies this
      ensures Valid()
      ensures size == Wrap32(sizeInBits(t) * 8)
      ensures t in old(cache) ==> size == old(cache)[t] && cache == old(cache)
      ensures t !in old(cache) ==> cache == old(cache)[t := size]
    {
      if t in cache {
        return cache[t];
      }
      size := Wrap32(sizeInBits(t) * 8);
      cache := cache[t := size];
    }
  }
}
