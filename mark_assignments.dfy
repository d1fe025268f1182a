/**
 * The reasons why an instruction needs an assignment in the decompiled C
 * (lib/IRCanonicalization/MarkAssignments/MarkAssignments.h): a bit mask of
 * reasons and the `Flags` wrapper around it. The enumeration's underlying
 * integer is modelled as 32 bits.
 */
module MarkAssignments {

  type Values = bv32

  const None: Values := 0
  /** Semantic reasons: the instruction has side effects, or sees those of others. */
  const HasSideEffects: Values := 1
  const HasInterferingSideEffects: Values := 2
  /** Cosmetic reasons. */
  const AlwaysAssign: Values := 4
  const HasManyUses: Values := 8
  const HasUsesOutsideBB: Values := 16

  /** Every reason, in the order of their bits. */
  const AllReasons: seq<Values> := [HasSideEffects, HasInterferingSideEffects, AlwaysAssign, HasManyUses, HasUsesOutsideBB]

  /** Bit `k` of `x` is set. */
  predicate Bit(x: Values, k: bv5)
  {
    (x >> k) & 1 == 1
  }

  /** `x` has exactly one bit set. */
  predicate SingleBit(x: Values)
  {
    x != 0 && x & (x - 1) == 0
  }

  /** Each reason is a single bit of its own, and `None` has no bit. */
  lemma ReasonsAreDistinctBits()
    ensures forall i :: 0 <= i < |AllReasons| ==> SingleBit(AllReasons[i])
    ensures forall i, j :: 0 <= i < j < |AllReasons| ==> AllReasons[i] & AllReasons[j] == 0
    ensures forall k: bv5 :: !Bit(None, k)
  {
  }

  /** `operator|`: holds the bits of both operands (and, by `OrIsBitwise`, no other). */
  function Or(a: Values, b: Values): (r: Values)
    ensures r & a == a && r & b == b
  {
    a | b
  }

  /** `operator&`: holds only bits of both operands, and every bit they share. */
  function And(a: Values, b: Values): (r: Values)
    ensures r & !a == 0 && r & !b == 0
    ensures a & b & !r == 0
  {
    a & b
  }

  /** `operator~`: holds exactly the bits the operand does not. */
  function Not(a: Values): (r: Values)
    ensures r & a == 0
    ensures r | a == 0xFFFF_FFFF
  {
    !a
  }

  /** `operator|` acts bit by bit. */
  lemma OrIsBitwise(a: Values, b: Values, k: bv5)
    ensures Bit(Or(a, b), k) <==> Bit(a, k) || Bit(b, k)
  {
  }

  /** `operator&` acts bit by bit. */
  lemma AndIsBitwise(a: Values, b: Values, k: bv5)
    ensures Bit(And(a, b), k) <==> Bit(a, k) && Bit(b, k)
  {
  }

  /** `operator~` acts bit by bit. */
  lemma NotIsBitwise(a: Values, k: bv5)
    ensures Bit(Not(a), k) <==> !Bit(a, k)
  {
  }

  /** `isSet` on a mask: some bit of `flag` is set in `flags`. */
  predicate IsSetIn(flags: Values, flag: Values)
  {
    And(flags, flag) != None
  }

  /** `hasMarkedSideEffects` on a mask. */
  predicate HasMarkedSideEffectsIn(flags: Values)
  {
    IsSetIn(flags, HasSideEffects) || IsSetIn(flags, HasInterferingSideEffects)
  }

  /** Setting a flag sets it and keeps every flag that was set. */
  lemma SetKeepsFlags(flags: Values, flag: Values, other: Values)
    ensures flag != None ==> IsSetIn(Or(flags, flag), flag)
    ensures IsSetIn(flags, other) ==> IsSetIn(Or(flags, flag), other)
    ensures Or(Or(flags, flag), flag) == Or(flags, flag)
  {
  }

  /** A mask marks side effects exactly when one of the two semantic bits is set. */
  lemma SideEffectsAreTheLowBits(flags: Values)
    ensures HasMarkedSideEffectsIn(flags) <==> Bit(flags, 0) || Bit(flags, 1)
  {
  }

  /** Cosmetic reasons never add side effects. */
  lemma CosmeticReasonsKeepSideEffects(flags: Values, flag: Values)
    requires flag in [AlwaysAssign, HasManyUses, HasUsesOutsideBB]
    ensures HasMarkedSideEffectsIn(Or(flags, flag)) <==> HasMarkedSideEffectsIn(flags)
  {
  }

  /** `Flags`: the reasons of one instruction. */
  class Flags {
    var theFlags: Values

    /** `Flags()`: no reason. */
    constructor Empty()
      ensures theFlags == None
    {
      theFlags := None;
    }

    /** `Flags(X)`. */
    constructor(x: Values)
      ensures theFlags == x
    {
      theFlags := x;
    }

    /** `set`: the flag is added to the reasons. */
    method Set(flag: Values)
      modifies this
      ensures theFlags == Or(old(theFlags), flag)
    {
      theFlags := Or(theFlags, flag);
    }

    /** `isSet`. */
    method IsSet(flag: Values) returns (r: bool)
      ensures r <==> IsSetIn(theFlags, flag)
    {
      r := And(theFlags, flag) != None;
    }

    /** `hasMarkedSideEffects`. */
    method HasMarkedSideEffects() returns (r: bool)
      ensures r <==> Bit(theFlags, 0) || Bit(theFlags, 1)
    {
      SideEffectsAreTheLowBits(theFlags);
      var direct := IsSet(HasSideEffects);
      var interfering := IsSet(HasInterferingSideEffects);
      r := direct || interfering;
    }

    /** `value`. */
    function Value(): Values
      reads this
    {
      theFlags
    }

    /** `operator bool`: some reason is set. */
    method AsBool() returns (r: bool)
      ensures r <==> exists k: bv5 :: Bit(theFlags, k)
    {
      r := theFlags != None;
      if r {
        AnyBitSet(theFlags);
      }
    }
  }

  /** A mask other than `None` has some bit set. */
  lemma AnyBitSet(x: Values)
    requires x != None
    ensures exists k: bv5 :: Bit(x, k)
  {
    if forall k: bv5 :: !Bit(x, k) {
      NoBitsIsNone(x);
      assert false;
    }
  }

  /** A mask with no bit set is `None`. */
  lemma NoBitsIsNone(x: Values)
    requires forall k: bv5 :: !Bit(x, k)
    ensures x == None
  {
    assert !Bit(x, 0) && !Bit(x, 1) && !Bit(x, 2) && !Bit(x, 3) && !Bit(x, 4) && !Bit(x, 5) && !Bit(x, 6) && !Bit(x, 7);
    assert !Bit(x, 8) && !Bit(x, 9) && !Bit(x, 10) && !Bit(x, 11) && !Bit(x, 12) && !Bit(x, 13) && !Bit(x, 14) && !Bit(x, 15);
    assert !Bit(x, 16) && !Bit(x, 17) && !Bit(x, 18) && !Bit(x, 19) && !Bit(x, 20) && !Bit(x, 21) && !Bit(x, 22) && !Bit(x, 23);
    assert !Bit(x, 24) && !Bit(x, 25) && !Bit(x, 26) && !Bit(x, 27) && !Bit(x, 28) && !Bit(x, 29) && !Bit(x, 30) && !Bit(x, 31);
  }
}
