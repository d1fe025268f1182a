/**
 * How an integer literal operand is to be printed in the decompiled C
 * (`getIntFormat`, lib/IRCanonicalization/PrettyIntFormattingPass.cpp), over
 * a description of the instruction and of the operand.
 */
module PrettyIntFormatting {
  import opened Wrappers

  datatype IntFormatting = NONE | HEX | CHAR | BOOL

  datatype Opcode = Switch | Shl | AShr | LShr | And | Or | Xor | OtherOpcode

  /** What `getIntFormat` looks at in the instruction. */
  datatype Instruction = Instruction(opcode: Opcode, isAssignmentMarker: bool, isAbsIntrinsic: bool)

  /** What it looks at in the operand: whether it is a constant integer, its bit width, its position. */
  datatype Operand = Operand(isConstantInt: bool, bitWidth: nat, operandNo: nat)

  /** Instructions whose operands must stay plain constants. */
  predicate Excluded(i: Instruction)
  {
    i.opcode == Switch || i.isAssignmentMarker || i.isAbsIntrinsic
  }

  predicate IsShift(op: Opcode)
  {
    op == Shl || op == AShr || op == LShr
  }

  predicate IsBitwise(op: Opcode)
  {
    op == And || op == Or || op == Xor
  }

  /** Where a constant is printed in hexadecimal: shifted values, and operands of bitwise operations. */
  predicate HexPosition(i: Instruction, u: Operand)
  {
    (IsShift(i.opcode) && u.operandNo == 0) || IsBitwise(i.opcode)
  }

  /**
   * `getIntFormat`: no format for excluded instructions or for operands that
   * are not constant; hexadecimal for the positions above; then character for
   * 8-bit constants and boolean for 1-bit constants.
   */
  function GetIntFormat(i: Instruction, u: Operand): (r: Option<IntFormatting>)
    ensures r.Some? ==> u.isConstantInt && !Excluded(i) && r.value != NONE
    ensures r == Some(HEX) <==> u.isConstantInt && !Excluded(i) && HexPosition(i, u)
    ensures r == Some(CHAR) <==> u.isConstantInt && !Excluded(i) && !HexPosition(i, u) && u.bitWidth == 8
    ensures r == Some(BOOL) <==> u.isConstantInt && !Excluded(i) && !HexPosition(i, u) && u.bitWidth == 1
  {
    if i.opcode == Switch then None
    else if i.isAssignmentMarker then None
    else if i.isAbsIntrinsic then None
    else if u.isConstantInt then
      if IsShift(i.opcode) && u.operandNo == 0 then Some(HEX)
      else if !IsShift(i.opcode) && IsBitwise(i.opcode) then Some(HEX)
      else if u.bitWidth == 8 then Some(CHAR)
      else if u.bitWidth == 1 then Some(BOOL)
      else None
    else None
  }

  /** The shift amount of a shift is never printed in hexadecimal; a byte-wide one is a character. */
  lemma ShiftAmountIsNotHex(op: Opcode, u: Operand)
    requires IsShift(op) && u.isConstantInt && u.operandNo == 1
    ensures GetIntFormat(Instruction(op, false, false), u) != Some(HEX)
    ensures u.bitWidth == 8 ==> GetIntFormat(Instruction(op, false, false), u) == Some(CHAR)
  {
  }

  /** Every constant operand of a bitwise operation is printed in hexadecimal, whatever its width. */
  lemma BitwiseConstantsAreHex(op: Opcode, u: Operand)
    requires IsBitwise(op) && u.isConstantInt
    ensures GetIntFormat(Instruction(op, false, false), u) == Some(HEX)
  {
  }
}
