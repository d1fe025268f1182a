/**
 * The tables and the bit-level arithmetic with which the libtcg translator
 * (lib/Lift/InstructionTranslator.cpp) turns libtcg instructions into LLVM
 * IR. Only what the emitted instructions compute is modelled, not how they
 * are built. A libtcg register value is a `bv64`; in a 32-bit register only
 * the low 32 bits are used, and every operation truncates its result to the
 * register width as the LLVM instruction of that width does. The constant
 * arguments of an instruction are 64-bit unsigned values.
 */
module InstructionTranslation {
  import opened Wrappers
  import opened MachineInts

  // ---------------------------------------------------------------------
  // Opcodes and register sizes
  // ---------------------------------------------------------------------

  datatype Width = W32 | W64

  /** The operation part of a libtcg opcode name, without its `_i32`/`_i64` suffix. */
  datatype TcgOp =
    | add | add2 | andc | and | brcond2 | brcond | bswap16 | bswap32 | bswap64
    | deposit | div2 | div | divu2 | divu | eqv | ext16s | ext16u | ext32s | ext32u
    | ext8s | ext8u | ld16s | ld16u | ld32s | ld32u | ld8s | ld8u | ld | movcond | mov
    | mul | muls2 | mulsh | mulu2 | muluh | nand | neg | nor | not | orc | or
    | qemu_ld | qemu_st | rem | remu | rotl | rotr | sar | setcond2 | setcond
    | shl | shr | st16 | st32 | st8 | st | sub2 | sub | xor

  /**
   * A libtcg opcode: an operation on registers of a width, one of the
   * control opcodes without registers, or any other opcode of the library.
   */
  datatype Opcode =
    | Sized(op: TcgOp, width: Width)
    | Br | Call | InsnStart | Discard | ExitTb | GotoTb | SetLabel
    | OtherOpcode

  /** The number of bits of a register of width `w`. */
  function Bits(w: Width): nat
  {
    if w == W32 then 32 else 64
  }

  /** The number of distinct values of a register of width `w`. */
  function Modulus(w: Width): nat
  {
    if w == W32 then TWO_TO_THE_32 else TWO_TO_THE_64
  }

  /** Operations libtcg has only on 64-bit registers. */
  predicate OnlyI64(op: TcgOp)
  {
    op == bswap64 || op == ext32s || op == ext32u || op == ld32s || op == ld32u || op == st32
  }

  /** Operations libtcg has only on 32-bit registers. */
  predicate OnlyI32(op: TcgOp)
  {
    op == brcond2 || op == setcond2
  }

  /** The control opcodes, which use no register. */
  predicate IsControl(o: Opcode)
  {
    o.Br? || o.Call? || o.InsnStart? || o.Discard? || o.ExitTb? || o.GotoTb? || o.SetLabel?
  }

  /**
   * `getRegisterSize`: the register size of every opcode of the table, the
   * one its suffix names, 0 for the control opcodes; `None` for an opcode
   * outside the table, where the source stops as unreachable.
   */
  function GetRegisterSize(o: Opcode): (r: Option<nat>)
    ensures r.Some? && o.Sized? ==> r.value == Bits(o.width)
    ensures r == Some(0) <==> IsControl(o)
    ensures r.None? <==> o.OtherOpcode? || (o.Sized? && (if o.width == W32 then OnlyI64(o.op) else OnlyI32(o.op)))
  {
    match o
    case Sized(op, W32) => if OnlyI64(op) then None else Some(32)
    case Sized(op, W64) => if OnlyI32(op) then None else Some(64)
    case OtherOpcode => None
    case _ => Some(0)
  }

  /** The operations that exist at both widths have a 32-bit and a 64-bit register size. */
  lemma BothWidthsHaveTheirSize(op: TcgOp)
    requires !OnlyI32(op) && !OnlyI64(op)
    ensures GetRegisterSize(Sized(op, W32)) == Some(32)
    ensures GetRegisterSize(Sized(op, W64)) == Some(64)
  {
  }

  // ---------------------------------------------------------------------
  // Binary operations
  // ---------------------------------------------------------------------

  /** The LLVM binary operations the translator emits. */
  datatype BinaryOp = Add | Sub | Mul | SDiv | UDiv | SRem | URem | And | Or | Xor | Shl | LShr | AShr

  /** The operations that become one LLVM binary operation. */
  predicate IsArithmetic(op: TcgOp)
  {
    op == add || op == add2 || op == sub || op == sub2 || op == mul || op == div || op == divu
    || op == rem || op == remu || op == and || op == or || op == xor || op == shl || op == shr || op == sar
  }

  /** Binary operations that read their operands as signed. */
  predicate IsSigned(b: BinaryOp)
  {
    b == SDiv || b == SRem || b == AShr
  }

  /**
   * `opcodeToBinaryOp`: the LLVM operation of a libtcg arithmetic opcode, the
   * same for both widths; `None` for any other opcode, where the source stops
   * as unreachable. The signed operations are those of `div`, `rem` and `sar`.
   */
  function OpcodeToBinaryOp(o: Opcode): (r: Option<BinaryOp>)
    ensures r.Some? <==> o.Sized? && IsArithmetic(o.op)
    ensures r.Some? ==> GetRegisterSize(o) == Some(Bits(o.width))
    ensures r.Some? ==> (IsSigned(r.value) <==> o.op == div || o.op == rem || o.op == sar)
    ensures o.Sized? && (o.op == add || o.op == add2) ==> r == Some(Add)
    ensures o.Sized? && (o.op == sub || o.op == sub2) ==> r == Some(Sub)
  {
    if o.Sized? then BinaryOpOf(o.op) else None
  }

  /** The switch of `opcodeToBinaryOp`, which lists both widths of each operation together. */
  function BinaryOpOf(op: TcgOp): Option<BinaryOp>
  {
    match op
    case add => Some(Add)
    case add2 => Some(Add)
    case sub => Some(Sub)
    case sub2 => Some(Sub)
    case mul => Some(Mul)
    case div => Some(SDiv)
    case divu => Some(UDiv)
    case rem => Some(SRem)
    case remu => Some(URem)
    case and => Some(And)
    case or => Some(Or)
    case xor => Some(Xor)
    case shl => Some(Shl)
    case shr => Some(LShr)
    case sar => Some(AShr)
    case _ => None
  }

  /** The `_i32` and `_i64` variants of an operation become the same LLVM operation. */
  lemma BinaryOpIgnoresWidth(op: TcgOp)
    ensures OpcodeToBinaryOp(Sized(op, W32)) == OpcodeToBinaryOp(Sized(op, W64))
  {
  }

  // ---------------------------------------------------------------------
  // Conditions
  // ---------------------------------------------------------------------

  datatype TcgCond = NEVER | ALWAYS | EQ | NE | LT | GE | LE | GT | LTU | GEU | LEU | GTU

  datatype Predicate =
    | FCMP_FALSE | FCMP_TRUE
    | ICMP_EQ | ICMP_NE
    | ICMP_SLT | ICMP_SGE | ICMP_SLE | ICMP_SGT
    | ICMP_ULT | ICMP_UGE | ICMP_ULE | ICMP_UGT

  predicate IsSignedCond(c: TcgCond)
  {
    c == LT || c == GE || c == LE || c == GT
  }

  predicate IsUnsignedCond(c: TcgCond)
  {
    c == LTU || c == GEU || c == LEU || c == GTU
  }

  predicate IsSignedPredicate(p: Predicate)
  {
    p == ICMP_SLT || p == ICMP_SGE || p == ICMP_SLE || p == ICMP_SGT
  }

  predicate IsUnsignedPredicate(p: Predicate)
  {
    p == ICMP_ULT || p == ICMP_UGE || p == ICMP_ULE || p == ICMP_UGT
  }

  /**
   * `conditionToPredicate`: signed conditions become signed predicates,
   * unsigned ones unsigned predicates, equality and inequality stay so, and
   * the constant conditions become the constant predicates.
   */
  function ConditionToPredicate(c: TcgCond): (r: Predicate)
    ensures IsSignedPredicate(r) <==> IsSignedCond(c)
    ensures IsUnsignedPredicate(r) <==> IsUnsignedCond(c)
    ensures r == ICMP_EQ <==> c == EQ
    ensures r == ICMP_NE <==> c == NE
    ensures r == FCMP_FALSE <==> c == NEVER
    ensures r == FCMP_TRUE <==> c == ALWAYS
  {
    match c
    case NEVER => FCMP_FALSE
    case ALWAYS => FCMP_TRUE
    case EQ => ICMP_EQ
    case NE => ICMP_NE
    case LT => ICMP_SLT
    case GE => ICMP_SGE
    case LE => ICMP_SLE
    case GT => ICMP_SGT
    case LTU => ICMP_ULT
    case GEU => ICMP_UGE
    case LEU => ICMP_ULE
    case GTU => ICMP_UGT
  }

  /** A register value of width `w` read as a two's-complement integer. */
  function AsSigned(x: int, w: Width): int
  {
    var m := Modulus(w);
    if x % m < m / 2 then x % m else x % m - m
  }

  /** When a libtcg condition holds of two register values `a` and `b` of width `w`. */
  predicate CondHolds(c: TcgCond, a: nat, b: nat, w: Width)
  {
    match c
    case NEVER => false
    case ALWAYS => true
    case EQ => a == b
    case NE => a != b
    case LT => AsSigned(a, w) < AsSigned(b, w)
    case GE => AsSigned(a, w) >= AsSigned(b, w)
    case LE => AsSigned(a, w) <= AsSigned(b, w)
    case GT => AsSigned(a, w) > AsSigned(b, w)
    case LTU => a < b
    case GEU => a >= b
    case LEU => a <= b
    case GTU => a > b
  }

  /** When an LLVM comparison predicate holds of two values `a` and `b` of width `w`. */
  predicate PredicateHolds(p: Predicate, a: nat, b: nat, w: Width)
  {
    match p
    case FCMP_FALSE => false
    case FCMP_TRUE => true
    case ICMP_EQ => a == b
    case ICMP_NE => a != b
    case ICMP_SLT => AsSigned(a, w) < AsSigned(b, w)
    case ICMP_SGE => !(AsSigned(a, w) < AsSigned(b, w))
    case ICMP_SLE => !(AsSigned(b, w) < AsSigned(a, w))
    case ICMP_SGT => AsSigned(b, w) < AsSigned(a, w)
    case ICMP_ULT => a < b
    case ICMP_UGE => !(a < b)
    case ICMP_ULE => !(b < a)
    case ICMP_UGT => b < a
  }

  /** The comparison the translator emits holds exactly when the libtcg condition does. */
  lemma ConditionToPredicatePreservesMeaning(c: TcgCond, a: nat, b: nat, w: Width)
    ensures PredicateHolds(ConditionToPredicate(c), a, b, w) <==> CondHolds(c, a, b, w)
  {
  }

  /** No two conditions become the same predicate. */
  lemma ConditionToPredicateInjective(c: TcgCond, d: TcgCond)
    requires ConditionToPredicate(c) == ConditionToPredicate(d)
    ensures c == d
  {
  }

  // ---------------------------------------------------------------------
  // Program counter and all-ones masks
  // ---------------------------------------------------------------------

  /** A libtcg instruction: its opcode and its constant arguments. */
  datatype TcgInstruction = TcgInstruction(opcode: Opcode, constantArgs: seq<bv64>)

  const LOW_HALF: bv64 := 0xFFFF_FFFF

  /**
   * `pc`: the address an `insn_start` marks, its first constant argument, or
   * with a second constant argument that argument as the upper 32 bits. The
   * second argument is OR'ed in, so when the first does not fit in 32 bits
   * its upper bits mix with the second's.
   */
  function Pc(i: TcgInstruction): (r: bv64)
    requires i.opcode == InsnStart && |i.constantArgs| >= 1
    ensures |i.constantArgs| == 1 ==> r == i.constantArgs[0]
    ensures |i.constantArgs| > 1 && i.constantArgs[0] & LOW_HALF == i.constantArgs[0] ==>
              r & LOW_HALF == i.constantArgs[0] && r >> 32 == i.constantArgs[1] & LOW_HALF
  {
    var pc := i.constantArgs[0];
    if |i.constantArgs| > 1 then pc | (i.constantArgs[1] << 32) else pc
  }

  /**
   * With two constants, the low half of the pc is the first constant's low
   * half, and the high half is the first constant's high half OR'ed with the
   * second constant's low half.
   */
  lemma PcMixesConstants(i: TcgInstruction)
    requires i.opcode == InsnStart && |i.constantArgs| > 1
    ensures Pc(i) & LOW_HALF == i.constantArgs[0] & LOW_HALF
    ensures Pc(i) >> 32 == (i.constantArgs[0] >> 32) | (i.constantArgs[1] & LOW_HALF)
  {
    OrHighHalf(i.constantArgs[0], i.constantArgs[1]);
  }

  /** OR'ing `hi << 32` into `lo` keeps the low half of `lo` and puts `hi`'s low half above it. */
  lemma OrHighHalf(lo: bv64, hi: bv64)
    ensures (lo | (hi << 32)) & LOW_HALF == lo & LOW_HALF
    ensures (lo | (hi << 32)) >> 32 == (lo >> 32) | (hi & LOW_HALF)
  {
  }

  /** `2^n`. */
  function Pow2(n: nat): (r: nat)
    ensures r > n
  {
    if n == 0 then 1 else 2 * Pow2(n - 1)
  }

  lemma {:induction false} Pow2Add(a: nat, b: nat)
    ensures Pow2(a + b) == Pow2(a) * Pow2(b)
  {
    if b > 0 {
      Pow2Add(a, b - 1);
      assert Pow2(a + b) == 2 * Pow2(a + b - 1);
    }
  }

  lemma Pow2Widths()
    ensures Pow2(32) == TWO_TO_THE_32 && Pow2(64) == TWO_TO_THE_64
  {
    assert Pow2(2) == 4;
    assert Pow2(4) == 16;
    Pow2Add(4, 4);
    assert Pow2(8) == 256;
    Pow2Add(8, 8);
    assert Pow2(16) == 0x1_0000;
    Pow2Add(16, 16);
    assert Pow2(32) == 0x1_0000_0000;
    Pow2Add(32, 32);
  }

  /** `getMaxValue`: the largest value of `bits` bits, for the two register sizes. */
  function GetMaxValue(bits: nat): (r: uint64)
    requires bits == 32 || bits == 64
    ensures r == Pow2(bits) - 1
  {
    Pow2Widths();
    if bits == 32 then 0xffff_ffff else 0xffff_ffff_ffff_ffff
  }

  /** The register size is the number of bits whose values a register holds. */
  lemma ModulusIsPow2(w: Width)
    ensures Modulus(w) == Pow2(Bits(w))
  {
    Pow2Widths();
  }

  // ---------------------------------------------------------------------
  // Register values as bits
  // ---------------------------------------------------------------------

  /**
   * The bits of a register value, least significant first: bit `i` has
   * weight `2^i`. A value of a register of width `w` has `Bits(w)` bits.
   */
  type Word = seq<bool>

  /** The number a word stands for. */
  function Value(x: Word): (r: nat)
    ensures r < Pow2(|x|)
  {
    if |x| == 0 then 0 else (if x[0] then 1 else 0) + 2 * Value(x[1..])
  }

  /** The word of `n` bits with the low `len` bits set: `(1 << len) - 1`, or `getMaxValue` when `len == n`. */
  function LowMask(len: nat, n: nat): (r: Word)
    ensures |r| == n && forall k :: 0 <= k < n ==> (r[k] <==> k < len)
  {
    seq(n, k => k < len)
  }

  /** Bitwise `and`, `or`, `xor` and complement of words of the same width. */
  function AndW(x: Word, y: Word): (r: Word)
    requires |x| == |y|
    ensures |r| == |x| && forall k :: 0 <= k < |x| ==> (r[k] <==> x[k] && y[k])
  {
    seq(|x|, k requires 0 <= k < |x| => x[k] && y[k])
  }

  function OrW(x: Word, y: Word): (r: Word)
    requires |x| == |y|
    ensures |r| == |x| && forall k :: 0 <= k < |x| ==> (r[k] <==> x[k] || y[k])
  {
    seq(|x|, k requires 0 <= k < |x| => x[k] || y[k])
  }

  function XorW(x: Word, y: Word): (r: Word)
    requires |x| == |y|
    ensures |r| == |x| && forall k :: 0 <= k < |x| ==> (r[k] <==> x[k] != y[k])
  {
    seq(|x|, k requires 0 <= k < |x| => x[k] != y[k])
  }

  function Complement(x: Word): (r: Word)
    ensures |r| == |x| && forall k :: 0 <= k < |x| ==> (r[k] <==> !x[k])
  {
    seq(|x|, k requires 0 <= k < |x| => !x[k])
  }

  /** Left and logical right shifts by fewer bits than the width: zeros come in. */
  function ShlW(x: Word, n: nat): (r: Word)
    requires n <= |x|
    ensures |r| == |x| && forall k :: 0 <= k < |x| ==> (r[k] <==> n <= k && x[k - n])
  {
    seq(|x|, k requires 0 <= k < |x| => n <= k && x[k - n])
  }

  function LShrW(x: Word, n: nat): (r: Word)
    requires n <= |x|
    ensures |r| == |x| && forall k :: 0 <= k < |x| ==> (r[k] <==> k + n < |x| && x[k + n])
  {
    seq(|x|, k requires 0 <= k < |x| => k + n < |x| && x[k + n])
  }

  /** An LLVM `shl` by a register value: poison (`None`) when the amount is not below the width. */
  function ShlOp(x: Word, n: nat): (r: Option<Word>)
    ensures r.Some? <==> n < |x|
  {
    if n < |x| then Some(ShlW(x, n)) else None
  }

  /** An LLVM `lshr` by a register value: poison (`None`) when the amount is not below the width. */
  function LShrOp(x: Word, n: nat): (r: Option<Word>)
    ensures r.Some? <==> n < |x|
  {
    if n < |x| then Some(LShrW(x, n)) else None
  }

  // ---------------------------------------------------------------------
  // not, neg
  // ---------------------------------------------------------------------

  /** `not`: the exclusive or with `getMaxValue` of the register size, which flips every bit. */
  function NotOp(x: Word): (r: Word)
    ensures r == Complement(x)
  {
    XorW(x, LowMask(|x|, |x|))
  }

  /** The complement of a value is what it lacks to reach the largest value of its width. */
  lemma {:induction false} NotValue(x: Word)
    ensures Value(NotOp(x)) == Pow2(|x|) - 1 - Value(x)
  {
    if |x| > 0 {
      NotValue(x[1..]);
      assert NotOp(x)[1..] == NotOp(x[1..]);
    }
  }

  /** `neg`: zero minus the operand, in the register width. */
  function NegOp(v: nat, w: Width): (r: nat)
    ensures r < Modulus(w) && (r + v) % Modulus(w) == 0
  {
    (0 - v) % Modulus(w)
  }

  /** `0 - v` and `m - v` are the same modulo `m`. */
  lemma NegMod(v: int, m: int)
    requires 0 <= v < m
    ensures (0 - v) % m == (m - v) % m
  {
    if v > 0 {
      assert 0 < m - v < m;
      assert (0 - v) == (m - v) - m;
    }
  }

  /** Negation is the complement plus one, in the register width. */
  lemma NegIsNotPlusOne(x: Word, w: Width)
    requires |x| == Bits(w)
    ensures NegOp(Value(x), w) == (Value(NotOp(x)) + 1) % Modulus(w)
  {
    var v, m := Value(x), Modulus(w);
    NotValue(x);
    ModulusIsPow2(w);
    assert Value(NotOp(x)) + 1 == m - v;
    NegMod(v, m);
  }

  /** Negating twice gives the operand back. */
  lemma NegInvolutive(v: nat, w: Width)
    requires v < Modulus(w)
    ensures NegOp(NegOp(v, w), w) == v
  {
  }

  // ---------------------------------------------------------------------
  // deposit
  // ---------------------------------------------------------------------

  /**
   * `deposit` once its mask `bits` is known: the base with the field cleared,
   * or'ed with the deposited value cut to the mask and shifted into place.
   * The constants, computed in 64 bits, are cut to the register width as
   * LLVM does with a constant of the register's type.
   */
  function DepositWith(t1: Word, t2: Word, pos: nat, bits: Word): (r: Word)
    requires |t1| == |t2| == |bits| && pos < |t1|
    ensures |r| == |t1|
  {
    var baseMask := Complement(ShlW(bits, pos));
    var maskedBase := AndW(t1, baseMask);
    var value := AndW(t2, bits);
    var shiftedDeposit := ShlW(value, pos);
    OrW(maskedBase, shiftedDeposit)
  }

  /**
   * The mask of `deposit` as written: `getMaxValue` for a field as wide as
   * the register, otherwise `(1 << Length) - 1` computed on `int`, which is
   * defined only for `Length < 31` (at 31 the subtraction overflows, from 32
   * on the shift is as wide as `int`). `None` stands for undefined.
   */
  function DepositMaskAsWritten(len: nat, n: nat): (r: Option<Word>)
    requires len <= n
    ensures r.Some? <==> len < 31 || len == n
    ensures r.Some? ==> r.value == LowMask(len, n)
  {
    if len == n then Some(LowMask(n, n))
    else if len < 31 then Some(LowMask(len, n))
    else None
  }

  /**
   * `deposit_i32`/`deposit_i64` as written, on registers of `|t1|` bits: the
   * base unchanged when the field starts at the register size, otherwise
   * the field of `len` bits at `pos` replaced, undefined where the mask is.
   * libtcg keeps every field within the register.
   */
  function DepositAsWritten(t1: Word, t2: Word, pos: nat, len: nat): (r: Option<Word>)
    requires |t1| == |t2| && pos + len <= |t1|
    ensures pos == |t1| ==> r == Some(t1)
    ensures r.None? <==> pos != |t1| && len != |t1| && len >= 31
  {
    if pos == |t1| then Some(t1)
    else
      match DepositMaskAsWritten(len, |t1|)
      case None => None
      case Some(bits) => Some(DepositWith(t1, t2, pos, bits))
  }

  /** A 64-bit deposit of a 32-bit field, the way two 32-bit halves are concatenated, is undefined as written. */
  lemma DepositHalfIsUndefined(t1: Word, t2: Word)
    requires |t1| == |t2| == 64
    ensures DepositAsWritten(t1, t2, 32, 32).None?
  {
  }

  /**
   * `deposit` with its mask computed in 64 bits: inside the field, the low
   * bits of `t2` in order; elsewhere, the bits of `t1`.
   */
  function Deposit(t1: Word, t2: Word, pos: nat, len: nat): (r: Word)
    requires |t1| == |t2| && pos + len <= |t1|
    ensures |r| == |t1|
    ensures forall k :: 0 <= k < |t1| ==> (r[k] <==> if pos <= k < pos + len then t2[k - pos] else t1[k])
  {
    if pos == |t1| then t1 else DepositWith(t1, t2, pos, LowMask(len, |t1|))
  }

  /** Where the mask as written is defined, `deposit` as written is the corrected one. */
  lemma DepositAsWrittenAgrees(t1: Word, t2: Word, pos: nat, len: nat)
    requires |t1| == |t2| && pos + len <= |t1|
    requires len < 31 || len == |t1|
    ensures DepositAsWritten(t1, t2, pos, len) == Some(Deposit(t1, t2, pos, len))
  {
  }

  /** Depositing a field of `t2` and reading the field back gives the low bits of `t2`; outside it nothing changes. */
  lemma DepositThenExtract(t1: Word, t2: Word, pos: nat, len: nat)
    requires |t1| == |t2| && pos + len <= |t1|
    ensures Deposit(t1, t2, pos, len)[pos..pos + len] == t2[..len]
    ensures Deposit(t1, t2, pos, len)[..pos] == t1[..pos]
    ensures Deposit(t1, t2, pos, len)[pos + len..] == t1[pos + len..]
  {
  }

  // ---------------------------------------------------------------------
  // rotl, rotr
  // ---------------------------------------------------------------------

  /**
   * `rotl`/`rotr` as written, for a rotation amount `n` held in a register:
   * one shift by `n`, the opposite shift by the register size minus `n`
   * (a subtraction in the register width), and the `or` of the two. A shift
   * by the whole width is poison, and so is the `or` of a poison value.
   */
  function RotateAsWritten(left: bool, x: Word, n: nat): (r: Option<Word>)
    requires n < Pow2(|x|)
    ensures r.Some? ==> |r.value| == |x|
  {
    var amount := (|x| - n) % Pow2(|x|);
    var first := if left then ShlOp(x, n) else LShrOp(x, n);
    var second := if left then LShrOp(x, amount) else ShlOp(x, amount);
    if first.Some? && second.Some? then Some(OrW(first.value, second.value)) else None
  }

  /** A rotation by zero, which leaves its operand unchanged in libtcg, is poison as written. */
  lemma RotateByZeroIsPoison(left: bool, x: Word)
    requires |x| > 0
    ensures RotateAsWritten(left, x, 0).None?
  {
  }

  /** The bit a rotation brings to position `k`. */
  function RotatedIndex(left: bool, k: nat, n: nat, size: nat): (r: nat)
    requires k < size && n < size
    ensures r < size
  {
    if left then (if k >= n then k - n else k + size - n)
    else (if k + n < size then k + n else k + n - size)
  }

  /**
   * `rotl`/`rotr` for an amount below the register size: every bit moves
   * `n` places, those that leave the register at one end entering it at
   * the other; a rotation by zero changes nothing.
   */
  function Rotate(left: bool, x: Word, n: nat): (r: Word)
    requires n < |x|
    ensures |r| == |x| && forall k :: 0 <= k < |x| ==> r[k] == x[RotatedIndex(left, k, n, |x|)]
  {
    if n == 0 then x
    else if left then OrW(ShlW(x, n), LShrW(x, |x| - n))
    else OrW(LShrW(x, n), ShlW(x, |x| - n))
  }

  /** For every other amount below the register size, the rotation as written is the corrected one. */
  lemma RotateAsWrittenAgrees(left: bool, x: Word, n: nat)
    requires 0 < n < |x|
    ensures RotateAsWritten(left, x, n) == Some(Rotate(left, x, n))
  {
    var m := Pow2(|x|);
    assert 0 < |x| - n < m;
    assert (|x| - n) % m == |x| - n;
  }

  /** Moving `n` places one way and then the other comes back to the same bit. */
  lemma RotatedIndexInverse(k: nat, n: nat, size: nat)
    requires k < size && n < size
    ensures RotatedIndex(true, RotatedIndex(false, k, n, size), n, size) == k
    ensures RotatedIndex(false, RotatedIndex(true, k, n, size), n, size) == k
  {
  }

  /** Rotating right undoes rotating left by the same amount. */
  lemma RotateRightUndoesLeft(x: Word, n: nat)
    requires n < |x|
    ensures Rotate(false, Rotate(true, x, n), n) == x
  {
    var y := Rotate(true, x, n);
    var z := Rotate(false, y, n);
    forall k | 0 <= k < |x|
      ensures z[k] == x[k]
    {
      var j := RotatedIndex(false, k, n, |x|);
      assert z[k] == y[j];
      RotatedIndexInverse(k, n, |x|);
    }
  }

  /** Rotating left undoes rotating right by the same amount. */
  lemma RotateLeftUndoesRight(x: Word, n: nat)
    requires n < |x|
    ensures Rotate(true, Rotate(false, x, n), n) == x
  {
    var y := Rotate(false, x, n);
    var z := Rotate(true, y, n);
    forall k | 0 <= k < |x|
      ensures z[k] == x[k]
    {
      var j := RotatedIndex(true, k, n, |x|);
      assert z[k] == y[j];
      RotatedIndexInverse(k, n, |x|);
    }
  }

  // ---------------------------------------------------------------------
  // add2, sub2, mulu2, muls2
  // ---------------------------------------------------------------------

  lemma MulAtLeast(a: int, d: int)
    requires a >= 1 && d > 0
    ensures a * d >= d
  {
  }

  /** Division with a remainder in `[0, d)` has one answer. */
  lemma DivModUnique(x: int, d: int, q: int, r: int)
    requires d > 0 && 0 <= r < d && x == q * d + r
    ensures x / d == q && x % d == r
  {
    var q', r' := x / d, x % d;
    if q > q' {
      MulAtLeast(q - q', d);
      assert false;
    } else if q < q' {
      MulAtLeast(q' - q, d);
      assert false;
    }
  }

  /**
   * Cutting a number to `2w` bits and then splitting it into its low and its
   * high `w` bits gives the low `w` bits of the number and the low `w` bits of
   * its quotient by `2^w`.
   */
  lemma SplitDoubleWord(x: int, m: int)
    requires m > 0
    ensures (x % (m * m)) % m == x % m
    ensures ((x % (m * m)) / m) % m == (x / m) % m
  {
    var big := x / (m * m);
    var rest := x % (m * m);
    var hi, lo := rest / m, rest % m;
    assert rest == hi * m + lo;
    assert hi < m;
    assert x == (big * m + hi) * m + lo;
    DivModUnique(x, m, big * m + hi, lo);
    DivModUnique(x / m, m, big, hi);
    DivModUnique(rest, m, hi, lo);
    DivModUnique(hi, m, 0, hi);
  }

  /** A number written as `hi * m + lo`: its low part is `lo` modulo `m`, its high part `hi` plus the carry out of `lo`. */
  lemma HighLowParts(hi: int, lo: int, m: int)
    requires m > 0
    ensures (hi * m + lo) % m == lo % m
    ensures (hi * m + lo) / m == hi + lo / m
  {
    DivModUnique(hi * m + lo, m, hi + lo / m, lo % m);
  }

  /**
   * A double-word operand: the high register zero-extended and shifted left by
   * the register size, or'ed with the low register zero-extended. The two parts
   * share no bit, so the `or` is their sum.
   */
  function Join(lo: nat, hi: nat, w: Width): nat
  {
    hi * Modulus(w) + lo
  }

  /** The low and the high register of a double-word result: truncation, and truncation after a right shift by the register size. */
  function Halves(result: nat, w: Width): (nat, nat)
  {
    (result % Modulus(w), (result / Modulus(w)) % Modulus(w))
  }

  /**
   * `add2`/`sub2`: the two double-word operands are added or subtracted in
   * twice the register width and the result is split into its two registers.
   * That is libtcg's double-word arithmetic: the low registers are added
   * (subtracted) in the register width and the carry (borrow) out of them goes
   * into the high registers.
   */
  function AddSub2(op: TcgOp, alo: nat, ahi: nat, blo: nat, bhi: nat, w: Width): (r: (nat, nat))
    requires op == add2 || op == sub2
    requires alo < Modulus(w) && ahi < Modulus(w) && blo < Modulus(w) && bhi < Modulus(w)
    ensures op == add2 ==>
              var carry := if alo + blo >= Modulus(w) then 1 else 0;
              r == ((alo + blo) % Modulus(w), (ahi + bhi + carry) % Modulus(w))
    ensures op == sub2 ==>
              var borrow := if alo < blo then 1 else 0;
              r == ((alo - blo) % Modulus(w), (ahi - bhi - borrow) % Modulus(w))
  {
    var m := Modulus(w);
    var a := Join(alo, ahi, w);
    var b := Join(blo, bhi, w);
    if op == add2 then
      Add2Parts(alo, ahi, blo, bhi, w);
      Halves((a + b) % (m * m), w)
    else
      Sub2Parts(alo, ahi, blo, bhi, w);
      Halves((a - b) % (m * m), w)
  }

  lemma Add2Parts(alo: nat, ahi: nat, blo: nat, bhi: nat, w: Width)
    requires alo < Modulus(w) && blo < Modulus(w)
    ensures var m := Modulus(w);
            Halves((Join(alo, ahi, w) + Join(blo, bhi, w)) % (m * m), w)
            == ((alo + blo) % m, (ahi + bhi + (if alo + blo >= m then 1 else 0)) % m)
  {
    DoubleWordParts(true, alo, ahi, blo, bhi, Modulus(w));
  }

  lemma Sub2Parts(alo: nat, ahi: nat, blo: nat, bhi: nat, w: Width)
    requires alo < Modulus(w) && blo < Modulus(w)
    ensures var m := Modulus(w);
            Halves((Join(alo, ahi, w) - Join(blo, bhi, w)) % (m * m), w)
            == ((alo - blo) % m, (ahi - bhi - (if alo < blo then 1 else 0)) % m)
  {
    DoubleWordParts(false, alo, ahi, blo, bhi, Modulus(w));
  }

  /** The arithmetic behind `AddSub2`, for registers holding values below `m`. */
  lemma DoubleWordParts(add: bool, alo: int, ahi: int, blo: int, bhi: int, m: int)
    requires m > 0 && 0 <= alo < m && 0 <= blo < m
    ensures add ==>
              var exact := (ahi * m + alo) + (bhi * m + blo);
              (exact % (m * m)) % m == (alo + blo) % m &&
              ((exact % (m * m)) / m) % m == (ahi + bhi + (if alo + blo >= m then 1 else 0)) % m
    ensures !add ==>
              var exact := (ahi * m + alo) - (bhi * m + blo);
              (exact % (m * m)) % m == (alo - blo) % m &&
              ((exact % (m * m)) / m) % m == (ahi - bhi - (if alo < blo then 1 else 0)) % m
  {
    if add {
      var exact := (ahi * m + alo) + (bhi * m + blo);
      SplitDoubleWord(exact, m);
      assert exact == (ahi + bhi) * m + (alo + blo);
      HighLowParts(ahi + bhi, alo + blo, m);
      DivModUnique(alo + blo, m, if alo + blo >= m then 1 else 0, if alo + blo >= m then alo + blo - m else alo + blo);
    } else {
      var exact := (ahi * m + alo) - (bhi * m + blo);
      SplitDoubleWord(exact, m);
      assert exact == (ahi - bhi) * m + (alo - blo);
      HighLowParts(ahi - bhi, alo - blo, m);
      DivModUnique(alo - blo, m, if alo < blo then -1 else 0, if alo < blo then alo - blo + m else alo - blo);
    }
  }

  /** A product of two register values fits in a double word. */
  lemma ProductFits(a: nat, b: nat, m: nat)
    requires a < m && b < m
    ensures a * b < m * m
  {
    assert a * b <= a * m;
    assert a * m < m * m;
  }

  /**
   * `mulu2`: the operands are zero-extended to twice the register width and
   * multiplied; the two registers of the result hold the whole unsigned product.
   */
  function MulU2(a: nat, b: nat, w: Width): (r: (nat, nat))
    requires a < Modulus(w) && b < Modulus(w)
    ensures r.0 < Modulus(w) && r.1 < Modulus(w)
    ensures r.1 * Modulus(w) + r.0 == a * b
  {
    var m := Modulus(w);
    ProductSplits(a, b, m);
    Halves((a * b) % (m * m), w)
  }

  /** The arithmetic behind `MulU2`. */
  lemma ProductSplits(a: nat, b: nat, m: nat)
    requires a < m && b < m
    ensures ((a * b) % (m * m)) / m % m * m + (a * b) % (m * m) % m == a * b
  {
    ProductFits(a, b, m);
    DivModUnique(a * b, m * m, 0, a * b);
    var hi, lo := (a * b) / m, (a * b) % m;
    assert hi < m;
    DivModUnique(hi, m, 0, hi);
  }

  /** Sign extension of a register value to twice the register width. */
  function SExt(x: nat, w: Width): nat
  {
    AsSigned(x, w) % (Modulus(w) * Modulus(w))
  }

  /** Cutting both factors to `n` bits first does not change a product cut to `n` bits. */
  lemma MulMod(x: int, y: int, n: int)
    requires n > 0
    ensures ((x % n) * (y % n)) % n == (x * y) % n
  {
    var qx, rx := x / n, x % n;
    var qy, ry := y / n, y % n;
    var k := qx * qy * n + qx * ry + rx * qy;
    assert x * y == k * n + rx * ry;
    HighLowParts(k, rx * ry, n);
    HighLowParts(0, rx * ry, n);
  }

  lemma MulMono(a: int, b: int, c: int)
    requires a <= b && c >= 0
    ensures a * c <= b * c
  {
  }

  /** The product of two numbers in `[0, h]` lies in `[0, h*h]`. */
  lemma ProductBound(x: int, y: int, h: int)
    requires 0 <= x <= h && 0 <= y <= h
    ensures 0 <= x * y <= h * h
  {
    MulMono(x, h, y);
    MulMono(y, h, h);
  }

  /** The product of two numbers in `[-h, h)` lies in `[-h*h, h*h]`. */
  lemma SignedProductBound(x: int, y: int, h: int)
    requires h > 0 && -h <= x < h && -h <= y < h
    ensures -(h * h) <= x * y <= h * h
  {
    var ax, ay := if x < 0 then -x else x, if y < 0 then -y else y;
    ProductBound(ax, ay, h);
    assert x * y == ax * ay || x * y == -(ax * ay);
  }

  /** A number between `a*m` and `b*m` has a quotient by `m` between `a` and `b`. */
  lemma DivRange(x: int, m: int, a: int, b: int)
    requires m > 0 && a * m <= x < b * m
    ensures a <= x / m < b
  {
    var q := x / m;
    if q < a {
      MulMono(q, a - 1, m);
      assert false;
    }
    if q >= b {
      MulMono(b, q, m);
      assert false;
    }
  }

  /**
   * A product in `[-h*h, h*h]`, cut to the `4*h*h` values of a double word and
   * split into halves of `2*h` values: the high half read as signed, with the
   * low half, gives the product back.
   */
  lemma SignedSplit(p: int, h: int)
    requires h > 0 && -(h * h) <= p <= h * h
    ensures var m := 2 * h;
            var result := p % (m * m);
            var hi, lo := result / m, result % m;
            (if hi % m < h then hi % m else hi % m - m) * m + lo == p
  {
    var m := 2 * h;
    var result := p % (m * m);
    var hi, lo := result / m, result % m;
    assert m * m == 4 * (h * h) && h * m == 2 * (h * h);
    assert result == hi * m + lo;
    if p >= 0 {
      DivModUnique(p, m * m, 0, p);
      DivRange(result, m, 0, h);
    } else {
      DivModUnique(p, m * m, -1, p + m * m);
      DivRange(result, m, h, m);
    }
    DivModUnique(hi, m, 0, hi);
  }

  /**
   * `muls2`: the operands are sign-extended to twice the register width and
   * multiplied; the high register, read as signed, and the low register hold
   * the whole signed product.
   */
  function MulS2(a: nat, b: nat, w: Width): (r: (nat, nat))
    requires a < Modulus(w) && b < Modulus(w)
    ensures r.0 < Modulus(w) && r.1 < Modulus(w)
    ensures AsSigned(r.1, w) * Modulus(w) + r.0 == AsSigned(a, w) * AsSigned(b, w)
  {
    var m := Modulus(w);
    var result := (SExt(a, w) * SExt(b, w)) % (m * m);
    SignedProductSplits(a, b, w);
    Halves(result, w)
  }

  /** The arithmetic behind `MulS2`. */
  lemma SignedProductSplits(a: nat, b: nat, w: Width)
    requires a < Modulus(w) && b < Modulus(w)
    ensures var m := Modulus(w);
            var result := (SExt(a, w) * SExt(b, w)) % (m * m);
            AsSigned((result / m) % m, w) * m + result % m == AsSigned(a, w) * AsSigned(b, w)
  {
    var m := Modulus(w);
    var h := m / 2;
    assert m == 2 * h;
    var sa, sb := AsSigned(a, w), AsSigned(b, w);
    SignedProductBound(sa, sb, h);
    MulMod(sa, sb, m * m);
    var result := (SExt(a, w) * SExt(b, w)) % (m * m);
    assert result == (sa * sb) % (m * m);
    SignedSplit(sa * sb, h);
    var hi := result / m;
    assert hi < m by {
      DivModUnique(result, m, hi, result % m);
      if hi >= m {
        MulMono(m, hi, m);
        assert false;
      }
    }
    DivModUnique(hi, m, 0, hi);
  }
}
