/** Which RISC-V words each IR node expands to, and how a pending branch is patched. */
module RvWords {
  import opened Isa
  import opened Bits
  import opened Interpreter
  import opened Ir
  import opened RvEncode

  /** x23 (s7), the scratch register. */
  const S7: bv8 := 23

  predicate Fits12(v: int) { -2048 <= v < 2048 }

  predicate Fits32(v: int) { -TWO_31 <= v < TWO_31 }

  /** `(v + 0x800) >> 12` */
  function Hi20(v: int): int { FloorDiv(v + 0x800, 4096) }

  function Lo12(v: int): int { SignExtend12(v) }

  /** LUI, then ADDI unless the low part is zero. */
  function LuiAddi(rd: bv8, v: int): seq<bv32> {
    [Lui(rd, Hi20(v))] + (if v % 4096 != 0 then [Addi(rd, rd, Lo12(v))] else [])
  }

  function LowerHalf(rd: bv8, lower: nat): seq<bv32> {
    if Hi20(lower) != 0 then LuiAddi(S7, lower) + [RvAdd(rd, rd, S7)]
    else if lower % 4096 != 0 then [Addi(S7, 0, Lo12(lower)), RvAdd(rd, rd, S7)]
    else []
  }

  function RvLoadImm(rd: bv8, imm: u64): seq<bv32> {
    var v := AsI64(imm);
    if imm == 0 then [Addi(rd, 0, 0)]
    else if Fits12(v) then [Addi(rd, 0, v)]
    else if Fits32(v) then LuiAddi(rd, v)
    else LuiAddi(rd, imm / TWO_32) + [Slli(rd, rd, 32)] + LowerHalf(rd, imm % TWO_32)
  }

  function RvReg64(op: AluOp, d: bv8, s: bv8): bv32 {
    match op
    case Add => RvAdd(d, d, s)
    case Sub => RvSub(d, d, s)
    case Mul => RvMul(d, d, s)
    case Div => RvDivu(d, d, s)
    case Mod => RvRemu(d, d, s)
    case Or => RvOr(d, d, s)
    case And => RvAnd(d, d, s)
    case Xor => RvXor(d, d, s)
    case Lsh => RvSll(d, d, s)
    case Rsh => RvSrl(d, d, s)
    case Arsh => RvSra(d, d, s)
    case Mov => Addi(d, s, 0)
    case Neg => RvSub(d, 0, d)
  }

  function RvAlu64(op: AluOp, dst: PhysReg, src: Operand): seq<bv32> {
    match src
    case OpReg(rs) => [RvReg64(op, dst.n, rs.n)]
    case OpImm(v) =>
      if op == Neg then [RvReg64(Neg, dst.n, dst.n)]
      else if op == Add && Fits12(v) then [Addi(dst.n, dst.n, v)]
      else if op == Mov then RvLoadImm(dst.n, Wrap64(v))
      else if op == Lsh then [Slli(dst.n, dst.n, v % 64)]
      else if op == Rsh then [Srli(dst.n, dst.n, v % 64)]
      else if op == Arsh then [Srai(dst.n, dst.n, v % 64)]
      else if op == And && Fits12(v) then [Andi(dst.n, dst.n, v)]
      else if op == Or && Fits12(v) then [Ori(dst.n, dst.n, v)]
      else if op == Xor && Fits12(v) then [Xori(dst.n, dst.n, v)]
      else RvLoadImm(S7, Wrap64(v)) + [RvReg64(op, dst.n, S7)]
  }

  /** Clears the upper half. */
  function ZeroExtend(d: bv8): seq<bv32> { [Slli(d, d, 32), Srli(d, d, 32)] }

  function RvReg32(op: AluOp, d: bv8, s: bv8): seq<bv32> {
    match op
    case Add => [RvAddw(d, d, s)]
    case Sub => [RvSubw(d, d, s)]
    case Mul => [RvMulw(d, d, s)]
    case Div => [RvDivuw(d, d, s)]
    case Mod => [RvRemuw(d, d, s)]
    case Lsh => [RvSllw(d, d, s)]
    case Rsh => [RvSrlw(d, d, s)]
    case Arsh => [RvSraw(d, d, s)]
    case Mov => [Addi(d, s, 0)] + ZeroExtend(d)
    case Or => [RvOr(d, d, s)] + ZeroExtend(d)
    case And => [RvAnd(d, d, s)] + ZeroExtend(d)
    case Xor => [RvXor(d, d, s)] + ZeroExtend(d)
    case Neg => [RvSubw(d, 0, d)]
  }

  function RvAlu32(op: AluOp, dst: PhysReg, src: Operand): seq<bv32> {
    match src
    case OpReg(rs) => RvReg32(op, dst.n, rs.n)
    case OpImm(v) =>
      if op == Neg then RvReg32(Neg, dst.n, dst.n)
      else RvLoadImm(S7, Wrap64(v)) + RvReg32(op, dst.n, S7)
  }

  function RvLoadWord(width: MemWidth, dst: PhysReg, base: PhysReg, off: i16): bv32 {
    match width
    case B => Lbu(dst.n, base.n, off)
    case H => Lhu(dst.n, base.n, off)
    case W => Lwu(dst.n, base.n, off)
    case DW => Ld(dst.n, base.n, off)
  }

  function RvStoreWord(width: MemWidth, base: PhysReg, value: bv8, off: i16): bv32 {
    match width
    case B => Sb(value, base.n, off)
    case H => Sh(value, base.n, off)
    case W => Sw(value, base.n, off)
    case DW => Sd(value, base.n, off)
  }

  /** The branch itself, still without its offset. Operands are swapped where RISC-V has no
      instruction for the comparison; Jset tests the conjunction in s7. */
  function RvBranchWord(op: JmpOp, lhs: bv8, rhs: bv8): bv32 {
    match op
    case Jeq => Beq(lhs, rhs, 0)
    case Jne => Bne(lhs, rhs, 0)
    case Jgt => Bltu(rhs, lhs, 0)
    case Jge => Bgeu(lhs, rhs, 0)
    case Jlt => Bltu(lhs, rhs, 0)
    case Jle => Bgeu(rhs, lhs, 0)
    case Jsgt => Blt(rhs, lhs, 0)
    case Jsge => Bge(lhs, rhs, 0)
    case Jslt => Blt(lhs, rhs, 0)
    case Jsle => Bge(rhs, lhs, 0)
    case Jset => Bne(S7, 0, 0)
    case Ja => Jal(0, 0)
  }

  function RhsReg(o: Operand): bv8 { if o.OpReg? then o.reg.n else S7 }

  /** What comes before the branch. */
  function RvBeforeBranch(c: BranchCond): seq<bv32> {
    (if c.rhs.OpImm? then RvLoadImm(S7, Wrap64(c.rhs.imm)) else [])
    + (if c.op == Jset then [RvAnd(S7, c.lhs.n, RhsReg(c.rhs))] else [])
  }

  function RvAtomicWords(op: AtomicOp, value: PhysReg): seq<bv32> {
    match op
    case AtomicAdd => [AmoaddD(0, value.n, S7)]
    case FetchAdd => [AmoaddD(0, value.n, S7)]
    case AtomicOr => [AmoorD(0, value.n, S7)]
    case FetchOr => [AmoorD(0, value.n, S7)]
    case AtomicAnd => [AmoandD(0, value.n, S7)]
    case FetchAnd => [AmoandD(0, value.n, S7)]
    case AtomicXor => [AmoxorD(0, value.n, S7)]
    case FetchXor => [AmoxorD(0, value.n, S7)]
    case Xchg => [AmoswapD(0, value.n, S7)]
    case CmpXchg => [LrD(S7, S7), Bne(S7, 10, 12), ScD(S7, value.n, S7), Bne(S7, 0, -12)]
  }

  function RvAtomic(op: AtomicOp, base: PhysReg, value: PhysReg, off: i16): seq<bv32> {
    [Addi(S7, base.n, off), FenceRwRw()] + RvAtomicWords(op, value) + [FenceRwRw()]
  }

  function RvPrologue(frame: u16): seq<bv32> {
    [Addi(2, 2, -(frame as int)), Sd(1, 2, frame - 8), Sd(8, 2, frame - 16), Sd(18, 2, frame - 24),
        Sd(19, 2, frame - 32),
     Sd(20, 2, frame - 40), Sd(21, 2, frame - 48), Sd(22, 2, frame - 56), Addi(8, 2, frame)]
  }

  function RvEpilogue(frame: u16): seq<bv32> {
    [Ld(22, 2, frame - 56), Ld(21, 2, frame - 48), Ld(20, 2, frame - 40), Ld(19, 2, frame - 32), Ld(18, 2, frame - 24),
     Ld(8, 2, frame - 16), Ld(1, 2, frame - 8), Addi(2, 2, frame)]
  }

  /** The words of a node, branches still without their offsets. */
  function RvNodeWords(node: IrNode): seq<bv32> {
    match node
    case IrAlu64(op, dst, src) => RvAlu64(op, dst, src)
    case IrAlu32(op, dst, src) => RvAlu32(op, dst, src)
    case IrLoad(width, dst, base, off) => [RvLoadWord(width, dst, base, off)]
    case IrStore(width, base, value, off) => [RvStoreWord(width, base, value.n, off)]
    case IrStoreImm(width, base, off, imm) => RvLoadImm(S7, Wrap64(imm)) + [RvStoreWord(width, base, S7, off)]
    case IrLoadImm64(dst, imm) => RvLoadImm(dst.n, imm)
    case IrBranch(c, _) => RvBeforeBranch(c) + [RvBranchWord(c.op, c.lhs.n, RhsReg(c.rhs))]
    case IrJump(_) => [Jal(0, 0)]
    case IrCall(_) => [Jalr(1, 23, 0)]
    case IrRet => [Jalr(0, 1, 0)]
    case IrSpill(reg, slot) => [Sd(reg.n, 2, slot)]
    case IrFill(reg, slot) => [Ld(reg.n, 2, slot)]
    case IrAtomic(_, op, base, value, off) => RvAtomic(op, base, value, off)
    case IrEndian(_, _, dst) => [Addi(dst.n, dst.n, 0)]
    case IrLabel(_) => []
    case IrPrologue(frame) => RvPrologue(frame)
    case IrEpilogue(frame) => RvEpilogue(frame)
  }

  // ---------- pending branches ----------

  /** The displacement, in bytes, is in reach of the branch (12 bits) or jump (20 bits). */
  predicate RvInReach(isConditional: bool, displacement: int) {
    if isConditional then -0x1000 <= displacement < 0x1000 else -0x10_0000 <= displacement < 0x10_0000
  }

  function RvPatch(existing: bv32, isConditional: bool, displacement: int): bv32 {
    if isConditional then EncodeBTypeImm(displacement) | (existing & 0x01FFF07F)
    else EncodeJTypeImm(displacement) | 0x6F | (existing & 0xF80)
  }
}
