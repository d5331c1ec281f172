/** Which AArch64 words each IR node expands to, and how a pending branch is patched. */
module A64Words {
  import opened Isa
  import opened Bits
  import opened Casts
  import opened Interpreter
  import opened Ir
  import opened A64Encode

  /** X9, the caller-saved scratch register. */
  const TMP := PhysReg(9)

  // ---------- the words of a node ----------

  /** 16-bit chunk k of an immediate, 0 the lowest. */
  function ImmChunk(imm: u64, k: nat): (c: nat)
    ensures c < TWO_16
  {
    imm / Pow2(16 * k) % TWO_16
  }

  function KeepWord(dst: PhysReg, imm: u64, k: nat): seq<bv32>
    requires k < 4
  {
    if ImmChunk(imm, k) != 0 then [MovkX(dst.n, AsU16(ImmChunk(imm, k)), AsU8(k))] else []
  }

  function KeepWords(dst: PhysReg, imm: u64, k: nat): seq<bv32>
    requires 1 <= k <= 4
  {
    if k == 1 then [] else KeepWords(dst, imm, k - 1) + KeepWord(dst, imm, k - 1)
  }

  function LoadImmWords(dst: PhysReg, imm: u64): seq<bv32> {
    [MovzX(dst.n, AsU16(ImmChunk(imm, 0)), 0)] + KeepWords(dst, imm, 4)
  }

  function RegWords64(op: AluOp, d: bv8, s: bv8): seq<bv32> {
    match op
    case Add => [AddX(d, d, s)]
    case Sub => [SubX(d, d, s)]
    case Mul => [MulX(d, d, s)]
    case Div => [UdivX(d, d, s)]
    case Mod => [UdivX(12, d, s), MsubX(d, 12, s, d)]
    case Or => [OrrX(d, d, s)]
    case And => [AndX(d, d, s)]
    case Xor => [EorX(d, d, s)]
    case Lsh => [LslvX(d, d, s)]
    case Rsh => [LsrvX(d, d, s)]
    case Arsh => [AsrvX(d, d, s)]
    case Mov => [MovX(d, s)]
    case Neg => [SubX(d, 31, d)]
  }

  predicate FitsImm12(v: i64) { 0 <= v < 4096 }

  function AluWords64(op: AluOp, dst: PhysReg, src: Operand): seq<bv32> {
    match src
    case OpReg(rs) => RegWords64(op, dst.n, rs.n)
    case OpImm(v) =>
      if op == Neg then RegWords64(Neg, dst.n, dst.n)
      else if op == Add && FitsImm12(v) then [AddXImm(dst.n, dst.n, AsU16(v))]
      else if op == Sub && FitsImm12(v) then [SubXImm(dst.n, dst.n, AsU16(v))]
      else if op == Mov then LoadImmWords(dst, Wrap64(v))
      else if op == Lsh then [LslXImm(dst.n, dst.n, AsU8(v % 64))]
      else if op == Rsh then [LsrXImm(dst.n, dst.n, AsU8(v % 64))]
      else if op == Arsh then [AsrXImm(dst.n, dst.n, AsU8(v % 64))]
      else LoadImmWords(TMP, Wrap64(v)) + RegWords64(op, dst.n, TMP.n)
  }

  function RegWords32(op: AluOp, d: bv8, s: bv8): seq<bv32> {
    match op
    case Add => [AddW(d, d, s)]
    case Sub => [SubW(d, d, s)]
    case Mul => [MulW(d, d, s)]
    case Div => [UdivW(d, d, s)]
    case Mod => [UdivW(12, d, s), MsubW(d, 12, s, d)]
    case Or => [OrrW(d, d, s)]
    case And => [AndW(d, d, s)]
    case Xor => [EorW(d, d, s)]
    case Lsh => [LslvW(d, d, s)]
    case Rsh => [LsrvW(d, d, s)]
    case Arsh => [AsrvW(d, d, s)]
    case Mov => [MovW(d, s)]
    case Neg => [SubW(d, 31, d)]
  }

  function AluWords32(op: AluOp, dst: PhysReg, src: Operand): seq<bv32> {
    match src
    case OpReg(rs) => RegWords32(op, dst.n, rs.n)
    case OpImm(v) =>
      if op == Neg then RegWords32(Neg, dst.n, dst.n)
      else if op == Mov then
        [MovzW(dst.n, AsU16(v), 0)]
        + (if Wrap64(v) > 0xFFFF then [MovkW(dst.n, AsU16(Wrap64(v) / TWO_16), 1)] else [])
      else if op == Add && FitsImm12(v) then [AddWImm(dst.n, dst.n, AsU16(v))]
      else if op == Sub && FitsImm12(v) then [SubWImm(dst.n, dst.n, AsU16(v))]
      else LoadImmWords(TMP, Wrap64(v)) + RegWords32(op, dst.n, TMP.n)
  }

  function LoadWord(width: MemWidth, dst: PhysReg, base: PhysReg, off: i16): bv32 {
    match width
    case B => Ldrb(dst.n, base.n, off)
    case H => Ldrh(dst.n, base.n, off)
    case W => LdrW(dst.n, base.n, off)
    case DW => LdrX(dst.n, base.n, off)
  }

  function StoreWord(width: MemWidth, base: PhysReg, value: PhysReg, off: i16): bv32 {
    match width
    case B => Strb(value.n, base.n, off)
    case H => Strh(value.n, base.n, off)
    case W => StrW(value.n, base.n, off)
    case DW => StrX(value.n, base.n, off)
  }

  function ConditionCode(op: JmpOp): bv8 {
    match op
    case Jeq => CC_EQ
    case Jne => CC_NE
    case Jgt => CC_HI
    case Jge => CC_HS
    case Jlt => CC_LO
    case Jle => CC_LS
    case Jsgt => CC_GT
    case Jsge => CC_GE
    case Jslt => CC_LT
    case Jsle => CC_LE
    case Jset => CC_NE
    case Ja => CC_AL
  }

  /** Everything of a conditional branch but the branch itself. */
  function CompareWords(c: BranchCond): seq<bv32> {
    match c.rhs
    case OpReg(r) => [if c.is32bit then CmpW(c.lhs.n, r.n) else CmpX(c.lhs.n, r.n)]
    case OpImm(v) =>
      LoadImmWords(TMP, Wrap64(v)) + [if c.is32bit then CmpW(c.lhs.n, TMP.n) else CmpX(c.lhs.n, TMP.n)]
  }

  function AtomicWord(op: AtomicOp, value: PhysReg): bv32 {
    match op
    case AtomicAdd => LdaddX(value.n, 31, TMP.n)
    case FetchAdd => LdaddX(value.n, 31, TMP.n)
    case AtomicOr => LdsetX(value.n, 31, TMP.n)
    case FetchOr => LdsetX(value.n, 31, TMP.n)
    case AtomicAnd => LdclrX(value.n, 31, TMP.n)
    case FetchAnd => LdclrX(value.n, 31, TMP.n)
    case AtomicXor => LdeorX(value.n, 31, TMP.n)
    case FetchXor => LdeorX(value.n, 31, TMP.n)
    case Xchg => SwpX(value.n, 31, TMP.n)
    case CmpXchg => CasX(0, value.n, TMP.n)
  }

  function AtomicWords(op: AtomicOp, base: PhysReg, value: PhysReg, off: i16): seq<bv32> {
    (if off != 0 then LoadImmWords(TMP, Wrap64(off)) + [AddX(TMP.n, base.n, TMP.n)] else [MovX(TMP.n, base.n)])
    + [DmbIsh(), AtomicWord(op, value), DmbIsh()]
  }

  function EndianWords(toBe: bool, width: EndianWidth, dst: PhysReg): seq<bv32> {
    if !toBe then []
    else
      match width
      case Bits16 => [Rev16W(dst.n, dst.n), AndXMask(dst.n, dst.n)]
      case Bits32 => [RevW(dst.n, dst.n)]
      case Bits64 => [RevX(dst.n, dst.n)]
  }

  /** `x as i16` */
  function AsI16(x: u16): i16 { if x < 0x8000 then x else x - TWO_16 }

  /** `-(x as i16)`, wrapping */
  function NegI16(x: u16): i16 { AsI16((TWO_16 - x) % TWO_16) }

  function PrologueWords(frame: u16): seq<bv32> {
    [StpPre(29, 30, 31, NegI16(frame)), MovX(29, 31), StpOffset(19, 20, 31, 16), StpOffset(21, 22, 31, 32),
        StrX(25, 31, 48)]
  }

  function EpilogueWords(frame: u16): seq<bv32> {
    [LdpOffset(19, 20, 31, 16), LdpOffset(21, 22, 31, 32), LdrX(25, 31, 48), LdpPost(29, 30, 31, AsI16(frame))]
  }

  /** The words of a node, branches still without their offsets. */
  function A64NodeWords(node: IrNode): seq<bv32> {
    match node
    case IrAlu64(op, dst, src) => AluWords64(op, dst, src)
    case IrAlu32(op, dst, src) => AluWords32(op, dst, src)
    case IrLoad(width, dst, base, off) => [LoadWord(width, dst, base, off)]
    case IrStore(width, base, value, off) => [StoreWord(width, base, value, off)]
    case IrStoreImm(width, base, off, imm) => LoadImmWords(TMP, Wrap64(imm)) + [StoreWord(width, base, TMP, off)]
    case IrLoadImm64(dst, imm) => LoadImmWords(dst, imm)
    case IrBranch(c, _) => CompareWords(c) + [BCond(ConditionCode(c.op), 0)]
    case IrJump(_) => [BImm(0)]
    case IrCall(_) => [Blr(9)]
    case IrRet => [MovX(0, 7), Ret()]
    case IrSpill(reg, slot) => [StrX(reg.n, 31, slot)]
    case IrFill(reg, slot) => [LdrX(reg.n, 31, slot)]
    case IrAtomic(_, op, base, value, off) => AtomicWords(op, base, value, off)
    case IrEndian(toBe, width, dst) => EndianWords(toBe, width, dst)
    case IrLabel(_) => []
    case IrPrologue(frame) => PrologueWords(frame)
    case IrEpilogue(frame) => EpilogueWords(frame)
  }

  // ---------- pending branches ----------

  /** The displacement, in bytes, is in reach of the branch instruction. */
  predicate A64InReach(isConditional: bool, displacement: int) {
    var d := TruncDiv(displacement, 4);
    if isConditional then -0x40000 <= d < 0x40000 else -0x2000000 <= d < 0x2000000
  }

  function A64Patch(existing: bv32, isConditional: bool, displacement: int): bv32 {
    var d := TruncDiv(displacement, 4);
    if isConditional then (existing & 0xFF00001F) | ((AsU32(d) & 0x7FFFF) << 5)
    else 0x14000000 | (AsU32(d) & 0x03FFFFFF)
  }
}
