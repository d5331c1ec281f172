/** The decoded eBPF instruction set: registers, operands and instructions.
    Every field carries the integer width of the decoder's output. */
module Isa {
  const NUM_REGS := 11
  const STACK_SIZE := 512

  const TWO_8 := 0x100
  const TWO_16 := 0x1_0000
  const TWO_31 := 0x8000_0000
  const TWO_32 := 0x1_0000_0000
  const TWO_63 := 0x8000_0000_0000_0000
  const TWO_64 := 0x1_0000_0000_0000_0000

  type u8 = x: int | 0 <= x < TWO_8
  type u16 = x: int | 0 <= x < TWO_16
  type u32 = x: int | 0 <= x < TWO_32
  type u64 = x: int | 0 <= x < TWO_64
  type i16 = x: int | -0x8000 <= x < 0x8000
  type i32 = x: int | -TWO_31 <= x < TWO_31
  type i64 = x: int | -TWO_63 <= x < TWO_63

  /** R0..R10; R10 is the read-only frame pointer. */
  type BpfReg = r: nat | r <= 10

  datatype MemWidth = B | H | W | DW {
    function ByteLen(): (n: nat)
      ensures 1 <= n <= 8
    {
      match this
      case B => 1
      case H => 2
      case W => 4
      case DW => 8
    }
  }

  datatype Source = Imm(value: i64) | Reg(reg: BpfReg)

  datatype AluOp = Add | Sub | Mul | Div | Or | And | Lsh | Rsh | Neg | Mod | Xor | Mov | Arsh

  datatype JmpOp = Ja | Jeq | Jgt | Jge | Jset | Jne | Jsgt | Jsge | Jlt | Jle | Jslt | Jsle

  datatype AtomicOp =
    | AtomicAdd | AtomicOr | AtomicAnd | AtomicXor | Xchg | CmpXchg
    | FetchAdd | FetchOr | FetchAnd | FetchXor

  datatype EndianWidth = Bits16 | Bits32 | Bits64

  datatype Insn =
    | Alu64(op: AluOp, dst: BpfReg, src: Source)
    | Alu32(op: AluOp, dst: BpfReg, src: Source)
    | Load(width: MemWidth, dst: BpfReg, base: BpfReg, off: i16)
    | StoreReg(width: MemWidth, dst: BpfReg, value: BpfReg, off: i16)
    | StoreImm(width: MemWidth, dst: BpfReg, off: i16, imm: i32)
    | LoadImm64(dst: BpfReg, imm64: u64)
    | JmpCond(jop: JmpOp, dst: BpfReg, src: Source, off: i16)
    | JmpCond32(jop: JmpOp, dst: BpfReg, src: Source, off: i16)
    | Jump(off: i16)
    | Call(funcId: u32)
    | TailCall
    | Exit
    | Atomic(width: MemWidth, aop: AtomicOp, dst: BpfReg, value: BpfReg, off: i16)
    | Endian(toBe: bool, ewidth: EndianWidth, dst: BpfReg)
}
