/** RISC-V RV64 instruction words, packed as the encoder packs them. Registers are bytes, immediates
    32-bit signed integers. */
module RvEncode {
  import opened Casts

  /** The signed value of the low 12 bits. */
  function SignExtend12(val: int): (r: int)
    ensures -2048 <= r < 2048
  {
    if val % 4096 < 2048 then val % 4096 else val % 4096 - 4096
  }

  // ---------- formats ----------

  function RType(funct7: bv32, rs2: bv8, rs1: bv8, funct3: bv32, rd: bv8, opcode: bv32): bv32 {
    (funct7 << 25) | ((rs2 as bv32) << 20) | ((rs1 as bv32) << 15) | (funct3 << 12) | ((rd as bv32) << 7) | opcode
  }

  function IForm(imm12: bv32, rs1: bv8, funct3: bv32, rd: bv8, opcode: bv32): bv32 {
    ((imm12 & 0xFFF) << 20) | ((rs1 as bv32) << 15) | (funct3 << 12) | ((rd as bv32) << 7) | opcode
  }

  function IType(imm: int, rs1: bv8, funct3: bv32, rd: bv8, opcode: bv32): bv32 {
    IForm(AsU32(imm), rs1, funct3, rd, opcode)
  }

  function SForm(imm: bv32, rs2: bv8, rs1: bv8, funct3: bv32, opcode: bv32): bv32 {
    (((imm >> 5) & 0x7F) << 25) | ((rs2 as bv32) << 20) | ((rs1 as bv32) << 15) | (funct3 << 12)
    | ((imm & 0x1F) << 7) | opcode
  }

  function SType(imm: int, rs2: bv8, rs1: bv8, funct3: bv32, opcode: bv32): bv32 {
    SForm(AsU32(imm) & 0xFFF, rs2, rs1, funct3, opcode)
  }

  /** The scattered immediate of a branch: bits 12, 10 to 5, 4 to 1 and 11. */
  function BImmBits(imm: bv32): bv32 {
    (((imm >> 12) & 1) << 31) | (((imm >> 5) & 0x3F) << 25) | (((imm >> 1) & 0xF) << 8) | (((imm >> 11) & 1) << 7)
  }

  function EncodeBTypeImm(imm: int): bv32 { BImmBits(AsU32(imm) & 0x1FFE) }

  function Btype(imm: int, rs1: bv8, rs2: bv8, funct3: bv32): bv32 {
    EncodeBTypeImm(imm) | ((rs2 as bv32) << 20) | ((rs1 as bv32) << 15) | (funct3 << 12) | 0x63
  }

  /** The scattered immediate of a jump: bits 20, 10 to 1, 11 and 19 to 12. */
  function JImmBits(imm: bv32): bv32 {
    (((imm >> 20) & 1) << 31) | (((imm >> 1) & 0x3FF) << 21) | (((imm >> 11) & 1) << 20) | (((imm >> 12) & 0xFF) << 12)
  }

  function EncodeJTypeImm(imm: int): bv32 { JImmBits(AsU32(imm)) }

  // ---------- register-register ----------

  function RvAdd(rd: bv8, rs1: bv8, rs2: bv8): bv32 { RType(0, rs2, rs1, 0, rd, 0x33) }
  function RvSub(rd: bv8, rs1: bv8, rs2: bv8): bv32 { RType(0x20, rs2, rs1, 0, rd, 0x33) }
  function RvSll(rd: bv8, rs1: bv8, rs2: bv8): bv32 { RType(0, rs2, rs1, 1, rd, 0x33) }
  function RvSrl(rd: bv8, rs1: bv8, rs2: bv8): bv32 { RType(0, rs2, rs1, 5, rd, 0x33) }
  function RvSra(rd: bv8, rs1: bv8, rs2: bv8): bv32 { RType(0x20, rs2, rs1, 5, rd, 0x33) }
  function RvOr(rd: bv8, rs1: bv8, rs2: bv8): bv32 { RType(0, rs2, rs1, 6, rd, 0x33) }
  function RvAnd(rd: bv8, rs1: bv8, rs2: bv8): bv32 { RType(0, rs2, rs1, 7, rd, 0x33) }
  function RvXor(rd: bv8, rs1: bv8, rs2: bv8): bv32 { RType(0, rs2, rs1, 4, rd, 0x33) }
  function RvMul(rd: bv8, rs1: bv8, rs2: bv8): bv32 { RType(1, rs2, rs1, 0, rd, 0x33) }
  function RvDivu(rd: bv8, rs1: bv8, rs2: bv8): bv32 { RType(1, rs2, rs1, 5, rd, 0x33) }
  function RvRemu(rd: bv8, rs1: bv8, rs2: bv8): bv32 { RType(1, rs2, rs1, 7, rd, 0x33) }

  function RvAddw(rd: bv8, rs1: bv8, rs2: bv8): bv32 { RType(0, rs2, rs1, 0, rd, 0x3B) }
  function RvSubw(rd: bv8, rs1: bv8, rs2: bv8): bv32 { RType(0x20, rs2, rs1, 0, rd, 0x3B) }
  function RvSllw(rd: bv8, rs1: bv8, rs2: bv8): bv32 { RType(0, rs2, rs1, 1, rd, 0x3B) }
  function RvSrlw(rd: bv8, rs1: bv8, rs2: bv8): bv32 { RType(0, rs2, rs1, 5, rd, 0x3B) }
  function RvSraw(rd: bv8, rs1: bv8, rs2: bv8): bv32 { RType(0x20, rs2, rs1, 5, rd, 0x3B) }
  function RvMulw(rd: bv8, rs1: bv8, rs2: bv8): bv32 { RType(1, rs2, rs1, 0, rd, 0x3B) }
  function RvDivuw(rd: bv8, rs1: bv8, rs2: bv8): bv32 { RType(1, rs2, rs1, 5, rd, 0x3B) }
  function RvRemuw(rd: bv8, rs1: bv8, rs2: bv8): bv32 { RType(1, rs2, rs1, 7, rd, 0x3B) }

  // ---------- immediates, loads, jumps ----------

  function Addi(rd: bv8, rs1: bv8, imm: int): bv32 { IType(imm, rs1, 0, rd, 0x13) }
  function Andi(rd: bv8, rs1: bv8, imm: int): bv32 { IType(imm, rs1, 7, rd, 0x13) }
  function Ori(rd: bv8, rs1: bv8, imm: int): bv32 { IType(imm, rs1, 6, rd, 0x13) }
  function Xori(rd: bv8, rs1: bv8, imm: int): bv32 { IType(imm, rs1, 4, rd, 0x13) }

  function ShiftForm(base: bv32, rd: bv8, rs1: bv8, shamt: bv32): bv32 {
    base | ((shamt & 0x3F) << 20) | ((rs1 as bv32) << 15) | ((rd as bv32) << 7)
  }

  function Slli(rd: bv8, rs1: bv8, shamt: nat): bv32 { ShiftForm(0x1013, rd, rs1, AsU32(shamt)) }
  function Srli(rd: bv8, rs1: bv8, shamt: nat): bv32 { ShiftForm(0x5013, rd, rs1, AsU32(shamt)) }
  function Srai(rd: bv8, rs1: bv8, shamt: nat): bv32 { ShiftForm(0x40005013, rd, rs1, AsU32(shamt)) }

  function Jalr(rd: bv8, rs1: bv8, imm: int): bv32 { IType(imm, rs1, 0, rd, 0x67) }
  function Lbu(rd: bv8, rs1: bv8, imm: int): bv32 { IType(imm, rs1, 4, rd, 0x03) }
  function Lhu(rd: bv8, rs1: bv8, imm: int): bv32 { IType(imm, rs1, 5, rd, 0x03) }
  function Lwu(rd: bv8, rs1: bv8, imm: int): bv32 { IType(imm, rs1, 6, rd, 0x03) }
  function Ld(rd: bv8, rs1: bv8, imm: int): bv32 { IType(imm, rs1, 3, rd, 0x03) }

  function Sb(rs2: bv8, rs1: bv8, imm: int): bv32 { SType(imm, rs2, rs1, 0, 0x23) }
  function Sh(rs2: bv8, rs1: bv8, imm: int): bv32 { SType(imm, rs2, rs1, 1, 0x23) }
  function Sw(rs2: bv8, rs1: bv8, imm: int): bv32 { SType(imm, rs2, rs1, 2, 0x23) }
  function Sd(rs2: bv8, rs1: bv8, imm: int): bv32 { SType(imm, rs2, rs1, 3, 0x23) }

  /** The immediate is used as it is: its own low 12 bits are dropped, not shifted out. */
  function Lui(rd: bv8, imm: int): bv32 { (AsU32(imm) & 0xFFFFF000) | ((rd as bv32) << 7) | 0x37 }

  function Beq(rs1: bv8, rs2: bv8, imm: int): bv32 { Btype(imm, rs1, rs2, 0) }
  function Bne(rs1: bv8, rs2: bv8, imm: int): bv32 { Btype(imm, rs1, rs2, 1) }
  function Blt(rs1: bv8, rs2: bv8, imm: int): bv32 { Btype(imm, rs1, rs2, 4) }
  function Bge(rs1: bv8, rs2: bv8, imm: int): bv32 { Btype(imm, rs1, rs2, 5) }
  function Bltu(rs1: bv8, rs2: bv8, imm: int): bv32 { Btype(imm, rs1, rs2, 6) }
  function Bgeu(rs1: bv8, rs2: bv8, imm: int): bv32 { Btype(imm, rs1, rs2, 7) }

  function Jal(rd: bv8, imm: int): bv32 { EncodeJTypeImm(imm) | ((rd as bv32) << 7) | 0x6F }

  // ---------- atomics and fences ----------

  /** Acquire and release are always set. */
  function Amo(funct5: bv32, rs2: bv8, rs1: bv8, rd: bv8): bv32 {
    (funct5 << 27) | 0x06000000 | ((rs2 as bv32) << 20) | ((rs1 as bv32) << 15) | 0x3000 | ((rd as bv32) << 7) | 0x2F
  }

  function AmoaddD(rd: bv8, rs2: bv8, rs1: bv8): bv32 { Amo(0x00, rs2, rs1, rd) }
  function AmoorD(rd: bv8, rs2: bv8, rs1: bv8): bv32 { Amo(0x08, rs2, rs1, rd) }
  function AmoandD(rd: bv8, rs2: bv8, rs1: bv8): bv32 { Amo(0x0C, rs2, rs1, rd) }
  function AmoxorD(rd: bv8, rs2: bv8, rs1: bv8): bv32 { Amo(0x04, rs2, rs1, rd) }
  function AmoswapD(rd: bv8, rs2: bv8, rs1: bv8): bv32 { Amo(0x01, rs2, rs1, rd) }
  function LrD(rd: bv8, rs1: bv8): bv32 { Amo(0x02, 0, rs1, rd) }
  function ScD(rd: bv8, rs2: bv8, rs1: bv8): bv32 { Amo(0x03, rs2, rs1, rd) }
  function FenceRwRw(): bv32 { 0x0330000F }
}
