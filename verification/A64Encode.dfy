/** AArch64 instruction words, packed as the encoder packs them. Register and condition numbers
    are bytes; immediates have the width of the encoder's parameters. */
module A64Encode {
  import opened Isa
  import opened Casts

  const CC_EQ: bv8 := 0x0
  const CC_NE: bv8 := 0x1
  const CC_HS: bv8 := 0x2
  const CC_LO: bv8 := 0x3
  const CC_HI: bv8 := 0x8
  const CC_LS: bv8 := 0x9
  const CC_GE: bv8 := 0xA
  const CC_LT: bv8 := 0xB
  const CC_GT: bv8 := 0xC
  const CC_LE: bv8 := 0xD
  const CC_AL: bv8 := 0xE

  // ---------- data processing, three registers ----------

  function RegReg(base: bv32, rd: bv8, rn: bv8, rm: bv8): bv32 {
    base | ((rm as bv32) << 16) | ((rn as bv32) << 5) | (rd as bv32)
  }

  function AddX(rd: bv8, rn: bv8, rm: bv8): bv32 { RegReg(0x8B000000, rd, rn, rm) }
  function SubX(rd: bv8, rn: bv8, rm: bv8): bv32 { RegReg(0xCB000000, rd, rn, rm) }
  function MulX(rd: bv8, rn: bv8, rm: bv8): bv32 { RegReg(0x9B007C00, rd, rn, rm) }
  function UdivX(rd: bv8, rn: bv8, rm: bv8): bv32 { RegReg(0x9AC00800, rd, rn, rm) }
  function OrrX(rd: bv8, rn: bv8, rm: bv8): bv32 { RegReg(0xAA000000, rd, rn, rm) }
  function AndX(rd: bv8, rn: bv8, rm: bv8): bv32 { RegReg(0x8A000000, rd, rn, rm) }
  function EorX(rd: bv8, rn: bv8, rm: bv8): bv32 { RegReg(0xCA000000, rd, rn, rm) }
  function LslvX(rd: bv8, rn: bv8, rm: bv8): bv32 { RegReg(0x9AC02000, rd, rn, rm) }
  function LsrvX(rd: bv8, rn: bv8, rm: bv8): bv32 { RegReg(0x9AC02400, rd, rn, rm) }
  function AsrvX(rd: bv8, rn: bv8, rm: bv8): bv32 { RegReg(0x9AC02800, rd, rn, rm) }
  function MovX(rd: bv8, rm: bv8): bv32 { OrrX(rd, 31, rm) }

  function MsubX(rd: bv8, rn: bv8, rm: bv8, ra: bv8): bv32 {
    0x9B008000 | ((rm as bv32) << 16) | ((ra as bv32) << 10) | ((rn as bv32) << 5) | (rd as bv32)
  }

  function AddW(rd: bv8, rn: bv8, rm: bv8): bv32 { RegReg(0x0B000000, rd, rn, rm) }
  function SubW(rd: bv8, rn: bv8, rm: bv8): bv32 { RegReg(0x4B000000, rd, rn, rm) }
  function MulW(rd: bv8, rn: bv8, rm: bv8): bv32 { RegReg(0x1B007C00, rd, rn, rm) }
  function UdivW(rd: bv8, rn: bv8, rm: bv8): bv32 { RegReg(0x1AC00800, rd, rn, rm) }
  function OrrW(rd: bv8, rn: bv8, rm: bv8): bv32 { RegReg(0x2A000000, rd, rn, rm) }
  function AndW(rd: bv8, rn: bv8, rm: bv8): bv32 { RegReg(0x0A000000, rd, rn, rm) }
  function EorW(rd: bv8, rn: bv8, rm: bv8): bv32 { RegReg(0x4A000000, rd, rn, rm) }
  function LslvW(rd: bv8, rn: bv8, rm: bv8): bv32 { RegReg(0x1AC02000, rd, rn, rm) }
  function LsrvW(rd: bv8, rn: bv8, rm: bv8): bv32 { RegReg(0x1AC02400, rd, rn, rm) }
  function AsrvW(rd: bv8, rn: bv8, rm: bv8): bv32 { RegReg(0x1AC02800, rd, rn, rm) }
  function MovW(rd: bv8, rm: bv8): bv32 { OrrW(rd, 31, rm) }

  function MsubW(rd: bv8, rn: bv8, rm: bv8, ra: bv8): bv32 {
    0x1B008000 | ((rm as bv32) << 16) | ((ra as bv32) << 10) | ((rn as bv32) << 5) | (rd as bv32)
  }

  // ---------- data processing, immediate ----------

  function Imm12Form(base: bv32, rd: bv8, rn: bv8, imm12: bv16): bv32 {
    base | (((imm12 as bv32) & 0xFFF) << 10) | ((rn as bv32) << 5) | (rd as bv32)
  }

  function AddXImm(rd: bv8, rn: bv8, imm12: bv16): bv32 { Imm12Form(0x91000000, rd, rn, imm12) }
  function SubXImm(rd: bv8, rn: bv8, imm12: bv16): bv32 { Imm12Form(0xD1000000, rd, rn, imm12) }
  function AddWImm(rd: bv8, rn: bv8, imm12: bv16): bv32 { Imm12Form(0x11000000, rd, rn, imm12) }
  function SubWImm(rd: bv8, rn: bv8, imm12: bv16): bv32 { Imm12Form(0x51000000, rd, rn, imm12) }

  function MovWide(base: bv32, rd: bv8, imm16: bv16, hw: bv32): bv32 {
    base | (hw << 21) | ((imm16 as bv32) << 5) | (rd as bv32)
  }

  function MovzX(rd: bv8, imm16: bv16, hw: bv8): bv32 { MovWide(0xD2800000, rd, imm16, (hw as bv32) & 3) }
  function MovkX(rd: bv8, imm16: bv16, hw: bv8): bv32 { MovWide(0xF2800000, rd, imm16, (hw as bv32) & 3) }
  function MovzW(rd: bv8, imm16: bv16, hw: bv8): bv32 { MovWide(0x52800000, rd, imm16, (hw as bv32) & 1) }
  function MovkW(rd: bv8, imm16: bv16, hw: bv8): bv32 { MovWide(0x72800000, rd, imm16, (hw as bv32) & 1) }

  function LslXImm(rd: bv8, rn: bv8, shift: bv8): bv32 {
    var immr := (64 - shift) & 63;
    var imms := (63 - shift) & 63;
    0xD3400000 | ((immr as bv32) << 16) | ((imms as bv32) << 10) | ((rn as bv32) << 5) | (rd as bv32)
  }

  function LsrXImm(rd: bv8, rn: bv8, shift: bv8): bv32 {
    0xD340FC00 | (((shift & 63) as bv32) << 16) | ((rn as bv32) << 5) | (rd as bv32)
  }

  function AsrXImm(rd: bv8, rn: bv8, shift: bv8): bv32 {
    0x9340FC00 | (((shift & 63) as bv32) << 16) | ((rn as bv32) << 5) | (rd as bv32)
  }

  function AndXMask(rd: bv8, rn: bv8): bv32 { 0x92400F00 | ((rn as bv32) << 5) | (rd as bv32) }

  // ---------- compare and branch ----------

  function CmpX(rn: bv8, rm: bv8): bv32 { 0xEB000000 | ((rm as bv32) << 16) | ((rn as bv32) << 5) | 31 }
  function CmpW(rn: bv8, rm: bv8): bv32 { 0x6B000000 | ((rm as bv32) << 16) | ((rn as bv32) << 5) | 31 }

  function BCond(cond: bv8, imm19: int): bv32 {
    0x54000000 | ((AsU32(imm19) & 0x7FFFF) << 5) | (cond as bv32)
  }

  function BImm(imm26: int): bv32 { 0x14000000 | (AsU32(imm26) & 0x03FFFFFF) }

  function Blr(rn: bv8): bv32 { 0xD63F0000 | ((rn as bv32) << 5) }
  function Ret(): bv32 { 0xD65F03C0 }

  // ---------- loads and stores ----------

  function ScaledForm(base: bv32, rt: bv8, rn: bv8, scaled: bv16): bv32 {
    base | ((scaled as bv32) << 10) | ((rn as bv32) << 5) | (rt as bv32)
  }

  function LdrX(rt: bv8, rn: bv8, off: i16): bv32 { ScaledForm(0xF9400000, rt, rn, AsU16(off) >> 3) }
  function LdrW(rt: bv8, rn: bv8, off: i16): bv32 { ScaledForm(0xB9400000, rt, rn, AsU16(off) >> 2) }
  function Ldrh(rt: bv8, rn: bv8, off: i16): bv32 { ScaledForm(0x79400000, rt, rn, AsU16(off) >> 1) }
  function Ldrb(rt: bv8, rn: bv8, off: i16): bv32 { ScaledForm(0x39400000, rt, rn, AsU16(off)) }
  function StrX(rt: bv8, rn: bv8, off: i16): bv32 { ScaledForm(0xF9000000, rt, rn, AsU16(off) >> 3) }
  function StrW(rt: bv8, rn: bv8, off: i16): bv32 { ScaledForm(0xB9000000, rt, rn, AsU16(off) >> 2) }
  function Strh(rt: bv8, rn: bv8, off: i16): bv32 { ScaledForm(0x79000000, rt, rn, AsU16(off) >> 1) }
  function Strb(rt: bv8, rn: bv8, off: i16): bv32 { ScaledForm(0x39000000, rt, rn, AsU16(off)) }

  function PairForm(base: bv32, rt1: bv8, rt2: bv8, rn: bv8, imm7: bv32): bv32 {
    base | (imm7 << 15) | ((rt2 as bv32) << 10) | ((rn as bv32) << 5) | (rt1 as bv32)
  }

  function Imm7(off: i16): bv32 { AsU32(TruncDiv(off, 8)) & 0x7F }

  function StpPre(rt1: bv8, rt2: bv8, rn: bv8, off: i16): bv32 { PairForm(0xA9800000, rt1, rt2, rn, Imm7(off)) }
  function LdpPost(rt1: bv8, rt2: bv8, rn: bv8, off: i16): bv32 { PairForm(0xA8C00000, rt1, rt2, rn, Imm7(off)) }
  function StpOffset(rt1: bv8, rt2: bv8, rn: bv8, off: i16): bv32 { PairForm(0xA9000000, rt1, rt2, rn, Imm7(off)) }
  function LdpOffset(rt1: bv8, rt2: bv8, rn: bv8, off: i16): bv32 { PairForm(0xA9400000, rt1, rt2, rn, Imm7(off)) }

  // ---------- atomics, barriers, byte reversal ----------

  function LdaddX(rs: bv8, rt: bv8, rn: bv8): bv32 { RegReg(0xF8E00000, rt, rn, rs) }
  function LdsetX(rs: bv8, rt: bv8, rn: bv8): bv32 { RegReg(0xF8E03000, rt, rn, rs) }
  function LdclrX(rs: bv8, rt: bv8, rn: bv8): bv32 { RegReg(0xF8E01000, rt, rn, rs) }
  function LdeorX(rs: bv8, rt: bv8, rn: bv8): bv32 { RegReg(0xF8E02000, rt, rn, rs) }
  function SwpX(rs: bv8, rt: bv8, rn: bv8): bv32 { RegReg(0xF8E08000, rt, rn, rs) }
  function CasX(rs: bv8, rt: bv8, rn: bv8): bv32 { RegReg(0xC8E07C00, rt, rn, rs) }
  function DmbIsh(): bv32 { 0xD5033BBF }
  function Rev16W(rd: bv8, rn: bv8): bv32 { 0x5AC00400 | ((rn as bv32) << 5) | (rd as bv32) }
  function RevW(rd: bv8, rn: bv8): bv32 { 0x5AC00800 | ((rn as bv32) << 5) | (rd as bv32) }
  function RevX(rd: bv8, rn: bv8): bv32 { 0xDAC00C00 | ((rn as bv32) << 5) | (rd as bv32) }
}
