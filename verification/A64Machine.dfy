/** An AArch64 machine for the instructions the emitter produces, after the Arm Architecture
    Reference Manual: decoding (section C4.1), condition codes (C1.2.4), instruction meaning (C6.2).
    It has X0-X30, SP, the NZCV flags and memory in eight-byte cells; the program counter counts
    words of the code buffer. */
module A64Machine {
  import opened Isa
  import opened Bits
  import opened Casts
  import opened Interpreter
  import opened Ir

  // ---------- decoding ----------

  datatype RegOp = OpAdd | OpSub | OpMul | OpUdiv | OpOrr | OpAnd | OpEor | OpLslv | OpLsrv | OpAsrv

  /** Byte reversal: of each halfword of a word, of a word, of a doubleword. */
  datatype RevOp = Rev16 | Rev32 | Rev64

  datatype Instr =
    | DataReg(is64: bool, rop: RegOp, rd: bv8, rn: bv8, rm: bv8)
    | MulSub(is64: bool, rd: bv8, rn: bv8, rm: bv8, ra: bv8)
    | AddSubImm(is64: bool, sub: bool, rd: bv8, rn: bv8, imm12: bv32)
    | MoveWide(is64: bool, keep: bool, rd: bv8, imm16: bv32, hw: bv32)
    | Bitfield(signed: bool, rd: bv8, rn: bv8, immr: bv32, imms: bv32)
    | Compare(is64: bool, rn: bv8, rm: bv8)
    | CondBranch(cond: bv8, imm19: bv32)
    | Branch(imm26: bv32)
    | Return(rn: bv8)
    | StorePair(pre: bool, rt: bv8, rt2: bv8, rn: bv8, imm7: bv32)
    | LoadPair(post: bool, rt: bv8, rt2: bv8, rn: bv8, imm7: bv32)
    | StoreReg64(rt: bv8, rn: bv8, imm12: bv32)
    | LoadReg64(rt: bv8, rn: bv8, imm12: bv32)
    | Reverse(rev: RevOp, rd: bv8, rn: bv8)
    | AndOnes(rd: bv8, rn: bv8, imms: bv32)
    | Undefined

  function FieldD(w: bv32): bv8 { (w & 31) as bv8 }
  function FieldN(w: bv32): bv8 { ((w >> 5) & 31) as bv8 }
  function FieldM(w: bv32): bv8 { ((w >> 16) & 31) as bv8 }
  function FieldA(w: bv32): bv8 { ((w >> 10) & 31) as bv8 }

  function RegOpOf(w: bv32): Option<RegOp> { RegOpByKey(w & 0x7FE0FC00) }

  function RegOpByKey(m: bv32): Option<RegOp> {
    if m == 0x0B000000 then Some(OpAdd)
    else if m == 0x4B000000 then Some(OpSub)
    else if m == 0x1B007C00 then Some(OpMul)
    else if m == 0x1AC00800 then Some(OpUdiv)
    else if m == 0x2A000000 then Some(OpOrr)
    else if m == 0x0A000000 then Some(OpAnd)
    else if m == 0x4A000000 then Some(OpEor)
    else if m == 0x1AC02000 then Some(OpLslv)
    else if m == 0x1AC02400 then Some(OpLsrv)
    else if m == 0x1AC02800 then Some(OpAsrv)
    else None
  }

  function DecodeDataReg(w: bv32): Instr {
    var is64 := w & 0x80000000 != 0;
    if RegOpOf(w).Some? then DataReg(is64, RegOpOf(w).value, FieldD(w), FieldN(w), FieldM(w))
    else if w & 0x7FE08000 == 0x1B008000 then MulSub(is64, FieldD(w), FieldN(w), FieldM(w), FieldA(w))
    else if w & 0x7FE0FC1F == 0x6B00001F then Compare(is64, FieldN(w), FieldM(w))
    else DecodeReverse(w)
  }

  function DecodeReverse(w: bv32): Instr {
    var key := w & 0xFFFFFC00;
    if key == 0x5AC00400 then Reverse(Rev16, FieldD(w), FieldN(w))
    else if key == 0x5AC00800 then Reverse(Rev32, FieldD(w), FieldN(w))
    else if key == 0xDAC00C00 then Reverse(Rev64, FieldD(w), FieldN(w))
    else Undefined
  }

  function DecodeDataImm(w: bv32): Instr {
    var is64 := w & 0x80000000 != 0;
    if w & 0x3FC00000 == 0x11000000 then
      AddSubImm(is64, w & 0x40000000 != 0, FieldD(w), FieldN(w), (w >> 10) & 0xFFF)
    else if w & 0x5F800000 == 0x52800000 && (is64 || w & 0x00400000 == 0) then
      MoveWide(is64, w & 0x20000000 != 0, FieldD(w), (w >> 5) & 0xFFFF, (w >> 21) & 3)
    else if w & 0xBFC00000 == 0x93400000 then
      Bitfield(w & 0x40000000 == 0, FieldD(w), FieldN(w), (w >> 16) & 63, (w >> 10) & 63)
    else DecodeMask(w)
  }

  /** AND with a mask of low ones, that is, a 64-bit bitmask immediate without rotation. */
  function DecodeMask(w: bv32): Instr {
    if w & 0xFFFF0000 == 0x92400000 && (w >> 10) & 63 != 63 then AndOnes(FieldD(w), FieldN(w), (w >> 10) & 63)
    else Undefined
  }

  function DecodeBranch(w: bv32): Instr {
    if w & 0xFF000010 == 0x54000000 then CondBranch((w & 15) as bv8, (w >> 5) & 0x7FFFF)
    else if w & 0xFC000000 == 0x14000000 then Branch(w & 0x3FFFFFF)
    else if w & 0xFFFFFC1F == 0xD65F0000 then Return(FieldN(w))
    else Undefined
  }

  function DecodeLoadStore(w: bv32): Instr {
    var key := w & 0xFFC00000;
    var imm7 := (w >> 15) & 0x7F;
    if key == 0xA9800000 then StorePair(true, FieldD(w), FieldA(w), FieldN(w), imm7)
    else if key == 0xA9000000 then StorePair(false, FieldD(w), FieldA(w), FieldN(w), imm7)
    else if key == 0xA8C00000 then LoadPair(true, FieldD(w), FieldA(w), FieldN(w), imm7)
    else if key == 0xA9400000 then LoadPair(false, FieldD(w), FieldA(w), FieldN(w), imm7)
    else if key == 0xF9000000 then StoreReg64(FieldD(w), FieldN(w), (w >> 10) & 0xFFF)
    else if key == 0xF9400000 then LoadReg64(FieldD(w), FieldN(w), (w >> 10) & 0xFFF)
    else Undefined
  }

  /** The main encoding groups, by bits 28 to 25. */
  function Decode(w: bv32): Instr {
    if w & 0x0E000000 == 0x0A000000 then DecodeDataReg(w)
    else if w & 0x1C000000 == 0x10000000 then DecodeDataImm(w)
    else if w & 0x1C000000 == 0x14000000 then DecodeBranch(w)
    else if w & 0x0A000000 == 0x08000000 then DecodeLoadStore(w)
    else Undefined
  }

  // ---------- state ----------

  datatype Flags = Flags(n: bool, z: bool, c: bool, v: bool)

  datatype A64 = A64(regs: PhysRegs, sp: u64, flags: Flags, mem: map<u64, u64>, pc: int)

  /** Register 31 reads as zero and ignores writes. */
  function X(m: A64, r: bv8): u64 {
    if r == 31 then 0 else Get(m.regs, PhysReg(r))
  }

  function SetX(m: A64, r: bv8, v: u64): A64 {
    if r == 31 then m else m.(regs := m.regs[PhysReg(r) := v])
  }

  /** Register operands at the instruction's width; a 32-bit result is zero-extended. */
  function Operand64or32(m: A64, is64: bool, r: bv8): u64 {
    if is64 then X(m, r) else Wrap32(X(m, r))
  }

  function Width(is64: bool): (w: nat)
    ensures w > 0
  {
    if is64 then 64 else 32
  }

  function Modulus(is64: bool): (w: nat)
    ensures w > 0
  {
    if is64 then TWO_64 else TWO_32
  }

  function SInt(is64: bool, x: u64): int {
    if x < Modulus(is64) / 2 then x else x - Modulus(is64)
  }

  function BitwiseWide(op: Logic, is64: bool, a: u64, b: u64): u64
    requires a < Modulus(is64) && b < Modulus(is64)
  {
    if is64 then Bitwise64(op, a, b) else Bitwise32(op, a, b)
  }

  function DataResult(is64: bool, op: RegOp, a: u64, b: u64): (r: u64)
    requires a < Modulus(is64) && b < Modulus(is64)
  {
    match op
    case OpAdd => (a + b) % Modulus(is64)
    case OpSub => (a - b) % Modulus(is64)
    case OpMul => (a * b) % Modulus(is64)
    case OpUdiv => if b == 0 then 0 else Quotient(a, b)
    case OpOrr => BitwiseWide(LOr, is64, a, b)
    case OpAnd => BitwiseWide(LAnd, is64, a, b)
    case OpEor => BitwiseWide(LXor, is64, a, b)
    case OpLslv => (a * Pow2(b % Width(is64))) % Modulus(is64)
    case OpLsrv => Quotient(a, Pow2(b % Width(is64)))
    case OpAsrv => FloorDiv(SInt(is64, a), Pow2(b % Width(is64))) % Modulus(is64)
  }

  function MsubResult(is64: bool, a: u64, n: u64, m: u64): u64 {
    (a - n * m) % Modulus(is64)
  }

  /** SP in place of register 31, as ADD/SUB (immediate) and addresses have it. */
  function XorSp(m: A64, r: bv8): u64 { if r == 31 then m.sp else X(m, r) }

  function SetXorSp(m: A64, r: bv8, v: u64): A64 { if r == 31 then m.(sp := v) else SetX(m, r, v) }

  /** Replace 16 bits of v at position `shift`. */
  function InsertChunk(v: u64, chunk: nat, shift: nat): u64 {
    (v - v / Pow2(shift) % TWO_16 * Pow2(shift) + chunk * Pow2(shift)) % TWO_64
  }

  function MoveWideResult(keep: bool, old': u64, imm16: nat, hw: nat): u64 {
    if keep then InsertChunk(old', imm16, 16 * hw) else imm16 * Pow2(16 * hw) % TWO_64
  }

  /** UBFM and SBFM, 64-bit: move the field that ends at bit imms to, or away from, bit 0. */
  function BitfieldResult(signed: bool, x: u64, immr: nat, imms: nat): u64
    requires immr < 64 && imms < 64
  {
    if imms >= immr then
      var width := imms - immr + 1;
      var field := x / Pow2(immr) % Pow2(width);
      (if signed && field >= Pow2(width - 1) then field - Pow2(width) else field) % TWO_64
    else
      var field := x % Pow2(imms + 1);
      (if signed && field >= Pow2(imms) then field - Pow2(imms + 1) else field) * Pow2(64 - immr) % TWO_64
  }

  function RevResult(op: RevOp, x: u64): u64 {
    match op
    case Rev16 => Swap16(x % TWO_16) + Swap16(x / TWO_16 % TWO_16) * TWO_16
    case Rev32 => Swap32(x % TWO_32)
    case Rev64 => Swap64(x)
  }

  /** The low n bits. */
  function MaskResult(x: u64, n: nat): u64 { Remainder(x, Pow2(n)) }

  /** AddWithCarry(x, NOT(y), 1): the flags of a comparison. */
  function CompareFlags(is64: bool, x: u64, y: u64): Flags
    requires x < Modulus(is64) && y < Modulus(is64)
  {
    var m := Modulus(is64);
    var notY := m - 1 - y;
    var unsignedSum := x + notY + 1;
    var signedSum := SInt(is64, x) + SInt(is64, notY) + 1;
    var result := unsignedSum % m;
    Flags(result >= m / 2, result == 0, result != unsignedSum, SInt(is64, result) != signedSum)
  }

  predicate ConditionHolds(cond: bv8, f: Flags) {
    var base :=
      if cond >> 1 == 0 then f.z
      else if cond >> 1 == 1 then f.c
      else if cond >> 1 == 2 then f.n
      else if cond >> 1 == 3 then f.v
      else if cond >> 1 == 4 then f.c && !f.z
      else if cond >> 1 == 5 then f.n == f.v
      else if cond >> 1 == 6 then f.n == f.v && !f.z
      else true;
    if cond & 1 == 1 && cond != 15 then !base else base
  }

  // ---------- execution ----------

  datatype Outcome = Go(m: A64) | Returns(m: A64) | Fault

  function Advance(m: A64): Outcome { Go(m.(pc := m.pc + 1)) }

  /** Eight-byte accesses must be aligned, and SP 16-byte aligned. */
  predicate Aligned(m: A64, rn: bv8, address: u64) {
    address % 8 == 0 && (rn == 31 ==> m.sp % 16 == 0)
  }

  function Cell(m: A64, address: u64): u64 { if address in m.mem then m.mem[address] else 0 }

  /** STP: store two registers, and, pre-indexed, move the base register there first. */
  function ExecuteStore(m: A64, pre: bool, rt: bv8, rt2: bv8, rn: bv8, offset: int): Outcome {
    var address := Wrap64(XorSp(m, rn) + offset);
    if !Aligned(m, rn, address) then Fault
    else
      var stored := m.(mem := m.mem[address := X(m, rt)][Wrap64((address as int) + 8) := X(m, rt2)]);
      Advance(if pre then SetXorSp(stored, rn, address) else stored)
  }

  /** LDP: load two registers, and, post-indexed, move the base register afterwards. */
  function ExecuteLoad(m: A64, post: bool, rt: bv8, rt2: bv8, rn: bv8, offset: int): Outcome {
    var address := if post then XorSp(m, rn) else Wrap64(XorSp(m, rn) + offset);
    if !Aligned(m, rn, address) then Fault
    else
      var loaded := SetX(SetX(m, rt, Cell(m, address)), rt2, Cell(m, Wrap64((address as int) + 8)));
      Advance(if post then SetXorSp(loaded, rn, Wrap64(address + offset)) else loaded)
  }

  function Execute(m: A64, i: Instr): Outcome {
    match i
    case DataReg(is64, op, rd, rn, rm) =>
      Advance(SetX(m, rd, DataResult(is64, op, Operand64or32(m, is64, rn), Operand64or32(m, is64, rm))))
    case MulSub(is64, rd, rn, rm, ra) =>
      Advance(SetX(m, rd, MsubResult(is64, Operand64or32(m, is64, ra), Operand64or32(m, is64, rn),
          Operand64or32(m, is64, rm))))
    case AddSubImm(is64, sub, rd, rn, imm12) =>
      var a := if is64 then XorSp(m, rn) else Wrap32(XorSp(m, rn));
      var b := FromWord(imm12, 12);
      Advance(SetXorSp(m, rd, (if sub then a - b else a + b) % Modulus(is64)))
    case MoveWide(is64, keep, rd, imm16, hw) =>
      var v := MoveWideResult(keep, Operand64or32(m, is64, rd), FromWord(imm16, 16), FromWord(hw, 2));
      Advance(SetX(m, rd, v % Modulus(is64)))
    case Bitfield(signed, rd, rn, immr, imms) =>
      if FromWord(immr, 6) < 64 && FromWord(imms, 6) < 64 then
        Advance(SetX(m, rd, BitfieldResult(signed, X(m, rn), FromWord(immr, 6), FromWord(imms, 6))))
      else Fault
    case Compare(is64, rn, rm) =>
      Advance(m.(flags := CompareFlags(is64, Operand64or32(m, is64, rn), Operand64or32(m, is64, rm))))
    case CondBranch(cond, imm19) =>
      if ConditionHolds(cond, m.flags) then Go(m.(pc := m.pc + SignedField(imm19, 19))) else Advance(m)
    case Branch(imm26) => Go(m.(pc := m.pc + SignedField(imm26, 26)))
    case Return(rn) => if rn == 30 then Returns(m) else Fault
    case StorePair(pre, rt, rt2, rn, imm7) => ExecuteStore(m, pre, rt, rt2, rn, 8 * SignedField(imm7, 7))
    case LoadPair(post, rt, rt2, rn, imm7) => ExecuteLoad(m, post, rt, rt2, rn, 8 * SignedField(imm7, 7))
    case StoreReg64(rt, rn, imm12) =>
      var address := Wrap64(XorSp(m, rn) + 8 * FromWord(imm12, 12));
      if !Aligned(m, rn, address) then Fault else Advance(m.(mem := m.mem[address := X(m, rt)]))
    case LoadReg64(rt, rn, imm12) =>
      var address := Wrap64(XorSp(m, rn) + 8 * FromWord(imm12, 12));
      if !Aligned(m, rn, address) then Fault else Advance(SetX(m, rt, Cell(m, address)))
    case Reverse(op, rd, rn) => Advance(SetX(m, rd, RevResult(op, X(m, rn))))
    case AndOnes(rd, rn, imms) => Advance(SetXorSp(m, rd, MaskResult(X(m, rn), FromWord(imms, 6) + 1)))
    case Undefined => Fault
  }

  /** Fetch, decode, execute. */
  function MachineStep(code: seq<bv32>, m: A64): Outcome {
    if 0 <= m.pc < |code| then Execute(m, Decode(code[m.pc])) else Fault
  }

  function MachineSteps(code: seq<bv32>, m: A64, k: nat): Option<A64>
    decreases k
  {
    if k == 0 then Some(m)
    else
      match MachineStep(code, m)
      case Go(n) => MachineSteps(code, n, k - 1)
      case _ => None
  }

  /** k steps lead from a to b. */
  predicate RunsTo(code: seq<bv32>, a: A64, k: nat, b: A64) {
    MachineSteps(code, a, k) == Some(b)
  }

  lemma RunsOne(code: seq<bv32>, a: A64, b: A64)
    requires MachineStep(code, a) == Go(b)
    ensures RunsTo(code, a, 1, b)
  {
    assert MachineSteps(code, b, 0) == Some(b);
  }

  lemma {:induction false} RunsCompose(code: seq<bv32>, a: A64, j: nat, k: nat)
    requires MachineSteps(code, a, j).Some?
    ensures MachineSteps(code, a, j + k) == MachineSteps(code, MachineSteps(code, a, j).value, k)
    decreases j
  {
    hide MachineStep;
    if j > 0 {
      RunsCompose(code, MachineStep(code, a).m, j - 1, k);
      assert j + k - 1 == j - 1 + k;
    }
  }

  lemma RunsChain(code: seq<bv32>, a: A64, j: nat, b: A64, k: nat, c: A64) returns (n: nat)
    requires RunsTo(code, a, j, b) && RunsTo(code, b, k, c)
    ensures n == j + k && RunsTo(code, a, n, c)
  {
    hide MachineSteps;
    RunsCompose(code, a, j, k);
    n := j + k;
  }

  /** What has run once has run all its shorter ways. */
  lemma {:induction false} RanBefore(code: seq<bv32>, a: A64, j: nat, k: nat)
    requires MachineSteps(code, a, k).Some? && j <= k
    ensures MachineSteps(code, a, j).Some?
    decreases j
  {
    hide MachineStep;
    if j > 0 {
      RanBefore(code, MachineStep(code, a).m, j - 1, k - 1);
    }
  }
}
