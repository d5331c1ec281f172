/** A RISC-V RV64 machine for the instructions that the emitter produces exactly, after the RISC-V
    Unprivileged ISA 20191213: formats (section 2.3), control transfer (2.5), RV64I (chapter 5),
    multiplication and division (chapter 7). The program counter counts bytes. */
module RvMachine {
  import opened Isa
  import opened Bits
  import opened Casts
  import opened Interpreter
  import opened Ir

  // ---------- instructions ----------

  datatype RvOp = OpAdd | OpSub | OpSll | OpSrl | OpSra | OpOr | OpAnd | OpXor | OpMul | OpDivu | OpRemu

  datatype RvCond = Eq | Ne | Lt | Ge | Ltu | Geu

  datatype RvInstr =
    | Register(word: bool, op: RvOp, rd: bv8, rs1: bv8, rs2: bv8)
    | Immediate(op: RvOp, rd: bv8, rs1: bv8, imm12: bv32)
    | ShiftImm(op: RvOp, rd: bv8, rs1: bv8, shamt: bv32)
    | LoadUpper(rd: bv8, imm20: bv32)
    | BranchIf(cond: RvCond, rs1: bv8, rs2: bv8, offset13: bv32)
    | JumpLink(rd: bv8, offset21: bv32)
    | JumpReg(rd: bv8, rs1: bv8, imm12: bv32)
    | LoadDouble(rd: bv8, rs1: bv8, imm12: bv32)
    | StoreDouble(rs2: bv8, rs1: bv8, imm12: bv32)
    | Illegal

  // ---------- decoding ----------

  function Opcode(w: bv32): bv32 { w & 0x7F }
  function Funct3(w: bv32): bv32 { (w >> 12) & 7 }
  function Upper(w: bv32): bv32 { w >> 12 }
  function Rd(w: bv32): bv8 { ((w >> 7) & 31) as bv8 }
  function Rs1(w: bv32): bv8 { ((w >> 15) & 31) as bv8 }
  function Rs2(w: bv32): bv8 { ((w >> 20) & 31) as bv8 }

  /** The operation, by funct7 and funct3. */
  function OpOf(funct7: bv32, funct3: bv32): Option<RvOp> {
    if funct7 == 0 then
      if funct3 == 0 then Some(OpAdd)
      else if funct3 == 1 then Some(OpSll)
      else if funct3 == 4 then Some(OpXor)
      else if funct3 == 5 then Some(OpSrl)
      else if funct3 == 6 then Some(OpOr)
      else if funct3 == 7 then Some(OpAnd)
      else None
    else if funct7 == 0x20 then
      if funct3 == 0 then Some(OpSub) else if funct3 == 5 then Some(OpSra) else None
    else if funct7 == 1 then
      if funct3 == 0 then Some(OpMul) else if funct3 == 5 then Some(OpDivu) else if funct3 == 7 then
         Some(OpRemu) else None
    else None
  }

  predicate HasWordForm(op: RvOp) { op != OpOr && op != OpAnd && op != OpXor }

  function DecodeRegister(word: bool, w: bv32): RvInstr {
    match OpOf(w >> 25, Funct3(w))
    case Some(op) => if word && !HasWordForm(op) then Illegal else Register(word, op, Rd(w), Rs1(w), Rs2(w))
    case None => Illegal
  }

  function DecodeImmediate(w: bv32): RvInstr {
    var funct3 := Funct3(w);
    if funct3 == 0 then Immediate(OpAdd, Rd(w), Rs1(w), w >> 20)
    else if funct3 == 4 then Immediate(OpXor, Rd(w), Rs1(w), w >> 20)
    else if funct3 == 6 then Immediate(OpOr, Rd(w), Rs1(w), w >> 20)
    else if funct3 == 7 then Immediate(OpAnd, Rd(w), Rs1(w), w >> 20)
    else if funct3 == 1 && w >> 26 == 0 then ShiftImm(OpSll, Rd(w), Rs1(w), (w >> 20) & 63)
    else if funct3 == 5 && w >> 26 == 0 then ShiftImm(OpSrl, Rd(w), Rs1(w), (w >> 20) & 63)
    else if funct3 == 5 && w >> 26 == 0x10 then ShiftImm(OpSra, Rd(w), Rs1(w), (w >> 20) & 63)
    else Illegal
  }

  function CondOf(funct3: bv32): Option<RvCond> {
    if funct3 == 0 then Some(Eq)
    else if funct3 == 1 then Some(Ne)
    else if funct3 == 4 then Some(Lt)
    else if funct3 == 5 then Some(Ge)
    else if funct3 == 6 then Some(Ltu)
    else if funct3 == 7 then Some(Geu)
    else None
  }

  /** The offset of a branch, reassembled: bits 12, 11, 10 to 5 and 4 to 1; bit 0 is zero. */
  function BOffset(w: bv32): bv32 {
    (((w >> 31) & 1) << 12) | (((w >> 7) & 1) << 11) | (((w >> 25) & 0x3F) << 5) | (((w >> 8) & 0xF) << 1)
  }

  /** The offset of a jump: bits 20, 19 to 12, 11 and 10 to 1. */
  function JOffset(w: bv32): bv32 {
    (((w >> 31) & 1) << 20) | (((w >> 12) & 0xFF) << 12) | (((w >> 20) & 1) << 11) | (((w >> 21) & 0x3FF) << 1)
  }

  function DecodeBranch(w: bv32): RvInstr {
    match CondOf(Funct3(w))
    case Some(c) => BranchIf(c, Rs1(w), Rs2(w), BOffset(w))
    case None => Illegal
  }

  function SOffset(w: bv32): bv32 { ((w >> 25) << 5) | ((w >> 7) & 31) }

  function Decode(w: bv32): RvInstr {
    var opcode := Opcode(w);
    var funct3 := Funct3(w);
    if opcode == 0x33 then DecodeRegister(false, w)
    else if opcode == 0x3B then DecodeRegister(true, w)
    else if opcode == 0x13 then DecodeImmediate(w)
    else if opcode == 0x37 then LoadUpper(Rd(w), Upper(w))
    else if opcode == 0x63 then DecodeBranch(w)
    else if opcode == 0x6F then JumpLink(Rd(w), JOffset(w))
    else if opcode == 0x67 && funct3 == 0 then JumpReg(Rd(w), Rs1(w), w >> 20)
    else if opcode == 0x03 && funct3 == 3 then LoadDouble(Rd(w), Rs1(w), w >> 20)
    else if opcode == 0x23 && funct3 == 3 then StoreDouble(Rs2(w), Rs1(w), SOffset(w))
    else Illegal
  }

  // ---------- state ----------

  datatype Rv = Rv(regs: PhysRegs, mem: map<u64, u64>, pc: int)

  /** Register 0 reads as zero and ignores writes. */
  function R(m: Rv, r: bv8): u64 { if r == 0 then 0 else Get(m.regs, PhysReg(r)) }

  function SetR(m: Rv, r: bv8, v: u64): Rv {
    if r == 0 then m else m.(regs := m.regs[PhysReg(r) := v])
  }

  /** A 32-bit result, sign-extended. */
  function SignExtend32(r: u32): u64 { if r < TWO_31 then r else r + TWO_64 - TWO_32 }

  function Result64(op: RvOp, a: u64, b: u64): u64 {
    match op
    case OpAdd => Wrap64(a + b)
    case OpSub => Wrap64(a - b)
    case OpMul => Wrap64(a * b)
    case OpDivu => if b == 0 then TWO_64 - 1 else Quotient(a, b)
    case OpRemu => if b == 0 then a else Remainder(a, b)
    case OpOr => Bitwise64(LOr, a, b)
    case OpAnd => Bitwise64(LAnd, a, b)
    case OpXor => Bitwise64(LXor, a, b)
    case OpSll => Wrap64(a * Pow2(b % 64))
    case OpSrl => Quotient(a, Pow2(b % 64))
    case OpSra => Wrap64(FloorDiv(AsI64(a), Pow2(b % 64)))
  }

  /** The word operations, on the low halves. */
  function Result32(op: RvOp, a: u32, b: u32): u32
    requires HasWordForm(op)
  {
    match op
    case OpAdd => Wrap32(a + b)
    case OpSub => Wrap32(a - b)
    case OpMul => Wrap32(a * b)
    case OpDivu => if b == 0 then TWO_32 - 1 else Quotient(a, b)
    case OpRemu => if b == 0 then a else Remainder(a, b)
    case OpSll => Wrap32(a * Pow2(b % 32))
    case OpSrl => Quotient(a, Pow2(b % 32))
    case OpSra => Wrap32(FloorDiv(AsI32(a), Pow2(b % 32)))
  }

  predicate Compare(c: RvCond, a: u64, b: u64) {
    match c
    case Eq => a == b
    case Ne => a != b
    case Lt => AsI64(a) < AsI64(b)
    case Ge => AsI64(a) >= AsI64(b)
    case Ltu => a < b
    case Geu => a >= b
  }

  // ---------- execution ----------

  datatype Outcome = Go(m: Rv) | Fault

  function Advance(m: Rv): Outcome { Go(m.(pc := m.pc + 4)) }

  function Cell(m: Rv, address: u64): u64 { if address in m.mem then m.mem[address] else 0 }

  function Imm12(field: bv32): int { SignedField(field, 12) }

  /** Eight-byte accesses must be aligned. */
  function ExecuteLoad(m: Rv, rd: bv8, address: u64): Outcome {
    if address % 8 != 0 then Fault else Advance(SetR(m, rd, Cell(m, address)))
  }

  function ExecuteStore(m: Rv, value: u64, address: u64): Outcome {
    if address % 8 != 0 then Fault else Advance(m.(mem := m.mem[address := value]))
  }

  function Execute(m: Rv, i: RvInstr): Outcome {
    match i
    case Register(word, op, rd, rs1, rs2) =>
      if !word then Advance(SetR(m, rd, Result64(op, R(m, rs1), R(m, rs2))))
      else if HasWordForm(op) then
           Advance(SetR(m, rd, SignExtend32(Result32(op, Wrap32(R(m, rs1)), Wrap32(R(m, rs2))))))
      else Fault
    case Immediate(op, rd, rs1, imm12) => Advance(SetR(m, rd, Result64(op, R(m, rs1), Wrap64(Imm12(imm12)))))
    case ShiftImm(op, rd, rs1, shamt) => Advance(SetR(m, rd, Result64(op, R(m, rs1), FromWord(shamt, 6))))
    case LoadUpper(rd, imm20) => Advance(SetR(m, rd, SignExtend32(4096 * FromWord(imm20, 20) % TWO_32)))
    case BranchIf(c, rs1, rs2, offset) =>
      Go(m.(pc := m.pc + (if Compare(c, R(m, rs1), R(m, rs2)) then SignedField(offset, 13) else 4)))
    case JumpLink(rd, offset) => Go(SetR(m, rd, Wrap64(m.pc + 4)).(pc := m.pc + SignedField(offset, 21)))
    case JumpReg(rd, rs1, imm12) => Go(SetR(m, rd, Wrap64(m.pc + 4)).(pc := Wrap64(R(m, rs1) + Imm12(imm12)) / 2 * 2))
    case LoadDouble(rd, rs1, imm12) => ExecuteLoad(m, rd, Wrap64(R(m, rs1) + Imm12(imm12)))
    case StoreDouble(rs2, rs1, imm12) => ExecuteStore(m, R(m, rs2), Wrap64(R(m, rs1) + Imm12(imm12)))
    case Illegal => Fault
  }

  // ---------- straight-line code ----------

  /** Executes words that only fall through; None if one faults or transfers control. */
  function ExecWords(ws: seq<bv32>, m: Rv): Option<Rv> {
    if ws == [] then Some(m)
    else
      match Execute(m, Decode(ws[0]))
      case Go(n) => if n.pc == m.pc + 4 then ExecWords(ws[1..], n) else None
      case Fault => None
  }

  predicate Straight(ws: seq<bv32>, m: Rv, n: Rv) { ExecWords(ws, m) == Some(n) }

  lemma StraightOne(w: bv32, m: Rv, n: Rv)
    requires Execute(m, Decode(w)) == Go(n) && n.pc == m.pc + 4
    ensures Straight([w], m, n)
  {
    hide Execute, Decode;
    assert ExecWords([], n) == Some(n);
    assert [w][1..] == [];
  }

  lemma {:induction false} ExecAppend(a: seq<bv32>, b: seq<bv32>, m: Rv)
    requires ExecWords(a, m).Some?
    ensures ExecWords(a + b, m) == ExecWords(b, ExecWords(a, m).value)
    decreases |a|
  {
    hide Execute, Decode;
    if a == [] {
      assert a + b == b;
    } else {
      assert (a + b)[1..] == a[1..] + b;
      ExecAppend(a[1..], b, Execute(m, Decode(a[0])).m);
    }
  }

  lemma StraightAppend(a: seq<bv32>, b: seq<bv32>, m: Rv, n: Rv, o: Rv)
    requires Straight(a, m, n) && Straight(b, n, o)
    ensures Straight(a + b, m, o)
  {
    ExecAppend(a, b, m);
  }

  lemma {:induction false} StraightPc(ws: seq<bv32>, m: Rv, n: Rv)
    requires Straight(ws, m, n)
    ensures n.pc == m.pc + 4 * |ws|
    decreases |ws|
  {
    hide Execute, Decode;
    if ws != [] {
      StraightPc(ws[1..], Execute(m, Decode(ws[0])).m, n);
    }
  }

  // ---------- running code ----------

  /** Fetch, decode, execute. */
  function MachineStep(code: seq<bv32>, m: Rv): Outcome {
    if m.pc % 4 == 0 && 0 <= m.pc / 4 < |code| then Execute(m, Decode(code[m.pc / 4])) else Fault
  }

  function MachineSteps(code: seq<bv32>, m: Rv, k: nat): Option<Rv>
    decreases k
  {
    if k == 0 then Some(m)
    else
      match MachineStep(code, m)
      case Go(n) => MachineSteps(code, n, k - 1)
      case Fault => None
  }

  /** k steps lead from a to b. */
  predicate RunsTo(code: seq<bv32>, a: Rv, k: nat, b: Rv) { MachineSteps(code, a, k) == Some(b) }

  lemma RunsOne(code: seq<bv32>, a: Rv, b: Rv)
    requires MachineStep(code, a) == Go(b)
    ensures RunsTo(code, a, 1, b)
  {
    assert MachineSteps(code, b, 0) == Some(b);
  }

  lemma RunsNowhere(code: seq<bv32>, a: Rv)
    ensures RunsTo(code, a, 0, a)
  {}

  lemma {:induction false} RunsCompose(code: seq<bv32>, a: Rv, j: nat, k: nat)
    requires MachineSteps(code, a, j).Some?
    ensures MachineSteps(code, a, j + k) == MachineSteps(code, MachineSteps(code, a, j).value, k)
    decreases j
  {
    hide MachineStep;
    if j > 0 {
      RunsCompose(code, MachineStep(code, a).m, j - 1, k);
      assert j + k - 1 == j - 1 + k;
    }
  }

  /** What has run once has run all its shorter ways. */
  lemma {:induction false} RanBefore(code: seq<bv32>, a: Rv, j: nat, k: nat)
    requires MachineSteps(code, a, k).Some? && j <= k
    ensures MachineSteps(code, a, j).Some?
    decreases j
  {
    hide MachineStep;
    if j > 0 {
      RanBefore(code, MachineStep(code, a).m, j - 1, k - 1);
    }
  }

  lemma RunsChain(code: seq<bv32>, a: Rv, j: nat, b: Rv, k: nat, c: Rv) returns (n: nat)
    requires RunsTo(code, a, j, b) && RunsTo(code, b, k, c)
    ensures n == j + k && RunsTo(code, a, n, c)
  {
    hide MachineSteps;
    RunsCompose(code, a, j, k);
    n := j + k;
  }

  /** ws stands at word `at` of the code. */
  ghost predicate Placed(code: seq<bv32>, at: int, ws: seq<bv32>) {
    0 <= at && at + |ws| <= |code| && forall w :: 0 <= w < |ws| ==> code[at + w] == ws[w]
  }

  lemma StepPlaced(code: seq<bv32>, m: Rv, at: nat, w: bv32)
    requires m.pc == 4 * at && at < |code| && code[at] == w
    ensures MachineStep(code, m) == Execute(m, Decode(w))
  {
    hide Execute, Decode;
  }

  lemma ExecFirst(ws: seq<bv32>, m: Rv, n: Rv) returns (q: Rv)
    requires ws != [] && Straight(ws, m, n)
    ensures Execute(m, Decode(ws[0])) == Go(q) && q.pc == m.pc + 4 && Straight(ws[1..], q, n)
  {
    hide Execute, Decode;
    q := Execute(m, Decode(ws[0])).m;
  }

  lemma PlacedTail(code: seq<bv32>, at: int, ws: seq<bv32>)
    requires Placed(code, at, ws) && ws != []
    ensures code[at] == ws[0] && Placed(code, at + 1, ws[1..])
  {
    assert code[at + 0] == ws[0];
    forall w | 0 <= w < |ws| - 1
      ensures code[at + 1 + w] == ws[1..][w]
    {
      assert code[at + (w + 1)] == ws[w + 1];
    }
  }

  lemma NoWords(code: seq<bv32>, m: Rv, n: Rv)
    requires Straight([], m, n)
    ensures RunsTo(code, m, 0, n)
  {}

  lemma StepsOnce(code: seq<bv32>, m: Rv, q: Rv, k: nat, n: Rv)
    requires MachineStep(code, m) == Go(q) && RunsTo(code, q, k, n)
    ensures RunsTo(code, m, k + 1, n)
  {}

  /** Straight-line words run where they are placed. */
  lemma {:induction false} StraightRuns(code: seq<bv32>, ws: seq<bv32>, m: Rv, n: Rv, at: nat)
    requires m.pc == 4 * at && Placed(code, at, ws) && Straight(ws, m, n)
    ensures RunsTo(code, m, |ws|, n)
    decreases |ws|
  {
    hide Execute, Decode, Straight, RunsTo, MachineStep;
    if ws == [] {
      NoWords(code, m, n);
    } else {
      var q := ExecFirst(ws, m, n);
      PlacedTail(code, at, ws);
      StepPlaced(code, m, at, ws[0]);
      StraightRuns(code, ws[1..], q, n, at + 1);
      StepsOnce(code, m, q, |ws| - 1, n);
    }
  }
}
