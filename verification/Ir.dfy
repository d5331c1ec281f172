/** The intermediate representation between lowering and the code emitters, and its meaning. */
module Ir {
  import opened Isa
  import opened Interpreter

  /** A physical register of the target, by number. */
  datatype PhysReg = PhysReg(n: bv8)

  datatype Operand = OpReg(reg: PhysReg) | OpImm(imm: i64)

  datatype BranchCond = BranchCond(op: JmpOp, lhs: PhysReg, rhs: Operand, is32bit: bool)

  datatype IrNode =
    | IrAlu64(op: AluOp, dst: PhysReg, src: Operand)
    | IrAlu32(op: AluOp, dst: PhysReg, src: Operand)
    | IrLoad(width: MemWidth, dst: PhysReg, base: PhysReg, off: i16)
    | IrStore(width: MemWidth, base: PhysReg, value: PhysReg, off: i16)
    | IrStoreImm(width: MemWidth, base: PhysReg, off: i16, imm: i32)
    | IrLoadImm64(dst: PhysReg, imm64: u64)
    | IrBranch(cond: BranchCond, target: nat)
    | IrJump(target: nat)
    | IrCall(funcId: u32)
    | IrRet
    | IrSpill(reg: PhysReg, slot: i16)
    | IrFill(reg: PhysReg, slot: i16)
    | IrAtomic(width: MemWidth, aop: AtomicOp, base: PhysReg, value: PhysReg, off: i16)
    | IrEndian(toBe: bool, ewidth: EndianWidth, dst: PhysReg)
    | IrLabel(bb: nat)
    | IrPrologue(frameSize: u16)
    | IrEpilogue(frameSize: u16)

  datatype IrBasicBlock = IrBasicBlock(id: nat, nodes: seq<IrNode>)

  datatype IrProgram = IrProgram(blocks: seq<IrBasicBlock>, frameSize: u16)

  /** The nodes in the order in which emit_program hands them to the emitter: every block is
      preceded by its label. */
  function Flatten(blocks: seq<IrBasicBlock>): seq<IrNode> {
    if blocks == [] then []
    else
      var last := blocks[|blocks| - 1];
      Flatten(blocks[..|blocks| - 1]) + ([IrLabel(last.id)] + last.nodes)
  }

  // ---------- meaning ----------

  type PhysRegs = map<PhysReg, u64>

  function Get(regs: PhysRegs, r: PhysReg): u64 {
    if r in regs then regs[r] else 0
  }

  /** How a target runs lowered code: the register that holds eBPF R0, the registers that a
      prologue saves and an epilogue restores, and how many frames there is room for. */
  datatype TargetAbi = TargetAbi(ret: PhysReg, saved: seq<PhysReg>, maxFrames: nat)

  datatype IrState = IrState(regs: PhysRegs, stack: Stack, pos: nat, frames: seq<PhysRegs>)

  datatype IrResult = Next(state: IrState) | Returned(value: u64, last: IrState) | Stuck

  function OperandValue(o: Operand, regs: PhysRegs): u64 {
    match o
    case OpReg(r) => Get(regs, r)
    case OpImm(v) => Wrap64(v)
  }

  /** Position of a block's label; the last one counts, as in the emitters' offset tables. */
  function FindLabel(nodes: seq<IrNode>, bb: nat): (r: Option<nat>)
    ensures r.Some? ==> r.value < |nodes| && nodes[r.value] == IrLabel(bb)
  {
    if nodes == [] then None
    else if nodes[|nodes| - 1] == IrLabel(bb) then Some(|nodes| - 1)
    else FindLabel(nodes[..|nodes| - 1], bb)
  }

  function Restore(regs: PhysRegs, snapshot: PhysRegs, saved: seq<PhysReg>): PhysRegs {
    if saved == [] then regs
    else Restore(regs, snapshot, saved[1..])[saved[0] := Get(snapshot, saved[0])]
  }

  lemma GetUpdate(regs: PhysRegs, k: PhysReg, v: u64, r: PhysReg)
    ensures Get(regs[k := v], r) == if r == k then v else Get(regs, r)
  {}

  lemma {:induction false} RestoreGet(regs: PhysRegs, snapshot: PhysRegs, saved: seq<PhysReg>, r: PhysReg)
    ensures Get(Restore(regs, snapshot, saved), r) == if r in saved then Get(snapshot, r) else Get(regs, r)
  {
    if saved != [] {
      RestoreGet(regs, snapshot, saved[1..], r);
      GetUpdate(Restore(regs, snapshot, saved[1..]), saved[0], Get(snapshot, saved[0]), r);
      assert saved == [saved[0]] + saved[1..];
    }
  }

  predicate CondHolds(c: BranchCond, regs: PhysRegs) {
    var a, b := Get(regs, c.lhs), OperandValue(c.rhs, regs);
    if c.is32bit then EvalJmp(c.op, Wrap32(a), Wrap32(b)) else EvalJmp(c.op, a, b)
  }

  function JumpTo(nodes: seq<IrNode>, bb: nat, s: IrState): IrResult {
    match FindLabel(nodes, bb)
    case None => Stuck
    case Some(p) => Next(s.(pos := p))
  }

  function SetReg(s: IrState, r: PhysReg, v: u64): IrResult {
    Next(s.(regs := s.regs[r := v], pos := s.pos + 1))
  }

  function SetStack(s: IrState, st: Option<Stack>): IrResult {
    match st
    case None => Stuck
    case Some(x) => Next(s.(stack := x, pos := s.pos + 1))
  }

  /** One node. Memory is the interpreter's stack at address `stackAddr`, and helper calls and
      atomics are the interpreter's stubs. */
  function IrStep(nodes: seq<IrNode>, t: TargetAbi, stackAddr: u64, s: IrState): IrResult {
    if s.pos >= |nodes| then Stuck
    else
      match nodes[s.pos]
      case IrAlu64(op, dst, src) => SetReg(s, dst, EvalAlu64(op, Get(s.regs, dst), OperandValue(src, s.regs)))
      case IrAlu32(op, dst, src) =>
        SetReg(s, dst, EvalAlu32(op, Wrap32(Get(s.regs, dst)), Wrap32(OperandValue(src, s.regs))))
      case IrLoad(width, dst, base, off) =>
        (match ReadStack(s.stack, StackOffset(stackAddr, Get(s.regs, base), off), width)
         case None => Stuck
         case Some(v) => SetReg(s, dst, v))
      case IrStore(width, base, value, off) =>
        SetStack(s, WriteStack(s.stack, StackOffset(stackAddr, Get(s.regs, base), off), width, Get(s.regs, value)))
      case IrStoreImm(width, base, off, imm) =>
        SetStack(s, WriteStack(s.stack, StackOffset(stackAddr, Get(s.regs, base), off), width, Wrap64(imm)))
      case IrLoadImm64(dst, imm) => SetReg(s, dst, imm)
      case IrBranch(c, bb) => if CondHolds(c, s.regs) then JumpTo(nodes, bb, s) else Next(s.(pos := s.pos + 1))
      case IrJump(bb) => JumpTo(nodes, bb, s)
      case IrCall(_) => SetReg(s, t.ret, 0)
      case IrRet => Returned(Get(s.regs, t.ret), s)
      case IrAtomic(_, _, _, _, _) => Next(s.(pos := s.pos + 1))
      case IrEndian(toBe, width, dst) => SetReg(s, dst, EvalEndian(toBe, width, Get(s.regs, dst)))
      case IrLabel(_) => Next(s.(pos := s.pos + 1))
      case IrPrologue(_) =>
        if |s.frames| < t.maxFrames then Next(s.(frames := [s.regs] + s.frames, pos := s.pos + 1)) else Stuck
      case IrEpilogue(_) =>
        if s.frames == [] then Stuck
        else Next(s.(regs := Restore(s.regs, s.frames[0], t.saved), frames := s.frames[1..], pos := s.pos + 1))
      case IrSpill(_, _) => Stuck
      case IrFill(_, _) => Stuck
  }

  function IrSteps(nodes: seq<IrNode>, t: TargetAbi, stackAddr: u64, s: IrState, k: nat): Option<IrState> {
    if k == 0 then Some(s)
    else
      match IrSteps(nodes, t, stackAddr, s, k - 1)
      case None => None
      case Some(u) =>
        match IrStep(nodes, t, stackAddr, u)
        case Next(v) => Some(v)
        case _ => None
  }

  lemma {:induction false} IrStepsCompose(nodes: seq<IrNode>, t: TargetAbi, stackAddr: u64, s: IrState, j: nat, k: nat)
    requires IrSteps(nodes, t, stackAddr, s, j).Some?
    ensures IrSteps(nodes, t, stackAddr, s, j + k)
         == IrSteps(nodes, t, stackAddr, IrSteps(nodes, t, stackAddr, s, j).value, k)
    decreases k
  {
    hide IrStep;
    if k > 0 {
      IrStepsCompose(nodes, t, stackAddr, s, j, k - 1);
      assert j + k - 1 == j + (k - 1);
    }
  }

  /** k steps lead from a to b. */
  predicate Reaches(nodes: seq<IrNode>, t: TargetAbi, stackAddr: u64, a: IrState, k: nat, b: IrState) {
    IrSteps(nodes, t, stackAddr, a, k) == Some(b)
  }

  lemma ReachesStep(nodes: seq<IrNode>, t: TargetAbi, stackAddr: u64, a: IrState, b: IrState)
    requires IrStep(nodes, t, stackAddr, a) == Next(b)
    ensures Reaches(nodes, t, stackAddr, a, 1, b)
  {
    assert IrSteps(nodes, t, stackAddr, a, 0) == Some(a);
  }

  lemma ReachesChain(nodes: seq<IrNode>, t: TargetAbi, stackAddr: u64, a: IrState, j: nat, b: IrState, k: nat,
          c: IrState) returns (n: nat)
    requires Reaches(nodes, t, stackAddr, a, j, b) && Reaches(nodes, t, stackAddr, b, k, c)
    ensures n == j + k && Reaches(nodes, t, stackAddr, a, n, c)
  {
    hide IrSteps;
    IrStepsCompose(nodes, t, stackAddr, a, j, k);
    n := j + k;
  }
}
