/** Runs of the linked RISC-V code match runs of the IR, node by node. */
module RvSim {
  import opened Isa
  import opened Casts
  import opened Interpreter
  import opened Ir
  import opened RvEncode
  import opened RvWords
  import opened RvMachine
  import opened RvDecode
  import opened RvNodes
  import opened RvImm
  import opened RvAlu64
  import opened RvAlu32
  import opened RvBranch
  import opened RvEndian
  import opened Frames
  import opened RvFrame
  import opened Emitting
  import opened Layout

  // ---------- the relation ----------

  /** The registers that eBPF registers live in: a0 to a5, s2 to s6. */
  predicate Mapped(r: bv8) { (10 <= r && r <= 15) || (18 <= r && r <= 22) }

  lemma MappedIsProgram(r: bv8)
    requires Mapped(r)
    ensures IsProgramReg(r) && r != 1 && r != 2 && r != 8 && r != S7
  {}

  ghost predicate RegsMatch(regs: PhysRegs, a: Rv) {
    forall r: bv8 :: Mapped(r) ==> R(a, r) == Get(regs, PhysReg(r))
  }

  /** The callee-saved registers that R6 to R10 live in. */
  const SAVED := [PhysReg(18), PhysReg(19), PhysReg(20), PhysReg(21), PhysReg(22)]

  /** RISC-V as the IR sees it: R0 in a0, R6 to R10 in s2 to s6, room for some frames. */
  function Riscv64Abi(maxFrames: nat): TargetAbi { TargetAbi(PhysReg(10), SAVED, maxFrames) }

  /** gp, tp and the callee-saved registers that compiled code does not write: s1 and s8 to s11. */
  predicate Spared(r: bv8) { r == 3 || r == 4 || r == 9 || (24 <= r && r <= 27) }

  ghost predicate SparedKept(m0: Rv, a: Rv) { forall r: bv8 :: Spared(r) ==> R(a, r) == R(m0, r) }

  /** Memory outside the save areas of the first k frames is that of the entry state m0. */
  ghost predicate MemKept(frame: u16, k: nat, m0: Rv, a: Rv) { OutsideAll(m0.mem, a.mem, R(m0, 2), frame, k) }

  /** The save area of the last frame opened holds the registers that the IR frame holds, those of
      state `saver`. The return address is the one on entry, and so is s0 in the first frame. */
  ghost predicate Holds(frame: u16, m0: Rv, log: FrameLog<Rv>, regs: PhysRegs, a: Rv) {
    && Saved(a.mem, R(a, 2), frame, log.saver) && RegsMatch(regs, log.saver)
    && R(log.saver, 1) == R(m0, 1) && (log.count == 1 ==> R(log.saver, 8) == R(m0, 8))
  }

  /** The stack pointer is below its value on entry by the frames that are open. */
  ghost predicate FrameMatch(frame: u16, m0: Rv, log: FrameLog<Rv>, s: IrState, a: Rv) {
    && (log.count > 0 ==> FrameBytes(frame)) && R(a, 2) == Down(R(m0, 2), frame, |s.frames|)
    && R(a, 1) == R(m0, 1) && (s.frames == [] ==> R(a, 8) == R(m0, 8))
    && (s.frames != [] && |s.frames| == log.count ==> Holds(frame, m0, log, s.frames[0], a))
  }

  ghost predicate Sim(nodes: seq<IrNode>, frame: u16, m0: Rv, log: FrameLog<Rv>, s: IrState, a: Rv) {
    && s.pos <= |nodes| && a.pc == 4 * Offset(RiscV64, nodes, s.pos) && RegsMatch(s.regs, a) && SparedKept(m0, a)
    && R(m0, 2) % 16 == 0 && R(a, 2) % 16 == 0 && MemKept(frame, log.count, m0, a) && FrameMatch(frame, m0, log, s, a)
    && Balanced(nodes, s, log.count)
  }

  predicate MappedOperand(o: Operand) { o.OpReg? ==> Mapped(o.reg.n) }

  /** 32-bit operations that agree with the interpreter whatever is in the registers: those that
      zero-extend, and those whose immediate keeps the result below 2 to the 31. */
  predicate AlwaysAgrees(op: AluOp, src: Operand) {
    && ExactOperand32(op, src)
    && (ZeroExtended(op) || (src.OpImm? && AlwaysBelow(op, Wrap32(Wrap64(src.imm)))))
  }

  /** Nodes whose machine code does what the interpreter does. */
  predicate InFragment(frame: u16, n: IrNode) {
    match n
    case IrAlu64(op, dst, src) =>
      Mapped(dst.n) && MappedOperand(src) && ExactOperand(op, dst.n, src) && (op == Div ==> src.OpImm? && src.imm != 0)
    case IrAlu32(op, dst, src) => Mapped(dst.n) && MappedOperand(src) && AlwaysAgrees(op, src)
    case IrLoadImm64(dst, imm) => Mapped(dst.n) && Loads(dst.n, imm)
    case IrEndian(toBe, width, dst) => Mapped(dst.n) && !toBe && width == Bits64
    case IrBranch(c, _) =>
      !c.is32bit && c.op != Ja && Mapped(c.lhs.n) && MappedOperand(c.rhs) && (c.rhs.OpImm? ==> LoadsExactly(c.rhs.imm))
    case IrJump(_) => true
    case IrLabel(_) => true
    case IrRet => true
    case IrPrologue(f) => f == frame && FrameBytes(frame)
    case IrEpilogue(f) => f == frame && FrameBytes(frame)
    case _ => false
  }

  lemma SimRegs(nodes: seq<IrNode>, frame: u16, m0: Rv, log: FrameLog<Rv>, s: IrState, a: Rv)
    requires Sim(nodes, frame, m0, log, s, a)
    ensures s.pos <= |nodes| && a.pc == 4 * Offset(RiscV64, nodes, s.pos) && RegsMatch(s.regs, a) && R(a, 2) % 16 == 0
  {}

  // ---------- nodes that set a register ----------

  lemma OperandMatches(o: Operand, regs: PhysRegs, a: Rv)
    requires MappedOperand(o) && RegsMatch(regs, a)
    ensures ProgramOperand(o) && OperandR(o, a) == OperandValue(o, regs)
  {
    if o.OpReg? {
      MappedIsProgram(o.reg.n);
      assert PhysReg(o.reg.n) == o.reg;
    }
  }

  lemma RegsAfterSet(regs: PhysRegs, a: Rv, n: Rv, d: PhysReg, v: u64)
    requires RegsMatch(regs, a) && OnlyChanged(a, n, d.n) && R(n, d.n) == v && Mapped(d.n)
    ensures RegsMatch(regs[d := v], n)
  {
    forall r: bv8 | Mapped(r)
      ensures R(n, r) == Get(regs[d := v], PhysReg(r))
    {
      MappedIsProgram(r);
      GetUpdate(regs, d, v, PhysReg(r));
    }
  }

  /** Same stack pointer and memory, same s0, return address and spared registers. */
  ghost predicate LinksSame(a: Rv, n: Rv) {
    && n.mem == a.mem && R(n, 1) == R(a, 1) && R(n, 2) == R(a, 2) && R(n, 8) == R(a, 8)
    && forall r: bv8 :: Spared(r) ==> R(n, r) == R(a, r)
  }

  lemma FrameMatchKept(frame: u16, m0: Rv, log: FrameLog<Rv>, s: IrState, a: Rv, t: IrState, n: Rv)
    requires FrameMatch(frame, m0, log, s, a) && t.frames == s.frames && LinksSame(a, n)
    requires MemKept(frame, log.count, m0, a) && SparedKept(m0, a)
    ensures FrameMatch(frame, m0, log, t, n) && MemKept(frame, log.count, m0, n) && SparedKept(m0, n)
    ensures R(n, 2) == R(a, 2)
  {
    hide R, Saved, RegsMatch, OutsideAll, Down, Spared;
  }

  lemma LinksAfterSet(a: Rv, n: Rv, d: bv8)
    requires OnlyChanged(a, n, d) && Mapped(d)
    ensures LinksSame(a, n)
  {
    hide R;
    MappedIsProgram(d);
  }

  lemma SimAfterSet(nodes: seq<IrNode>, frame: u16, m0: Rv, log: FrameLog<Rv>, s: IrState, a: Rv, d: PhysReg, v: u64,
          n: Rv)
    requires Sim(nodes, frame, m0, log, s, a) && s.pos < |nodes| && !nodes[s.pos].IrRet? && Mapped(d.n)
    requires OnlyChanged(a, n, d.n) && R(n, d.n) == v && n.pc == 4 * Offset(RiscV64, nodes, s.pos + 1)
    ensures Sim(nodes, frame, m0, log, s.(regs := s.regs[d := v], pos := s.pos + 1), n)
  {
    hide R, Offset, RegsMatch, OnlyChanged, FrameMatch, MemKept, SparedKept, Balanced, LinksSame, Mapped;
    RegsAfterSet(s.regs, a, n, d, v);
    LinksAfterSet(a, n, d.n);
    var t := s.(regs := s.regs[d := v], pos := s.pos + 1);
    FrameMatchKept(frame, m0, log, s, a, t, n);
    BalanceKept(nodes, s, t, log.count);
  }

  /** The words of a node that is no pending branch stand in the code. */
  lemma NodePlaced(nodes: seq<IrNode>, code: seq<bv32>, i: nat)
    requires Image(RiscV64, nodes, code) && i < |nodes| && !Branching(nodes[i])
    ensures Placed(code, Offset(RiscV64, nodes, i), NodeWords(RiscV64, nodes[i]))
    ensures Offset(RiscV64, nodes, i + 1) == Offset(RiscV64, nodes, i) + |NodeWords(RiscV64, nodes[i])|
  {
    hide Offset, Image, NodeWords;
    OffsetNext(RiscV64, nodes, i);
    OffsetMonotone(RiscV64, nodes, i + 1, |nodes|);
    ImageLength(RiscV64, nodes, code);
    forall w | 0 <= w < |NodeWords(RiscV64, nodes[i])|
      ensures code[Offset(RiscV64, nodes, i) + w] == NodeWords(RiscV64, nodes[i])[w]
    {
      ImageWord(RiscV64, nodes, code, i, w);
    }
  }

  predicate SetsRegister(n: IrNode) { n.IrAlu64? || n.IrAlu32? || n.IrLoadImm64? || n.IrEndian? }

  function NodeValue(n: IrNode, regs: PhysRegs): u64
    requires SetsRegister(n)
  {
    match n
    case IrAlu64(op, dst, src) => EvalAlu64(op, Get(regs, dst), OperandValue(src, regs))
    case IrAlu32(op, dst, src) => EvalAlu32(op, Wrap32(Get(regs, dst)), Wrap32(OperandValue(src, regs)))
    case IrLoadImm64(_, imm) => imm
    case IrEndian(toBe, width, dst) => EvalEndian(toBe, width, Get(regs, dst))
  }

  lemma NonzeroDivisor(v: i64)
    requires v != 0
    ensures Wrap64(v) != 0
  {}

  lemma AlwaysAgree(op: AluOp, src: Operand, a: u32, m: Rv)
    requires AlwaysAgrees(op, src)
    ensures ExactOperand32(op, src) && Agrees32(op, a, Wrap32(OperandR(src, m)))
  {
    hide StaysBelow, AlwaysBelow, Left, Wrap32, Wrap64, R;
    if !ZeroExtended(op) {
      AlwaysStays(op, a, Wrap32(Wrap64(src.imm)));
    }
  }

  lemma NodeExecutes(n: IrNode, frame: u16, regs: PhysRegs, a: Rv) returns (b: Rv)
    requires SetsRegister(n) && InFragment(frame, n) && RegsMatch(regs, a)
    ensures Straight(NodeWords(RiscV64, n), a, b) && OnlyChanged(a, b, n.dst.n) && R(b, n.dst.n) == NodeValue(n, regs)
  {
    hide Straight, OnlyChanged, R, EvalAlu64, EvalAlu32, RvWords.RvAlu64, RvWords.RvAlu32, RvLoadImm, ExactOperand,
         ExactOperand32, LoadsExactly, Loads, SetsReg, AsI64, Wrap64, Wrap32, MachineOperand, MachineOperand32,
         Agrees32, AlwaysAgrees, Value32, RvValue;
    MappedIsProgram(n.dst.n);
    assert R(a, n.dst.n) == Get(regs, n.dst) by { assert PhysReg(n.dst.n) == n.dst; }
    match n
    case IrAlu64(op, dst, src) =>
      OperandMatches(src, regs, a);
      if op == Div {
        NonzeroDivisor(src.imm);
      }
      b := AluNode64Exact(op, dst, src, a);
    case IrAlu32(op, dst, src) =>
      OperandMatches(src, regs, a);
      AlwaysAgree(op, src, Wrap32(R(a, dst.n)), a);
      b := AluNode32Exact(op, dst, src, a);
    case IrLoadImm64(dst, imm) =>
      b := LoadImmNode(dst, imm, a);
    case IrEndian(toBe, width, dst) =>
      b := EndianNode(dst, a);
  }

  lemma LoadHasWords(rd: bv8, imm: u64)
    ensures |RvLoadImm(rd, imm)| > 0
  {
    hide Lui, IType, ShiftForm, LowerHalf, Hi20, Lo12, AsI64, Fits12, Fits32;
  }

  lemma Reg32HasWords(op: AluOp, d: bv8, s: bv8)
    ensures |RvReg32(op, d, s)| > 0
  {
    hide RType, IType, ShiftForm;
  }

  lemma AluHasWords(op: AluOp, dst: PhysReg, src: Operand)
    ensures |RvWords.RvAlu64(op, dst, src)| > 0 && |RvWords.RvAlu32(op, dst, src)| > 0
  {
    hide RvLoadImm, RvReg64, RvReg32, IType, ShiftForm, Wrap64, Fits12;
    match src
    case OpReg(rs) => Reg32HasWords(op, dst.n, rs.n);
    case OpImm(v) =>
      LoadHasWords(dst.n, Wrap64(v));
      Reg32HasWords(op, dst.n, S7);
      Reg32HasWords(Neg, dst.n, dst.n);
  }

  lemma HasWords(n: IrNode)
    requires SetsRegister(n)
    ensures |NodeWords(RiscV64, n)| > 0
  {
    hide RvLoadImm, RvWords.RvAlu64, RvWords.RvAlu32;
    match n
    case IrAlu64(op, dst, src) => AluHasWords(op, dst, src);
    case IrAlu32(op, dst, src) => AluHasWords(op, dst, src);
    case IrLoadImm64(dst, imm) => LoadHasWords(dst.n, imm);
    case IrEndian(_, _, _) =>
  }

  lemma FrameHasWords(frame: u16)
    ensures |RvPrologue(frame)| > 0 && |RvEpilogue(frame)| > 0
  {}

  lemma SetsOnlyMapped(frame: u16, n: IrNode)
    requires SetsRegister(n) && InFragment(frame, n)
    ensures (n.IrAlu64? || n.IrAlu32? || n.IrLoadImm64? || n.IrEndian?) && Mapped(n.dst.n) && !Branching(n)
  {
    hide ExactOperand, Loads, AlwaysAgrees;
  }

  lemma SimSet(nodes: seq<IrNode>, code: seq<bv32>, frame: u16, m0: Rv, log: FrameLog<Rv>, s: IrState, a: Rv)
    returns (k: nat, b: Rv)
    requires Image(RiscV64, nodes, code) && Sim(nodes, frame, m0, log, s, a) && s.pos < |nodes|
    requires SetsRegister(nodes[s.pos]) && InFragment(frame, nodes[s.pos])
    ensures RunsTo(code, a, k, b) && k > 0
    ensures Sim(nodes, frame, m0, log,
            s.(regs := s.regs[nodes[s.pos].dst := NodeValue(nodes[s.pos], s.regs)], pos := s.pos + 1), b)
  {
    hide *;
    var n := nodes[s.pos];
    SetsOnlyMapped(frame, n);
    SimRegs(nodes, frame, m0, log, s, a);
    b := NodeExecutes(n, frame, s.regs, a);
    NodePlaced(nodes, code, s.pos);
    StraightRuns(code, NodeWords(RiscV64, n), a, b, Offset(RiscV64, nodes, s.pos));
    k := |NodeWords(RiscV64, n)|;
    HasWords(n);
    StraightPc(NodeWords(RiscV64, n), a, b);
    SimAfterSet(nodes, frame, m0, log, s, a, n.dst, NodeValue(n, s.regs), b);
  }

  // ---------- branches ----------

  lemma LinksAfterMove(a: Rv, n: Rv)
    requires SameButS7(a, n)
    ensures LinksSame(a, n)
  {
    hide R;
  }

  lemma RegsAfterMove(regs: PhysRegs, a: Rv, n: Rv)
    requires RegsMatch(regs, a) && SameButS7(a, n)
    ensures RegsMatch(regs, n)
  {
    forall r: bv8 | Mapped(r)
      ensures R(n, r) == Get(regs, PhysReg(r))
    {
      MappedIsProgram(r);
    }
  }

  lemma SimMoved(nodes: seq<IrNode>, frame: u16, m0: Rv, log: FrameLog<Rv>, s: IrState, a: Rv, p: nat, n: Rv)
    requires Sim(nodes, frame, m0, log, s, a) && s.pos < |nodes| && !nodes[s.pos].IrRet? && p <= |nodes|
    requires n.pc == 4 * Offset(RiscV64, nodes, p) && SameButS7(a, n)
    ensures Sim(nodes, frame, m0, log, s.(pos := p), n)
  {
    hide R, Offset, RegsMatch, FrameMatch, MemKept, SparedKept, Balanced, LinksSame, SameButS7;
    RegsAfterMove(s.regs, a, n);
    LinksAfterMove(a, n);
    FrameMatchKept(frame, m0, log, s, a, s.(pos := p), n);
    BalanceKept(nodes, s, s.(pos := p), log.count);
  }

  lemma BeforePlaced(nodes: seq<IrNode>, code: seq<bv32>, i: nat)
    requires Image(RiscV64, nodes, code) && i < |nodes| && nodes[i].IrBranch?
    ensures Placed(code, Offset(RiscV64, nodes, i), RvBeforeBranch(nodes[i].cond))
    ensures Offset(RiscV64, nodes, i + 1) == Offset(RiscV64, nodes, i) + |RvBeforeBranch(nodes[i].cond)| + 1
  {
    hide Offset, Image, NodeWords, RvBeforeBranch, RvBranchWord;
    BeforeThenBranch(nodes[i]);
    var ws := RvBeforeBranch(nodes[i].cond);
    OffsetNext(RiscV64, nodes, i);
    OffsetMonotone(RiscV64, nodes, i + 1, |nodes|);
    ImageLength(RiscV64, nodes, code);
    forall w | 0 <= w < |ws|
      ensures code[Offset(RiscV64, nodes, i) + w] == ws[w]
    {
      BeforeWordAt(nodes, code, i, w);
    }
  }

  lemma BeforeWordAt(nodes: seq<IrNode>, code: seq<bv32>, i: nat, w: nat)
    requires Image(RiscV64, nodes, code) && i < |nodes| && nodes[i].IrBranch? && w < |RvBeforeBranch(nodes[i].cond)|
    ensures Offset(RiscV64, nodes, i) + w < |code|
    ensures code[Offset(RiscV64, nodes, i) + w] == RvBeforeBranch(nodes[i].cond)[w]
  {
    hide Offset, Image, NodeWords, RvBeforeBranch, RvBranchWord;
    BeforeThenBranch(nodes[i]);
    ImageWord(RiscV64, nodes, code, i, w);
  }

  lemma CondMapped(c: BranchCond, regs: PhysRegs, a: Rv)
    requires !c.is32bit && c.op != Ja && Mapped(c.lhs.n) && MappedOperand(c.rhs) && RegsMatch(regs, a)
    requires c.rhs.OpImm? ==> LoadsExactly(c.rhs.imm)
    ensures ProgramCond(c) && c.op != Ja
    ensures EvalJmp(c.op, R(a, c.lhs.n), OperandR(c.rhs, a)) == CondHolds(c, regs)
  {
    MappedIsProgram(c.lhs.n);
    OperandMatches(c.rhs, regs, a);
    assert PhysReg(c.lhs.n) == c.lhs;
    hide EvalJmp;
  }

  lemma SameAtPc(a: Rv, q: Rv, b: Rv)
    requires SameButS7(a, q) && b == q.(pc := b.pc)
    ensures SameButS7(a, b)
  {}

  lemma BranchInFragment(frame: u16, n: IrNode)
    requires n.IrBranch? && InFragment(frame, n)
    ensures var c := n.cond;
            && !c.is32bit && c.op != Ja && Mapped(c.lhs.n) && MappedOperand(c.rhs)
            && (c.rhs.OpImm? ==> LoadsExactly(c.rhs.imm))
  {}

  lemma SimBranch(nodes: seq<IrNode>, code: seq<bv32>, frame: u16, m0: Rv, log: FrameLog<Rv>, s: IrState, a: Rv, p: nat)
    returns (k: nat, b: Rv)
    requires Image(RiscV64, nodes, code) && Sim(nodes, frame, m0, log, s, a) && s.pos < |nodes|
    requires nodes[s.pos].IrBranch?
    requires InFragment(frame, nodes[s.pos]) && FindLabel(nodes, nodes[s.pos].target) == Some(p)
    ensures RunsTo(code, a, k, b) && k > 0
    ensures Sim(nodes, frame, m0, log, s.(pos := if CondHolds(nodes[s.pos].cond, s.regs) then p else s.pos + 1), b)
  {
    hide *;
    var c := nodes[s.pos].cond;
    BranchInFragment(frame, nodes[s.pos]);
    SimRegs(nodes, frame, m0, log, s, a);
    CondMapped(c, s.regs, a);
    var q := BeforeBranch(c, a);
    BeforePlaced(nodes, code, s.pos);
    StraightRuns(code, RvBeforeBranch(c), a, q, Offset(RiscV64, nodes, s.pos));
    StraightPc(RvBeforeBranch(c), a, q);
    b := BranchWordStep(nodes, code, s.pos, p, q);
    k := RunsChain(code, a, |RvBeforeBranch(c)|, q, 1, b);
    SameAtPc(a, q, b);
    SimMoved(nodes, frame, m0, log, s, a, if CondHolds(c, s.regs) then p else s.pos + 1, b);
  }

  lemma SameAtPcSelf(a: Rv, b: Rv)
    requires b == a.(pc := b.pc)
    ensures SameButS7(a, b)
  {}

  lemma SimJump(nodes: seq<IrNode>, code: seq<bv32>, frame: u16, m0: Rv, log: FrameLog<Rv>, s: IrState, a: Rv, p: nat)
    returns (b: Rv)
    requires Image(RiscV64, nodes, code) && Sim(nodes, frame, m0, log, s, a) && s.pos < |nodes|
    requires nodes[s.pos].IrJump?
    requires FindLabel(nodes, nodes[s.pos].target) == Some(p)
    ensures RunsTo(code, a, 1, b) && Sim(nodes, frame, m0, log, s.(pos := p), b)
  {
    hide *;
    SimRegs(nodes, frame, m0, log, s, a);
    OffsetNext(RiscV64, nodes, s.pos);
    JumpWords(nodes[s.pos]);
    b := JumpWordStep(nodes, code, s.pos, p, a);
    SameAtPcSelf(a, b);
    SimMoved(nodes, frame, m0, log, s, a, p, b);
  }

  lemma LabelTakesNoSpace(nodes: seq<IrNode>, i: nat)
    requires i < |nodes| && nodes[i].IrLabel?
    ensures Offset(RiscV64, nodes, i + 1) == Offset(RiscV64, nodes, i)
  {
    OffsetNext(RiscV64, nodes, i);
    hide Offset;
    assert NodeWords(RiscV64, nodes[i]) == [];
  }

  lemma SimLabel(nodes: seq<IrNode>, frame: u16, m0: Rv, log: FrameLog<Rv>, s: IrState, a: Rv)
    requires Sim(nodes, frame, m0, log, s, a) && s.pos < |nodes| && nodes[s.pos].IrLabel?
    ensures Sim(nodes, frame, m0, log, s.(pos := s.pos + 1), a)
  {
    hide *;
    SimRegs(nodes, frame, m0, log, s, a);
    LabelTakesNoSpace(nodes, s.pos);
    SameSelf(a);
    SimMoved(nodes, frame, m0, log, s, a, s.pos + 1, a);
  }

  // ---------- frames ----------

  lemma RegsOpened(regs: PhysRegs, a: Rv, n: Rv, frame: u16)
    requires RegsMatch(regs, a) && Opened(a, n, frame)
    ensures RegsMatch(regs, n)
  {
    hide R, Saved, OutsideKept;
    forall r: bv8 | Mapped(r)
      ensures R(n, r) == Get(regs, PhysReg(r))
    {
      MappedIsProgram(r);
    }
  }

  /** The log after one more prologue, run from state a. */
  function Logged(log: FrameLog<Rv>, a: Rv): FrameLog<Rv> { FrameLog(log.count + 1, a) }

  lemma FrameOpened(frame: u16, m0: Rv, log: FrameLog<Rv>, s: IrState, a: Rv, n: Rv)
    requires FrameMatch(frame, m0, log, s, a) && |s.frames| == log.count && RegsMatch(s.regs, a)
    requires FrameBytes(frame) && Opened(a, n, frame)
    ensures FrameMatch(frame, m0, Logged(log, a), s.(frames := [s.regs] + s.frames, pos := s.pos + 1), n)
    ensures R(n, 2) == Down(R(m0, 2), frame, log.count + 1)
  {
    hide R, RegsMatch, OutsideKept, Saved, Wrap64;
  }

  lemma OpenedLinks(frame: u16, a: Rv, n: Rv)
    requires Opened(a, n, frame)
    ensures R(n, 2) % 16 == 0 && forall r: bv8 :: Spared(r) ==> R(n, r) == R(a, r)
    ensures OutsideKept(a.mem, n.mem, R(n, 2), frame)
  {
    hide R, OutsideKept, Saved, Wrap64;
  }

  lemma SimOpened(nodes: seq<IrNode>, frame: u16, m0: Rv, log: FrameLog<Rv>, s: IrState, a: Rv, n: Rv)
    requires Sim(nodes, frame, m0, log, s, a) && s.pos < |nodes| && !nodes[s.pos].IrRet? && FrameBytes(frame)
    requires Opened(a, n, frame) && n.pc == 4 * Offset(RiscV64, nodes, s.pos + 1)
    ensures Sim(nodes, frame, m0, Logged(log, a), s.(frames := [s.regs] + s.frames, pos := s.pos + 1), n)
  {
    hide Offset, R, RegsMatch, OutsideAll, OutsideKept, Opened, Wrap64, EmitAll, NodeWords, FrameMatch, Down, Spared;
    RegsOpened(s.regs, a, n, frame);
    FrameOpened(frame, m0, log, s, a, n);
    OpenedLinks(frame, a, n);
    OutsideNext(m0.mem, a.mem, n.mem, R(m0, 2), frame, log.count);
  }

  lemma FrameShape(nodes: seq<IrNode>, frame: u16, i: nat)
    requires i < |nodes| && (nodes[i].IrPrologue? || nodes[i].IrEpilogue?) && InFragment(frame, nodes[i])
    ensures FrameBytes(frame) && !Branching(nodes[i])
    ensures NodeWords(RiscV64, nodes[i]) == if nodes[i].IrPrologue? then RvPrologue(frame) else RvEpilogue(frame)
  {
    hide RvPrologue, RvEpilogue;
  }

  lemma SimPrologue(nodes: seq<IrNode>, code: seq<bv32>, frame: u16, m0: Rv, log: FrameLog<Rv>, s: IrState, a: Rv)
    returns (k: nat, b: Rv)
    requires Image(RiscV64, nodes, code) && Sim(nodes, frame, m0, log, s, a) && s.pos < |nodes|
    requires nodes[s.pos].IrPrologue? && InFragment(frame, nodes[s.pos])
    ensures RunsTo(code, a, k, b) && k > 0
    ensures Sim(nodes, frame, m0, Logged(log, a), s.(frames := [s.regs] + s.frames, pos := s.pos + 1), b)
  {
    hide *;
    SimRegs(nodes, frame, m0, log, s, a);
    FrameShape(nodes, frame, s.pos);
    b := PrologueNode(frame, a);
    NodePlaced(nodes, code, s.pos);
    StraightRuns(code, RvPrologue(frame), a, b, Offset(RiscV64, nodes, s.pos));
    StraightPc(RvPrologue(frame), a, b);
    k := |RvPrologue(frame)|;
    FrameHasWords(frame);
    SimOpened(nodes, frame, m0, log, s, a, b);
  }

  lemma AreaIsSaved(r: bv8)
    requires Mapped(r)
    ensures PhysReg(r) in SAVED <==> InArea(r)
  {
    assert SAVED[0] == PhysReg(18) && SAVED[1] == PhysReg(19) && SAVED[2] == PhysReg(20);
    assert SAVED[3] == PhysReg(21) && SAVED[4] == PhysReg(22);
  }

  /** The registers an epilogue reloads, as the IR restores them. */
  lemma RegsClosed(s: IrState, saver: Rv, a: Rv, n: Rv, frame: u16)
    requires RegsMatch(s.regs, a) && s.frames != [] && RegsMatch(s.frames[0], saver) && Closed(a, n, saver, frame)
    ensures RegsMatch(Restore(s.regs, s.frames[0], SAVED), n)
  {
    hide Restore, R;
    forall r: bv8 | Mapped(r)
      ensures R(n, r) == Get(Restore(s.regs, s.frames[0], SAVED), PhysReg(r))
    {
      MappedIsProgram(r);
      RestoreGet(s.regs, s.frames[0], SAVED, PhysReg(r));
      AreaIsSaved(r);
    }
  }

  lemma LinksReloaded(a: Rv, n: Rv, saver: Rv, frame: u16)
    requires Closed(a, n, saver, frame)
    ensures n.mem == a.mem && R(n, 1) == R(saver, 1) && R(n, 8) == R(saver, 8) && R(n, 2) == Wrap64(R(a, 2) + frame)
    ensures forall r: bv8 :: Spared(r) ==> R(n, r) == R(a, r)
  {
    hide R, Wrap64;
    assert InArea(1) && InArea(8);
  }

  lemma FrameClosed(frame: u16, m0: Rv, log: FrameLog<Rv>, s: IrState, a: Rv, t: IrState, n: Rv)
    requires FrameMatch(frame, m0, log, s, a) && s.frames != [] && |s.frames| == log.count && t.frames == s.frames[1..]
    requires FrameBytes(frame) && Closed(a, n, log.saver, frame)
    ensures FrameMatch(frame, m0, log, t, n) && (R(m0, 2) % 16 == 0 ==> R(n, 2) % 16 == 0)
  {
    hide R, RegsMatch, Saved, Closed, Wrap64;
    LinksReloaded(a, n, log.saver, frame);
    DownAndUp(Down(R(m0, 2), frame, log.count - 1), frame);
    if R(m0, 2) % 16 == 0 {
      DownAligned(R(m0, 2), frame, log.count - 1);
    }
  }

  lemma SimClosed(nodes: seq<IrNode>, frame: u16, m0: Rv, log: FrameLog<Rv>, s: IrState, a: Rv, t: IrState, n: Rv)
    requires Sim(nodes, frame, m0, log, s, a) && s.pos < |nodes| && nodes[s.pos].IrEpilogue? && s.frames != []
    requires FrameBytes(frame) && ReturnsNext(nodes, s.pos)
    requires Closed(a, n, log.saver, frame) && n.pc == 4 * Offset(RiscV64, nodes, s.pos + 1)
    requires t == s.(regs := Restore(s.regs, s.frames[0], SAVED), frames := s.frames[1..], pos := s.pos + 1)
    ensures Sim(nodes, frame, m0, log, t, n)
  {
    SavedFrame(frame, m0, log, s, a);
    hide Offset, R, RegsMatch, OutsideAll, Restore, Closed, FrameMatch, Wrap64, EmitAll, NodeWords, Spared;
    RegsClosed(s, log.saver, a, n, frame);
    FrameClosed(frame, m0, log, s, a, t, n);
    LinksReloaded(a, n, log.saver, frame);
  }

  lemma SavedFrame(frame: u16, m0: Rv, log: FrameLog<Rv>, s: IrState, a: Rv)
    requires FrameMatch(frame, m0, log, s, a) && s.frames != [] && |s.frames| == log.count
    ensures Saved(a.mem, R(a, 2), frame, log.saver) && RegsMatch(s.frames[0], log.saver)
  {
    hide R, RegsMatch, Saved;
  }

  lemma SimOpenFrame(nodes: seq<IrNode>, frame: u16, m0: Rv, log: FrameLog<Rv>, s: IrState, a: Rv)
    requires Sim(nodes, frame, m0, log, s, a) && s.frames != [] && s.pos < |nodes| && !nodes[s.pos].IrRet?
    ensures Saved(a.mem, R(a, 2), frame, log.saver)
  {
    hide Offset, Saved, RegsMatch, OutsideAll, R, FrameMatch, SparedKept;
    SavedFrame(frame, m0, log, s, a);
  }

  lemma SimEpilogue(nodes: seq<IrNode>, code: seq<bv32>, frame: u16, m0: Rv, log: FrameLog<Rv>, s: IrState, a: Rv)
    returns (k: nat, b: Rv)
    requires Image(RiscV64, nodes, code) && Sim(nodes, frame, m0, log, s, a) && s.pos < |nodes|
    requires nodes[s.pos].IrEpilogue? && InFragment(frame, nodes[s.pos]) && s.frames != []
    requires EpiloguesReturn(nodes)
    ensures RunsTo(code, a, k, b) && k > 0
    ensures Sim(nodes, frame, m0, log,
            s.(regs := Restore(s.regs, s.frames[0], SAVED), frames := s.frames[1..], pos := s.pos + 1), b)
  {
    hide *;
    SimRegs(nodes, frame, m0, log, s, a);
    SimOpenFrame(nodes, frame, m0, log, s, a);
    FrameShape(nodes, frame, s.pos);
    b := EpilogueNode(frame, a, log.saver);
    NodePlaced(nodes, code, s.pos);
    StraightRuns(code, RvEpilogue(frame), a, b, Offset(RiscV64, nodes, s.pos));
    StraightPc(RvEpilogue(frame), a, b);
    k := |RvEpilogue(frame)|;
    FrameHasWords(frame);
    var t := s.(regs := Restore(s.regs, s.frames[0], SAVED), frames := s.frames[1..], pos := s.pos + 1);
    ReturnAfter(nodes, s.pos);
    SimClosed(nodes, frame, m0, log, s, a, t, b);
  }

  // ---------- one node, many nodes ----------

  lemma NotInFragment(frame: u16, n: IrNode)
    requires n.IrLoad? || n.IrStore? || n.IrStoreImm? || n.IrCall? || n.IrSpill? || n.IrFill? ||
             n.IrAtomic?
    ensures !InFragment(frame, n)
  {}

  /** One step of the IR is matched by some steps of the machine: at least one, but at a label. */
  lemma SimStep(nodes: seq<IrNode>, code: seq<bv32>, frame: u16, stackAddr: u64, m0: Rv, log: FrameLog<Rv>,
          s: IrState, a: Rv, depth: nat, u: IrState)
    returns (k: nat, b: Rv, log': FrameLog<Rv>)
    requires Image(RiscV64, nodes, code) && Sim(nodes, frame, m0, log, s, a)
    requires IrStep(nodes, Riscv64Abi(depth), stackAddr, s) == Next(u)
    requires EpiloguesReturn(nodes) && forall i :: 0 <= i < |nodes| ==> InFragment(frame, nodes[i])
    ensures RunsTo(code, a, k, b) && Sim(nodes, frame, m0, log', u, b) && (k > 0 || LabelPassed(nodes, s, u))
  {
    hide Sim, Image, RunsTo, InFragment, FindLabel, EvalAlu64, EvalAlu32, Restore, CondHolds;
    log' := log;
    var n := nodes[s.pos];
    match n
    case IrAlu64(_, _, _) =>
      k, b := SimSet(nodes, code, frame, m0, log, s, a);
    case IrAlu32(_, _, _) =>
      k, b := SimSet(nodes, code, frame, m0, log, s, a);
    case IrLoadImm64(_, _) =>
      k, b := SimSet(nodes, code, frame, m0, log, s, a);
    case IrEndian(_, _, _) =>
      k, b := SimSet(nodes, code, frame, m0, log, s, a);
    case IrBranch(c, bb) =>
      BranchHasLabel(RiscV64, nodes, code, s.pos);
      k, b := SimBranch(nodes, code, frame, m0, log, s, a, FindLabel(nodes, bb).value);
    case IrJump(bb) =>
      k := 1;
      b := SimJump(nodes, code, frame, m0, log, s, a, FindLabel(nodes, bb).value);
    case IrLabel(_) =>
      k, b := 0, a;
      RunsNowhere(code, a);
      SimLabel(nodes, frame, m0, log, s, a);
    case IrPrologue(_) =>
      k, b := SimPrologue(nodes, code, frame, m0, log, s, a);
      log' := Logged(log, a);
    case IrEpilogue(_) =>
      k, b := SimEpilogue(nodes, code, frame, m0, log, s, a);
    case _ => NotInFragment(frame, n);
  }

  /** Runs of the IR are matched by runs of the machine, at least half as long. */
  lemma {:induction false} SimRuns(nodes: seq<IrNode>, code: seq<bv32>, frame: u16, stackAddr: u64, m0: Rv,
          log: FrameLog<Rv>, s: IrState, a: Rv, depth: nat, j: nat, u: IrState)
    returns (k: nat, b: Rv, log': FrameLog<Rv>)
    requires Image(RiscV64, nodes, code) && Sim(nodes, frame, m0, log, s, a)
    requires Reaches(nodes, Riscv64Abi(depth), stackAddr, s, j, u)
    requires NoAdjacentLabels(nodes) && EpiloguesReturn(nodes)
    requires forall i :: 0 <= i < |nodes| ==> InFragment(frame, nodes[i])
    ensures RunsTo(code, a, k, b) && Sim(nodes, frame, m0, log', u, b)
    ensures 2 * k + (if AfterLabel(nodes, u.pos) then 1 else 0) >= j
    decreases j
  {
    hide Sim, Image, RunsTo, InFragment, IrStep;
    if j == 0 {
      k, b, log' := 0, a, log;
      RunsNowhere(code, a);
    } else {
      var v := IrSteps(nodes, Riscv64Abi(depth), stackAddr, s, j - 1).value;
      var k1, b1, log1 := SimRuns(nodes, code, frame, stackAddr, m0, log, s, a, depth, j - 1, v);
      var k2;
      k2, b, log' := SimStep(nodes, code, frame, stackAddr, m0, log1, v, b1, depth, u);
      k := RunsChain(code, a, k1, b1, k2, b);
      assert LabelPassed(nodes, v, u) ==> !AfterLabel(nodes, v.pos) && AfterLabel(nodes, u.pos);
    }
  }

  // ---------- return ----------

  /** The state before the final jump to ra: the result in a0 and the callee-saved registers as the IR
      has them, the stack pointer below its value on entry by the frames still open. */
  ghost predicate ReturnedWith(frame: u16, m0: Rv, count: nat, s: IrState, b: Rv) {
    && R(b, 10) == Get(s.regs, PhysReg(10)) && R(b, 2) == Down(R(m0, 2), frame, |s.frames|)
    && MemKept(frame, count, m0, b) && R(b, 1) == R(m0, 1) && (s.frames == [] ==> R(b, 8) == R(m0, 8))
    && SparedKept(m0, b) && forall r: bv8 :: PhysReg(r) in SAVED ==> R(b, r) == Get(s.regs, PhysReg(r))
  }

  lemma SavedMapped(r: bv8)
    requires PhysReg(r) in SAVED
    ensures Mapped(r)
  {}

  lemma ReturnState(nodes: seq<IrNode>, frame: u16, m0: Rv, log: FrameLog<Rv>, s: IrState, a: Rv)
    requires Sim(nodes, frame, m0, log, s, a)
    ensures ReturnedWith(frame, m0, log.count, s, a) && R(a, 1) == R(m0, 1)
  {
    assert Mapped(10);
    hide Offset, OutsideAll, Get, Down, Holds, R, Mapped, Spared;
    forall r: bv8 | PhysReg(r) in SAVED
      ensures R(a, r) == Get(s.regs, PhysReg(r))
    {
      SavedMapped(r);
    }
  }

  lemma DecodeRet()
    ensures Decode(Jalr(0, 1, 0)) == JumpReg(0, 1, RetField()) && Imm12(RetField()) == 0
  {
    IFormFields(AsU32(0), 1, 0, 0, 0x67);
    Imm12Value(0);
    hide IForm, Rd, Rs1, Imm12, AsU32;
  }

  lemma ReturnExecutes(m: Rv, field: bv32)
    requires Imm12(field) == 0
    ensures Execute(m, JumpReg(0, 1, field)) == Go(m.(pc := R(m, 1) / 2 * 2))
  {
    hide Imm12, R;
  }

  lemma RetWords(nodes: seq<IrNode>, code: seq<bv32>, i: nat)
    requires Image(RiscV64, nodes, code) && i < |nodes| && nodes[i].IrRet?
    ensures Offset(RiscV64, nodes, i) < |code| && code[Offset(RiscV64, nodes, i)] == Jalr(0, 1, 0)
  {
    assert NodeWords(RiscV64, nodes[i]) == [Jalr(0, 1, 0)];
    hide Image, Offset, Jalr;
    NodePlaced(nodes, code, i);
    assert code[Offset(RiscV64, nodes, i) + 0] == [Jalr(0, 1, 0)][0];
  }

  /** An IR return is a jump to ra with the same value in a0. */
  lemma SimReturn(nodes: seq<IrNode>, code: seq<bv32>, frame: u16, m0: Rv, log: FrameLog<Rv>, s: IrState, a: Rv)
    requires Image(RiscV64, nodes, code) && Sim(nodes, frame, m0, log, s, a) && s.pos < |nodes|
    requires nodes[s.pos].IrRet?
    ensures MachineStep(code, a) == Go(a.(pc := R(m0, 1) / 2 * 2)) && ReturnedWith(frame, m0, log.count, s, a)
  {
    hide *;
    ReturnState(nodes, frame, m0, log, s, a);
    SimRegs(nodes, frame, m0, log, s, a);
    RetWords(nodes, code, s.pos);
    DecodeRet();
    StepPlaced(code, a, Offset(RiscV64, nodes, s.pos), Jalr(0, 1, 0));
    ReturnExecutes(a, RetField());
  }

  /** The immediate field of the return. */
  function RetField(): bv32 { AsU32(0) & 0xFFF }
}
