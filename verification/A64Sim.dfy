/** Runs of the linked machine code match runs of the IR, node by node. */
module A64Sim {
  import opened Isa
  import opened Casts
  import opened Interpreter
  import opened Ir
  import opened A64Encode
  import opened A64Machine
  import opened A64Decode
  import opened A64Words
  import opened Emitting
  import opened A64Alu
  import opened A64Nodes
  import opened A64Compare
  import opened A64Endian
  import opened A64Link
  import opened A64Frame
  import opened Frames
  import opened Layout

  // ---------- straight-line code in place ----------

  /** ws stands at word `at` of the code. */
  ghost predicate Placed(code: seq<bv32>, at: int, ws: seq<bv32>) {
    0 <= at && at + |ws| <= |code| && forall w :: 0 <= w < |ws| ==> code[at + w] == ws[w]
  }

  lemma StepsOnce(code: seq<bv32>, m: A64, q: A64, k: nat, n: A64)
    requires MachineStep(code, m) == Go(q) && RunsTo(code, q, k, n)
    ensures RunsTo(code, m, k + 1, n)
  {}

  lemma ExecFirst(ws: seq<bv32>, m: A64, n: A64) returns (q: A64)
    requires ws != [] && Straight(ws, m, n)
    ensures Execute(m, Decode(ws[0])) == Go(q) && q.pc == m.pc + 1 && Straight(ws[1..], q, n)
  {
    hide Execute, Decode;
    q := Execute(m, Decode(ws[0])).m;
  }

  lemma StepPlaced(code: seq<bv32>, m: A64, w: bv32)
    requires 0 <= m.pc < |code| && code[m.pc] == w
    ensures MachineStep(code, m) == Execute(m, Decode(w))
  {
    hide Execute, Decode;
  }

  /** Straight-line words run where they are placed. */
  lemma {:induction false} StraightRuns(code: seq<bv32>, ws: seq<bv32>, m: A64, n: A64)
    requires Placed(code, m.pc, ws) && Straight(ws, m, n)
    ensures RunsTo(code, m, |ws|, n)
    decreases |ws|
  {
    hide Execute, Decode, Straight, RunsTo, MachineStep;
    if ws == [] {
      NoWords(code, m, n);
    } else {
      var q := ExecFirst(ws, m, n);
      assert code[m.pc + 0] == ws[0];
      StepPlaced(code, m, ws[0]);
      PlacedTail(code, m.pc, ws);
      StraightRuns(code, ws[1..], q, n);
      StepsOnce(code, m, q, |ws| - 1, n);
    }
  }

  lemma NoWords(code: seq<bv32>, m: A64, n: A64)
    requires Straight([], m, n)
    ensures RunsTo(code, m, 0, n)
  {}

  lemma PlacedTail(code: seq<bv32>, at: int, ws: seq<bv32>)
    requires Placed(code, at, ws) && ws != []
    ensures Placed(code, at + 1, ws[1..])
  {
    forall w | 0 <= w < |ws| - 1
      ensures code[at + 1 + w] == ws[1..][w]
    {
      assert code[at + (w + 1)] == ws[w + 1];
    }
  }

  // ---------- the relation ----------

  /** The registers that eBPF registers live in. */
  predicate Mapped(r: bv8) { r <= 4 || r == 7 || (19 <= r && r <= 22) || r == 25 }

  lemma MappedIsProgram(r: bv8)
    requires Mapped(r)
    ensures IsProgramReg(r) && r != 29 && r != 30 && r < 31
  {}

  ghost predicate RegsMatch(regs: PhysRegs, a: A64) {
    forall r: bv8 :: Mapped(r) ==> X(a, r) == Get(regs, PhysReg(r))
  }

  /** The callee-saved registers that R6 to R10 live in. */
  const SAVED := [PhysReg(19), PhysReg(20), PhysReg(21), PhysReg(22), PhysReg(25)]

  /** AArch64 as the IR sees it: R0 in X7, R6 to R10 in callee-saved registers, room for some frames. */
  function Aarch64Abi(maxFrames: nat): TargetAbi { TargetAbi(PhysReg(7), SAVED, maxFrames) }

  /** The callee-saved registers that compiled code does not write: X23, X24 and X26 to X28. */
  predicate Spared(r: bv8) { r == 23 || r == 24 || r == 26 || r == 27 || r == 28 }

  ghost predicate SparedKept(m0: A64, a: A64) { forall r: bv8 :: Spared(r) ==> X(a, r) == X(m0, r) }

  /** Memory outside the save areas of the first k frames is that of the entry state m0. */
  ghost predicate MemKept(frame: u16, k: nat, m0: A64, a: A64) { OutsideAll(m0.mem, a.mem, m0.sp, frame, k) }

  /** The save area of the last frame opened holds the registers that the IR frame holds, those of
      state `saver`. The link register is the one on entry, and so is X29 in the first frame. */
  ghost predicate Holds(m0: A64, log: FrameLog<A64>, regs: PhysRegs, a: A64) {
    && Saved(a.mem, a.sp, log.saver) && RegsMatch(regs, log.saver)
    && X(log.saver, 30) == X(m0, 30) && (log.count == 1 ==> X(log.saver, 29) == X(m0, 29))
  }

  /** The stack pointer is below its value on entry by the frames that are open. */
  ghost predicate FrameMatch(frame: u16, m0: A64, log: FrameLog<A64>, s: IrState, a: A64) {
    && (log.count > 0 ==> FrameBytes(frame)) && a.sp == Down(m0.sp, frame, |s.frames|)
    && X(a, 30) == X(m0, 30) && (s.frames == [] ==> X(a, 29) == X(m0, 29))
    && (s.frames != [] && |s.frames| == log.count ==> Holds(m0, log, s.frames[0], a))
  }

  ghost predicate Sim(nodes: seq<IrNode>, frame: u16, m0: A64, log: FrameLog<A64>, s: IrState, a: A64) {
    && s.pos <= |nodes| && a.pc == Offset(AArch64, nodes, s.pos) && RegsMatch(s.regs, a) && SparedKept(m0, a)
    && m0.sp % 16 == 0 && a.sp % 16 == 0 && MemKept(frame, log.count, m0, a) && FrameMatch(frame, m0, log, s, a)
    && Balanced(nodes, s, log.count)
  }

  predicate MappedOperand(o: Operand) { o.OpReg? ==> Mapped(o.reg.n) }

  /** Nodes whose machine code does what the interpreter does. */
  predicate InFragment(frame: u16, n: IrNode) {
    match n
    case IrAlu64(_, dst, src) => Mapped(dst.n) && MappedOperand(src)
    case IrAlu32(_, dst, src) => Mapped(dst.n) && MappedOperand(src)
    case IrLoadImm64(dst, _) => Mapped(dst.n)
    case IrEndian(toBe, width, dst) => Mapped(dst.n) && toBe && width != Bits16
    case IrBranch(c, _) => FaithfulCond(c) && Mapped(c.lhs.n) && MappedOperand(c.rhs)
    case IrJump(_) => true
    case IrLabel(_) => true
    case IrRet => true
    case IrPrologue(f) => f == frame && FrameBytes(frame) && frame != 512
    case IrEpilogue(f) => f == frame && FrameBytes(frame) && frame != 512
    case _ => false
  }

  // ---------- nodes that set a register ----------

  lemma OperandMatches(o: Operand, regs: PhysRegs, a: A64)
    requires MappedOperand(o) && RegsMatch(regs, a)
    ensures ProgramOperand(o) && OperandX(o, a) == OperandValue(o, regs)
  {
    if o.OpReg? {
      MappedIsProgram(o.reg.n);
      assert PhysReg(o.reg.n) == o.reg;
    }
  }

  lemma RegsAfterSet(regs: PhysRegs, a: A64, n: A64, d: PhysReg, v: u64)
    requires RegsMatch(regs, a) && OnlyChanged(a, n, d.n) && X(n, d.n) == v && Mapped(d.n)
    ensures RegsMatch(regs[d := v], n)
  {
    forall r: bv8 | Mapped(r)
      ensures X(n, r) == Get(regs[d := v], PhysReg(r))
    {
      MappedIsProgram(r);
      GetUpdate(regs, d, v, PhysReg(r));
    }
  }

  /** Same stack pointer and memory, same frame pointer, link register and spared registers. */
  ghost predicate LinksSame(a: A64, n: A64) {
    && n.sp == a.sp && n.mem == a.mem && X(n, 29) == X(a, 29) && X(n, 30) == X(a, 30)
    && forall r: bv8 :: Spared(r) ==> X(n, r) == X(a, r)
  }

  lemma FrameMatchKept(frame: u16, m0: A64, log: FrameLog<A64>, s: IrState, a: A64, t: IrState, n: A64)
    requires FrameMatch(frame, m0, log, s, a) && t.frames == s.frames && LinksSame(a, n)
    requires MemKept(frame, log.count, m0, a) && SparedKept(m0, a)
    ensures FrameMatch(frame, m0, log, t, n) && MemKept(frame, log.count, m0, n) && SparedKept(m0, n)
  {
    hide X, Saved, RegsMatch, OutsideAll, Down, Spared;
  }

  lemma LinksAfterSet(a: A64, n: A64, d: bv8)
    requires OnlyChanged(a, n, d) && Mapped(d)
    ensures LinksSame(a, n)
  {
    hide X;
    MappedIsProgram(d);
    assert IsProgramReg(29) && IsProgramReg(30);
  }

  lemma SpSame(a: A64, n: A64)
    requires LinksSame(a, n)
    ensures n.sp == a.sp
  {}

  lemma SimAfterSet(nodes: seq<IrNode>, frame: u16, m0: A64, log: FrameLog<A64>, s: IrState, a: A64, d: PhysReg,
          v: u64, n: A64)
    requires Sim(nodes, frame, m0, log, s, a) && s.pos < |nodes| && !nodes[s.pos].IrRet? && Mapped(d.n)
    requires OnlyChanged(a, n, d.n) && X(n, d.n) == v && n.pc == Offset(AArch64, nodes, s.pos + 1)
    ensures Sim(nodes, frame, m0, log, s.(regs := s.regs[d := v], pos := s.pos + 1), n)
  {
    hide X, Offset, RegsMatch, OnlyChanged, FrameMatch, MemKept, SparedKept, Balanced, LinksSame;
    RegsAfterSet(s.regs, a, n, d, v);
    LinksAfterSet(a, n, d.n);
    assert n.sp == a.sp by { SpSame(a, n); }
    var t := s.(regs := s.regs[d := v], pos := s.pos + 1);
    FrameMatchKept(frame, m0, log, s, a, t, n);
    BalanceKept(nodes, s, t, log.count);
  }

  /** The words of a node that is no pending branch stand in the code. */
  lemma NodePlaced(nodes: seq<IrNode>, code: seq<bv32>, i: nat)
    requires Image(AArch64, nodes, code) && i < |nodes| && !Branching(nodes[i])
    ensures Placed(code, Offset(AArch64, nodes, i), NodeWords(AArch64, nodes[i]))
    ensures Offset(AArch64, nodes, i + 1) == Offset(AArch64, nodes, i) + |NodeWords(AArch64, nodes[i])|
  {
    hide Offset, Image, NodeWords;
    OffsetNext(AArch64, nodes, i);
    OffsetMonotone(AArch64, nodes, i + 1, |nodes|);
    ImageLength(AArch64, nodes, code);
    forall w | 0 <= w < |NodeWords(AArch64, nodes[i])|
      ensures code[Offset(AArch64, nodes, i) + w] == NodeWords(AArch64, nodes[i])[w]
    {
      ImageWord(AArch64, nodes, code, i, w);
    }
  }

  /** The part of a conditional branch before the branch itself. */
  lemma ComparePlaced(nodes: seq<IrNode>, code: seq<bv32>, i: nat)
    requires Image(AArch64, nodes, code) && i < |nodes| && nodes[i].IrBranch?
    ensures Placed(code, Offset(AArch64, nodes, i), CompareWords(nodes[i].cond))
    ensures Offset(AArch64, nodes, i + 1) == Offset(AArch64, nodes, i) + |CompareWords(nodes[i].cond)| + 1
  {
    CompareThenBranch(nodes[i]);
    hide Offset, Image, NodeWords, CompareWords, BCond, ConditionCode;
    var ws := CompareWords(nodes[i].cond);
    OffsetNext(AArch64, nodes, i);
    OffsetMonotone(AArch64, nodes, i + 1, |nodes|);
    ImageLength(AArch64, nodes, code);
    forall w | 0 <= w < |ws|
      ensures code[Offset(AArch64, nodes, i) + w] == ws[w]
    {
      CompareWordAt(nodes, code, i, w);
    }
  }

  lemma CompareWordAt(nodes: seq<IrNode>, code: seq<bv32>, i: nat, w: nat)
    requires Image(AArch64, nodes, code) && i < |nodes| && nodes[i].IrBranch? && w < |CompareWords(nodes[i].cond)|
    ensures Offset(AArch64, nodes, i) + w < |code|
    ensures code[Offset(AArch64, nodes, i) + w] == CompareWords(nodes[i].cond)[w]
  {
    CompareThenBranch(nodes[i]);
    hide Offset, Image, NodeWords, CompareWords, BCond, ConditionCode;
    ImageWord(AArch64, nodes, code, i, w);
  }

  lemma CompareThenBranch(n: IrNode)
    requires n.IrBranch?
    ensures NodeWords(AArch64, n) == CompareWords(n.cond) + [BCond(ConditionCode(n.cond.op), 0)]
    ensures |NodeWords(AArch64, n)| == |CompareWords(n.cond)| + 1
    ensures NodeWords(AArch64, n)[|NodeWords(AArch64, n)| - 1] == BCond(ConditionCode(n.cond.op), 0)
  {
    hide CompareWords;
  }

  predicate SetsRegister(n: IrNode) { n.IrAlu64? || n.IrAlu32? || n.IrLoadImm64? || n.IrEndian? }

  /** The value that a register-setting node computes. */
  function NodeValue(n: IrNode, regs: PhysRegs): u64
    requires SetsRegister(n)
  {
    match n
    case IrAlu64(op, dst, src) => EvalAlu64(op, Get(regs, dst), OperandValue(src, regs))
    case IrAlu32(op, dst, src) => EvalAlu32(op, Wrap32(Get(regs, dst)), Wrap32(OperandValue(src, regs)))
    case IrLoadImm64(_, imm) => imm
    case IrEndian(toBe, width, dst) => EvalEndian(toBe, width, Get(regs, dst))
  }

  lemma WideSwapsRight(toBe: bool, width: EndianWidth, d: bv8, a: A64)
    requires toBe && width != Bits16
    ensures EndianRight(toBe, width, d, a)
  {}

  lemma NodeExecutes(n: IrNode, frame: u16, regs: PhysRegs, a: A64) returns (b: A64)
    requires SetsRegister(n) && InFragment(frame, n) && RegsMatch(regs, a)
    ensures Straight(NodeWords(AArch64, n), a, b) && OnlyChanged(a, b, n.dst.n) && X(b, n.dst.n) == NodeValue(n, regs)
  {
    hide Straight, OnlyChanged, X, EvalAlu64, EvalAlu32, EvalEndian, EndianRight, AluWords64, AluWords32, LoadImmWords,
         EndianWords;
    MappedIsProgram(n.dst.n);
    assert X(a, n.dst.n) == Get(regs, n.dst) by { assert PhysReg(n.dst.n) == n.dst; }
    match n
    case IrAlu64(op, dst, src) =>
      OperandMatches(src, regs, a);
      b := AluNode64(op, dst, src, a);
    case IrAlu32(op, dst, src) =>
      OperandMatches(src, regs, a);
      b := AluNode32(op, dst, src, a);
    case IrLoadImm64(dst, imm) => b := LoadImmNode(dst, imm, a);
    case IrEndian(toBe, width, dst) =>
      b := EndianExact(toBe, width, dst, a);
      WideSwapsRight(toBe, width, dst.n, a);
  }

  lemma SimRegs(nodes: seq<IrNode>, frame: u16, m0: A64, log: FrameLog<A64>, s: IrState, a: A64)
    requires Sim(nodes, frame, m0, log, s, a)
    ensures s.pos <= |nodes| && a.pc == Offset(AArch64, nodes, s.pos) && RegsMatch(s.regs, a) && a.sp % 16 == 0
  {}

  lemma AluHasWords(op: AluOp, dst: PhysReg, src: Operand)
    ensures |AluWords64(op, dst, src)| > 0
  {
    hide KeepWords, MovzX, AsU16, ImmChunk, RegReg, Imm12Form, MsubX, LslXImm, LsrXImm, AsrXImm, AsU8, Wrap64;
  }

  lemma Alu32HasWords(op: AluOp, dst: PhysReg, src: Operand)
    ensures |AluWords32(op, dst, src)| > 0
  {
    hide KeepWords, MovzX, AsU16, ImmChunk, RegReg, Imm12Form, MovWide, MsubW, Wrap64;
  }

  lemma HasWords(n: IrNode)
    requires SetsRegister(n) && (n.IrEndian? ==> n.toBe)
    ensures |NodeWords(AArch64, n)| > 0
  {
    hide AluWords64, AluWords32, KeepWords, MovzX, AsU16, ImmChunk;
    match n
    case IrAlu64(op, dst, src) => AluHasWords(op, dst, src);
    case IrAlu32(op, dst, src) => Alu32HasWords(op, dst, src);
    case _ =>
  }

  lemma FrameHasWords(frame: u16)
    ensures |PrologueWords(frame)| > 0 && |EpilogueWords(frame)| > 0
  {}

  lemma SetsOnlyMapped(frame: u16, n: IrNode)
    requires SetsRegister(n) && InFragment(frame, n)
    ensures (n.IrAlu64? || n.IrAlu32? || n.IrLoadImm64? || (n.IrEndian? && n.toBe)) && Mapped(n.dst.n) && !Branching(n)
  {}

  lemma SimSet(nodes: seq<IrNode>, code: seq<bv32>, frame: u16, m0: A64, log: FrameLog<A64>, s: IrState, a: A64)
    returns (k: nat, b: A64)
    requires Image(AArch64, nodes, code) && Sim(nodes, frame, m0, log, s, a) && s.pos < |nodes|
    requires SetsRegister(nodes[s.pos]) && InFragment(frame, nodes[s.pos])
    ensures RunsTo(code, a, k, b) && k > 0
    ensures Sim(nodes, frame, m0, log,
            s.(regs := s.regs[nodes[s.pos].dst := NodeValue(nodes[s.pos], s.regs)], pos := s.pos + 1), b)
  {
    hide *;
    var n := nodes[s.pos];
    SetsOnlyMapped(frame, n);
    SimRegs(nodes, frame, m0, log, s, a);
    b := NodeExecutes(n, frame, s.regs, a);
    NodePlaced(nodes, code, s.pos);
    StraightRuns(code, NodeWords(AArch64, n), a, b);
    k := |NodeWords(AArch64, n)|;
    HasWords(n);
    StraightPc(NodeWords(AArch64, n), a, b);
    SimAfterSet(nodes, frame, m0, log, s, a, n.dst, NodeValue(n, s.regs), b);
  }

  // ---------- branches ----------

  /** Same registers, memory and stack pointer. */
  ghost predicate SameButFlags(a: A64, n: A64) {
    n.sp == a.sp && n.mem == a.mem && forall r: bv8 :: IsProgramReg(r) ==> X(n, r) == X(a, r)
  }

  lemma LinksAfterMove(a: A64, n: A64)
    requires SameButFlags(a, n)
    ensures LinksSame(a, n)
  {
    hide X;
    assert IsProgramReg(29) && IsProgramReg(30);
  }

  lemma RegsAfterMove(regs: PhysRegs, a: A64, n: A64)
    requires RegsMatch(regs, a) && SameButFlags(a, n)
    ensures RegsMatch(regs, n)
  {
    forall r: bv8 | Mapped(r)
      ensures X(n, r) == Get(regs, PhysReg(r))
    {
      MappedIsProgram(r);
    }
  }

  lemma SimMoved(nodes: seq<IrNode>, frame: u16, m0: A64, log: FrameLog<A64>, s: IrState, a: A64, p: nat, n: A64)
    requires Sim(nodes, frame, m0, log, s, a) && s.pos < |nodes| && !nodes[s.pos].IrRet? && p <= |nodes|
    requires n.pc == Offset(AArch64, nodes, p) && SameButFlags(a, n)
    ensures Sim(nodes, frame, m0, log, s.(pos := p), n)
  {
    hide X, Offset, RegsMatch, FrameMatch, MemKept, SparedKept, Balanced, LinksSame, SameButFlags;
    RegsAfterMove(s.regs, a, n);
    LinksAfterMove(a, n);
    SpSame(a, n);
    FrameMatchKept(frame, m0, log, s, a, s.(pos := p), n);
    BalanceKept(nodes, s, s.(pos := p), log.count);
  }

  lemma JumpExecutes(m: A64, field: bv32, d: int)
    requires SignedField(field, 26) == d
    ensures Execute(m, Branch(field)) == Go(m.(pc := m.pc + d))
  {
    hide SignedField;
  }

  lemma CondExecutes(m: A64, cond: bv8, field: bv32, d: int)
    requires SignedField(field, 19) == d
    ensures Execute(m, CondBranch(cond, field)) == Go(m.(pc := m.pc + (if ConditionHolds(cond, m.flags) then d else 1)))
  {
    hide SignedField, ConditionHolds;
  }

  lemma ConditionByte(op: JmpOp)
    ensures ConditionCode(op) < 16
  {}

  /** Word distances of displacements that are whole words. */
  lemma WholeWords(d: int)
    ensures TruncDiv(4 * d, 4) == d
  {}

  /** How a branching node's last word got patched: its distance, in words, leads to the label. */
  lemma PatchedBranch(nodes: seq<IrNode>, code: seq<bv32>, i: nat, p: nat) returns (displacement: int)
    requires Image(AArch64, nodes, code) && i < |nodes| && Branching(nodes[i])
    requires FindLabel(nodes, TargetOf(nodes[i])) == Some(p)
    ensures Offset(AArch64, nodes, i + 1) >= 1
    ensures var last, words := Offset(AArch64, nodes, i + 1) - 1, NodeWords(AArch64, nodes[i]);
            && words != [] && last < |code| && A64InReach(nodes[i].IrBranch?, displacement)
            && code[last] == A64Patch(words[|words| - 1], nodes[i].IrBranch?, displacement)
            && TruncDiv(displacement, 4) == Offset(AArch64, nodes, p) - last
  {
    hide Offset, EmitAll, NodeWords, A64Patch, A64InReach, Image, FindLabel, TruncDiv;
    displacement := LinkedBranch(AArch64, nodes, code, i, p);
    WholeWords(Offset(AArch64, nodes, p) - (Offset(AArch64, nodes, i + 1) - 1));
  }

  /** The machine's own branch instruction, at the end of a conditional branch node. */
  lemma BranchWordStep(nodes: seq<IrNode>, code: seq<bv32>, i: nat, p: nat, m: A64) returns (n: A64)
    requires Image(AArch64, nodes, code) && i < |nodes| && nodes[i].IrBranch?
    requires FindLabel(nodes, nodes[i].target) == Some(p)
    requires m.pc == Offset(AArch64, nodes, i + 1) - 1
    ensures RunsTo(code, m, 1, n) && n == m.(pc := n.pc)
    ensures n.pc == if ConditionHolds(ConditionCode(nodes[i].cond.op), m.flags) then Offset(AArch64, nodes, p)
            else Offset(AArch64, nodes, i + 1)
  {
    hide *;
    var cond := ConditionCode(nodes[i].cond.op);
    ConditionByte(nodes[i].cond.op);
    CompareThenBranch(nodes[i]);
    NodeBranches(nodes[i]);
    var displacement := PatchedBranch(nodes, code, i, p);
    DecodeBCond(cond);
    PatchedCond(BCond(cond, 0), displacement);
    var d := TruncDiv(displacement, 4);
    StepPlaced(code, m, A64Patch(BCond(cond, 0), true, displacement));
    CondExecutes(m, cond, Imm19(d), d);
    n := m.(pc := m.pc + (if ConditionHolds(cond, m.flags) then d else 1));
    RunsOne(code, m, n);
  }

  lemma JumpWordStep(nodes: seq<IrNode>, code: seq<bv32>, i: nat, p: nat, m: A64) returns (n: A64)
    requires Image(AArch64, nodes, code) && i < |nodes| && nodes[i].IrJump?
    requires FindLabel(nodes, nodes[i].target) == Some(p)
    requires m.pc == Offset(AArch64, nodes, i + 1) - 1
    ensures RunsTo(code, m, 1, n) && n == m.(pc := Offset(AArch64, nodes, p))
  {
    hide *;
    NodeBranches(nodes[i]);
    var displacement := PatchedBranch(nodes, code, i, p);
    var w := NodeWords(AArch64, nodes[i])[|NodeWords(AArch64, nodes[i])| - 1];
    PatchedJump(w, displacement);
    var d := TruncDiv(displacement, 4);
    StepPlaced(code, m, A64Patch(w, false, displacement));
    JumpExecutes(m, Imm26(d), d);
    n := m.(pc := m.pc + d);
    RunsOne(code, m, n);
  }

  lemma CondMapped(c: BranchCond, regs: PhysRegs, a: A64)
    requires FaithfulCond(c) && Mapped(c.lhs.n) && MappedOperand(c.rhs) && RegsMatch(regs, a)
    ensures ProgramCond(c)
    ensures ConditionHolds(ConditionCode(c.op), FlagsFor(c, a)) == CondHolds(c, regs)
  {
    MappedIsProgram(c.lhs.n);
    OperandMatches(c.rhs, regs, a);
    assert PhysReg(c.lhs.n) == c.lhs;
    hide ConditionHolds, FlagsFor, CondHolds, FaithfulCond;
    DecisionAgrees(c, a, regs);
  }

  lemma BranchInFragment(frame: u16, n: IrNode)
    requires InFragment(frame, n) && n.IrBranch?
    ensures FaithfulCond(n.cond) && Mapped(n.cond.lhs.n) && MappedOperand(n.cond.rhs)
  {}

  lemma SimBranch(nodes: seq<IrNode>, code: seq<bv32>, frame: u16, m0: A64, log: FrameLog<A64>, s: IrState, a: A64,
          p: nat)
    returns (k: nat, b: A64)
    requires Image(AArch64, nodes, code) && Sim(nodes, frame, m0, log, s, a) && s.pos < |nodes|
    requires nodes[s.pos].IrBranch?
    requires InFragment(frame, nodes[s.pos]) && FindLabel(nodes, nodes[s.pos].target) == Some(p)
    ensures RunsTo(code, a, k, b) && k > 0
    ensures Sim(nodes, frame, m0, log, s.(pos := if CondHolds(nodes[s.pos].cond, s.regs) then p else s.pos + 1), b)
  {
    hide *;
    var c := nodes[s.pos].cond;
    BranchInFragment(frame, nodes[s.pos]);
    SimRegs(nodes, frame, m0, log, s, a);
    CondMapped(c, s.regs, a);
    var q := CompareNode(c, a);
    ComparePlaced(nodes, code, s.pos);
    StraightRuns(code, CompareWords(c), a, q);
    StraightPc(CompareWords(c), a, q);
    b := BranchWordStep(nodes, code, s.pos, p, q);
    k := RunsChain(code, a, |CompareWords(c)|, q, 1, b);
    ComparedThenBranched(a, q, b, FlagsFor(c, a));
    SimMoved(nodes, frame, m0, log, s, a, if CondHolds(c, s.regs) then p else s.pos + 1, b);
  }

  lemma ComparedThenBranched(a: A64, q: A64, b: A64, f: Flags)
    requires OnlyFlags(a, q, f) && b == q.(pc := b.pc)
    ensures SameButFlags(a, b) && q.flags == f
  {}

  lemma SimJump(nodes: seq<IrNode>, code: seq<bv32>, frame: u16, m0: A64, log: FrameLog<A64>, s: IrState, a: A64,
          p: nat)
    returns (b: A64)
    requires Image(AArch64, nodes, code) && Sim(nodes, frame, m0, log, s, a) && s.pos < |nodes|
    requires nodes[s.pos].IrJump?
    requires FindLabel(nodes, nodes[s.pos].target) == Some(p)
    ensures RunsTo(code, a, 1, b) && Sim(nodes, frame, m0, log, s.(pos := p), b)
  {
    hide *;
    JumpHasOneWord(nodes[s.pos]);
    SimRegs(nodes, frame, m0, log, s, a);
    OffsetNext(AArch64, nodes, s.pos);
    b := JumpWordStep(nodes, code, s.pos, p, a);
    SameAtPcSelf(a, b);
    SimMoved(nodes, frame, m0, log, s, a, p, b);
  }

  lemma JumpHasOneWord(n: IrNode)
    requires n.IrJump?
    ensures |NodeWords(AArch64, n)| == 1
  {}

  lemma SameAtPcSelf(a: A64, b: A64)
    requires b == a.(pc := b.pc)
    ensures SameButFlags(a, b)
  {}

  lemma LabelTakesNoSpace(nodes: seq<IrNode>, i: nat)
    requires i < |nodes| && nodes[i].IrLabel?
    ensures Offset(AArch64, nodes, i + 1) == Offset(AArch64, nodes, i)
  {
    OffsetNext(AArch64, nodes, i);
    hide Offset;
    assert NodeWords(AArch64, nodes[i]) == [];
  }

  lemma SimLabel(nodes: seq<IrNode>, frame: u16, m0: A64, log: FrameLog<A64>, s: IrState, a: A64)
    requires Sim(nodes, frame, m0, log, s, a) && s.pos < |nodes| && nodes[s.pos].IrLabel?
    ensures Sim(nodes, frame, m0, log, s.(pos := s.pos + 1), a)
  {
    hide *;
    SimRegs(nodes, frame, m0, log, s, a);
    LabelTakesNoSpace(nodes, s.pos);
    SameAtPcSelf(a, a);
    SimMoved(nodes, frame, m0, log, s, a, s.pos + 1, a);
  }

  // ---------- frames ----------

  lemma RegsOpened(regs: PhysRegs, a: A64, n: A64)
    requires RegsMatch(regs, a) && FramePointerZero(a, n)
    ensures RegsMatch(regs, n)
  {
    forall r: bv8 | Mapped(r)
      ensures X(n, r) == Get(regs, PhysReg(r))
    {
      MappedIsProgram(r);
    }
  }

  /** The log after one more prologue, run from state a. */
  function Logged(log: FrameLog<A64>, a: A64): FrameLog<A64> { FrameLog(log.count + 1, a) }

  lemma FrameOpened(frame: u16, m0: A64, log: FrameLog<A64>, s: IrState, a: A64, n: A64)
    requires FrameMatch(frame, m0, log, s, a) && |s.frames| == log.count && RegsMatch(s.regs, a)
    requires FrameBytes(frame) && Opened(a, n, frame)
    ensures FrameMatch(frame, m0, Logged(log, a), s.(frames := [s.regs] + s.frames, pos := s.pos + 1), n)
    ensures n.sp == Down(m0.sp, frame, log.count + 1)
  {
    hide X, RegsMatch, OutsideKept, Saved, Wrap64;
    OpenedLinks(a, n);
  }

  lemma OpenedLinks(a: A64, n: A64)
    requires FramePointerZero(a, n)
    ensures X(n, 30) == X(a, 30) && forall r: bv8 :: Spared(r) ==> X(n, r) == X(a, r)
  {
    hide X;
  }

  lemma SimOpened(nodes: seq<IrNode>, frame: u16, m0: A64, log: FrameLog<A64>, s: IrState, a: A64, n: A64)
    requires Sim(nodes, frame, m0, log, s, a) && s.pos < |nodes| && !nodes[s.pos].IrRet? && FrameBytes(frame)
    requires Opened(a, n, frame) && n.pc == Offset(AArch64, nodes, s.pos + 1)
    ensures Sim(nodes, frame, m0, Logged(log, a), s.(frames := [s.regs] + s.frames, pos := s.pos + 1), n)
  {
    hide Offset, X, RegsMatch, OutsideAll, OutsideKept, Saved, FramePointerZero, Wrap64, EmitAll, NodeWords, FrameMatch,
         Down, Spared;
    RegsOpened(s.regs, a, n);
    FrameOpened(frame, m0, log, s, a, n);
    OpenedLinks(a, n);
    OutsideNext(m0.mem, a.mem, n.mem, m0.sp, frame, log.count);
  }

  lemma PrologueShape(nodes: seq<IrNode>, frame: u16, i: nat)
    requires i < |nodes| && nodes[i].IrPrologue? && InFragment(frame, nodes[i])
    ensures FrameBytes(frame) && NodeWords(AArch64, nodes[i]) == PrologueWords(frame) && !Branching(nodes[i])
  {}

  lemma SimPrologue(nodes: seq<IrNode>, code: seq<bv32>, frame: u16, m0: A64, log: FrameLog<A64>, s: IrState, a: A64)
    returns (k: nat, b: A64)
    requires Image(AArch64, nodes, code) && Sim(nodes, frame, m0, log, s, a) && s.pos < |nodes|
    requires nodes[s.pos].IrPrologue? && InFragment(frame, nodes[s.pos])
    ensures RunsTo(code, a, k, b) && k > 0
    ensures Sim(nodes, frame, m0, Logged(log, a), s.(frames := [s.regs] + s.frames, pos := s.pos + 1), b)
  {
    hide *;
    SimRegs(nodes, frame, m0, log, s, a);
    PrologueShape(nodes, frame, s.pos);
    b := PrologueNode(frame, a);
    NodePlaced(nodes, code, s.pos);
    StraightRuns(code, PrologueWords(frame), a, b);
    StraightPc(PrologueWords(frame), a, b);
    k := |PrologueWords(frame)|;
    FrameHasWords(frame);
    SimOpened(nodes, frame, m0, log, s, a, b);
  }

  /** The registers an epilogue reloads, as the IR restores them. */
  lemma RegsClosed(s: IrState, saver: A64, a: A64, n: A64)
    requires RegsMatch(s.regs, a) && s.frames != [] && RegsMatch(s.frames[0], saver) && RegsReloaded(a, n, saver, 4)
    ensures RegsMatch(Restore(s.regs, s.frames[0], SAVED), n)
  {
    hide Restore;
    forall r: bv8 | Mapped(r)
      ensures X(n, r) == Get(Restore(s.regs, s.frames[0], SAVED), PhysReg(r))
    {
      MappedIsProgram(r);
      RestoreGet(s.regs, s.frames[0], SAVED, PhysReg(r));
      ReloadedIsSaved(r);
    }
  }

  lemma ReloadedIsSaved(r: bv8)
    requires Mapped(r)
    ensures PhysReg(r) in SAVED <==> Reloaded(4, r)
  {
    assert SAVED[0] == PhysReg(19) && SAVED[1] == PhysReg(20) && SAVED[2] == PhysReg(21);
    assert SAVED[3] == PhysReg(22) && SAVED[4] == PhysReg(25);
  }

  lemma FrameClosed(frame: u16, m0: A64, log: FrameLog<A64>, s: IrState, a: A64, t: IrState, n: A64)
    requires FrameMatch(frame, m0, log, s, a) && s.frames != [] && |s.frames| == log.count && t.frames == s.frames[1..]
    requires FrameBytes(frame) && frame != 512 && Closed(a, n, log.saver, frame)
    ensures FrameMatch(frame, m0, log, t, n) && (m0.sp % 16 == 0 ==> n.sp % 16 == 0)
  {
    hide X, RegsMatch, Saved, RegsReloaded, Wrap64, Release;
    LinksReloaded(a, n, log.saver);
    StackPointerBack(Down(m0.sp, frame, log.count - 1), frame);
    if m0.sp % 16 == 0 {
      DownAligned(m0.sp, frame, log.count - 1);
    }
  }

  lemma LinksReloaded(a: A64, n: A64, saver: A64)
    requires RegsReloaded(a, n, saver, 4)
    ensures X(n, 29) == X(saver, 29) && X(n, 30) == X(saver, 30)
    ensures forall r: bv8 :: Spared(r) ==> X(n, r) == X(a, r)
  {
    hide X;
    assert Reloaded(4, 29) && Reloaded(4, 30);
  }

  lemma SimClosed(nodes: seq<IrNode>, frame: u16, m0: A64, log: FrameLog<A64>, s: IrState, a: A64, t: IrState, n: A64)
    requires Sim(nodes, frame, m0, log, s, a) && s.pos < |nodes| && nodes[s.pos].IrEpilogue? && s.frames != []
    requires FrameBytes(frame) && frame != 512 && ReturnsNext(nodes, s.pos)
    requires Closed(a, n, log.saver, frame) && n.pc == Offset(AArch64, nodes, s.pos + 1)
    requires t == s.(regs := Restore(s.regs, s.frames[0], SAVED), frames := s.frames[1..], pos := s.pos + 1)
    ensures Sim(nodes, frame, m0, log, t, n)
  {
    SavedFrame(frame, m0, log, s, a);
    hide Offset, X, RegsMatch, OutsideAll, Restore, RegsReloaded, FrameMatch, Wrap64, Release, EmitAll,
         NodeWords, Spared;
    RegsClosed(s, log.saver, a, n);
    FrameClosed(frame, m0, log, s, a, t, n);
    LinksReloaded(a, n, log.saver);
  }

  lemma SavedFrame(frame: u16, m0: A64, log: FrameLog<A64>, s: IrState, a: A64)
    requires FrameMatch(frame, m0, log, s, a) && s.frames != [] && |s.frames| == log.count
    ensures Saved(a.mem, a.sp, log.saver) && RegsMatch(s.frames[0], log.saver)
  {
    hide X, RegsMatch, Saved;
  }

  lemma EpilogueShape(nodes: seq<IrNode>, frame: u16, i: nat)
    requires i < |nodes| && nodes[i].IrEpilogue? && InFragment(frame, nodes[i])
    ensures FrameBytes(frame) && frame != 512 && NodeWords(AArch64, nodes[i]) == EpilogueWords(frame)
    ensures !Branching(nodes[i])
  {}

  lemma SimOpenFrame(nodes: seq<IrNode>, frame: u16, m0: A64, log: FrameLog<A64>, s: IrState, a: A64)
    requires Sim(nodes, frame, m0, log, s, a) && s.frames != [] && s.pos < |nodes| && !nodes[s.pos].IrRet?
    ensures a.sp % 16 == 0 && Saved(a.mem, a.sp, log.saver)
  {
    hide Offset, Saved, RegsMatch, OutsideAll, X, FrameMatch, SparedKept;
    SavedFrame(frame, m0, log, s, a);
  }

  lemma SimEpilogue(nodes: seq<IrNode>, code: seq<bv32>, frame: u16, m0: A64, log: FrameLog<A64>, s: IrState, a: A64)
    returns (k: nat, b: A64)
    requires Image(AArch64, nodes, code) && Sim(nodes, frame, m0, log, s, a) && s.pos < |nodes|
    requires nodes[s.pos].IrEpilogue? && InFragment(frame, nodes[s.pos]) && s.frames != []
    requires EpiloguesReturn(nodes)
    ensures RunsTo(code, a, k, b) && k > 0
    ensures Sim(nodes, frame, m0, log,
            s.(regs := Restore(s.regs, s.frames[0], SAVED), frames := s.frames[1..], pos := s.pos + 1), b)
  {
    hide *;
    SimRegs(nodes, frame, m0, log, s, a);
    SimOpenFrame(nodes, frame, m0, log, s, a);
    EpilogueShape(nodes, frame, s.pos);
    b := EpilogueNode(frame, a, log.saver);
    NodePlaced(nodes, code, s.pos);
    StraightRuns(code, EpilogueWords(frame), a, b);
    StraightPc(EpilogueWords(frame), a, b);
    k := |EpilogueWords(frame)|;
    FrameHasWords(frame);
    var t := s.(regs := Restore(s.regs, s.frames[0], SAVED), frames := s.frames[1..], pos := s.pos + 1);
    ReturnAfter(nodes, s.pos);
    SimClosed(nodes, frame, m0, log, s, a, t, b);
  }

  // ---------- one node, many nodes ----------

  /** One step of the IR is matched by some steps of the machine: at least one, but at a label. */
  lemma SimStep(nodes: seq<IrNode>, code: seq<bv32>, frame: u16, stackAddr: u64, m0: A64, log: FrameLog<A64>,
          s: IrState, a: A64, depth: nat, u: IrState)
    returns (k: nat, b: A64, log': FrameLog<A64>)
    requires Image(AArch64, nodes, code) && Sim(nodes, frame, m0, log, s, a)
    requires IrStep(nodes, Aarch64Abi(depth), stackAddr, s) == Next(u)
    requires EpiloguesReturn(nodes) && forall i :: 0 <= i < |nodes| ==> InFragment(frame, nodes[i])
    ensures RunsTo(code, a, k, b) && Sim(nodes, frame, m0, log', u, b) && (k > 0 || LabelPassed(nodes, s, u))
  {
    hide Sim, Image, RunsTo, InFragment, FindLabel, EvalAlu64, EvalAlu32, Restore, CondHolds;
    log' := log;
    var n := nodes[s.pos];
    match n
    case IrAlu64(_, _, _) =>
      k, b := SimSet(nodes, code, frame, m0, log, s, a);
    case IrAlu32(_, _, _) =>
      k, b := SimSet(nodes, code, frame, m0, log, s, a);
    case IrLoadImm64(_, _) =>
      k, b := SimSet(nodes, code, frame, m0, log, s, a);
    case IrEndian(_, _, _) =>
      k, b := SimSet(nodes, code, frame, m0, log, s, a);
    case IrBranch(c, bb) =>
      BranchHasLabel(AArch64, nodes, code, s.pos);
      k, b := SimBranch(nodes, code, frame, m0, log, s, a, FindLabel(nodes, bb).value);
    case IrJump(bb) =>
      k := 1;
      b := SimJump(nodes, code, frame, m0, log, s, a, FindLabel(nodes, bb).value);
    case IrLabel(_) =>
      k, b := 0, a;
      RunsNowhere(code, a);
      SimLabel(nodes, frame, m0, log, s, a);
    case IrPrologue(_) =>
      k, b := SimPrologue(nodes, code, frame, m0, log, s, a);
      log' := Logged(log, a);
    case IrEpilogue(_) =>
      k, b := SimEpilogue(nodes, code, frame, m0, log, s, a);
    case _ => NotInFragment(frame, n);
  }

  lemma NotInFragment(frame: u16, n: IrNode)
    requires n.IrLoad? || n.IrStore? || n.IrStoreImm? || n.IrCall? || n.IrSpill? || n.IrFill? ||
             n.IrAtomic?
    ensures !InFragment(frame, n)
  {}

  lemma RunsNowhere(code: seq<bv32>, a: A64)
    ensures RunsTo(code, a, 0, a)
  {}

  /** Runs of the IR are matched by runs of the machine, at least half as long. */
  lemma {:induction false} SimRuns(nodes: seq<IrNode>, code: seq<bv32>, frame: u16, stackAddr: u64, m0: A64,
          log: FrameLog<A64>, s: IrState, a: A64, depth: nat, j: nat, u: IrState)
    returns (k: nat, b: A64, log': FrameLog<A64>)
    requires Image(AArch64, nodes, code) && Sim(nodes, frame, m0, log, s, a)
    requires Reaches(nodes, Aarch64Abi(depth), stackAddr, s, j, u)
    requires NoAdjacentLabels(nodes) && EpiloguesReturn(nodes)
    requires forall i :: 0 <= i < |nodes| ==> InFragment(frame, nodes[i])
    ensures RunsTo(code, a, k, b) && Sim(nodes, frame, m0, log', u, b)
    ensures 2 * k + (if AfterLabel(nodes, u.pos) then 1 else 0) >= j
    decreases j
  {
    hide Sim, Image, RunsTo, InFragment, IrStep;
    if j == 0 {
      k, b, log' := 0, a, log;
      RunsNowhere(code, a);
    } else {
      var v := IrSteps(nodes, Aarch64Abi(depth), stackAddr, s, j - 1).value;
      var k1, b1, log1 := SimRuns(nodes, code, frame, stackAddr, m0, log, s, a, depth, j - 1, v);
      var k2;
      k2, b, log' := SimStep(nodes, code, frame, stackAddr, m0, log1, v, b1, depth, u);
      k := RunsChain(code, a, k1, b1, k2, b);
      assert LabelPassed(nodes, v, u) ==> !AfterLabel(nodes, v.pos) && AfterLabel(nodes, u.pos);
    }
  }

  lemma ReturnExecutes(m: A64)
    ensures Execute(m, Decode(Ret())) == Returns(m)
  {
    DecodeReturn();
    hide Decode;
  }

  lemma MoveResult(a: A64) returns (b: A64)
    ensures Straight([MovX(0, 7)], a, b) && SetsReg(a, b, 0, X(a, 7))
  {
    OrrZero(true, X(a, 7));
    hide RegReg, Straight, DataResult, Decode, SetsReg;
    b := DataStep(0xAA000000, OpOrr, 0, 31, 7, a);
  }

  /** The state in which the machine returns: the result in X0 and the callee-saved registers as the
      IR has them, the stack pointer below its value on entry by the frames still open. */
  ghost predicate ReturnedWith(frame: u16, m0: A64, count: nat, s: IrState, b: A64) {
    && X(b, 0) == Get(s.regs, PhysReg(7)) && b.sp == Down(m0.sp, frame, |s.frames|) && MemKept(frame, count, m0, b)
    && X(b, 30) == X(m0, 30) && (s.frames == [] ==> X(b, 29) == X(m0, 29)) && SparedKept(m0, b)
    && forall r: bv8 :: PhysReg(r) in SAVED ==> X(b, r) == Get(s.regs, PhysReg(r))
  }

  lemma SavedMapped(r: bv8)
    requires PhysReg(r) in SAVED
    ensures Mapped(r) && r != 0
  {}

  lemma ReturnState(nodes: seq<IrNode>, frame: u16, m0: A64, log: FrameLog<A64>, s: IrState, a: A64, b: A64)
    requires Sim(nodes, frame, m0, log, s, a) && SetsReg(a, b, 0, X(a, 7))
    ensures ReturnedWith(frame, m0, log.count, s, b)
  {
    assert Mapped(7);
    hide Offset, OutsideAll, Get, Down, Holds, X, Mapped;
    forall r: bv8 | PhysReg(r) in SAVED
      ensures X(b, r) == Get(s.regs, PhysReg(r))
    {
      SavedMapped(r);
    }
  }

  lemma RetWords(nodes: seq<IrNode>, code: seq<bv32>, i: nat)
    requires Image(AArch64, nodes, code) && i < |nodes| && nodes[i].IrRet?
    ensures Placed(code, Offset(AArch64, nodes, i), [MovX(0, 7)])
    ensures Offset(AArch64, nodes, i) + 1 < |code| && code[Offset(AArch64, nodes, i) + 1] == Ret()
  {
    assert NodeWords(AArch64, nodes[i]) == [MovX(0, 7), Ret()];
    hide Image, Offset, MovX, Ret;
    NodePlaced(nodes, code, i);
    hide NodeWords;
    assert code[Offset(AArch64, nodes, i) + 0] == [MovX(0, 7), Ret()][0];
    assert code[Offset(AArch64, nodes, i) + 1] == [MovX(0, 7), Ret()][1];
  }

  /** An IR return is a machine return with the same value. */
  lemma SimReturn(nodes: seq<IrNode>, code: seq<bv32>, frame: u16, m0: A64, log: FrameLog<A64>, s: IrState, a: A64)
    returns (b: A64)
    requires Image(AArch64, nodes, code) && Sim(nodes, frame, m0, log, s, a) && s.pos < |nodes|
    requires nodes[s.pos].IrRet?
    ensures RunsTo(code, a, 1, b) && MachineStep(code, b) == Returns(b) && ReturnedWith(frame, m0, log.count, s, b)
  {
    hide *;
    SimRegs(nodes, frame, m0, log, s, a);
    RetWords(nodes, code, s.pos);
    b := MoveResult(a);
    StraightRuns(code, [MovX(0, 7)], a, b);
    StraightPc([MovX(0, 7)], a, b);
    StepPlaced(code, b, Ret());
    ReturnExecutes(b);
    ReturnState(nodes, frame, m0, log, s, a, b);
  }
}
