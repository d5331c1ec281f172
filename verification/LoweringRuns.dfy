/** Runs of lowered code match runs of the interpreter, instruction by instruction. */
module LoweringRuns {
  import opened Isa
  import opened Flow
  import opened Interpreter
  import opened Ir
  import opened Lowering
  import opened LoweringMeaning
  import opened Runs

  // ---------- registers ----------

  /** Every eBPF register has its value in the physical register it is mapped to. */
  predicate Mirrors(m: RegMap, regs: Regs, phys: PhysRegs)
    requires ValidMap(m)
  {
    forall r: BpfReg :: Get(phys, Phys(m, r)) == regs[r]
  }

  lemma MirrorsUpdate(m: RegMap, regs: Regs, phys: PhysRegs, dst: BpfReg, v: u64)
    requires ValidMap(m) && Injective(m) && Mirrors(m, regs, phys)
    ensures Mirrors(m, regs[dst := v], phys[Phys(m, dst) := v])
  {
    forall r: BpfReg
      ensures Get(phys[Phys(m, dst) := v], Phys(m, r)) == regs[dst := v][r]
    {
      GetUpdate(phys, Phys(m, dst), v, Phys(m, r));
    }
  }

  lemma SourceMirrors(m: RegMap, regs: Regs, phys: PhysRegs, src: Source)
    requires ValidMap(m) && Mirrors(m, regs, phys)
    ensures OperandValue(TranslateSource(m, src), phys) == ResolveSource(src, regs)
  {}

  // ---------- positions ----------

  /** A lowered program for a target. */
  ghost predicate Lowered(insns: seq<Insn>, m: RegMap, t: TargetAbi, nodes: seq<IrNode>) {
    && ValidMap(m) && Injective(m) && Lowerable(insns) && Addressable(insns) && NoTailCall(insns)
    && nodes == FlatTo(insns, m, FrameSize(insns), |insns|)
    && t.ret == Phys(m, 0) && t.saved == SavedRegs(m)
  }

  /** The registers that R6 to R10 live in are the callee's to preserve. */
  function SavedRegs(m: RegMap): seq<PhysReg>
    requires ValidMap(m)
  {
    [Phys(m, 6), Phys(m, 7), Phys(m, 8), Phys(m, 9), Phys(m, 10)]
  }

  lemma {:induction false} FlatPrefix(insns: seq<Insn>, m: RegMap, frame: u16, j: nat, k: nat)
    requires ValidMap(m) && BranchesInRange(insns) && j <= k <= |insns|
    ensures FlatTo(insns, m, frame, j) <= FlatTo(insns, m, frame, k)
    decreases k
  {
    hide Chunk;
    if j < k {
      FlatPrefix(insns, m, frame, j, k - 1);
    }
  }

  lemma InPrefix(a: seq<IrNode>, c: seq<IrNode>, whole: seq<IrNode>, i: nat)
    requires a + c <= whole && i < |c|
    ensures |a| + i < |whole| && whole[|a| + i] == c[i]
  {
    assert (a + c)[|a| + i] == c[i];
  }

  lemma FlatStep(insns: seq<Insn>, m: RegMap, frame: u16, pc: nat)
    requires ValidMap(m) && BranchesInRange(insns) && pc < |insns|
    ensures FlatTo(insns, m, frame, pc + 1) == FlatTo(insns, m, frame, pc) + Chunk(insns, m, frame, pc)
  {
    hide Chunk;
  }

  lemma NodeInChunk(insns: seq<Insn>, m: RegMap, frame: u16, pc: nat, i: nat)
    requires ValidMap(m) && BranchesInRange(insns) && pc < |insns| && i < |Chunk(insns, m, frame, pc)|
    ensures var at := |FlatTo(insns, m, frame, pc)| + i;
            at < |FlatTo(insns, m, frame, |insns|)|
            && FlatTo(insns, m, frame, |insns|)[at] == Chunk(insns, m, frame, pc)[i]
  {
    hide FlatTo, Chunk, BranchesInRange;
    FlatStep(insns, m, frame, pc);
    FlatPrefix(insns, m, frame, pc + 1, |insns|);
    InPrefix(FlatTo(insns, m, frame, pc), Chunk(insns, m, frame, pc), FlatTo(insns, m, frame, |insns|), i);
  }

  /** The nodes before the lowered instruction proper: label and prologue. */
  function HeadLength(insns: seq<Insn>, frame: u16, pc: nat): nat
    requires pc < |insns|
  {
    (if IsLeader(insns, true, pc) then 1 else 0) + (if pc == 0 && frame > 0 then 1 else 0)
  }

  lemma NodesOf(insns: seq<Insn>, m: RegMap, frame: u16, pc: nat, i: nat)
    requires ValidMap(m) && BranchesInRange(insns) && pc < |insns| && i < |LowerInsn(insns, m, frame, pc)|
    ensures var at := |FlatTo(insns, m, frame, pc)| + HeadLength(insns, frame, pc) + i;
            at < |FlatTo(insns, m, frame, |insns|)|
            && FlatTo(insns, m, frame, |insns|)[at] == LowerInsn(insns, m, frame, pc)[i]
  {
    hide LowerInsn, FlatTo, IsLeader, BlockOf, BranchesInRange;
    NodeInChunk(insns, m, frame, pc, HeadLength(insns, frame, pc) + i);
  }

  // ---------- entries ----------

  /** How often p visits instruction 0. */
  function Entries(p: seq<nat>): nat {
    if p == [] then 0 else Entries(p[..|p| - 1]) + (if p[|p| - 1] == 0 then 1 else 0)
  }

  /** Frames on the stack after visiting the instructions of p. */
  function Depth(frame: u16, p: seq<nat>): nat { if frame == 0 then 0 else Entries(p) }

  /** The lowered code stands at the chunk of the interpreter's next instruction, with the same
      registers and stack, and one frame for every visit to instruction 0 in `visited`. */
  predicate Matches(insns: seq<Insn>, m: RegMap, frame: u16, visited: seq<nat>, s: State, ir: IrState)
    requires ValidMap(m) && BranchesInRange(insns)
  {
    && s.pc <= |insns| && ir.pos == |FlatTo(insns, m, frame, s.pc)|
    && ir.stack == s.stack && Mirrors(m, s.regs, ir.regs) && |ir.frames| == Depth(frame, visited)
  }

  /** Standing before the lowered instruction itself, past its label and prologue. */
  predicate Inside(insns: seq<Insn>, m: RegMap, frame: u16, visited: seq<nat>, s: State, ir: IrState)
    requires ValidMap(m) && BranchesInRange(insns)
  {
    && s.pc < |insns| && ir.pos == |FlatTo(insns, m, frame, s.pc)| + HeadLength(insns, frame, s.pc)
    && ir.stack == s.stack && Mirrors(m, s.regs, ir.regs) && |ir.frames| == Depth(frame, visited + [s.pc])
  }

  lemma DepthStep(frame: u16, visited: seq<nat>, pc: nat)
    ensures Depth(frame, visited + [pc]) == Depth(frame, visited) + (if frame > 0 && pc == 0 then 1 else 0)
  {
    assert (visited + [pc])[..|visited|] == visited;
  }

  lemma LabelStep(nodes: seq<IrNode>, t: TargetAbi, stackAddr: u64, ir: IrState) returns (ir': IrState)
    requires ir.pos < |nodes| && nodes[ir.pos].IrLabel?
    ensures Reaches(nodes, t, stackAddr, ir, 1, ir') && ir' == ir.(pos := ir.pos + 1)
  {
    ir' := ir.(pos := ir.pos + 1);
    ReachesStep(nodes, t, stackAddr, ir, ir');
  }

  lemma PrologueStep(nodes: seq<IrNode>, t: TargetAbi, stackAddr: u64, ir: IrState) returns (ir': IrState)
    requires ir.pos < |nodes| && nodes[ir.pos].IrPrologue? && |ir.frames| < t.maxFrames
    ensures Reaches(nodes, t, stackAddr, ir, 1, ir')
    ensures ir' == ir.(frames := [ir.regs] + ir.frames, pos := ir.pos + 1)
  {
    ir' := ir.(frames := [ir.regs] + ir.frames, pos := ir.pos + 1);
    ReachesStep(nodes, t, stackAddr, ir, ir');
  }

  lemma ChunkHead(insns: seq<Insn>, m: RegMap, frame: u16, pc: nat)
    requires ValidMap(m) && BranchesInRange(insns) && pc < |insns|
    ensures IsLeader(insns, true, pc) ==> |Chunk(insns, m, frame, pc)| > 0 && Chunk(insns, m, frame, pc)[0].IrLabel?
    ensures pc == 0 && frame > 0 ==> |Chunk(insns, m, frame, pc)| > 1 && Chunk(insns, m, frame, pc)[1].IrPrologue?
    ensures pc == 0 ==> IsLeader(insns, true, pc)
  {
    hide LowerInsn;
  }

  /** A prologue pushes the registers; a label alone changes nothing. */
  predicate FramesOnEntry(frame: u16, pc: nat, before: IrState, after: IrState) {
    if pc == 0 && frame > 0 then after.frames == [before.regs] + before.frames else after.frames == before.frames
  }

  lemma HeadSteps(nodes: seq<IrNode>, t: TargetAbi, stackAddr: u64, ir: IrState, leader: bool, opens: bool)
    returns (j: nat, ir': IrState)
    requires leader ==> ir.pos < |nodes| && nodes[ir.pos].IrLabel?
    requires opens ==> leader && ir.pos + 1 < |nodes| && nodes[ir.pos + 1].IrPrologue? && |ir.frames| < t.maxFrames
    ensures Reaches(nodes, t, stackAddr, ir, j, ir')
    ensures ir'.pos == ir.pos + (if leader then 1 else 0) + (if opens then 1 else 0)
    ensures ir'.regs == ir.regs && ir'.stack == ir.stack
    ensures ir'.frames == if opens then [ir.regs] + ir.frames else ir.frames
  {
    if opens {
      var labelled := LabelStep(nodes, t, stackAddr, ir);
      ir' := PrologueStep(nodes, t, stackAddr, labelled);
      j := ReachesChain(nodes, t, stackAddr, ir, 1, labelled, 1, ir');
    } else if leader {
      j := 1;
      ir' := LabelStep(nodes, t, stackAddr, ir);
    } else {
      j, ir' := 0, ir;
    }
  }

  /** Label and prologue. */
  lemma EnterChunk(insns: seq<Insn>, m: RegMap, t: TargetAbi, nodes: seq<IrNode>, stackAddr: u64, visited: seq<nat>,
          s: State, ir: IrState)
    returns (j: nat, ir': IrState)
    requires Lowered(insns, m, t, nodes) && s.pc < |insns|
    requires Matches(insns, m, FrameSize(insns), visited, s, ir)
    requires Depth(FrameSize(insns), visited + [s.pc]) <= t.maxFrames
    ensures Reaches(nodes, t, stackAddr, ir, j, ir')
    ensures Inside(insns, m, FrameSize(insns), visited, s, ir')
    ensures FramesOnEntry(FrameSize(insns), s.pc, ir, ir')
  {
    hide *;
    LoweredNodes(insns, m, t, nodes);
    var frame := FrameSize(insns);
    DepthStep(frame, visited, s.pc);
    MatchesParts(insns, m, frame, visited, s, ir);
    LeaderAtZero(insns, m, frame);
    HeadNodes(insns, m, frame, s.pc);
    j, ir' := HeadSteps(nodes, t, stackAddr, ir, IsLeader(insns, true, s.pc), s.pc == 0 && frame > 0);
    NowInside(insns, m, frame, visited, s, ir, ir');
  }

  lemma LoweredNodes(insns: seq<Insn>, m: RegMap, t: TargetAbi, nodes: seq<IrNode>)
    requires Lowered(insns, m, t, nodes)
    ensures ValidMap(m) && Lowerable(insns) && BranchesInRange(insns) && |insns| > 0
    ensures nodes == FlatTo(insns, m, FrameSize(insns), |insns|)
  {
    hide FlatTo, FrameSize;
  }

  lemma MatchesParts(insns: seq<Insn>, m: RegMap, frame: u16, visited: seq<nat>, s: State, ir: IrState)
    requires ValidMap(m) && BranchesInRange(insns) && s.pc <= |insns| && Matches(insns, m, frame, visited, s, ir)
    ensures ir.pos == |FlatTo(insns, m, frame, s.pc)| && |ir.frames| == Depth(frame, visited)
  {}

  lemma LeaderAtZero(insns: seq<Insn>, m: RegMap, frame: u16)
    requires ValidMap(m) && BranchesInRange(insns) && |insns| > 0
    ensures IsLeader(insns, true, 0)
  {}

  lemma NowInside(insns: seq<Insn>, m: RegMap, frame: u16, visited: seq<nat>, s: State, ir: IrState, ir': IrState)
    requires ValidMap(m) && BranchesInRange(insns) && s.pc < |insns| && Matches(insns, m, frame, visited, s, ir)
    requires ir'.pos == ir.pos + (if IsLeader(insns, true, s.pc) then 1 else 0) +
             (if s.pc == 0 && frame > 0 then 1 else 0)
    requires ir'.regs == ir.regs && ir'.stack == ir.stack
    requires ir'.frames == if s.pc == 0 && frame > 0 then [ir.regs] + ir.frames else ir.frames
    ensures Inside(insns, m, frame, visited, s, ir') && FramesOnEntry(frame, s.pc, ir, ir')
  {
    hide FlatTo, IsLeader, Depth, Mirrors;
    DepthStep(frame, visited, s.pc);
  }

  lemma HeadNodes(insns: seq<Insn>, m: RegMap, frame: u16, pc: nat)
    requires ValidMap(m) && BranchesInRange(insns) && pc < |insns|
    ensures var at, nodes := |FlatTo(insns, m, frame, pc)|, FlatTo(insns, m, frame, |insns|);
            && (IsLeader(insns, true, pc) ==> at < |nodes| && nodes[at].IrLabel?)
            && (pc == 0 && frame > 0 ==> at + 1 < |nodes| && nodes[at + 1].IrPrologue?)
  {
    ChunkHead(insns, m, frame, pc);
    hide Chunk, FlatTo, IsLeader;
    if IsLeader(insns, true, pc) {
      NodeInChunk(insns, m, frame, pc, 0);
    }
    if pc == 0 && frame > 0 {
      NodeInChunk(insns, m, frame, pc, 1);
    }
  }

  // ---------- one instruction ----------

  predicate IsEffect(i: Insn) { !IsBranch(i) && !i.Exit? && !i.TailCall? }

  /** The node does to the physical registers what the instruction does to the eBPF registers. */
  lemma EffectNode(insns: seq<Insn>, m: RegMap, frame: u16, t: TargetAbi, nodes: seq<IrNode>, stackAddr: u64, pc: nat,
          regs: Regs, ir: IrState)
    requires ValidMap(m) && Injective(m) && BranchesInRange(insns) && pc < |insns| && IsEffect(insns[pc])
    requires t.ret == Phys(m, 0) && Mirrors(m, regs, ir.regs)
    requires ir.pos < |nodes| && nodes[ir.pos] == LowerInsn(insns, m, frame, pc)[0]
    ensures |LowerInsn(insns, m, frame, pc)| == 1
    ensures var e, r := Effect(insns[pc], stackAddr, regs, ir.stack), IrStep(nodes, t, stackAddr, ir);
            if e.None? then r.Stuck?
            else
              && r.Next? && r.state.pos == ir.pos + 1 && r.state.stack == e.value.1
              && r.state.frames == ir.frames && Mirrors(m, e.value.0, r.state.regs)
  {
    hide EvalAlu64, EvalAlu32, EvalEndian, ReadStack, WriteStack, BlockOf, Injective;
    match insns[pc]
    case Alu64(op, dst, src) =>
      SourceMirrors(m, regs, ir.regs, src);
      MirrorsUpdate(m, regs, ir.regs, dst, EvalAlu64(op, regs[dst], ResolveSource(src, regs)));
    case Alu32(op, dst, src) =>
      SourceMirrors(m, regs, ir.regs, src);
      MirrorsUpdate(m, regs, ir.regs, dst, EvalAlu32(op, Wrap32(regs[dst]), Wrap32(ResolveSource(src, regs))));
    case LoadImm64(dst, imm) => MirrorsUpdate(m, regs, ir.regs, dst, imm);
    case Load(width, dst, base, off) =>
      var v := ReadStack(ir.stack, StackOffset(stackAddr, regs[base], off), width);
      if v.Some? {
        MirrorsUpdate(m, regs, ir.regs, dst, v.value);
      }
    case Call(_) => MirrorsUpdate(m, regs, ir.regs, 0, 0);
    case Endian(toBe, width, dst) => MirrorsUpdate(m, regs, ir.regs, dst, EvalEndian(toBe, width, regs[dst]));
    case _ =>
  }

  lemma CondMirrors(m: RegMap, regs: Regs, phys: PhysRegs, i: Insn)
    requires ValidMap(m) && Mirrors(m, regs, phys) && IsCondBranch(i)
    ensures CondHolds(BranchCond(i.jop, Phys(m, i.dst), TranslateSource(m, i.src), i.JmpCond32?), phys)
         == Taken(i, regs)
  {
    hide EvalJmp;
    SourceMirrors(m, regs, phys, i.src);
  }

  lemma TargetLabel(insns: seq<Insn>, m: RegMap, frame: u16, pc: nat)
    requires ValidMap(m) && BranchesInRange(insns) && pc < |insns| && IsBranch(insns[pc])
    ensures 0 <= Target(insns, pc) < |insns|
    ensures FindLabel(FlatTo(insns, m, frame, |insns|), BlockOf(insns, true, Target(insns, pc)))
         == Some(|FlatTo(insns, m, frame, Target(insns, pc))|)
  {
    assert BranchInRange(insns, pc);
    assert JumpsTo(insns, pc, Target(insns, pc));
    LabelPosition(insns, m, frame, |insns|, Target(insns, pc));
  }

  /** The branch node goes where the branch goes. */
  lemma BranchNode(insns: seq<Insn>, m: RegMap, frame: u16, t: TargetAbi, nodes: seq<IrNode>, stackAddr: u64, pc: nat,
          regs: Regs, ir: IrState)
    requires ValidMap(m) && BranchesInRange(insns) && Addressable(insns) && pc < |insns| && IsBranch(insns[pc])
    requires nodes == FlatTo(insns, m, frame, |insns|) && Mirrors(m, regs, ir.regs)
    requires ir.pos < |nodes| && nodes[ir.pos] == LowerInsn(insns, m, frame, pc)[0]
    ensures |LowerInsn(insns, m, frame, pc)| == 1
    ensures 0 <= Target(insns, pc) < |insns|
    ensures IrStep(nodes, t, stackAddr, ir)
         == Next(ir.(pos := if Taken(insns[pc], regs) then
             |FlatTo(insns, m, frame, Target(insns, pc))| else ir.pos + 1))
  {
    hide FlatTo, FindLabel, BlockOf, EvalJmp, Mirrors, BranchesInRange, CondHolds;
    TargetLabel(insns, m, frame, pc);
    if insns[pc].Jump? {
    } else {
      CondMirrors(m, regs, ir.regs, insns[pc]);
      hide Taken;
    }
  }

  lemma ChunkLength(insns: seq<Insn>, m: RegMap, frame: u16, pc: nat)
    requires ValidMap(m) && BranchesInRange(insns) && pc < |insns|
    ensures |FlatTo(insns, m, frame, pc + 1)|
         == |FlatTo(insns, m, frame, pc)| + HeadLength(insns, frame, pc) + |LowerInsn(insns, m, frame, pc)|
  {
    hide LowerInsn, IsLeader;
  }

  lemma NextPcValue(insns: seq<Insn>, regs: Regs, pc: nat)
    requires Addressable(insns) && BranchesInRange(insns) && pc < |insns|
    ensures pc < TWO_64
    ensures NextPc(insns[pc], regs, pc)
         == if IsBranch(insns[pc]) && Taken(insns[pc], regs) then Target(insns, pc) else pc + 1
  {
    assert BranchInRange(insns, pc);
    hide EvalJmp;
  }

  lemma StepParts(insns: seq<Insn>, stackAddr: u64, s: State)
    requires s.pc < |insns| && Step(insns, stackAddr, s).Running?
    ensures var e := Effect(insns[s.pc], stackAddr, s.regs, s.stack);
            && e.Some? && !insns[s.pc].Exit? && !insns[s.pc].TailCall?
            && Step(insns, stackAddr, s).next == State(e.value.0, e.value.1, NextPc(insns[s.pc], s.regs, s.pc), false)
            && (IsBranch(insns[s.pc]) ==> e.value == (s.regs, s.stack))
  {}

  lemma BranchStep(insns: seq<Insn>, m: RegMap, t: TargetAbi, nodes: seq<IrNode>, stackAddr: u64, visited: seq<nat>,
          s: State, ir: IrState)
    requires Lowered(insns, m, t, nodes) && s.pc < |insns| && Step(insns, stackAddr, s).Running?
    requires IsBranch(insns[s.pc])
    requires Inside(insns, m, FrameSize(insns), visited, s, ir)
    ensures IrStep(nodes, t, stackAddr, ir).Next? && IrStep(nodes, t, stackAddr, ir).state.frames == ir.frames
    ensures Matches(insns, m, FrameSize(insns), visited + [s.pc], Step(insns, stackAddr, s).next,
            IrStep(nodes, t, stackAddr, ir).state)
  {
    hide LowerInsn, FlatTo, Depth, HeadLength, IrStep, Mirrors, BranchesInRange, FrameSize, Injective, NoTailCall,
         Step, Effect, NextPc, Taken, IsBranch;
    var frame := FrameSize(insns);
    NodesOf(insns, m, frame, s.pc, 0);
    ChunkLength(insns, m, frame, s.pc);
    BranchNode(insns, m, frame, t, nodes, stackAddr, s.pc, s.regs, ir);
    NextPcValue(insns, s.regs, s.pc);
    StepParts(insns, stackAddr, s);
  }

  lemma EffectStep(insns: seq<Insn>, m: RegMap, t: TargetAbi, nodes: seq<IrNode>, stackAddr: u64, visited: seq<nat>,
          s: State, ir: IrState)
    requires Lowered(insns, m, t, nodes) && s.pc < |insns| && Step(insns, stackAddr, s).Running?
    requires !IsBranch(insns[s.pc])
    requires Inside(insns, m, FrameSize(insns), visited, s, ir)
    ensures IrStep(nodes, t, stackAddr, ir).Next? && IrStep(nodes, t, stackAddr, ir).state.frames == ir.frames
    ensures Matches(insns, m, FrameSize(insns), visited + [s.pc], Step(insns, stackAddr, s).next,
            IrStep(nodes, t, stackAddr, ir).state)
  {
    hide LowerInsn, FlatTo, Depth, HeadLength, IrStep, Mirrors, BranchesInRange, FrameSize, Injective, NoTailCall,
         Step, Effect, NextPc, Taken, IsBranch;
    var frame := FrameSize(insns);
    NodesOf(insns, m, frame, s.pc, 0);
    ChunkLength(insns, m, frame, s.pc);
    StepParts(insns, stackAddr, s);
    EffectNode(insns, m, frame, t, nodes, stackAddr, s.pc, s.regs, ir);
    NextPcValue(insns, s.regs, s.pc);
  }

  /** One interpreter step is one step of the lowered code from inside the chunk. */
  lemma InsnStep(insns: seq<Insn>, m: RegMap, t: TargetAbi, nodes: seq<IrNode>, stackAddr: u64, visited: seq<nat>,
          s: State, ir: IrState)
    returns (ir': IrState)
    requires Lowered(insns, m, t, nodes) && s.pc < |insns| && Step(insns, stackAddr, s).Running?
    requires Inside(insns, m, FrameSize(insns), visited, s, ir)
    ensures IrStep(nodes, t, stackAddr, ir) == Next(ir') && ir'.frames == ir.frames
    ensures Matches(insns, m, FrameSize(insns), visited + [s.pc], Step(insns, stackAddr, s).next, ir')
  {
    if IsBranch(insns[s.pc]) {
      BranchStep(insns, m, t, nodes, stackAddr, visited, s, ir);
    } else {
      EffectStep(insns, m, t, nodes, stackAddr, visited, s, ir);
    }
    ir' := IrStep(nodes, t, stackAddr, ir).state;
  }

  // ---------- whole runs ----------

  /** The lowered code's own entry state. */
  predicate IrEntry(m: RegMap, s: State, ir: IrState)
    requires ValidMap(m)
  {
    ir.pos == 0 && ir.frames == [] && ir.stack == s.stack && Mirrors(m, s.regs, ir.regs)
  }

  lemma {:induction false} EntriesMonotone(p: seq<nat>, k: nat)
    requires k <= |p|
    ensures Entries(p[..k]) <= Entries(p)
    decreases |p|
  {
    if k < |p| {
      EntriesMonotone(p[..|p| - 1], k);
      assert p[..|p| - 1][..k] == p[..k];
    } else {
      assert p[..k] == p;
    }
  }

  /** The bottom frame, once there is one, holds the registers on entry. */
  predicate HoldsEntry(k: nat, entry: IrState, ir: IrState) {
    if k == 0 then ir == entry else ir.frames != [] && ir.frames[|ir.frames| - 1] == entry.regs
  }

  lemma AtFlatStart(insns: seq<Insn>, m: RegMap, frame: u16, s: State, ir: IrState)
    requires ValidMap(m) && BranchesInRange(insns) && AtEntry(s) && IrEntry(m, s, ir)
    ensures Matches(insns, m, frame, [], s, ir)
  {
    assert FlatTo(insns, m, frame, 0) == [];
  }

  lemma StillInside(insns: seq<Insn>, stackAddr: u64, s: State, k: nat)
    requires Safe(insns) && Addressable(insns) && AtEntry(s) && k > 0 && Steps(insns, stackAddr, s, k).Some?
    ensures Steps(insns, stackAddr, s, k - 1).Some?
    ensures var u := Steps(insns, stackAddr, s, k - 1).value;
            u.pc < |insns| && Step(insns, stackAddr, u) == Running(Steps(insns, stackAddr, s, k).value)
  {
    RunFollowsPath(insns, stackAddr, s, k - 1);
  }

  lemma TraceSplit(insns: seq<Insn>, stackAddr: u64, s: State, k: nat)
    requires k > 0 && Steps(insns, stackAddr, s, k).Some? && Steps(insns, stackAddr, s, k - 1).Some?
    ensures var q := Trace(insns, stackAddr, s, k - 1);
            && Trace(insns, stackAddr, s, k)[..k] == q
            && q == q[..k - 1] + [Steps(insns, stackAddr, s, k - 1).value.pc]
  {}

  /** Lowering preserves runs: after any number of interpreter steps the lowered code reaches the
      same instruction with the same registers and stack, in no fewer steps. It needs room for one
      frame per visit to instruction 0, because the prologue stands behind the label of block 0. */
  lemma {:induction false} LoweringPreservesRuns(insns: seq<Insn>, m: RegMap, t: TargetAbi, nodes: seq<IrNode>,
          stackAddr: u64, s: State, ir: IrState, k: nat)
    returns (j: nat, ir': IrState)
    requires Safe(insns) && Lowered(insns, m, t, nodes) && AtEntry(s) && IrEntry(m, s, ir)
    requires Steps(insns, stackAddr, s, k).Some?
    requires Depth(FrameSize(insns), Trace(insns, stackAddr, s, k)[..k]) <= t.maxFrames
    ensures Reaches(nodes, t, stackAddr, ir, j, ir') && j >= k
    ensures Matches(insns, m, FrameSize(insns), Trace(insns, stackAddr, s, k)[..k],
            Steps(insns, stackAddr, s, k).value, ir')
    ensures FrameSize(insns) > 0 ==> HoldsEntry(k, ir, ir')
    decreases k
  {
    hide Safe, Inside, Step, IrStep, FrameSize, Mirrors, Injective, NoTailCall, FlatTo, IsPath, Edge;
    var frame := FrameSize(insns);
    if k == 0 {
      j, ir' := 0, ir;
      AtFlatStart(insns, m, frame, s, ir);
    } else {
      var u := Steps(insns, stackAddr, s, k - 1).value;
      var q := Trace(insns, stackAddr, s, k - 1);
      StillInside(insns, stackAddr, s, k);
      TraceSplit(insns, stackAddr, s, k);
      DepthStep(frame, q[..k - 1], u.pc);
      hide Matches, Depth, Lowered;
      var i, ir1 := LoweringPreservesRuns(insns, m, t, nodes, stackAddr, s, ir, k - 1);
      var e, ir2 := EnterChunk(insns, m, t, nodes, stackAddr, q[..k - 1], u, ir1);
      ir' := InsnStep(insns, m, t, nodes, stackAddr, q[..k - 1], u, ir2);
      ReachesStep(nodes, t, stackAddr, ir2, ir');
      var n := ReachesChain(nodes, t, stackAddr, ir, i, ir1, e, ir2);
      j := ReachesChain(nodes, t, stackAddr, ir, n, ir2, 1, ir');
    }
  }

  /** A program with no frame leaves R6 to R10 alone. */
  lemma {:induction false} FramelessKeepsSaved(insns: seq<Insn>, stackAddr: u64, s: State, k: nat, r: BpfReg)
    requires Safe(insns) && Addressable(insns) && Lowerable(insns) && FrameSize(insns) == 0 && AtEntry(s)
    requires Steps(insns, stackAddr, s, k).Some? && 6 <= r <= 10
    ensures Steps(insns, stackAddr, s, k).value.regs[r] == s.regs[r]
    decreases k
  {
    if r == 10 {
      FramePointerConstant(insns, stackAddr, s, k);
    } else if k > 0 {
      hide Safe, Lowerable, FrameSize, Effect, NextPc;
      var u := Steps(insns, stackAddr, s, k - 1).value;
      FramelessKeepsSaved(insns, stackAddr, s, k - 1, r);
      StillInside(insns, stackAddr, s, k);
      FrameDiscipline(insns);
      assert !NeedsFrame(insns[u.pc]);
      WritesElsewhere(insns[u.pc], stackAddr, u.regs, u.stack, r);
    }
  }

  predicate SavedKept(t: TargetAbi, before: PhysRegs, after: PhysRegs) {
    forall r :: r in t.saved ==> Get(after, r) == Get(before, r)
  }

  lemma RetNotSaved(m: RegMap)
    requires ValidMap(m) && Injective(m)
    ensures Phys(m, 0) !in SavedRegs(m)
  {}

  lemma RetStep(nodes: seq<IrNode>, t: TargetAbi, stackAddr: u64, ir: IrState)
    requires ir.pos < |nodes| && nodes[ir.pos].IrRet?
    ensures IrStep(nodes, t, stackAddr, ir) == Returned(Get(ir.regs, t.ret), ir)
  {}

  lemma EpilogueStep(nodes: seq<IrNode>, t: TargetAbi, stackAddr: u64, ir: IrState) returns (ir': IrState)
    requires ir.pos < |nodes| && nodes[ir.pos].IrEpilogue? && ir.frames != [] && t.ret !in t.saved
    ensures Reaches(nodes, t, stackAddr, ir, 1, ir')
    ensures ir'.pos == ir.pos + 1 && ir'.frames == ir.frames[1..] && ir'.stack == ir.stack
    ensures SavedKept(t, ir.frames[0], ir'.regs) && Get(ir'.regs, t.ret) == Get(ir.regs, t.ret)
  {
    ir' := ir.(regs := Restore(ir.regs, ir.frames[0], t.saved), frames := ir.frames[1..], pos := ir.pos + 1);
    ReachesStep(nodes, t, stackAddr, ir, ir');
    RestoreGet(ir.regs, ir.frames[0], t.saved, t.ret);
    RestoredAreKept(t, ir.regs, ir.frames[0]);
  }

  lemma ExitLowered(insns: seq<Insn>, m: RegMap, frame: u16, pc: nat)
    requires ValidMap(m) && BranchesInRange(insns) && pc < |insns| && insns[pc].Exit?
    ensures LowerInsn(insns, m, frame, pc) == (if frame > 0 then [IrEpilogue(frame)] else []) + [IrRet]
  {}

  /** The nodes of an exit. */
  lemma ExitNodes(insns: seq<Insn>, m: RegMap, t: TargetAbi, nodes: seq<IrNode>, stackAddr: u64, visited: seq<nat>,
          s: State, ir: IrState)
    returns (j: nat, ir': IrState)
    requires Lowered(insns, m, t, nodes) && s.pc < |insns| && insns[s.pc].Exit?
    requires Inside(insns, m, FrameSize(insns), visited, s, ir) && (FrameSize(insns) > 0 ==> ir.frames != [])
    ensures Reaches(nodes, t, stackAddr, ir, j, ir')
    ensures IrStep(nodes, t, stackAddr, ir') == Returned(s.regs[0], ir') && ir'.stack == s.stack
    ensures if FrameSize(insns) == 0 then ir' == ir
            else ir'.frames == ir.frames[1..] && SavedKept(t, ir.frames[0], ir'.regs)
  {
    hide LowerInsn, FlatTo, Depth, HeadLength, FrameSize, Injective, BranchesInRange, IrStep, SavedKept, SavedRegs;
    var frame := FrameSize(insns);
    ExitLowered(insns, m, frame, s.pc);
    NodesOf(insns, m, frame, s.pc, 0);
    RetNotSaved(m);
    if frame == 0 {
      j, ir' := 0, ir;
    } else {
      NodesOf(insns, m, frame, s.pc, 1);
      ir' := EpilogueStep(nodes, t, stackAddr, ir);
      j := 1;
    }
    RetStep(nodes, t, stackAddr, ir');
  }

  lemma RestoredAreKept(t: TargetAbi, regs: PhysRegs, snapshot: PhysRegs)
    ensures SavedKept(t, snapshot, Restore(regs, snapshot, t.saved))
  {
    forall r | r in t.saved
      ensures Get(Restore(regs, snapshot, t.saved), r) == Get(snapshot, r)
    {
      RestoreGet(regs, snapshot, t.saved, r);
    }
  }

  lemma MirrorsKeepSaved(m: RegMap, t: TargetAbi, a: Regs, b: Regs, x: PhysRegs, y: PhysRegs)
    requires ValidMap(m) && t.saved == SavedRegs(m) && Mirrors(m, a, x) && Mirrors(m, b, y)
    requires forall r: BpfReg :: 6 <= r <= 10 ==> a[r] == b[r]
    ensures SavedKept(t, x, y)
  {}

  lemma TraceSnoc(insns: seq<Insn>, stackAddr: u64, s: State, k: nat)
    requires Steps(insns, stackAddr, s, k).Some?
    ensures Trace(insns, stackAddr, s, k)
         == Trace(insns, stackAddr, s, k)[..k] + [Steps(insns, stackAddr, s, k).value.pc]
  {}

  lemma EntriesSnoc(p: seq<nat>, pc: nat)
    ensures Entries(p + [pc]) == Entries(p) + (if pc == 0 then 1 else 0)
  {
    assert (p + [pc])[..|p|] == p;
  }

  /** One more step of the run, one more entry of its trace. */
  lemma TraceEntries(insns: seq<Insn>, stackAddr: u64, s: State, k: nat)
    requires Steps(insns, stackAddr, s, k).Some?
    ensures k > 0 ==> Steps(insns, stackAddr, s, k - 1).Some?
    ensures Entries(Trace(insns, stackAddr, s, k))
         == (if k == 0 then 0 else Entries(Trace(insns, stackAddr, s, k - 1)))
            + (if Steps(insns, stackAddr, s, k).value.pc == 0 then 1 else 0)
  {
    hide Step, Entries;
    var p := Trace(insns, stackAddr, s, k);
    EntriesSnoc(p[..k], p[k]);
    assert p == p[..k] + [p[k]];
    if k == 0 {
      assert p[..0] == [];
      EntriesNone();
    } else {
      TraceSplit(insns, stackAddr, s, k);
    }
  }

  lemma EntriesNone()
    ensures Entries([]) == 0
  {}

  lemma {:induction false} TraceEntersOnce(insns: seq<Insn>, stackAddr: u64, s: State, k: nat)
    requires Steps(insns, stackAddr, s, k).Some? && s.pc == 0
    ensures Entries(Trace(insns, stackAddr, s, k)) >= 1
    decreases k
  {
    hide Step, Entries, Trace;
    TraceEntries(insns, stackAddr, s, k);
    if k > 0 {
      TraceEntersOnce(insns, stackAddr, s, k - 1);
    }
  }

  /** Up to the inside of the chunk that the run stands at. */
  lemma ReachInside(insns: seq<Insn>, m: RegMap, t: TargetAbi, nodes: seq<IrNode>, stackAddr: u64, s: State,
          ir: IrState, k: nat)
    returns (j: nat, ir': IrState)
    requires Safe(insns) && Lowered(insns, m, t, nodes) && AtEntry(s) && IrEntry(m, s, ir)
    requires Steps(insns, stackAddr, s, k).Some? && Steps(insns, stackAddr, s, k).value.pc < |insns|
    requires Depth(FrameSize(insns), Trace(insns, stackAddr, s, k)) <= t.maxFrames
    ensures Reaches(nodes, t, stackAddr, ir, j, ir')
    ensures Inside(insns, m, FrameSize(insns), Trace(insns, stackAddr, s, k)[..k],
            Steps(insns, stackAddr, s, k).value, ir')
    ensures |ir'.frames| == Depth(FrameSize(insns), Trace(insns, stackAddr, s, k))
    ensures FrameSize(insns) > 0 ==> ir'.frames != [] && ir'.frames[|ir'.frames| - 1] == ir.regs
  {
    var u, p := Steps(insns, stackAddr, s, k).value, Trace(insns, stackAddr, s, k);
    RoomToEnter(insns, t, stackAddr, s, k);
    LoweredParts(insns, m, t, nodes);
    hide *;
    var i, ir1 := LoweringPreservesRuns(insns, m, t, nodes, stackAddr, s, ir, k);
    var e;
    e, ir' := EnterChunk(insns, m, t, nodes, stackAddr, p[..k], u, ir1);
    j := ReachesChain(nodes, t, stackAddr, ir, i, ir1, e, ir');
    InsideDepth(insns, m, FrameSize(insns), p[..k], u, ir');
    BottomFrame(insns, m, stackAddr, s, ir, k, ir1, ir');
  }

  lemma LoweredParts(insns: seq<Insn>, m: RegMap, t: TargetAbi, nodes: seq<IrNode>)
    requires Lowered(insns, m, t, nodes)
    ensures ValidMap(m) && BranchesInRange(insns) && Lowerable(insns)
  {}

  lemma RoomToEnter(insns: seq<Insn>, t: TargetAbi, stackAddr: u64, s: State, k: nat)
    requires Lowerable(insns) && Steps(insns, stackAddr, s, k).Some?
    requires Depth(FrameSize(insns), Trace(insns, stackAddr, s, k)) <= t.maxFrames
    ensures var u, p := Steps(insns, stackAddr, s, k).value, Trace(insns, stackAddr, s, k);
            p == p[..k] + [u.pc] && Depth(FrameSize(insns), p[..k]) <= t.maxFrames
  {
    TraceSnoc(insns, stackAddr, s, k);
    DepthStep(FrameSize(insns), Trace(insns, stackAddr, s, k)[..k], Steps(insns, stackAddr, s, k).value.pc);
  }

  lemma InsideDepth(insns: seq<Insn>, m: RegMap, frame: u16, visited: seq<nat>, s: State, ir: IrState)
    requires ValidMap(m) && BranchesInRange(insns) && Inside(insns, m, frame, visited, s, ir)
    ensures |ir.frames| == Depth(frame, visited + [s.pc])
  {}

  lemma BottomFrame(insns: seq<Insn>, m: RegMap, stackAddr: u64, s: State, ir: IrState, k: nat, ir1: IrState,
          ir2: IrState)
    requires Lowerable(insns) && AtEntry(s) && Steps(insns, stackAddr, s, k).Some? && ValidMap(m) && IrEntry(m, s, ir)
    requires FrameSize(insns) > 0 ==> HoldsEntry(k, ir, ir1)
    requires FramesOnEntry(FrameSize(insns), Steps(insns, stackAddr, s, k).value.pc, ir1, ir2)
    ensures FrameSize(insns) > 0 ==> ir2.frames != [] && ir2.frames[|ir2.frames| - 1] == ir.regs
  {}

  /** Lowering preserves results: when the interpreter reaches an exit, the lowered code returns the
      same R0. It returns with one frame left over for every return to instruction 0: none iff the
      program has no frame or the run never came back to its first instruction. With none left, the
      callee-saved registers are as on entry. */
  lemma LoweringPreservesExit(insns: seq<Insn>, m: RegMap, t: TargetAbi, nodes: seq<IrNode>, stackAddr: u64, s: State,
          ir: IrState, k: nat)
    returns (j: nat, ir': IrState)
    requires Safe(insns) && Lowered(insns, m, t, nodes) && AtEntry(s) && IrEntry(m, s, ir)
    requires Steps(insns, stackAddr, s, k).Some?
    requires Steps(insns, stackAddr, s, k).value.pc < |insns| && insns[Steps(insns, stackAddr, s, k).value.pc].Exit?
    requires Depth(FrameSize(insns), Trace(insns, stackAddr, s, k)) <= t.maxFrames
    ensures Reaches(nodes, t, stackAddr, ir, j, ir')
    ensures IrStep(nodes, t, stackAddr, ir') == Returned(Steps(insns, stackAddr, s, k).value.regs[0], ir')
    ensures ir'.stack == Steps(insns, stackAddr, s, k).value.stack
    ensures |ir'.frames| == if FrameSize(insns) == 0 then 0 else Entries(Trace(insns, stackAddr, s, k)) - 1
    ensures ir'.frames == [] ==> SavedKept(t, ir.regs, ir'.regs)
  {
    hide Safe, Inside, Step, IrStep, FrameSize, Injective, NoTailCall, FlatTo, Trace, Steps, SavedRegs, Entries;
    var frame := FrameSize(insns);
    var u, p := Steps(insns, stackAddr, s, k).value, Trace(insns, stackAddr, s, k);
    TraceEntersOnce(insns, stackAddr, s, k);
    var i, ir2 := ReachInside(insns, m, t, nodes, stackAddr, s, ir, k);
    var x;
    x, ir' := ExitNodes(insns, m, t, nodes, stackAddr, p[..k], u, ir2);
    j := ReachesChain(nodes, t, stackAddr, ir, i, ir2, x, ir');
    if frame == 0 {
      InsideMirrors(insns, m, frame, p[..k], u, ir2);
      FramelessSaved(insns, m, t, stackAddr, s, ir, k, ir');
    }
  }

  lemma InsideMirrors(insns: seq<Insn>, m: RegMap, frame: u16, visited: seq<nat>, s: State, ir: IrState)
    requires ValidMap(m) && BranchesInRange(insns) && Inside(insns, m, frame, visited, s, ir)
    ensures Mirrors(m, s.regs, ir.regs)
  {}

  lemma FramelessSaved(insns: seq<Insn>, m: RegMap, t: TargetAbi, stackAddr: u64, s: State, ir: IrState, k: nat,
          ir': IrState)
    requires Safe(insns) && Addressable(insns) && Lowerable(insns) && FrameSize(insns) == 0 && AtEntry(s)
    requires Steps(insns, stackAddr, s, k).Some? && ValidMap(m) && t.saved == SavedRegs(m)
    requires Mirrors(m, s.regs, ir.regs) && Mirrors(m, Steps(insns, stackAddr, s, k).value.regs, ir'.regs)
    ensures SavedKept(t, ir.regs, ir'.regs)
  {
    var u := Steps(insns, stackAddr, s, k).value;
    forall r: BpfReg | 6 <= r <= 10
      ensures u.regs[r] == s.regs[r]
    {
      FramelessKeepsSaved(insns, stackAddr, s, k, r);
    }
    MirrorsKeepSaved(m, t, s.regs, u.regs, ir.regs, ir'.regs);
  }
}
