/** What both compilers share: the nodes of a lowered program, that finalizing cannot fail while
    branches reach, and that the lowered code, started from a machine's registers, returns what the
    interpreter returns. */
module Compiling {
  import opened Isa
  import opened Flow
  import opened Interpreter
  import opened Runs
  import opened Ir
  import opened Frames
  import opened Lowering
  import opened LoweringMeaning
  import opened LoweringRuns
  import opened Emitting
  import opened Layout

  /** No branch back to the first instruction, where the prologue stands. */
  predicate NoBranchToStart(insns: seq<Insn>) {
    forall pc :: 0 <= pc < |insns| && IsBranch(insns[pc]) ==> Target(insns, pc) != 0
  }

  /** The program was lowered to these blocks. */
  ghost predicate IsLowering(insns: seq<Insn>, m: RegMap, ir: IrProgram) {
    && ValidMap(m) && Lowerable(insns) && ir.frameSize == FrameSize(insns) &&
       |ir.blocks| == |Leaders(insns, true, |insns|)|
    && forall b :: 0 <= b < |ir.blocks| ==> ir.blocks[b] == LoweredBlock(insns, m, ir.frameSize, b)
  }

  /** A program's nodes in emission order. */
  function Nodes(insns: seq<Insn>, m: RegMap): seq<IrNode>
    requires ValidMap(m) && Lowerable(insns)
  {
    FlatTo(insns, m, FrameSize(insns), |insns|)
  }

  lemma FlattenWhole(insns: seq<Insn>, m: RegMap, ir: IrProgram)
    requires IsLowering(insns, m, ir)
    ensures Flatten(ir.blocks) == Nodes(insns, m)
  {
    hide Lowerable, FlatTo, FrameSize, Leaders, LoweredBlock, Flatten;
    FlattenIsChunks(insns, m, ir.frameSize, ir.blocks, |ir.blocks|);
    assert ir.blocks[..|ir.blocks|] == ir.blocks;
  }

  // ---------- the nodes of a program ----------

  /** Every node comes from the chunk of some instruction. */
  lemma {:induction false} NodeSource(insns: seq<Insn>, m: RegMap, frame: u16, k: nat, i: nat) returns (pc: nat)
    requires ValidMap(m) && BranchesInRange(insns) && k <= |insns| && i < |FlatTo(insns, m, frame, k)|
    ensures pc < k && FlatTo(insns, m, frame, k)[i] in Chunk(insns, m, frame, pc)
    decreases k
  {
    hide Chunk;
    var before := FlatTo(insns, m, frame, k - 1);
    if i < |before| {
      pc := NodeSource(insns, m, frame, k - 1, i);
    } else {
      pc := k - 1;
      assert FlatTo(insns, m, frame, k)[i] == Chunk(insns, m, frame, pc)[i - |before|];
    }
  }

  /** No load, store or atomic through the frame pointer. */
  predicate NoFrameAccess(insns: seq<Insn>) {
    forall pc :: 0 <= pc < |insns| ==> !FrameAccess(insns[pc])
  }

  lemma {:induction false} NoDeepAccess(insns: seq<Insn>, k: nat)
    requires Lowerable(insns) && NoFrameAccess(insns) && k <= |insns|
    ensures DeepestAccess(insns, k) == 0
  {
    if k > 0 {
      NoDeepAccess(insns, k - 1);
    }
  }

  /** Without stack accesses the frame, if there is one, has 64 bytes. */
  lemma SmallFrame(insns: seq<Insn>)
    requires Lowerable(insns) && NoFrameAccess(insns)
    ensures FrameSize(insns) == 0 || FrameSize(insns) == 64
  {
    NoDeepAccess(insns, |insns|);
  }

  // ---------- linking ----------

  lemma BranchInChunk(insns: seq<Insn>, m: RegMap, frame: u16, pc: nat, n: IrNode)
    requires ValidMap(m) && BranchesInRange(insns) && pc < |insns| && n in Chunk(insns, m, frame, pc) && Branching(n)
    ensures n in LowerInsn(insns, m, frame, pc)
  {
    hide LowerInsn, IsLeader, BlockOf, BranchesInRange;
  }

  lemma BranchLowered(insns: seq<Insn>, m: RegMap, frame: u16, pc: nat, n: IrNode)
    requires ValidMap(m) && BranchesInRange(insns) && pc < |insns| && n in LowerInsn(insns, m, frame, pc)
    requires Branching(n)
    ensures IsBranch(insns[pc]) && 0 <= Target(insns, pc) < |insns|
    ensures TargetOf(n) == BlockOf(insns, true, Target(insns, pc))
  {
    hide IsLeader, BlockOf;
    assert IsBranch(insns[pc]) && BranchInRange(insns, pc);
  }

  lemma BranchingNode(insns: seq<Insn>, m: RegMap, frame: u16, pc: nat, n: IrNode) returns (t: nat)
    requires ValidMap(m) && BranchesInRange(insns) && pc < |insns| && n in Chunk(insns, m, frame, pc) && Branching(n)
    ensures t < |insns| && IsLeader(insns, true, t) && TargetOf(n) == BlockOf(insns, true, t)
  {
    hide *;
    BranchInChunk(insns, m, frame, pc, n);
    BranchLowered(insns, m, frame, pc, n);
    t := Target(insns, pc);
    TargetIsLeader(insns, pc);
  }

  lemma TargetIsLeader(insns: seq<Insn>, pc: nat)
    requires BranchesInRange(insns) && pc < |insns| && IsBranch(insns[pc])
    ensures 0 <= Target(insns, pc) < |insns| && IsLeader(insns, true, Target(insns, pc))
  {
    assert BranchInRange(insns, pc);
    assert JumpsTo(insns, pc, Target(insns, pc));
  }

  /** Every branch of a lowered program has its label. */
  lemma TargetsLabelled(insns: seq<Insn>, m: RegMap, i: nat)
    requires ValidMap(m) && Lowerable(insns)
    requires var nodes := Nodes(insns, m); i < |nodes| && Branching(nodes[i])
    ensures var nodes := Nodes(insns, m); FindLabel(nodes, TargetOf(nodes[i])).Some?
  {
    hide Chunk, FlatTo, FrameSize, IsLeader, BlockOf, FindLabel, Branching, TargetOf;
    var frame := FrameSize(insns);
    var nodes := Nodes(insns, m);
    var pc := NodeSource(insns, m, frame, |insns|, i);
    var t := BranchingNode(insns, m, frame, pc, nodes[i]);
    LabelPosition(insns, m, frame, |insns|, t);
  }

  /** Finalizing the code of a verified program cannot fail while every branch reaches: below 2 to
      the 20 bytes on AArch64, 4096 on RISC-V. */
  lemma ShortProgramsLink(b: Backend, insns: seq<Insn>, m: RegMap)
    requires ValidMap(m) && Lowerable(insns)
    requires 4 * |EmitAll(b, Nodes(insns, m)).words| < ShortCode(b)
    ensures var e := EmitAll(b, Nodes(insns, m));
            LinkReady(e.words, e.relocs) && Link(b, e.words, e.labels, e.relocs).Linked?
  {
    hide FlatTo, FrameSize, FindLabel, EmitAll, Link;
    var nodes := Nodes(insns, m);
    forall i: nat | i < |nodes| && Branching(nodes[i])
      ensures FindLabel(nodes, TargetOf(nodes[i])).Some?
    {
      TargetsLabelled(insns, m, i);
    }
    ShortCodeLinks(b, nodes);
  }

  // ---------- runs ----------

  /** A run without a branch to the first instruction visits it once. */
  lemma {:induction false} EntersOnce(insns: seq<Insn>, stackAddr: u64, s: State, k: nat)
    requires Safe(insns) && Addressable(insns) && NoBranchToStart(insns) && AtEntry(s)
    requires Steps(insns, stackAddr, s, k).Some?
    ensures Entries(Trace(insns, stackAddr, s, k)) == 1
    decreases k
  {
    hide Safe, Step, Entries, Trace, NoBranchToStart;
    TraceEntries(insns, stackAddr, s, k);
    if k > 0 {
      EntersOnce(insns, stackAddr, s, k - 1);
      StillInside(insns, stackAddr, s, k);
      NeverBackToStart(insns, stackAddr, Steps(insns, stackAddr, s, k - 1).value);
    }
  }

  lemma NeverBackToStart(insns: seq<Insn>, stackAddr: u64, u: State)
    requires Safe(insns) && Addressable(insns) && NoBranchToStart(insns) && u.pc < |insns|
    requires Step(insns, stackAddr, u).Running?
    ensures Step(insns, stackAddr, u).next.pc != 0
  {
    hide Safe, Step;
    StepFollowsEdge(insns, stackAddr, u);
    SafeNonempty(insns);
  }

  lemma SafeNonempty(insns: seq<Insn>)
    requires Safe(insns)
    ensures |insns| > 0
  {}

  /** The interpreter state that a machine's registers stand for: every eBPF register has the value of
      its machine register, whatever that is. */
  function Reading(m: RegMap, regs: PhysRegs, stack: Stack): State
    requires ValidMap(m)
  {
    State(seq(NUM_REGS, r requires 0 <= r < NUM_REGS => Get(regs, Phys(m, r))), stack, 0, false)
  }

  /** The machine's registers agree with the interpreter's on R1 and R10, the two inputs. All other
      registers may hold anything. */
  predicate InputsMatch(m: RegMap, regs: PhysRegs, s: State)
    requires ValidMap(m)
  {
    Get(regs, Phys(m, 1)) == s.regs[1] && Get(regs, Phys(m, 10)) == s.regs[10]
  }

  lemma ReadingMirrors(m: RegMap, regs: PhysRegs, stack: Stack)
    requires ValidMap(m)
    ensures Mirrors(m, Reading(m, regs, stack).regs, regs)
  {}

  lemma ReadingInputs(m: RegMap, regs: PhysRegs, s: State)
    requires ValidMap(m) && InputsMatch(m, regs, s) && AtEntry(s)
    ensures SameInputs(s, Reading(m, regs, s.stack))
  {}

  /** A target whose calling convention fits the register map. */
  predicate FitsMap(t: TargetAbi, m: RegMap) {
    ValidMap(m) && Injective(m) && t.ret == Phys(m, 0) && t.saved == SavedRegs(m)
  }

  /** The interpreter's own run and the one from the machine's registers agree on the result. */
  lemma SameResult(insns: seq<Insn>, stackAddr: u64, s: State, t: State, k: nat)
    requires Safe(insns) && Addressable(insns) && SameInputs(s, t)
    requires Steps(insns, stackAddr, s, k).Some? && Steps(insns, stackAddr, s, k).value.pc < |insns|
    requires insns[Steps(insns, stackAddr, s, k).value.pc].Exit?
    ensures Steps(insns, stackAddr, t, k).Some?
    ensures Steps(insns, stackAddr, t, k).value.pc == Steps(insns, stackAddr, s, k).value.pc
    ensures Steps(insns, stackAddr, t, k).value.regs[0] == Steps(insns, stackAddr, s, k).value.regs[0]
  {
    hide Safe, Steps, Step, Trace, Initialised, IsPath;
    RunsAgree(insns, stackAddr, s, t, k);
    RunReadsInitialised(insns, stackAddr, s, k);
    assert 0 in Initialised(insns, Trace(insns, stackAddr, s, k));
  }

  /** The frames that the code has opened when the interpreter has made k steps and the code is past
      the prologue, if it stands at one: one for every visit to instruction 0, none if the program
      needs no frame. */
  function FramesOpened(insns: seq<Insn>, stackAddr: u64, s: State, k: nat): nat
    requires Lowerable(insns) && Steps(insns, stackAddr, s, k).Some?
  {
    Depth(FrameSize(insns), Trace(insns, stackAddr, s, k))
  }

  /** No frame is opened exactly when the program needs none. */
  lemma SomeFrame(insns: seq<Insn>, stackAddr: u64, s: State, k: nat)
    requires Lowerable(insns) && AtEntry(s) && Steps(insns, stackAddr, s, k).Some?
    ensures FramesOpened(insns, stackAddr, s, k) == 0 <==> FrameSize(insns) == 0
  {
    hide FrameSize, Entries, Trace, Steps, Lowerable;
    TraceEntersOnce(insns, stackAddr, s, k);
  }

  /** A program with no branch back to its first instruction opens one frame at most. */
  lemma OneFrame(insns: seq<Insn>, stackAddr: u64, s: State, k: nat)
    requires Safe(insns) && Addressable(insns) && Lowerable(insns) && AtEntry(s) && Steps(insns, stackAddr, s, k).Some?
    requires NoBranchToStart(insns)
    ensures FramesOpened(insns, stackAddr, s, k) <= 1
  {
    hide FrameSize, Entries, Trace, Steps, Safe, Lowerable;
    EntersOnce(insns, stackAddr, s, k);
  }

  /** The interpreter stops at an exit after k steps. */
  predicate ExitsAfter(insns: seq<Insn>, stackAddr: u64, s: State, k: nat) {
    && Steps(insns, stackAddr, s, k).Some? && Steps(insns, stackAddr, s, k).value.pc < |insns|
    && insns[Steps(insns, stackAddr, s, k).value.pc].Exit?
  }

  /** Its return value then. */
  function ExitValue(insns: seq<Insn>, stackAddr: u64, s: State, k: nat): u64
    requires ExitsAfter(insns, stackAddr, s, k)
  {
    Steps(insns, stackAddr, s, k).value.regs[0]
  }

  /** Lowered code, started with a machine's registers, returns the interpreter's result. All frames
      opened are left but one; if none is left, the callee-saved registers are as they were. */
  lemma LoweredReturns(insns: seq<Insn>, m: RegMap, t: TargetAbi, stackAddr: u64, regs: PhysRegs, s: State, k: nat)
    returns (j: nat, ir: IrState)
    requires Safe(insns) && Addressable(insns) && NoTailCall(insns) && Lowerable(insns) && FitsMap(t, m)
    requires AtEntry(s) && InputsMatch(m, regs, s) && ExitsAfter(insns, stackAddr, s, k)
    requires FramesOpened(insns, stackAddr, s, k) <= t.maxFrames
    ensures Reaches(Nodes(insns, m), t, stackAddr, IrState(regs, s.stack, 0, []), j, ir)
    ensures IrStep(Nodes(insns, m), t, stackAddr, ir) == Returned(ExitValue(insns, stackAddr, s, k), ir)
    ensures var n := FramesOpened(insns, stackAddr, s, k); |ir.frames| == if n == 0 then 0 else n - 1
    ensures ir.frames == [] ==> SavedKept(t, regs, ir.regs)
  {
    hide Safe, Lowerable, Steps, Step, IrStep, FrameSize, FlatTo, Trace, Entries, Reaches, SavedKept, Mirrors,
         Injective, SavedRegs;
    SomeFrame(insns, stackAddr, s, k);
    ReadingMirrors(m, regs, s.stack);
    ReadingInputs(m, regs, s);
    var u := Reading(m, regs, s.stack);
    hide Reading;
    SameResult(insns, stackAddr, s, u, k);
    SameTrace(insns, stackAddr, s, u, k);
    j, ir := LoweringPreservesExit(insns, m, t, Nodes(insns, m), stackAddr, u, IrState(regs, s.stack, 0, []), k);
  }

  lemma ReturnsAtRet(nodes: seq<IrNode>, t: TargetAbi, stackAddr: u64, ir: IrState, v: u64)
    requires IrStep(nodes, t, stackAddr, ir) == Returned(v, ir)
    ensures ir.pos < |nodes| && nodes[ir.pos].IrRet? && Get(ir.regs, t.ret) == v
  {
    hide EvalAlu64, EvalAlu32;
  }

  // ---------- runs that do not exit ----------

  lemma SeparateLabels(insns: seq<Insn>, m: RegMap)
    requires ValidMap(m) && Lowerable(insns)
    ensures NoAdjacentLabels(Nodes(insns, m))
  {
    hide FlatTo, FrameSize;
    LabelsApart(insns, m, FrameSize(insns), |insns|);
  }

  lemma FramesClosedToReturn(insns: seq<Insn>, m: RegMap)
    requires ValidMap(m) && Lowerable(insns)
    ensures EpiloguesReturn(Nodes(insns, m))
  {
    hide FlatTo, FrameSize;
    FlatReturns(insns, m, FrameSize(insns), |insns|);
  }

  /** Lowered code, started with a machine's registers, follows the interpreter as long as it runs, in
      no fewer steps; when the interpreter is past the end, so is the lowered code. */
  lemma LoweredFollows(insns: seq<Insn>, m: RegMap, t: TargetAbi, stackAddr: u64, regs: PhysRegs, s: State, k: nat)
    returns (j: nat, ir: IrState)
    requires Safe(insns) && Addressable(insns) && NoTailCall(insns) && Lowerable(insns) && FitsMap(t, m)
    requires AtEntry(s) && InputsMatch(m, regs, s) && Steps(insns, stackAddr, s, k).Some?
    requires FramesOpened(insns, stackAddr, s, k) <= t.maxFrames
    ensures Reaches(Nodes(insns, m), t, stackAddr, IrState(regs, s.stack, 0, []), j, ir) && j >= k
    ensures Steps(insns, stackAddr, s, k).value.pc == |insns| ==> ir.pos == |Nodes(insns, m)|
  {
    hide Safe, Lowerable, Steps, Step, IrStep, FrameSize, FlatTo, Trace, Entries, Reaches, Mirrors, Injective,
         Depth, SavedRegs;
    ReadingMirrors(m, regs, s.stack);
    ReadingInputs(m, regs, s);
    var u := Reading(m, regs, s.stack);
    hide Reading;
    StayInStep(insns, stackAddr, s, u, k);
    SameTrace(insns, stackAddr, s, u, k);
    EarlierDepth(FrameSize(insns), Trace(insns, stackAddr, u, k), k);
    j, ir := LoweringPreservesRuns(insns, m, t, Nodes(insns, m), stackAddr, u, IrState(regs, s.stack, 0, []), k);
  }

  lemma EarlierDepth(frame: u16, p: seq<nat>, k: nat)
    requires k <= |p|
    ensures Depth(frame, p[..k]) <= Depth(frame, p)
  {
    EntriesMonotone(p, k);
  }

  /** The interpreter runs for ever. */
  ghost predicate RunsForever(insns: seq<Insn>, stackAddr: u64, s: State) {
    forall k :: Steps(insns, stackAddr, s, k).Some?
  }

  /** After k steps it has run past the last instruction. */
  predicate FallsOffAfter(insns: seq<Insn>, stackAddr: u64, s: State, k: nat) {
    Steps(insns, stackAddr, s, k).Some? && Steps(insns, stackAddr, s, k).value.pc == |insns|
  }

  /** No instruction but an exit can stop a run: no memory access, no tail call. */
  predicate StopsOnlyAtExit(insns: seq<Insn>) {
    forall pc :: 0 <= pc < |insns| ==>
           !insns[pc].Load? && !insns[pc].StoreReg? && !insns[pc].StoreImm? && !insns[pc].TailCall?
  }

  lemma StepsOnward(insns: seq<Insn>, stackAddr: u64, s: State)
    requires StopsOnlyAtExit(insns) && s.pc < |insns| && !s.halted && !insns[s.pc].Exit?
    ensures Step(insns, stackAddr, s).Running?
  {
    hide EvalAlu64, EvalAlu32, EvalJmp;
  }

  /** A run of a safe program exits, falls off its end or goes on for ever. */
  lemma {:induction false} OneOfThree(insns: seq<Insn>, stackAddr: u64, s: State, k: nat)
    requires Safe(insns) && Addressable(insns) && AtEntry(s) && StopsOnlyAtExit(insns)
    requires forall j :: !ExitsAfter(insns, stackAddr, s, j) && !FallsOffAfter(insns, stackAddr, s, j)
    ensures Steps(insns, stackAddr, s, k).Some?
    decreases k
  {
    hide Safe, Step, IsPath, Trace;
    if k > 0 {
      OneOfThree(insns, stackAddr, s, k - 1);
      RunFollowsPath(insns, stackAddr, s, k - 1);
      assert !ExitsAfter(insns, stackAddr, s, k - 1) && !FallsOffAfter(insns, stackAddr, s, k - 1);
      StepsOnward(insns, stackAddr, Steps(insns, stackAddr, s, k - 1).value);
    }
  }
}
