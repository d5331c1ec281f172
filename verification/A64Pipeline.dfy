/** What the compiled AArch64 code computes, end to end. */
module A64Pipeline {
  import opened Isa
  import opened Flow
  import opened Interpreter
  import opened Runs
  import opened Ir
  import opened Lowering
  import opened LoweringMeaning
  import opened LoweringRuns
  import opened Emitting
  import opened A64Machine
  import opened A64Compare
  import opened Frames
  import opened A64Frame
  import opened Layout
  import opened A64Sim
  import opened Compiling

  // ---------- the source fragment ----------

  /** Instructions whose generated code does what the interpreter does. Program memory, helper
      calls and atomics are outside; so are Jset and signed 32-bit conditions, where A64Compare shows
      the two disagree, and the byte swaps that A64Endian shows wrong, or that take no word. */
  predicate Supported(i: Insn) {
    match i
    case Alu64(_, _, _) => true
    case Alu32(_, _, _) => true
    case LoadImm64(_, _) => true
    case Endian(toBe, width, _) => toBe && width != Bits16
    case Jump(_) => true
    case JmpCond(op, _, _, _) => op != Jset
    case JmpCond32(op, _, _, _) => Unsigned(op) || op == Ja
    case Exit => true
    case _ => false
  }

  predicate AllSupported(insns: seq<Insn>) {
    forall pc :: 0 <= pc < |insns| ==> Supported(insns[pc])
  }

  const MAP := Aarch64RegMap()

  // ---------- the nodes of supported programs ----------

  lemma SupportedNoAccess(insns: seq<Insn>)
    requires AllSupported(insns)
    ensures NoFrameAccess(insns)
  {
    forall pc | 0 <= pc < |insns|
      ensures !FrameAccess(insns[pc])
    {
      assert Supported(insns[pc]);
    }
  }

  lemma SupportedNoTailCall(insns: seq<Insn>)
    requires AllSupported(insns)
    ensures NoTailCall(insns)
  {
    forall pc | 0 <= pc < |insns|
      ensures !insns[pc].TailCall?
    {
      assert Supported(insns[pc]);
    }
  }

  lemma PhysMapped(r: BpfReg)
    ensures ValidMap(MAP) && Mapped(Phys(MAP, r).n)
  {}

  lemma SourceMapped(src: Source)
    ensures ValidMap(MAP) && MappedOperand(TranslateSource(MAP, src))
  {
    match src
    case Imm(_) =>
    case Reg(r) => PhysMapped(r);
  }

  lemma InsnInFragment(insns: seq<Insn>, frame: u16, pc: nat, n: IrNode)
    requires ValidMap(MAP) && BranchesInRange(insns) && pc < |insns| && Supported(insns[pc])
    requires (frame == 0 || frame == 64)
    requires n in LowerInsn(insns, MAP, frame, pc)
    ensures InFragment(frame, n)
  {
    hide BranchesInRange, BlockOf, Mapped, Phys;
    match insns[pc]
    case Alu64(op, dst, src) => PhysMapped(dst); SourceMapped(src);
    case Alu32(op, dst, src) => PhysMapped(dst); SourceMapped(src);
    case LoadImm64(dst, imm) => PhysMapped(dst);
    case Endian(_, _, dst) => PhysMapped(dst);
    case JmpCond(op, dst, src, off) => PhysMapped(dst); SourceMapped(src);
    case JmpCond32(op, dst, src, off) => PhysMapped(dst); SourceMapped(src);
    case _ =>
  }

  lemma ChunkInFragment(insns: seq<Insn>, frame: u16, pc: nat, n: IrNode)
    requires ValidMap(MAP) && BranchesInRange(insns) && pc < |insns| && Supported(insns[pc])
    requires (frame == 0 || frame == 64)
    requires n in Chunk(insns, MAP, frame, pc)
    ensures InFragment(frame, n)
  {
    hide LowerInsn, IsLeader, BlockOf;
    if n in LowerInsn(insns, MAP, frame, pc) {
      InsnInFragment(insns, frame, pc, n);
    }
  }

  lemma NodesInFragment(insns: seq<Insn>)
    requires Lowerable(insns) && AllSupported(insns) && ValidMap(MAP)
    ensures forall i :: 0 <= i < |Nodes(insns, MAP)| ==> InFragment(FrameSize(insns), Nodes(insns, MAP)[i])
  {
    SupportedNoAccess(insns);
    SmallFrame(insns);
    var frame := FrameSize(insns);
    hide Chunk, FlatTo, FrameSize, InFragment, Supported;
    forall i: nat | i < |Nodes(insns, MAP)|
      ensures InFragment(frame, Nodes(insns, MAP)[i])
    {
      var pc := NodeSource(insns, MAP, frame, |insns|, i);
      ChunkInFragment(insns, frame, pc, Nodes(insns, MAP)[i]);
    }
  }

  // ---------- what the code computes ----------

  /** The machine at the start of the code: R1 in X0, R10 in X25, anything in the other registers. */
  predicate Entered(m0: A64, s: State) {
    m0.pc == 0 && m0.sp % 16 == 0 && X(m0, 0) == s.regs[1] && X(m0, 25) == s.regs[10]
  }

  /** What the caller finds after a return. `count` frames were opened and the last of them closed
      again: the stack pointer is below its value on entry by the others. The link register and the
      callee-saved registers that the code does not write are as on entry, and so is memory outside
      the save areas. If no other frame was opened, all callee-saved registers are as on entry. */
  ghost predicate CallerStateKept(frame: u16, count: nat, m0: A64, b: A64) {
    && b.sp == Down(m0.sp, frame, if count == 0 then 0 else count - 1) && MemKept(frame, count, m0, b)
    && X(b, 30) == X(m0, 30) && SparedKept(m0, b)
    && (count <= 1 ==> forall r: bv8 :: CalleeSaved(r) ==> X(b, r) == X(m0, r))
  }

  /** X19 to X30: callee-saved registers, frame pointer and link register. */
  predicate CalleeSaved(r: bv8) { 19 <= r && r <= 30 }

  /** With one frame or none the stack pointer is back where it was. */
  lemma WholeStateKept(frame: u16, count: nat, m0: A64, b: A64)
    requires CallerStateKept(frame, count, m0, b) && count <= 1
    ensures b.sp == m0.sp && forall r: bv8 :: CalleeSaved(r) ==> X(b, r) == X(m0, r)
    ensures count == 0 ==> b.mem == m0.mem
  {
    hide X, Slot;
    if count == 0 {
      forall a: u64
        ensures (a in b.mem <==> a in m0.mem) && (a in m0.mem ==> b.mem[a] == m0.mem[a])
      {
        assert !InAreas(a, m0.sp, frame, 0);
      }
    }
  }

  lemma SimAtEntry(nodes: seq<IrNode>, frame: u16, m0: A64, stack: Stack)
    requires m0.pc == 0 && m0.sp % 16 == 0
    ensures Sim(nodes, frame, m0, FrameLog(0, m0), IrState(m0.regs, stack, 0, []), m0)
  {
    assert nodes[..0] == [];
    assert Offset(AArch64, nodes, 0) == 0;
    assert RegsMatch(m0.regs, m0);
    hide InAreas;
    assert OutsideAll(m0.mem, m0.mem, m0.sp, frame, 0);
  }

  lemma WhichSaved(r: bv8)
    requires CalleeSaved(r)
    ensures r == 29 || r == 30 || Spared(r) || PhysReg(r) in SAVED
  {
    assert SAVED[0] == PhysReg(19) && SAVED[1] == PhysReg(20) && SAVED[2] == PhysReg(21);
    assert SAVED[3] == PhysReg(22) && SAVED[4] == PhysReg(25);
  }

  lemma CallerKept(frame: u16, below: nat, depth: nat, m0: A64, count: nat, ir: IrState, b: A64)
    requires ReturnedWith(frame, m0, below, ir, b)
    requires |ir.frames| == (if count == 0 then 0 else count - 1) && below <= count
    requires ir.frames == [] ==> SavedKept(Aarch64Abi(depth), m0.regs, ir.regs)
    ensures CallerStateKept(frame, count, m0, b)
  {
    hide X, Down, Spared, InSaveArea, Slot;
    assert MemKept(frame, count, m0, b) by {
      forall a: u64 | !InAreas(a, m0.sp, frame, count)
        ensures !InAreas(a, m0.sp, frame, below)
      {}
    }
    if count <= 1 {
      forall r: bv8 | CalleeSaved(r)
        ensures X(b, r) == X(m0, r)
      {
        WhichSaved(r);
        assert r < 31 ==> X(m0, r) == Get(m0.regs, PhysReg(r)) by { XIsGet(m0, r); }
      }
    }
  }

  lemma XIsGet(m: A64, r: bv8)
    ensures r != 31 ==> X(m, r) == Get(m.regs, PhysReg(r))
  {}

  lemma ResultInX0(frame: u16, m0: A64, count: nat, ir: IrState, b: A64, v: u64)
    requires ReturnedWith(frame, m0, count, ir, b) && Get(ir.regs, PhysReg(7)) == v
    ensures X(b, 0) == v
  {}

  lemma Aarch64Fits(depth: nat)
    ensures FitsMap(Aarch64Abi(depth), MAP) && Aarch64Abi(depth).maxFrames == depth
    ensures Aarch64Abi(depth).ret == PhysReg(7)
  {
    Aarch64Injective();
    hide Injective;
    assert SavedRegs(MAP) == SAVED;
  }

  lemma EnteredInputs(m0: A64, s: State)
    requires Entered(m0, s)
    ensures ValidMap(MAP) && InputsMatch(MAP, m0.regs, s)
  {}

  lemma LogBounded(nodes: seq<IrNode>, frame: u16, m0: A64, log: FrameLog<A64>, s: IrState, a: A64)
    requires Sim(nodes, frame, m0, log, s, a)
    ensures log.count <= if frame == 0 then 0 else |s.frames| + 1
  {
    hide Offset;
  }

  lemma MachineReturns(insns: seq<Insn>, code: seq<bv32>, stackAddr: u64, m0: A64, stack: Stack, depth: nat, j: nat,
          ir: IrState, v: u64)
    returns (n: nat, b: A64)
    requires AllSupported(insns) && Lowerable(insns) && ValidMap(MAP) && Image(AArch64, Nodes(insns, MAP), code)
    requires m0.pc == 0 && m0.sp % 16 == 0
    requires Reaches(Nodes(insns, MAP), Aarch64Abi(depth), stackAddr, IrState(m0.regs, stack, 0, []), j, ir)
    requires IrStep(Nodes(insns, MAP), Aarch64Abi(depth), stackAddr, ir) == Returned(v, ir)
    requires |ir.frames| == (if depth == 0 then 0 else depth - 1) && (depth == 0 <==> FrameSize(insns) == 0)
    requires ir.frames == [] ==> SavedKept(Aarch64Abi(depth), m0.regs, ir.regs)
    ensures RunsTo(code, m0, n, b) && MachineStep(code, b) == Returns(b)
    ensures X(b, 0) == v && CallerStateKept(FrameSize(insns), depth, m0, b)
  {
    hide *;
    var nodes, frame := Nodes(insns, MAP), FrameSize(insns);
    NodesInFragment(insns);
    SeparateLabels(insns, MAP);
    FramesClosedToReturn(insns, MAP);
    Aarch64Fits(depth);
    SimAtEntry(nodes, frame, m0, stack);
    var k1, b1, log := SimRuns(nodes, code, frame, stackAddr, m0, FrameLog(0, m0), IrState(m0.regs, stack, 0, []), m0,
        depth, j, ir);
    ReturnsAtRet(nodes, Aarch64Abi(depth), stackAddr, ir, v);
    b := SimReturn(nodes, code, frame, m0, log, ir, b1);
    n := RunsChain(code, m0, k1, b1, 1, b);
    LogBounded(nodes, frame, m0, log, ir, b1);
    CallerKept(frame, log.count, depth, m0, depth, ir, b);
    ResultInX0(frame, m0, log.count, ir, b, v);
  }

  /** End to end. If the interpreter reaches an exit of a verified program of supported
      instructions, then the compiled words, entered with R1 in X0 and R10 in X25 and arbitrary
      values in every other register, reach a return with the interpreter's R0 in X0. The caller's
      state is restored but for one frame for each time the run came back to its first instruction,
      where the prologue stands. */
  lemma CompiledCodeComputes(insns: seq<Insn>, code: seq<bv32>, stackAddr: u64, m0: A64, s: State, k: nat)
    returns (n: nat, b: A64)
    requires Safe(insns) && Addressable(insns) && AllSupported(insns) && Lowerable(insns)
    requires ValidMap(MAP) && Image(AArch64, Nodes(insns, MAP), code)
    requires AtEntry(s) && Entered(m0, s) && ExitsAfter(insns, stackAddr, s, k)
    ensures RunsTo(code, m0, n, b) && MachineStep(code, b) == Returns(b)
    ensures X(b, 0) == ExitValue(insns, stackAddr, s, k)
    ensures CallerStateKept(FrameSize(insns), FramesOpened(insns, stackAddr, s, k), m0, b)
  {
    hide Safe, Lowerable, FrameSize, FlatTo, AllSupported, FitsMap, ExitValue, InputsMatch, Image, Steps,
         FramesOpened, Aarch64Abi, CallerStateKept;
    SupportedNoTailCall(insns);
    SomeFrame(insns, stackAddr, s, k);
    var depth := FramesOpened(insns, stackAddr, s, k);
    Aarch64Fits(depth);
    EnteredInputs(m0, s);
    var j, ir := LoweredReturns(insns, MAP, Aarch64Abi(depth), stackAddr, m0.regs, s, k);
    n, b := MachineReturns(insns, code, stackAddr, m0, s.stack, depth, j, ir, ExitValue(insns, stackAddr, s, k));
  }

  // ---------- runs that do not exit ----------

  /** The machine keeps up with the lowered code. */
  lemma MachineKeepsUp(insns: seq<Insn>, code: seq<bv32>, stackAddr: u64, m0: A64, stack: Stack, depth: nat, j: nat,
          ir: IrState)
    returns (n: nat, b: A64)
    requires AllSupported(insns) && Lowerable(insns) && ValidMap(MAP) && Image(AArch64, Nodes(insns, MAP), code)
    requires m0.pc == 0 && m0.sp % 16 == 0
    requires Reaches(Nodes(insns, MAP), Aarch64Abi(depth), stackAddr, IrState(m0.regs, stack, 0, []), j, ir)
    ensures RunsTo(code, m0, n, b) && 2 * n + 1 >= j
    ensures ir.pos == |Nodes(insns, MAP)| ==> b.pc == |code|
  {
    hide *;
    var nodes, frame := Nodes(insns, MAP), FrameSize(insns);
    NodesInFragment(insns);
    SeparateLabels(insns, MAP);
    FramesClosedToReturn(insns, MAP);
    SimAtEntry(nodes, frame, m0, stack);
    var log;
    n, b, log := SimRuns(nodes, code, frame, stackAddr, m0, FrameLog(0, m0), IrState(m0.regs, stack, 0, []), m0, depth,
        j, ir);
    if ir.pos == |nodes| {
      PastTheCode(nodes, code, frame, m0, log, ir, b);
    }
  }

  /** The machine keeps up with the interpreter: k interpreter steps take at least half as many machine
      steps, and when the interpreter is past the end of the program, the machine is past its code. */
  lemma MachineFollows(insns: seq<Insn>, code: seq<bv32>, stackAddr: u64, m0: A64, s: State, k: nat)
    returns (n: nat, b: A64)
    requires Safe(insns) && Addressable(insns) && AllSupported(insns) && Lowerable(insns)
    requires ValidMap(MAP) && Image(AArch64, Nodes(insns, MAP), code)
    requires AtEntry(s) && Entered(m0, s) && Steps(insns, stackAddr, s, k).Some?
    ensures RunsTo(code, m0, n, b) && 2 * n + 1 >= k
    ensures Steps(insns, stackAddr, s, k).value.pc == |insns| ==> b.pc == |code|
  {
    hide *;
    EntryPoint(m0, s);
    SupportedNoTailCall(insns);
    SomeFrame(insns, stackAddr, s, k);
    var depth := FramesOpened(insns, stackAddr, s, k);
    Aarch64Fits(depth);
    EnteredInputs(m0, s);
    var j, ir := LoweredFollows(insns, MAP, Aarch64Abi(depth), stackAddr, m0.regs, s, k);
    n, b := MachineKeepsUp(insns, code, stackAddr, m0, s.stack, depth, j, ir);
  }

  lemma EntryPoint(m0: A64, s: State)
    requires Entered(m0, s)
    ensures m0.pc == 0 && m0.sp % 16 == 0
  {}

  lemma PastTheCode(nodes: seq<IrNode>, code: seq<bv32>, frame: u16, m0: A64, log: FrameLog<A64>, ir: IrState, b: A64)
    requires Image(AArch64, nodes, code) && Sim(nodes, frame, m0, log, ir, b) && ir.pos == |nodes|
    ensures b.pc == |code|
  {
    ImageLength(AArch64, nodes, code);
    assert nodes[..|nodes|] == nodes;
    hide EmitAll, Image;
  }

  /** If the interpreter runs for ever, so does the machine, inside the compiled code: it never
      returns. */
  lemma CompiledCodeDiverges(insns: seq<Insn>, code: seq<bv32>, stackAddr: u64, m0: A64, s: State, n: nat)
    requires Safe(insns) && Addressable(insns) && AllSupported(insns) && Lowerable(insns)
    requires ValidMap(MAP) && Image(AArch64, Nodes(insns, MAP), code)
    requires AtEntry(s) && Entered(m0, s) && RunsForever(insns, stackAddr, s)
    ensures MachineSteps(code, m0, n).Some?
  {
    assert Steps(insns, stackAddr, s, 2 * n + 1).Some?;
    hide Safe, Lowerable, FrameSize, FlatTo, AllSupported, Image, Entered, MachineSteps, Steps;
    var k, b := MachineFollows(insns, code, stackAddr, m0, s, 2 * n + 1);
    RanBefore(code, m0, n, k);
  }

  /** If the interpreter falls off the end of the program, the machine runs off the end of its code,
      into whatever lies behind it. */
  lemma CompiledCodeFallsOff(insns: seq<Insn>, code: seq<bv32>, stackAddr: u64, m0: A64, s: State, k: nat)
    returns (n: nat, b: A64)
    requires Safe(insns) && Addressable(insns) && AllSupported(insns) && Lowerable(insns)
    requires ValidMap(MAP) && Image(AArch64, Nodes(insns, MAP), code)
    requires AtEntry(s) && Entered(m0, s) && FallsOffAfter(insns, stackAddr, s, k)
    ensures RunsTo(code, m0, n, b) && b.pc == |code| && MachineStep(code, b) == Fault
  {
    hide Safe, Lowerable, FrameSize, FlatTo, AllSupported, Image, Entered, Steps, Execute, Decode;
    n, b := MachineFollows(insns, code, stackAddr, m0, s, k);
  }

  lemma SupportedStops(insns: seq<Insn>)
    requires AllSupported(insns)
    ensures StopsOnlyAtExit(insns)
  {
    forall pc | 0 <= pc < |insns|
      ensures !insns[pc].Load? && !insns[pc].StoreReg? && !insns[pc].StoreImm? && !insns[pc].TailCall?
    {
      assert Supported(insns[pc]);
    }
  }

  predicate ReturnsAfter(code: seq<bv32>, m0: A64, n: nat, b: A64) {
    RunsTo(code, m0, n, b) && MachineStep(code, b) == Returns(b)
  }

  lemma NoMoreSteps(code: seq<bv32>, b: A64, j: nat)
    requires !MachineStep(code, b).Go? && j > 0
    ensures MachineSteps(code, b, j).None?
  {
    hide MachineStep;
  }

  /** Where a machine returns or faults, it has no more steps to make. */
  lemma StopIsLast(code: seq<bv32>, m0: A64, n: nat, b: A64, k: nat)
    requires RunsTo(code, m0, n, b) && !MachineStep(code, b).Go? && MachineSteps(code, m0, k).Some?
    ensures k <= n
  {
    hide MachineStep, MachineSteps;
    if k > n {
      RunsCompose(code, m0, n, k - n);
      NoMoreSteps(code, b, k - n);
    }
  }

  /** So there is only one such place. */
  lemma OneStop(code: seq<bv32>, m0: A64, n: nat, b: A64, k: nat, c: A64)
    requires RunsTo(code, m0, n, b) && !MachineStep(code, b).Go? && RunsTo(code, m0, k, c) && !MachineStep(code, c).Go?
    ensures n == k && b == c
  {
    hide MachineStep, MachineSteps;
    StopIsLast(code, m0, n, b, k);
    StopIsLast(code, m0, k, c, n);
  }

  /** Compiled code returns if and only if the interpreter exits. */
  lemma ReturnsIffExits(insns: seq<Insn>, code: seq<bv32>, stackAddr: u64, m0: A64, s: State)
    requires Safe(insns) && Addressable(insns) && AllSupported(insns) && Lowerable(insns)
    requires ValidMap(MAP) && Image(AArch64, Nodes(insns, MAP), code) && AtEntry(s) && Entered(m0, s)
    ensures (exists n, b :: ReturnsAfter(code, m0, n, b)) <==> (exists k :: ExitsAfter(insns, stackAddr, s, k))
  {
    hide Safe, Lowerable, FrameSize, FlatTo, AllSupported, Image, Entered, MachineStep,
         MachineSteps, Steps;
    if k :| ExitsAfter(insns, stackAddr, s, k) {
      var n, b := CompiledCodeComputes(insns, code, stackAddr, m0, s, k);
      assert ReturnsAfter(code, m0, n, b);
    } else if n, b :| ReturnsAfter(code, m0, n, b) {
      NoReturnWithoutExit(insns, code, stackAddr, m0, s, n, b);
    }
  }

  lemma NoReturnWithoutExit(insns: seq<Insn>, code: seq<bv32>, stackAddr: u64, m0: A64, s: State, n: nat, b: A64)
    requires Safe(insns) && Addressable(insns) && AllSupported(insns) && Lowerable(insns)
    requires ValidMap(MAP) && Image(AArch64, Nodes(insns, MAP), code) && AtEntry(s) && Entered(m0, s)
    requires ReturnsAfter(code, m0, n, b)
    ensures exists k :: ExitsAfter(insns, stackAddr, s, k)
  {
    hide Safe, Lowerable, FrameSize, FlatTo, AllSupported, Image, Entered, MachineStep,
         MachineSteps, Steps;
    if forall k :: !ExitsAfter(insns, stackAddr, s, k) {
      if k :| FallsOffAfter(insns, stackAddr, s, k) {
        var n', b' := CompiledCodeFallsOff(insns, code, stackAddr, m0, s, k);
        OneStop(code, m0, n', b', n, b);
      } else {
        SupportedStops(insns);
        forall k: nat
          ensures Steps(insns, stackAddr, s, k).Some?
        {
          OneOfThree(insns, stackAddr, s, k);
        }
        CompiledCodeDiverges(insns, code, stackAddr, m0, s, n + 1);
        StopIsLast(code, m0, n, b, n + 1);
      }
    }
  }
}
