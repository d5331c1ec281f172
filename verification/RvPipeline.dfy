/** What the compiled RISC-V code computes, end to end. */
module RvPipeline {
  import opened Isa
  import opened Flow
  import opened Interpreter
  import opened Runs
  import opened Ir
  import opened Lowering
  import opened LoweringMeaning
  import opened LoweringRuns
  import opened Emitting
  import opened RvWords
  import opened RvMachine
  import opened RvNodes
  import opened RvImm
  import opened RvAlu64
  import opened RvAlu32
  import opened Frames
  import opened RvFrame
  import opened Layout
  import opened RvSim
  import opened Compiling

  // ---------- the source fragment ----------

  predicate ExactSource(src: Source) { src.Imm? ==> LoadsExactly(src.value) }

  /** A 32-bit operation that always agrees: it zero-extends, or its immediate keeps the result below 2
      to the 31. */
  predicate AlwaysAgrees32(op: AluOp, src: Source) {
    ZeroExtended(op) || (src.Imm? && AlwaysBelow(op, Wrap32(Wrap64(src.value))))
  }

  /** Instructions whose generated RISC-V code does what the interpreter does: 64-bit operations and
      comparisons, Jset included, on registers and on immediates that the load sequence gets right
      (any immediate, for shifts and negation), with divisions only by nonzero immediates; of the
      32-bit operations moves, or, and, xor, and division, remainder and right shift by most
      immediates. */
  predicate Supported(i: Insn) {
    match i
    case Alu64(op, _, src) =>
      (ExactSource(src) || op == Neg || IsShift(op)) && (op == Div ==> src.Imm? && src.value != 0)
    case Alu32(op, _, src) => ExactSource(src) && AlwaysAgrees32(op, src)
    case LoadImm64(_, imm) => LoadsBelow(imm, 2048)
    case Endian(toBe, width, _) => !toBe && width == Bits64
    case Jump(_) => true
    case JmpCond(op, _, src, _) => op != Ja && ExactSource(src)
    case Exit => true
    case _ => false
  }

  predicate AllSupported(insns: seq<Insn>) {
    forall pc :: 0 <= pc < |insns| ==> Supported(insns[pc])
  }

  const MAP := Riscv64RegMap()

  // ---------- the nodes of supported programs ----------

  lemma SupportedShape(insns: seq<Insn>)
    requires AllSupported(insns)
    ensures NoFrameAccess(insns) && NoTailCall(insns)
  {
    hide LoadsExactly;
    forall pc | 0 <= pc < |insns|
      ensures !FrameAccess(insns[pc]) && !insns[pc].TailCall?
    {
      assert Supported(insns[pc]);
    }
  }

  lemma PhysMapped(r: BpfReg)
    ensures ValidMap(MAP) && Mapped(Phys(MAP, r).n)
  {}

  lemma SourceMapped(src: Source)
    ensures ValidMap(MAP) && MappedOperand(TranslateSource(MAP, src))
  {
    match src
    case Imm(_) =>
    case Reg(r) => PhysMapped(r);
  }

  /** Small immediates come out right in either width. */
  lemma ExactSourceLoads(op: AluOp, d: bv8, src: Source)
    requires ExactSource(src)
    ensures ValidMap(MAP) && ExactOperand(op, d, TranslateSource(MAP, src))
    ensures ExactOperand32(op, TranslateSource(MAP, src))
  {
    hide Loads, Left, Wrap32, Wrap64;
    match src
    case Imm(v) =>
      SmallLoads(LoadedInto(op, d), v);
      LowExact(v);
    case Reg(_) =>
  }

  lemma InsnInFragment(insns: seq<Insn>, frame: u16, pc: nat, n: IrNode)
    requires ValidMap(MAP) && BranchesInRange(insns) && pc < |insns| && Supported(insns[pc])
    requires (frame == 0 || frame == 64)
    requires n in LowerInsn(insns, MAP, frame, pc)
    ensures InFragment(frame, n)
  {
    hide BranchesInRange, BlockOf, Mapped, Phys, LoadsExactly, LoadsBelow, AsI64, ExactOperand32, AlwaysBelow,
         Wrap32, Wrap64;
    match insns[pc]
    case Alu64(op, dst, src) =>
      PhysMapped(dst);
      SourceMapped(src);
      if ExactSource(src) {
        ExactSourceLoads(op, Phys(MAP, dst).n, src);
      }
    case Alu32(op, dst, src) =>
      PhysMapped(dst);
      SourceMapped(src);
      ExactSourceLoads(op, Phys(MAP, dst).n, src);
    case LoadImm64(dst, imm) => PhysMapped(dst);
    case Endian(_, _, dst) => PhysMapped(dst);
    case JmpCond(op, dst, src, off) => PhysMapped(dst); SourceMapped(src);
    case _ =>
  }

  lemma ChunkInFragment(insns: seq<Insn>, frame: u16, pc: nat, n: IrNode)
    requires ValidMap(MAP) && BranchesInRange(insns) && pc < |insns| && Supported(insns[pc])
    requires (frame == 0 || frame == 64)
    requires n in Chunk(insns, MAP, frame, pc)
    ensures InFragment(frame, n)
  {
    hide LowerInsn, IsLeader, BlockOf;
    if n in LowerInsn(insns, MAP, frame, pc) {
      InsnInFragment(insns, frame, pc, n);
    }
  }

  lemma NodesInFragment(insns: seq<Insn>)
    requires Lowerable(insns) && AllSupported(insns) && ValidMap(MAP)
    ensures forall i :: 0 <= i < |Nodes(insns, MAP)| ==> InFragment(FrameSize(insns), Nodes(insns, MAP)[i])
  {
    SupportedShape(insns);
    SmallFrame(insns);
    var frame := FrameSize(insns);
    hide Chunk, FlatTo, FrameSize, InFragment, Supported;
    forall i: nat | i < |Nodes(insns, MAP)|
      ensures InFragment(frame, Nodes(insns, MAP)[i])
    {
      var pc := NodeSource(insns, MAP, frame, |insns|, i);
      ChunkInFragment(insns, frame, pc, Nodes(insns, MAP)[i]);
    }
  }

  // ---------- what the code computes ----------

  /** The machine at the start of the code: R1 in a1, R10 in s6, anything in the other registers. */
  predicate Entered(m0: Rv, s: State) {
    m0.pc == 0 && R(m0, 2) % 16 == 0 && R(m0, 11) == s.regs[1] && R(m0, 22) == s.regs[10]
  }

  /** What the caller finds after a return. `count` frames were opened and the last of them closed
      again: the stack pointer is below its value on entry by the others. The return address, gp, tp
      and the callee-saved registers that the code does not write are as on entry, and so is memory
      outside the save areas. If no other frame was opened, so are all callee-saved registers but s7,
      which is a scratch register of the code. */
  ghost predicate CallerStateKept(frame: u16, count: nat, m0: Rv, b: Rv) {
    && R(b, 2) == Down(R(m0, 2), frame, if count == 0 then 0 else count - 1) && MemKept(frame, count, m0, b)
    && R(b, 1) == R(m0, 1) && SparedKept(m0, b)
    && (count <= 1 ==> forall r: bv8 :: CalleeSaved(r) ==> R(b, r) == R(m0, r))
  }

  /** ra, gp, tp and s0 to s11, apart from s7. */
  predicate CalleeSaved(r: bv8) {
    r == 1 || r == 3 || r == 4 || r == 8 || r == 9 || (18 <= r && r <= 27 && r != S7)
  }

  /** With one frame or none the stack pointer is back where it was. */
  lemma WholeStateKept(frame: u16, count: nat, m0: Rv, b: Rv)
    requires CallerStateKept(frame, count, m0, b) && count <= 1
    ensures R(b, 2) == R(m0, 2) && forall r: bv8 :: CalleeSaved(r) ==> R(b, r) == R(m0, r)
    ensures count == 0 ==> b.mem == m0.mem
  {
    hide R, Slot;
    if count == 0 {
      forall a: u64
        ensures (a in b.mem <==> a in m0.mem) && (a in m0.mem ==> b.mem[a] == m0.mem[a])
      {
        assert !InAreas(a, R(m0, 2), frame, 0);
      }
    }
  }

  lemma SimAtEntry(nodes: seq<IrNode>, frame: u16, m0: Rv, stack: Stack)
    requires m0.pc == 0 && R(m0, 2) % 16 == 0
    ensures Sim(nodes, frame, m0, FrameLog(0, m0), IrState(m0.regs, stack, 0, []), m0)
  {
    assert nodes[..0] == [];
    assert Offset(RiscV64, nodes, 0) == 0;
    assert RegsMatch(m0.regs, m0);
    hide InAreas, R, RegsMatch, Offset;
    assert OutsideAll(m0.mem, m0.mem, R(m0, 2), frame, 0);
  }

  lemma WhichSaved(r: bv8)
    requires CalleeSaved(r)
    ensures r == 1 || r == 8 || Spared(r) || PhysReg(r) in SAVED
  {
    assert SAVED[0] == PhysReg(18) && SAVED[1] == PhysReg(19) && SAVED[2] == PhysReg(20);
    assert SAVED[3] == PhysReg(21) && SAVED[4] == PhysReg(22);
  }

  lemma CallerKept(frame: u16, below: nat, depth: nat, m0: Rv, count: nat, ir: IrState, b: Rv)
    requires ReturnedWith(frame, m0, below, ir, b)
    requires |ir.frames| == (if count == 0 then 0 else count - 1) && below <= count
    requires ir.frames == [] ==> SavedKept(Riscv64Abi(depth), m0.regs, ir.regs)
    ensures CallerStateKept(frame, count, m0, b)
  {
    hide R, Down, Spared, InSaveArea, Slot;
    assert MemKept(frame, count, m0, b) by {
      forall a: u64 | !InAreas(a, R(m0, 2), frame, count)
        ensures !InAreas(a, R(m0, 2), frame, below)
      {}
    }
    if count <= 1 {
      forall r: bv8 | CalleeSaved(r)
        ensures R(b, r) == R(m0, r)
      {
        WhichSaved(r);
        assert r != 0 ==> R(m0, r) == Get(m0.regs, PhysReg(r)) by { RIsGet(m0, r); }
      }
    }
  }

  lemma RIsGet(m: Rv, r: bv8)
    ensures r != 0 ==> R(m, r) == Get(m.regs, PhysReg(r))
  {}

  lemma ResultInA0(frame: u16, m0: Rv, count: nat, ir: IrState, b: Rv, v: u64)
    requires ReturnedWith(frame, m0, count, ir, b) && Get(ir.regs, PhysReg(10)) == v
    ensures R(b, 10) == v
  {}

  lemma RiscvFits(depth: nat)
    ensures FitsMap(Riscv64Abi(depth), MAP) && Riscv64Abi(depth).maxFrames == depth
    ensures Riscv64Abi(depth).ret == PhysReg(10)
  {
    Riscv64Injective();
    hide Injective;
    assert SavedRegs(MAP) == SAVED;
  }

  lemma EnteredInputs(m0: Rv, s: State)
    requires Entered(m0, s)
    ensures ValidMap(MAP) && InputsMatch(MAP, m0.regs, s)
  {}

  lemma LogBounded(nodes: seq<IrNode>, frame: u16, m0: Rv, log: FrameLog<Rv>, s: IrState, a: Rv)
    requires Sim(nodes, frame, m0, log, s, a)
    ensures log.count <= if frame == 0 then 0 else |s.frames| + 1
  {
    hide Offset;
  }

  lemma MachineReturns(insns: seq<Insn>, code: seq<bv32>, stackAddr: u64, m0: Rv, stack: Stack, depth: nat, j: nat,
          ir: IrState, v: u64)
    returns (n: nat, b: Rv)
    requires AllSupported(insns) && Lowerable(insns) && ValidMap(MAP) && Image(RiscV64, Nodes(insns, MAP), code)
    requires m0.pc == 0 && R(m0, 2) % 16 == 0
    requires Reaches(Nodes(insns, MAP), Riscv64Abi(depth), stackAddr, IrState(m0.regs, stack, 0, []), j, ir)
    requires IrStep(Nodes(insns, MAP), Riscv64Abi(depth), stackAddr, ir) == Returned(v, ir)
    requires |ir.frames| == (if depth == 0 then 0 else depth - 1) && (depth == 0 <==> FrameSize(insns) == 0)
    requires ir.frames == [] ==> SavedKept(Riscv64Abi(depth), m0.regs, ir.regs)
    ensures RunsTo(code, m0, n, b) && MachineStep(code, b) == Go(b.(pc := R(m0, 1) / 2 * 2))
    ensures R(b, 10) == v && CallerStateKept(FrameSize(insns), depth, m0, b)
  {
    hide *;
    var nodes, frame := Nodes(insns, MAP), FrameSize(insns);
    NodesInFragment(insns);
    SeparateLabels(insns, MAP);
    FramesClosedToReturn(insns, MAP);
    RiscvFits(depth);
    SimAtEntry(nodes, frame, m0, stack);
    var log;
    n, b, log := SimRuns(nodes, code, frame, stackAddr, m0, FrameLog(0, m0), IrState(m0.regs, stack, 0, []), m0, depth,
        j, ir);
    ReturnsAtRet(nodes, Riscv64Abi(depth), stackAddr, ir, v);
    SimReturn(nodes, code, frame, m0, log, ir, b);
    LogBounded(nodes, frame, m0, log, ir, b);
    CallerKept(frame, log.count, depth, m0, depth, ir, b);
    ResultInA0(frame, m0, log.count, ir, b, v);
  }

  /** End to end. If the interpreter reaches an exit of a verified program of supported
      instructions, then the compiled words, entered with R1 in a1 and R10 in s6 and arbitrary
      values in every other register, come to a jump to the return address with the interpreter's R0
      in a0. The caller's state is restored but for one frame for each time the run came back to its
      first instruction, where the prologue stands. */
  lemma CompiledCodeComputes(insns: seq<Insn>, code: seq<bv32>, stackAddr: u64, m0: Rv, s: State, k: nat)
    returns (n: nat, b: Rv)
    requires Safe(insns) && Addressable(insns) && AllSupported(insns) && Lowerable(insns)
    requires ValidMap(MAP) && Image(RiscV64, Nodes(insns, MAP), code)
    requires AtEntry(s) && Entered(m0, s) && ExitsAfter(insns, stackAddr, s, k)
    ensures RunsTo(code, m0, n, b) && MachineStep(code, b) == Go(b.(pc := R(m0, 1) / 2 * 2))
    ensures R(b, 10) == ExitValue(insns, stackAddr, s, k)
    ensures CallerStateKept(FrameSize(insns), FramesOpened(insns, stackAddr, s, k), m0, b)
  {
    hide Safe, Lowerable, FrameSize, FlatTo, AllSupported, FitsMap, ExitValue, InputsMatch, Image, Steps,
         FramesOpened, Riscv64Abi, CallerStateKept;
    SupportedShape(insns);
    SomeFrame(insns, stackAddr, s, k);
    var depth := FramesOpened(insns, stackAddr, s, k);
    RiscvFits(depth);
    EnteredInputs(m0, s);
    var j, ir := LoweredReturns(insns, MAP, Riscv64Abi(depth), stackAddr, m0.regs, s, k);
    n, b := MachineReturns(insns, code, stackAddr, m0, s.stack, depth, j, ir, ExitValue(insns, stackAddr, s, k));
  }

  // ---------- runs that do not exit ----------

  /** The machine keeps up with the lowered code. */
  lemma MachineKeepsUp(insns: seq<Insn>, code: seq<bv32>, stackAddr: u64, m0: Rv, stack: Stack, depth: nat, j: nat,
          ir: IrState)
    returns (n: nat, b: Rv)
    requires AllSupported(insns) && Lowerable(insns) && ValidMap(MAP) && Image(RiscV64, Nodes(insns, MAP), code)
    requires m0.pc == 0 && R(m0, 2) % 16 == 0
    requires Reaches(Nodes(insns, MAP), Riscv64Abi(depth), stackAddr, IrState(m0.regs, stack, 0, []), j, ir)
    ensures RunsTo(code, m0, n, b) && 2 * n + 1 >= j
    ensures ir.pos == |Nodes(insns, MAP)| ==> b.pc == 4 * |code|
  {
    hide *;
    var nodes, frame := Nodes(insns, MAP), FrameSize(insns);
    NodesInFragment(insns);
    SeparateLabels(insns, MAP);
    FramesClosedToReturn(insns, MAP);
    SimAtEntry(nodes, frame, m0, stack);
    var log;
    n, b, log := SimRuns(nodes, code, frame, stackAddr, m0, FrameLog(0, m0), IrState(m0.regs, stack, 0, []), m0, depth,
        j, ir);
    if ir.pos == |nodes| {
      PastTheCode(nodes, code, frame, m0, log, ir, b);
    }
  }

  /** The machine keeps up with the interpreter: k interpreter steps take at least half as many machine
      steps, and when the interpreter is past the end of the program, the machine is past its code. */
  lemma MachineFollows(insns: seq<Insn>, code: seq<bv32>, stackAddr: u64, m0: Rv, s: State, k: nat)
    returns (n: nat, b: Rv)
    requires Safe(insns) && Addressable(insns) && AllSupported(insns) && Lowerable(insns)
    requires ValidMap(MAP) && Image(RiscV64, Nodes(insns, MAP), code)
    requires AtEntry(s) && Entered(m0, s) && Steps(insns, stackAddr, s, k).Some?
    ensures RunsTo(code, m0, n, b) && 2 * n + 1 >= k
    ensures Steps(insns, stackAddr, s, k).value.pc == |insns| ==> b.pc == 4 * |code|
  {
    hide *;
    EntryPoint(m0, s);
    SupportedShape(insns);
    SomeFrame(insns, stackAddr, s, k);
    var depth := FramesOpened(insns, stackAddr, s, k);
    RiscvFits(depth);
    EnteredInputs(m0, s);
    var j, ir := LoweredFollows(insns, MAP, Riscv64Abi(depth), stackAddr, m0.regs, s, k);
    n, b := MachineKeepsUp(insns, code, stackAddr, m0, s.stack, depth, j, ir);
  }

  lemma EntryPoint(m0: Rv, s: State)
    requires Entered(m0, s)
    ensures m0.pc == 0 && R(m0, 2) % 16 == 0
  {}

  lemma PastTheCode(nodes: seq<IrNode>, code: seq<bv32>, frame: u16, m0: Rv, log: FrameLog<Rv>, ir: IrState, b: Rv)
    requires Image(RiscV64, nodes, code) && Sim(nodes, frame, m0, log, ir, b) && ir.pos == |nodes|
    ensures b.pc == 4 * |code|
  {
    ImageLength(RiscV64, nodes, code);
    assert nodes[..|nodes|] == nodes;
    hide EmitAll, Image;
  }

  /** If the interpreter runs for ever, so does the machine, inside the compiled code: it never
      returns. */
  lemma CompiledCodeDiverges(insns: seq<Insn>, code: seq<bv32>, stackAddr: u64, m0: Rv, s: State, n: nat)
    requires Safe(insns) && Addressable(insns) && AllSupported(insns) && Lowerable(insns)
    requires ValidMap(MAP) && Image(RiscV64, Nodes(insns, MAP), code)
    requires AtEntry(s) && Entered(m0, s) && RunsForever(insns, stackAddr, s)
    ensures MachineSteps(code, m0, n).Some?
  {
    assert Steps(insns, stackAddr, s, 2 * n + 1).Some?;
    hide Safe, Lowerable, FrameSize, FlatTo, AllSupported, Image, Entered, MachineSteps, Steps;
    var k, b := MachineFollows(insns, code, stackAddr, m0, s, 2 * n + 1);
    RanBefore(code, m0, n, k);
  }

  /** If the interpreter falls off the end of the program, the machine runs off the end of its code,
      into whatever lies behind it. */
  lemma CompiledCodeFallsOff(insns: seq<Insn>, code: seq<bv32>, stackAddr: u64, m0: Rv, s: State, k: nat)
    returns (n: nat, b: Rv)
    requires Safe(insns) && Addressable(insns) && AllSupported(insns) && Lowerable(insns)
    requires ValidMap(MAP) && Image(RiscV64, Nodes(insns, MAP), code)
    requires AtEntry(s) && Entered(m0, s) && FallsOffAfter(insns, stackAddr, s, k)
    ensures RunsTo(code, m0, n, b) && b.pc == 4 * |code| && MachineStep(code, b) == Fault
  {
    hide Safe, Lowerable, FrameSize, FlatTo, AllSupported, Image, Entered, Steps, Execute, Decode;
    n, b := MachineFollows(insns, code, stackAddr, m0, s, k);
  }
}
