/** Why, natively on AArch64, compiled code of a generated program cannot disagree with the
    interpreter. */
module NativeRuns {
  import opened Isa
  import opened Flow
  import opened Interpreter
  import opened Runs
  import opened Lowering
  import opened Emitting
  import opened Layout
  import opened Compiling
  import opened A64Machine
  import opened A64Pipeline
  import opened Generator

  /** Every generated instruction is one that the AArch64 theorem covers. */
  lemma GeneratedSupported(insns: seq<Insn>, pre: nat)
    requires Shape(insns, pre)
    ensures AllSupported(insns) && NoBranchToStart(insns)
  {
    hide Shape;
    forall pc: nat | pc < |insns|
      ensures Supported(insns[pc]) && (IsBranch(insns[pc]) ==> Target(insns, pc) != 0)
    {
      ShapeInsn(insns, pre, pc);
    }
  }

  lemma StepsOn(insns: seq<Insn>, stackAddr: u64, s0: State, s: State, k: nat, u: State)
    requires Steps(insns, stackAddr, s0, k) == Some(s) && Step(insns, stackAddr, s) == Running(u)
    ensures Steps(insns, stackAddr, s0, k + 1) == Some(u)
  {}

  lemma StopsAtExit(insns: seq<Insn>, stackAddr: u64, s: State, maxSteps: nat)
    requires s.pc < |insns| && insns[s.pc].Exit? && !s.halted && maxSteps > 0
    ensures Run(insns, stackAddr, s, maxSteps) == Some(s.(halted := true))
  {}

  /** The run of a generated program reaches its exit after some number of steps, with the value that
      the interpreter then returns. */
  lemma {:induction false} ExitReached(insns: seq<Insn>, pre: nat, stackAddr: u64, s0: State, s: State, k: nat,
          maxSteps: nat) returns (n: nat)
    requires Shape(insns, pre) && Addressable(insns) && s.pc < |insns| && !s.halted && maxSteps >= |insns| - s.pc
    requires Steps(insns, stackAddr, s0, k) == Some(s)
    ensures ExitsAfter(insns, stackAddr, s0, n) && Run(insns, stackAddr, s, maxSteps).Some?
    ensures Run(insns, stackAddr, s, maxSteps).value.regs[0] == ExitValue(insns, stackAddr, s0, n)
    decreases maxSteps
  {
    hide *;
    if s.pc < |insns| - 1 {
      ShapeStep(insns, pre, stackAddr, s);
      var u := Step(insns, stackAddr, s).next;
      StepsOn(insns, stackAddr, s0, s, k, u);
      n := ExitReached(insns, pre, stackAddr, s0, u, k + 1, maxSteps - 1);
      RunsOn(insns, stackAddr, s, u, maxSteps);
    } else {
      n := k;
      ShapeInsn(insns, pre, s.pc);
      StopsAtExit(insns, stackAddr, s, maxSteps);
      ExitsNow(insns, stackAddr, s0, s, k);
    }
  }

  lemma ExitsNow(insns: seq<Insn>, stackAddr: u64, s0: State, s: State, k: nat)
    requires Steps(insns, stackAddr, s0, k) == Some(s) && s.pc < |insns| && insns[s.pc].Exit?
    ensures ExitsAfter(insns, stackAddr, s0, k) && ExitValue(insns, stackAddr, s0, k) == s.regs[0]
  {
    hide Step, Steps;
  }

  lemma RunsOn(insns: seq<Insn>, stackAddr: u64, s: State, u: State, maxSteps: nat)
    requires Step(insns, stackAddr, s) == Running(u) && maxSteps > 0
    ensures Run(insns, stackAddr, s, maxSteps) == Run(insns, stackAddr, u, maxSteps - 1)
  {}

  /** The registers of a machine at the code's entry, as the interpreter would see them. */
  function Seen(m0: A64): State {
    InitialState().(regs := InitialState().regs[1 := X(m0, 0)][10 := X(m0, 25)])
  }

  lemma SeenEntry(m0: A64)
    requires m0.pc == 0 && m0.sp % 16 == 0
    ensures AtEntry(Seen(m0)) && Entered(m0, Seen(m0)) && Agree(Relevant(0), InitialState(), Seen(m0))
  {}

  /** The run that the machine's registers stand for exits with the interpreter's result. */
  lemma SeenExits(insns: seq<Insn>, pre: nat, stackAddr: u64, m0: A64, maxSteps: nat) returns (k: nat)
    requires Shape(insns, pre) && Safe(insns) && Addressable(insns) && |insns| <= maxSteps
    requires m0.pc == 0 && m0.sp % 16 == 0
    ensures AllSupported(insns) && NoBranchToStart(insns)
    ensures AtEntry(Seen(m0)) && Entered(m0, Seen(m0)) && ExitsAfter(insns, stackAddr, Seen(m0), k)
    ensures Run(insns, stackAddr, InitialState(), maxSteps).Some?
    ensures ExitValue(insns, stackAddr, Seen(m0), k) ==
            Run(insns, stackAddr, InitialState(), maxSteps).value.regs[0]
  {
    ShapeSize(insns, pre);
    SeenEntry(m0);
    StepsNone(insns, stackAddr, Seen(m0));
    hide *;
    Starts(m0);
    ResultIsClosed(insns, pre, stackAddr, InitialState(), Seen(m0), maxSteps);
    GeneratedSupported(insns, pre);
    k := ExitReached(insns, pre, stackAddr, Seen(m0), Seen(m0), 0, maxSteps);
  }

  /** No mismatch: compiled code of a generated program, entered with anything in any register,
      returns in X0 what the interpreter returns, provided that the step limit covers the program, and
      leaves the stack pointer and the callee-saved registers as they were. */
  lemma NoMismatch(insns: seq<Insn>, pre: nat, code: seq<bv32>, stackAddr: u64, m0: A64, maxSteps: nat)
    returns (n: nat, b: A64)
    requires Shape(insns, pre) && Safe(insns) && Addressable(insns) && Lowerable(insns) && |insns| <= maxSteps
    requires ValidMap(MAP) && Image(AArch64, Nodes(insns, MAP), code) && m0.pc == 0 && m0.sp % 16 == 0
    ensures RunsTo(code, m0, n, b) && MachineStep(code, b) == Returns(b)
    ensures Run(insns, stackAddr, InitialState(), maxSteps).Some?
    ensures X(b, 0) == Run(insns, stackAddr, InitialState(), maxSteps).value.regs[0]
    ensures b.sp == m0.sp && forall r: bv8 :: CalleeSaved(r) ==> X(b, r) == X(m0, r)
  {
    hide *;
    var k := SeenExits(insns, pre, stackAddr, m0, maxSteps);
    n, b := ReturnsWhole(insns, code, stackAddr, m0, Seen(m0), k);
  }

  /** Compiled code that opens one frame at most leaves the caller's state as it was. */
  lemma ReturnsWhole(insns: seq<Insn>, code: seq<bv32>, stackAddr: u64, m0: A64, s: State, k: nat)
    returns (n: nat, b: A64)
    requires Safe(insns) && Addressable(insns) && Lowerable(insns) && AllSupported(insns) && NoBranchToStart(insns)
    requires ValidMap(MAP) && Image(AArch64, Nodes(insns, MAP), code)
    requires AtEntry(s) && Entered(m0, s) && ExitsAfter(insns, stackAddr, s, k)
    ensures RunsTo(code, m0, n, b) && MachineStep(code, b) == Returns(b)
    ensures X(b, 0) == ExitValue(insns, stackAddr, s, k)
    ensures b.sp == m0.sp && forall r: bv8 :: CalleeSaved(r) ==> X(b, r) == X(m0, r)
  {
    hide *;
    n, b := CompiledCodeComputes(insns, code, stackAddr, m0, s, k);
    ExitIsReached(insns, stackAddr, s, k);
    OneFrame(insns, stackAddr, s, k);
    WholeStateKept(FrameSize(insns), FramesOpened(insns, stackAddr, s, k), m0, b);
  }

  lemma ExitIsReached(insns: seq<Insn>, stackAddr: u64, s: State, k: nat)
    requires ExitsAfter(insns, stackAddr, s, k)
    ensures Steps(insns, stackAddr, s, k).Some?
  {}

  lemma Starts(m0: A64)
    ensures InitialState().pc == 0 && !InitialState().halted && Seen(m0).pc == 0 && !Seen(m0).halted
  {}

  lemma StepsNone(insns: seq<Insn>, stackAddr: u64, s: State)
    ensures Steps(insns, stackAddr, s, 0) == Some(s)
  {}
}
