/** From the entry point of the engine to the machine: what the compiler returns computes what the
    interpreter computes. */
module EndToEnd {
  import opened Isa
  import opened Flow
  import opened Interpreter
  import opened Runs
  import opened Lowering
  import opened Emitting
  import opened Layout
  import opened Compiling
  import opened Compiler
  import A64Machine
  import A64Pipeline
  import RvMachine
  import RvPipeline

  lemma FaithfulMeans(b: Backend, insns: seq<Insn>, code: seq<bv32>, blocks: nat)
    requires Faithful(b, insns, code, blocks)
    ensures Safe(insns) && Lowerable(insns) && Image(b, Nodes(insns, MapFor(b)), code)
    ensures MapFor(AArch64) == A64Pipeline.MAP && MapFor(RiscV64) == RvPipeline.MAP
  {
    hide Lowerable, Safe, Image, Nodes;
  }

  /** Code that the compiler returns for AArch64, of a program of supported instructions. */
  lemma Aarch64Computes(insns: seq<Insn>, code: seq<bv32>, blocks: nat, stackAddr: u64, m0: A64Machine.A64, s: State,
          k: nat)
    returns (n: nat, b: A64Machine.A64)
    requires Faithful(AArch64, insns, code, blocks) && Addressable(insns) && A64Pipeline.AllSupported(insns)
    requires AtEntry(s) && A64Pipeline.Entered(m0, s) && ExitsAfter(insns, stackAddr, s, k)
    ensures A64Machine.RunsTo(code, m0, n, b) && A64Machine.MachineStep(code, b) == A64Machine.Returns(b)
    ensures A64Machine.X(b, 0) == ExitValue(insns, stackAddr, s, k)
  {
    hide *;
    FaithfulMeans(AArch64, insns, code, blocks);
    MapsValid();
    n, b := A64Pipeline.CompiledCodeComputes(insns, code, stackAddr, m0, s, k);
  }

  lemma MapsValid()
    ensures ValidMap(A64Pipeline.MAP) && ValidMap(RvPipeline.MAP)
  {}

  /** The same for RISC-V. */
  lemma Riscv64Computes(insns: seq<Insn>, code: seq<bv32>, blocks: nat, stackAddr: u64, m0: RvMachine.Rv, s: State,
          k: nat)
    returns (n: nat, b: RvMachine.Rv)
    requires Faithful(RiscV64, insns, code, blocks) && Addressable(insns) && RvPipeline.AllSupported(insns)
    requires AtEntry(s) && RvPipeline.Entered(m0, s) && ExitsAfter(insns, stackAddr, s, k)
    ensures RvMachine.RunsTo(code, m0, n, b)
    ensures RvMachine.MachineStep(code, b) == RvMachine.Go(b.(pc := RvMachine.R(m0, 1) / 2 * 2))
    ensures RvMachine.R(b, 10) == ExitValue(insns, stackAddr, s, k)
  {
    hide *;
    FaithfulMeans(RiscV64, insns, code, blocks);
    MapsValid();
    n, b := RvPipeline.CompiledCodeComputes(insns, code, stackAddr, m0, s, k);
  }
}
