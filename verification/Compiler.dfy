/** The engine: verify, lower, emit and finalize for either target. */
module Compiler {
  import opened Isa
  import opened Flow
  import opened Runs
  import opened Ir
  import opened Lowering
  import opened LoweringMeaning
  import opened Emitting
  import opened DryRun
  import opened Layout
  import opened Compiling
  import A64Emitter
  import RvEmitter
  import Cfg
  import Verifier
  import Decode

  datatype CompileResult =
    | Compiled(code: seq<bv32>, numBlocks: nat)
    | Undecodable(cause: Decode.DecodeError)
    | Rejected(why: Cfg.VerifyError)
    | Unlinkable(error: EmitError)

  function MapFor(b: Backend): (m: RegMap)
    ensures ValidMap(m)
  {
    if b == AArch64 then Aarch64RegMap() else Riscv64RegMap()
  }

  /** What a successful compilation yields: the linked code of the lowered nodes of a safe program,
      and the number of its basic blocks. */
  ghost predicate Faithful(b: Backend, insns: seq<Insn>, code: seq<bv32>, numBlocks: nat) {
    && Safe(insns) && Lowerable(insns) && Image(b, Nodes(insns, MapFor(b)), code) &&
       numBlocks == |Leaders(insns, false, |insns|)|
  }

  /** Some branch of the emitted code cannot reach its label, the first such branch goes to the block
      that the error names, and the code is long. */
  ghost predicate OutOfReach(b: Backend, insns: seq<Insn>, error: EmitError) {
    && Safe(insns) && Lowerable(insns) && 4 * |EmitAll(b, Nodes(insns, MapFor(b))).words| >= ShortCode(b)
    && exists i :: FirstOutOfReach(b, Nodes(insns, MapFor(b)), i, error.bb)
  }

  method EmitForTarget(ghost insns: seq<Insn>, ir: IrProgram, b: Backend) returns (out: LinkResult)
    requires IsLowering(insns, MapFor(b), ir)
    ensures LinkReady(EmitAll(b, Nodes(insns, MapFor(b))).words, EmitAll(b, Nodes(insns, MapFor(b))).relocs)
    ensures var e := EmitAll(b, Nodes(insns, MapFor(b))); out == Link(b, e.words, e.labels, e.relocs)
    ensures out.LinkError? && Safe(insns) && Lowerable(insns) ==> OutOfReach(b, insns, out.error)
  {
    hide Safe, Lowerable, Link, EmitAll, FlatTo, FrameSize, Leaders, MapFor, FirstOutOfReach, AllReach;
    FlattenWhole(insns, MapFor(b), ir);
    if 4 * |EmitAll(b, Nodes(insns, MapFor(b))).words| < ShortCode(b) {
      ShortProgramsLink(b, insns, MapFor(b));
    }
    LinkOutcome(b, Nodes(insns, MapFor(b)));
    match b {
      case AArch64 =>
        var emitter := new A64Emitter.AArch64Emitter();
        emitter.EmitProgram(ir);
        out := emitter.Finalize();
      case RiscV64 =>
        var emitter := new RvEmitter.RiscVEmitter();
        emitter.EmitProgram(ir);
        out := emitter.Finalize();
    }
  }

  /** Decoded instructions to machine words. */
  method CompileDecoded(insns: seq<Insn>, b: Backend) returns (r: CompileResult)
    ensures match r
            case Compiled(code, numBlocks) => Faithful(b, insns, code, numBlocks)
            case Undecodable(_) => false
            case Rejected(why) => Verifier.Justified(insns, why)
            case Unlinkable(e) => OutOfReach(b, insns, e)
  {
    var verified := Verifier.VerifyProgram(insns);
    if verified.Err? {
      return Rejected(verified.error);
    }
    SafeIsLowerable(insns);
    hide Safe, Lowerable, OutOfReach, Verifier.Justified, Link, EmitAll, FlatTo, FrameSize, Leaders, MapFor;
    var ir := LowerToIr(insns, MapFor(b));
    var out := EmitForTarget(insns, ir, b);
    match out {
      case Linked(words) => r := Compiled(words, verified.value);
      case LinkError(e) => r := Unlinkable(e);
    }
  }

  /** Decoded programs have no tail calls, so the verifier's block count is the lowered program's. */
  lemma BlockCountsAgree(raw: seq<Decode.RawInsn>, insns: seq<Insn>, ir: IrProgram, b: Backend)
    requires Decode.DecodeAll(raw) == Decode.Outcome.Ok(insns) && IsLowering(insns, MapFor(b), ir)
    ensures |ir.blocks| == |Leaders(insns, false, |insns|)|
  {
    Decode.DecodeConserves(raw, insns);
    hide Decode.DecodeAll;
    assert NoTailCall(insns);
    LeaderPassesAgree(insns, |insns|);
  }

  /** Raw bytecode to machine words: decode, verify, lower, emit, finalize. */
  method Compile(raw: seq<Decode.RawInsn>, b: Backend) returns (r: CompileResult)
    ensures match Decode.DecodeAll(raw)
            case Err(e) => r == Undecodable(e)
            case Ok(insns) =>
              match r
              case Compiled(code, numBlocks) => Faithful(b, insns, code, numBlocks)
              case Undecodable(_) => false
              case Rejected(why) => Verifier.Justified(insns, why)
              case Unlinkable(e) => OutOfReach(b, insns, e)
  {
    var decoded := Decode.DecodeProgram(raw);
    match decoded {
      case Err(e) => r := Undecodable(e);
      case Ok(insns) => r := CompileDecoded(insns, b);
    }
  }

  method DryRunSize(ir: IrProgram, b: Backend) returns (size: nat)
    ensures size == 4 * EstimatedWords(b, ir.blocks, |ir.blocks|)
  {
    match b {
      case AArch64 =>
        var emitter := new A64Emitter.AArch64Emitter();
        size := emitter.CalculateSize(ir);
      case RiscV64 =>
        var emitter := new RvEmitter.RiscVEmitter();
        size := emitter.CalculateSize(ir);
    }
  }

  /** The two-pass form: the size computed before emitting bounds the code, and below the branches'
      reach compilation of a verified program cannot fail. */
  method CompileSized(raw: seq<Decode.RawInsn>, b: Backend) returns (r: CompileResult, size: nat)
    ensures match Decode.DecodeAll(raw)
            case Err(e) => r == Undecodable(e)
            case Ok(insns) =>
              match r
              case Compiled(code, numBlocks) => Faithful(b, insns, code, numBlocks) && 4 * |code| <= size
              case Undecodable(_) => false
              case Rejected(why) => Verifier.Justified(insns, why)
              case Unlinkable(e) => OutOfReach(b, insns, e) && size >= ShortCode(b)
  {
    size := 0;
    var decoded := Decode.DecodeProgram(raw);
    if decoded.Err? {
      return Undecodable(decoded.error), 0;
    }
    var insns := decoded.value;
    hide Decode.DecodeAll;
    var verified := Verifier.VerifyProgram(insns);
    if verified.Err? {
      return Rejected(verified.error), 0;
    }
    SafeIsLowerable(insns);
    hide Safe, Lowerable, OutOfReach, Verifier.Justified, Link, EmitAll, FlatTo, FrameSize, Leaders,
         EstimatedWords, MapFor;
    var ir := LowerToIr(insns, MapFor(b));
    size := DryRunSize(ir, b);
    FlattenWhole(insns, MapFor(b), ir);
    EmittedFits(b, ir.blocks);
    var out := EmitForTarget(insns, ir, b);
    match out {
      case Linked(words) =>
        ImageLength(b, Nodes(insns, MapFor(b)), words);
        r := Compiled(words, verified.value);
      case LinkError(e) => r := Unlinkable(e);
    }
  }
}
