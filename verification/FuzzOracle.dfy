/** The differential oracle: one iteration of the fuzzer. */
module FuzzOracle {
  import opened Isa
  import opened Flow
  import opened Interpreter
  import opened Runs
  import opened Lowering
  import opened Emitting
  import opened Generator
  import opened Compiler
  import Cfg
  import Decode
  import Verifier

  const STEP_LIMIT: nat := 10_000

  // ---------- one iteration ----------

  datatype FuzzResult = Pass(interpreterResult: u64) | CompileError(cause: CompileResult)

  /** One iteration of the fuzzer up to native execution. The program decodes if it is not too long;
      the interpreter never panics on it; it compiles exactly if it is safe, but for code too long to
      link, and otherwise is rejected for an uninitialised register, which cannot happen when the
      preamble sets R2 to R4. */
  method FuzzOne(rng: Rng, maxInsns: nat, stackAddr: u64)
    returns (r: FuzzResult, ghost insns: seq<Insn>, ghost pre: nat, ghost code: seq<bv32>)
    requires rng.Valid()
    modifies rng
    ensures rng.Valid() && Shape(insns, pre) && |insns| <= if maxInsns < 11 then 11 else maxInsns
    ensures match r
            case Pass(v) =>
              && (exists blocks :: Faithful(AArch64, insns, code, blocks))
              && Run(insns, stackAddr, InitialState(), 10_000).Some?
              && v == Run(insns, stackAddr, InitialState(), 10_000).value.regs[0]
            case CompileError(Undecodable(_)) => |insns| > Decode.MAX_INSNS
            case CompileError(Rejected(why)) => why.UninitializedRegRead? && !Safe(insns) && !InitialisesLow(insns, pre)
            case CompileError(Unlinkable(e)) => OutOfReach(AArch64, insns, e)
            case CompileError(Compiled(_, _)) => false
  {
    hide Shape, AllDecode, Verifier.Justified, Safe, Lowerable, OutOfReach, Faithful, InitialisesLow, Generated, Run,
         Decode.DecodeFrom, Decode.DecodeAll, Agree, Relevant;
    var program;
    code := [];
    program, insns, pre := GenerateProgram(rng, maxInsns);
    DecodesWhenShort(program, insns, pre);
    var decoded := Decode.DecodeProgram(program);
    if decoded.Err? {
      return CompileError(Undecodable(decoded.error)), insns, pre, code;
    }
    NeverPanics(insns, pre, stackAddr);
    var interp := new InterpreterState(stackAddr);
    var result := interp.DoRun(decoded.value, STEP_LIMIT);
    var output := Compile(program, AArch64);
    match output {
      case Compiled(words, blocks) =>
        code := words;
        r := Pass(result.value);
      case Undecodable(_) => assert false;
      case Rejected(why) =>
        RejectedUnsafe(insns, pre, why);
        r := CompileError(output);
      case Unlinkable(_) => r := CompileError(output);
    }
  }

  /** A justified rejection of a generated program names an uninitialised register. */
  lemma RejectedUnsafe(insns: seq<Insn>, pre: nat, why: Cfg.VerifyError)
    requires Shape(insns, pre) && Verifier.Justified(insns, why)
    ensures why.UninitializedRegRead? && !Safe(insns) && !InitialisesLow(insns, pre)
  {
    hide *;
    OnlyUninitialised(insns, pre, why);
    Verifier.JustifiedRefutes(insns, why);
    if InitialisesLow(insns, pre) {
      InitialisedIsSafe(insns, pre);
    }
  }

  lemma DecodesWhenShort(program: seq<Decode.RawInsn>, insns: seq<Insn>, pre: nat)
    requires Shape(insns, pre) && AllDecode(program, insns)
    ensures if |insns| <= Decode.MAX_INSNS then Decode.DecodeAll(program) == Decode.Outcome.Ok(insns)
            else Decode.DecodeAll(program).Err?
    ensures |program| == |insns|
  {
    GeneratedSize(program, insns);
    ShapeSize(insns, pre);
    hide Decode.DecodeFrom, Shape, AllDecode;
    if |program| <= Decode.MAX_INSNS {
      GeneratedDecodes(program, insns);
    }
  }

  /** The step limit is enough and no step fails. */
  lemma NeverPanics(insns: seq<Insn>, pre: nat, stackAddr: u64)
    requires Shape(insns, pre) && |insns| <= Decode.MAX_INSNS
    ensures Run(insns, stackAddr, InitialState(), STEP_LIMIT).Some?
  {
    AgreesWithItself(InitialState());
    ShapeSize(insns, pre);
    hide Shape, Agree, Relevant, Run;
    ResultIsClosed(insns, pre, stackAddr, InitialState(), InitialState(), STEP_LIMIT);
  }

  lemma AgreesWithItself(s: State)
    ensures Agree(Relevant(s.pc), s, s)
  {}
}
