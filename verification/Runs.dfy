/** What verification guarantees about the interpreter's runs. */
module Runs {
  import opened Isa
  import opened Flow
  import opened Interpreter

  /** A program fits in memory, so that instruction indices do not wrap. */
  predicate Addressable(insns: seq<Insn>) { |insns| < TWO_63 }

  predicate AtEntry(s: State) { s.pc == 0 && !s.halted }

  predicate IsCondBranch(i: Insn) { i.JmpCond? || i.JmpCond32? }

  // ---------- runs follow paths ----------

  lemma StepFollowsEdge(insns: seq<Insn>, stackAddr: u64, s: State)
    requires Safe(insns) && Addressable(insns) && s.pc < |insns| && Step(insns, stackAddr, s).Running?
    ensures var t := Step(insns, stackAddr, s).next;
            && !t.halted
            && if t.pc < |insns| then Edge(insns, s.pc, t.pc)
               else t.pc == |insns| && s.pc == |insns| - 1 && IsCondBranch(insns[s.pc]) && !Taken(insns[s.pc], s.regs)
  {
    assert BranchInRange(insns, s.pc);
  }

  lemma WritesElsewhere(i: Insn, stackAddr: u64, regs: Regs, stack: Stack, r: BpfReg)
    requires r !in Writes(i) && Effect(i, stackAddr, regs, stack).Some?
    ensures Effect(i, stackAddr, regs, stack).value.0[r] == regs[r]
  {}

  /** The instruction indices that a run visits, the current one last. */
  function Trace(insns: seq<Insn>, stackAddr: u64, s: State, k: nat): (p: seq<nat>)
    requires Steps(insns, stackAddr, s, k).Some?
    ensures |p| == k + 1
    decreases k
  {
    (if k == 0 then [] else Trace(insns, stackAddr, s, k - 1)) + [Steps(insns, stackAddr, s, k).value.pc]
  }

  /** A run of a safe program from its entry follows a path of the control-flow graph, and leaves
      the program only by falling past a final conditional branch. */
  lemma {:induction false} RunFollowsPath(insns: seq<Insn>, stackAddr: u64, s: State, k: nat)
    requires Safe(insns) && Addressable(insns) && AtEntry(s) && Steps(insns, stackAddr, s, k).Some?
    ensures var t, p := Steps(insns, stackAddr, s, k).value, Trace(insns, stackAddr, s, k);
            && !t.halted && t.pc <= |insns|
            && (t.pc < |insns| ==> PathTo(insns, p, t.pc))
            && (t.pc == |insns| ==> IsCondBranch(insns[|insns| - 1]) && k > 0 && PathTo(insns, p[..k], |insns| - 1))
    decreases k
  {
    hide Effect, Taken, InsnOk, Initialised, Edge;
    if k == 0 {
      assert Trace(insns, stackAddr, s, k) == [0];
    } else {
      var u := Steps(insns, stackAddr, s, k - 1).value;
      RunFollowsPath(insns, stackAddr, s, k - 1);
      StepFollowsEdge(insns, stackAddr, u);
      var t := Steps(insns, stackAddr, s, k).value;
      var q := Trace(insns, stackAddr, s, k - 1);
      if t.pc < |insns| {
        ExtendPath(insns, q, t.pc);
      } else {
        assert Trace(insns, stackAddr, s, k)[..k] == q;
      }
    }
  }

  /** Soundness over whole runs: whenever a run of a safe program stands before an instruction,
      that instruction reads only registers that the run has initialised, writes no R10, and stays
      in the frame. */
  lemma RunReadsInitialised(insns: seq<Insn>, stackAddr: u64, s: State, k: nat)
    requires Safe(insns) && Addressable(insns) && AtEntry(s) && Steps(insns, stackAddr, s, k).Some?
    requires Steps(insns, stackAddr, s, k).value.pc < |insns|
    ensures IsPath(insns, Trace(insns, stackAddr, s, k))
    ensures InsnOk(insns[Steps(insns, stackAddr, s, k).value.pc], Initialised(insns, Trace(insns, stackAddr, s, k)))
  {
    RunFollowsPath(insns, stackAddr, s, k);
    assert PathOk(insns, Trace(insns, stackAddr, s, k));
  }

  /** R10 keeps its value. */
  lemma {:induction false} FramePointerConstant(insns: seq<Insn>, stackAddr: u64, s: State, k: nat)
    requires Safe(insns) && Addressable(insns) && AtEntry(s) && Steps(insns, stackAddr, s, k).Some?
    ensures Steps(insns, stackAddr, s, k).value.regs[10] == s.regs[10]
    decreases k
  {
    hide Taken, NextPc, Initialised, Edge, IsPath, Safe;
    if k > 0 {
      var u := Steps(insns, stackAddr, s, k - 1).value;
      FramePointerConstant(insns, stackAddr, s, k - 1);
      RunReadsInitialised(insns, stackAddr, s, k - 1);
      WritesElsewhere(insns[u.pc], stackAddr, u.regs, u.stack, 10);
    }
  }

  /** A safe program without backward branches makes at most one step per instruction. */
  lemma {:induction false} ForwardProgress(insns: seq<Insn>, stackAddr: u64, s: State, k: nat)
    requires Safe(insns) && Addressable(insns) && BackwardBranches(insns) == {} && AtEntry(s)
    requires Steps(insns, stackAddr, s, k).Some?
    ensures k <= Steps(insns, stackAddr, s, k).value.pc
    decreases k
  {
    if k > 0 {
      var u := Steps(insns, stackAddr, s, k - 1).value;
      ForwardProgress(insns, stackAddr, s, k - 1);
      StepFollowsEdge(insns, stackAddr, u);
      assert u.pc !in BackwardBranches(insns);
    }
  }

  /** So it always stops, within as many steps as it has instructions. */
  lemma ForwardProgramsStop(insns: seq<Insn>, stackAddr: u64, s: State)
    requires Safe(insns) && Addressable(insns) && BackwardBranches(insns) == {} && AtEntry(s)
    ensures Steps(insns, stackAddr, s, |insns| + 1).None?
  {
    if Steps(insns, stackAddr, s, |insns| + 1).Some? {
      ForwardProgress(insns, stackAddr, s, |insns| + 1);
      RunFollowsPath(insns, stackAddr, s, |insns| + 1);
    }
  }

  // ---------- limited runs ----------

  lemma {:induction false} StepsFront(insns: seq<Insn>, stackAddr: u64, s: State, t: State, k: nat)
    requires Step(insns, stackAddr, s) == Running(t)
    ensures Steps(insns, stackAddr, s, k + 1) == Steps(insns, stackAddr, t, k)
    decreases k
  {
    hide Step;
    if k == 0 {
      Standing(insns, stackAddr, s);
      Standing(insns, stackAddr, t);
    } else {
      StepsFront(insns, stackAddr, s, t, k - 1);
    }
  }

  /** A limited run makes exactly as many steps as its limit, if nothing stops it before. */
  lemma {:induction false} RunMakesSteps(insns: seq<Insn>, stackAddr: u64, s: State, k: nat)
    requires Steps(insns, stackAddr, s, k).Some?
    ensures Run(insns, stackAddr, s, k) == Steps(insns, stackAddr, s, k)
    decreases k
  {
    hide Step;
    if k > 0 {
      FirstStep(insns, stackAddr, s, k);
      var t := Step(insns, stackAddr, s).next;
      StepsFront(insns, stackAddr, s, t, k - 1);
      RunMakesSteps(insns, stackAddr, t, k - 1);
    }
  }

  lemma {:induction false} FirstStep(insns: seq<Insn>, stackAddr: u64, s: State, k: nat)
    requires k > 0 && Steps(insns, stackAddr, s, k).Some?
    ensures Step(insns, stackAddr, s).Running?
    decreases k
  {
    hide Step;
    Standing(insns, stackAddr, s);
    if k > 1 {
      FirstStep(insns, stackAddr, s, k - 1);
    }
  }

  /** And stops where a step stops it, whatever is left of the limit. */
  lemma {:induction false} RunStops(insns: seq<Insn>, stackAddr: u64, s: State, k: nat, u: State, t: State, limit: nat)
    requires Steps(insns, stackAddr, s, k) == Some(u) && Step(insns, stackAddr, u) == Stopped(t) && limit > k
    ensures Run(insns, stackAddr, s, limit) == Some(t)
    decreases k
  {
    hide Step;
    Standing(insns, stackAddr, s);
    if k > 0 {
      FirstStep(insns, stackAddr, s, k);
      var v := Step(insns, stackAddr, s).next;
      StepsFront(insns, stackAddr, s, v, k - 1);
      RunStops(insns, stackAddr, v, k - 1, u, t, limit - 1);
    }
  }

  /** A run stops past the program, at an exit and at a tail call, with registers and stack as they are;
      at the latter two it is halted. */
  lemma StopsExactly(insns: seq<Insn>, stackAddr: u64, s: State)
    ensures var ends := s.pc < |insns| && !s.halted && insns[s.pc] in {Exit, TailCall};
            Step(insns, stackAddr, s).Stopped? <==> s.halted || s.pc >= |insns| || ends
    ensures Step(insns, stackAddr, s).Stopped? ==>
              && Step(insns, stackAddr, s).last.regs == s.regs && Step(insns, stackAddr, s).last.stack == s.stack
              && Step(insns, stackAddr, s).last.pc == s.pc
              && (Step(insns, stackAddr, s).last.halted <==> s.halted || s.pc < |insns|)
  {
    hide Effect, NextPc;
  }

  // ---------- two runs ----------

  predicate AgreeOn(live: set<BpfReg>, a: Regs, b: Regs) {
    forall r :: r in live ==> a[r] == b[r]
  }

  /** Same place, same stack, same values in the initialised registers. */
  predicate Agree(live: set<BpfReg>, a: State, b: State) {
    a.pc == b.pc && a.stack == b.stack && a.halted == b.halted && AgreeOn(live, a.regs, b.regs)
  }

  lemma SourceAgrees(live: set<BpfReg>, src: Source, a: Regs, b: Regs)
    requires AgreeOn(live, a, b) && forall r :: r in SourceReads(src) ==> r in live
    ensures ResolveSource(src, a) == ResolveSource(src, b)
  {
    match src
    case Imm(_) =>
    case Reg(r) => assert r in SourceReads(src);
  }

  lemma TakenAgrees(live: set<BpfReg>, i: Insn, a: Regs, b: Regs)
    requires AgreeOn(live, a, b) && forall r :: r in Reads(i) ==> r in live
    ensures Taken(i, a) == Taken(i, b)
  {
    match i
    case JmpCond(_, dst, src, _) => assert dst in Reads(i); SourceAgrees(live, src, a, b);
    case JmpCond32(_, dst, src, _) => assert dst in Reads(i); SourceAgrees(live, src, a, b);
    case _ =>
  }

  /** One instruction has the same effect on the initialised part of two register files. */
  lemma EffectAgrees(live: set<BpfReg>, i: Insn, stackAddr: u64, a: Regs, b: Regs, stack: Stack)
    requires AgreeOn(live, a, b) && forall r :: r in Reads(i) ==> r in live
    ensures var x, y := Effect(i, stackAddr, a, stack), Effect(i, stackAddr, b, stack);
            && x.Some? == y.Some?
            && (x.Some? ==> x.value.1 == y.value.1 && AgreeOn(Transfer(i, live), x.value.0, y.value.0))
  {
    match i
    case Alu64(op, dst, src) => AluAgrees(live, i, stackAddr, a, b, stack);
    case Alu32(op, dst, src) => AluAgrees(live, i, stackAddr, a, b, stack);
    case Load(_, _, base, _) => assert base in Reads(i);
    case StoreReg(_, dst, value, _) => assert dst in Reads(i) && value in Reads(i);
    case StoreImm(_, dst, _, _) => assert dst in Reads(i);
    case Endian(_, _, dst) => assert dst in Reads(i);
    case _ =>
  }

  lemma AluAgrees(live: set<BpfReg>, i: Insn, stackAddr: u64, a: Regs, b: Regs, stack: Stack)
    requires (i.Alu64? || i.Alu32?) && AgreeOn(live, a, b) && forall r :: r in Reads(i) ==> r in live
    ensures var x, y := Effect(i, stackAddr, a, stack), Effect(i, stackAddr, b, stack);
            x.Some? && y.Some? && x.value.1 == y.value.1 && AgreeOn(Transfer(i, live), x.value.0, y.value.0)
  {
    SourceAgrees(live, i.src, a, b);
    if i.op != Mov {
      assert i.dst in Reads(i);
    }
  }

  lemma StepAgrees(live: set<BpfReg>, insns: seq<Insn>, stackAddr: u64, a: State, b: State)
    requires Agree(live, a, b) && a.pc < |insns| && !a.halted && InsnOk(insns[a.pc], live)
    ensures var x, y := Step(insns, stackAddr, a), Step(insns, stackAddr, b);
            match x
            case Panicked => y.Panicked?
            case Running(s) => y.Running? && Agree(Transfer(insns[a.pc], live), s, y.next)
            case Stopped(s) =>
              y.Stopped? && Agree(live, s, y.last) && (insns[a.pc].Exit? ==> s.regs[0] == y.last.regs[0])
  {
    hide EvalAlu64, EvalAlu32, EvalJmp, ReadStack, WriteStack;
    var i := insns[a.pc];
    EffectAgrees(live, i, stackAddr, a.regs, b.regs, a.stack);
    TakenAgrees(live, i, a.regs, b.regs);
    if i.Exit? {
      assert 0 in Reads(i);
    }
  }

  predicate SameInputs(s: State, t: State) {
    AtEntry(s) && AtEntry(t) && s.stack == t.stack && s.regs[1] == t.regs[1] && s.regs[10] == t.regs[10]
  }

  /** Two runs from the same stack, R1 and R10, with arbitrary other registers, stay in step and
      agree on every register initialised along the way. */
  lemma {:induction false} RunsAgree(insns: seq<Insn>, stackAddr: u64, s: State, t: State, k: nat)
    requires Safe(insns) && Addressable(insns) && SameInputs(s, t)
    requires Steps(insns, stackAddr, s, k).Some? && Steps(insns, stackAddr, s, k).value.pc < |insns|
    ensures IsPath(insns, Trace(insns, stackAddr, s, k))
    ensures Steps(insns, stackAddr, t, k).Some?
    ensures Agree(Initialised(insns, Trace(insns, stackAddr, s, k)),
                  Steps(insns, stackAddr, s, k).value, Steps(insns, stackAddr, t, k).value)
    decreases k
  {
    hide Safe, Step, Edge, Transfer, InsnOk, Initialised;
    RunFollowsPath(insns, stackAddr, s, k);
    if k > 0 {
      var u := PreviousStep(insns, stackAddr, s, k);
      var q := Trace(insns, stackAddr, s, k - 1);
      RunsAgree(insns, stackAddr, s, t, k - 1);
      RunReadsInitialised(insns, stackAddr, s, k - 1);
      var w := Steps(insns, stackAddr, t, k - 1).value;
      StepAgrees(Initialised(insns, q), insns, stackAddr, u, w);
      NextStep(insns, stackAddr, t, k, w);
      StepFollowsEdge(insns, stackAddr, u);
      ExtendPath(insns, q, Steps(insns, stackAddr, s, k).value.pc);
      assert Trace(insns, stackAddr, s, k) == q + [Steps(insns, stackAddr, s, k).value.pc];
    } else {
      EntryAgrees(insns, stackAddr, s, t);
    }
  }

  lemma TraceStart(insns: seq<Insn>, stackAddr: u64, s: State)
    ensures Trace(insns, stackAddr, s, 0) == [s.pc] && Steps(insns, stackAddr, s, 0) == Some(s)
  {
    hide Step;
  }

  lemma EntryInitialised(insns: seq<Insn>)
    requires |insns| > 0
    ensures Initialised(insns, [0]) == ENTRY_REGS && IsPath(insns, [0])
  {
    hide Transfer, Edge;
  }

  lemma EntryAgrees(insns: seq<Insn>, stackAddr: u64, s: State, t: State)
    requires |insns| > 0 && SameInputs(s, t)
    ensures Trace(insns, stackAddr, s, 0) == [0] && IsPath(insns, [0])
    ensures Agree(Initialised(insns, [0]), s, t)
  {
    hide Steps, Step, Trace, Initialised, IsPath;
    TraceStart(insns, stackAddr, s);
    EntryInitialised(insns);
  }

  /** The step before the current one. */
  lemma PreviousStep(insns: seq<Insn>, stackAddr: u64, s: State, k: nat) returns (u: State)
    requires Safe(insns) && Addressable(insns) && AtEntry(s) && Steps(insns, stackAddr, s, k).Some? && k > 0
    ensures Steps(insns, stackAddr, s, k - 1) == Some(u) && u.pc < |insns| && !u.halted
    ensures Step(insns, stackAddr, u) == Running(Steps(insns, stackAddr, s, k).value)
  {
    u := Steps(insns, stackAddr, s, k - 1).value;
    RunFollowsPath(insns, stackAddr, s, k - 1);
    hide Safe, IsPath, Effect, Taken;
  }

  lemma NextStep(insns: seq<Insn>, stackAddr: u64, t: State, k: nat, w: State)
    requires k > 0 && Steps(insns, stackAddr, t, k - 1) == Some(w) && Step(insns, stackAddr, w).Running?
    ensures Steps(insns, stackAddr, t, k) == Some(Step(insns, stackAddr, w).next)
  {}

  /** They stay in step to the very end, past the last instruction included. */
  lemma StayInStep(insns: seq<Insn>, stackAddr: u64, s: State, t: State, k: nat)
    requires Safe(insns) && Addressable(insns) && SameInputs(s, t) && Steps(insns, stackAddr, s, k).Some?
    ensures Steps(insns, stackAddr, t, k).Some?
    ensures Steps(insns, stackAddr, t, k).value.pc == Steps(insns, stackAddr, s, k).value.pc
  {
    hide Safe, Step, Steps, Trace, Initialised, IsPath, Transfer, Edge, InsnOk;
    if k == 0 {
      Standing(insns, stackAddr, s);
      Standing(insns, stackAddr, t);
    } else {
      var u := PreviousStep(insns, stackAddr, s, k);
      RunsAgree(insns, stackAddr, s, t, k - 1);
      RunReadsInitialised(insns, stackAddr, s, k - 1);
      var w := Steps(insns, stackAddr, t, k - 1).value;
      StepAgrees(Initialised(insns, Trace(insns, stackAddr, s, k - 1)), insns, stackAddr, u, w);
      NextStep(insns, stackAddr, t, k, w);
    }
  }

  /** Runs from the same inputs visit the same instructions. */
  lemma {:induction false} SameTrace(insns: seq<Insn>, stackAddr: u64, s: State, t: State, k: nat)
    requires Safe(insns) && Addressable(insns) && SameInputs(s, t) && Steps(insns, stackAddr, s, k).Some?
    ensures Steps(insns, stackAddr, t, k).Some?
    ensures Trace(insns, stackAddr, t, k) == Trace(insns, stackAddr, s, k)
    decreases k
  {
    hide Safe, Step, InsnOk, SameInputs;
    StayInStep(insns, stackAddr, s, t, k);
    if k > 0 {
      SameTrace(insns, stackAddr, s, t, k - 1);
    }
  }

  lemma Standing(insns: seq<Insn>, stackAddr: u64, s: State)
    ensures Steps(insns, stackAddr, s, 0) == Some(s)
  {}

  predicate NoTailCall(insns: seq<Insn>) {
    forall pc :: 0 <= pc < |insns| ==> !insns[pc].TailCall?
  }

  /** What two runs are seen to do: panic or not, where they stop, the stack they leave, and, if
      they exit, the value they return. */
  predicate SameOutcome(x: Option<State>, y: Option<State>) {
    && x.Some? == y.Some?
    && (x.Some? ==>
          && x.value.pc == y.value.pc && x.value.halted == y.value.halted && x.value.stack == y.value.stack
          && (x.value.halted ==> x.value.regs[0] == y.value.regs[0]))
  }

  lemma {:induction false} OutcomesAgree(insns: seq<Insn>, stackAddr: u64, a: State, b: State, p: seq<nat>,
          maxSteps: nat)
    requires Safe(insns) && Addressable(insns) && NoTailCall(insns)
    requires PathTo(insns, p, a.pc) && !a.halted && Agree(Initialised(insns, p), a, b)
    ensures SameOutcome(Run(insns, stackAddr, a, maxSteps), Run(insns, stackAddr, b, maxSteps))
    decreases maxSteps
  {
    hide Effect, Taken, InsnOk, Initialised, Transfer, Edge;
    if maxSteps > 0 {
      assert PathOk(insns, p);
      StepAgrees(Initialised(insns, p), insns, stackAddr, a, b);
      if Step(insns, stackAddr, a).Running? {
        var a', b' := Step(insns, stackAddr, a).next, Step(insns, stackAddr, b).next;
        StepFollowsEdge(insns, stackAddr, a);
        if a'.pc < |insns| {
          ExtendPath(insns, p, a'.pc);
          OutcomesAgree(insns, stackAddr, a', b', p + [a'.pc], maxSteps - 1);
        } else {
          StoppedPastEnd(insns, stackAddr, a', maxSteps - 1);
          StoppedPastEnd(insns, stackAddr, b', maxSteps - 1);
        }
      }
    }
  }

  lemma StoppedPastEnd(insns: seq<Insn>, stackAddr: u64, s: State, maxSteps: nat)
    requires s.pc >= |insns|
    ensures Run(insns, stackAddr, s, maxSteps) == Some(s)
  {}

  /** Two-run independence: registers other than R1 and R10 cannot influence a verified program,
      through any run and through memory. */
  lemma TwoRunIndependence(insns: seq<Insn>, stackAddr: u64, s: State, t: State, maxSteps: nat)
    requires Safe(insns) && Addressable(insns) && NoTailCall(insns) && SameInputs(s, t)
    ensures SameOutcome(Run(insns, stackAddr, s, maxSteps), Run(insns, stackAddr, t, maxSteps))
  {
    assert PathTo(insns, [0], 0);
    OutcomesAgree(insns, stackAddr, s, t, [0], maxSteps);
  }

  // ---------- where the guarantee ends ----------

  /** A safe program that ends in anything but a conditional branch never falls off its end. */
  lemma NeverFallsOff(insns: seq<Insn>, stackAddr: u64, s: State, k: nat)
    requires Safe(insns) && Addressable(insns) && AtEntry(s) && Steps(insns, stackAddr, s, k).Some?
    requires !IsCondBranch(insns[|insns| - 1])
    ensures Steps(insns, stackAddr, s, k).value.pc < |insns|
  {
    hide Safe, Steps, Trace, IsPath, IsCondBranch;
    RunFollowsPath(insns, stackAddr, s, k);
  }

  /** if R1 == 0 goto 3; R0 = 7; exit; if R1 == 1 goto 1 */
  const FALLS_OFF: seq<Insn> := [JmpCond(Jeq, 1, Imm(0), 2), LoadImm64(0, 7), Exit, JmpCond(Jeq, 1, Imm(1), -3)]

  lemma {:induction false} FallsOffPaths(p: seq<nat>)
    requires IsPath(FALLS_OFF, p)
    ensures {1, 10} <= Initialised(FALLS_OFF, p) && (Last(p) == 2 ==> 0 in Initialised(FALLS_OFF, p))
    decreases |p|
  {
    if |p| > 1 {
      var q := p[..|p| - 1];
      FallsOffPaths(q);
      assert Edge(FALLS_OFF, Last(q), Last(p));
    }
  }

  lemma FallsOffReachable(pc: nat)
    requires pc < 4
    ensures Reachable(FALLS_OFF, pc)
  {
    assert PathTo(FALLS_OFF, [0], 0);
    if pc == 3 {
      ExtendPath(FALLS_OFF, [0], 3);
    } else if pc > 0 {
      ExtendPath(FALLS_OFF, [0], 1);
      if pc == 2 {
        ExtendPath(FALLS_OFF, [0] + [1], 2);
      }
    }
  }

  lemma FallsOffIsSafe()
    ensures Safe(FALLS_OFF)
  {
    forall pc: nat | pc < |FALLS_OFF|
      ensures Reachable(FALLS_OFF, pc)
    {
      FallsOffReachable(pc);
    }
    forall p | IsPath(FALLS_OFF, p)
      ensures PathOk(FALLS_OFF, p)
    {
      FallsOffPaths(p);
    }
    hide PathOk, IsPath, Reachable;
    assert FALLS_OFF[2].Exit?;
  }

  /** The one way out that verification leaves open: a safe program may end in a conditional
      branch, and a run that does not take it stops past the end without an exit, with R0 as it
      was on entry. */
  lemma SafeProgramCanFallOff(stackAddr: u64, s: State)
    requires AtEntry(s) && s.regs[1] == 0
    ensures Safe(FALLS_OFF)
    ensures Run(FALLS_OFF, stackAddr, s, 10) == Some(s.(pc := 4))
  {
    FallsOffIsSafe();
    assert Step(FALLS_OFF, stackAddr, s) == Running(s.(pc := 3));
    assert Step(FALLS_OFF, stackAddr, s.(pc := 3)) == Running(s.(pc := 4));
    StoppedPastEnd(FALLS_OFF, stackAddr, s.(pc := 4), 8);
  }

  /** R0 = 0; if R0 == 0 goto itself; exit */
  const LOOPS: seq<Insn> := [LoadImm64(0, 0), JmpCond(Jeq, 0, Imm(0), -1), Exit]

  lemma {:induction false} LoopPaths(p: seq<nat>)
    requires IsPath(LOOPS, p)
    ensures Last(p) > 0 ==> 0 in Initialised(LOOPS, p)
    decreases |p|
  {
    if |p| > 1 {
      var q := p[..|p| - 1];
      LoopPaths(q);
      assert Edge(LOOPS, Last(q), Last(p));
    }
  }

  lemma LoopReachable(pc: nat)
    requires pc < 3
    ensures Reachable(LOOPS, pc)
  {
    assert PathTo(LOOPS, [0], 0);
    if pc > 0 {
      ExtendPath(LOOPS, [0], 1);
      if pc == 2 {
        ExtendPath(LOOPS, [0] + [1], 2);
      }
    }
  }

  lemma LoopIsSafe()
    ensures Safe(LOOPS) && BackwardBranches(LOOPS) == {1}
  {
    forall pc: nat | pc < |LOOPS|
      ensures Reachable(LOOPS, pc)
    {
      LoopReachable(pc);
    }
    forall p | IsPath(LOOPS, p)
      ensures PathOk(LOOPS, p)
    {
      LoopPaths(p);
    }
    hide PathOk, IsPath, Reachable;
    assert LOOPS[2].Exit?;
  }

  /** Nor does verification decide termination: a safe program with one backward branch can run for
      ever. */
  lemma {:induction false} SafeProgramCanLoop(stackAddr: u64, s: State, k: nat)
    requires AtEntry(s)
    ensures Safe(LOOPS) && |BackwardBranches(LOOPS)| == 1
    ensures Steps(LOOPS, stackAddr, s, k).Some?
    ensures k > 0 ==> Steps(LOOPS, stackAddr, s, k).value == s.(pc := 1, regs := s.regs[0 := 0])
    decreases k
  {
    LoopIsSafe();
    hide Safe, BackwardBranches;
    if k > 0 {
      SafeProgramCanLoop(stackAddr, s, k - 1);
      assert Step(LOOPS, stackAddr, s) == Running(s.(pc := 1, regs := s.regs[0 := 0]));
      var u := s.(pc := 1, regs := s.regs[0 := 0]);
      assert Step(LOOPS, stackAddr, u) == Running(u);
    }
  }
}
