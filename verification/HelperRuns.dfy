/** Runs in which helper calls do as they please: the interpreter's stub keeps R1 to R5 and returns 0,
    a real helper leaves anything in R1 to R5 and returns anything in R0. */
module HelperRuns {
  import opened Isa
  import opened Flow
  import opened Interpreter
  import opened Runs

  /** What a helper leaves in the registers, given how many steps may still follow the call. Only the
      argument registers are taken from it. */
  type Leftovers = (nat, Regs) -> Regs

  /** What a helper returns. */
  type Returned = nat -> u64

  function AfterHelper(regs: Regs, left: Regs, value: u64): Regs { [value] + left[1..6] + regs[6..] }

  function HelperStep(insns: seq<Insn>, stackAddr: u64, s: State, left: Leftovers, value: Returned, n: nat)
    : StepResult
  {
    match Step(insns, stackAddr, s)
    case Running(t) =>
      if insns[s.pc].Call? then Running(t.(regs := AfterHelper(t.regs, left(n, s.regs), value(n)))) else Running(t)
    case other => other
  }

  /** At most `maxSteps` steps; None is a panic. */
  function HelperRun(insns: seq<Insn>, stackAddr: u64, s: State, left: Leftovers, value: Returned, maxSteps: nat)
    : Option<State>
    decreases maxSteps
  {
    if maxSteps == 0 then Some(s)
    else
      match HelperStep(insns, stackAddr, s, left, value, maxSteps - 1)
      case Running(t) => HelperRun(insns, stackAddr, t, left, value, maxSteps - 1)
      case Stopped(t) => Some(t)
      case Panicked => None
  }

  // ---------- one step ----------

  lemma HelpersAgree(live: set<BpfReg>, a: Regs, b: Regs, x: Regs, y: Regs, value: u64, i: Insn)
    requires i.Call? && AgreeOn(Transfer(i, live), a, b)
    ensures AgreeOn(Transfer(i, live), AfterHelper(a, x, value), AfterHelper(b, y, value))
  {}

  /** Whatever the helpers leave behind, two runs that agree on the initialised registers still do
      after one more step. */
  lemma HelperStepAgrees(live: set<BpfReg>, insns: seq<Insn>, stackAddr: u64, a: State, b: State, left: Leftovers,
          left': Leftovers, value: Returned, n: nat)
    requires Agree(live, a, b) && a.pc < |insns| && !a.halted && InsnOk(insns[a.pc], live)
    ensures var x := HelperStep(insns, stackAddr, a, left, value, n);
            var y := HelperStep(insns, stackAddr, b, left', value, n);
            match x
            case Panicked => y.Panicked?
            case Running(s) => y.Running? && Agree(Transfer(insns[a.pc], live), s, y.next)
            case Stopped(s) =>
              y.Stopped? && Agree(live, s, y.last) && (insns[a.pc].Exit? ==> s.regs[0] == y.last.regs[0])
  {
    StepAgrees(live, insns, stackAddr, a, b);
    hide Step, Transfer, AfterHelper, InsnOk;
    var x, y := Step(insns, stackAddr, a), Step(insns, stackAddr, b);
    if x.Running? && insns[a.pc].Call? {
      HelpersAgree(live, x.next.regs, y.next.regs, left(n, a.regs), left'(n, b.regs), value(n), insns[a.pc]);
    }
  }

  /** Helpers do not change where control goes. */
  lemma HelperStepFollowsEdge(insns: seq<Insn>, stackAddr: u64, s: State, left: Leftovers, value: Returned, n: nat)
    requires Safe(insns) && Addressable(insns) && s.pc < |insns|
    requires HelperStep(insns, stackAddr, s, left, value, n).Running?
    ensures var t := HelperStep(insns, stackAddr, s, left, value, n).next;
            !t.halted && (t.pc < |insns| ==> Edge(insns, s.pc, t.pc))
  {
    hide Step, Safe, Edge, AfterHelper;
    StepFollowsEdge(insns, stackAddr, s);
  }

  lemma HelperStopsPastEnd(insns: seq<Insn>, stackAddr: u64, s: State, left: Leftovers, value: Returned, maxSteps: nat)
    requires s.pc >= |insns|
    ensures HelperRun(insns, stackAddr, s, left, value, maxSteps) == Some(s)
  {}

  // ---------- whole runs ----------

  lemma {:induction false} HelperOutcomesAgree(insns: seq<Insn>, stackAddr: u64, a: State, b: State, p: seq<nat>,
          left: Leftovers, left': Leftovers, value: Returned, maxSteps: nat)
    requires Safe(insns) && Addressable(insns) && NoTailCall(insns)
    requires PathTo(insns, p, a.pc) && !a.halted && Agree(Initialised(insns, p), a, b)
    ensures SameOutcome(HelperRun(insns, stackAddr, a, left, value, maxSteps),
                        HelperRun(insns, stackAddr, b, left', value, maxSteps))
    decreases maxSteps
  {
    hide InsnOk, Initialised, Transfer, Edge, HelperStep;
    if maxSteps > 0 {
      var n := maxSteps - 1;
      assert PathOk(insns, p);
      HelperStepAgrees(Initialised(insns, p), insns, stackAddr, a, b, left, left', value, n);
      StopsOnlyAtExit(insns, stackAddr, a, left, value, n);
      if HelperStep(insns, stackAddr, a, left, value, n).Running? {
        var a' := HelperStep(insns, stackAddr, a, left, value, n).next;
        var b' := HelperStep(insns, stackAddr, b, left', value, n).next;
        HelperStepFollowsEdge(insns, stackAddr, a, left, value, n);
        if a'.pc < |insns| {
          ExtendPath(insns, p, a'.pc);
          HelperOutcomesAgree(insns, stackAddr, a', b', p + [a'.pc], left, left', value, n);
        } else {
          HelperStopsPastEnd(insns, stackAddr, a', left, value, n);
          HelperStopsPastEnd(insns, stackAddr, b', left', value, n);
        }
      }
    }
  }

  lemma StopsOnlyAtExit(insns: seq<Insn>, stackAddr: u64, s: State, left: Leftovers, value: Returned, n: nat)
    requires s.pc < |insns| && !s.halted && NoTailCall(insns)
    ensures HelperStep(insns, stackAddr, s, left, value, n).Stopped? ==> insns[s.pc].Exit?
  {
    hide Effect, NextPc;
  }

  /** Two runs of a safe program from the same stack, R1 and R10, with anything in the other registers
      and with helpers that return the same but leave anything in R1 to R5, have the same outcome. */
  lemma HelperIndependence(insns: seq<Insn>, stackAddr: u64, s: State, t: State, left: Leftovers, left': Leftovers,
          value: Returned, maxSteps: nat)
    requires Safe(insns) && Addressable(insns) && NoTailCall(insns) && SameInputs(s, t)
    ensures SameOutcome(HelperRun(insns, stackAddr, s, left, value, maxSteps),
                        HelperRun(insns, stackAddr, t, left', value, maxSteps))
  {
    EntryInitialised(insns);
    assert PathTo(insns, [0], 0);
    hide Safe, HelperRun, Initialised, IsPath;
    HelperOutcomesAgree(insns, stackAddr, s, t, [0], left, left', value, maxSteps);
  }

  // ---------- the interpreter's stub ----------

  /** The stub keeps all argument registers and returns 0. */
  lemma StubStep(insns: seq<Insn>, stackAddr: u64, s: State, n: nat)
    ensures HelperStep(insns, stackAddr, s, (_, regs) => regs, _ => 0, n) == Step(insns, stackAddr, s)
  {
    if s.pc < |insns| && !s.halted && insns[s.pc].Call? {
      var regs := s.regs[0 := 0];
      assert AfterHelper(regs, s.regs, 0) == regs;
    }
  }

  lemma {:induction false} StubRun(insns: seq<Insn>, stackAddr: u64, s: State, maxSteps: nat)
    ensures HelperRun(insns, stackAddr, s, (_, regs) => regs, _ => 0, maxSteps) == Run(insns, stackAddr, s, maxSteps)
    decreases maxSteps
  {
    hide Step, HelperStep;
    if maxSteps > 0 {
      StubStep(insns, stackAddr, s, maxSteps - 1);
      if Step(insns, stackAddr, s).Running? {
        StubRun(insns, stackAddr, Step(insns, stackAddr, s).next, maxSteps - 1);
      }
    }
  }

  /** So the interpreter, whose calls keep R1 to R5, has the outcome of every run in which helpers that
      return 0 leave anything there. */
  lemma StubIsAnyHelper(insns: seq<Insn>, stackAddr: u64, s: State, t: State, left: Leftovers, maxSteps: nat)
    requires Safe(insns) && Addressable(insns) && NoTailCall(insns) && SameInputs(s, t)
    ensures SameOutcome(Run(insns, stackAddr, s, maxSteps),
                        HelperRun(insns, stackAddr, t, left, _ => 0, maxSteps))
  {
    hide *;
    StubRun(insns, stackAddr, s, maxSteps);
    HelperIndependence(insns, stackAddr, s, t, (_, regs) => regs, left, _ => 0, maxSteps);
  }
}
