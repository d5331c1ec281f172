/** What a safe program is, spelled out on the fields of its instructions: which registers each
    instruction uses, sets and loses, where control goes next, and that a register holds a value on a
    walk if something set it and no helper call has lost it since. */
module Safety {
  import opened Isa
  import opened Flow
  import opened Cfg
  import opened Dataflow

  // ---------- instructions ----------

  predicate Uses(i: Insn, r: BpfReg) {
    match i
    case Alu64(op, dst, src) => src == Reg(r) || (r == dst && op != Mov)
    case Alu32(op, dst, src) => src == Reg(r) || (r == dst && op != Mov)
    case Load(_, _, base, _) => r == base
    case StoreReg(_, dst, value, _) => r == dst || r == value
    case StoreImm(_, dst, _, _) => r == dst
    case LoadImm64(_, _) => false
    case JmpCond(_, dst, src, _) => r == dst || src == Reg(r)
    case JmpCond32(_, dst, src, _) => r == dst || src == Reg(r)
    case Jump(_) => false
    case Call(_) => false
    case TailCall => false
    case Exit => r == 0
    case Atomic(_, _, dst, value, _) => r == dst || r == value
    case Endian(_, _, dst) => r == dst
  }

  predicate Sets(i: Insn, r: BpfReg) {
    match i
    case Alu64(_, dst, _) => r == dst
    case Alu32(_, dst, _) => r == dst
    case Load(_, dst, _, _) => r == dst
    case LoadImm64(dst, _) => r == dst
    case Endian(_, _, dst) => r == dst
    case Call(_) => r == 0
    case _ => false
  }

  /** A helper call leaves nothing in the argument registers. */
  predicate Loses(i: Insn, r: BpfReg) { i.Call? && 1 <= r <= 5 }

  /** An access to memory at an offset from R10. */
  predicate TouchesFrame(i: Insn) {
    match i
    case Load(_, _, base, _) => base == 10
    case StoreReg(_, dst, _, _) => dst == 10
    case StoreImm(_, dst, _, _) => dst == 10
    case Atomic(_, _, dst, _, _) => dst == 10
    case _ => false
  }

  predicate GoesTo(i: Insn, at: nat, to: int) {
    match i
    case Jump(off) => to == at + 1 + off
    case JmpCond(_, _, _, off) => to == at + 1 || to == at + 1 + off
    case JmpCond32(_, _, _, off) => to == at + 1 || to == at + 1 + off
    case Exit => false
    case _ => to == at + 1
  }

  // ---------- walks ----------

  predicate Walk(insns: seq<Insn>, p: seq<nat>) {
    && |p| > 0 && p[0] == 0
    && (forall j :: 0 <= j < |p| ==> p[j] < |insns|)
    && (forall j :: 0 <= j < |p| - 1 ==> GoesTo(insns[p[j]], p[j], p[j + 1]))
  }

  /** None of the steps of p from k on, up to its last instruction, loses r. */
  predicate KeptFrom(insns: seq<Insn>, p: seq<nat>, r: BpfReg, k: nat)
    requires Walk(insns, p)
  {
    forall m :: k <= m < |p| - 1 ==> !Loses(insns[p[m]], r)
  }

  predicate SetAt(insns: seq<Insn>, p: seq<nat>, r: BpfReg, j: nat)
    requires Walk(insns, p)
  {
    j < |p| - 1 && Sets(insns[p[j]], r) && KeptFrom(insns, p, r, j + 1)
  }

  /** On arrival at the last instruction of p, register r holds a value: R1 and R10 from the start,
      any other from an instruction that set it, and lost by no call since. */
  ghost predicate HoldsValue(insns: seq<Insn>, p: seq<nat>, r: BpfReg)
    requires Walk(insns, p)
  {
    || (exists j :: SetAt(insns, p, r, j))
    || ((r == 1 || r == 10) && KeptFrom(insns, p, r, 0))
  }

  predicate WalkTo(insns: seq<Insn>, p: seq<nat>, pc: nat) { Walk(insns, p) && p[|p| - 1] == pc }

  ghost predicate OnSomeWalk(insns: seq<Insn>, pc: nat) {
    exists p :: WalkTo(insns, p, pc)
  }

  /** Whatever the way to the last instruction of p, the registers it uses hold values. */
  ghost predicate UsesHeld(insns: seq<Insn>, p: seq<nat>)
    requires Walk(insns, p)
  {
    forall r: BpfReg :: Uses(insns[p[|p| - 1]], r) ==> HoldsValue(insns, p, r)
  }

  predicate StaysInside(insns: seq<Insn>, pc: nat)
    requires pc < |insns|
  {
    var i := insns[pc];
    (i.Jump? || i.JmpCond? || i.JmpCond32?) ==> 0 <= pc + 1 + i.off < |insns|
  }

  predicate LeavesFrameAlone(i: Insn) { !Sets(i, 10) && (TouchesFrame(i) ==> -512 <= i.off < 0) }

  ghost predicate Acceptable(insns: seq<Insn>) {
    && |insns| > 0
    && (forall pc: nat :: pc < |insns| ==> StaysInside(insns, pc))
    && (forall pc: nat :: pc < |insns| ==> LeavesFrameAlone(insns[pc]))
    && (forall pc: nat :: pc < |insns| ==> OnSomeWalk(insns, pc))
    && (forall p :: Walk(insns, p) ==> UsesHeld(insns, p))
    && (exists pc: nat :: pc < |insns| && insns[pc] == Exit)
    && (var last := insns[|insns| - 1]; last.Jump? || last.JmpCond? || last.JmpCond32? || last.Exit? || last.TailCall?)
  }

  // ---------- the two definitions agree ----------

  lemma UsesIsReads(i: Insn, r: BpfReg)
    ensures Uses(i, r) <==> r in Reads(i)
    ensures Sets(i, r) <==> r in Writes(i)
    ensures TouchesFrame(i) <==> FrameAccess(i)
  {}

  /** What is initialised behind an instruction: what it sets, and what was and is not lost. */
  lemma TransferIs(i: Insn, s: set<BpfReg>, r: BpfReg)
    ensures r in Transfer(i, s) <==> Sets(i, r) || (r in s && !Loses(i, r))
  {
    UsesIsReads(i, r);
  }

  lemma StepIsEdge(insns: seq<Insn>, a: nat, b: nat)
    requires a < |insns| && b < |insns|
    ensures GoesTo(insns[a], a, b) <==> Edge(insns, a, b)
  {}

  lemma WalkIsPath(insns: seq<Insn>, p: seq<nat>)
    ensures Walk(insns, p) <==> IsPath(insns, p)
  {
    hide Edge, GoesTo;
    if |p| > 0 && p[0] == 0 && forall j :: 0 <= j < |p| ==> p[j] < |insns| {
      forall j | 0 <= j < |p| - 1
        ensures GoesTo(insns[p[j]], p[j], p[j + 1]) <==> Edge(insns, p[j], p[j + 1])
      {
        StepIsEdge(insns, p[j], p[j + 1]);
      }
    }
  }

  lemma HoldsAtStart(insns: seq<Insn>, p: seq<nat>, r: BpfReg)
    requires Walk(insns, p) && |p| == 1
    ensures HoldsValue(insns, p, r) <==> r == 1 || r == 10
  {}

  /** One more step: the register is set, or was held and is not lost. */
  lemma HoldsNext(insns: seq<Insn>, p: seq<nat>, r: BpfReg)
    requires Walk(insns, p) && |p| > 1 && Walk(insns, p[..|p| - 1])
    ensures var q, i := p[..|p| - 1], insns[p[|p| - 2]];
            HoldsValue(insns, p, r) <==> Sets(i, r) || (HoldsValue(insns, q, r) && !Loses(i, r))
  {
    hide Sets, Loses, GoesTo;
    var q, n := p[..|p| - 1], |p| - 2;
    if Sets(insns[p[n]], r) {
      assert SetAt(insns, p, r, n);
    }
    if HoldsValue(insns, q, r) && !Loses(insns[p[n]], r) {
      if j :| SetAt(insns, q, r, j) {
        assert SetAt(insns, p, r, j);
      } else {
        assert KeptFrom(insns, p, r, 0);
      }
    }
    if HoldsValue(insns, p, r) && !Sets(insns[p[n]], r) {
      if j :| SetAt(insns, p, r, j) {
        assert SetAt(insns, q, r, j);
      } else {
        assert KeptFrom(insns, q, r, 0);
      }
    }
  }

  lemma {:induction false} HoldsIff(insns: seq<Insn>, p: seq<nat>, r: BpfReg)
    requires IsPath(insns, p)
    ensures Walk(insns, p) && (HoldsValue(insns, p, r) <==> r in Initialised(insns, p))
    decreases |p|
  {
    WalkIsPath(insns, p);
    if |p| == 1 {
      HoldsAtStart(insns, p, r);
    } else {
      var q := p[..|p| - 1];
      HoldsIff(insns, q, r);
      HoldsNext(insns, p, r);
      TransferIs(insns[p[|p| - 2]], Initialised(insns, q), r);
    }
  }

  lemma UsesHeldIff(insns: seq<Insn>, p: seq<nat>)
    requires IsPath(insns, p)
    ensures Walk(insns, p)
    ensures UsesHeld(insns, p) <==> (forall r :: r in Reads(insns[Last(p)]) ==> r in Initialised(insns, p))
  {
    WalkIsPath(insns, p);
    hide Edge, GoesTo, HoldsValue, Uses, Reads, Initialised;
    forall r: BpfReg
      ensures Uses(insns[Last(p)], r) <==> r in Reads(insns[Last(p)])
      ensures HoldsValue(insns, p, r) <==> r in Initialised(insns, p)
    {
      HoldsIff(insns, p, r);
      UsesIsReads(insns[Last(p)], r);
    }
  }

  lemma PathOkIff(insns: seq<Insn>, p: seq<nat>)
    requires IsPath(insns, p)
    ensures Walk(insns, p)
    ensures PathOk(insns, p) <==> UsesHeld(insns, p) && LeavesFrameAlone(insns[Last(p)])
  {
    UsesHeldIff(insns, p);
    UsesIsReads(insns[Last(p)], 10);
    hide Edge, GoesTo, UsesHeld, Initialised, Reads, Writes, Sets;
  }

  lemma ReachableIff(insns: seq<Insn>, pc: nat)
    ensures Reachable(insns, pc) <==> OnSomeWalk(insns, pc)
  {
    if Reachable(insns, pc) {
      var p :| PathTo(insns, p, pc);
      WalkIsPath(insns, p);
      assert WalkTo(insns, p, pc);
    }
    if p :| WalkTo(insns, p, pc) {
      WalkIsPath(insns, p);
      assert PathTo(insns, p, pc);
    }
  }

  lemma BranchesIff(insns: seq<Insn>)
    ensures BranchesInRange(insns) <==> forall pc: nat :: pc < |insns| ==> StaysInside(insns, pc)
  {
    if forall pc: nat :: pc < |insns| ==> StaysInside(insns, pc) {
      forall pc | 0 <= pc < |insns|
        ensures BranchInRange(insns, pc)
      {
        assert StaysInside(insns, pc);
      }
    }
    forall pc: nat | pc < |insns|
      ensures BranchInRange(insns, pc) == StaysInside(insns, pc)
    {}
  }

  lemma SafeIsAcceptable(insns: seq<Insn>)
    requires Safe(insns)
    ensures Acceptable(insns)
  {
    BranchesIff(insns);
    hide BranchesInRange, StaysInside, LeavesFrameAlone, Walk, UsesHeld, IsPath, PathOk;
    forall pc: nat | pc < |insns|
      ensures LeavesFrameAlone(insns[pc]) && OnSomeWalk(insns, pc)
    {
      ReachableIff(insns, pc);
      var p :| PathTo(insns, p, pc);
      PathOkIff(insns, p);
    }
    forall p | Walk(insns, p)
      ensures UsesHeld(insns, p)
    {
      WalkIsPath(insns, p);
      PathOkIff(insns, p);
    }
    var pc: nat :| pc < |insns| && insns[pc].Exit?;
    assert insns[pc] == Exit;
  }

  lemma AcceptableIsSafe(insns: seq<Insn>)
    requires Acceptable(insns)
    ensures Safe(insns)
  {
    BranchesIff(insns);
    hide BranchesInRange, StaysInside, LeavesFrameAlone, Walk, UsesHeld, PathOk;
    forall pc: nat | pc < |insns|
      ensures Reachable(insns, pc)
    {
      ReachableIff(insns, pc);
    }
    forall p | IsPath(insns, p)
      ensures PathOk(insns, p)
    {
      PathOkIff(insns, p);
    }
    var pc: nat :| pc < |insns| && insns[pc] == Exit;
    assert insns[pc].Exit?;
  }

  /** The property that verification decides, spelled out: every branch stays inside, R10 is never
      set, frame accesses stay within 512 bytes below it, every instruction is on some walk, on every
      walk each register used holds a value, and the program exits and does not simply end. */
  lemma SafeMeans(insns: seq<Insn>)
    ensures Safe(insns) <==> Acceptable(insns)
  {
    hide Safe, Acceptable;
    if Safe(insns) {
      SafeIsAcceptable(insns);
    }
    if Acceptable(insns) {
      AcceptableIsSafe(insns);
    }
  }

  /** After a helper call no walk of a safe program uses one of R1 to R5 before setting it again. */
  lemma NoStaleArguments(insns: seq<Insn>, p: seq<nat>, c: nat, r: BpfReg) returns (j: nat)
    requires Safe(insns) && Walk(insns, p) && c < |p| - 1 && insns[p[c]].Call?
    requires 1 <= r <= 5 && Uses(insns[p[|p| - 1]], r)
    ensures c < j < |p| - 1 && Sets(insns[p[j]], r)
  {
    SafeIsAcceptable(insns);
    hide Walk, Uses, Sets, Safe;
    assert UsesHeld(insns, p);
    assert HoldsValue(insns, p, r);
    assert Loses(insns[p[c]], r);
    j :| SetAt(insns, p, r, j);
    if j == c {
      CallSetsOnlyResult(insns[p[c]], r);
    }
  }

  lemma CallSetsOnlyResult(i: Insn, r: BpfReg)
    requires i.Call?
    ensures Sets(i, r) <==> r == 0
  {}

  // ---------- block starts ----------

  predicate LeadsTo(insns: seq<Insn>, q: nat, i: nat) {
    && q < |insns| && (insns[q].Jump? || insns[q].JmpCond? || insns[q].JmpCond32?)
    && q + 1 + insns[q].off == i
  }

  /** A block starts at the first instruction, where a branch leads, and behind a branch or an exit; in
      lowering also behind a tail call. */
  ghost predicate StartsBlock(insns: seq<Insn>, lowering: bool, i: nat)
    requires i < |insns|
  {
    || i == 0
    || (exists q :: LeadsTo(insns, q, i))
    || (var before := insns[i - 1];
        before.Jump? || before.JmpCond? || before.JmpCond32? || before.Exit? || (lowering && before.TailCall?))
  }

  lemma LeadersAre(insns: seq<Insn>, lowering: bool, i: nat)
    requires i < |insns|
    ensures i in Leaders(insns, lowering, |insns|) <==> StartsBlock(insns, lowering, i)
  {
    LeadersExact(insns, lowering, |insns|, i);
    if q :| 0 <= q < |insns| && JumpsTo(insns, q, i) {
      assert LeadsTo(insns, q, i);
    }
    if q :| LeadsTo(insns, q, i) {
      assert JumpsTo(insns, q, i);
    }
    hide Leaders;
  }

  // ---------- which fault is reported ----------

  /** The first lacking operand: the source before the destination in arithmetic, the destination
      first otherwise. */
  function FirstLacking(i: Insn, s: set<BpfReg>): BpfReg {
    match i
    case Alu64(_, dst, src) => if src.Reg? && src.reg !in s then src.reg else dst
    case Alu32(_, dst, src) => if src.Reg? && src.reg !in s then src.reg else dst
    case Load(_, _, base, _) => base
    case StoreReg(_, dst, value, _) => if dst !in s then dst else value
    case StoreImm(_, dst, _, _) => dst
    case JmpCond(_, dst, src, _) => if dst !in s || src.Imm? then dst else src.reg
    case JmpCond32(_, dst, src, _) => if dst !in s || src.Imm? then dst else src.reg
    case Atomic(_, _, dst, value, _) => if dst !in s then dst else value
    case Endian(_, _, dst) => dst
    case _ => 0
  }

  lemma LackingIs(i: Insn, s: set<BpfReg>)
    ensures FirstUninit(Reads(i), s) == [] <==> forall r :: Uses(i, r) ==> r in s
    ensures FirstUninit(Reads(i), s) != [] ==> FirstUninit(Reads(i), s)[0] == FirstLacking(i, s)
  {
    FirstUninitMeans(Reads(i), s);
    FirstUninitShort(Reads(i), s);
    forall r: BpfReg
      ensures Uses(i, r) <==> r in Reads(i)
    {
      UsesIsReads(i, r);
    }
    hide FirstUninit, Uses;
  }

  /** The verdict on one instruction, where exactly the registers of s are initialised: a set R10 is
      reported first, then the first lacking operand, then a frame access out of bounds; otherwise
      what it sets becomes, and what it loses ceases to be initialised. */
  lemma VerdictIs(i: Insn, pc: nat, s: set<BpfReg>)
    ensures Sets(i, 10) ==> Verdict(i, pc, s) == Err(WriteToR10(pc))
    ensures !Sets(i, 10) && (exists r :: Uses(i, r) && r !in s) ==>
              Verdict(i, pc, s) == Err(UninitializedRegRead(pc, FirstLacking(i, s)))
    ensures !Sets(i, 10) && (forall r :: Uses(i, r) ==> r in s) && TouchesFrame(i) && !(-512 <= i.off < 0) ==>
              Verdict(i, pc, s) == Err(StackOutOfBounds(pc, i.off))
    ensures LeavesFrameAlone(i) && (forall r :: Uses(i, r) ==> r in s) ==>
              && Verdict(i, pc, s).Ok?
              && forall r :: r in Verdict(i, pc, s).value <==> Sets(i, r) || (r in s && !Loses(i, r))
  {
    UsesIsReads(i, 10);
    LackingIs(i, s);
    forall r: BpfReg
      ensures r in Transfer(i, s) <==> Sets(i, r) || (r in s && !Loses(i, r))
    {
      TransferIs(i, s, r);
    }
    hide Uses, Sets, Loses, Reads, Writes, Transfer, FirstUninit, FirstLacking;
  }
}
