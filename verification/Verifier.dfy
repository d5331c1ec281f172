/** The static verifier's verdict, and what it means. */
module Verifier {
  import opened Isa
  import opened Flow
  import opened Cfg
  import opened Blocks
  import opened Dataflow
  import opened Budget

  // ---------- what a fixed point says about all paths ----------

  /** Block b is settled, and on arrival at pc inside it the analysis claims no more than path p
      has initialised. */
  ghost predicate SoundAt(insns: seq<Insn>, cfg: seq<BasicBlock>, bbs: seq<BasicBlock>, p: seq<nat>, b: nat)
    requires WellFormed(insns, cfg) && SameShape(bbs, cfg) && IsPath(insns, p)
  {
    && b < |cfg| && bbs[b].reachable && cfg[b].start <= Last(p) < cfg[b].end
    && TransferRange(insns, cfg[b].start, Last(p), Inits(bbs[b].regStateIn)) <= Initialised(insns, p)
  }

  lemma StepInsideBlock(insns: seq<Insn>, cfg: seq<BasicBlock>, bbs: seq<BasicBlock>, p: seq<nat>, q: seq<nat>, b: nat)
    requires WellFormed(insns, cfg) && FixedPoint(insns, cfg, bbs)
    requires IsPath(insns, p) && SoundAt(insns, cfg, bbs, p, b) && Last(p) < cfg[b].end - 1
    requires IsPath(insns, q) && q == p + [Last(q)] && Edge(insns, Last(p), Last(q))
    ensures SoundAt(insns, cfg, bbs, q, b)
  {
    assert !EndsBlock(insns[Last(p)], false);
    assert q[..|q| - 1] == p;
  }

  lemma StepToNextBlock(insns: seq<Insn>, cfg: seq<BasicBlock>, bbs: seq<BasicBlock>, p: seq<nat>, q: seq<nat>, b: nat)
    returns (s: nat)
    requires WellFormed(insns, cfg) && FixedPoint(insns, cfg, bbs)
    requires IsPath(insns, p) && SoundAt(insns, cfg, bbs, p, b) && Last(p) == cfg[b].end - 1
    requires IsPath(insns, q) && q == p + [Last(q)] && Edge(insns, Last(p), Last(q))
    ensures SoundAt(insns, cfg, bbs, q, s)
  {
    hide InsnOk, Inits, Witnessed;
    assert BlockEdge(insns, cfg, b, Last(q));
    assert HasArcTo(cfg, b, Last(q));
    s :| s in cfg[b].successors && s < |cfg| && cfg[s].start == Last(q);
    assert Settled(insns, cfg, bbs, b);
    assert MergedInto(insns, cfg, bbs, b, s);
    assert q[..|q| - 1] == p;
  }

  /** The analysis is sound on every path, however it loops. */
  lemma {:induction false} SoundOnPath(insns: seq<Insn>, cfg: seq<BasicBlock>, bbs: seq<BasicBlock>, p: seq<nat>)
    returns (b: nat)
    requires WellFormed(insns, cfg) && FixedPoint(insns, cfg, bbs) && IsPath(insns, p)
    ensures SoundAt(insns, cfg, bbs, p, b)
    decreases |p|
  {
    if |p| == 1 {
      b := 0;
    } else {
      var q := p[..|p| - 1];
      var c := SoundOnPath(insns, cfg, bbs, q);
      assert Edge(insns, Last(q), Last(p)) && p == q + [Last(p)];
      if Last(q) < cfg[c].end - 1 {
        StepInsideBlock(insns, cfg, bbs, q, p, c);
        b := c;
      } else {
        b := StepToNextBlock(insns, cfg, bbs, q, p, c);
      }
    }
  }

  /** On success every instruction that a path reaches may execute. */
  lemma FixedPointOk(insns: seq<Insn>, cfg: seq<BasicBlock>, bbs: seq<BasicBlock>, p: seq<nat>)
    requires WellFormed(insns, cfg) && FixedPoint(insns, cfg, bbs) && IsPath(insns, p)
    ensures PathOk(insns, p)
  {
    var b := SoundOnPath(insns, cfg, bbs, p);
    assert Settled(insns, cfg, bbs, b);
    assert BlockOk(insns, bbs[b]);
  }

  /** Reachability is exact: a block is marked iff some path reaches its first instruction. */
  lemma ReachabilityExact(insns: seq<Insn>, cfg: seq<BasicBlock>, bbs: seq<BasicBlock>, b: nat)
    requires WellFormed(insns, cfg) && FixedPoint(insns, cfg, bbs) && b < |bbs|
    ensures bbs[b].reachable <==> Reachable(insns, bbs[b].start)
  {
    if bbs[b].reachable {
      var p :| BlockPathTo(cfg, p, b);
      var q := BlockPathToPath(insns, cfg, p);
    }
    if Reachable(insns, bbs[b].start) {
      var p :| PathTo(insns, p, bbs[b].start);
      var c := SoundOnPath(insns, cfg, bbs, p);
      OneBlockEach(insns, cfg, b, c, bbs[b].start);
    }
  }

  lemma OneBlockEach(insns: seq<Insn>, cfg: seq<BasicBlock>, b: nat, c: nat, pc: nat)
    requires WellFormed(insns, cfg) && b < |cfg| && c < |cfg|
    requires cfg[b].start <= pc < cfg[b].end && cfg[c].start <= pc < cfg[c].end
    ensures b == c
  {
    if b < c {
      BlocksOrdered(insns, cfg, b, c);
    } else if c < b {
      BlocksOrdered(insns, cfg, c, b);
    }
  }

  lemma BlocksOrdered(insns: seq<Insn>, cfg: seq<BasicBlock>, b: nat, c: nat)
    requires WellFormed(insns, cfg) && b < c < |cfg|
    ensures cfg[b].end <= cfg[c].start
  {
    StartsIncrease(insns, cfg, b + 1, c);
    assert cfg[b].end == cfg[b + 1].start;
  }

  /** On success the in-state of a reachable block is exactly the meet over all paths: a register
      is marked initialised iff every path to the block initialises it. */
  lemma MeetOverAllPaths(insns: seq<Insn>, cfg: seq<BasicBlock>, bbs: seq<BasicBlock>, b: nat, r: BpfReg)
    requires WellFormed(insns, cfg) && FixedPoint(insns, cfg, bbs) && b < |bbs| && bbs[b].reachable
    ensures r in Inits(bbs[b].regStateIn) <==>
              forall p :: PathTo(insns, p, bbs[b].start) ==> r in Initialised(insns, p)
  {
    if r in Inits(bbs[b].regStateIn) {
      forall p | PathTo(insns, p, bbs[b].start)
        ensures r in Initialised(insns, p)
      {
        var c := SoundOnPath(insns, cfg, bbs, p);
        OneBlockEach(insns, cfg, b, c, bbs[b].start);
      }
    } else {
      var p :| LacksAlong(insns, cfg, p, b, r);
      var q := BlockPathToPath(insns, cfg, p);
      assert PathTo(insns, q, bbs[b].start) && r !in Initialised(insns, q);
    }
  }

  // ---------- the exit checks ----------

  /** All blocks are reachable, none falls off the end, and one ends in an exit; otherwise the
      first block at fault, in order, is reported. */
  method CheckExitReachability(insns: seq<Insn>, bbs: seq<BasicBlock>) returns (r: Result<()>)
    requires forall b :: 0 <= b < |bbs| ==> 0 < bbs[b].end <= |insns|
    ensures r.Ok? <==>
              && (forall b :: 0 <= b < |bbs| ==> bbs[b].reachable && !DeadEnd(insns, bbs[b]))
              && (exists b :: 0 <= b < |bbs| && insns[bbs[b].end - 1].Exit?)
    ensures r.Err? ==>
              || (exists b :: 0 <= b < |bbs| && FaultAt(insns, bbs, b, r.error))
              || (r.error == NoExitInstruction && forall b :: 0 <= b < |bbs| ==>
                    bbs[b].reachable && !DeadEnd(insns, bbs[b]) && !insns[bbs[b].end - 1].Exit?)
  {
    var hasExit := false;
    for b := 0 to |bbs|
      invariant forall c :: 0 <= c < b ==> bbs[c].reachable && !DeadEnd(insns, bbs[c])
      invariant hasExit <==> exists c :: 0 <= c < b && insns[bbs[c].end - 1].Exit?
    {
      var bb := bbs[b];
      if !bb.reachable {
        assert FaultAt(insns, bbs, b, UnreachableCode(bb.start));
        return Err(UnreachableCode(bb.start));
      }
      var last := insns[bb.end - 1];
      if last.Exit? {
        hasExit := true;
      }
      if bb.successors == [] && !(last.Exit? || last.TailCall?) {
        assert FaultAt(insns, bbs, b, FallthroughAfterExit(bb.end - 1));
        return Err(FallthroughAfterExit(bb.end - 1));
      }
    }
    if !hasExit {
      return Err(NoExitInstruction);
    }
    r := Ok(());
  }

  predicate DeadEnd(insns: seq<Insn>, bb: BasicBlock)
    requires 0 < bb.end <= |insns|
  {
    var last := insns[bb.end - 1];
    bb.successors == [] && !last.Exit? && !last.TailCall?
  }

  predicate FaultAt(insns: seq<Insn>, bbs: seq<BasicBlock>, b: nat, e: VerifyError)
    requires b < |bbs| && forall c :: 0 <= c < |bbs| ==> 0 < bbs[c].end <= |insns|
  {
    && (forall c :: 0 <= c < b ==> bbs[c].reachable && !DeadEnd(insns, bbs[c]))
    && if !bbs[b].reachable then e == UnreachableCode(bbs[b].start)
       else DeadEnd(insns, bbs[b]) && e == FallthroughAfterExit(bbs[b].end - 1)
  }

  lemma {:induction false} BlockHolding(insns: seq<Insn>, cfg: seq<BasicBlock>, k: nat, pc: nat) returns (b: nat)
    requires WellFormed(insns, cfg) && k < |cfg| && pc < cfg[k].end
    ensures b <= k && cfg[b].start <= pc < cfg[b].end
    decreases k
  {
    if cfg[k].start <= pc {
      b := k;
    } else {
      assert cfg[k - 1].end == cfg[k - 1 + 1].start;
      b := BlockHolding(insns, cfg, k - 1, pc);
    }
  }

  /** A dead end can only be the end of the program. */
  lemma DeadEndIsLast(insns: seq<Insn>, cfg: seq<BasicBlock>, b: nat)
    requires WellFormed(insns, cfg) && BranchesInRange(insns) && b < |cfg|
    ensures DeadEnd(insns, cfg[b]) <==> cfg[b].end == |insns| && !EndOk(insns)
  {
    var last := cfg[b].end - 1;
    if cfg[b].successors == [] {
      NoArcNoEdge(insns, cfg, b, cfg[b].end);
      assert BranchInRange(insns, last);
      if IsBranch(insns[last]) {
        NoArcNoEdge(insns, cfg, b, Target(insns, last));
      }
    } else {
      var s := cfg[b].successors[0];
      assert s in cfg[b].successors;
      assert IsArc(insns, cfg, b, s);
    }
  }

  lemma NoArcNoEdge(insns: seq<Insn>, cfg: seq<BasicBlock>, b: nat, pc: nat)
    requires WellFormed(insns, cfg) && b < |cfg| && cfg[b].successors == []
    ensures !Edge(insns, cfg[b].end - 1, pc)
  {
    assert BlockEdge(insns, cfg, b, pc) ==> HasArcTo(cfg, b, pc);
  }

  // ---------- the verdict ----------

  /** What each error says about the program. */
  ghost predicate Justified(insns: seq<Insn>, e: VerifyError) {
    match e
    case EmptyProgram => insns == []
    case BranchOutOfBounds(pc, target) =>
      pc < |insns| && IsBranch(insns[pc]) && target == Target(insns, pc) && !(0 <= target < |insns|)
    case UnreachableCode(pc) => pc < |insns| && !Reachable(insns, pc)
    case NoExitInstruction => forall pc: nat :: pc < |insns| ==> !insns[pc].Exit?
    case FallthroughAfterExit(pc) => pc + 1 == |insns| && !EndOk(insns)
    case BackEdgeBudgetExceeded(pc) => pc == 0 && !WithinBudget(insns) && |BackwardBranches(insns)| > 15
    case _ => CheckFails(insns, e)
  }

  /** Every error except the exceeded budget refutes safety. */
  lemma JustifiedRefutes(insns: seq<Insn>, e: VerifyError)
    requires Justified(insns, e) && !e.BackEdgeBudgetExceeded?
    ensures !Safe(insns)
  {
    match e
    case UninitializedRegRead(pc, reg) =>
      var p :| PathTo(insns, p, pc) && reg !in Initialised(insns, p);
      assert IsPath(insns, p) && !PathOk(insns, p);
    case WriteToR10(pc) =>
      var p :| PathTo(insns, p, pc);
      assert IsPath(insns, p) && !PathOk(insns, p);
    case StackOutOfBounds(pc, _) =>
      var p :| PathTo(insns, p, pc);
      assert IsPath(insns, p) && !PathOk(insns, p);
    case BranchOutOfBounds(pc, _) =>
      assert !BranchInRange(insns, pc);
    case _ =>
  }

  /** From the outcome of the exit checks on a fixed point to the error's meaning. */
  lemma ExitErrorJustified(insns: seq<Insn>, cfg: seq<BasicBlock>, bbs: seq<BasicBlock>, e: VerifyError)
    requires WellFormed(insns, cfg) && BranchesInRange(insns) && FixedPoint(insns, cfg, bbs)
    requires || (exists b :: 0 <= b < |bbs| && FaultAt(insns, bbs, b, e))
             || (e == NoExitInstruction && forall b :: 0 <= b < |bbs| ==>
                   bbs[b].reachable && !DeadEnd(insns, bbs[b]) && !insns[bbs[b].end - 1].Exit?)
    ensures Justified(insns, e) && !e.BackEdgeBudgetExceeded?
  {
    if b :| 0 <= b < |bbs| && FaultAt(insns, bbs, b, e) {
      ReachabilityExact(insns, cfg, bbs, b);
      DeadEndIsLast(insns, cfg, b);
    } else {
      forall pc: nat | pc < |insns|
        ensures !insns[pc].Exit?
      {
        var b := BlockHolding(insns, cfg, |cfg| - 1, pc);
        assert pc < cfg[b].end - 1 ==> !EndsBlock(insns[pc], false);
      }
    }
  }

  lemma ExitOkSafe(insns: seq<Insn>, cfg: seq<BasicBlock>, bbs: seq<BasicBlock>)
    requires WellFormed(insns, cfg) && BranchesInRange(insns) && FixedPoint(insns, cfg, bbs)
    requires forall b :: 0 <= b < |bbs| ==> bbs[b].reachable && !DeadEnd(insns, bbs[b])
    requires exists b :: 0 <= b < |bbs| && insns[bbs[b].end - 1].Exit?
    ensures Safe(insns)
  {
    forall pc: nat | pc < |insns|
      ensures Reachable(insns, pc)
    {
      var b := BlockHolding(insns, cfg, |cfg| - 1, pc);
      var p :| BlockPathTo(cfg, p, b);
      var q := PathInto(insns, cfg, p, b, pc);
    }
    forall p | IsPath(insns, p)
      ensures PathOk(insns, p)
    {
      FixedPointOk(insns, cfg, bbs, p);
    }
    DeadEndIsLast(insns, cfg, |cfg| - 1);
    var b :| 0 <= b < |bbs| && insns[bbs[b].end - 1].Exit?;
    assert insns[(bbs[b].end - 1) as nat].Exit?;
  }

  /** Verification succeeds only on safe programs and reports the number of blocks; it fails only
      for a reason that the program really gives. The verdict is exact: Ok if and only if the program
      is safe and within the pass budget, which it is with at most 15 backward branches. */
  method VerifyProgram(insns: seq<Insn>) returns (r: Result<nat>)
    ensures r.Ok? ==> Safe(insns) && r.value == |Leaders(insns, false, |insns|)|
    ensures r.Err? ==> Justified(insns, r.error)
    ensures r.Ok? <==> Safe(insns) && WithinBudget(insns)
    ensures |BackwardBranches(insns)| <= 15 ==> (r.Ok? <==> Safe(insns))
  {
    if insns == [] {
      return Err(EmptyProgram);
    }
    var starts := FindBbStarts(insns);
    if starts.Err? {
      JustifiedRefutes(insns, starts.error);
      return Err(starts.error);
    }
    var cfg := BuildCfg(insns, starts.value);
    hide WellFormed, FixedPoint, Safe, Justified, CheckFails, Known, WithinBudget, BackwardBranches;
    ghost var passes;
    var analyzed;
    analyzed, passes := DataflowAnalysis(insns, cfg);
    if analyzed.Err? {
      AnalysisErrorJustified(insns, cfg, analyzed.error);
      return Err(analyzed.error);
    }
    PassesWithinBudget(insns, cfg, passes);
    FixedPointShape(insns, cfg, analyzed.value);
    var checked := CheckExitReachability(insns, analyzed.value);
    if checked.Err? {
      ExitErrorJustified(insns, cfg, analyzed.value, checked.error);
      JustifiedRefutes(insns, checked.error);
      return Err(checked.error);
    }
    ExitOkSafe(insns, cfg, analyzed.value);
    r := Ok(|analyzed.value|);
  }

  lemma PassesWithinBudget(insns: seq<Insn>, cfg: seq<BasicBlock>, passes: nat)
    requires WellFormed(insns, cfg) && AtLeaders(insns, cfg)
    requires 0 < passes <= MAX_BACK_EDGE_TRAVERSALS && Known(insns, cfg, passes - 1)
    ensures WithinBudget(insns)
  {
    hide WellFormed, AtLeaders, Known, KnownWithin;
    KnownLater(insns, cfg, passes - 1, MAX_BACK_EDGE_TRAVERSALS - 1);
    KnownIff(insns, cfg, MAX_BACK_EDGE_TRAVERSALS - 1);
  }

  lemma FixedPointShape(insns: seq<Insn>, cfg: seq<BasicBlock>, bbs: seq<BasicBlock>)
    requires WellFormed(insns, cfg) && FixedPoint(insns, cfg, bbs)
    ensures |bbs| == |cfg| && forall b :: 0 <= b < |bbs| ==> 0 < bbs[b].end <= |insns|
  {}

  lemma AnalysisErrorJustified(insns: seq<Insn>, cfg: seq<BasicBlock>, e: VerifyError)
    requires WellFormed(insns, cfg) && AtLeaders(insns, cfg)
    requires (e == BackEdgeBudgetExceeded(0) && !Known(insns, cfg, MAX_BACK_EDGE_TRAVERSALS - 1)) ||
             CheckFails(insns, e)
    ensures Justified(insns, e) && !(Safe(insns) && WithinBudget(insns))
    ensures |BackwardBranches(insns)| <= 15 ==> !Safe(insns)
  {
    hide WellFormed, AtLeaders, Known, KnownWithin, Safe, BackwardBranches;
    if e.BackEdgeBudgetExceeded? {
      KnownIff(insns, cfg, MAX_BACK_EDGE_TRAVERSALS - 1);
    } else {
      JustifiedRefutes(insns, e);
    }
    if |BackwardBranches(insns)| <= 15 {
      FewBackwardBranches(insns, cfg);
    }
  }
}
