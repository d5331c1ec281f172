/** The pass budget of the analysis, in terms of the program alone: how often a path must go backward
    to say what it has to say. */
module Budget {
  import opened Isa
  import opened Flow
  import opened Cfg
  import opened Blocks
  import opened Dataflow

  predicate ArrivesBy(insns: seq<Insn>, pc: nat, n: nat, q: seq<nat>) {
    PathTo(insns, q, pc) && Arrival(q) <= n
  }

  ghost predicate ReachedIn(insns: seq<Insn>, pc: nat, n: nat) {
    exists q :: ArrivesBy(insns, pc, n, q)
  }

  predicate ArrivesWithout(insns: seq<Insn>, pc: nat, r: BpfReg, n: nat, q: seq<nat>) {
    PathTo(insns, q, pc) && r !in Initialised(insns, q) && Arrival(q) <= n
  }

  ghost predicate LackedIn(insns: seq<Insn>, pc: nat, r: BpfReg, n: nat) {
    exists q :: ArrivesWithout(insns, pc, r, n, q)
  }

  /** Path p to a leader has a substitute that arrives in n passes, and so has every register that p
      leaves uninitialised. */
  ghost predicate SubstituteFor(insns: seq<Insn>, n: nat, p: seq<nat>)
    requires IsPath(insns, p)
  {
    ReachedIn(insns, Last(p), n) && forall r: BpfReg :: r !in Initialised(insns, p) ==> LackedIn(insns, Last(p), r, n)
  }

  predicate LeaderPath(insns: seq<Insn>, p: seq<nat>) { IsPath(insns, p) && IsLeader(insns, false, Last(p)) }

  ghost predicate KnownWithin(insns: seq<Insn>, n: nat) {
    forall p :: LeaderPath(insns, p) ==> SubstituteFor(insns, n, p)
  }

  /** One of the budgeted passes is needed to see that nothing changes. */
  ghost predicate WithinBudget(insns: seq<Insn>) {
    KnownWithin(insns, MAX_BACK_EDGE_TRAVERSALS - 1)
  }

  // ---------- blocks and instructions ----------

  /** The blocks start at the leaders. */
  predicate AtLeaders(insns: seq<Insn>, cfg: seq<BasicBlock>) {
    && |cfg| == |Leaders(insns, false, |insns|)|
    && forall b :: 0 <= b < |cfg| ==> cfg[b].start == Leaders(insns, false, |insns|)[b]
  }

  lemma StartIsLeader(insns: seq<Insn>, cfg: seq<BasicBlock>, b: nat)
    requires WellFormed(insns, cfg) && AtLeaders(insns, cfg) && b < |cfg|
    ensures IsLeader(insns, false, cfg[b].start)
  {
    LeadersExact(insns, false, |insns|, cfg[b].start);
  }

  lemma LeaderIsStart(insns: seq<Insn>, cfg: seq<BasicBlock>, b: nat, pc: nat)
    requires WellFormed(insns, cfg) && AtLeaders(insns, cfg) && b < |cfg| && cfg[b].start <= pc < cfg[b].end
    requires IsLeader(insns, false, pc)
    ensures pc == cfg[b].start
  {
    LeadersExact(insns, false, |insns|, pc);
    var c :| 0 <= c < |cfg| && cfg[c].start == pc;
    if b < c {
      StartsIncrease(insns, cfg, b + 1, c);
    } else {
      StartsIncrease(insns, cfg, c, b);
    }
  }

  /** bp goes through blocks where p goes through instructions; p stands inside block b. */
  predicate Along(insns: seq<Insn>, cfg: seq<BasicBlock>, p: seq<nat>, bp: seq<nat>, b: nat)
    requires WellFormed(insns, cfg) && IsPath(insns, p)
  {
    && BlockPathTo(cfg, bp, b) && cfg[b].start <= Last(p) < cfg[b].end
    && Initialised(insns, p) == TransferRange(insns, cfg[b].start, Last(p), BlockInits(insns, cfg, bp))
    && Retreats(p) == Retreats(bp)
    && (Last(p) == cfg[b].start ==> Arrival(p) == Arrival(bp))
  }

  lemma StepAlong(insns: seq<Insn>, cfg: seq<BasicBlock>, p: seq<nat>, pc: nat, bp: seq<nat>, b: nat)
    returns (bp': seq<nat>, b': nat)
    requires WellFormed(insns, cfg) && IsPath(insns, p) && Along(insns, cfg, p, bp, b)
    requires Edge(insns, Last(p), pc) && IsPath(insns, p + [pc])
    ensures Along(insns, cfg, p + [pc], bp', b')
  {
    hide Retreats, Arrival, Initialised, BlockInits, IsBlockPath, Transfer;
    ExtendPath(insns, p, pc);
    RetreatsSnoc(p, pc);
    NonemptyPath(cfg, bp);
    if Last(p) < cfg[b].end - 1 {
      assert !EndsBlock(insns[Last(p)], false);
      bp', b' := bp, b;
    } else {
      assert BlockEdge(insns, cfg, b, pc);
      assert HasArcTo(cfg, b, pc);
      b' :| b' in cfg[b].successors && b' < |cfg| && cfg[b'].start == pc;
      ExtendBlockPath(insns, cfg, bp, b');
      RetreatsSnoc(bp, b');
      RetreatsAlike(insns, cfg, b, b');
      bp' := bp + [b'];
    }
  }

  lemma {:induction false} PathToBlockPath(insns: seq<Insn>, cfg: seq<BasicBlock>, p: seq<nat>)
    returns (bp: seq<nat>, b: nat)
    requires WellFormed(insns, cfg) && IsPath(insns, p)
    ensures Along(insns, cfg, p, bp, b)
    decreases |p|
  {
    if |p| == 1 {
      bp, b := [0], 0;
    } else {
      var q := p[..|p| - 1];
      assert p == q + [Last(p)] && IsPath(insns, q) && Edge(insns, Last(q), Last(p));
      hide *;
      var bq, c := PathToBlockPath(insns, cfg, q);
      bp, b := StepAlong(insns, cfg, q, Last(p), bq, c);
    }
  }

  // ---------- what is known of blocks and of instructions ----------

  /** A block path that arrives in n passes, seen as an instruction path. */
  lemma ReachedInsn(insns: seq<Insn>, cfg: seq<BasicBlock>, b: nat, n: nat)
    requires WellFormed(insns, cfg) && b < |cfg| && Reached(cfg, b, n)
    ensures ReachedIn(insns, cfg[b].start, n)
  {
    hide WellFormed, Arrival, IsBlockPath, IsPath;
    var bq :| ReachedBy(cfg, b, n, bq);
    var q := BlockPathToPath(insns, cfg, bq);
    assert ArrivesBy(insns, cfg[b].start, n, q);
  }

  lemma LackedInsn(insns: seq<Insn>, cfg: seq<BasicBlock>, b: nat, r: BpfReg, n: nat)
    requires WellFormed(insns, cfg) && b < |cfg| && Lacked(insns, cfg, b, r, n)
    ensures LackedIn(insns, cfg[b].start, r, n)
  {
    hide WellFormed, Arrival, IsBlockPath, IsPath, BlockInits, Initialised;
    var bq :| LacksBy(insns, cfg, b, r, n, bq);
    var q := BlockPathToPath(insns, cfg, bq);
    assert ArrivesWithout(insns, cfg[b].start, r, n, q);
  }

  /** An instruction path to the start of block b, seen as a block path. */
  lemma AlongToStart(insns: seq<Insn>, cfg: seq<BasicBlock>, b: nat, q: seq<nat>) returns (bq: seq<nat>)
    requires WellFormed(insns, cfg) && b < |cfg| && PathTo(insns, q, cfg[b].start)
    ensures BlockPathTo(cfg, bq, b) && BlockInits(insns, cfg, bq) == Initialised(insns, q) && Arrival(bq) == Arrival(q)
  {
    hide Arrival, Initialised, BlockInits, IsBlockPath, IsPath, Retreats;
    var c;
    bq, c := PathToBlockPath(insns, cfg, q);
    NonemptyPath(cfg, bq);
    if b < c {
      StartsIncrease(insns, cfg, b + 1, c);
    } else if c < b {
      StartsIncrease(insns, cfg, c + 1, b);
    }
  }

  lemma ReachedBlock(insns: seq<Insn>, cfg: seq<BasicBlock>, b: nat, n: nat)
    requires WellFormed(insns, cfg) && b < |cfg| && ReachedIn(insns, cfg[b].start, n)
    ensures Reached(cfg, b, n)
  {
    hide WellFormed, Arrival, IsBlockPath, IsPath;
    var q :| ArrivesBy(insns, cfg[b].start, n, q);
    var bq := AlongToStart(insns, cfg, b, q);
    assert ReachedBy(cfg, b, n, bq);
  }

  lemma LackedBlock(insns: seq<Insn>, cfg: seq<BasicBlock>, b: nat, r: BpfReg, n: nat)
    requires WellFormed(insns, cfg) && b < |cfg| && LackedIn(insns, cfg[b].start, r, n)
    ensures Lacked(insns, cfg, b, r, n)
  {
    hide WellFormed, Arrival, IsBlockPath, IsPath, BlockInits, Initialised;
    var q :| ArrivesWithout(insns, cfg[b].start, r, n, q);
    var bq := AlongToStart(insns, cfg, b, q);
    assert LacksBy(insns, cfg, b, r, n, bq);
  }

  lemma KnownToInsns(insns: seq<Insn>, cfg: seq<BasicBlock>, n: nat, p: seq<nat>)
    requires WellFormed(insns, cfg) && AtLeaders(insns, cfg) && Known(insns, cfg, n)
    requires LeaderPath(insns, p)
    ensures SubstituteFor(insns, n, p)
  {
    var bp, b := PathToBlockPath(insns, cfg, p);
    LeaderIsStart(insns, cfg, b, Last(p));
    assert KnownPath(insns, cfg, n, bp);
    assert b < |cfg| && Last(bp) == b && Initialised(insns, p) == BlockInits(insns, cfg, bp);
    hide WellFormed, Reached, Lacked, ReachedIn, LackedIn, Initialised, BlockInits, IsPath, IsBlockPath, Known,
         AtLeaders, Along;
    ReachedInsn(insns, cfg, b, n);
    forall r: BpfReg | r !in Initialised(insns, p)
      ensures LackedIn(insns, Last(p), r, n)
    {
      LackedInsn(insns, cfg, b, r, n);
    }
  }

  lemma KnownToBlocks(insns: seq<Insn>, cfg: seq<BasicBlock>, n: nat, bp: seq<nat>)
    requires WellFormed(insns, cfg) && AtLeaders(insns, cfg) && KnownWithin(insns, n) && IsBlockPath(cfg, bp)
    ensures KnownPath(insns, cfg, n, bp)
  {
    NonemptyPath(cfg, bp);
    var b := Last(bp);
    var p := BlockPathToPath(insns, cfg, bp);
    StartIsLeader(insns, cfg, b);
    assert SubstituteFor(insns, n, p);
    hide WellFormed, Reached, Lacked, ReachedIn, LackedIn, Initialised, BlockInits, IsPath, IsBlockPath,
         KnownWithin, AtLeaders;
    ReachedBlock(insns, cfg, b, n);
    forall r: BpfReg | r !in BlockInits(insns, cfg, bp)
      ensures Lacked(insns, cfg, b, r, n)
    {
      LackedBlock(insns, cfg, b, r, n);
    }
  }

  /** What the analysis can know after n passes depends on the program alone. */
  lemma KnownIff(insns: seq<Insn>, cfg: seq<BasicBlock>, n: nat)
    requires WellFormed(insns, cfg) && AtLeaders(insns, cfg)
    ensures Known(insns, cfg, n) <==> KnownWithin(insns, n)
  {
    hide WellFormed, AtLeaders, KnownPath, SubstituteFor, IsPath, IsBlockPath, IsLeader;
    if Known(insns, cfg, n) {
      forall p | LeaderPath(insns, p)
        ensures SubstituteFor(insns, n, p)
      {
        KnownToInsns(insns, cfg, n, p);
      }
    }
    if KnownWithin(insns, n) {
      forall bp | IsBlockPath(cfg, bp)
        ensures KnownPath(insns, cfg, n, bp)
      {
        KnownToBlocks(insns, cfg, n, bp);
      }
    }
  }

  /** With at most 15 backward branches a program is always within budget. */
  lemma FewBackwardBranches(insns: seq<Insn>, cfg: seq<BasicBlock>)
    requires WellFormed(insns, cfg) && AtLeaders(insns, cfg) && |BackwardBranches(insns)| <= 15
    ensures WithinBudget(insns)
  {
    KnownByRetreats(insns, cfg);
    hide WellFormed, AtLeaders, Known, KnownWithin, BackwardBranches;
    KnownLater(insns, cfg, 2 * |BackwardBranches(insns)| + 1, MAX_BACK_EDGE_TRAVERSALS - 1);
    KnownIff(insns, cfg, MAX_BACK_EDGE_TRAVERSALS - 1);
  }
}
