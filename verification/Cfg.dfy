/** Basic blocks: finding leaders and building the control-flow graph. */
module Cfg {
  import opened Isa
  import opened Flow

  datatype VerifyError =
    | BranchOutOfBounds(pc: nat, target: int)
    | UninitializedRegRead(pc: nat, reg: BpfReg)
    | StackOutOfBounds(pc: nat, offset: i16)
    | WriteToR10(pc: nat)
    | NoExitInstruction
    | UnreachableCode(pc: nat)
    | BackEdgeBudgetExceeded(pc: nat)
    | FallthroughAfterExit(pc: nat)
    | EmptyProgram

  datatype Result<+T> = Ok(value: T) | Err(error: VerifyError)

  // ---------- register files ----------

  datatype RegState = Uninit | Init

  type RegFile = f: seq<RegState> | |f| == NUM_REGS witness seq(NUM_REGS, _ => Uninit)

  function Inits(f: RegFile): set<BpfReg> {
    set r: BpfReg | f[r] == Init
  }

  function NewEntry(): (f: RegFile)
    ensures Inits(f) == ENTRY_REGS
  {
    seq(NUM_REGS, _ => Uninit)[1 := Init][10 := Init]
  }

  function NewUninit(): (f: RegFile)
    ensures Inits(f) == {}
  {
    seq(NUM_REGS, _ => Uninit)
  }

  method Merge(a: RegFile, b: RegFile) returns (m: RegFile)
    ensures Inits(m) == Inits(a) * Inits(b)
  {
    m := NewUninit();
    for i := 0 to NUM_REGS
      invariant forall r: BpfReg :: m[r] == (if r < i && a[r] == Init && b[r] == Init then Init else Uninit)
    {
      if a[i] == Init && b[i] == Init {
        m := m[i := Init];
      }
    }
  }

  lemma SameInits(a: RegFile, b: RegFile)
    requires Inits(a) == Inits(b)
    ensures a == b
  {
    forall r: BpfReg
      ensures a[r] == b[r]
    {
      assert r in Inits(a) <==> r in Inits(b);
    }
  }

  // ---------- blocks ----------

  datatype BasicBlock = BasicBlock(
    start: nat,
    end: nat, // exclusive
    successors: seq<nat>,
    regStateIn: RegFile,
    reachable: bool)

  function ResolveBranch(pc: nat, off: i16, len: nat): Result<nat>
  {
    var target := pc + 1 + off;
    if target < 0 || target >= len then Err(BranchOutOfBounds(pc, target)) else Ok(target)
  }

  /** The block starts, in order, or the first branch that leaves the program. */
  method FindBbStarts(insns: seq<Insn>) returns (r: Result<seq<nat>>)
    requires |insns| > 0
    ensures r.Ok? <==> BranchesInRange(insns)
    ensures r.Ok? ==> r.value == Leaders(insns, false, |insns|)
    ensures r.Err? ==>
              && r.error.BranchOutOfBounds? && r.error.pc < |insns|
              && !BranchInRange(insns, r.error.pc)
              && r.error.target == Target(insns, r.error.pc)
              && forall q :: 0 <= q < r.error.pc ==> BranchInRange(insns, q)
  {
    var n := |insns|;
    var isStart := seq(n, _ => false);
    isStart := isStart[0 := true];
    for pc := 0 to n
      invariant |isStart| == n
      invariant forall q :: 0 <= q < pc ==> BranchInRange(insns, q)
      invariant forall i :: 0 <= i < n ==> isStart[i] == LeaderBy(insns, false, pc, i)
    {
      ghost var before := isStart;
      match insns[pc] {
        case Jump(off) =>
          var target := ResolveBranch(pc, off, n);
          if target.Err? {
            assert !BranchInRange(insns, pc);
            return Err(target.error);
          }
          isStart := isStart[target.value := true];
          if pc + 1 < n { isStart := isStart[pc + 1 := true]; }
        case JmpCond(_, _, _, off) =>
          var target := ResolveBranch(pc, off, n);
          if target.Err? {
            assert !BranchInRange(insns, pc);
            return Err(target.error);
          }
          isStart := isStart[target.value := true];
          if pc + 1 < n { isStart := isStart[pc + 1 := true]; }
        case JmpCond32(_, _, _, off) =>
          var target := ResolveBranch(pc, off, n);
          if target.Err? {
            assert !BranchInRange(insns, pc);
            return Err(target.error);
          }
          isStart := isStart[target.value := true];
          if pc + 1 < n { isStart := isStart[pc + 1 := true]; }
        case Exit =>
          if pc + 1 < n { isStart := isStart[pc + 1 := true]; }
        case _ =>
      }
      forall i | 0 <= i < n
        ensures isStart[i] == LeaderBy(insns, false, pc + 1, i)
      {
        LeaderStep(insns, false, pc, i);
        assert before[i] == LeaderBy(insns, false, pc, i);
      }
    }
    var starts: seq<nat> := [];
    for i := 0 to n
      invariant starts == Leaders(insns, false, i)
    {
      if isStart[i] {
        starts := starts + [i];
      }
    }
    return Ok(starts);
  }

  // ---------- the control-flow graph ----------

  /** The blocks partition the program, control leaves a block only at its end, and the
      successors of a block are exactly the blocks its last instruction has an edge to. */
  ghost predicate WellFormed(insns: seq<Insn>, cfg: seq<BasicBlock>) {
    && |cfg| > 0 && cfg[0].start == 0 && cfg[|cfg| - 1].end == |insns|
    && (forall b :: 0 <= b < |cfg| ==> cfg[b].start < cfg[b].end <= |insns|)
    && (forall b :: 0 <= b < |cfg| - 1 ==> cfg[b].end == cfg[b + 1].start)
    && (forall b, pc :: 0 <= b < |cfg| && cfg[b].start <= pc < cfg[b].end - 1 ==> !EndsBlock(insns[pc], false))
    && (forall b, s :: 0 <= b < |cfg| && s in cfg[b].successors ==> IsArc(insns, cfg, b, s))
    && (forall b, pc :: BlockEdge(insns, cfg, b, pc) ==> HasArcTo(cfg, b, pc))
  }

  /** The last instruction of block b has an edge to instruction pc. */
  predicate BlockEdge(insns: seq<Insn>, cfg: seq<BasicBlock>, b: nat, pc: nat) {
    b < |cfg| && cfg[b].end > 0 && Edge(insns, cfg[b].end - 1, pc)
  }

  predicate HasArcTo(cfg: seq<BasicBlock>, b: nat, pc: nat)
    requires b < |cfg|
  {
    exists s :: s in cfg[b].successors && s < |cfg| && cfg[s].start == pc
  }

  predicate IsArc(insns: seq<Insn>, cfg: seq<BasicBlock>, b: nat, s: nat)
    requires b < |cfg|
  {
    s < |cfg| && BlockEdge(insns, cfg, b, cfg[s].start)
  }

  /** Instruction index to block index. */
  method MapInsnsToBlocks(insns: seq<Insn>, starts: seq<nat>) returns (insnToBb: seq<nat>)
    requires |insns| > 0 && starts == Leaders(insns, false, |insns|)
    ensures |insnToBb| == |insns|
    ensures forall pc :: 0 <= pc < |insns| ==> insnToBb[pc] == BlockOf(insns, false, pc)
  {
    var n := |insns|;
    LeadersStartAtZero(insns, false, n);
    insnToBb := seq(n, _ => 0);
    for b := 0 to |starts|
      invariant |insnToBb| == n
      invariant forall pc :: 0 <= pc < (if b < |starts| then starts[b] else n) ==>
                insnToBb[pc] == BlockOf(insns, false, pc)
    {
      for i := starts[b] to BlockEnd(insns, false, b)
        invariant |insnToBb| == n
        invariant forall pc :: 0 <= pc < i ==> insnToBb[pc] == BlockOf(insns, false, pc)
      {
        BlockIs(insns, false, b, i);
        insnToBb := insnToBb[i := b];
      }
    }
  }

  /** Successor blocks of the block that ends before `end`, fall-through first. */
  function SuccessorPcs(insns: seq<Insn>, end: nat): seq<nat>
    requires 0 < end <= |insns| && BranchesInRange(insns)
  {
    var last := insns[end - 1];
    assert BranchInRange(insns, end - 1);
    (if FallsThrough(last) && end < |insns| then [end] else [])
    + (if IsBranch(last) then [Target(insns, end - 1)] else [])
  }

  lemma BlocksAsBuilt(insns: seq<Insn>, starts: seq<nat>, cfg: seq<BasicBlock>)
    requires |insns| > 0 && BranchesInRange(insns) && starts == Leaders(insns, false, |insns|)
    requires |cfg| == |starts| > 0 && forall b :: 0 <= b < |cfg| ==> IsBlock(insns, starts, b, cfg[b])
    ensures forall b :: 0 <= b < |cfg| ==> cfg[b].start == starts[b]
    ensures forall b :: 0 <= b < |cfg| ==> cfg[b].reachable == (b == 0)
    ensures Inits(cfg[0].regStateIn) == ENTRY_REGS
  {
    assert IsBlock(insns, starts, 0, cfg[0]);
    hide Leaders;
  }

  method BuildCfg(insns: seq<Insn>, starts: seq<nat>) returns (cfg: seq<BasicBlock>)
    requires |insns| > 0 && BranchesInRange(insns) && starts == Leaders(insns, false, |insns|)
    ensures WellFormed(insns, cfg)
    ensures |cfg| == |starts| && forall b :: 0 <= b < |cfg| ==> cfg[b].start == starts[b]
    ensures forall b :: 0 <= b < |cfg| ==> cfg[b].reachable == (b == 0)
    ensures Inits(cfg[0].regStateIn) == ENTRY_REGS
  {
    hide IsBlock, WellFormed, Leaders;
    var insnToBb := MapInsnsToBlocks(insns, starts);
    cfg := [];
    for b := 0 to |starts|
      invariant |cfg| == b
      invariant forall c :: 0 <= c < b ==> IsBlock(insns, starts, c, cfg[c])
    {
      var bb := BuildBlock(insns, starts, insnToBb, b);
      cfg := cfg + [bb];
    }
    BlocksTile(insns, starts, cfg);
    BlocksWellFormed(insns, starts, cfg);
    BlocksAsBuilt(insns, starts, cfg);
  }

  method BlockSuccessors(insns: seq<Insn>, insnToBb: seq<nat>, end: nat) returns (successors: seq<nat>)
    requires 0 < end <= |insns| && |insnToBb| == |insns| && BranchesInRange(insns)
    ensures |successors| == |SuccessorPcs(insns, end)|
    ensures forall j :: 0 <= j < |successors| ==>
              SuccessorPcs(insns, end)[j] < |insns| && successors[j] == insnToBb[SuccessorPcs(insns, end)[j]]
  {
    var n := |insns|;
    var lastPc := end - 1;
    assert BranchInRange(insns, lastPc);
    successors := [];
    match insns[lastPc] {
      case Jump(off) =>
        var target := ResolveBranch(lastPc, off, n);
        successors := successors + [insnToBb[target.value]];
      case JmpCond(_, _, _, off) =>
        if end < n {
          successors := successors + [insnToBb[end]];
        }
        var target := ResolveBranch(lastPc, off, n);
        successors := successors + [insnToBb[target.value]];
      case JmpCond32(_, _, _, off) =>
        if end < n {
          successors := successors + [insnToBb[end]];
        }
        var target := ResolveBranch(lastPc, off, n);
        successors := successors + [insnToBb[target.value]];
      case Exit =>
      case _ =>
        if end < n {
          successors := successors + [insnToBb[end]];
        }
    }
  }

  method BuildBlock(insns: seq<Insn>, starts: seq<nat>, insnToBb: seq<nat>, b: nat) returns (bb: BasicBlock)
    requires |insns| > 0 && BranchesInRange(insns) && starts == Leaders(insns, false, |insns|)
    requires |insnToBb| == |insns| && forall pc :: 0 <= pc < |insns| ==> insnToBb[pc] == BlockOf(insns, false, pc)
    requires b < |starts|
    ensures IsBlock(insns, starts, b, bb)
  {
    var end := BlockEnd(insns, false, b);
    var successors := BlockSuccessors(insns, insnToBb, end);
    var regs := if b == 0 then NewEntry() else NewUninit();
    bb := BasicBlock(starts[b], end, successors, regs, b == 0);
  }

  /** What the loop of BuildCfg stores for block b. */
  ghost predicate IsBlock(insns: seq<Insn>, starts: seq<nat>, b: nat, bb: BasicBlock)
    requires |insns| > 0 && BranchesInRange(insns) && starts == Leaders(insns, false, |insns|) && b < |starts|
  {
    && bb.start == starts[b] && bb.end == BlockEnd(insns, false, b)
    && bb.end > bb.start
    && |bb.successors| == |SuccessorPcs(insns, bb.end)|
    && (forall j :: 0 <= j < |bb.successors| ==>
          && SuccessorPcs(insns, bb.end)[j] < |insns|
          && bb.successors[j] == BlockOf(insns, false, SuccessorPcs(insns, bb.end)[j]))
    && bb.reachable == (b == 0)
    && bb.regStateIn == (if b == 0 then NewEntry() else NewUninit())
  }

  lemma SuccessorIsLeader(insns: seq<Insn>, starts: seq<nat>, b: nat, j: nat)
    requires |insns| > 0 && BranchesInRange(insns) && starts == Leaders(insns, false, |insns|) && b < |starts|
    requires j < |SuccessorPcs(insns, BlockEnd(insns, false, b))|
    ensures var end := BlockEnd(insns, false, b);
            var pc := SuccessorPcs(insns, end)[j];
            && pc < |insns| && Edge(insns, end - 1, pc)
            && BlockOf(insns, false, pc) < |starts| && starts[BlockOf(insns, false, pc)] == pc
  {
    var end := BlockEnd(insns, false, b);
    assert BranchInRange(insns, end - 1);
    var pc := SuccessorPcs(insns, end)[j];
    if pc == end && FallsThrough(insns[end - 1]) {
      LeadersExact(insns, false, |insns|, end);
      assert starts[b + 1] == end;
    } else {
      assert JumpsTo(insns, end - 1, pc);
    }
    BlockBounds(insns, false, pc);
  }

  lemma BlockInterior(insns: seq<Insn>, b: nat, pc: nat)
    requires b < |Leaders(insns, false, |insns|)|
    requires BlockStart(insns, false, b) <= pc < BlockEnd(insns, false, b) - 1
    ensures !EndsBlock(insns[pc], false)
  {
    NoLeaderBetween(insns, false, b, pc + 1);
  }

  lemma SuccessorStart(insns: seq<Insn>, starts: seq<nat>, b: nat, bb: BasicBlock, j: nat)
    requires |insns| > 0 && BranchesInRange(insns) && starts == Leaders(insns, false, |insns|) && b < |starts|
    requires IsBlock(insns, starts, b, bb) && j < |bb.successors|
    ensures bb.successors[j] < |starts| && bb.end > 0 && Edge(insns, bb.end - 1, starts[bb.successors[j]])
  {
    hide Leaders, BlockOf, BlockEnd, SuccessorPcs, BranchesInRange, Edge;
    SuccessorIsLeader(insns, starts, b, j);
  }

  lemma StartsAsBuilt(insns: seq<Insn>, starts: seq<nat>, b: nat, bb: BasicBlock)
    requires |insns| > 0 && BranchesInRange(insns) && starts == Leaders(insns, false, |insns|) && b < |starts|
    requires IsBlock(insns, starts, b, bb)
    ensures bb.start == starts[b]
  {}

  lemma BlockArc(insns: seq<Insn>, starts: seq<nat>, cfg: seq<BasicBlock>, b: nat, s: nat)
    requires |insns| > 0 && BranchesInRange(insns) && starts == Leaders(insns, false, |insns|)
    requires |cfg| == |starts| && forall c :: 0 <= c < |cfg| ==> IsBlock(insns, starts, c, cfg[c])
    requires b < |cfg| && s in cfg[b].successors
    ensures IsArc(insns, cfg, b, s)
  {
    hide IsBlock, Leaders, BranchesInRange, Edge;
    var j :| 0 <= j < |cfg[b].successors| && cfg[b].successors[j] == s;
    SuccessorStart(insns, starts, b, cfg[b], j);
    StartsAsBuilt(insns, starts, s, cfg[s]);
  }

  lemma EdgeHasArc(insns: seq<Insn>, starts: seq<nat>, cfg: seq<BasicBlock>, b: nat, pc: nat)
    requires |insns| > 0 && BranchesInRange(insns) && starts == Leaders(insns, false, |insns|)
    requires |cfg| == |starts| && forall c :: 0 <= c < |cfg| ==> IsBlock(insns, starts, c, cfg[c])
    requires BlockEdge(insns, cfg, b, pc)
    ensures HasArcTo(cfg, b, pc)
  {
    var pcs := SuccessorPcs(insns, cfg[b].end);
    assert pc in pcs;
    var j :| 0 <= j < |pcs| && pcs[j] == pc;
    SuccessorIsLeader(insns, starts, b, j);
    BlockBounds(insns, false, pc);
    assert cfg[b].successors[j] in cfg[b].successors;
    assert IsBlock(insns, starts, cfg[b].successors[j], cfg[cfg[b].successors[j]]);
  }

  lemma BlocksTile(insns: seq<Insn>, starts: seq<nat>, cfg: seq<BasicBlock>)
    requires |insns| > 0 && BranchesInRange(insns) && starts == Leaders(insns, false, |insns|)
    requires |cfg| == |starts| && forall c :: 0 <= c < |cfg| ==> IsBlock(insns, starts, c, cfg[c])
    ensures |cfg| > 0 && cfg[0].start == 0 && cfg[|cfg| - 1].end == |insns|
    ensures forall b :: 0 <= b < |cfg| ==> cfg[b].start < cfg[b].end <= |insns|
    ensures forall b :: 0 <= b < |cfg| - 1 ==> cfg[b].end == cfg[b + 1].start
  {
    hide Leaders;
    LeadersStartAtZero(insns, false, |insns|);
    assert IsBlock(insns, starts, 0, cfg[0]) && IsBlock(insns, starts, |cfg| - 1, cfg[|cfg| - 1]);
    forall b | 0 <= b < |cfg|
      ensures cfg[b].start < cfg[b].end <= |insns| && (b < |cfg| - 1 ==> cfg[b].end == cfg[b + 1].start)
    {
      assert IsBlock(insns, starts, b, cfg[b]);
      assert b < |cfg| - 1 ==> IsBlock(insns, starts, b + 1, cfg[b + 1]);
    }
  }

  lemma BlockFallsThrough(insns: seq<Insn>, starts: seq<nat>, cfg: seq<BasicBlock>, b: nat, pc: nat)
    requires |insns| > 0 && BranchesInRange(insns) && starts == Leaders(insns, false, |insns|) && |cfg| == |starts|
    requires b < |cfg| && IsBlock(insns, starts, b, cfg[b]) && cfg[b].start <= pc < cfg[b].end - 1
    ensures pc < |insns| && !EndsBlock(insns[pc], false)
  {
    hide Leaders, EndsBlock, BranchesInRange;
    BlockInterior(insns, b, pc);
  }

  lemma BlocksWellFormed(insns: seq<Insn>, starts: seq<nat>, cfg: seq<BasicBlock>)
    requires |insns| > 0 && BranchesInRange(insns) && starts == Leaders(insns, false, |insns|)
    requires |cfg| == |starts| && forall c :: 0 <= c < |cfg| ==> IsBlock(insns, starts, c, cfg[c])
    ensures WellFormed(insns, cfg)
  {
    hide Leaders, EndsBlock, BranchesInRange, IsBlock, IsArc, BlockEdge, HasArcTo;
    BlocksTile(insns, starts, cfg);
    forall b, pc | 0 <= b < |cfg| && cfg[b].start <= pc < cfg[b].end - 1
      ensures !EndsBlock(insns[pc], false)
    {
      BlockFallsThrough(insns, starts, cfg, b, pc);
    }
    forall b, s | 0 <= b < |cfg| && s in cfg[b].successors
      ensures IsArc(insns, cfg, b, s)
    {
      BlockArc(insns, starts, cfg, b, s);
    }
    forall b: nat, pc: nat | BlockEdge(insns, cfg, b, pc)
      ensures b < |cfg| && HasArcTo(cfg, b, pc)
    {
      EdgeInside(insns, cfg, b, pc);
      EdgeHasArc(insns, starts, cfg, b, pc);
    }
  }

  lemma EdgeInside(insns: seq<Insn>, cfg: seq<BasicBlock>, b: nat, pc: nat)
    requires BlockEdge(insns, cfg, b, pc)
    ensures b < |cfg|
  {
  }
}
