/** The fixed-point analysis of register initialisation over the control-flow graph. */
module Dataflow {
  import opened Isa
  import opened Flow
  import opened Cfg
  import opened Blocks

  /** Analysis passes allowed before the program is declared a possible infinite loop. */
  const MAX_BACK_EDGE_TRAVERSALS := 32

  // ---------- checking one instruction ----------

  function FirstUninit(rs: seq<BpfReg>, s: set<BpfReg>): seq<BpfReg> {
    if rs == [] then []
    else if rs[0] !in s then [rs[0]]
    else FirstUninit(rs[1..], s)
  }

  /** The verdict on one instruction: a write to R10 is reported before the first uninitialised
      read, and that before a bad stack offset. */
  function Verdict(i: Insn, pc: nat, s: set<BpfReg>): Result<set<BpfReg>> {
    if 10 in Writes(i) then Err(WriteToR10(pc))
    else if FirstUninit(Reads(i), s) != [] then Err(UninitializedRegRead(pc, FirstUninit(Reads(i), s)[0]))
    else if !FrameOk(i) then Err(StackOutOfBounds(pc, i.off))
    else Ok(Transfer(i, s))
  }

  lemma {:induction false} FirstUninitMeans(rs: seq<BpfReg>, s: set<BpfReg>)
    ensures FirstUninit(rs, s) == [] <==> forall r :: r in rs ==> r in s
    ensures FirstUninit(rs, s) != [] ==> FirstUninit(rs, s)[0] in rs && FirstUninit(rs, s)[0] !in s
  {
    if rs != [] && rs[0] in s {
      FirstUninitMeans(rs[1..], s);
      assert rs == [rs[0]] + rs[1..];
    }
  }

  lemma FirstUninitShort(rs: seq<BpfReg>, s: set<BpfReg>)
    requires |rs| <= 2
    ensures |rs| == 1 ==> FirstUninit(rs, s) == if rs[0] in s then [] else [rs[0]]
    ensures |rs| == 2 ==> FirstUninit(rs, s) == if rs[0] !in s then [rs[0]] else if rs[1] !in s then [rs[1]] else []
  {
    if |rs| == 2 {
      assert rs[1..] == [rs[1]];
      FirstUninitShort(rs[1..], s);
    }
  }

  function CheckWriteDst(pc: nat, dst: BpfReg): Result<()> {
    if dst == 10 then Err(WriteToR10(pc)) else Ok(())
  }

  function CheckRegRead(pc: nat, reg: BpfReg, state: RegFile): Result<()> {
    if state[reg] != Init then Err(UninitializedRegRead(pc, reg)) else Ok(())
  }

  function CheckSourceRead(pc: nat, src: Source, state: RegFile): Result<()> {
    match src
    case Imm(_) => Ok(())
    case Reg(r) => CheckRegRead(pc, r, state)
  }

  function CheckStackIfFp(pc: nat, base: BpfReg, off: i16): Result<()> {
    if base == 10 && (off >= 0 || off < -STACK_SIZE) then Err(StackOutOfBounds(pc, off)) else Ok(())
  }

  function Then(first: Result<()>, second: Result<()>): Result<()> {
    if first.Err? then first else second
  }

  function MarkInit(state: RegFile, r: BpfReg): (f: RegFile)
    ensures Inits(f) == Inits(state) + {r}
  {
    state[r := Init]
  }

  predicate Matches(r: Result<RegFile>, v: Result<set<BpfReg>>) {
    match v
    case Ok(s) => r.Ok? && Inits(r.value) == s
    case Err(e) => r == Err(e)
  }

  predicate AccessesStack(i: Insn) { i.Load? || i.StoreReg? || i.StoreImm? || i.Atomic? }

  /** The checks of instructions that access memory. */
  method CheckAccess(insn: Insn, pc: nat, state: RegFile) returns (r: Result<RegFile>)
    requires AccessesStack(insn)
    ensures Matches(r, Verdict(insn, pc, Inits(state)))
  {
    FirstUninitShort(Reads(insn), Inits(state));
    match insn {
      case Load(_, dst, base, off) =>
        var checked := Then(Then(CheckWriteDst(pc, dst), CheckRegRead(pc, base, state)), CheckStackIfFp(pc, base, off));
        if checked.Err? { return Err(checked.error); }
        r := Ok(MarkInit(state, dst));
      case StoreReg(_, dst, value, off) =>
        var checked := Then(Then(CheckRegRead(pc, dst, state), CheckRegRead(pc, value, state)),
            CheckStackIfFp(pc, dst, off));
        if checked.Err? { return Err(checked.error); }
        r := Ok(state);
      case StoreImm(_, dst, off, _) =>
        var checked := Then(CheckRegRead(pc, dst, state), CheckStackIfFp(pc, dst, off));
        if checked.Err? { return Err(checked.error); }
        r := Ok(state);
      case Atomic(_, _, dst, value, off) =>
        var checked := Then(Then(CheckRegRead(pc, dst, state), CheckRegRead(pc, value, state)),
            CheckStackIfFp(pc, dst, off));
        if checked.Err? { return Err(checked.error); }
        r := Ok(state);
    }
  }

  method CheckAndUpdateRegs(insns: seq<Insn>, pc: nat, state: RegFile) returns (r: Result<RegFile>)
    requires pc < |insns|
    ensures Matches(r, Verdict(insns[pc], pc, Inits(state)))
  {
    var insn := insns[pc];
    if AccessesStack(insn) {
      r := CheckAccess(insn, pc, state);
      return;
    }
    FirstUninitShort(Reads(insn), Inits(state));
    match insn {
      case Alu64(op, dst, src) =>
        var checked := Then(CheckWriteDst(pc, dst), CheckSourceRead(pc, src, state));
        if op != Mov {
          checked := Then(checked, CheckRegRead(pc, dst, state));
        }
        if checked.Err? { return Err(checked.error); }
        r := Ok(MarkInit(state, dst));
      case Alu32(op, dst, src) =>
        var checked := Then(CheckWriteDst(pc, dst), CheckSourceRead(pc, src, state));
        if op != Mov {
          checked := Then(checked, CheckRegRead(pc, dst, state));
        }
        if checked.Err? { return Err(checked.error); }
        r := Ok(MarkInit(state, dst));
      case LoadImm64(dst, _) =>
        var checked := CheckWriteDst(pc, dst);
        if checked.Err? { return Err(checked.error); }
        r := Ok(MarkInit(state, dst));
      case JmpCond(_, dst, src, _) =>
        var checked := Then(CheckRegRead(pc, dst, state), CheckSourceRead(pc, src, state));
        if checked.Err? { return Err(checked.error); }
        r := Ok(state);
      case JmpCond32(_, dst, src, _) =>
        var checked := Then(CheckRegRead(pc, dst, state), CheckSourceRead(pc, src, state));
        if checked.Err? { return Err(checked.error); }
        r := Ok(state);
      case Jump(_) =>
        r := Ok(state);
      case Call(_) =>
        var after := ClobberArguments(MarkInit(state, 0));
        r := Ok(after);
      case TailCall =>
        r := Ok(state);
      case Exit =>
        var checked := CheckRegRead(pc, 0, state);
        if checked.Err? { return Err(checked.error); }
        r := Ok(state);
      case Endian(_, _, dst) =>
        var checked := Then(CheckWriteDst(pc, dst), CheckRegRead(pc, dst, state));
        if checked.Err? { return Err(checked.error); }
        r := Ok(MarkInit(state, dst));
    }
  }

  method ClobberArguments(state: RegFile) returns (after: RegFile)
    ensures Inits(after) == Inits(state) - {1, 2, 3, 4, 5}
  {
    after := state;
    for i := 1 to 6
      invariant forall r: BpfReg :: after[r] == if 1 <= r < i then Uninit else state[r]
    {
      after := after[i := Uninit];
    }
  }

  // ---------- what the analysis knows ----------

  /** Same blocks; only the register states and reachability flags may differ. */
  predicate SameShape(bbs: seq<BasicBlock>, cfg: seq<BasicBlock>) {
    && |bbs| == |cfg|
    && forall b :: 0 <= b < |cfg| ==>
         && bbs[b].start == cfg[b].start && bbs[b].end == cfg[b].end
         && bbs[b].successors == cfg[b].successors
  }

  function Out(insns: seq<Insn>, bb: BasicBlock): set<BpfReg>
    requires bb.start <= bb.end <= |insns|
  {
    TransferRange(insns, bb.start, bb.end, Inits(bb.regStateIn))
  }

  /** p is a path to block b along which register r is not initialised. */
  predicate LacksAlong(insns: seq<Insn>, cfg: seq<BasicBlock>, p: seq<nat>, b: nat, r: BpfReg)
    requires WellFormed(insns, cfg)
  {
    IsBlockPath(cfg, p) && Last(p) == b && r !in BlockInits(insns, cfg, p)
  }

  predicate BlockPathTo(cfg: seq<BasicBlock>, p: seq<nat>, b: nat) {
    IsBlockPath(cfg, p) && Last(p) == b
  }

  /** In pass `pass`, with blocks below i already visited, the last step of p has been propagated. */
  predicate Due(p: seq<nat>, pass: nat, i: nat)
    requires |p| > 0
  {
    |p| == 1 || Arrival(p) < pass || (Arrival(p) == pass && p[|p| - 2] < i)
  }

  predicate DuePath(cfg: seq<BasicBlock>, p: seq<nat>, b: nat, pass: nat, i: nat) {
    BlockPathTo(cfg, p, b) && Due(p, pass, i)
  }

  predicate DueLack(insns: seq<Insn>, cfg: seq<BasicBlock>, p: seq<nat>, b: nat, r: BpfReg, pass: nat, i: nat)
    requires WellFormed(insns, cfg)
  {
    LacksAlong(insns, cfg, p, b, r) && Due(p, pass, i)
  }

  ghost predicate SomeDuePath(cfg: seq<BasicBlock>, b: nat, pass: nat, i: nat) {
    exists p :: DuePath(cfg, p, b, pass, i)
  }

  ghost predicate SomeDueLack(insns: seq<Insn>, cfg: seq<BasicBlock>, b: nat, r: BpfReg, pass: nat, i: nat)
    requires WellFormed(insns, cfg)
  {
    exists p :: DueLack(insns, cfg, p, b, r, pass, i)
  }

  /** Every claim is backed by a path that is due: a block marked reachable is reached by one, and a
      register missing from its in-state is missing along one. In-states lie above the meet over all
      paths that are due. */
  ghost predicate Dated(insns: seq<Insn>, cfg: seq<BasicBlock>, bbs: seq<BasicBlock>, pass: nat, i: nat)
    requires WellFormed(insns, cfg) && SameShape(bbs, cfg)
  {
    && (forall b :: 0 <= b < |bbs| && bbs[b].reachable ==> SomeDuePath(cfg, b, pass, i))
    && (forall b, r: BpfReg :: 0 <= b < |bbs| && bbs[b].reachable && r !in Inits(bbs[b].regStateIn) ==>
          SomeDueLack(insns, cfg, b, r, pass, i))
  }

  /** The same without the date. */
  ghost predicate Witnessed(insns: seq<Insn>, cfg: seq<BasicBlock>, bbs: seq<BasicBlock>)
    requires WellFormed(insns, cfg) && SameShape(bbs, cfg)
  {
    && (forall b :: 0 <= b < |bbs| && bbs[b].reachable ==> exists p :: BlockPathTo(cfg, p, b))
    && (forall b, r: BpfReg :: 0 <= b < |bbs| && bbs[b].reachable && r !in Inits(bbs[b].regStateIn) ==>
          exists p :: LacksAlong(insns, cfg, p, b, r))
  }

  lemma DatedWitnessed(insns: seq<Insn>, cfg: seq<BasicBlock>, bbs: seq<BasicBlock>, pass: nat, i: nat)
    requires WellFormed(insns, cfg) && SameShape(bbs, cfg) && Dated(insns, cfg, bbs, pass, i)
    ensures Witnessed(insns, cfg, bbs)
  {
    hide WellFormed, LacksAlong, BlockPathTo, Due;
    forall b | 0 <= b < |bbs| && bbs[b].reachable
      ensures exists p :: BlockPathTo(cfg, p, b)
    {
      var p :| DuePath(cfg, p, b, pass, i);
    }
    forall b, r: BpfReg | 0 <= b < |bbs| && bbs[b].reachable && r !in Inits(bbs[b].regStateIn)
      ensures exists p :: LacksAlong(insns, cfg, p, b, r)
    {
      var p :| DueLack(insns, cfg, p, b, r, pass, i);
    }
  }

  /** Time passes. */
  lemma DatedLater(insns: seq<Insn>, cfg: seq<BasicBlock>, bbs: seq<BasicBlock>, pass: nat, i: nat, pass': nat, i': nat)
    requires WellFormed(insns, cfg) && SameShape(bbs, cfg) && Dated(insns, cfg, bbs, pass, i)
    requires pass < pass' || (pass == pass' && i <= i')
    ensures Dated(insns, cfg, bbs, pass', i')
  {
    hide WellFormed, LacksAlong, BlockPathTo, Arrival, Inits;
    forall b | 0 <= b < |bbs| && bbs[b].reachable
      ensures SomeDuePath(cfg, b, pass', i')
    {
      var p :| DuePath(cfg, p, b, pass, i);
      assert DuePath(cfg, p, b, pass', i');
    }
    forall b, r: BpfReg | 0 <= b < |bbs| && bbs[b].reachable && r !in Inits(bbs[b].regStateIn)
      ensures SomeDueLack(insns, cfg, b, r, pass', i')
    {
      var p :| DueLack(insns, cfg, p, b, r, pass, i);
      assert DueLack(insns, cfg, p, b, r, pass', i');
    }
  }

  /** Path p has been accounted for at its last block. */
  predicate Covers(insns: seq<Insn>, cfg: seq<BasicBlock>, bbs: seq<BasicBlock>, p: seq<nat>)
    requires WellFormed(insns, cfg) && SameShape(bbs, cfg) && IsBlockPath(cfg, p)
  {
    bbs[Last(p)].reachable && Inits(bbs[Last(p)].regStateIn) <= BlockInits(insns, cfg, p)
  }

  predicate ReachedBy(cfg: seq<BasicBlock>, b: nat, n: nat, q: seq<nat>) {
    BlockPathTo(cfg, q, b) && Arrival(q) <= n
  }

  predicate LacksBy(insns: seq<Insn>, cfg: seq<BasicBlock>, b: nat, r: BpfReg, n: nat, q: seq<nat>)
    requires WellFormed(insns, cfg)
  {
    LacksAlong(insns, cfg, q, b, r) && Arrival(q) <= n
  }

  ghost predicate Reached(cfg: seq<BasicBlock>, b: nat, n: nat) { exists q :: ReachedBy(cfg, b, n, q) }

  ghost predicate Lacked(insns: seq<Insn>, cfg: seq<BasicBlock>, b: nat, r: BpfReg, n: nat)
    requires WellFormed(insns, cfg)
  {
    exists q :: LacksBy(insns, cfg, b, r, n, q)
  }

  /** What path p says — that it reaches its last block, and what it leaves uninitialised — is said by
      one that arrives within n passes. */
  ghost predicate KnownPath(insns: seq<Insn>, cfg: seq<BasicBlock>, n: nat, p: seq<nat>)
    requires WellFormed(insns, cfg) && IsBlockPath(cfg, p)
  {
    Reached(cfg, Last(p), n) && forall r: BpfReg :: r !in BlockInits(insns, cfg, p) ==>
        Lacked(insns, cfg, Last(p), r, n)
  }

  ghost predicate Known(insns: seq<Insn>, cfg: seq<BasicBlock>, n: nat)
    requires WellFormed(insns, cfg)
  {
    forall p :: IsBlockPath(cfg, p) ==> KnownPath(insns, cfg, n, p)
  }

  ghost predicate Covered(insns: seq<Insn>, cfg: seq<BasicBlock>, bbs: seq<BasicBlock>, pass: nat, i: nat)
    requires WellFormed(insns, cfg) && SameShape(bbs, cfg)
  {
    forall p :: IsBlockPath(cfg, p) && Due(p, pass, i) ==> Covers(insns, cfg, bbs, p)
  }

  /** Every check in block b passes when it is entered in state s. */
  ghost predicate BlockOk(insns: seq<Insn>, bb: BasicBlock)
    requires bb.start <= bb.end <= |insns|
  {
    forall pc :: bb.start <= pc < bb.end ==>
      InsnOk(insns[pc], TransferRange(insns, bb.start, pc, Inits(bb.regStateIn)))
  }

  /** Block b, if reachable, is checked and has been merged into all its successors. */
  ghost predicate Settled(insns: seq<Insn>, cfg: seq<BasicBlock>, bbs: seq<BasicBlock>, b: nat)
    requires WellFormed(insns, cfg) && SameShape(bbs, cfg) && b < |bbs|
  {
    bbs[b].reachable ==>
      && BlockOk(insns, bbs[b])
      && forall s :: s in bbs[b].successors ==> MergedInto(insns, cfg, bbs, b, s)
  }

  predicate MergedInto(insns: seq<Insn>, cfg: seq<BasicBlock>, bbs: seq<BasicBlock>, b: nat, s: nat)
    requires WellFormed(insns, cfg) && SameShape(bbs, cfg) && b < |bbs|
  {
    s < |bbs| && bbs[s].reachable && Inits(bbs[s].regStateIn) <= Out(insns, bbs[b])
  }

  // ---------- facts about one visit ----------

  /** States only lose registers, and blocks only become reachable. */
  ghost predicate Descends(bbs: seq<BasicBlock>, bbs': seq<BasicBlock>) {
    && |bbs| == |bbs'|
    && forall b :: 0 <= b < |bbs| && bbs[b].reachable ==>
         bbs'[b].reachable && Inits(bbs'[b].regStateIn) <= Inits(bbs[b].regStateIn)
  }

  lemma CoveredDescends(insns: seq<Insn>, cfg: seq<BasicBlock>, bbs: seq<BasicBlock>, bbs': seq<BasicBlock>, pass: nat,
          i: nat)
    requires WellFormed(insns, cfg) && SameShape(bbs, cfg) && SameShape(bbs', cfg)
    requires Covered(insns, cfg, bbs, pass, i) && Descends(bbs, bbs')
    ensures Covered(insns, cfg, bbs', pass, i)
  {
    hide WellFormed, Due, Inits, BlockInits;
    forall p | IsBlockPath(cfg, p) && Due(p, pass, i)
      ensures Covers(insns, cfg, bbs', p)
    {
      assert Covers(insns, cfg, bbs, p);
    }
  }

  /** When block i is visited, every path to it with fewer retreats than passes is covered. */
  lemma VisitCovered(insns: seq<Insn>, cfg: seq<BasicBlock>, bbs: seq<BasicBlock>, pass: nat, i: nat, p: seq<nat>)
    requires WellFormed(insns, cfg) && SameShape(bbs, cfg) && Covered(insns, cfg, bbs, pass, i)
    requires IsBlockPath(cfg, p) && Last(p) == i && Retreats(p) + 1 <= pass
    ensures Covers(insns, cfg, bbs, p)
  {
    assert Due(p, pass, i);
  }

  /** A register missing on leaving block b at hi is missing along some path. */
  lemma OutWitness(insns: seq<Insn>, cfg: seq<BasicBlock>, bbs: seq<BasicBlock>, pass: nat, i: nat, b: nat, hi: nat,
          r: BpfReg) returns (p: seq<nat>)
    requires WellFormed(insns, cfg) && SameShape(bbs, cfg) && Dated(insns, cfg, bbs, pass, i)
    requires b < |bbs| && bbs[b].reachable && cfg[b].start <= hi <= cfg[b].end
    requires r !in TransferRange(insns, cfg[b].start, hi, Inits(bbs[b].regStateIn))
    ensures DuePath(cfg, p, b, pass, i)
    ensures r !in TransferRange(insns, cfg[b].start, hi, BlockInits(insns, cfg, p))
  {
    hide Due;
    var s := Inits(bbs[b].regStateIn);
    if r !in s {
      p :| DueLack(insns, cfg, p, b, r, pass, i);
      TransferPointwise(insns, cfg[b].start, hi, s, BlockInits(insns, cfg, p), r);
    } else {
      p :| DuePath(cfg, p, b, pass, i);
      var t := BlockInits(insns, cfg, p);
      TransferPointwise(insns, cfg[b].start, hi, s, s + t, r);
      TransferMonotone(insns, cfg[b].start, hi, t, s + t);
    }
  }

  /** A path that is due at block i when i is visited is due at its successors afterwards. */
  lemma StepDue(p: seq<nat>, s: nat, pass: nat)
    requires |p| > 0 && pass > 0 && Due(p, pass, Last(p))
    ensures Due(p + [s], pass, Last(p) + 1)
  {
    assert (p + [s])[..|p|] == p;
  }

  lemma PathOut(insns: seq<Insn>, cfg: seq<BasicBlock>, bbs: seq<BasicBlock>, b: nat, s: nat, p: seq<nat>)
    requires WellFormed(insns, cfg) && SameShape(bbs, cfg) && b < |bbs| && s in bbs[b].successors
    requires BlockPathTo(cfg, p, b)
    ensures BlockPathTo(cfg, p + [s], s)
    ensures BlockInits(insns, cfg, p + [s]) == TransferRange(insns, bbs[b].start, bbs[b].end, BlockInits(insns, cfg, p))
  {
    ExtendBlockPath(insns, cfg, p, s);
  }

  /** A path that is due now because block i has just been propagated to its successor s. */
  /** What block b passes on covers one more step of a path that it covers. */
  lemma FlowsInto(insns: seq<Insn>, cfg: seq<BasicBlock>, bbs: seq<BasicBlock>, bbs': seq<BasicBlock>, b: nat, s: nat,
          q: seq<nat>)
    requires WellFormed(insns, cfg) && SameShape(bbs, cfg) && SameShape(bbs', cfg) && BlockPathTo(cfg, q, b)
    requires Covers(insns, cfg, bbs, q) && b < |bbs| && s in bbs[b].successors
    requires bbs[b].start <= bbs[b].end <= |insns| && PropagatedTo(insns, bbs[b], bbs', s)
    ensures IsBlockPath(cfg, q + [s]) && Covers(insns, cfg, bbs', q + [s])
  {
    hide WellFormed, SameShape, Inits, TransferRange, BlockInits;
    PathOut(insns, cfg, bbs, b, s, q);
    TransferMonotone(insns, bbs[b].start, bbs[b].end, Inits(bbs[b].regStateIn), BlockInits(insns, cfg, q));
  }

  lemma LastStep(insns: seq<Insn>, cfg: seq<BasicBlock>, bbs: seq<BasicBlock>, p: seq<nat>)
    requires WellFormed(insns, cfg) && SameShape(bbs, cfg) && IsBlockPath(cfg, p) && |p| >= 2
    ensures var q, b, s := p[..|p| - 1], p[|p| - 2], Last(p);
            && BlockPathTo(cfg, q, b) && p == q + [s] && b < |bbs| && s in bbs[b].successors
            && bbs[b].start <= bbs[b].end <= |insns|
  {
    PrefixBlockPath(cfg, p, |p| - 1);
    StepIsArc(cfg, p, |p| - 2);
  }

  lemma NewlyCovered(insns: seq<Insn>, cfg: seq<BasicBlock>, bbs: seq<BasicBlock>, bbs': seq<BasicBlock>, pass: nat,
          i: nat, p: seq<nat>)
    requires WellFormed(insns, cfg) && SameShape(bbs, cfg) && SameShape(bbs', cfg) && i < |bbs|
    requires Covered(insns, cfg, bbs, pass, i) && Descends(bbs, bbs')
    requires bbs[i].reachable ==> EachPropagated(insns, bbs[i], bbs', bbs[i].successors)
    requires IsBlockPath(cfg, p) && |p| >= 2 && p[|p| - 2] == i && Retreats(p[..|p| - 1]) + 1 == pass
    ensures Covers(insns, cfg, bbs', p)
  {
    hide WellFormed, SameShape, Covered, Descends, Inits, BlockInits, Retreats, PropagatedTo;
    LastStep(insns, cfg, bbs, p);
    VisitCovered(insns, cfg, bbs, pass, i, p[..|p| - 1]);
    FlowsInto(insns, cfg, bbs, bbs', i, Last(p), p[..|p| - 1]);
  }

  /** Successor s has absorbed what holds on leaving block bb. */
  predicate PropagatedTo(insns: seq<Insn>, bb: BasicBlock, bbs: seq<BasicBlock>, s: nat)
    requires bb.start <= bb.end <= |insns|
  {
    s < |bbs| && bbs[s].reachable && Inits(bbs[s].regStateIn) <= Out(insns, bb)
  }

  lemma CoveredAfterVisit(insns: seq<Insn>, cfg: seq<BasicBlock>, bbs: seq<BasicBlock>, bbs': seq<BasicBlock>,
          pass: nat, i: nat)
    requires WellFormed(insns, cfg) && SameShape(bbs, cfg) && SameShape(bbs', cfg) && i < |bbs|
    requires Covered(insns, cfg, bbs, pass, i) && Descends(bbs, bbs')
    requires bbs[i].reachable ==> EachPropagated(insns, bbs[i], bbs', bbs[i].successors)
    ensures Covered(insns, cfg, bbs', pass, i + 1)
  {
    CoveredDescends(insns, cfg, bbs, bbs', pass, i);
    forall p | IsBlockPath(cfg, p) && Due(p, pass, i + 1)
      ensures Covers(insns, cfg, bbs', p)
    {
      if Due(p, pass, i) {
      } else {
        NewlyCovered(insns, cfg, bbs, bbs', pass, i, p);
      }
    }
  }

  lemma CoveredNextPass(insns: seq<Insn>, cfg: seq<BasicBlock>, bbs: seq<BasicBlock>, pass: nat)
    requires WellFormed(insns, cfg) && SameShape(bbs, cfg) && Covered(insns, cfg, bbs, pass, |bbs|)
    ensures Covered(insns, cfg, bbs, pass + 1, 0)
  {
    forall p | IsBlockPath(cfg, p) && Due(p, pass + 1, 0)
      ensures Covers(insns, cfg, bbs, p)
    {
      assert Due(p, pass, |bbs|);
    }
  }

  /** The step that bounds the passes: visiting a reachable block changes nothing any more once
      everything was known one pass ago. */
  lemma LateVisitIsQuiet(insns: seq<Insn>, cfg: seq<BasicBlock>, bbs: seq<BasicBlock>, pass: nat, i: nat, s: nat)
    requires WellFormed(insns, cfg) && SameShape(bbs, cfg) && Dated(insns, cfg, bbs, pass, i)
    requires Covered(insns, cfg, bbs, pass, i) && i < |bbs| && bbs[i].reachable && s in bbs[i].successors
    requires pass > 0 && Known(insns, cfg, pass - 1)
    ensures s < |bbs| && bbs[s].reachable && Inits(bbs[s].regStateIn) <= Out(insns, bbs[i])
  {
    SuccessorInRange(insns, cfg, bbs, i, s);
    BlockInRange(insns, cfg, bbs, i);
    hide *;
    LateReached(insns, cfg, bbs, pass, i, s);
    forall r: BpfReg | r !in Out(insns, bbs[i])
      ensures r !in Inits(bbs[s].regStateIn)
    {
      LateMissing(insns, cfg, bbs, pass, i, s, r);
    }
  }

  lemma BlockInRange(insns: seq<Insn>, cfg: seq<BasicBlock>, bbs: seq<BasicBlock>, i: nat)
    requires WellFormed(insns, cfg) && SameShape(bbs, cfg) && i < |bbs|
    ensures bbs[i].start <= bbs[i].end <= |insns|
  {}

  /** A path that is known in time has been absorbed. */
  lemma AbsorbedInTime(insns: seq<Insn>, cfg: seq<BasicBlock>, bbs: seq<BasicBlock>, pass: nat, i: nat, q: seq<nat>,
          b: nat)
    requires WellFormed(insns, cfg) && SameShape(bbs, cfg) && Covered(insns, cfg, bbs, pass, i)
    requires pass > 0 && ReachedBy(cfg, b, pass - 1, q)
    ensures Covers(insns, cfg, bbs, q) && Last(q) == b
  {
    hide WellFormed, Covers, Arrival;
    assert Due(q, pass, i);
  }

  lemma LateReached(insns: seq<Insn>, cfg: seq<BasicBlock>, bbs: seq<BasicBlock>, pass: nat, i: nat, s: nat)
    requires WellFormed(insns, cfg) && SameShape(bbs, cfg) && Dated(insns, cfg, bbs, pass, i)
    requires Covered(insns, cfg, bbs, pass, i) && i < |bbs| && bbs[i].reachable && s in bbs[i].successors
    requires pass > 0 && Known(insns, cfg, pass - 1) && s < |bbs|
    ensures bbs[s].reachable
  {
    hide WellFormed, SameShape, Covered, BlockPathTo, Due, Arrival;
    var p :| DuePath(cfg, p, i, pass, i);
    PathOut(insns, cfg, bbs, i, s, p);
    ReachesLast(cfg, p + [s], s);
    assert KnownPath(insns, cfg, pass - 1, p + [s]);
    var q :| ReachedBy(cfg, s, pass - 1, q);
    AbsorbedInTime(insns, cfg, bbs, pass, i, q, s);
  }

  lemma ReachesLast(cfg: seq<BasicBlock>, p: seq<nat>, b: nat)
    requires BlockPathTo(cfg, p, b)
    ensures IsBlockPath(cfg, p) && Last(p) == b
  {}

  lemma LateOut(insns: seq<Insn>, cfg: seq<BasicBlock>, bbs: seq<BasicBlock>, pass: nat, i: nat, r: BpfReg)
    returns (p: seq<nat>)
    requires WellFormed(insns, cfg) && SameShape(bbs, cfg) && Dated(insns, cfg, bbs, pass, i)
    requires i < |bbs| && bbs[i].reachable && bbs[i].start <= bbs[i].end <= |insns| && r !in Out(insns, bbs[i])
    ensures BlockPathTo(cfg, p, i) && Due(p, pass, i)
    ensures r !in TransferRange(insns, bbs[i].start, bbs[i].end, BlockInits(insns, cfg, p))
  {
    hide Dated, Due, Inits, TransferRange, BlockInits, IsBlockPath;
    p := OutWitness(insns, cfg, bbs, pass, i, i, cfg[i].end, r);
  }

  lemma LateMissing(insns: seq<Insn>, cfg: seq<BasicBlock>, bbs: seq<BasicBlock>, pass: nat, i: nat, s: nat, r: BpfReg)
    requires WellFormed(insns, cfg) && SameShape(bbs, cfg) && Dated(insns, cfg, bbs, pass, i)
    requires Covered(insns, cfg, bbs, pass, i) && i < |bbs| && bbs[i].reachable && s in bbs[i].successors
    requires pass > 0 && Known(insns, cfg, pass - 1) && s < |bbs| && bbs[i].start <= bbs[i].end <= |insns|
    requires r !in Out(insns, bbs[i])
    ensures r !in Inits(bbs[s].regStateIn)
  {
    hide WellFormed, SameShape, Dated, Covered, Due, Arrival, BlockInits, IsBlockPath, Inits, Out, TransferRange;
    var p := LateOut(insns, cfg, bbs, pass, i, r);
    PathOut(insns, cfg, bbs, i, s, p);
    assert KnownPath(insns, cfg, pass - 1, p + [s]);
    assert Lacked(insns, cfg, s, r, pass - 1);
    var q :| LacksBy(insns, cfg, s, r, pass - 1, q);
    AbsorbedInTime(insns, cfg, bbs, pass, i, q, s);
  }

  // ---------- the analysis ----------

  lemma VerdictMeans(i: Insn, pc: nat, s: set<BpfReg>)
    ensures Verdict(i, pc, s).Ok? <==> InsnOk(i, s)
    ensures InsnOk(i, s) ==> Verdict(i, pc, s) == Ok(Transfer(i, s))
  {
    FirstUninitMeans(Reads(i), s);
  }

  /** Runs the checks of one block from its in-state. */
  method SimulateBlock(insns: seq<Insn>, bb: BasicBlock) returns (r: Result<RegFile>)
    requires bb.start <= bb.end <= |insns|
    ensures r.Ok? ==> Inits(r.value) == Out(insns, bb) && BlockOk(insns, bb)
    ensures r.Err? ==> exists pc: nat :: FailsAt(insns, bb, pc, r.error)
  {
    var state := bb.regStateIn;
    hide Verdict, InsnOk, Inits, Transfer;
    for pc := bb.start to bb.end
      invariant Inits(state) == TransferRange(insns, bb.start, pc, Inits(bb.regStateIn))
      invariant forall q :: bb.start <= q < pc ==>
                InsnOk(insns[q], TransferRange(insns, bb.start, q, Inits(bb.regStateIn)))
    {
      VerdictMeans(insns[pc], pc, Inits(state));
      var checked := CheckAndUpdateRegs(insns, pc, state);
      if checked.Err? {
        assert FailsAt(insns, bb, pc, checked.error);
        return Err(checked.error);
      }
      state := checked.value;
    }
    r := Ok(state);
  }

  predicate FailsAt(insns: seq<Insn>, bb: BasicBlock, pc: nat, e: VerifyError)
    requires bb.start <= bb.end <= |insns|
  {
    && bb.start <= pc < bb.end
    && Verdict(insns[pc], pc, TransferRange(insns, bb.start, pc, Inits(bb.regStateIn))) == Err(e)
  }

  /** Merges an out-state into one successor. */
  method Propagate(bbs: seq<BasicBlock>, s: nat, state: RegFile) returns (bbs': seq<BasicBlock>, changed: bool)
    requires s < |bbs|
    ensures Absorbed(bbs, bbs', s, Inits(state))
    ensures !changed <==> bbs[s].reachable && Inits(bbs[s].regStateIn) <= Inits(state)
    ensures !changed ==> bbs' == bbs
  {
    var succ := bbs[s];
    if !succ.reachable {
      bbs' := bbs[s := succ.(reachable := true, regStateIn := state)];
      changed := true;
    } else {
      var merged := Merge(succ.regStateIn, state);
      if merged != succ.regStateIn {
        if Inits(merged) == Inits(succ.regStateIn) {
          SameInits(merged, succ.regStateIn);
        }
        bbs' := bbs[s := succ.(regStateIn := merged)];
        changed := true;
      } else {
        bbs' := bbs;
        changed := false;
      }
    }
  }

  /** Block s of bbs' takes over what is missing in bbs or on leaving block i of was, nothing else. */
  lemma DatedMerge(insns: seq<Insn>, cfg: seq<BasicBlock>, was: seq<BasicBlock>, bbs: seq<BasicBlock>,
          bbs': seq<BasicBlock>, pass: nat, i: nat, s: nat)
    requires WellFormed(insns, cfg) && SameShape(was, cfg) && SameShape(bbs, cfg) && SameShape(bbs', cfg)
    requires Dated(insns, cfg, was, pass, i) && Dated(insns, cfg, bbs, pass, i + 1) && pass > 0
    requires i < |cfg| && was[i].reachable && s in cfg[i].successors && s < |cfg|
    requires bbs' == bbs[s := bbs'[s]]
    requires forall r: BpfReg :: r !in Inits(bbs'[s].regStateIn) ==>
               (bbs[s].reachable && r !in Inits(bbs[s].regStateIn)) || r !in Out(insns, was[i])
    ensures Dated(insns, cfg, bbs', pass, i + 1)
  {
    hide WellFormed, SomeDueLack, SomeDuePath, Out, Inits;
    ReachedAfterMerge(insns, cfg, was, pass, i, s);
    forall b, r: BpfReg | 0 <= b < |bbs'| && bbs'[b].reachable && r !in Inits(bbs'[b].regStateIn)
      ensures SomeDueLack(insns, cfg, b, r, pass, i + 1)
    {
      if b == s && !(bbs[s].reachable && r !in Inits(bbs[s].regStateIn)) {
        MissingAfterMerge(insns, cfg, was, pass, i, s, r);
      }
    }
  }

  lemma ReachedAfterMerge(insns: seq<Insn>, cfg: seq<BasicBlock>, bbs: seq<BasicBlock>, pass: nat, i: nat, s: nat)
    requires WellFormed(insns, cfg) && SameShape(bbs, cfg) && Dated(insns, cfg, bbs, pass, i) && pass > 0
    requires i < |cfg| && bbs[i].reachable && s in cfg[i].successors
    ensures SomeDuePath(cfg, s, pass, i + 1)
  {
    var p :| DuePath(cfg, p, i, pass, i);
    PathOut(insns, cfg, bbs, i, s, p);
    StepDue(p, s, pass);
    assert DuePath(cfg, p + [s], s, pass, i + 1);
  }

  lemma MissingAfterMerge(insns: seq<Insn>, cfg: seq<BasicBlock>, bbs: seq<BasicBlock>, pass: nat, i: nat, s: nat,
          r: BpfReg)
    requires WellFormed(insns, cfg) && SameShape(bbs, cfg) && Dated(insns, cfg, bbs, pass, i) && pass > 0
    requires i < |cfg| && bbs[i].reachable && s in cfg[i].successors && r !in Out(insns, bbs[i])
    ensures SomeDueLack(insns, cfg, s, r, pass, i + 1)
  {
    var p := OutWitness(insns, cfg, bbs, pass, i, i, cfg[i].end, r);
    PathOut(insns, cfg, bbs, i, s, p);
    StepDue(p, s, pass);
    assert DueLack(insns, cfg, p + [s], s, r, pass, i + 1);
  }

  /** What Propagate leaves in the blocks. */
  predicate Absorbed(before: seq<BasicBlock>, after: seq<BasicBlock>, s: nat, state: set<BpfReg>)
    requires s < |before|
  {
    && |after| == |before| && after == before[s := before[s].(regStateIn := after[s].regStateIn, reachable := true)]
    && Inits(after[s].regStateIn) == if before[s].reachable then Inits(before[s].regStateIn) * state else state
  }

  lemma AfterPropagate(insns: seq<Insn>, cfg: seq<BasicBlock>, bbs: seq<BasicBlock>, before: seq<BasicBlock>,
          after: seq<BasicBlock>, i: nat, s: nat)
    requires WellFormed(insns, cfg) && SameShape(bbs, cfg) && SameShape(before, cfg) && Descends(bbs, before)
    requires i < |bbs| && s < |before| && Absorbed(before, after, s, Out(insns, bbs[i]))
    ensures SameShape(after, cfg) && Descends(bbs, after) && PropagatedTo(insns, bbs[i], after, s)
    ensures forall t :: PropagatedTo(insns, bbs[i], before, t) ==> PropagatedTo(insns, bbs[i], after, t)
  {
    hide WellFormed, Out, Inits;
  }

  /** Midway through the visit of a block of bbs: cur has absorbed some of its out-state. */
  ghost predicate Visiting(insns: seq<Insn>, cfg: seq<BasicBlock>, bbs: seq<BasicBlock>, cur: seq<BasicBlock>,
          pass: nat, i: nat)
    requires WellFormed(insns, cfg) && SameShape(bbs, cfg)
  {
    SameShape(cur, cfg) && Dated(insns, cfg, cur, pass, i + 1) && Descends(bbs, cur)
  }

  /** One successor of one block's visit. A change means that not everything was known a pass ago. */
  method PropagateOne(insns: seq<Insn>, ghost cfg: seq<BasicBlock>, ghost bbs: seq<BasicBlock>, cur: seq<BasicBlock>,
                      ghost pass: nat, ghost i: nat, s: nat, state: RegFile, ghost done: seq<nat>)
    returns (next: seq<BasicBlock>, changed: bool)
    requires WellFormed(insns, cfg) && SameShape(bbs, cfg) && i < |bbs| && s in bbs[i].successors && pass > 0
    requires Dated(insns, cfg, bbs, pass, i) && Covered(insns, cfg, bbs, pass, i) && bbs[i].reachable
    requires Inits(state) == Out(insns, bbs[i]) && Visiting(insns, cfg, bbs, cur, pass, i)
    requires EachPropagated(insns, bbs[i], cur, done)
    ensures Visiting(insns, cfg, bbs, next, pass, i) && EachPropagated(insns, bbs[i], next, done + [s])
    ensures !changed ==> next == cur
    ensures changed ==> !Known(insns, cfg, pass - 1)
  {
    hide WellFormed, Dated, Covered, Inits, Out, Absorbed, Descends, Known, SameShape, EachPropagated, PropagatedTo;
    SuccessorInRange(insns, cfg, bbs, i, s);
    BlockInRange(insns, cfg, bbs, i);
    EndVisiting(insns, cfg, bbs, cur, pass, i);
    SameSize(bbs, cur, cfg);
    next, changed := Propagate(cur, s, state);
    if changed {
      QuietOnceKnown(insns, cfg, bbs, cur, pass, i, s);
    }
    AfterPropagate(insns, cfg, bbs, cur, next, i, s);
    OneMorePropagated(insns, bbs[i], cur, next, done, s);
    AbsorbedDated(insns, cfg, bbs, cur, next, pass, i, s);
  }

  /** One block's visit: propagate its out-state to every successor. */
  method PropagateAll(insns: seq<Insn>, ghost cfg: seq<BasicBlock>, bbs: seq<BasicBlock>, ghost pass: nat, i: nat,
          state: RegFile)
    returns (bbs': seq<BasicBlock>, changed: bool)
    requires WellFormed(insns, cfg) && SameShape(bbs, cfg) && i < |bbs| && pass > 0
    requires Dated(insns, cfg, bbs, pass, i) && Covered(insns, cfg, bbs, pass, i) && bbs[i].reachable
    requires Inits(state) == Out(insns, bbs[i])
    ensures SameShape(bbs', cfg) && Dated(insns, cfg, bbs', pass, i + 1)
    ensures Covered(insns, cfg, bbs', pass, i + 1)
    ensures !changed ==> bbs' == bbs && forall s :: s in bbs[i].successors ==> MergedInto(insns, cfg, bbs, i, s)
    ensures changed ==> !Known(insns, cfg, pass - 1)
  {
    hide WellFormed, Dated, Covered, Inits, Out, SameShape, PropagatedTo, EachPropagated, MergedInto, Descends,
         Known, Visiting;
    bbs' := bbs;
    changed := false;
    var successors := bbs[i].successors;
    StartVisiting(insns, cfg, bbs, pass, i);
    for j := 0 to |successors|
      invariant Visiting(insns, cfg, bbs, bbs', pass, i)
      invariant EachPropagated(insns, bbs[i], bbs', successors[..j])
      invariant !changed ==> bbs' == bbs
      invariant changed ==> !Known(insns, cfg, pass - 1)
    {
      var next, c := PropagateOne(insns, cfg, bbs, bbs', pass, i, successors[j], state, successors[..j]);
      assert successors[..j + 1] == successors[..j] + [successors[j]];
      bbs', changed := next, changed || c;
    }
    assert successors[..|successors|] == successors;
    EndVisiting(insns, cfg, bbs, bbs', pass, i);
    CoveredAfterVisit(insns, cfg, bbs, bbs', pass, i);
    if !changed {
      AllMerged(insns, cfg, bbs, i);
    }
  }

  lemma SameSize(bbs: seq<BasicBlock>, cur: seq<BasicBlock>, cfg: seq<BasicBlock>)
    requires SameShape(bbs, cfg) && SameShape(cur, cfg)
    ensures |bbs| == |cur| == |cfg|
  {}

  lemma OneMorePropagated(insns: seq<Insn>, bb: BasicBlock, cur: seq<BasicBlock>, next: seq<BasicBlock>,
          done: seq<nat>, s: nat)
    requires bb.start <= bb.end <= |insns| && EachPropagated(insns, bb, cur, done) && PropagatedTo(insns, bb, next, s)
    requires forall t :: PropagatedTo(insns, bb, cur, t) ==> PropagatedTo(insns, bb, next, t)
    ensures EachPropagated(insns, bb, next, done + [s])
  {
    hide PropagatedTo;
  }

  lemma StartVisiting(insns: seq<Insn>, cfg: seq<BasicBlock>, bbs: seq<BasicBlock>, pass: nat, i: nat)
    requires WellFormed(insns, cfg) && SameShape(bbs, cfg) && i < |bbs| && Dated(insns, cfg, bbs, pass, i)
    ensures bbs[i].start <= bbs[i].end <= |insns|
    ensures Visiting(insns, cfg, bbs, bbs, pass, i) && EachPropagated(insns, bbs[i], bbs, [])
  {
    hide Dated;
    DescendsRefl(bbs);
    DatedLater(insns, cfg, bbs, pass, i, pass, i + 1);
  }

  lemma EndVisiting(insns: seq<Insn>, cfg: seq<BasicBlock>, bbs: seq<BasicBlock>, cur: seq<BasicBlock>, pass: nat,
          i: nat)
    requires WellFormed(insns, cfg) && SameShape(bbs, cfg) && Visiting(insns, cfg, bbs, cur, pass, i)
    ensures SameShape(cur, cfg) && Dated(insns, cfg, cur, pass, i + 1) && Descends(bbs, cur)
  {}

  predicate EachPropagated(insns: seq<Insn>, bb: BasicBlock, bbs: seq<BasicBlock>, successors: seq<nat>)
    requires bb.start <= bb.end <= |insns|
  {
    forall s :: s in successors ==> PropagatedTo(insns, bb, bbs, s)
  }

  lemma DescendsRefl(bbs: seq<BasicBlock>)
    ensures Descends(bbs, bbs)
  {}

  lemma SuccessorInRange(insns: seq<Insn>, cfg: seq<BasicBlock>, bbs: seq<BasicBlock>, i: nat, s: nat)
    requires WellFormed(insns, cfg) && SameShape(bbs, cfg) && i < |bbs| && s in bbs[i].successors
    ensures s < |cfg| && s in cfg[i].successors
  {
    assert IsArc(insns, cfg, i, s);
  }

  lemma AllMerged(insns: seq<Insn>, cfg: seq<BasicBlock>, bbs: seq<BasicBlock>, i: nat)
    requires WellFormed(insns, cfg) && SameShape(bbs, cfg) && i < |bbs|
    requires EachPropagated(insns, bbs[i], bbs, bbs[i].successors)
    ensures forall s :: s in bbs[i].successors ==> MergedInto(insns, cfg, bbs, i, s)
  {}

  lemma AbsorbedDated(insns: seq<Insn>, cfg: seq<BasicBlock>, bbs: seq<BasicBlock>, before: seq<BasicBlock>,
          after: seq<BasicBlock>, pass: nat, i: nat, s: nat)
    requires WellFormed(insns, cfg) && SameShape(bbs, cfg) && SameShape(before, cfg) && SameShape(after, cfg)
    requires Dated(insns, cfg, bbs, pass, i) && Dated(insns, cfg, before, pass, i + 1) && pass > 0
    requires i < |cfg| && bbs[i].reachable && s in cfg[i].successors && s < |cfg|
    requires Absorbed(before, after, s, Out(insns, bbs[i]))
    ensures Dated(insns, cfg, after, pass, i + 1)
  {
    hide Dated, WellFormed, Out;
    DatedMerge(insns, cfg, bbs, before, after, pass, i, s);
  }

  /** A change at successor s means that not everything was known. */
  lemma QuietOnceKnown(insns: seq<Insn>, cfg: seq<BasicBlock>, bbs: seq<BasicBlock>, later: seq<BasicBlock>, pass: nat,
          i: nat, s: nat)
    requires WellFormed(insns, cfg) && SameShape(bbs, cfg) && SameShape(later, cfg) && Descends(bbs, later)
    requires Dated(insns, cfg, bbs, pass, i) && Covered(insns, cfg, bbs, pass, i) && pass > 0
    requires i < |bbs| && bbs[i].reachable && s in bbs[i].successors && s < |bbs|
    requires !(later[s].reachable && Inits(later[s].regStateIn) <= Out(insns, bbs[i]))
    ensures !Known(insns, cfg, pass - 1)
  {
    hide Known, Dated, Covered, WellFormed;
    if Known(insns, cfg, pass - 1) {
      LateVisitIsQuiet(insns, cfg, bbs, pass, i, s);
    }
  }

  // ---------- the fixed point ----------

  /** The state of the analysis between two visits. */
  ghost predicate Between(insns: seq<Insn>, cfg: seq<BasicBlock>, bbs: seq<BasicBlock>, pass: nat, i: nat)
    requires WellFormed(insns, cfg)
  {
    SameShape(bbs, cfg) && Dated(insns, cfg, bbs, pass, i) && Covered(insns, cfg, bbs, pass, i)
  }

  ghost predicate SettledUpTo(insns: seq<Insn>, cfg: seq<BasicBlock>, bbs: seq<BasicBlock>, i: nat)
    requires WellFormed(insns, cfg) && SameShape(bbs, cfg)
  {
    i <= |bbs| && forall b :: 0 <= b < i ==> Settled(insns, cfg, bbs, b)
  }

  lemma InitialKnowledge(insns: seq<Insn>, cfg: seq<BasicBlock>)
    requires WellFormed(insns, cfg) && Inits(cfg[0].regStateIn) == ENTRY_REGS
    requires forall b :: 0 <= b < |cfg| ==> cfg[b].reachable == (b == 0)
    ensures Between(insns, cfg, cfg, 1, 0)
  {
    assert DuePath(cfg, [0], 0, 1, 0);
    forall r: BpfReg | r !in Inits(cfg[0].regStateIn)
      ensures DueLack(insns, cfg, [0], 0, r, 1, 0)
    {}
    forall p | IsBlockPath(cfg, p) && Due(p, 1, 0)
      ensures Covers(insns, cfg, cfg, p)
    {
      assert p == [0];
    }
  }

  /** One block's visit: its checks, then its propagation. */
  method VisitBlock(insns: seq<Insn>, ghost cfg: seq<BasicBlock>, bbs: seq<BasicBlock>, ghost pass: nat, i: nat)
    returns (r: Result<(seq<BasicBlock>, bool)>)
    requires WellFormed(insns, cfg) && Between(insns, cfg, bbs, pass, i) && i < |bbs| && pass > 0
    ensures r.Ok? ==> |r.value.0| == |bbs| && Between(insns, cfg, r.value.0, pass, i + 1)
    ensures r.Ok? && !r.value.1 ==> r.value.0 == bbs && Settled(insns, cfg, bbs, i)
    ensures r.Ok? && r.value.1 ==> !Known(insns, cfg, pass - 1)
    ensures r.Err? ==> bbs[i].reachable && exists pc: nat :: FailsAt(insns, bbs[i], pc, r.error)
  {
    if !bbs[i].reachable {
      SkipUnreachable(insns, cfg, bbs, pass, i);
      return Ok((bbs, false));
    }
    var out := SimulateBlock(insns, bbs[i]);
    assert |bbs| == |cfg|;
    hide Dated, Covered, BlockOk, FailsAt, WellFormed, Known;
    if out.Err? {
      return Err(out.error);
    }
    var bbs', changed := PropagateAll(insns, cfg, bbs, pass, i, out.value);
    r := Ok((bbs', changed));
  }

  lemma SkipUnreachable(insns: seq<Insn>, cfg: seq<BasicBlock>, bbs: seq<BasicBlock>, pass: nat, i: nat)
    requires WellFormed(insns, cfg) && Between(insns, cfg, bbs, pass, i) && i < |bbs| && !bbs[i].reachable
    ensures Between(insns, cfg, bbs, pass, i + 1)
  {
    hide Dated;
    DescendsRefl(bbs);
    DatedLater(insns, cfg, bbs, pass, i, pass, i + 1);
    CoveredAfterVisit(insns, cfg, bbs, bbs, pass, i);
  }

  // ---------- how many passes it takes ----------

  lemma MergedIsPropagated(insns: seq<Insn>, cfg: seq<BasicBlock>, bbs: seq<BasicBlock>, b: nat, s: nat)
    requires WellFormed(insns, cfg) && FixedPoint(insns, cfg, bbs) && b < |bbs| && bbs[b].reachable
    requires s in bbs[b].successors && bbs[b].start <= bbs[b].end <= |insns|
    ensures PropagatedTo(insns, bbs[b], bbs, s)
  {
    hide WellFormed, SameShape, Witnessed, Inits, BlockOk;
    assert Settled(insns, cfg, bbs, b);
    assert MergedInto(insns, cfg, bbs, b, s);
  }

  lemma CoversReachable(insns: seq<Insn>, cfg: seq<BasicBlock>, bbs: seq<BasicBlock>, p: seq<nat>)
    requires WellFormed(insns, cfg) && SameShape(bbs, cfg) && IsBlockPath(cfg, p) && Covers(insns, cfg, bbs, p)
    ensures bbs[Last(p)].reachable
  {}

  lemma StartCovered(insns: seq<Insn>, cfg: seq<BasicBlock>, bbs: seq<BasicBlock>, p: seq<nat>)
    requires WellFormed(insns, cfg) && FixedPoint(insns, cfg, bbs) && IsBlockPath(cfg, p) && |p| == 1
    ensures Covers(insns, cfg, bbs, p)
  {
    hide WellFormed, Witnessed, Inits;
  }

  lemma FixedShape(insns: seq<Insn>, cfg: seq<BasicBlock>, bbs: seq<BasicBlock>)
    requires WellFormed(insns, cfg) && FixedPoint(insns, cfg, bbs)
    ensures SameShape(bbs, cfg)
  {}

  lemma {:induction false} AllAbsorbed(insns: seq<Insn>, cfg: seq<BasicBlock>, bbs: seq<BasicBlock>, p: seq<nat>)
    requires WellFormed(insns, cfg) && FixedPoint(insns, cfg, bbs) && IsBlockPath(cfg, p)
    ensures Covers(insns, cfg, bbs, p)
    decreases |p|
  {
    hide WellFormed, FixedPoint, SameShape, Covers, PropagatedTo;
    FixedShape(insns, cfg, bbs);
    if |p| == 1 {
      StartCovered(insns, cfg, bbs, p);
    } else {
      var q, b, s := p[..|p| - 1], p[|p| - 2], Last(p);
      LastStep(insns, cfg, bbs, p);
      AllAbsorbed(insns, cfg, bbs, q);
      CoversReachable(insns, cfg, bbs, q);
      MergedIsPropagated(insns, cfg, bbs, b, s);
      FlowsInto(insns, cfg, bbs, bbs, b, s, q);
    }
  }

  /** When a pass changes nothing, everything was known one pass before. */
  lemma KnownAtFixedPoint(insns: seq<Insn>, cfg: seq<BasicBlock>, bbs: seq<BasicBlock>, pass: nat)
    requires WellFormed(insns, cfg) && FixedPoint(insns, cfg, bbs) && Dated(insns, cfg, bbs, pass, 0) && pass > 0
    ensures Known(insns, cfg, pass - 1)
  {
    hide WellFormed, FixedPoint, Dated, KnownPath, IsBlockPath;
    forall p | IsBlockPath(cfg, p)
      ensures KnownPath(insns, cfg, pass - 1, p)
    {
      KnownPathAtFixedPoint(insns, cfg, bbs, pass, p);
    }
  }

  lemma ClaimsAtFixedPoint(insns: seq<Insn>, cfg: seq<BasicBlock>, bbs: seq<BasicBlock>, p: seq<nat>)
    requires WellFormed(insns, cfg) && FixedPoint(insns, cfg, bbs) && IsBlockPath(cfg, p)
    ensures Last(p) < |bbs| && bbs[Last(p)].reachable
    ensures Inits(bbs[Last(p)].regStateIn) <= BlockInits(insns, cfg, p)
  {
    hide WellFormed, FixedPoint, SameShape, Inits, BlockInits;
    FixedShape(insns, cfg, bbs);
    AllAbsorbed(insns, cfg, bbs, p);
    ShapeLength(bbs, cfg);
  }

  lemma ShapeLength(bbs: seq<BasicBlock>, cfg: seq<BasicBlock>)
    requires SameShape(bbs, cfg)
    ensures |bbs| == |cfg|
  {}

  lemma KnownPathAtFixedPoint(insns: seq<Insn>, cfg: seq<BasicBlock>, bbs: seq<BasicBlock>, pass: nat, p: seq<nat>)
    requires WellFormed(insns, cfg) && FixedPoint(insns, cfg, bbs) && Dated(insns, cfg, bbs, pass, 0) && pass > 0
    requires IsBlockPath(cfg, p)
    ensures KnownPath(insns, cfg, pass - 1, p)
  {
    hide WellFormed, Inits, BlockInits, FixedPoint, Covers, Retreats, SameShape;
    ClaimsAtFixedPoint(insns, cfg, bbs, p);
    var b := Last(p);
    var q :| DuePath(cfg, q, b, pass, 0);
    assert ReachedBy(cfg, b, pass - 1, q);
    forall r: BpfReg | r !in BlockInits(insns, cfg, p)
      ensures Lacked(insns, cfg, b, r, pass - 1)
    {
      var q :| DueLack(insns, cfg, q, b, r, pass, 0);
      assert LacksBy(insns, cfg, b, r, pass - 1, q);
    }
  }

  lemma ReachedLater(cfg: seq<BasicBlock>, b: nat, n: nat, m: nat)
    requires Reached(cfg, b, n) && n <= m
    ensures Reached(cfg, b, m)
  {
    hide BlockPathTo, Arrival;
    var q :| ReachedBy(cfg, b, n, q);
    assert ReachedBy(cfg, b, m, q);
  }

  lemma LackedLater(insns: seq<Insn>, cfg: seq<BasicBlock>, b: nat, r: BpfReg, n: nat, m: nat)
    requires WellFormed(insns, cfg) && Lacked(insns, cfg, b, r, n) && n <= m
    ensures Lacked(insns, cfg, b, r, m)
  {
    hide WellFormed, LacksAlong, Arrival;
    var q :| LacksBy(insns, cfg, b, r, n, q);
    assert LacksBy(insns, cfg, b, r, m, q);
  }

  lemma KnownLater(insns: seq<Insn>, cfg: seq<BasicBlock>, n: nat, m: nat)
    requires WellFormed(insns, cfg) && Known(insns, cfg, n) && n <= m
    ensures Known(insns, cfg, m)
  {
    hide WellFormed, IsBlockPath, BlockInits, Lacked, Reached, Last;
    forall p | IsBlockPath(cfg, p)
      ensures KnownPath(insns, cfg, m, p)
    {
      NonemptyPath(cfg, p);
      assert KnownPath(insns, cfg, n, p);
      ReachedLater(cfg, Last(p), n, m);
      forall r: BpfReg | r !in BlockInits(insns, cfg, p)
        ensures Lacked(insns, cfg, Last(p), r, m)
      {
        LackedLater(insns, cfg, Last(p), r, n, m);
      }
    }
  }

  lemma NonemptyPath(cfg: seq<BasicBlock>, p: seq<nat>)
    requires IsBlockPath(cfg, p)
    ensures |p| > 0 && forall j :: 0 <= j < |p| ==> p[j] < |cfg|
  {}

  lemma ArrivalBound(q: seq<nat>, n: nat)
    requires |q| > 0 && Retreats(q) <= n
    ensures Arrival(q) <= n + 1
  {}

  /** No path needs more than two retreats per backward branch. */
  lemma KnownByRetreats(insns: seq<Insn>, cfg: seq<BasicBlock>)
    requires WellFormed(insns, cfg)
    ensures Known(insns, cfg, 2 * |BackwardBranches(insns)| + 1)
  {
    var n := 2 * |BackwardBranches(insns)|;
    hide WellFormed, BlockInits, BackwardBranches, IsBlockPath, Arrival, Retreats;
    forall p | IsBlockPath(cfg, p)
      ensures KnownPath(insns, cfg, n + 1, p)
    {
      NonemptyPath(cfg, p);
      var q := Shorten(insns, cfg, p, 0);
      NonemptyPath(cfg, q);
      ArrivalBound(q, n);
      assert ReachedBy(cfg, Last(p), n + 1, q);
      forall r: BpfReg | r !in BlockInits(insns, cfg, p)
        ensures Lacked(insns, cfg, Last(p), r, n + 1)
      {
        var q := Shorten(insns, cfg, p, r);
        NonemptyPath(cfg, q);
        ArrivalBound(q, n);
        assert LacksBy(insns, cfg, Last(p), r, n + 1, q);
      }
    }
  }

  lemma PassBound(insns: seq<Insn>, cfg: seq<BasicBlock>, passes: nat)
    requires WellFormed(insns, cfg) && (passes >= 2 ==> !Known(insns, cfg, passes - 2))
    ensures passes <= 2 * |BackwardBranches(insns)| + 2
  {
    hide *;
    KnownByRetreats(insns, cfg);
    if passes > 2 * |BackwardBranches(insns)| + 2 {
      KnownLater(insns, cfg, 2 * |BackwardBranches(insns)| + 1, passes - 2);
    }
  }

  /** One pass over all blocks. If it changes something, not everything was known a pass ago. */
  lemma BetweenShape(insns: seq<Insn>, cfg: seq<BasicBlock>, bbs: seq<BasicBlock>, pass: nat, i: nat)
    requires WellFormed(insns, cfg) && Between(insns, cfg, bbs, pass, i)
    ensures SameShape(bbs, cfg) && |bbs| == |cfg|
  {
    hide WellFormed, Dated, Covered;
  }

  /** After its last block a pass is where the next pass starts. */
  lemma NextPass(insns: seq<Insn>, cfg: seq<BasicBlock>, bbs: seq<BasicBlock>, pass: nat)
    requires WellFormed(insns, cfg) && Between(insns, cfg, bbs, pass, |bbs|)
    ensures Between(insns, cfg, bbs, pass + 1, 0)
  {
    hide WellFormed, Dated, Covered, SameShape;
    DatedLater(insns, cfg, bbs, pass, |bbs|, pass + 1, 0);
    CoveredNextPass(insns, cfg, bbs, pass);
  }

  lemma OneMoreSettled(insns: seq<Insn>, cfg: seq<BasicBlock>, bbs: seq<BasicBlock>, i: nat)
    requires WellFormed(insns, cfg) && SameShape(bbs, cfg) && SettledUpTo(insns, cfg, bbs, i) && i < |bbs|
    requires Settled(insns, cfg, bbs, i)
    ensures SettledUpTo(insns, cfg, bbs, i + 1)
  {
    hide WellFormed, Settled, SameShape;
  }

  lemma NothingSettled(insns: seq<Insn>, cfg: seq<BasicBlock>, bbs: seq<BasicBlock>)
    requires WellFormed(insns, cfg) && SameShape(bbs, cfg)
    ensures SettledUpTo(insns, cfg, bbs, 0)
  {}

  lemma FailureIsWitnessed(insns: seq<Insn>, cfg: seq<BasicBlock>, bbs: seq<BasicBlock>, pass: nat, i: nat,
          e: VerifyError)
    requires WellFormed(insns, cfg) && Between(insns, cfg, bbs, pass, i)
    requires i < |bbs| && bbs[i].reachable && exists pc: nat :: FailsAt(insns, bbs[i], pc, e)
    ensures CheckFails(insns, e)
  {
    hide WellFormed, Dated, Covered, SameShape, FailsAt, CheckFails;
    FailureWitness(insns, cfg, bbs, pass, i, e);
  }

  method RunPass(insns: seq<Insn>, ghost cfg: seq<BasicBlock>, start: seq<BasicBlock>, ghost pass: nat)
    returns (r: Result<(seq<BasicBlock>, bool)>)
    requires WellFormed(insns, cfg) && Between(insns, cfg, start, pass, 0) && pass > 0
    ensures r.Ok? ==> Between(insns, cfg, r.value.0, pass + 1, 0)
    ensures r.Ok? && r.value.1 ==> !Known(insns, cfg, pass - 1)
    ensures r.Ok? && !r.value.1 ==> r.value.0 == start && SettledUpTo(insns, cfg, start, |start|)
    ensures r.Err? ==> CheckFails(insns, r.error)
  {
    hide *;
    BetweenShape(insns, cfg, start, pass, 0);
    NothingSettled(insns, cfg, start);
    var bbs, changed := start, false;
    for i := 0 to |bbs|
      invariant |bbs| == |start| && Between(insns, cfg, bbs, pass, i)
      invariant changed ==> !Known(insns, cfg, pass - 1)
      invariant !changed ==> bbs == start && SettledUpTo(insns, cfg, start, i)
    {
      var visit := VisitBlock(insns, cfg, bbs, pass, i);
      if visit.Err? {
        FailureIsWitnessed(insns, cfg, bbs, pass, i, visit.error);
        return Err(visit.error);
      }
      if !changed && !visit.value.1 {
        OneMoreSettled(insns, cfg, start, i);
      }
      bbs, changed := visit.value.0, changed || visit.value.1;
    }
    NextPass(insns, cfg, bbs, pass);
    r := Ok((bbs, changed));
  }

  /** Propagates register states until nothing changes. Success is a fixed point whose every claim
      is witnessed by a path, reached in one pass more than it takes until everything is known. A
      failed check happens in a reachable block, in a state every missing register of which is
      missing along some path. The budget runs out only if not everything is known after 31 passes;
      in any case the passes made are at most two per backward branch plus two. */
  method DataflowAnalysis(insns: seq<Insn>, cfg: seq<BasicBlock>)
    returns (r: Result<seq<BasicBlock>>, ghost passes: nat)
    requires WellFormed(insns, cfg) && Inits(cfg[0].regStateIn) == ENTRY_REGS
    requires forall b :: 0 <= b < |cfg| ==> cfg[b].reachable == (b == 0)
    ensures r.Ok? ==> FixedPoint(insns, cfg, r.value)
    ensures r.Ok? ==> 0 < passes <= MAX_BACK_EDGE_TRAVERSALS && Known(insns, cfg, passes - 1)
    ensures r.Err? ==>
              || (r.error == BackEdgeBudgetExceeded(0) && !Known(insns, cfg, MAX_BACK_EDGE_TRAVERSALS - 1))
              || CheckFails(insns, r.error)
    ensures passes >= 2 ==> !Known(insns, cfg, passes - 2)
    ensures passes <= 2 * |BackwardBranches(insns)| + 2
  {
    hide WellFormed, Between, Finished, FixedPoint, CheckFails, Known, SettledUpTo, BackwardBranches, Inits;
    var bbs := cfg;
    var changed := true;
    var iterations := 0;
    InitialKnowledge(insns, cfg);
    while changed
      invariant Between(insns, cfg, bbs, iterations + 1, 0)
      invariant 0 <= iterations <= MAX_BACK_EDGE_TRAVERSALS
      invariant changed && iterations >= 1 ==> !Known(insns, cfg, iterations - 1)
      invariant iterations >= 2 ==> !Known(insns, cfg, iterations - 2)
      invariant !changed ==> iterations > 0 && Finished(insns, cfg, bbs, iterations)
      decreases changed, MAX_BACK_EDGE_TRAVERSALS - iterations
    {
      changed := false;
      iterations := iterations + 1;
      if iterations > MAX_BACK_EDGE_TRAVERSALS {
        PassBound(insns, cfg, iterations - 1);
        return Err(BackEdgeBudgetExceeded(0)), iterations - 1;
      }
      var pass := RunPass(insns, cfg, bbs, iterations);
      if pass.Err? {
        PassBound(insns, cfg, iterations);
        return Err(pass.error), iterations;
      }
      if !pass.value.1 {
        Finish(insns, cfg, bbs, iterations);
      }
      bbs, changed := pass.value.0, pass.value.1;
    }
    AtTheEnd(insns, cfg, bbs, iterations);
    PassBound(insns, cfg, iterations);
    r, passes := Ok(bbs), iterations;
  }

  ghost predicate Finished(insns: seq<Insn>, cfg: seq<BasicBlock>, bbs: seq<BasicBlock>, pass: nat)
    requires WellFormed(insns, cfg)
  {
    Between(insns, cfg, bbs, pass, 0) && SettledUpTo(insns, cfg, bbs, |bbs|)
  }

  lemma Finish(insns: seq<Insn>, cfg: seq<BasicBlock>, bbs: seq<BasicBlock>, pass: nat)
    requires WellFormed(insns, cfg) && Between(insns, cfg, bbs, pass, 0) && SettledUpTo(insns, cfg, bbs, |bbs|)
    ensures Finished(insns, cfg, bbs, pass)
  {}

  lemma AtTheEnd(insns: seq<Insn>, cfg: seq<BasicBlock>, bbs: seq<BasicBlock>, pass: nat)
    requires WellFormed(insns, cfg) && Finished(insns, cfg, bbs, pass) && pass > 0
    ensures FixedPoint(insns, cfg, bbs) && Known(insns, cfg, pass - 1)
  {
    hide WellFormed, Dated, Covered, Settled, SameShape, Known, Witnessed;
    DatedWitnessed(insns, cfg, bbs, pass, 0);
    EntryCovered(insns, cfg, bbs, pass);
    KnownAtFixedPoint(insns, cfg, bbs, pass);
  }

  ghost predicate FixedPoint(insns: seq<Insn>, cfg: seq<BasicBlock>, bbs: seq<BasicBlock>)
    requires WellFormed(insns, cfg)
  {
    SameShape(bbs, cfg) && Witnessed(insns, cfg, bbs) && SettledUpTo(insns, cfg, bbs, |bbs|)
    && bbs[0].reachable && Inits(bbs[0].regStateIn) <= ENTRY_REGS
  }

  lemma EntryCovered(insns: seq<Insn>, cfg: seq<BasicBlock>, bbs: seq<BasicBlock>, pass: nat)
    requires WellFormed(insns, cfg) && Between(insns, cfg, bbs, pass, 0)
    ensures bbs[0].reachable && Inits(bbs[0].regStateIn) <= ENTRY_REGS
  {
    assert IsBlockPath(cfg, [0]) && Due([0], pass, 0);
    assert Covers(insns, cfg, bbs, [0]);
  }

  // ---------- failures are real ----------

  /** A check error names an instruction that some path reaches and that may not execute there. */
  ghost predicate CheckFails(insns: seq<Insn>, e: VerifyError) {
    match e
    case WriteToR10(pc) => pc < |insns| && 10 in Writes(insns[pc]) && Reachable(insns, pc)
    case UninitializedRegRead(pc, reg) =>
      && pc < |insns| && reg in Reads(insns[pc])
      && exists p :: PathTo(insns, p, pc) && reg !in Initialised(insns, p)
    case StackOutOfBounds(pc, off) =>
      && pc < |insns| && FrameAccess(insns[pc]) && insns[pc].off == off && !(-STACK_SIZE <= off < 0)
      && Reachable(insns, pc)
    case _ => false
  }

  /** A block path to b, continued inside the block. */
  lemma PathInto(insns: seq<Insn>, cfg: seq<BasicBlock>, p: seq<nat>, b: nat, pc: nat) returns (q: seq<nat>)
    requires WellFormed(insns, cfg) && BlockPathTo(cfg, p, b) && cfg[b].start <= pc < cfg[b].end
    ensures PathTo(insns, q, pc)
    ensures Initialised(insns, q) == TransferRange(insns, cfg[b].start, pc, BlockInits(insns, cfg, p))
  {
    hide WellFormed, TransferRange, BlockInits, Initialised, IsPath;
    var e := BlockPathToPath(insns, cfg, p);
    q := PathWithinBlock(insns, cfg, e, b, pc);
  }

  lemma FailureWitness(insns: seq<Insn>, cfg: seq<BasicBlock>, bbs: seq<BasicBlock>, pass: nat, i: nat, e: VerifyError)
    requires WellFormed(insns, cfg) && SameShape(bbs, cfg) && Dated(insns, cfg, bbs, pass, i)
    requires i < |bbs| && bbs[i].reachable && exists pc: nat :: FailsAt(insns, bbs[i], pc, e)
    ensures CheckFails(insns, e)
  {
    var pc: nat :| FailsAt(insns, bbs[i], pc, e);
    hide WellFormed, Due, InsnOk, Inits, BlockPathTo, Initialised, TransferRange, Dated;
    SomeoneReaches(insns, cfg, bbs, pass, i, pc);
    BlockInRange(insns, cfg, bbs, i);
    var s := TransferRange(insns, bbs[i].start, pc, Inits(bbs[i].regStateIn));
    FirstUninitMeans(Reads(insns[pc]), s);
    if e.UninitializedRegRead? {
      MissingWitness(insns, cfg, bbs, pass, i, pc, e.reg);
    }
  }

  lemma SomeoneReaches(insns: seq<Insn>, cfg: seq<BasicBlock>, bbs: seq<BasicBlock>, pass: nat, i: nat, pc: nat)
    requires WellFormed(insns, cfg) && SameShape(bbs, cfg) && Dated(insns, cfg, bbs, pass, i)
    requires i < |bbs| && bbs[i].reachable && cfg[i].start <= pc < cfg[i].end
    ensures Reachable(insns, pc)
  {
    hide WellFormed, IsPath;
    var p :| DuePath(cfg, p, i, pass, i);
    var q := PathInto(insns, cfg, p, i, pc);
  }

  lemma MissingWitness(insns: seq<Insn>, cfg: seq<BasicBlock>, bbs: seq<BasicBlock>, pass: nat, i: nat, pc: nat,
          r: BpfReg)
    requires WellFormed(insns, cfg) && SameShape(bbs, cfg) && Dated(insns, cfg, bbs, pass, i)
    requires i < |bbs| && bbs[i].reachable && cfg[i].start <= pc < cfg[i].end
    requires r !in TransferRange(insns, cfg[i].start, pc, Inits(bbs[i].regStateIn))
    ensures exists p :: PathTo(insns, p, pc) && r !in Initialised(insns, p)
  {
    var p := OutWitness(insns, cfg, bbs, pass, i, i, pc, r);
    var q := PathInto(insns, cfg, p, i, pc);
  }
}
