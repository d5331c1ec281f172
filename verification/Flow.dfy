/** What a program's control flow and register use are, with no reference to basic blocks:
    edges between instructions, paths from the entry, and the registers that every run along a
    path has initialised. The verifier's verdict is stated in these terms. */
module Flow {
  import opened Isa

  // ---------- control flow ----------

  predicate IsBranch(i: Insn) { i.Jump? || i.JmpCond? || i.JmpCond32? }

  function Target(insns: seq<Insn>, pc: nat): int
    requires pc < |insns| && IsBranch(insns[pc])
  {
    pc + 1 + insns[pc].off
  }

  predicate JumpsTo(insns: seq<Insn>, pc: nat, t: int) {
    pc < |insns| && IsBranch(insns[pc]) && Target(insns, pc) == t
  }

  predicate FallsThrough(i: Insn) { !i.Jump? && !i.Exit? }

  /** Control can pass from instruction a to instruction b, as the verifier sees it: a tail call
      counts as falling through. */
  predicate Edge(insns: seq<Insn>, a: nat, b: nat) {
    && a < |insns| && b < |insns|
    && (JumpsTo(insns, a, b) || (FallsThrough(insns[a]) && b == a + 1))
  }

  predicate BranchInRange(insns: seq<Insn>, pc: nat)
    requires pc < |insns|
  {
    IsBranch(insns[pc]) ==> 0 <= Target(insns, pc) < |insns|
  }

  predicate BranchesInRange(insns: seq<Insn>) {
    forall pc :: 0 <= pc < |insns| ==> BranchInRange(insns, pc)
  }

  predicate IsBackward(insns: seq<Insn>, pc: nat)
    requires pc < |insns|
  {
    IsBranch(insns[pc]) && Target(insns, pc) <= pc
  }

  function BackwardBranches(insns: seq<Insn>): set<nat> {
    set pc: nat | pc < |insns| && IsBackward(insns, pc)
  }

  // ---------- leaders ----------

  /** The instruction ends a basic block. Lowering also ends one at a tail call. */
  predicate EndsBlock(i: Insn, atTailCall: bool) {
    IsBranch(i) || i.Exit? || (atTailCall && i.TailCall?)
  }

  /** Position i starts a block, judging by the instructions before position k alone. */
  predicate LeaderBy(insns: seq<Insn>, atTailCall: bool, k: nat, i: nat)
    requires k <= |insns| && i < |insns|
  {
    || i == 0
    || (exists q :: 0 <= q < k && JumpsTo(insns, q, i))
    || (1 <= i <= k && EndsBlock(insns[i - 1], atTailCall))
  }

  predicate IsLeader(insns: seq<Insn>, atTailCall: bool, i: nat)
    requires i < |insns|
  {
    LeaderBy(insns, atTailCall, |insns|, i)
  }

  /** One more instruction seen: it adds its own target and, if it ends a block, its successor. */
  lemma LeaderStep(insns: seq<Insn>, atTailCall: bool, k: nat, i: nat)
    requires k < |insns| && i < |insns|
    ensures LeaderBy(insns, atTailCall, k + 1, i) <==>
              || LeaderBy(insns, atTailCall, k, i)
              || JumpsTo(insns, k, i)
              || (i == k + 1 && EndsBlock(insns[k], atTailCall))
  {}

  /** The leaders below position k, in order. */
  function Leaders(insns: seq<Insn>, atTailCall: bool, k: nat): (r: seq<nat>)
    requires k <= |insns|
    ensures forall j :: 0 <= j < |r| ==> r[j] < k
    ensures forall i, j :: 0 <= i < j < |r| ==> r[i] < r[j]
  {
    if k == 0 then []
    else if IsLeader(insns, atTailCall, k - 1) then Leaders(insns, atTailCall, k - 1) + [k - 1]
    else Leaders(insns, atTailCall, k - 1)
  }

  /** The number, from 0, of the block that holds instruction pc. */
  function BlockOf(insns: seq<Insn>, atTailCall: bool, pc: nat): (b: nat)
    requires pc < |insns|
    ensures b < |Leaders(insns, atTailCall, pc + 1)| && Leaders(insns, atTailCall, pc + 1)[b] <= pc
  {
    LeadersStartAtZero(insns, atTailCall, pc + 1);
    |Leaders(insns, atTailCall, pc + 1)| - 1
  }

  lemma {:induction false} LeadersStartAtZero(insns: seq<Insn>, atTailCall: bool, k: nat)
    requires 0 < k <= |insns|
    ensures |Leaders(insns, atTailCall, k)| > 0 && Leaders(insns, atTailCall, k)[0] == 0
  {
    if k > 1 {
      LeadersStartAtZero(insns, atTailCall, k - 1);
    }
  }

  lemma {:induction false} LeadersPrefix(insns: seq<Insn>, atTailCall: bool, j: nat, k: nat)
    requires j <= k <= |insns|
    ensures Leaders(insns, atTailCall, j) <= Leaders(insns, atTailCall, k)
    ensures forall i :: |Leaders(insns, atTailCall, j)| <= i < |Leaders(insns, atTailCall, k)| ==>
              Leaders(insns, atTailCall, k)[i] >= j
    decreases k
  {
    if j < k {
      LeadersPrefix(insns, atTailCall, j, k - 1);
    }
  }

  /** The leaders below k are listed exactly once. */
  lemma {:induction false} LeadersExact(insns: seq<Insn>, atTailCall: bool, k: nat, i: nat)
    requires i < k <= |insns|
    ensures i in Leaders(insns, atTailCall, k) <==> IsLeader(insns, atTailCall, i)
  {
    if i < k - 1 {
      LeadersExact(insns, atTailCall, k - 1, i);
    }
  }

  /** Instruction pc lies between the start of its block and the start of the next one; if it
      is a leader it is that start. */
  lemma BlockBounds(insns: seq<Insn>, atTailCall: bool, pc: nat)
    requires pc < |insns|
    ensures var starts := Leaders(insns, atTailCall, |insns|);
            var b := BlockOf(insns, atTailCall, pc);
            && b < |starts| && starts[b] <= pc
            && (b + 1 < |starts| ==> pc < starts[b + 1])
            && (IsLeader(insns, atTailCall, pc) ==> starts[b] == pc)
  {
    LeadersPrefix(insns, atTailCall, pc + 1, |insns|);
  }

  function BlockStart(insns: seq<Insn>, atTailCall: bool, b: nat): nat
    requires b < |Leaders(insns, atTailCall, |insns|)|
  {
    Leaders(insns, atTailCall, |insns|)[b]
  }

  function BlockEnd(insns: seq<Insn>, atTailCall: bool, b: nat): (e: nat)
    requires b < |Leaders(insns, atTailCall, |insns|)|
    ensures BlockStart(insns, atTailCall, b) < e <= |insns|
  {
    var starts := Leaders(insns, atTailCall, |insns|);
    if b + 1 < |starts| then starts[b + 1] else |insns|
  }

  /** Between two consecutive leaders there is no third. */
  lemma NoLeaderBetween(insns: seq<Insn>, atTailCall: bool, b: nat, pc: nat)
    requires b < |Leaders(insns, atTailCall, |insns|)|
    requires BlockStart(insns, atTailCall, b) < pc < BlockEnd(insns, atTailCall, b)
    ensures !IsLeader(insns, atTailCall, pc)
  {
    var starts := Leaders(insns, atTailCall, |insns|);
    forall i | 0 <= i < |starts|
      ensures starts[i] != pc
    {
      if i < b {
        assert starts[i] < starts[b];
      } else if b + 1 < i {
        assert starts[b + 1] < starts[i];
      }
    }
    LeadersExact(insns, atTailCall, |insns|, pc);
  }

  lemma BlockIs(insns: seq<Insn>, atTailCall: bool, b: nat, pc: nat)
    requires pc < |insns| && b < |Leaders(insns, atTailCall, |insns|)|
    requires BlockStart(insns, atTailCall, b) <= pc < BlockEnd(insns, atTailCall, b)
    ensures BlockOf(insns, atTailCall, pc) == b
  {
    BlockBounds(insns, atTailCall, pc);
    var starts := Leaders(insns, atTailCall, |insns|);
    var c := BlockOf(insns, atTailCall, pc);
    assert forall i :: c < i < |starts| ==> pc < starts[i];
    assert forall i :: b < i < |starts| ==> pc < starts[i];
  }

  // ---------- register use ----------

  function SourceReads(src: Source): seq<BpfReg> {
    match src
    case Imm(_) => []
    case Reg(r) => [r]
  }

  /** The registers an instruction reads, in the order the verifier checks them. */
  function Reads(i: Insn): seq<BpfReg> {
    match i
    case Alu64(op, dst, src) => SourceReads(src) + (if op == Mov then [] else [dst])
    case Alu32(op, dst, src) => SourceReads(src) + (if op == Mov then [] else [dst])
    case Load(_, _, base, _) => [base]
    case StoreReg(_, dst, value, _) => [dst, value]
    case StoreImm(_, dst, _, _) => [dst]
    case JmpCond(_, dst, src, _) => [dst] + SourceReads(src)
    case JmpCond32(_, dst, src, _) => [dst] + SourceReads(src)
    case Exit => [0]
    case Atomic(_, _, dst, value, _) => [dst, value]
    case Endian(_, _, dst) => [dst]
    case _ => []
  }

  function Writes(i: Insn): set<BpfReg> {
    match i
    case Alu64(_, dst, _) => {dst}
    case Alu32(_, dst, _) => {dst}
    case Load(_, dst, _, _) => {dst}
    case LoadImm64(dst, _) => {dst}
    case Endian(_, _, dst) => {dst}
    case Call(_) => {0}
    case _ => {}
  }

  function Clobbers(i: Insn): set<BpfReg> {
    if i.Call? then {1, 2, 3, 4, 5} else {}
  }

  function Transfer(i: Insn, s: set<BpfReg>): set<BpfReg> {
    (s - Clobbers(i)) + Writes(i)
  }

  /** The offset of a frame-pointer access, if the instruction makes one. */
  predicate FrameAccess(i: Insn) {
    || (i.Load? && i.base == 10)
    || ((i.StoreReg? || i.StoreImm? || i.Atomic?) && i.dst == 10)
  }

  predicate FrameOk(i: Insn) {
    FrameAccess(i) ==> -STACK_SIZE <= i.off < 0
  }

  /** What the verifier demands of one instruction when exactly the registers of s are known
      to be initialised. */
  predicate InsnOk(i: Insn, s: set<BpfReg>) {
    && 10 !in Writes(i)
    && (forall r :: r in Reads(i) ==> r in s)
    && FrameOk(i)
  }

  // ---------- paths ----------

  const ENTRY_REGS: set<BpfReg> := {1, 10}

  predicate IsPath(insns: seq<Insn>, p: seq<nat>) {
    && |p| > 0 && p[0] == 0 && |insns| > 0
    && (forall j :: 0 <= j < |p| ==> p[j] < |insns|)
    && (forall j :: 0 <= j < |p| - 1 ==> Edge(insns, p[j], p[j + 1]))
  }

  function Last(p: seq<nat>): nat
    requires |p| > 0
  {
    p[|p| - 1]
  }

  /** The registers initialised on arrival at the last instruction of p. */
  function Initialised(insns: seq<Insn>, p: seq<nat>): set<BpfReg>
    requires forall j :: 0 <= j < |p| ==> p[j] < |insns|
  {
    if |p| <= 1 then ENTRY_REGS
    else Transfer(insns[p[|p| - 2]], Initialised(insns, p[..|p| - 1]))
  }

  lemma ExtendPath(insns: seq<Insn>, p: seq<nat>, pc: nat)
    requires IsPath(insns, p) && Edge(insns, Last(p), pc)
    ensures PathTo(insns, p + [pc], pc)
    ensures Initialised(insns, p + [pc]) == Transfer(insns[Last(p)], Initialised(insns, p))
  {
    assert (p + [pc])[..|p|] == p;
  }

  predicate PathTo(insns: seq<Insn>, p: seq<nat>, pc: nat) {
    IsPath(insns, p) && Last(p) == pc
  }

  ghost predicate Reachable(insns: seq<Insn>, pc: nat) {
    exists p :: PathTo(insns, p, pc)
  }

  /** Whatever path led to the last instruction of p, it may execute. */
  predicate PathOk(insns: seq<Insn>, p: seq<nat>)
    requires IsPath(insns, p)
  {
    InsnOk(insns[Last(p)], Initialised(insns, p))
  }

  predicate EndOk(insns: seq<Insn>)
    requires |insns| > 0
  {
    var last := insns[|insns| - 1];
    IsBranch(last) || last.Exit? || last.TailCall?
  }

  /** The safety property that verification decides: every branch lands in the program, every
      instruction is reachable, no path reaches an instruction that may not execute, the program
      has an exit, and its last instruction does not fall off the end (other than by a branch
      that is not taken). */
  ghost predicate Safe(insns: seq<Insn>) {
    && |insns| > 0
    && BranchesInRange(insns)
    && (forall pc: nat :: pc < |insns| ==> Reachable(insns, pc))
    && (forall p :: IsPath(insns, p) ==> PathOk(insns, p))
    && (exists pc: nat :: pc < |insns| && insns[pc].Exit?)
    && EndOk(insns)
  }
}
