/** Lowering: fixed register mapping and translation to IR blocks. */
module Lowering {
  import opened Isa
  import opened Flow
  import opened Ir

  // ---------- register maps ----------

  datatype RegMap = RegMap(table: seq<PhysReg>, tmp: PhysReg, boundsBase: PhysReg, boundsLen: PhysReg)

  predicate ValidMap(m: RegMap) { |m.table| == NUM_REGS }

  function Phys(m: RegMap, r: BpfReg): PhysReg
    requires ValidMap(m)
  {
    m.table[r]
  }

  predicate Injective(m: RegMap)
    requires ValidMap(m)
  {
    forall a: BpfReg, b: BpfReg :: a != b ==> Phys(m, a) != Phys(m, b)
  }

  function Aarch64RegMap(): RegMap {
    RegMap(
      [PhysReg(7), PhysReg(0), PhysReg(1), PhysReg(2), PhysReg(3), PhysReg(4),
       PhysReg(19), PhysReg(20), PhysReg(21), PhysReg(22), PhysReg(25)],
      PhysReg(9), PhysReg(10), PhysReg(11))
  }

  function Riscv64RegMap(): RegMap {
    RegMap(
      [PhysReg(10), PhysReg(11), PhysReg(12), PhysReg(13), PhysReg(14), PhysReg(15),
       PhysReg(18), PhysReg(19), PhysReg(20), PhysReg(21), PhysReg(22)],
      PhysReg(23), PhysReg(24), PhysReg(25))
  }

  /** Different rows of a table without repeats are different registers. */
  lemma Aarch64Injective()
    ensures ValidMap(Aarch64RegMap()) && Injective(Aarch64RegMap())
  {
    forall a: BpfReg, b: BpfReg | a < b
      ensures Phys(Aarch64RegMap(), a) != Phys(Aarch64RegMap(), b)
    {
      assert a < b <= 5 || a <= 5 < b || 5 < a < b;
    }
  }

  lemma Riscv64Injective()
    ensures ValidMap(Riscv64RegMap()) && Injective(Riscv64RegMap())
  {
    forall a: BpfReg, b: BpfReg | a < b
      ensures Phys(Riscv64RegMap(), a) != Phys(Riscv64RegMap(), b)
    {
      assert a < b <= 5 || a <= 5 < b || 5 < a < b;
    }
  }

  function TranslateSource(m: RegMap, src: Source): Operand
    requires ValidMap(m)
  {
    match src
    case Imm(v) => OpImm(v)
    case Reg(r) => OpReg(Phys(m, r))
  }

  // ---------- what lowering may assume and what it must produce ----------

  /** Branches land in the program and frame accesses stay in the frame. */
  predicate Lowerable(insns: seq<Insn>) {
    |insns| > 0 && BranchesInRange(insns) && forall pc :: 0 <= pc < |insns| ==> FrameOk(insns[pc])
  }

  lemma SafeIsLowerable(insns: seq<Insn>)
    requires Safe(insns)
    ensures Lowerable(insns)
  {
    forall pc: nat | pc < |insns|
      ensures FrameOk(insns[pc])
    {
      assert Reachable(insns, pc);
      var p :| PathTo(insns, p, pc);
      assert PathOk(insns, p);
    }
  }

  /** The deepest frame-pointer access below position k. */
  function DeepestAccess(insns: seq<Insn>, k: nat): (d: nat)
    requires Lowerable(insns) && k <= |insns|
    ensures d <= STACK_SIZE
  {
    if k == 0 then 0
    else
      var d := DeepestAccess(insns, k - 1);
      if FrameAccess(insns[k - 1]) && -insns[k - 1].off > d then -insns[k - 1].off else d
  }

  /** The instruction makes a saved frame necessary: it touches the stack, writes a callee-saved
      register or calls a helper. */
  predicate NeedsFrame(i: Insn) {
    || FrameAccess(i)
    || ((i.Alu64? || i.Alu32? || i.LoadImm64? || i.Load? || i.Endian?) && 6 <= i.dst <= 9)
    || i.Call? || i.TailCall?
  }

  predicate AnyNeedsFrame(insns: seq<Insn>, k: nat)
    requires k <= |insns|
  {
    exists pc :: 0 <= pc < k && NeedsFrame(insns[pc])
  }

  function RoundUp16(n: nat): nat { (n + 15) / 16 * 16 }

  function FrameSize(insns: seq<Insn>): (f: u16)
    requires Lowerable(insns)
    ensures f <= STACK_SIZE
  {
    var d := DeepestAccess(insns, |insns|);
    RoundUp16(if AnyNeedsFrame(insns, |insns|) && d < 64 then 64 else d)
  }

  function LowerInsn(insns: seq<Insn>, m: RegMap, frame: u16, pc: nat): (r: seq<IrNode>)
    requires ValidMap(m) && pc < |insns| && BranchesInRange(insns)
    ensures r != []
  {
    assert BranchInRange(insns, pc);
    match insns[pc]
    case Alu64(op, dst, src) => [IrAlu64(op, Phys(m, dst), TranslateSource(m, src))]
    case Alu32(op, dst, src) => [IrAlu32(op, Phys(m, dst), TranslateSource(m, src))]
    case Load(width, dst, base, off) => [IrLoad(width, Phys(m, dst), Phys(m, base), off)]
    case StoreReg(width, dst, value, off) => [IrStore(width, Phys(m, dst), Phys(m, value), off)]
    case StoreImm(width, dst, off, imm) => [IrStoreImm(width, Phys(m, dst), off, imm)]
    case LoadImm64(dst, imm) => [IrLoadImm64(Phys(m, dst), imm)]
    case JmpCond(op, dst, src, _) =>
      [IrBranch(BranchCond(op, Phys(m, dst), TranslateSource(m, src), false), BlockOf(insns, true, Target(insns, pc)))]
    case JmpCond32(op, dst, src, _) =>
      [IrBranch(BranchCond(op, Phys(m, dst), TranslateSource(m, src), true), BlockOf(insns, true, Target(insns, pc)))]
    case Jump(_) => [IrJump(BlockOf(insns, true, Target(insns, pc)))]
    case Call(funcId) => [IrCall(funcId)]
    case TailCall => [IrCall(0), IrRet]
    case Exit => (if frame > 0 then [IrEpilogue(frame)] else []) + [IrRet]
    case Atomic(width, op, dst, value, off) => [IrAtomic(width, op, Phys(m, dst), Phys(m, value), off)]
    case Endian(toBe, width, dst) => [IrEndian(toBe, width, Phys(m, dst))]
  }

  function LowerRange(insns: seq<Insn>, m: RegMap, frame: u16, lo: nat, hi: nat): (r: seq<IrNode>)
    requires ValidMap(m) && lo <= hi <= |insns| && BranchesInRange(insns)
    ensures lo < hi ==> r != []
    decreases hi
  {
    if lo == hi then [] else LowerRange(insns, m, frame, lo, hi - 1) + LowerInsn(insns, m, frame, hi - 1)
  }

  function Opening(frame: u16, b: nat): seq<IrNode> {
    if b == 0 && frame > 0 then [IrPrologue(frame)] else []
  }

  /** Block b: the lowered instructions from its leader to the next, after a prologue if it is the
      entry block of a program with a frame. */
  function LoweredBlock(insns: seq<Insn>, m: RegMap, frame: u16, b: nat): IrBasicBlock
    requires ValidMap(m) && BranchesInRange(insns) && b < |Leaders(insns, true, |insns|)|
  {
    IrBasicBlock(b, Opening(frame, b) +
        LowerRange(insns, m, frame, BlockStart(insns, true, b), BlockEnd(insns, true, b)))
  }

  // ---------- the passes ----------

  method FindLeaders(insns: seq<Insn>) returns (isLeader: seq<bool>)
    requires Lowerable(insns)
    ensures |isLeader| == |insns| && forall i :: 0 <= i < |insns| ==> isLeader[i] == IsLeader(insns, true, i)
  {
    var n := |insns|;
    isLeader := seq(n, _ => false);
    isLeader := isLeader[0 := true];
    for pc := 0 to n
      invariant |isLeader| == n
      invariant forall i :: 0 <= i < n ==> isLeader[i] == LeaderBy(insns, true, pc, i)
    {
      assert BranchInRange(insns, pc);
      ghost var before := isLeader;
      var insn := insns[pc];
      if insn.Jump? || insn.JmpCond? || insn.JmpCond32? {
        var target: int := pc + 1 + insn.off;
        if target < n {
          isLeader := isLeader[target := true];
        }
        if pc + 1 < n {
          isLeader := isLeader[pc + 1 := true];
        }
      } else if insn.Exit? || insn.TailCall? {
        if pc + 1 < n {
          isLeader := isLeader[pc + 1 := true];
        }
      }
      forall i | 0 <= i < n
        ensures isLeader[i] == LeaderBy(insns, true, pc + 1, i)
      {
        LeaderStep(insns, true, pc, i);
        assert before[i] == LeaderBy(insns, true, pc, i);
      }
    }
  }

  method NumberBlocks(insns: seq<Insn>, isLeader: seq<bool>) returns (pcToBb: seq<nat>)
    requires |insns| > 0
    requires |isLeader| == |insns| && forall i :: 0 <= i < |insns| ==> isLeader[i] == IsLeader(insns, true, i)
    ensures |pcToBb| == |insns| && forall pc :: 0 <= pc < |insns| ==> pcToBb[pc] == BlockOf(insns, true, pc)
  {
    pcToBb := seq(|insns|, _ => 0);
    var nextBb := 0;
    for pc := 0 to |insns|
      invariant |pcToBb| == |insns| && nextBb == |Leaders(insns, true, pc)|
      invariant forall q :: 0 <= q < pc ==> pcToBb[q] == BlockOf(insns, true, q)
    {
      if isLeader[pc] {
        pcToBb := pcToBb[pc := nextBb];
        nextBb := nextBb + 1;
      } else if pc > 0 {
        pcToBb := pcToBb[pc := pcToBb[pc - 1]];
      }
    }
  }

  method ComputeFrameSize(insns: seq<Insn>) returns (frameSize: u16)
    requires Lowerable(insns)
    ensures frameSize == FrameSize(insns)
  {
    var needsFrame := false;
    var deepest: nat := 0;
    for pc := 0 to |insns|
      invariant deepest == DeepestAccess(insns, pc) && needsFrame == AnyNeedsFrame(insns, pc)
    {
      assert FrameOk(insns[pc]);
      match insns[pc] {
        case Load(_, dst, base, off) =>
          if base == 10 {
            if -off > deepest { deepest := -off; }
            needsFrame := true;
          }
          if 6 <= dst <= 9 { needsFrame := true; }
        case StoreReg(_, dst, _, off) =>
          if dst == 10 {
            if -off > deepest { deepest := -off; }
            needsFrame := true;
          }
        case StoreImm(_, dst, off, _) =>
          if dst == 10 {
            if -off > deepest { deepest := -off; }
            needsFrame := true;
          }
        case Atomic(_, _, dst, _, off) =>
          if dst == 10 {
            if -off > deepest { deepest := -off; }
            needsFrame := true;
          }
        case Alu64(_, dst, _) => if 6 <= dst <= 9 { needsFrame := true; }
        case Alu32(_, dst, _) => if 6 <= dst <= 9 { needsFrame := true; }
        case LoadImm64(dst, _) => if 6 <= dst <= 9 { needsFrame := true; }
        case Endian(_, _, dst) => if 6 <= dst <= 9 { needsFrame := true; }
        case Call(_) => needsFrame := true;
        case TailCall => needsFrame := true;
        case _ =>
      }
      assert needsFrame == (AnyNeedsFrame(insns, pc) || NeedsFrame(insns[pc]));
    }
    if needsFrame && deepest < 64 {
      deepest := 64;
    }
    frameSize := RoundUp16(deepest);
  }

  method LowerOne(insns: seq<Insn>, m: RegMap, pcToBb: seq<nat>, frameSize: u16, pc: nat) returns (nodes: seq<IrNode>)
    requires ValidMap(m) && Lowerable(insns) && pc < |insns|
    requires |pcToBb| == |insns| && forall q :: 0 <= q < |insns| ==> pcToBb[q] == BlockOf(insns, true, q)
    ensures nodes == LowerInsn(insns, m, frameSize, pc)
  {
    hide BlockOf, Leaders;
    assert BranchInRange(insns, pc);
    match insns[pc] {
      case Alu64(op, dst, src) => nodes := [IrAlu64(op, Phys(m, dst), TranslateSource(m, src))];
      case Alu32(op, dst, src) => nodes := [IrAlu32(op, Phys(m, dst), TranslateSource(m, src))];
      case Load(width, dst, base, off) => nodes := [IrLoad(width, Phys(m, dst), Phys(m, base), off)];
      case StoreReg(width, dst, value, off) => nodes := [IrStore(width, Phys(m, dst), Phys(m, value), off)];
      case StoreImm(width, dst, off, imm) => nodes := [IrStoreImm(width, Phys(m, dst), off, imm)];
      case LoadImm64(dst, imm) => nodes := [IrLoadImm64(Phys(m, dst), imm)];
      case JmpCond(op, dst, src, off) =>
        var target := pc + 1 + off;
        nodes := [IrBranch(BranchCond(op, Phys(m, dst), TranslateSource(m, src), false), pcToBb[target])];
      case JmpCond32(op, dst, src, off) =>
        var target := pc + 1 + off;
        nodes := [IrBranch(BranchCond(op, Phys(m, dst), TranslateSource(m, src), true), pcToBb[target])];
      case Jump(off) =>
        var target := pc + 1 + off;
        nodes := [IrJump(pcToBb[target])];
      case Call(funcId) => nodes := [IrCall(funcId)];
      case TailCall => nodes := [IrCall(0), IrRet];
      case Exit =>
        nodes := [];
        if frameSize > 0 {
          nodes := nodes + [IrEpilogue(frameSize)];
        }
        nodes := nodes + [IrRet];
      case Atomic(width, op, dst, value, off) => nodes := [IrAtomic(width, op, Phys(m, dst), Phys(m, value), off)];
      case Endian(toBe, width, dst) => nodes := [IrEndian(toBe, width, Phys(m, dst))];
    }
  }

  /** The blocks finished and the nodes collected when instruction k comes up. */
  ghost predicate Progress(insns: seq<Insn>, m: RegMap, frame: u16, k: nat, blocks: seq<IrBasicBlock>,
          current: seq<IrNode>)
    requires ValidMap(m) && Lowerable(insns) && k <= |insns|
  {
    if k == 0 then blocks == [] && current == []
    else
      && |blocks| + 1 == |Leaders(insns, true, k)| <= |Leaders(insns, true, |insns|)|
      && BlockStart(insns, true, |blocks|) < k
      && (forall b :: 0 <= b < |blocks| ==> blocks[b] == LoweredBlock(insns, m, frame, b))
      && current == Opening(frame, |blocks|) + LowerRange(insns, m, frame, BlockStart(insns, true, |blocks|), k)
  }

  lemma LeadersKnown(insns: seq<Insn>, k: nat)
    requires 0 < k <= |insns|
    ensures 0 < |Leaders(insns, true, k)| <= |Leaders(insns, true, |insns|)|
    ensures BlockStart(insns, true, |Leaders(insns, true, k)| - 1)
         == Leaders(insns, true, k)[|Leaders(insns, true, k)| - 1]
  {
    LeadersStartAtZero(insns, true, k);
    LeadersPrefix(insns, true, k, |insns|);
  }

  /** At a leader the collected nodes are a finished block. */
  lemma BlockFinished(insns: seq<Insn>, m: RegMap, frame: u16, k: nat, blocks: seq<IrBasicBlock>, current: seq<IrNode>)
    requires ValidMap(m) && Lowerable(insns) && 0 < k < |insns| && IsLeader(insns, true, k)
    requires Progress(insns, m, frame, k, blocks, current)
    ensures current != [] && IrBasicBlock(|blocks|, current) == LoweredBlock(insns, m, frame, |blocks|)
  {
    LeadersKnown(insns, k);
    LeadersKnown(insns, k + 1);
    LeadersPrefix(insns, true, k + 1, |insns|);
    assert BlockEnd(insns, true, |blocks|) == k;
  }

  lemma ProgressInBlock(insns: seq<Insn>, m: RegMap, frame: u16, k: nat, blocks: seq<IrBasicBlock>,
          current: seq<IrNode>)
    requires ValidMap(m) && Lowerable(insns) && 0 < k < |insns| && Progress(insns, m, frame, k, blocks, current)
    requires !IsLeader(insns, true, k)
    ensures Progress(insns, m, frame, k + 1, blocks, current + LowerInsn(insns, m, frame, k))
  {
    hide LowerInsn, IsLeader, LoweredBlock;
    LeadersKnown(insns, k + 1);
    var lo := BlockStart(insns, true, |blocks|);
    assert LowerRange(insns, m, frame, lo, k + 1) == LowerRange(insns, m, frame, lo, k) + LowerInsn(insns, m, frame, k);
  }

  lemma RangeOfOne(insns: seq<Insn>, m: RegMap, frame: u16, k: nat)
    requires ValidMap(m) && Lowerable(insns) && k < |insns|
    ensures LowerRange(insns, m, frame, k, k + 1) == LowerInsn(insns, m, frame, k)
  {
    hide LowerInsn;
    assert LowerRange(insns, m, frame, k, k) == [];
  }

  lemma ProgressNewBlock(insns: seq<Insn>, m: RegMap, frame: u16, k: nat, blocks: seq<IrBasicBlock>,
          current: seq<IrNode>)
    requires ValidMap(m) && Lowerable(insns) && k < |insns| && Progress(insns, m, frame, k, blocks, current)
    requires IsLeader(insns, true, k)
    ensures var done := if k == 0 then [] else blocks + [IrBasicBlock(|blocks|, current)];
            Progress(insns, m, frame, k + 1, done, Opening(frame, |done|) + LowerInsn(insns, m, frame, k))
  {
    hide LowerInsn, IsLeader, LoweredBlock, LowerRange, Lowerable, BlockEnd;
    if k > 0 {
      BlockFinished(insns, m, frame, k, blocks, current);
    }
    LeadersKnown(insns, k + 1);
    RangeOfOne(insns, m, frame, k);
  }

  /** Lowers a program in one pass. Block b of the result has id b and holds exactly the lowered
      instructions between the b-th leader and the next. */
  method LowerToIr(insns: seq<Insn>, m: RegMap) returns (ir: IrProgram)
    requires ValidMap(m) && Lowerable(insns)
    ensures ir.frameSize == FrameSize(insns)
    ensures |ir.blocks| == |Leaders(insns, true, |insns|)|
    ensures forall b :: 0 <= b < |ir.blocks| ==> ir.blocks[b] == LoweredBlock(insns, m, ir.frameSize, b)
  {
    hide Lowerable, BranchesInRange, FrameSize, Progress, LowerInsn, IsLeader, Leaders, LoweredBlock, BlockOf;
    LowerableParts(insns);
    var isLeader := FindLeaders(insns);
    var pcToBb := NumberBlocks(insns, isLeader);
    var frameSize := ComputeFrameSize(insns);
    var blocks: seq<IrBasicBlock> := [];
    var current: seq<IrNode> := [];
    var bbId := 0;
    NoProgressYet(insns, m, frameSize);
    for pc := 0 to |insns|
      invariant bbId == |blocks| && Progress(insns, m, frameSize, pc, blocks, current)
    {
      ghost var blocks0, current0 := blocks, current;
      if isLeader[pc] && (current != [] || pc == 0) {
        if current != [] {
          blocks := blocks + [IrBasicBlock(bbId, current)];
          current := [];
          bbId := bbId + 1;
        }
        if pc == 0 && frameSize > 0 {
          current := current + [IrPrologue(frameSize)];
        }
      }
      var nodes := LowerOne(insns, m, pcToBb, frameSize, pc);
      CurrentNonempty(insns, m, frameSize, pc, blocks0, current0);
      current := current + nodes;
      if isLeader[pc] {
        ProgressNewBlock(insns, m, frameSize, pc, blocks0, current0);
        assert current == Opening(frameSize, |blocks|) + nodes;
      } else {
        ProgressInBlock(insns, m, frameSize, pc, blocks0, current0);
      }
    }
    CurrentNonempty(insns, m, frameSize, |insns|, blocks, current);
    if current != [] {
      blocks := blocks + [IrBasicBlock(bbId, current)];
    }
    ProgressComplete(insns, m, frameSize, blocks[..|blocks| - 1], current);
    ir := IrProgram(blocks, frameSize);
  }

  lemma LowerableParts(insns: seq<Insn>)
    requires Lowerable(insns)
    ensures |insns| > 0 && BranchesInRange(insns)
  {}

  lemma NoProgressYet(insns: seq<Insn>, m: RegMap, frame: u16)
    requires ValidMap(m) && Lowerable(insns)
    ensures Progress(insns, m, frame, 0, [], [])
  {}

  lemma CurrentNonempty(insns: seq<Insn>, m: RegMap, frame: u16, k: nat, blocks: seq<IrBasicBlock>,
          current: seq<IrNode>)
    requires ValidMap(m) && Lowerable(insns) && k <= |insns| && Progress(insns, m, frame, k, blocks, current)
    ensures if k == 0 then blocks == [] && current == [] else current != []
    ensures k < |insns| && k == 0 ==> IsLeader(insns, true, k)
  {}

  lemma ProgressComplete(insns: seq<Insn>, m: RegMap, frame: u16, blocks: seq<IrBasicBlock>, current: seq<IrNode>)
    requires ValidMap(m) && Lowerable(insns) && Progress(insns, m, frame, |insns|, blocks, current)
    ensures var done := blocks + [IrBasicBlock(|blocks|, current)];
            && |done| == |Leaders(insns, true, |insns|)|
            && forall b :: 0 <= b < |done| ==> done[b] == LoweredBlock(insns, m, frame, b)
  {}
}
