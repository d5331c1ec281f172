/** Laws of lowering that do not rest on its own definitions: where registers live, that the nodes of an
    instruction give the instruction back, and when a program gets a frame. */
module LoweringLaws {
  import opened Isa
  import opened Flow
  import opened Safety
  import opened Ir
  import opened Runs
  import opened Lowering
  import opened LoweringMeaning
  import opened Compiling

  // ---------- where registers live ----------

  /** R0 in X7, the arguments R1 to R5 in X0 to X4, R6 to R9 in X19 to X22, R10 in X25. */
  lemma Aarch64Homes()
    ensures ValidMap(Aarch64RegMap())
    ensures var m := Aarch64RegMap();
            && Phys(m, 0).n == 7
            && Phys(m, 1).n == 0 && Phys(m, 2).n == 1 && Phys(m, 3).n == 2 && Phys(m, 4).n == 3 && Phys(m, 5).n == 4
            && Phys(m, 6).n == 19 && Phys(m, 7).n == 20 && Phys(m, 8).n == 21 && Phys(m, 9).n == 22
            && Phys(m, 10).n == 25
  {}

  /** R0 in a0, the arguments R1 to R5 in a1 to a5, R6 to R9 in s2 to s5, R10 in s6. */
  lemma Riscv64Homes()
    ensures ValidMap(Riscv64RegMap())
    ensures var m := Riscv64RegMap();
            && Phys(m, 0).n == 10 && Phys(m, 1).n == 11 && Phys(m, 2).n == 12 && Phys(m, 3).n == 13
            && Phys(m, 4).n == 14 && Phys(m, 5).n == 15
            && Phys(m, 6).n == 18 && Phys(m, 7).n == 19 && Phys(m, 8).n == 20 && Phys(m, 9).n == 21
            && Phys(m, 10).n == 22
  {}

  // ---------- from nodes back to instructions ----------

  /** The first eBPF register, from k on, that lives in p. */
  function HomeFrom(m: RegMap, p: PhysReg, k: nat): BpfReg
    requires ValidMap(m)
    decreases NUM_REGS - k
  {
    if k >= 10 then 10 else if m.table[k] == p then k else HomeFrom(m, p, k + 1)
  }

  function RaiseSource(m: RegMap, o: Operand): Source
    requires ValidMap(m)
  {
    match o
    case OpReg(p) => Reg(HomeFrom(m, p, 0))
    case OpImm(v) => Imm(v)
  }

  /** The offset of a branch at pc to the start of block b. */
  function RaiseOffset(insns: seq<Insn>, pc: nat, b: nat): i16 {
    var starts := Leaders(insns, true, |insns|);
    var off := if b < |starts| then starts[b] - pc - 1 else 0;
    if -0x8000 <= off < 0x8000 then off else 0
  }

  /** The instruction at pc that lowers to these nodes. */
  function Raise(insns: seq<Insn>, m: RegMap, pc: nat, nodes: seq<IrNode>): Insn
    requires ValidMap(m) && nodes != []
  {
    match nodes[0]
    case IrAlu64(op, dst, src) => Alu64(op, HomeFrom(m, dst, 0), RaiseSource(m, src))
    case IrAlu32(op, dst, src) => Alu32(op, HomeFrom(m, dst, 0), RaiseSource(m, src))
    case IrLoad(width, dst, base, off) => Load(width, HomeFrom(m, dst, 0), HomeFrom(m, base, 0), off)
    case IrStore(width, base, value, off) => StoreReg(width, HomeFrom(m, base, 0), HomeFrom(m, value, 0), off)
    case IrStoreImm(width, base, off, imm) => StoreImm(width, HomeFrom(m, base, 0), off, imm)
    case IrLoadImm64(dst, imm) => LoadImm64(HomeFrom(m, dst, 0), imm)
    case IrBranch(c, b) =>
      var lhs, rhs, off := HomeFrom(m, c.lhs, 0), RaiseSource(m, c.rhs), RaiseOffset(insns, pc, b);
      if c.is32bit then JmpCond32(c.op, lhs, rhs, off) else JmpCond(c.op, lhs, rhs, off)
    case IrJump(b) => Jump(RaiseOffset(insns, pc, b))
    case IrCall(funcId) => if |nodes| == 1 then Call(funcId) else TailCall
    case IrAtomic(width, op, base, value, off) => Atomic(width, op, HomeFrom(m, base, 0), HomeFrom(m, value, 0), off)
    case IrEndian(toBe, width, dst) => Endian(toBe, width, HomeFrom(m, dst, 0))
    case _ => Exit
  }

  lemma {:induction false} HomeOfPhys(m: RegMap, r: BpfReg, k: nat)
    requires ValidMap(m) && Injective(m) && k <= r
    ensures HomeFrom(m, Phys(m, r), k) == r
    decreases r - k
  {
    if k < r {
      var other: BpfReg := k;
      assert Phys(m, other) != Phys(m, r);
      HomeOfPhys(m, r, k + 1);
    }
  }

  lemma SourceBack(m: RegMap, src: Source)
    requires ValidMap(m) && Injective(m)
    ensures RaiseSource(m, TranslateSource(m, src)) == src
  {
    hide Injective;
    if src.Reg? {
      HomeOfPhys(m, src.reg, 0);
    }
  }

  lemma OffsetBack(insns: seq<Insn>, pc: nat)
    requires BranchesInRange(insns) && pc < |insns| && IsBranch(insns[pc])
    ensures 0 <= Target(insns, pc) < |insns|
    ensures RaiseOffset(insns, pc, BlockOf(insns, true, Target(insns, pc))) == insns[pc].off
  {
    TargetsAreBlockStarts(insns, pc);
    hide BlockOf, Leaders, BranchesInRange;
  }

  /** No information is lost or altered: the nodes of an instruction, read back through the register
      map and the block starts, are the instruction. */
  lemma LoweringRoundTrip(insns: seq<Insn>, m: RegMap, frame: u16, pc: nat)
    requires ValidMap(m) && Injective(m) && BranchesInRange(insns) && pc < |insns|
    ensures Raise(insns, m, pc, LowerInsn(insns, m, frame, pc)) == insns[pc]
  {
    forall r: BpfReg
      ensures HomeFrom(m, Phys(m, r), 0) == r
    {
      HomeOfPhys(m, r, 0);
    }
    forall src: Source
      ensures RaiseSource(m, TranslateSource(m, src)) == src
    {
      SourceBack(m, src);
    }
    if IsBranch(insns[pc]) {
      OffsetBack(insns, pc);
    }
    hide Injective, BranchesInRange, BlockOf, RaiseOffset, HomeFrom, Phys, TranslateSource, RaiseSource,
         Leaders, Target;
  }

  // ---------- frames ----------

  /** Some instruction calls, touches the stack, or sets one of R6 to R9. */
  predicate Disturbs(i: Insn) {
    i.Call? || i.TailCall? || TouchesFrame(i) || Sets(i, 6) || Sets(i, 7) || Sets(i, 8) || Sets(i, 9)
  }

  lemma DisturbsIs(i: Insn)
    ensures Disturbs(i) <==> NeedsFrame(i)
  {}

  /** The frame covers every access, is a multiple of 16, and no smaller frame of at least 64 bytes
      would do; there is one exactly if some instruction calls, touches the stack or sets R6 to R9. */
  lemma FrameExactly(insns: seq<Insn>)
    requires Lowerable(insns)
    ensures var f := FrameSize(insns);
            && (f == 0 <==> forall pc: nat :: pc < |insns| ==> !Disturbs(insns[pc]))
            && (f != 0 ==> f >= 64 && f % 16 == 0)
            && (forall pc: nat :: pc < |insns| && TouchesFrame(insns[pc]) ==> f + insns[pc].off >= 0)
            && (f > 64 ==> exists pc: nat :: pc < |insns| && TouchesFrame(insns[pc]) && f - 16 + insns[pc].off < 0)
  {
    FrameDiscipline(insns);
    forall pc: nat | pc < |insns|
      ensures Disturbs(insns[pc]) <==> NeedsFrame(insns[pc])
      ensures TouchesFrame(insns[pc]) <==> FrameAccess(insns[pc])
    {
      DisturbsIs(insns[pc]);
      UsesIsReads(insns[pc], 0);
    }
    if FrameSize(insns) > 64 {
      var pc := DeepestSome(insns, |insns|);
      assert TouchesFrame(insns[pc]);
    }
    hide Disturbs, NeedsFrame, TouchesFrame, FrameAccess;
  }

  lemma {:induction false} DeepestSome(insns: seq<Insn>, k: nat) returns (pc: nat)
    requires Lowerable(insns) && k <= |insns| && DeepestAccess(insns, k) > 0
    ensures pc < k && FrameAccess(insns[pc]) && -insns[pc].off == DeepestAccess(insns, k)
  {
    hide Lowerable;
    if FrameAccess(insns[k - 1]) && -insns[k - 1].off > DeepestAccess(insns, k - 1) {
      pc := k - 1;
    } else {
      pc := DeepestSome(insns, k - 1);
    }
  }

  predicate Calls(insns: seq<Insn>) { exists pc :: 0 <= pc < |insns| && (insns[pc].Call? || insns[pc].TailCall?) }

  /** A program with a helper call saves the return address: it has a frame of at least 64 bytes, its
      first node behind the first label opens it, and every exit closes a frame before it returns. */
  lemma CallsAreFramed(insns: seq<Insn>, m: RegMap)
    requires ValidMap(m) && Lowerable(insns) && Calls(insns)
    ensures var f, nodes := FrameSize(insns), Nodes(insns, m);
            && f >= 64 && |nodes| > 2 && nodes[0] == IrLabel(0) && nodes[1] == IrPrologue(f)
            && |Leaders(insns, true, |insns|)| > 0 && BranchesInRange(insns)
            && LoweredBlock(insns, m, f, 0).nodes != [] && LoweredBlock(insns, m, f, 0).nodes[0] == IrPrologue(f)
            && (forall pc: nat :: pc < |insns| && insns[pc] == Exit ==>
                  LowerInsn(insns, m, f, pc) == [IrEpilogue(f), IrRet])
            && (NoTailCall(insns) ==> AllClosed(nodes, f))
  {
    FrameExactly(insns);
    LowerableParts(insns);
    var pc: nat :| pc < |insns| && (insns[pc].Call? || insns[pc].TailCall?);
    assert Disturbs(insns[pc]);
    hide FrameSize, Leaders, Disturbs, TouchesFrame, LowerInsn, LoweredBlock, FlatTo, Lowerable, BranchesInRange;
    FirstChunk(insns, m, FrameSize(insns), |insns|);
    BlockZeroOpens(insns, m, FrameSize(insns));
    ExitsClose(insns, m, FrameSize(insns));
    hide AllClosed, NoTailCall;
    if NoTailCall(insns) {
      ReturnsClosed(insns, m, FrameSize(insns), |insns|);
    }
  }

  lemma BlockZeroOpens(insns: seq<Insn>, m: RegMap, f: u16)
    requires ValidMap(m) && |insns| > 0 && BranchesInRange(insns) && f > 0
    ensures |Leaders(insns, true, |insns|)| > 0 && LoweredBlock(insns, m, f, 0).nodes != []
    ensures LoweredBlock(insns, m, f, 0).nodes[0] == IrPrologue(f)
  {
    LeadersStartAtZero(insns, true, |insns|);
    hide Leaders, LowerRange, BranchesInRange;
  }

  lemma ExitsClose(insns: seq<Insn>, m: RegMap, f: u16)
    requires ValidMap(m) && BranchesInRange(insns) && f > 0
    ensures forall pc: nat :: pc < |insns| && insns[pc] == Exit ==> LowerInsn(insns, m, f, pc) == [IrEpilogue(f), IrRet]
  {
    hide BlockOf, BranchesInRange;
  }

  lemma {:induction false} FirstChunk(insns: seq<Insn>, m: RegMap, frame: u16, k: nat)
    requires ValidMap(m) && BranchesInRange(insns) && 0 < k <= |insns| && frame > 0
    ensures var nodes := FlatTo(insns, m, frame, k);
            |nodes| > 2 && nodes[0] == IrLabel(0) && nodes[1] == IrPrologue(frame)
  {
    if k == 1 {
      FirstIsLabelled(insns, m, frame);
    } else {
      FirstChunk(insns, m, frame, k - 1);
    }
    hide Chunk;
  }

  lemma FirstIsLabelled(insns: seq<Insn>, m: RegMap, frame: u16)
    requires ValidMap(m) && BranchesInRange(insns) && |insns| > 0 && frame > 0
    ensures FlatTo(insns, m, frame, 1) == Chunk(insns, m, frame, 0)
    ensures var c := Chunk(insns, m, frame, 0); |c| > 2 && c[0] == IrLabel(0) && c[1] == IrPrologue(frame)
  {
    assert FlatTo(insns, m, frame, 0) == [];
    LeadersStartAtZero(insns, true, |insns|);
    assert Leaders(insns, true, 0) == [];
    hide LowerInsn;
  }

  predicate ClosedReturn(nodes: seq<IrNode>, i: nat, f: u16) {
    0 < i < |nodes| && nodes[i - 1] == IrEpilogue(f)
  }

  /** Every return stands behind an epilogue. */
  predicate AllClosed(nodes: seq<IrNode>, f: u16) {
    forall i :: 0 <= i < |nodes| && nodes[i].IrRet? ==> ClosedReturn(nodes, i, f)
  }

  lemma ChunkClosed(insns: seq<Insn>, m: RegMap, frame: u16, pc: nat)
    requires ValidMap(m) && BranchesInRange(insns) && pc < |insns| && frame > 0 && !insns[pc].TailCall?
    ensures AllClosed(Chunk(insns, m, frame, pc), frame)
  {
    hide BlockOf, IsLeader;
  }

  lemma AppendClosed(before: seq<IrNode>, c: seq<IrNode>, f: u16)
    requires AllClosed(before, f) && AllClosed(c, f)
    ensures AllClosed(before + c, f)
  {
    var nodes := before + c;
    forall i: nat | i < |nodes| && nodes[i].IrRet?
      ensures ClosedReturn(nodes, i, f)
    {
      if i < |before| {
        assert before[i].IrRet? && ClosedReturn(before, i, f);
      } else {
        assert c[i - |before|].IrRet? && ClosedReturn(c, i - |before|, f);
      }
    }
  }

  /** In a program with a frame and without tail calls, as the decoder yields it, every return stands
      behind an epilogue. */
  lemma {:induction false} ReturnsClosed(insns: seq<Insn>, m: RegMap, frame: u16, k: nat)
    requires ValidMap(m) && BranchesInRange(insns) && k <= |insns| && frame > 0 && NoTailCall(insns)
    ensures AllClosed(FlatTo(insns, m, frame, k), frame)
  {
    hide *;
    if k > 0 {
      NoTailCallAt(insns, k - 1);
      ReturnsClosed(insns, m, frame, k - 1);
      ChunkClosed(insns, m, frame, k - 1);
      FlatSnoc(insns, m, frame, k);
      AppendClosed(FlatTo(insns, m, frame, k - 1), Chunk(insns, m, frame, k - 1), frame);
    } else {
      FlatNothing(insns, m, frame);
      NothingClosed(frame);
    }
  }

  lemma NoTailCallAt(insns: seq<Insn>, pc: nat)
    requires NoTailCall(insns) && pc < |insns|
    ensures !insns[pc].TailCall?
  {}

  lemma NothingClosed(f: u16)
    ensures AllClosed([], f)
  {}
}
