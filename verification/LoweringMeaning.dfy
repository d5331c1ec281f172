/** Lowering preserves layout and meaning. */
module LoweringMeaning {
  import opened Isa
  import opened Flow
  import opened Interpreter
  import opened Ir
  import opened Frames
  import opened Lowering
  import opened Runs

  // ---------- layout ----------

  /** Without tail calls the verifier and lowering find the same leaders. */
  lemma {:induction false} LeaderPassesAgree(insns: seq<Insn>, k: nat)
    requires k <= |insns| && NoTailCall(insns)
    ensures Leaders(insns, true, k) == Leaders(insns, false, k)
  {
    if k > 0 {
      LeaderPassesAgree(insns, k - 1);
      assert k > 1 ==> EndsBlock(insns[k - 2], true) == EndsBlock(insns[k - 2], false);
    }
  }

  /** Every branch target is the start of the block that the branch names. */
  lemma TargetsAreBlockStarts(insns: seq<Insn>, pc: nat)
    requires BranchesInRange(insns) && pc < |insns| && IsBranch(insns[pc])
    ensures var t := Target(insns, pc);
            && 0 <= t < |insns| && BlockOf(insns, true, t) < |Leaders(insns, true, |insns|)|
            && BlockStart(insns, true, BlockOf(insns, true, t)) == t
  {
    assert BranchInRange(insns, pc);
    var t := Target(insns, pc);
    assert JumpsTo(insns, pc, t);
    BlockBounds(insns, true, t);
  }

  predicate Transfers(n: IrNode) { n.IrBranch? || n.IrJump? || n.IrRet? }

  /** Control leaves a lowered block only with its last instruction. */
  lemma TransfersOnlyAtBlockEnds(insns: seq<Insn>, m: RegMap, frame: u16, b: nat, pc: nat)
    requires ValidMap(m) && BranchesInRange(insns) && b < |Leaders(insns, true, |insns|)|
    requires BlockStart(insns, true, b) <= pc < BlockEnd(insns, true, b) - 1
    ensures forall n :: n in LowerInsn(insns, m, frame, pc) ==> !Transfers(n)
  {
    NoLeaderBetween(insns, true, b, pc + 1);
    assert !EndsBlock(insns[pc], true);
  }

  lemma {:induction false} DeepestCoversAll(insns: seq<Insn>, k: nat, pc: nat)
    requires Lowerable(insns) && pc < k <= |insns| && FrameAccess(insns[pc])
    ensures -insns[pc].off <= DeepestAccess(insns, k)
  {
    if pc < k - 1 {
      DeepestCoversAll(insns, k - 1, pc);
    }
  }

  /** The frame is empty, or a multiple of 16 between 64 and 512 that covers every frame-pointer
      access; it is empty only if no instruction needs one. */
  lemma FrameDiscipline(insns: seq<Insn>)
    requires Lowerable(insns)
    ensures var f := FrameSize(insns);
            && f % 16 == 0 && (f == 0 || 64 <= f <= 512)
            && (forall pc :: 0 <= pc < |insns| && FrameAccess(insns[pc]) ==> -insns[pc].off <= f)
            && (f == 0 <==> forall pc :: 0 <= pc < |insns| ==> !NeedsFrame(insns[pc]))
  {
    var d := DeepestAccess(insns, |insns|);
    forall pc | 0 <= pc < |insns| && FrameAccess(insns[pc])
      ensures 1 <= -insns[pc].off <= d && AnyNeedsFrame(insns, |insns|)
    {
      assert FrameOk(insns[pc]);
      DeepestCoversAll(insns, |insns|, pc);
      assert NeedsFrame(insns[pc]);
    }
    if d > 0 {
      DeepestIsAccess(insns, |insns|);
    }
  }

  lemma {:induction false} DeepestIsAccess(insns: seq<Insn>, k: nat)
    requires Lowerable(insns) && k <= |insns| && DeepestAccess(insns, k) > 0
    ensures AnyNeedsFrame(insns, k)
  {
    if FrameAccess(insns[k - 1]) {
      assert NeedsFrame(insns[k - 1]);
    } else {
      DeepestIsAccess(insns, k - 1);
      var pc :| 0 <= pc < k - 1 && NeedsFrame(insns[pc]);
    }
  }

  // ---------- one chunk of nodes per instruction ----------

  /** The nodes of instruction pc as the emitter sees them: label and prologue, if any, first. */
  function Chunk(insns: seq<Insn>, m: RegMap, frame: u16, pc: nat): (c: seq<IrNode>)
    requires ValidMap(m) && BranchesInRange(insns) && pc < |insns|
    ensures c != []
  {
    (if IsLeader(insns, true, pc) then [IrLabel(BlockOf(insns, true, pc))] else [])
    + (if pc == 0 && frame > 0 then [IrPrologue(frame)] else [])
    + LowerInsn(insns, m, frame, pc)
  }

  function FlatTo(insns: seq<Insn>, m: RegMap, frame: u16, k: nat): seq<IrNode>
    requires ValidMap(m) && BranchesInRange(insns) && k <= |insns|
  {
    if k == 0 then [] else FlatTo(insns, m, frame, k - 1) + Chunk(insns, m, frame, k - 1)
  }

  lemma ChunkAtStart(insns: seq<Insn>, m: RegMap, frame: u16, b: nat)
    requires ValidMap(m) && BranchesInRange(insns) && b < |Leaders(insns, true, |insns|)|
    ensures Chunk(insns, m, frame, BlockStart(insns, true, b))
         == [IrLabel(b)] + (Opening(frame, b) + LowerInsn(insns, m, frame, BlockStart(insns, true, b)))
  {
    var lo := BlockStart(insns, true, b);
    BlockIs(insns, true, b, lo);
    LeaderAtStart(insns, b);
  }

  lemma ChunkInside(insns: seq<Insn>, m: RegMap, frame: u16, b: nat, pc: nat)
    requires ValidMap(m) && BranchesInRange(insns) && b < |Leaders(insns, true, |insns|)|
    requires BlockStart(insns, true, b) < pc < BlockEnd(insns, true, b)
    ensures Chunk(insns, m, frame, pc) == LowerInsn(insns, m, frame, pc)
  {
    NoLeaderBetween(insns, true, b, pc);
  }

  lemma {:induction false} FlatWithinBlock(insns: seq<Insn>, m: RegMap, frame: u16, b: nat, hi: nat)
    requires ValidMap(m) && BranchesInRange(insns) && b < |Leaders(insns, true, |insns|)|
    requires BlockStart(insns, true, b) < hi <= BlockEnd(insns, true, b)
    ensures FlatTo(insns, m, frame, hi)
         == FlatTo(insns, m, frame, BlockStart(insns, true, b))
            + ([IrLabel(b)] + (Opening(frame, b) + LowerRange(insns, m, frame, BlockStart(insns, true, b), hi)))
    decreases hi
  {
    hide Chunk, LowerInsn, BlockStart, BlockEnd, Opening, BranchesInRange;
    var lo := BlockStart(insns, true, b);
    if hi == lo + 1 {
      ChunkAtStart(insns, m, frame, b);
      assert LowerRange(insns, m, frame, lo, lo) == [];
      assert LowerRange(insns, m, frame, lo, hi) == LowerInsn(insns, m, frame, lo);
    } else {
      FlatWithinBlock(insns, m, frame, b, hi - 1);
      ChunkInside(insns, m, frame, b, hi - 1);
      Reassociate(FlatTo(insns, m, frame, lo), [IrLabel(b)], Opening(frame, b),
          LowerRange(insns, m, frame, lo, hi - 1), LowerInsn(insns, m, frame, hi - 1));
    }
  }

  lemma Reassociate<T>(a: seq<T>, b: seq<T>, c: seq<T>, d: seq<T>, e: seq<T>)
    ensures a + (b + (c + d)) + e == a + (b + (c + (d + e)))
  {}

  lemma LeaderAtStart(insns: seq<Insn>, b: nat)
    requires b < |Leaders(insns, true, |insns|)|
    ensures IsLeader(insns, true, BlockStart(insns, true, b))
    ensures BlockStart(insns, true, b) == 0 <==> b == 0
  {
    var starts := Leaders(insns, true, |insns|);
    LeadersExact(insns, true, |insns|, starts[b]);
    LeadersStartAtZero(insns, true, |insns|);
    assert b > 0 ==> starts[0] < starts[b];
  }

  /** The flattened program is the concatenation of the chunks: blocks come in program order. */
  lemma {:induction false} FlattenIsChunks(insns: seq<Insn>, m: RegMap, frame: u16, blocks: seq<IrBasicBlock>, b: nat)
    requires ValidMap(m) && Lowerable(insns) && b <= |blocks| == |Leaders(insns, true, |insns|)|
    requires forall c :: 0 <= c < |blocks| ==> blocks[c] == LoweredBlock(insns, m, frame, c)
    ensures Flatten(blocks[..b])
         == FlatTo(insns, m, frame, if b < |blocks| then BlockStart(insns, true, b) else |insns|)
  {
    if b == 0 {
      LeadersStartAtZero(insns, true, |insns|);
    } else {
      FlattenIsChunks(insns, m, frame, blocks, b - 1);
      assert blocks[..b][..b - 1] == blocks[..b - 1];
      FlatWithinBlock(insns, m, frame, b - 1, BlockEnd(insns, true, b - 1));
    }
  }

  // ---------- labels ----------

  lemma {:induction false} FindLabelAppend(a: seq<IrNode>, b: seq<IrNode>, bb: nat)
    ensures FindLabel(a + b, bb) == match FindLabel(b, bb)
                                    case Some(i) => Some(|a| + i)
                                    case None => FindLabel(a, bb)
    decreases |b|
  {
    if b == [] {
      assert a + b == a;
    } else {
      var b' := b[..|b| - 1];
      FindLabelAppend(a, b', bb);
      assert (a + b)[..|a + b| - 1] == a + b';
    }
  }

  lemma {:induction false} NoLabel(nodes: seq<IrNode>, bb: nat)
    requires forall i :: 0 <= i < |nodes| ==> nodes[i] != IrLabel(bb)
    ensures FindLabel(nodes, bb) == None
  {
    if nodes != [] {
      NoLabel(nodes[..|nodes| - 1], bb);
    }
  }

  lemma LabelFirst(bb: nat, other: nat, tail: seq<IrNode>)
    requires FindLabel(tail, bb) == None
    ensures FindLabel([IrLabel(other)] + tail, bb) == if other == bb then Some(0) else None
  {
    FindLabelAppend([IrLabel(other)], tail, bb);
    assert [IrLabel(other)][..0] == [];
  }

  lemma LowerInsnNoLabel(insns: seq<Insn>, m: RegMap, frame: u16, pc: nat, bb: nat)
    requires ValidMap(m) && BranchesInRange(insns) && pc < |insns|
    ensures forall i :: 0 <= i < |LowerInsn(insns, m, frame, pc)| ==> LowerInsn(insns, m, frame, pc)[i] != IrLabel(bb)
  {}

  lemma LowerInsnShape(insns: seq<Insn>, m: RegMap, frame: u16, pc: nat)
    requires ValidMap(m) && BranchesInRange(insns) && pc < |insns|
    ensures LowerInsn(insns, m, frame, pc) != [] && forall n :: n in LowerInsn(insns, m, frame, pc) ==> !n.IrLabel?
  {}

  /** Only the first node of a chunk can be a label, and it is not the only one. */
  lemma ChunkShape(insns: seq<Insn>, m: RegMap, frame: u16, pc: nat)
    requires ValidMap(m) && BranchesInRange(insns) && pc < |insns|
    ensures var c := Chunk(insns, m, frame, pc);
            !c[|c| - 1].IrLabel? && forall i :: 0 < i < |c| ==> !c[i].IrLabel?
  {
    LowerInsnShape(insns, m, frame, pc);
    hide LowerInsn, IsLeader, BlockOf;
  }

  predicate Apart(nodes: seq<IrNode>) {
    && (forall i :: 0 < i < |nodes| && nodes[i].IrLabel? ==> !nodes[i - 1].IrLabel?)
    && (nodes != [] ==> !nodes[|nodes| - 1].IrLabel?)
  }

  lemma AppendApart(before: seq<IrNode>, c: seq<IrNode>)
    requires Apart(before) && c != [] && !c[|c| - 1].IrLabel? && forall i :: 0 < i < |c| ==> !c[i].IrLabel?
    ensures Apart(before + c)
  {}

  /** No label follows another: blocks are not empty. */
  lemma {:induction false} LabelsApart(insns: seq<Insn>, m: RegMap, frame: u16, k: nat)
    requires ValidMap(m) && BranchesInRange(insns) && k <= |insns|
    ensures Apart(FlatTo(insns, m, frame, k))
  {
    hide *;
    if k > 0 {
      LabelsApart(insns, m, frame, k - 1);
      ChunkShape(insns, m, frame, k - 1);
      AppendApart(FlatTo(insns, m, frame, k - 1), Chunk(insns, m, frame, k - 1));
      FlatSnoc(insns, m, frame, k);
    } else {
      FlatNothing(insns, m, frame);
    }
  }

  lemma FlatSnoc(insns: seq<Insn>, m: RegMap, frame: u16, k: nat)
    requires ValidMap(m) && BranchesInRange(insns) && 0 < k <= |insns|
    ensures FlatTo(insns, m, frame, k) == FlatTo(insns, m, frame, k - 1) + Chunk(insns, m, frame, k - 1)
  {}

  lemma FlatNothing(insns: seq<Insn>, m: RegMap, frame: u16)
    requires ValidMap(m) && BranchesInRange(insns)
    ensures FlatTo(insns, m, frame, 0) == [] && Apart([]) && EpiloguesReturn([])
  {}

  lemma LowerInsnReturns(insns: seq<Insn>, m: RegMap, frame: u16, pc: nat)
    requires ValidMap(m) && BranchesInRange(insns) && pc < |insns|
    ensures EpiloguesReturn(LowerInsn(insns, m, frame, pc))
  {
    hide BlockOf;
  }

  lemma AppendReturns(before: seq<IrNode>, c: seq<IrNode>)
    requires EpiloguesReturn(before) && EpiloguesReturn(c)
    ensures EpiloguesReturn(before + c)
  {
    var nodes := before + c;
    forall i | 0 <= i < |nodes| && nodes[i].IrEpilogue?
      ensures ReturnsNext(nodes, i)
    {
      if i < |before| {
        assert ReturnsNext(before, i);
      } else {
        assert c[i - |before|].IrEpilogue? && ReturnsNext(c, i - |before|);
      }
    }
  }

  /** Lowered code closes a frame only to return. */
  lemma {:induction false} FlatReturns(insns: seq<Insn>, m: RegMap, frame: u16, k: nat)
    requires ValidMap(m) && BranchesInRange(insns) && k <= |insns|
    ensures EpiloguesReturn(FlatTo(insns, m, frame, k))
  {
    hide *;
    if k > 0 {
      FlatReturns(insns, m, frame, k - 1);
      ChunkReturns(insns, m, frame, k - 1);
      AppendReturns(FlatTo(insns, m, frame, k - 1), Chunk(insns, m, frame, k - 1));
      FlatSnoc(insns, m, frame, k);
    } else {
      FlatNothing(insns, m, frame);
    }
  }

  lemma ChunkReturns(insns: seq<Insn>, m: RegMap, frame: u16, pc: nat)
    requires ValidMap(m) && BranchesInRange(insns) && pc < |insns|
    ensures EpiloguesReturn(Chunk(insns, m, frame, pc))
  {
    LowerInsnReturns(insns, m, frame, pc);
    hide LowerInsn, IsLeader, BlockOf;
    var leading := if IsLeader(insns, true, pc) then [IrLabel(BlockOf(insns, true, pc))] else [];
    var opening := if pc == 0 && frame > 0 then [IrPrologue(frame)] else [];
    AppendReturns(leading, opening);
    AppendReturns(leading + opening, LowerInsn(insns, m, frame, pc));
  }

  lemma ChunkLabel(insns: seq<Insn>, m: RegMap, frame: u16, pc: nat, bb: nat)
    requires ValidMap(m) && BranchesInRange(insns) && pc < |insns|
    ensures FindLabel(Chunk(insns, m, frame, pc), bb)
         == if IsLeader(insns, true, pc) && BlockOf(insns, true, pc) == bb then Some(0) else None
  {
    LowerInsnNoLabel(insns, m, frame, pc, bb);
    hide LowerInsn, IsLeader, BlockOf, FindLabel;
    var opening := if pc == 0 && frame > 0 then [IrPrologue(frame)] else [];
    var tail := opening + LowerInsn(insns, m, frame, pc);
    NoLabel(tail, bb);
    if IsLeader(insns, true, pc) {
      assert Chunk(insns, m, frame, pc) == [IrLabel(BlockOf(insns, true, pc))] + tail;
      LabelFirst(bb, BlockOf(insns, true, pc), tail);
    } else {
      assert Chunk(insns, m, frame, pc) == tail;
    }
  }

  lemma LaterLeader(insns: seq<Insn>, pc: nat, q: nat)
    requires pc < q < |insns| && IsLeader(insns, true, q)
    ensures BlockOf(insns, true, pc) < BlockOf(insns, true, q)
  {
    LeadersPrefix(insns, true, pc + 1, q);
  }

  /** The label of a leader's block is found at the leader's chunk. */
  lemma {:induction false} LabelPosition(insns: seq<Insn>, m: RegMap, frame: u16, k: nat, pc: nat)
    requires ValidMap(m) && BranchesInRange(insns) && pc < k <= |insns| && IsLeader(insns, true, pc)
    ensures FindLabel(FlatTo(insns, m, frame, k), BlockOf(insns, true, pc)) == Some(|FlatTo(insns, m, frame, pc)|)
    decreases k
  {
    hide Chunk, BlockOf, IsLeader, FindLabel, BranchesInRange;
    var bb := BlockOf(insns, true, pc);
    FindLabelAppend(FlatTo(insns, m, frame, k - 1), Chunk(insns, m, frame, k - 1), bb);
    ChunkLabel(insns, m, frame, k - 1, bb);
    if pc < k - 1 {
      LabelPosition(insns, m, frame, k - 1, pc);
      if IsLeader(insns, true, k - 1) {
        LaterLeader(insns, pc, k - 1);
      }
    }
  }
}
