/** The dry run never underestimates: on either backend no node takes more words than the worst case
    that the estimate counts. */
module DryRun {
  import opened Isa
  import opened Bits
  import opened Casts
  import opened Interpreter
  import opened Ir
  import opened A64Encode
  import opened A64Words
  import opened RvEncode
  import opened RvWords
  import opened Emitting
  import opened Layout

  // ---------- AArch64 ----------

  lemma {:induction false} KeepWordsBound(dst: PhysReg, imm: u64, k: nat)
    requires 1 <= k <= 4
    ensures |KeepWords(dst, imm, k)| <= k - 1
  {
    hide ImmChunk, MovkX, AsU16, AsU8;
    if k > 1 {
      KeepWordsBound(dst, imm, k - 1);
    }
  }

  lemma LoadImmBound(dst: PhysReg, imm: u64)
    ensures 1 <= |LoadImmWords(dst, imm)| <= 4
  {
    hide KeepWords;
    KeepWordsBound(dst, imm, 4);
  }

  lemma AluBound64(op: AluOp, dst: PhysReg, src: Operand)
    ensures |AluWords64(op, dst, src)| <= 6
  {
    hide LoadImmWords;
    if src.OpImm? {
      LoadImmBound(dst, Wrap64(src.imm));
      LoadImmBound(TMP, Wrap64(src.imm));
    }
  }

  lemma AluBound32(op: AluOp, dst: PhysReg, src: Operand)
    ensures |AluWords32(op, dst, src)| <= 6
  {
    hide LoadImmWords;
    if src.OpImm? {
      LoadImmBound(TMP, Wrap64(src.imm));
    }
  }

  /** Eight words is the worst case. */
  lemma A64NodeBound(n: IrNode)
    ensures |A64NodeWords(n)| <= 8
  {
    hide LoadImmWords, AluWords64, AluWords32;
    match n
    case IrAlu64(op, dst, src) => AluBound64(op, dst, src);
    case IrAlu32(op, dst, src) => AluBound32(op, dst, src);
    case IrStoreImm(_, _, _, imm) => LoadImmBound(TMP, Wrap64(imm));
    case IrLoadImm64(dst, imm) => LoadImmBound(dst, imm);
    case IrBranch(c, _) => if c.rhs.OpImm? { LoadImmBound(TMP, Wrap64(c.rhs.imm)); }
    case IrAtomic(_, _, _, _, off) => LoadImmBound(TMP, Wrap64(off));
    case _ =>
  }

  lemma WideChunks()
    ensures var imm: u64 := 0xFFFF_FFFF_FFFF_FFFE;
            ImmChunk(imm, 1) == 0xFFFF && ImmChunk(imm, 2) == 0xFFFF && ImmChunk(imm, 3) == 0xFFFF
  {
    hide Pow2;
    Pow2Values();
  }

  lemma WideImmediate(dst: PhysReg)
    ensures |LoadImmWords(dst, 0xFFFF_FFFF_FFFF_FFFE)| == 4
  {
    hide ImmChunk, MovkX, AsU16, AsU8, MovzX;
    WideChunks();
    var imm: u64 := 0xFFFF_FFFF_FFFF_FFFE;
    assert |KeepWords(dst, imm, 1)| == 0;
    assert |KeepWords(dst, imm, 2)| == 1;
    assert |KeepWords(dst, imm, 3)| == 2;
    assert |KeepWords(dst, imm, 4)| == 3;
  }

  // ---------- RISC-V ----------

  lemma RvLoadImmBound(rd: bv8, imm: u64)
    ensures 1 <= |RvLoadImm(rd, imm)| <= 6
  {
    hide Addi, Lui, Slli, RvAdd, Hi20, Lo12, AsI64;
  }

  lemma RvReg32Bound(op: AluOp, d: bv8, s: bv8)
    ensures |RvReg32(op, d, s)| <= 3
  {
    hide Addi, Slli, Srli, RType;
  }

  lemma RvAluBound(op: AluOp, dst: PhysReg, src: Operand)
    ensures |RvAlu64(op, dst, src)| <= 7 && |RvAlu32(op, dst, src)| <= 9
  {
    hide RvLoadImm, Addi, RvReg64, RvReg32, Slli, Srli, Srai, RType, Andi, Ori, Xori, Fits12, Wrap64;
    RvReg32Bound(op, dst.n, if src.OpReg? then src.reg.n else S7);
    RvReg32Bound(Neg, dst.n, dst.n);
    if src.OpImm? {
      RvLoadImmBound(dst.n, Wrap64(src.imm));
      RvLoadImmBound(S7, Wrap64(src.imm));
    }
  }

  lemma RvAtomicBound(op: AtomicOp, base: PhysReg, value: PhysReg, off: i16)
    ensures |RvAtomic(op, base, value, off)| <= 7
  {
    hide Addi, Bne, Amo;
  }

  /** Nine words is the worst case: one less than the estimate counts. */
  lemma RvNodeBound(n: IrNode)
    ensures |RvNodeWords(n)| <= 9
  {
    hide RvLoadImm, RvAlu64, RvAlu32, RvAtomic, Addi, Sd, Ld, RvBranchWord, RvLoadWord, RvStoreWord, Jalr, Jal, RvAnd;
    match n
    case IrAlu64(op, dst, src) => RvAluBound(op, dst, src);
    case IrAlu32(op, dst, src) => RvAluBound(op, dst, src);
    case IrStoreImm(_, _, _, imm) => RvLoadImmBound(S7, Wrap64(imm));
    case IrLoadImm64(dst, imm) => RvLoadImmBound(dst.n, imm);
    case IrBranch(c, _) => if c.rhs.OpImm? { RvLoadImmBound(S7, Wrap64(c.rhs.imm)); }
    case IrAtomic(_, op, base, value, off) => RvAtomicBound(op, base, value, off);
    case _ =>
  }

  /** Both worst cases occur: an atomic with a negative offset, and a frame. */
  lemma A64WorstCase(base: PhysReg, value: PhysReg)
    ensures |A64NodeWords(IrAtomic(DW, AtomicAdd, base, value, -2))| == 8
  {
    hide LoadImmWords, AtomicWord, DmbIsh, AddX, MovX, RegReg;
    WideImmediate(TMP);
    assert Wrap64(-2) == 0xFFFF_FFFF_FFFF_FFFE;
    assert |AtomicWords(AtomicAdd, base, value, -2)| == 8;
  }

  lemma RvWorstCase(frame: u16)
    ensures |RvNodeWords(IrPrologue(frame))| == 9
  {
    hide Addi, Sd;
  }

  // ---------- whole programs ----------

  lemma NodeBound(b: Backend, n: IrNode)
    ensures |NodeWords(b, n)| <= MaxExpansion(b)
  {
    A64NodeBound(n);
    RvNodeBound(n);
    hide A64NodeWords, RvNodeWords;
  }

  lemma LabelHasNoWords(b: Backend, bb: nat)
    ensures NodeWords(b, IrLabel(bb)) == []
  {}

  /** Words of a whole block after what came before. */
  lemma {:induction false} BlockBound(b: Backend, before: seq<IrNode>, block: IrBasicBlock, k: nat)
    requires k <= |block.nodes|
    ensures |EmitAll(b, before + ([IrLabel(block.id)] + block.nodes[..k])).words| <= |EmitAll(b, before).words| +
            k * MaxExpansion(b)
    decreases k
  {
    hide EmitAll, EmitOne, NodeWords;
    if k == 0 {
      assert before + ([IrLabel(block.id)] + block.nodes[..0]) == before + [IrLabel(block.id)];
      EmitAllSnoc(b, before, IrLabel(block.id));
      EmitOneWords(b, EmitAll(b, before), IrLabel(block.id));
      LabelHasNoWords(b, block.id);
    } else {
      BlockBound(b, before, block, k - 1);
      var sofar := before + ([IrLabel(block.id)] + block.nodes[..k - 1]);
      assert before + ([IrLabel(block.id)] + block.nodes[..k]) == sofar + [block.nodes[k - 1]];
      EmitAllSnoc(b, sofar, block.nodes[k - 1]);
      EmitOneWords(b, EmitAll(b, sofar), block.nodes[k - 1]);
      NodeBound(b, block.nodes[k - 1]);
    }
  }

  /** The emitted code of the first k blocks fits their estimate. */
  lemma {:induction false} DryRunBound(b: Backend, blocks: seq<IrBasicBlock>, k: nat)
    requires k <= |blocks|
    ensures |EmitAll(b, Flatten(blocks[..k])).words| <= EstimatedWords(b, blocks, k)
    decreases k
  {
    hide EmitOne, NodeWords;
    if k == 0 {
      assert Flatten(blocks[..0]) == [];
    } else {
      DryRunBound(b, blocks, k - 1);
      hide EmitAll;
      FlattenSnoc(blocks, k - 1);
      var block := blocks[k - 1];
      assert block.nodes[..|block.nodes|] == block.nodes;
      BlockBound(b, Flatten(blocks[..k - 1]), block, |block.nodes|);
    }
  }

  /** The bytes emitted for a program are whole words and at most the dry-run size. */
  lemma EmittedFits(b: Backend, blocks: seq<IrBasicBlock>)
    ensures 4 * |EmitAll(b, Flatten(blocks)).words| <= 4 * EstimatedWords(b, blocks, |blocks|)
  {
    hide EmitAll;
    DryRunBound(b, blocks, |blocks|);
    assert blocks[..|blocks|] == blocks;
  }

  /** All nodes of the first k blocks. */
  function NodeCount(blocks: seq<IrBasicBlock>, k: nat): nat
    requires k <= |blocks|
  {
    if k == 0 then 0 else NodeCount(blocks, k - 1) + |blocks[k - 1].nodes|
  }

  /** The estimate is one word for each block and eight, on RISC-V ten, for each node. */
  lemma {:induction false} EstimateIs(blocks: seq<IrBasicBlock>, k: nat)
    requires k <= |blocks|
    ensures EstimatedWords(AArch64, blocks, k) == k + 8 * NodeCount(blocks, k)
    ensures EstimatedWords(RiscV64, blocks, k) == k + 10 * NodeCount(blocks, k)
  {
    if k > 0 {
      EstimateIs(blocks, k - 1);
    }
  }
}
