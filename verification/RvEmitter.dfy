/** The RISC-V code emitter: an object that appends words, labels and relocations, and patches
    pending branches in place. */
module RvEmitter {
  import opened Isa
  import opened Interpreter
  import opened Ir
  import opened RvEncode
  import opened RvWords
  import opened Emitting
  import opened Bytes

  class RiscVEmitter {
    var buf: seq<bv8>
    var bbOffsets: seq<Option<nat>>
    var relocations: seq<Relocation>

    ghost predicate Valid()
      reads this
    {
      |buf| % 4 == 0 && forall i :: 0 <= i < |relocations| ==> InBounds(relocations[i], |buf| / 4)
    }

    ghost function Labels(): map<nat, nat>
      reads this
    {
      map bb: nat | bb < |bbOffsets| && bbOffsets[bb].Some? :: bbOffsets[bb].value
    }

    ghost function View(): Emission
      reads this
    {
      Emission(WordsOf(buf), Labels(), relocations)
    }

    constructor ()
      ensures Valid() && View() == EMPTY
    {
      buf, bbOffsets, relocations := [], [], [];
    }

    /** Only the words grew, by ws. */
    twostate predicate Appended(ws: seq<bv32>)
      reads this
    {
      Valid() && View() == old(View()).(words := old(View()).words + ws)
    }

    method Emit32(insn: bv32)
      requires Valid()
      modifies this`buf
      ensures Appended([insn])
    {
      AppendWord(buf, insn);
      buf := buf + ToLe(insn);
    }

    method EmitLuiAddi(rd: bv8, v: int)
      requires Valid()
      modifies this`buf
      ensures Appended(LuiAddi(rd, v))
    {
      hide WordsOf, ToLe, Lui, Addi, Hi20, Lo12;
      ghost var start := View().words;
      Emit32(Lui(rd, Hi20(v)));
      if v % 4096 != 0 {
        Emit32(Addi(rd, rd, Lo12(v)));
        Twice(start, Lui(rd, Hi20(v)), Addi(rd, rd, Lo12(v)));
      }
    }

    method EmitLoadImm64(rd: bv8, imm: u64)
      requires Valid()
      modifies this`buf
      ensures Appended(RvLoadImm(rd, imm))
    {
      hide WordsOf, ToLe, LuiAddi, LowerHalf, Slli, Addi;
      ghost var start := View().words;
      if imm == 0 {
        Emit32(Addi(rd, 0, 0));
        return;
      }
      var val := AsI64(imm);
      if -2048 <= val < 2048 {
        Emit32(Addi(rd, 0, val));
        return;
      }
      if -0x8000_0000 <= val < 0x8000_0000 {
        EmitLuiAddi(rd, val);
        return;
      }
      var upper, lower := imm / TWO_32, imm % TWO_32;
      EmitLuiAddi(rd, upper);
      Emit32(Slli(rd, rd, 32));
      EmitLowerHalf(rd, lower);
      assert start + LuiAddi(rd, upper) + [Slli(rd, rd, 32)] + LowerHalf(rd, lower)
          == start + (LuiAddi(rd, upper) + [Slli(rd, rd, 32)] + LowerHalf(rd, lower));
    }

    /** Loads the lower half into s7 and adds it. */
    method EmitLowerHalf(rd: bv8, lower: nat)
      requires Valid()
      modifies this`buf
      ensures Appended(LowerHalf(rd, lower))
    {
      hide WordsOf, ToLe, LuiAddi, Addi, RvAdd, Hi20, Lo12;
      ghost var start := View().words;
      if Hi20(lower) != 0 {
        EmitLuiAddi(S7, lower);
        Emit32(RvAdd(rd, rd, S7));
        Joined(start, LuiAddi(S7, lower), [RvAdd(rd, rd, S7)]);
      } else if lower % 4096 != 0 {
        Emit32(Addi(S7, 0, Lo12(lower)));
        Emit32(RvAdd(rd, rd, S7));
        Twice(start, Addi(S7, 0, Lo12(lower)), RvAdd(rd, rd, S7));
      } else {
        assert start + [] == start;
      }
    }

    method EmitAlu64Reg(op: AluOp, d: bv8, s: bv8)
      requires Valid()
      modifies this`buf
      ensures Appended([RvReg64(op, d, s)])
    {
      hide WordsOf, ToLe, RType, IType;
      match op {
        case Add => Emit32(RvAdd(d, d, s));
        case Sub => Emit32(RvSub(d, d, s));
        case Mul => Emit32(RvMul(d, d, s));
        case Div => Emit32(RvDivu(d, d, s));
        case Mod => Emit32(RvRemu(d, d, s));
        case Or => Emit32(RvOr(d, d, s));
        case And => Emit32(RvAnd(d, d, s));
        case Xor => Emit32(RvXor(d, d, s));
        case Lsh => Emit32(RvSll(d, d, s));
        case Rsh => Emit32(RvSrl(d, d, s));
        case Arsh => Emit32(RvSra(d, d, s));
        case Mov => Emit32(Addi(d, s, 0));
        case Neg => Emit32(RvSub(d, 0, d));
      }
    }

    method EmitAlu64Node(op: AluOp, dst: PhysReg, src: Operand)
      requires Valid()
      modifies this`buf
      ensures Appended(RvAlu64(op, dst, src))
    {
      hide WordsOf, ToLe, RvLoadImm, RvReg64, Addi, Andi, Ori, Xori, Slli, Srli, Srai;
      ghost var start := View().words;
      match src {
        case OpReg(rs) => EmitAlu64Reg(op, dst.n, rs.n);
        case OpImm(v) =>
          if op == Neg {
            EmitAlu64Reg(Neg, dst.n, dst.n);
          } else if op == Add && -2048 <= v < 2048 {
            Emit32(Addi(dst.n, dst.n, v));
          } else if op == Mov {
            EmitLoadImm64(dst.n, Wrap64(v));
          } else if op == Lsh {
            Emit32(Slli(dst.n, dst.n, v % 64));
          } else if op == Rsh {
            Emit32(Srli(dst.n, dst.n, v % 64));
          } else if op == Arsh {
            Emit32(Srai(dst.n, dst.n, v % 64));
          } else if op == And && -2048 <= v < 2048 {
            Emit32(Andi(dst.n, dst.n, v));
          } else if op == Or && -2048 <= v < 2048 {
            Emit32(Ori(dst.n, dst.n, v));
          } else if op == Xor && -2048 <= v < 2048 {
            Emit32(Xori(dst.n, dst.n, v));
          } else {
            EmitLoadImm64(S7, Wrap64(v));
            EmitAlu64Reg(op, dst.n, S7);
            Joined(start, RvLoadImm(S7, Wrap64(v)), [RvReg64(op, dst.n, S7)]);
          }
      }
    }

    /** An operation on the full registers, then the upper half cleared. */
    method EmitThenZeroExtend(insn: bv32, d: bv8)
      requires Valid()
      modifies this`buf
      ensures Appended([insn] + ZeroExtend(d))
    {
      hide WordsOf, ToLe, ShiftForm;
      ghost var start := View().words;
      Emit32(insn);
      Emit32(Slli(d, d, 32));
      Emit32(Srli(d, d, 32));
      assert start + [insn] + [Slli(d, d, 32)] + [Srli(d, d, 32)] == start + ([insn] + ZeroExtend(d));
    }

    method EmitAlu32Node(op: AluOp, dst: PhysReg, src: Operand)
      requires Valid()
      modifies this`buf
      ensures Appended(RvAlu32(op, dst, src))
      decreases src.OpImm?
    {
      hide WordsOf, ToLe, RvLoadImm, RType, IType, ZeroExtend;
      ghost var start := View().words;
      match src {
        case OpReg(rs) =>
          match op {
            case Add => Emit32(RvAddw(dst.n, dst.n, rs.n));
            case Sub => Emit32(RvSubw(dst.n, dst.n, rs.n));
            case Mul => Emit32(RvMulw(dst.n, dst.n, rs.n));
            case Div => Emit32(RvDivuw(dst.n, dst.n, rs.n));
            case Mod => Emit32(RvRemuw(dst.n, dst.n, rs.n));
            case Lsh => Emit32(RvSllw(dst.n, dst.n, rs.n));
            case Rsh => Emit32(RvSrlw(dst.n, dst.n, rs.n));
            case Arsh => Emit32(RvSraw(dst.n, dst.n, rs.n));
            case Mov => EmitThenZeroExtend(Addi(dst.n, rs.n, 0), dst.n);
            case Or => EmitThenZeroExtend(RvOr(dst.n, dst.n, rs.n), dst.n);
            case And => EmitThenZeroExtend(RvAnd(dst.n, dst.n, rs.n), dst.n);
            case Xor => EmitThenZeroExtend(RvXor(dst.n, dst.n, rs.n), dst.n);
            case Neg => Emit32(RvSubw(dst.n, 0, dst.n));
          }
        case OpImm(v) =>
          if op == Neg {
            Emit32(RvSubw(dst.n, 0, dst.n));
          } else {
            EmitLoadImm64(S7, Wrap64(v));
            EmitAlu32Node(op, dst, OpReg(PhysReg(S7)));
            Joined(start, RvLoadImm(S7, Wrap64(v)), RvReg32(op, dst.n, S7));
          }
      }
    }

    method EmitLoadNode(width: MemWidth, dst: PhysReg, base: PhysReg, off: i16)
      requires Valid()
      modifies this`buf
      ensures Appended([RvLoadWord(width, dst, base, off)])
    {
      match width {
        case B => Emit32(Lbu(dst.n, base.n, off));
        case H => Emit32(Lhu(dst.n, base.n, off));
        case W => Emit32(Lwu(dst.n, base.n, off));
        case DW => Emit32(Ld(dst.n, base.n, off));
      }
    }

    method EmitStoreNode(width: MemWidth, base: PhysReg, value: bv8, off: i16)
      requires Valid()
      modifies this`buf
      ensures Appended([RvStoreWord(width, base, value, off)])
    {
      match width {
        case B => Emit32(Sb(value, base.n, off));
        case H => Emit32(Sh(value, base.n, off));
        case W => Emit32(Sw(value, base.n, off));
        case DW => Emit32(Sd(value, base.n, off));
      }
    }

    /** The right operand and, for Jset, the conjunction to test. */
    method EmitBeforeBranch(c: BranchCond)
      requires Valid()
      modifies this`buf
      ensures Appended(RvBeforeBranch(c))
    {
      hide WordsOf, ToLe, RvLoadImm, RvAnd;
      ghost var start := View().words;
      if c.rhs.OpImm? {
        EmitLoadImm64(S7, Wrap64(c.rhs.imm));
      }
      ghost var loaded := if c.rhs.OpImm? then RvLoadImm(S7, Wrap64(c.rhs.imm)) else [];
      assert View().words == start + loaded;
      if c.op == Jset {
        Emit32(RvAnd(S7, c.lhs.n, RhsReg(c.rhs)));
        Joined(start, loaded, [RvAnd(S7, c.lhs.n, RhsReg(c.rhs))]);
      }
      assert RvBeforeBranch(c) == loaded + (if c.op == Jset then [RvAnd(S7, c.lhs.n, RhsReg(c.rhs))] else []);
      assert loaded + [] == loaded;
    }

    method EmitBranchNode(c: BranchCond, target: nat)
      requires Valid()
      modifies this`buf, this`relocations
      ensures Valid() && View() == EmitOne(RiscV64, old(View()), IrBranch(c, target))
    {
      hide WordsOf, ToLe, RvBeforeBranch, RvBranchWord;
      ghost var start := View().words;
      EmitBeforeBranch(c);
      var relocOffset := |buf|; // past the extra word of Jset
      Emit32(RvBranchWord(c.op, c.lhs.n, RhsReg(c.rhs)));
      Joined(start, RvBeforeBranch(c), [RvBranchWord(c.op, c.lhs.n, RhsReg(c.rhs))]);
      relocations := relocations + [Relocation(relocOffset, target, true)];
    }

    /** A load-reserved and store-conditional loop. */
    method EmitCmpXchg(value: PhysReg)
      requires Valid()
      modifies this`buf
      ensures Appended(RvAtomicWords(CmpXchg, value))
    {
      hide WordsOf, ToLe, Amo, Btype;
      ghost var start := View().words;
      var loopStart := |buf|;
      Emit32(LrD(S7, S7));
      Emit32(Bne(S7, 10, 12));
      Emit32(ScD(S7, value.n, S7));
      assert loopStart - |buf| == -12 by { assert |WordsOf(buf)| == |start| + 3; }
      Emit32(Bne(S7, 0, loopStart - |buf|));
      assert start + [LrD(S7, S7)] + [Bne(S7, 10, 12)] + [ScD(S7, value.n, S7)] + [Bne(S7, 0, -12)]
          == start + [LrD(S7, S7), Bne(S7, 10, 12), ScD(S7, value.n, S7), Bne(S7, 0, -12)];
    }

    method EmitAtomicOp(op: AtomicOp, value: PhysReg)
      requires Valid()
      modifies this`buf
      ensures Appended(RvAtomicWords(op, value))
    {
      hide WordsOf, ToLe, Amo, Btype;
      match op {
        case AtomicAdd => Emit32(AmoaddD(0, value.n, S7));
        case FetchAdd => Emit32(AmoaddD(0, value.n, S7));
        case AtomicOr => Emit32(AmoorD(0, value.n, S7));
        case FetchOr => Emit32(AmoorD(0, value.n, S7));
        case AtomicAnd => Emit32(AmoandD(0, value.n, S7));
        case FetchAnd => Emit32(AmoandD(0, value.n, S7));
        case AtomicXor => Emit32(AmoxorD(0, value.n, S7));
        case FetchXor => Emit32(AmoxorD(0, value.n, S7));
        case Xchg => Emit32(AmoswapD(0, value.n, S7));
        case CmpXchg => EmitCmpXchg(value);
      }
    }

    method EmitAtomicNode(op: AtomicOp, base: PhysReg, value: PhysReg, off: i16)
      requires Valid()
      modifies this`buf
      ensures Appended(RvAtomic(op, base, value, off))
    {
      hide WordsOf, ToLe, RvAtomicWords, Addi, FenceRwRw;
      ghost var start := View().words;
      if off != 0 {
        Emit32(Addi(S7, base.n, off));
      } else {
        Emit32(Addi(S7, base.n, 0));
      }
      Emit32(FenceRwRw());
      EmitAtomicOp(op, value);
      Emit32(FenceRwRw());
      assert start + [Addi(S7, base.n, off)] + [FenceRwRw()] + RvAtomicWords(op, value) + [FenceRwRw()]
          == start + ([Addi(S7, base.n, off), FenceRwRw()] + RvAtomicWords(op, value) + [FenceRwRw()]);
    }

    /** A placeholder: no byte swap. */
    method EmitEndianNode(dst: PhysReg)
      requires Valid()
      modifies this`buf
      ensures Appended([Addi(dst.n, dst.n, 0)])
    {
      Emit32(Addi(dst.n, dst.n, 0));
    }

    method EnsureBbMap(bb: nat)
      modifies this`bbOffsets
      ensures bb < |bbOffsets| && Labels() == old(Labels())
    {
      if |bbOffsets| <= bb {
        bbOffsets := bbOffsets + seq(bb + 1 - |bbOffsets|, _ => None);
      }
    }

    method EmitStoreImmNode(width: MemWidth, base: PhysReg, off: i16, imm: i32)
      requires Valid()
      modifies this`buf
      ensures Appended(RvLoadImm(S7, Wrap64(imm)) + [RvStoreWord(width, base, S7, off)])
    {
      hide WordsOf, ToLe, RvLoadImm, RvStoreWord;
      ghost var start := View().words;
      EmitLoadImm64(S7, Wrap64(imm));
      EmitStoreNode(width, base, S7, off);
      Joined(start, RvLoadImm(S7, Wrap64(imm)), [RvStoreWord(width, base, S7, off)]);
    }

    /** Loads, stores and atomic operations. */
    method EmitMemoryNode(node: IrNode)
      requires Valid() && AccessesMemory(node)
      modifies this`buf
      ensures Appended(NodeWords(RiscV64, node))
    {
      hide RvLoadImm, WordsOf, ToLe, RvLoadWord, RvStoreWord, RvAtomic, Sd, Ld;
      match node {
        case IrLoad(width, dst, base, off) => EmitLoadNode(width, dst, base, off);
        case IrStore(width, base, value, off) => EmitStoreNode(width, base, value.n, off);
        case IrStoreImm(width, base, off, imm) => EmitStoreImmNode(width, base, off, imm);
        case IrSpill(reg, slot) => Emit32(Sd(reg.n, 2, slot));
        case IrFill(reg, slot) => Emit32(Ld(reg.n, 2, slot));
        case IrAtomic(_, op, base, value, off) => EmitAtomicNode(op, base, value, off);
      }
    }

    /** Any node that is no label and no pending branch. */
    method EmitPlainNode(node: IrNode)
      requires Valid() && !Branching(node) && !node.IrLabel?
      modifies this`buf
      ensures Appended(NodeWords(RiscV64, node))
    {
      if AccessesMemory(node) {
        EmitMemoryNode(node);
        return;
      }
      hide RvPrologue, RvEpilogue, RvLoadImm, RvAlu64, RvAlu32, WordsOf, ToLe, Addi, Jalr;
      match node {
        case IrAlu64(op, dst, src) => EmitAlu64Node(op, dst, src);
        case IrAlu32(op, dst, src) => EmitAlu32Node(op, dst, src);
        case IrLoadImm64(dst, imm) => EmitLoadImm64(dst.n, imm);
        case IrCall(_) => Emit32(Jalr(1, 23, 0));
        case IrRet => Emit32(Jalr(0, 1, 0));
        case IrEndian(_, _, dst) => EmitEndianNode(dst);
        case IrPrologue(frame) => EmitPrologueNode(frame);
        case IrEpilogue(frame) => EmitEpilogueNode(frame);
      }
    }

    /** Emits one node: words, labels and relocations all grow as EmitOne says. */
    method EmitNode(node: IrNode)
      requires Valid()
      modifies this
      ensures Valid() && View() == EmitOne(RiscV64, old(View()), node)
    {
      hide EmitOne, WordsOf, NodeWords;
      match node {
        case IrBranch(c, target) => EmitBranchNode(c, target);
        case IrJump(target) => EmitJumpNode(target);
        case IrLabel(bb) => EmitLabelNode(bb);
        case _ =>
          EmitOnePlain(RiscV64, View(), node);
          EmitPlainNode(node);
      }
    }

    method EmitSaves(size: int)
      requires Valid()
      modifies this`buf
      ensures Appended([Sd(18, 2, size - 24), Sd(19, 2, size - 32), Sd(20, 2, size - 40), Sd(21, 2, size - 48),
              Sd(22, 2, size - 56)])
    {
      hide WordsOf, ToLe, Sd;
      ghost var start := View().words;
      Emit32(Sd(18, 2, size - 24));
      Emit32(Sd(19, 2, size - 32));
      Emit32(Sd(20, 2, size - 40));
      Emit32(Sd(21, 2, size - 48));
      Emit32(Sd(22, 2, size - 56));
      Five(start, Sd(18, 2, size - 24), Sd(19, 2, size - 32), Sd(20, 2, size - 40), Sd(21, 2, size - 48),
          Sd(22, 2, size - 56));
    }

    method EmitOpening(size: int)
      requires Valid()
      modifies this`buf
      ensures Appended([Addi(2, 2, -size), Sd(1, 2, size - 8), Sd(8, 2, size - 16)])
    {
      hide WordsOf, ToLe, Addi, Sd;
      ghost var start := View().words;
      Emit32(Addi(2, 2, -size));
      Emit32(Sd(1, 2, size - 8));
      Emit32(Sd(8, 2, size - 16));
      assert View().words == start + [Addi(2, 2, -size), Sd(1, 2, size - 8), Sd(8, 2, size - 16)];
    }

    method EmitPrologueNode(frame: u16)
      requires Valid()
      modifies this`buf
      ensures Appended(RvPrologue(frame))
    {
      hide WordsOf, ToLe, Addi, Sd;
      ghost var start := View().words;
      var size: int := frame;
      EmitOpening(size);
      EmitSaves(size);
      Emit32(Addi(8, 2, size));
      assert View().words == start + RvPrologue(frame);
    }

    method EmitRestores(size: int)
      requires Valid()
      modifies this`buf
      ensures Appended([Ld(22, 2, size - 56), Ld(21, 2, size - 48), Ld(20, 2, size - 40), Ld(19, 2, size - 32),
              Ld(18, 2, size - 24)])
    {
      hide WordsOf, ToLe, Ld;
      ghost var start := View().words;
      Emit32(Ld(22, 2, size - 56));
      Emit32(Ld(21, 2, size - 48));
      Emit32(Ld(20, 2, size - 40));
      Emit32(Ld(19, 2, size - 32));
      Emit32(Ld(18, 2, size - 24));
      Five(start, Ld(22, 2, size - 56), Ld(21, 2, size - 48), Ld(20, 2, size - 40), Ld(19, 2, size - 32),
          Ld(18, 2, size - 24));
    }

    method EmitEpilogueNode(frame: u16)
      requires Valid()
      modifies this`buf
      ensures Appended(RvEpilogue(frame))
    {
      hide WordsOf, ToLe, Addi, Ld;
      ghost var start := View().words;
      var size: int := frame;
      EmitRestores(size);
      Emit32(Ld(8, 2, size - 16));
      Emit32(Ld(1, 2, size - 8));
      Emit32(Addi(2, 2, size));
      assert View().words == start + RvEpilogue(frame);
    }

    method EmitJumpNode(target: nat)
      requires Valid()
      modifies this`buf, this`relocations
      ensures Valid() && View() == EmitOne(RiscV64, old(View()), IrJump(target))
    {
      hide WordsOf, Jal, ToLe;
      var relocOffset := |buf|;
      Emit32(Jal(0, 0));
      relocations := relocations + [Relocation(relocOffset, target, false)];
    }

    method EmitLabelNode(bb: nat)
      requires Valid()
      modifies this`bbOffsets
      ensures Valid() && View() == EmitOne(RiscV64, old(View()), IrLabel(bb))
    {
      hide WordsOf;
      EnsureBbMap(bb);
      ghost var before := Labels();
      bbOffsets := bbOffsets[bb := Some(|buf|)];
      assert Labels() == before[bb := |buf|];
    }

    method EmitBlock(block: IrBasicBlock, ghost before: seq<IrNode>)
      requires Valid() && View() == EmitAll(RiscV64, before)
      modifies this
      ensures Valid() && View() == EmitAll(RiscV64, before + ([IrLabel(block.id)] + block.nodes))
    {
      hide EmitOne, WordsOf, EmitAll;
      EmitNode(IrLabel(block.id));
      EmitAllSnoc(RiscV64, before, IrLabel(block.id));
      ghost var done := before + [IrLabel(block.id)];
      for i := 0 to |block.nodes|
        invariant Valid() && View() == EmitAll(RiscV64, done)
        invariant done == before + ([IrLabel(block.id)] + block.nodes[..i])
      {
        EmitNode(block.nodes[i]);
        EmitAllSnoc(RiscV64, done, block.nodes[i]);
        done := done + [block.nodes[i]];
      }
      assert block.nodes[..|block.nodes|] == block.nodes;
    }

    /** Emits a program: each block's label, then its nodes. */
    method EmitProgram(ir: IrProgram)
      requires Valid() && View() == EMPTY
      modifies this
      ensures Valid() && View() == EmitAll(RiscV64, Flatten(ir.blocks))
    {
      hide EmitOne, WordsOf;
      for b := 0 to |ir.blocks|
        invariant Valid() && View() == EmitAll(RiscV64, Flatten(ir.blocks[..b]))
      {
        EmitBlock(ir.blocks[b], Flatten(ir.blocks[..b]));
        FlattenSnoc(ir.blocks, b);
      }
      assert ir.blocks[..|ir.blocks|] == ir.blocks;
    }

    /** An upper bound on the code size in bytes, without emitting anything. */
    method CalculateSize(ir: IrProgram) returns (size: nat)
      ensures size == 4 * EstimatedWords(RiscV64, ir.blocks, |ir.blocks|)
    {
      var count := 0;
      for b := 0 to |ir.blocks|
        invariant count == EstimatedWords(RiscV64, ir.blocks, b)
      {
        count := count + 1;
        count := count + |ir.blocks[b].nodes| * MaxExpansion(RiscV64);
      }
      size := count * 4;
    }

    /** Resolves one relocation in place, if its label is known and near enough. Only immediate bits
        change: a jump keeps its link register, a branch its operands and condition. */
    method Resolve(reloc: Relocation) returns (ok: bool)
      requires Valid() && InBounds(reloc, |buf| / 4)
      modifies this`buf
      ensures Valid() && ok == Resolvable(RiscV64, reloc, Labels())
      ensures if ok then
                View() == old(View()).(words := old(View()).words[reloc.offset / 4 :=
                            PatchedWord(RiscV64, old(View()).words[reloc.offset / 4], reloc, Labels())])
              else buf == old(buf)
    {
      hide WordsOf, ToLe, FromLe, EncodeJTypeImm, EncodeBTypeImm;
      if reloc.target >= |bbOffsets| || bbOffsets[reloc.target].None? {
        return false;
      }
      var targetOffset := bbOffsets[reloc.target].value;
      assert Labels()[reloc.target] == targetOffset;
      var offset := targetOffset - reloc.offset;
      var at := reloc.offset;
      var existing := FromLe(buf[at..at + 4]);
      WordAt(buf, at);
      var patched;
      if !reloc.isConditional {
        if offset < -0x10_0000 || offset >= 0x10_0000 {
          return false;
        }
        patched := EncodeJTypeImm(offset) | 0x6F | (existing & 0xF80);
      } else {
        if offset < -0x1000 || offset >= 0x1000 {
          return false;
        }
        patched := EncodeBTypeImm(offset) | (existing & 0x01FFF07F);
      }
      assert patched == PatchedWord(RiscV64, WordsOf(buf)[at / 4], reloc, Labels());
      Bytes.PatchWord(buf, at, patched);
      buf := buf[..at] + ToLe(patched) + buf[at + 4..];
      ok := true;
    }

    /** Resolves the relocations in order, patching the buffer in place. */
    method Finalize() returns (r: LinkResult)
      requires Valid()
      modifies this`buf
      ensures Valid() && r == Link(RiscV64, old(View()).words, Labels(), relocations)
      ensures r.Linked? ==> View() == old(View()).(words := r.words)
    {
      hide WordsOf, PatchedWord, Resolvable;
      assert relocations[0..] == relocations;
      for i := 0 to |relocations|
        invariant Valid() && |buf| == |old(buf)|
        invariant LinkReady(View().words, relocations[i..])
        invariant Link(RiscV64, old(View()).words, Labels(), relocations)
             == Link(RiscV64, View().words, Labels(), relocations[i..])
      {
        var ok := Resolve(relocations[i]);
        assert relocations[i..][1..] == relocations[i + 1..];
        if !ok {
          return LinkError(RelocationOutOfRange(relocations[i].target));
        }
      }
      r := Linked(WordsOf(buf));
    }
  }
}
