/** The AArch64 code emitter: an object that appends words, labels and relocations, and patches
    pending branches in place. */
module A64Emitter {
  import opened Isa
  import opened Casts
  import opened Interpreter
  import opened Ir
  import opened A64Encode
  import opened A64Words
  import opened Emitting
  import opened Bytes

  class AArch64Emitter {
    var buf: seq<bv8>
    var bbOffsets: seq<Option<nat>>
    var relocations: seq<Relocation>

    ghost predicate Valid()
      reads this
    {
      |buf| % 4 == 0 && forall i :: 0 <= i < |relocations| ==> InBounds(relocations[i], |buf| / 4)
    }

    ghost function Labels(): map<nat, nat>
      reads this
    {
      map bb: nat | bb < |bbOffsets| && bbOffsets[bb].Some? :: bbOffsets[bb].value
    }

    ghost function View(): Emission
      reads this
    {
      Emission(WordsOf(buf), Labels(), relocations)
    }

    constructor ()
      ensures Valid() && View() == EMPTY
    {
      buf, bbOffsets, relocations := [], [], [];
    }

    /** Only the words grew, by ws. */
    twostate predicate Appended(ws: seq<bv32>)
      reads this
    {
      Valid() && View() == old(View()).(words := old(View()).words + ws)
    }

    method Emit32(insn: bv32)
      requires Valid()
      modifies this`buf
      ensures Appended([insn])
    {
      AppendWord(buf, insn);
      buf := buf + ToLe(insn);
    }

    lemma KeepNothing(dst: PhysReg, imm: u64)
      ensures KeepWords(dst, imm, 1) == []
    {}

    lemma KeepNext(dst: PhysReg, imm: u64, k: nat)
      requires 1 <= k < 4
      ensures ImmChunk(imm, k) == [ImmChunk(imm, 0), ImmChunk(imm, 1), ImmChunk(imm, 2), ImmChunk(imm, 3)][k]
      ensures KeepWords(dst, imm, k + 1)
           == KeepWords(dst, imm, k)
              + (if ImmChunk(imm, k) != 0 then [MovkX(dst.n, AsU16(ImmChunk(imm, k)), AsU8(k))] else [])
    {
      hide ImmChunk, MovkX, AsU16, AsU8;
    }

    method EmitLoadImm64(dst: PhysReg, imm: u64)
      requires Valid()
      modifies this`buf
      ensures Appended(LoadImmWords(dst, imm))
    {
      hide MovzX, MovkX, AsU16, AsU8, ImmChunk, WordsOf, ToLe, KeepWords, KeepWord;
      KeepNothing(dst, imm);
      var chunks := [ImmChunk(imm, 0), ImmChunk(imm, 1), ImmChunk(imm, 2), ImmChunk(imm, 3)];
      var top := 3;
      while top > 0 && chunks[top] == 0
        invariant 0 <= top <= 3 && forall k :: top < k <= 3 ==> chunks[k] == 0
      {
        top := top - 1;
      }
      ghost var start := View();
      Emit32(MovzX(dst.n, AsU16(chunks[0]), 0));
      ghost var done := [MovzX(dst.n, AsU16(ImmChunk(imm, 0)), 0)];
      for shift := 1 to 4
        invariant Valid() && View() == start.(words := start.words + done)
        invariant done == [MovzX(dst.n, AsU16(ImmChunk(imm, 0)), 0)] + KeepWords(dst, imm, shift)
      {
        KeepNext(dst, imm, shift);
        if shift <= top && chunks[shift] != 0 {
          var w := MovkX(dst.n, AsU16(chunks[shift]), AsU8(shift));
          Emit32(w);
          Joined(start.words, done, [w]);
          done := done + [w];
        }
      }
    }

    method MaterializeImm(val: i64, tmp: PhysReg) returns (r: PhysReg)
      requires Valid()
      modifies this`buf
      ensures r == tmp && Appended(LoadImmWords(tmp, Wrap64(val)))
    {
      EmitLoadImm64(tmp, Wrap64(val));
      r := tmp;
    }

    /** The operation on two registers. */
    method EmitAlu64Reg(op: AluOp, d: bv8, s: bv8)
      requires Valid()
      modifies this`buf
      ensures Appended(RegWords64(op, d, s))
    {
      hide WordsOf, RegReg, MsubX, ToLe;
      ghost var start := View().words;
      match op {
        case Add => Emit32(AddX(d, d, s));
        case Sub => Emit32(SubX(d, d, s));
        case Mul => Emit32(MulX(d, d, s));
        case Div => Emit32(UdivX(d, d, s));
        case Mod =>
          Emit32(UdivX(12, d, s));
          Emit32(MsubX(d, 12, s, d));
          Twice(start, UdivX(12, d, s), MsubX(d, 12, s, d));
        case Or => Emit32(OrrX(d, d, s));
        case And => Emit32(AndX(d, d, s));
        case Xor => Emit32(EorX(d, d, s));
        case Lsh => Emit32(LslvX(d, d, s));
        case Rsh => Emit32(LsrvX(d, d, s));
        case Arsh => Emit32(AsrvX(d, d, s));
        case Mov => Emit32(MovX(d, s));
        case Neg => Emit32(SubX(d, 31, d));
      }
    }

    method EmitAlu64Node(op: AluOp, dst: PhysReg, src: Operand)
      requires Valid()
      modifies this`buf
      ensures Appended(AluWords64(op, dst, src))
    {
      hide LoadImmWords, RegWords64, WordsOf, RegReg, Imm12Form, LslXImm, LsrXImm, AsrXImm, MsubX, AsU8, AsU16, ToLe;
      ghost var start := View().words;
      match src {
        case OpReg(rs) => EmitAlu64Reg(op, dst.n, rs.n);
        case OpImm(v) =>
          if op == Neg {
            EmitAlu64Reg(Neg, dst.n, dst.n);
          } else if op == Add && 0 <= v < 4096 {
            Emit32(AddXImm(dst.n, dst.n, AsU16(v)));
          } else if op == Sub && 0 <= v < 4096 {
            Emit32(SubXImm(dst.n, dst.n, AsU16(v)));
          } else if op == Mov {
            EmitLoadImm64(dst, Wrap64(v));
          } else if op == Lsh {
            Emit32(LslXImm(dst.n, dst.n, AsU8(v % 64)));
          } else if op == Rsh {
            Emit32(LsrXImm(dst.n, dst.n, AsU8(v % 64)));
          } else if op == Arsh {
            Emit32(AsrXImm(dst.n, dst.n, AsU8(v % 64)));
          } else {
            var rs := MaterializeImm(v, TMP);
            EmitAlu64Reg(op, dst.n, rs.n);
            Joined(start, LoadImmWords(TMP, Wrap64(v)), RegWords64(op, dst.n, TMP.n));
          }
      }
    }

    /** The operation on two registers. */
    method EmitAlu32Reg(op: AluOp, d: bv8, s: bv8)
      requires Valid()
      modifies this`buf
      ensures Appended(RegWords32(op, d, s))
    {
      hide WordsOf, RegReg, MsubW, ToLe;
      ghost var start := View().words;
      match op {
        case Add => Emit32(AddW(d, d, s));
        case Sub => Emit32(SubW(d, d, s));
        case Mul => Emit32(MulW(d, d, s));
        case Div => Emit32(UdivW(d, d, s));
        case Or => Emit32(OrrW(d, d, s));
        case And => Emit32(AndW(d, d, s));
        case Xor => Emit32(EorW(d, d, s));
        case Lsh => Emit32(LslvW(d, d, s));
        case Rsh => Emit32(LsrvW(d, d, s));
        case Arsh => Emit32(AsrvW(d, d, s));
        case Mov => Emit32(MovW(d, s));
        case Neg => Emit32(SubW(d, 31, d));
        case Mod =>
          Emit32(UdivW(12, d, s));
          Emit32(MsubW(d, 12, s, d));
          Twice(start, UdivW(12, d, s), MsubW(d, 12, s, d));
      }
    }

    method EmitAlu32Node(op: AluOp, dst: PhysReg, src: Operand)
      requires Valid()
      modifies this`buf
      ensures Appended(AluWords32(op, dst, src))
    {
      hide LoadImmWords, RegWords32, WordsOf, RegReg, Imm12Form, MovWide, MsubW, AsU8, AsU16, ToLe;
      ghost var start := View().words;
      match src {
        case OpReg(rs) => EmitAlu32Reg(op, dst.n, rs.n);
        case OpImm(v) =>
          if op == Neg {
            EmitAlu32Reg(Neg, dst.n, dst.n);
          } else if op == Mov {
            Emit32(MovzW(dst.n, AsU16(v), 0));
            if Wrap64(v) > 0xFFFF {
              Emit32(MovkW(dst.n, AsU16(Wrap64(v) / TWO_16), 1));
              Twice(start, MovzW(dst.n, AsU16(v), 0), MovkW(dst.n, AsU16(Wrap64(v) / TWO_16), 1));
            }
          } else if op == Add && 0 <= v < 4096 {
            Emit32(AddWImm(dst.n, dst.n, AsU16(v)));
          } else if op == Sub && 0 <= v < 4096 {
            Emit32(SubWImm(dst.n, dst.n, AsU16(v)));
          } else {
            var rs := MaterializeImm(v, TMP);
            EmitAlu32Reg(op, dst.n, rs.n);
            Joined(start, LoadImmWords(TMP, Wrap64(v)), RegWords32(op, dst.n, TMP.n));
          }
      }
    }

    method EmitLoadNode(width: MemWidth, dst: PhysReg, base: PhysReg, off: i16)
      requires Valid()
      modifies this`buf
      ensures Appended([LoadWord(width, dst, base, off)])
    {
      match width {
        case B => Emit32(Ldrb(dst.n, base.n, off));
        case H => Emit32(Ldrh(dst.n, base.n, off));
        case W => Emit32(LdrW(dst.n, base.n, off));
        case DW => Emit32(LdrX(dst.n, base.n, off));
      }
    }

    method EmitStoreNode(width: MemWidth, base: PhysReg, value: PhysReg, off: i16)
      requires Valid()
      modifies this`buf
      ensures Appended([StoreWord(width, base, value, off)])
    {
      match width {
        case B => Emit32(Strb(value.n, base.n, off));
        case H => Emit32(Strh(value.n, base.n, off));
        case W => Emit32(StrW(value.n, base.n, off));
        case DW => Emit32(StrX(value.n, base.n, off));
      }
    }

    /** The comparison of a conditional branch, its right operand materialised if need be. */
    method EmitCompare(c: BranchCond)
      requires Valid()
      modifies this`buf
      ensures Appended(CompareWords(c))
    {
      hide LoadImmWords, WordsOf, CmpX, CmpW, ToLe;
      ghost var start := View().words;
      var rhs;
      match c.rhs {
        case OpReg(r) =>
          rhs := r;
        case OpImm(v) =>
          rhs := MaterializeImm(v, TMP);
      }
      if c.is32bit {
        Emit32(CmpW(c.lhs.n, rhs.n));
      } else {
        Emit32(CmpX(c.lhs.n, rhs.n));
      }
      if c.rhs.OpImm? {
        Joined(start, LoadImmWords(TMP, Wrap64(c.rhs.imm)),
            [if c.is32bit then CmpW(c.lhs.n, rhs.n) else CmpX(c.lhs.n, rhs.n)]);
      }
    }

    method EmitBranchNode(c: BranchCond, target: nat)
      requires Valid()
      modifies this`buf, this`relocations
      ensures Valid() && View() == EmitOne(AArch64, old(View()), IrBranch(c, target))
    {
      hide CompareWords, WordsOf, BCond, ConditionCode, ToLe;
      ghost var start := View().words;
      EmitCompare(c);
      var relocOffset := |buf|;
      Emit32(BCond(ConditionCode(c.op), 0)); // placeholder offset
      Joined(start, CompareWords(c), [BCond(ConditionCode(c.op), 0)]);
      relocations := relocations + [Relocation(relocOffset, target, true)];
    }

    method EmitAtomicOp(op: AtomicOp, value: PhysReg)
      requires Valid()
      modifies this`buf
      ensures Appended([AtomicWord(op, value)])
    {
      match op {
        case AtomicAdd => Emit32(LdaddX(value.n, 31, TMP.n));
        case FetchAdd => Emit32(LdaddX(value.n, 31, TMP.n));
        case AtomicOr => Emit32(LdsetX(value.n, 31, TMP.n));
        case FetchOr => Emit32(LdsetX(value.n, 31, TMP.n));
        case AtomicAnd => Emit32(LdclrX(value.n, 31, TMP.n));
        case FetchAnd => Emit32(LdclrX(value.n, 31, TMP.n));
        case AtomicXor => Emit32(LdeorX(value.n, 31, TMP.n));
        case FetchXor => Emit32(LdeorX(value.n, 31, TMP.n));
        case Xchg => Emit32(SwpX(value.n, 31, TMP.n));
        case CmpXchg => Emit32(CasX(0, value.n, TMP.n));
      }
    }

    method EmitAtomicNode(op: AtomicOp, base: PhysReg, value: PhysReg, off: i16)
      requires Valid()
      modifies this`buf
      ensures Appended(AtomicWords(op, base, value, off))
    {
      hide LoadImmWords, WordsOf, RegReg, ToLe;
      ghost var start := View().words;
      ghost var address;
      if off != 0 {
        EmitLoadImm64(TMP, Wrap64(off));
        Emit32(AddX(TMP.n, base.n, TMP.n));
        address := LoadImmWords(TMP, Wrap64(off)) + [AddX(TMP.n, base.n, TMP.n)];
        Joined(start, LoadImmWords(TMP, Wrap64(off)), [AddX(TMP.n, base.n, TMP.n)]);
      } else {
        Emit32(MovX(TMP.n, base.n));
        address := [MovX(TMP.n, base.n)];
      }
      Emit32(DmbIsh());
      EmitAtomicOp(op, value);
      Emit32(DmbIsh());
      assert start + address + [DmbIsh()] + [AtomicWord(op, value)] + [DmbIsh()]
          == start + (address + [DmbIsh(), AtomicWord(op, value), DmbIsh()]);
    }

    method EmitEndianNode(toBe: bool, width: EndianWidth, dst: PhysReg)
      requires Valid()
      modifies this`buf
      ensures Appended(EndianWords(toBe, width, dst))
    {
      ghost var start := View().words;
      if toBe {
        match width {
          case Bits16 =>
            Emit32(Rev16W(dst.n, dst.n));
            Emit32(AndXMask(dst.n, dst.n));
            Twice(start, Rev16W(dst.n, dst.n), AndXMask(dst.n, dst.n));
          case Bits32 => Emit32(RevW(dst.n, dst.n));
          case Bits64 => Emit32(RevX(dst.n, dst.n));
        }
      } else {
        assert start + [] == start;
      }
    }

    method EnsureBbMap(bb: nat)
      modifies this`bbOffsets
      ensures bb < |bbOffsets| && Labels() == old(Labels())
    {
      if |bbOffsets| <= bb {
        bbOffsets := bbOffsets + seq(bb + 1 - |bbOffsets|, _ => None);
      }
    }

    method EmitStoreImmNode(width: MemWidth, base: PhysReg, off: i16, imm: i32)
      requires Valid()
      modifies this`buf
      ensures Appended(LoadImmWords(TMP, Wrap64(imm)) + [StoreWord(width, base, TMP, off)])
    {
      hide LoadImmWords, WordsOf, ToLe, StoreWord;
      ghost var start := View().words;
      EmitLoadImm64(TMP, Wrap64(imm));
      EmitStoreNode(width, base, TMP, off);
      Joined(start, LoadImmWords(TMP, Wrap64(imm)), [StoreWord(width, base, TMP, off)]);
    }

    /** Moves eBPF R0 to the ABI's return register and returns. */
    method EmitRetNode()
      requires Valid()
      modifies this`buf
      ensures Appended([MovX(0, 7), Ret()])
    {
      hide WordsOf, ToLe, MovX, Ret;
      ghost var start := View().words;
      Emit32(MovX(0, 7));
      Emit32(Ret());
      Twice(start, MovX(0, 7), Ret());
    }

    /** Loads, stores and atomic operations. */
    method EmitMemoryNode(node: IrNode)
      requires Valid() && AccessesMemory(node)
      modifies this`buf
      ensures Appended(NodeWords(AArch64, node))
    {
      hide StrX, LdrX, LoadImmWords, WordsOf, RegReg, ToLe, LoadWord, StoreWord, AtomicWords;
      match node {
        case IrLoad(width, dst, base, off) => EmitLoadNode(width, dst, base, off);
        case IrStore(width, base, value, off) => EmitStoreNode(width, base, value, off);
        case IrStoreImm(width, base, off, imm) => EmitStoreImmNode(width, base, off, imm);
        case IrSpill(reg, slot) => Emit32(StrX(reg.n, 31, slot));
        case IrFill(reg, slot) => Emit32(LdrX(reg.n, 31, slot));
        case IrAtomic(_, op, base, value, off) => EmitAtomicNode(op, base, value, off);
      }
    }

    /** Any node that is no label and no pending branch. */
    method EmitPlainNode(node: IrNode)
      requires Valid() && !Branching(node) && !node.IrLabel?
      modifies this`buf
      ensures Appended(NodeWords(AArch64, node))
    {
      if AccessesMemory(node) {
        EmitMemoryNode(node);
        return;
      }
      hide Blr, MovX, Ret, PrologueWords, EpilogueWords, LoadImmWords, AluWords64, AluWords32, WordsOf,
           ToLe, EndianWords;
      match node {
        case IrAlu64(op, dst, src) => EmitAlu64Node(op, dst, src);
        case IrAlu32(op, dst, src) => EmitAlu32Node(op, dst, src);
        case IrLoadImm64(dst, imm) => EmitLoadImm64(dst, imm);
        case IrCall(_) => Emit32(Blr(9));
        case IrRet => EmitRetNode();
        case IrEndian(toBe, width, dst) => EmitEndianNode(toBe, width, dst);
        case IrPrologue(frame) => EmitPrologueNode(frame);
        case IrEpilogue(frame) => EmitEpilogueNode(frame);
      }
    }

    /** Emits one node: words, labels and relocations all grow as EmitOne says. */
    method EmitNode(node: IrNode)
      requires Valid()
      modifies this
      ensures Valid() && View() == EmitOne(AArch64, old(View()), node)
    {
      hide EmitOne, WordsOf, NodeWords;
      match node {
        case IrBranch(c, target) => EmitBranchNode(c, target);
        case IrJump(target) => EmitJumpNode(target);
        case IrLabel(bb) => EmitLabelNode(bb);
        case _ =>
          EmitOnePlain(AArch64, View(), node);
          EmitPlainNode(node);
      }
    }

    method EmitPrologueNode(frame: u16)
      requires Valid()
      modifies this`buf
      ensures Appended(PrologueWords(frame))
    {
      hide WordsOf, ToLe, StpPre, MovX, StpOffset, StrX, NegI16;
      ghost var start := View().words;
      Emit32(StpPre(29, 30, 31, NegI16(frame)));
      Emit32(MovX(29, 31));
      Emit32(StpOffset(19, 20, 31, 16));
      Emit32(StpOffset(21, 22, 31, 32));
      Emit32(StrX(25, 31, 48));
      Five(start, StpPre(29, 30, 31, NegI16(frame)), MovX(29, 31), StpOffset(19, 20, 31, 16),
          StpOffset(21, 22, 31, 32), StrX(25, 31, 48));
    }

    method EmitEpilogueNode(frame: u16)
      requires Valid()
      modifies this`buf
      ensures Appended(EpilogueWords(frame))
    {
      hide WordsOf, ToLe, LdpOffset, LdrX, LdpPost;
      ghost var start := View().words;
      Emit32(LdpOffset(19, 20, 31, 16));
      Emit32(LdpOffset(21, 22, 31, 32));
      Emit32(LdrX(25, 31, 48));
      Emit32(LdpPost(29, 30, 31, AsI16(frame)));
      assert View().words == start + EpilogueWords(frame);
    }

    method EmitJumpNode(target: nat)
      requires Valid()
      modifies this`buf, this`relocations
      ensures Valid() && View() == EmitOne(AArch64, old(View()), IrJump(target))
    {
      hide WordsOf, BImm, ToLe;
      var relocOffset := |buf|;
      Emit32(BImm(0));
      relocations := relocations + [Relocation(relocOffset, target, false)];
    }

    method EmitLabelNode(bb: nat)
      requires Valid()
      modifies this`bbOffsets
      ensures Valid() && View() == EmitOne(AArch64, old(View()), IrLabel(bb))
    {
      hide WordsOf;
      EnsureBbMap(bb);
      ghost var before := Labels();
      bbOffsets := bbOffsets[bb := Some(|buf|)];
      assert Labels() == before[bb := |buf|];
    }

    method EmitBlock(block: IrBasicBlock, ghost before: seq<IrNode>)
      requires Valid() && View() == EmitAll(AArch64, before)
      modifies this
      ensures Valid() && View() == EmitAll(AArch64, before + ([IrLabel(block.id)] + block.nodes))
    {
      hide EmitOne, WordsOf, EmitAll;
      EmitNode(IrLabel(block.id));
      EmitAllSnoc(AArch64, before, IrLabel(block.id));
      ghost var done := before + [IrLabel(block.id)];
      for i := 0 to |block.nodes|
        invariant Valid() && View() == EmitAll(AArch64, done)
        invariant done == before + ([IrLabel(block.id)] + block.nodes[..i])
      {
        EmitNode(block.nodes[i]);
        EmitAllSnoc(AArch64, done, block.nodes[i]);
        done := done + [block.nodes[i]];
      }
      assert block.nodes[..|block.nodes|] == block.nodes;
    }

    /** Emits a program: each block's label, then its nodes. */
    method EmitProgram(ir: IrProgram)
      requires Valid() && View() == EMPTY
      modifies this
      ensures Valid() && View() == EmitAll(AArch64, Flatten(ir.blocks))
    {
      hide EmitOne, WordsOf;
      for b := 0 to |ir.blocks|
        invariant Valid() && View() == EmitAll(AArch64, Flatten(ir.blocks[..b]))
      {
        EmitBlock(ir.blocks[b], Flatten(ir.blocks[..b]));
        FlattenSnoc(ir.blocks, b);
      }
      assert ir.blocks[..|ir.blocks|] == ir.blocks;
    }

    /** An upper bound on the code size in bytes, without emitting anything. */
    method CalculateSize(ir: IrProgram) returns (size: nat)
      ensures size == 4 * EstimatedWords(AArch64, ir.blocks, |ir.blocks|)
    {
      var count := 0;
      for b := 0 to |ir.blocks|
        invariant count == EstimatedWords(AArch64, ir.blocks, b)
      {
        count := count + 1;
        count := count + |ir.blocks[b].nodes| * MaxExpansion(AArch64);
      }
      size := count * 4;
    }

    /** Resolves one relocation in place, if its label is known and near enough. */
    method Resolve(reloc: Relocation) returns (ok: bool)
      requires Valid() && InBounds(reloc, |buf| / 4)
      modifies this`buf
      ensures Valid() && ok == Resolvable(AArch64, reloc, Labels())
      ensures if ok then
                View() == old(View()).(words := old(View()).words[reloc.offset / 4 :=
                            PatchedWord(AArch64, old(View()).words[reloc.offset / 4], reloc, Labels())])
              else buf == old(buf)
    {
      hide WordsOf, ToLe, FromLe, AsU32, TruncDiv;
      if reloc.target >= |bbOffsets| || bbOffsets[reloc.target].None? {
        return false;
      }
      var targetOffset := bbOffsets[reloc.target].value;
      assert Labels()[reloc.target] == targetOffset;
      var imm := TruncDiv(targetOffset - reloc.offset, 4);
      var at := reloc.offset;
      var patched;
      if reloc.isConditional {
        if imm < -0x40000 || imm >= 0x40000 {
          return false;
        }
        var existing := FromLe(buf[at..at + 4]);
        WordAt(buf, at);
        patched := (existing & 0xFF00001F) | ((AsU32(imm) & 0x7FFFF) << 5);
      } else {
        if imm < -0x2000000 || imm >= 0x2000000 {
          return false;
        }
        patched := 0x14000000 | (AsU32(imm) & 0x03FFFFFF);
      }
      assert patched == PatchedWord(AArch64, WordsOf(buf)[at / 4], reloc, Labels());
      Bytes.PatchWord(buf, at, patched);
      buf := buf[..at] + ToLe(patched) + buf[at + 4..];
      ok := true;
    }

    /** Resolves the relocations in order, patching the buffer in place. */
    method Finalize() returns (r: LinkResult)
      requires Valid()
      modifies this`buf
      ensures Valid() && r == Link(AArch64, old(View()).words, Labels(), relocations)
      ensures r.Linked? ==> View() == old(View()).(words := r.words)
    {
      hide WordsOf, PatchedWord, Resolvable;
      assert relocations[0..] == relocations;
      for i := 0 to |relocations|
        invariant Valid() && |buf| == |old(buf)|
        invariant LinkReady(View().words, relocations[i..])
        invariant Link(AArch64, old(View()).words, Labels(), relocations)
             == Link(AArch64, View().words, Labels(), relocations[i..])
      {
        var ok := Resolve(relocations[i]);
        assert relocations[i..][1..] == relocations[i + 1..];
        if !ok {
          return LinkError(RelocationOutOfRange(relocations[i].target));
        }
      }
      r := Linked(WordsOf(buf));
    }
  }
}
