/** Addressing of loads and stores on RISC-V: which offsets the emitted words really encode. */
module RvAccess {
  import opened Isa
  import opened Bits
  import opened Casts
  import opened Flow
  import opened Interpreter
  import opened Ir
  import opened RvEncode
  import opened RvWords
  import opened RvMachine
  import opened RvDecode

  // ---------- decoding, after section 2.6 and chapter 5 of the Unprivileged ISA ----------

  /** A load, zero-extending, or a store. */
  datatype Access = Access(load: bool, width: MemWidth, rt: bv8, rn: bv8, off: int) | NoAccess

  /** funct3 of the unsigned loads and of the stores. */
  function WidthOfLoad(funct3: bv32): MemWidth {
    if funct3 == 4 then B else if funct3 == 5 then H else if funct3 == 6 then W else DW
  }

  function WidthOfStore(funct3: bv32): MemWidth {
    if funct3 == 0 then B else if funct3 == 1 then H else if funct3 == 2 then W else DW
  }

  function DecodeAccess(w: bv32): Access {
    if Opcode(w) == 0x03 && 3 <= Funct3(w) <= 6 then Access(true, WidthOfLoad(Funct3(w)), Rd(w), Rs1(w), Imm12(w >> 20))
    else if Opcode(w) == 0x23 && Funct3(w) <= 3 then
      Access(false, WidthOfStore(Funct3(w)), Rs2(w), Rs1(w), Imm12(SOffset(w)))
    else NoAccess
  }

  // ---------- the emitted words ----------

  function AccessWord(load: bool, width: MemWidth, rt: PhysReg, rn: PhysReg, off: i16): bv32 {
    if load then RvLoadWord(width, rt, rn, off) else RvStoreWord(width, rn, rt.n, off)
  }

  function LoadFunct3(width: MemWidth): bv32 {
    match width
    case B => 4
    case H => 5
    case W => 6
    case DW => 3
  }

  function StoreFunct3(width: MemWidth): bv32 {
    match width
    case B => 0
    case H => 1
    case W => 2
    case DW => 3
  }

  lemma AccessWordIs(width: MemWidth, rt: PhysReg, rn: PhysReg, off: i16)
    ensures AccessWord(true, width, rt, rn, off) == IForm(AsU32(off), rn.n, LoadFunct3(width), rt.n, 0x03)
    ensures AccessWord(false, width, rt, rn, off) == SForm(AsU32(off) & 0xFFF, rt.n, rn.n, StoreFunct3(width), 0x23)
  {
    hide AsU32, IForm, SForm;
  }

  lemma Widths(width: MemWidth)
    ensures 3 <= LoadFunct3(width) <= 6 && WidthOfLoad(LoadFunct3(width)) == width
    ensures StoreFunct3(width) <= 3 && WidthOfStore(StoreFunct3(width)) == width
  {}

  lemma LoadDecoded(imm: bv32, rn: bv8, funct3: bv32, rt: bv8)
    requires IsReg(rt) && IsReg(rn) && 3 <= funct3 <= 6
    ensures DecodeAccess(IForm(imm, rn, funct3, rt, 0x03))
         == Access(true, WidthOfLoad(funct3), rt, rn, Imm12(imm & 0xFFF))
  {
    hide IForm, Imm12, Rd, Rs1, Rs2, SOffset, WidthOfLoad, WidthOfStore;
    IFormFields(imm, rn, funct3, rt, 0x03);
  }

  lemma StoreDecoded(imm: bv32, rt: bv8, rn: bv8, funct3: bv32)
    requires IsReg(rt) && IsReg(rn) && funct3 <= 3
    ensures DecodeAccess(SForm(imm & 0xFFF, rt, rn, funct3, 0x23))
         == Access(false, WidthOfStore(funct3), rt, rn, Imm12(imm & 0xFFF))
  {
    hide SForm, Imm12, Rd, Rs1, Rs2, SOffset, WidthOfLoad, WidthOfStore;
    SFormFields(imm, rt, rn, funct3, 0x23);
  }

  /** Everything but the offset is always right, and the offset is what 12 bits of it say. */
  lemma Decoded(load: bool, width: MemWidth, rt: PhysReg, rn: PhysReg, off: i16)
    requires IsReg(rt.n) && IsReg(rn.n)
    ensures DecodeAccess(AccessWord(load, width, rt, rn, off))
         == Access(load, width, rt.n, rn.n, Imm12(AsU32(off) & 0xFFF))
  {
    hide *;
    Widths(width);
    AccessWordIs(width, rt, rn, off);
    if load {
      LoadDecoded(AsU32(off), rn.n, LoadFunct3(width), rt.n);
    } else {
      StoreDecoded(AsU32(off), rt.n, rn.n, StoreFunct3(width));
    }
  }

  lemma TwelveBits(field: bv32)
    ensures Fits12(Imm12(field))
  {
    FieldMask(12);
    hide FromWord, Mask;
    assert Pow2(12) == 2 * Pow2(11);
  }

  /** A load or store goes where the instruction says exactly if its offset fits 12 signed bits. */
  lemma AccessExact(load: bool, width: MemWidth, rt: PhysReg, rn: PhysReg, off: i16)
    requires IsReg(rt.n) && IsReg(rn.n)
    ensures DecodeAccess(AccessWord(load, width, rt, rn, off)) == Access(load, width, rt.n, rn.n, off) <==> Fits12(off)
  {
    hide AccessWord, DecodeAccess, AsU32, Imm12;
    Decoded(load, width, rt, rn, off);
    TwelveBits(AsU32(off) & 0xFFF);
    if Fits12(off) {
      Imm12Value(off);
    }
  }

  /** The word does the access, exactly if its offset can be encoded. */
  predicate Reaches(w: bv32, load: bool, width: MemWidth, rt: bv8, rn: bv8, off: i16) {
    DecodeAccess(w) == Access(load, width, rt, rn, off) <==> Fits12(off)
  }

  /** Loads and stores are one word with the node's own registers, width and offset. */
  lemma AccessNodes(width: MemWidth, r: PhysReg, base: PhysReg, off: i16)
    requires IsReg(r.n) && IsReg(base.n)
    ensures var ws := RvNodeWords(IrLoad(width, r, base, off));
            |ws| == 1 && Reaches(ws[0], true, width, r.n, base.n, off)
    ensures var ws := RvNodeWords(IrStore(width, base, r, off));
            |ws| == 1 && Reaches(ws[0], false, width, r.n, base.n, off)
  {
    hide DecodeAccess, AccessWord, RvLoadWord, RvStoreWord, Fits12, RvNodeWords;
    AccessExact(true, width, r, base, off);
    AccessExact(false, width, r, base, off);
    LoadWords(width, r, base, off);
  }

  lemma LoadWords(width: MemWidth, r: PhysReg, base: PhysReg, off: i16)
    ensures RvNodeWords(IrLoad(width, r, base, off)) == [AccessWord(true, width, r, base, off)]
    ensures RvNodeWords(IrStore(width, base, r, off)) == [AccessWord(false, width, r, base, off)]
  {
    hide RvLoadWord, RvStoreWord;
  }

  /** A constant is first loaded into s7 and stored from there. */
  lemma ConstantStore(width: MemWidth, base: PhysReg, off: i16, imm: i32)
    requires IsReg(base.n)
    ensures var ws, load := RvNodeWords(IrStoreImm(width, base, off, imm)), RvLoadImm(23, Wrap64(imm));
            |ws| == |load| + 1 && ws[..|load|] == load && Reaches(ws[|load|], false, width, 23, base.n, off)
  {
    hide DecodeAccess, AccessWord, RvLoadWord, RvStoreWord, Fits12, RvNodeWords, RvLoadImm, Wrap64;
    AccessExact(false, width, PhysReg(23), base, off);
    ConstantWords(width, base, off, imm);
  }

  lemma ConstantWords(width: MemWidth, base: PhysReg, off: i16, imm: i32)
    ensures RvNodeWords(IrStoreImm(width, base, off, imm))
         == RvLoadImm(23, Wrap64(imm)) + [AccessWord(false, width, PhysReg(23), base, off)]
  {
    hide RvLoadWord, RvStoreWord, RvLoadImm, Wrap64;
  }

  /** Spills and fills are doublewords relative to the stack pointer. */
  lemma SpillNodes(r: PhysReg, off: i16)
    requires IsReg(r.n)
    ensures var ws := RvNodeWords(IrSpill(r, off)); |ws| == 1 && Reaches(ws[0], false, DW, r.n, 2, off)
    ensures var ws := RvNodeWords(IrFill(r, off)); |ws| == 1 && Reaches(ws[0], true, DW, r.n, 2, off)
  {
    hide DecodeAccess, AccessWord, RvLoadWord, RvStoreWord, Fits12, RvNodeWords;
    AccessExact(false, DW, r, PhysReg(2), off);
    AccessExact(true, DW, r, PhysReg(2), off);
    SpillWords(r, off);
  }

  lemma SpillWords(r: PhysReg, off: i16)
    ensures RvNodeWords(IrSpill(r, off)) == [AccessWord(false, DW, r, PhysReg(2), off)]
    ensures RvNodeWords(IrFill(r, off)) == [AccessWord(true, DW, r, PhysReg(2), off)]
  {
    hide Ld, Sd;
  }

  /** So every access to the eBPF stack that verification accepts is encoded right. */
  lemma FrameAccessesReached(i: Insn, load: bool, width: MemWidth, rt: PhysReg, rn: PhysReg)
    requires FrameAccess(i) && FrameOk(i) && IsReg(rt.n) && IsReg(rn.n)
    ensures DecodeAccess(AccessWord(load, width, rt, rn, i.off)) == Access(load, width, rt.n, rn.n, i.off)
  {
    hide AccessWord, DecodeAccess;
    AccessExact(load, width, rt, rn, i.off);
  }
}
