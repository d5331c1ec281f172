/** Every emitted RISC-V word decodes to the instruction it was packed from, and branch and jump
    offsets survive packing, unpacking and patching. */
module RvDecode {
  import opened Isa
  import opened Bits
  import opened Casts
  import opened Interpreter
  import opened RvEncode
  import opened RvWords
  import opened RvMachine

  predicate IsReg(r: bv8) { r < 32 }

  /** The bits of a branch outside its immediate: rs2, rs1, funct3 and opcode. */
  function Kept(w: bv32): bv32 { w & 0x01FFF07F }

  // ---------- fields ----------

  lemma RTypeFields(funct7: bv32, rs2: bv8, rs1: bv8, funct3: bv32, rd: bv8, opcode: bv32)
    requires IsReg(rd) && IsReg(rs1) && IsReg(rs2) && funct7 < 0x80 && funct3 < 8 && opcode < 0x80
    ensures var w := RType(funct7, rs2, rs1, funct3, rd, opcode);
            && Opcode(w) == opcode && Rd(w) == rd && Rs1(w) == rs1 && Rs2(w) == rs2
            && Funct3(w) == funct3 && w >> 25 == funct7
  {}

  lemma DecodeR(word: bool, funct7: bv32, rs2: bv8, rs1: bv8, funct3: bv32, rd: bv8)
    requires IsReg(rd) && IsReg(rs1) && IsReg(rs2) && funct7 < 0x80 && funct3 < 8
    requires OpOf(funct7, funct3).Some? && (word ==> HasWordForm(OpOf(funct7, funct3).value))
    ensures Decode(RType(funct7, rs2, rs1, funct3, rd, if word then 0x3B else 0x33))
         == Register(word, OpOf(funct7, funct3).value, rd, rs1, rs2)
  {
    RTypeFields(funct7, rs2, rs1, funct3, rd, if word then 0x3B else 0x33);
    hide RType, Rd, Rs1, Rs2, OpOf, HasWordForm;
  }

  lemma IFormFields(imm: bv32, rs1: bv8, funct3: bv32, rd: bv8, opcode: bv32)
    requires IsReg(rd) && IsReg(rs1) && funct3 < 8 && opcode < 0x80
    ensures var w := IForm(imm, rs1, funct3, rd, opcode);
            && Opcode(w) == opcode && Rd(w) == rd && Rs1(w) == rs1 && Funct3(w) == funct3 && w >> 20 == imm & 0xFFF
  {}

  lemma SFormFields(imm: bv32, rs2: bv8, rs1: bv8, funct3: bv32, opcode: bv32)
    requires IsReg(rs1) && IsReg(rs2) && funct3 < 8 && opcode < 0x80
    ensures var w := SForm(imm & 0xFFF, rs2, rs1, funct3, opcode);
            && Opcode(w) == opcode && Rs1(w) == rs1 && Rs2(w) == rs2 && Funct3(w) == funct3 && SOffset(w) == imm & 0xFFF
  {}

  predicate ShiftBaseWord(base: bv32) { base in {0x1013, 0x5013, 0x40005013} }

  lemma ShiftLowFields(base: bv32, rd: bv8, rs1: bv8, shamt: bv32)
    requires IsReg(rd) && IsReg(rs1) && ShiftBaseWord(base)
    ensures var w := ShiftForm(base, rd, rs1, shamt); Opcode(w) == 0x13 && Rd(w) == rd
  {
    hide Rs1, Funct3;
  }

  lemma ShiftHighFields(base: bv32, rd: bv8, rs1: bv8, shamt: bv32)
    requires IsReg(rd) && IsReg(rs1) && ShiftBaseWord(base)
    ensures var w := ShiftForm(base, rd, rs1, shamt); w >> 26 == base >> 26 && (w >> 20) & 63 == shamt & 0x3F
  {
    hide Opcode, Rd, Rs1, Funct3;
  }

  lemma ShiftSource(base: bv32, rd: bv8, rs1: bv8, shamt: bv32)
    requires IsReg(rd) && IsReg(rs1) && ShiftBaseWord(base)
    ensures var w := ShiftForm(base, rd, rs1, shamt); Rs1(w) == rs1
  {
    hide Opcode, Rd, Funct3;
  }

  lemma ShiftFunct(base: bv32, rd: bv8, rs1: bv8, shamt: bv32)
    requires IsReg(rd) && IsReg(rs1) && ShiftBaseWord(base)
    ensures var w := ShiftForm(base, rd, rs1, shamt); Funct3(w) == Funct3(base)
  {
    hide Opcode, Rd, Rs1;
  }

  lemma ShiftFields(base: bv32, rd: bv8, rs1: bv8, shamt: bv32)
    requires IsReg(rd) && IsReg(rs1) && ShiftBaseWord(base)
    ensures var w := ShiftForm(base, rd, rs1, shamt);
            && Opcode(w) == 0x13 && Rd(w) == rd && Rs1(w) == rs1 && Funct3(w) == Funct3(base)
            && w >> 26 == base >> 26 && (w >> 20) & 63 == shamt & 0x3F
  {
    hide *;
    ShiftLowFields(base, rd, rs1, shamt);
    ShiftHighFields(base, rd, rs1, shamt);
    ShiftSource(base, rd, rs1, shamt);
    ShiftFunct(base, rd, rs1, shamt);
  }

  /** 12-bit immediates: signed values from -2048 to 2047. */
  lemma Imm12Value(imm: int)
    requires Fits12(imm)
    ensures Imm12(AsU32(imm) & 0xFFF) == imm
  {
    FieldMask(12);
    SignedFieldValue(imm, 12);
    hide AsU32, SignedField, Mask, Pow2;
  }

  lemma DecodeI(imm: int, rs1: bv8, funct3: bv32, rd: bv8, op: RvOp)
    requires IsReg(rd) && IsReg(rs1) && Fits12(imm)
    requires (funct3 == 0 && op == OpAdd) || (funct3 == 4 && op == OpXor) || (funct3 == 6 && op == OpOr) ||
             (funct3 == 7 && op == OpAnd)
    ensures Decode(IType(imm, rs1, funct3, rd, 0x13)) == Immediate(op, rd, rs1, AsU32(imm) & 0xFFF)
    ensures Imm12(AsU32(imm) & 0xFFF) == imm
  {
    Imm12Value(imm);
    IFormFields(AsU32(imm), rs1, funct3, rd, 0x13);
    hide IForm, Rd, Rs1, AsU32, Imm12;
  }

  lemma SixBits()
    ensures Mask(6) == 0x3F && Pow2(6) == 64
  {}

  lemma ShamtValue(s: nat)
    requires s < 64
    ensures FromWord(AsU32(s) & 0x3F, 6) == s
  {
    hide ToWord, FromWord;
    SixBits();
    ModUnique(s, TWO_32, 0, s);
    ModUnique(s, 64, 0, s);
    hide Mask, Pow2;
    FieldValue(s, 6);
  }

  /** A word with the fields of a shift by an immediate. */
  lemma ShiftDecodes(w: bv32, base: bv32, op: RvOp)
    requires (base == 0x1013 && op == OpSll) || (base == 0x5013 && op == OpSrl) || (base == 0x40005013 && op == OpSra)
    requires Opcode(w) == 0x13 && Funct3(w) == Funct3(base) && w >> 26 == base >> 26
    ensures Decode(w) == ShiftImm(op, Rd(w), Rs1(w), (w >> 20) & 63)
  {
    hide Rd, Rs1;
  }

  lemma DecodeShift(base: bv32, rd: bv8, rs1: bv8, s: nat, op: RvOp)
    requires IsReg(rd) && IsReg(rs1) && s < 64
    requires (base == 0x1013 && op == OpSll) || (base == 0x5013 && op == OpSrl) || (base == 0x40005013 && op == OpSra)
    ensures Decode(ShiftForm(base, rd, rs1, AsU32(s))) == ShiftImm(op, rd, rs1, AsU32(s) & 0x3F)
  {
    hide ShiftForm, Rd, Rs1, Opcode, Funct3, Decode, AsU32;
    ShiftFields(base, rd, rs1, AsU32(s));
    ShiftDecodes(ShiftForm(base, rd, rs1, AsU32(s)), base, op);
  }

  lemma DecodeLoad(imm: int, rs1: bv8, rd: bv8)
    requires IsReg(rd) && IsReg(rs1)
    ensures Decode(Ld(rd, rs1, imm)) == LoadDouble(rd, rs1, AsU32(imm) & 0xFFF)
  {
    IFormFields(AsU32(imm), rs1, 3, rd, 0x03);
    hide IForm, Rd, Rs1, AsU32;
  }

  lemma DecodeStore(imm: int, rs1: bv8, rs2: bv8)
    requires IsReg(rs1) && IsReg(rs2)
    ensures Decode(Sd(rs2, rs1, imm)) == StoreDouble(rs2, rs1, AsU32(imm) & 0xFFF)
  {
    SFormFields(AsU32(imm), rs2, rs1, 3, 0x23);
    hide SForm, Rs1, Rs2, AsU32, SOffset;
  }

  // ---------- branch and jump offsets ----------

  lemma BBits(imm: bv32)
    requires imm & 1 == 0
    ensures BOffset(BImmBits(imm & 0x1FFE)) == imm & 0x1FFF
  {}

  lemma JBits(imm: bv32)
    requires imm & 1 == 0
    ensures JOffset(JImmBits(imm)) == imm & 0x1F_FFFF
  {}

  lemma EvenWord(x: nat)
    requires x % 2 == 0
    ensures ToWord(x) & 1 == 0
  {
    assert BitOf(x % 2 == 1) == 0;
    if x != 0 {
      ShiftedIsEven(ToWord(x / 2));
    }
  }

  lemma ShiftedIsEven(w: bv32)
    ensures ((w << 1) | 0) & 1 == 0
  {}

  lemma EvenOffset(d: int)
    requires d % 2 == 0
    ensures AsU32(d) & 1 == 0
  {
    assert d % TWO_32 % 2 == 0;
    hide ToWord;
    EvenWord(d % TWO_32);
  }

  lemma BField(d: int)
    requires d % 2 == 0
    ensures BOffset(EncodeBTypeImm(d)) == AsU32(d) & 0x1FFF
  {
    hide AsU32, BOffset, BImmBits;
    EvenOffset(d);
    BBits(AsU32(d));
  }

  lemma JField(d: int)
    requires d % 2 == 0
    ensures JOffset(EncodeJTypeImm(d)) == AsU32(d) & 0x1F_FFFF
  {
    hide AsU32, JOffset, JImmBits;
    EvenOffset(d);
    JBits(AsU32(d));
  }

  /** Packing a branch offset and unpacking it, as the ISA prescribes, gives it back: for every even
      offset in reach. */
  lemma BRoundTrip(d: int)
    requires d % 2 == 0 && -0x1000 <= d < 0x1000
    ensures SignedField(BOffset(EncodeBTypeImm(d)), 13) == d
  {
    hide AsU32, SignedField, Mask, Pow2, BOffset, EncodeBTypeImm;
    FieldMask(13);
    BField(d);
    SignedFieldValue(d, 13);
  }

  /** The same for jumps. */
  lemma JRoundTrip(d: int)
    requires d % 2 == 0 && -0x10_0000 <= d < 0x10_0000
    ensures SignedField(JOffset(EncodeJTypeImm(d)), 21) == d
  {
    hide AsU32, SignedField, Mask, Pow2, JOffset, EncodeJTypeImm;
    FieldMask(21);
    JField(d);
    SignedFieldValue(d, 21);
  }

  /** The reach of a branch or jump is exactly what its offset field can hold: an even displacement is in
      reach if and only if some word has it as its offset. */
  lemma ReachExact(d: int)
    requires d % 2 == 0
    ensures RvInReach(true, d) <==> exists w :: SignedField(BOffset(w), 13) == d
    ensures RvInReach(false, d) <==> exists w :: SignedField(JOffset(w), 21) == d
  {
    FieldMask(13);
    FieldMask(21);
    forall w
      ensures -0x1000 <= SignedField(BOffset(w), 13) < 0x1000
      ensures -0x10_0000 <= SignedField(JOffset(w), 21) < 0x10_0000
    {
      SignedRange(BOffset(w), 13);
      SignedRange(JOffset(w), 21);
    }
    hide SignedField, Pow2, Mask, BOffset, JOffset, EncodeBTypeImm, EncodeJTypeImm;
    if RvInReach(true, d) {
      BRoundTrip(d);
    }
    if RvInReach(false, d) {
      JRoundTrip(d);
    }
  }

  // ---------- patched words ----------

  lemma BranchBitsApart(imm: bv32)
    ensures BImmBits(imm) & 0x01FFF07F == 0
  {}

  lemma MergedKeeps(w: bv32, bits: bv32)
    requires bits & 0x01FFF07F == 0
    ensures var p := bits | (w & 0x01FFF07F); Kept(p) == Kept(w)
  {}

  lemma KeptFields(w: bv32, p: bv32)
    requires Kept(p) == Kept(w)
    ensures Opcode(p) == Opcode(w) && Funct3(p) == Funct3(w) && Rs1(p) == Rs1(w) && Rs2(p) == Rs2(w)
  {
    KeptOperands(w, p);
    hide Rs1, Rs2;
  }

  lemma KeptOperands(w: bv32, p: bv32)
    requires Kept(p) == Kept(w)
    ensures Rs1(p) == Rs1(w) && Rs2(p) == Rs2(w)
  {}

  lemma MergedOffset(w: bv32, bits: bv32)
    ensures BOffset(bits | (w & 0x01FFF07F)) == BOffset(bits)
  {}

  lemma PatchedBranchFields(w: bv32, imm: bv32)
    ensures var p := BImmBits(imm) | (w & 0x01FFF07F);
            && Opcode(p) == Opcode(w) && Funct3(p) == Funct3(w) && Rs1(p) == Rs1(w) && Rs2(p) == Rs2(w)
            && BOffset(p) == BOffset(BImmBits(imm)) && Kept(p) == Kept(w)
  {
    hide *;
    BranchBitsApart(imm);
    MergedKeeps(w, BImmBits(imm));
    KeptFields(w, BImmBits(imm) | (w & 0x01FFF07F));
    MergedOffset(w, BImmBits(imm));
  }

  lemma BranchGroup(w: bv32)
    requires Opcode(w) == 0x63
    ensures Decode(w) == DecodeBranch(w)
  {
    hide DecodeRegister, DecodeImmediate, DecodeBranch, JOffset, SOffset, Rd, Rs1, Rs2;
  }

  lemma JumpGroup(w: bv32)
    requires Opcode(w) == 0x6F
    ensures Decode(w) == JumpLink(Rd(w), JOffset(w))
  {
    hide DecodeRegister, DecodeImmediate, DecodeBranch, JOffset, SOffset, Rd, Rs1, Rs2;
  }

  lemma PatchedJumpFields(w: bv32, imm: bv32)
    ensures var p := JImmBits(imm) | 0x6F | (w & 0xF80);
            Opcode(p) == 0x6F && Rd(p) == Rd(w) && JOffset(p) == JOffset(JImmBits(imm))
  {}

  /** A patched branch keeps its comparison and operands — every bit outside the immediate — and
      gets its displacement. */
  lemma PatchedBranch(existing: bv32, d: int)
    requires RvInReach(true, d) && d % 2 == 0 && Opcode(existing) == 0x63 && CondOf(Funct3(existing)).Some?
    ensures var p := RvPatch(existing, true, d);
            && Kept(p) == Kept(existing)
            && Decode(p) == BranchIf(CondOf(Funct3(existing)).value, Rs1(existing), Rs2(existing),
               BOffset(EncodeBTypeImm(d)))
            && SignedField(BOffset(EncodeBTypeImm(d)), 13) == d
  {
    hide AsU32, SignedField, BImmBits, BOffset, Rs1, Rs2, CondOf, Decode, Opcode, Funct3, Kept;
    BRoundTrip(d);
    PatchedBranchFields(existing, AsU32(d) & 0x1FFE);
    BranchGroup(RvPatch(existing, true, d));
  }

  /** A patched jump keeps its link register and gets its displacement. */
  lemma PatchedJump(existing: bv32, d: int)
    requires RvInReach(false, d) && d % 2 == 0
    ensures Decode(RvPatch(existing, false, d)) == JumpLink(Rd(existing), JOffset(EncodeJTypeImm(d)))
    ensures SignedField(JOffset(EncodeJTypeImm(d)), 21) == d
  {
    hide AsU32, SignedField, JImmBits, JOffset, Rd, Decode, Opcode;
    JRoundTrip(d);
    PatchedJumpFields(existing, AsU32(d));
    JumpGroup(RvPatch(existing, false, d));
  }

  lemma BTypeFields(imm: bv32, rs1: bv8, rs2: bv8, funct3: bv32)
    requires IsReg(rs1) && IsReg(rs2) && funct3 < 8
    ensures var w := BImmBits(imm) | ((rs2 as bv32) << 20) | ((rs1 as bv32) << 15) | (funct3 << 12) | 0x63;
            Opcode(w) == 0x63 && Funct3(w) == funct3 && Rs1(w) == rs1 && Rs2(w) == rs2
  {}

  /** The unpatched branch. */
  lemma BranchPlaceholder(rs1: bv8, rs2: bv8, funct3: bv32)
    requires IsReg(rs1) && IsReg(rs2) && funct3 < 8
    ensures var w := Btype(0, rs1, rs2, funct3);
            Opcode(w) == 0x63 && Funct3(w) == funct3 && Rs1(w) == rs1 && Rs2(w) == rs2
  {
    BTypeFields(AsU32(0) & 0x1FFE, rs1, rs2, funct3);
    hide AsU32, BImmBits, Rs1, Rs2;
  }

  /** Words of the manual's own tables, some of which the repository's tests expect too. */
  lemma KnownWords()
    ensures RvAdd(1, 2, 3) == 0x003100B3 && RvSub(1, 2, 3) == 0x403100B3 && RvMul(1, 2, 3) == 0x023100B3
    ensures RvDivu(1, 2, 3) == 0x023150B3 && RvRemu(1, 2, 3) == 0x023170B3
    ensures RvOr(1, 2, 3) == 0x003160B3 && RvAnd(1, 2, 3) == 0x003170B3 && RvXor(1, 2, 3) == 0x003140B3
    ensures RvSll(1, 2, 3) == 0x003110B3 && RvSrl(1, 2, 3) == 0x003150B3 && RvSra(1, 2, 3) == 0x403150B3
    ensures RvAddw(1, 2, 3) == 0x003100BB && RvSubw(1, 2, 3) == 0x403100BB && FenceRwRw() == 0x0330000F
    ensures AmoaddD(0, 1, 23) == 0x061BB02F && AmoswapD(0, 1, 23) == 0x0E1BB02F && AmoxorD(0, 1, 23) == 0x261BB02F
    ensures AmoorD(0, 1, 23) == 0x461BB02F && AmoandD(0, 1, 23) == 0x661BB02F
  {}
}
