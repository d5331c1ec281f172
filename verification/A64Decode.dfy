/** Every emitted word decodes to the instruction it was packed from. */
module A64Decode {
  import opened Interpreter
  import opened A64Encode
  import opened A64Machine

  predicate IsReg(r: bv8) { r < 32 }

  lemma RegRegFields(base: bv32, rd: bv8, rn: bv8, rm: bv8)
    requires IsReg(rd) && IsReg(rn) && IsReg(rm) && base & 0x001F03FF == 0
    ensures var w := RegReg(base, rd, rn, rm);
            && FieldD(w) == rd && FieldN(w) == rn && FieldM(w) == rm
            && FilledIn(w, base)
  {}

  /** w has the bits of base around three register numbers. */
  predicate FilledIn(w: bv32, base: bv32) { w & 0xFFE0FC00 == base }

  predicate DataRegBase(base: bv32) { base & 0x001F03FF == 0 && base & 0x0E000000 == 0x0A000000 }

  lemma MaskWithin(w: bv32, base: bv32)
    requires FilledIn(w, base)
    ensures w & 0x7FE0FC00 == base & 0x7FE0FC00 && w & 0x80000000 == base & 0x80000000
    ensures w & 0x0E000000 == base & 0x0E000000
  {}

  lemma DataRegGroup(w: bv32, base: bv32)
    requires w & 0x7FE0FC00 == base & 0x7FE0FC00 && w & 0x80000000 == base & 0x80000000
    requires w & 0x0E000000 == 0x0A000000 && RegOpOf(base).Some?
    ensures Decode(w) == DataReg(base & 0x80000000 != 0, RegOpOf(base).value, FieldD(w), FieldN(w), FieldM(w))
  {
    hide FieldD, FieldN, FieldM, FieldA, DecodeDataImm, DecodeBranch, DecodeLoadStore, RegOpByKey;
  }

  lemma DataRegDecodes(w: bv32, base: bv32)
    requires FilledIn(w, base) && DataRegBase(base) && RegOpOf(base).Some?
    ensures Decode(w) == DataReg(base & 0x80000000 != 0, RegOpOf(base).value, FieldD(w), FieldN(w), FieldM(w))
  {
    hide Decode, RegOpOf, FieldD, FieldN, FieldM;
    MaskWithin(w, base);
    DataRegGroup(w, base);
  }

  lemma DecodeRegReg(base: bv32, rd: bv8, rn: bv8, rm: bv8)
    requires IsReg(rd) && IsReg(rn) && IsReg(rm) && DataRegBase(base) && RegOpOf(base).Some?
    ensures Decode(RegReg(base, rd, rn, rm)) == DataReg(base & 0x80000000 != 0, RegOpOf(base).value, rd, rn, rm)
  {
    DataRegFree(base);
    hide *;
    RegRegFields(base, rd, rn, rm);
    DataRegDecodes(RegReg(base, rd, rn, rm), base);
  }

  lemma DataRegFree(base: bv32)
    requires DataRegBase(base)
    ensures base & 0x001F03FF == 0
  {
  }

  lemma MsubFields(is64: bool, rd: bv8, rn: bv8, rm: bv8, ra: bv8)
    requires IsReg(rd) && IsReg(rn) && IsReg(rm) && IsReg(ra)
    ensures var w := if is64 then MsubX(rd, rn, rm, ra) else MsubW(rd, rn, rm, ra);
            && FieldD(w) == rd && FieldN(w) == rn && FieldM(w) == rm && FieldA(w) == ra
            && w & 0xFFE08000 == if is64 then 0x9B008000 else 0x1B008000
  {}

  lemma MulSubGroup(w: bv32)
    requires w & 0x7FE08000 == 0x1B008000
    ensures Decode(w) == MulSub(w & 0x80000000 != 0, FieldD(w), FieldN(w), FieldM(w), FieldA(w))
  {
    hide FieldD, FieldN, FieldM, FieldA, DecodeDataImm, DecodeBranch, DecodeLoadStore;
  }

  lemma DecodeMsub(is64: bool, rd: bv8, rn: bv8, rm: bv8, ra: bv8)
    requires IsReg(rd) && IsReg(rn) && IsReg(rm) && IsReg(ra)
    ensures Decode(if is64 then MsubX(rd, rn, rm, ra) else MsubW(rd, rn, rm, ra)) == MulSub(is64, rd, rn, rm, ra)
  {
    MsubFields(is64, rd, rn, rm, ra);
    hide MsubX, MsubW, Decode, FieldD, FieldN, FieldM, FieldA;
    MulSubGroup(if is64 then MsubX(rd, rn, rm, ra) else MsubW(rd, rn, rm, ra));
  }

  lemma DecodeImm12(base: bv32, rd: bv8, rn: bv8, imm12: bv16)
    requires IsReg(rd) && IsReg(rn) && base & 0x3FFFFFFF == 0x11000000
    ensures Decode(Imm12Form(base, rd, rn, imm12))
         == AddSubImm(base & 0x80000000 != 0, base & 0x40000000 != 0, rd, rn, (imm12 as bv32) & 0xFFF)
  {
    hide DecodeDataReg, DecodeBranch, DecodeLoadStore;
  }

  lemma DecodeMoveWide(base: bv32, rd: bv8, imm16: bv16, hw: bv32)
    requires IsReg(rd) && hw < 4 && base & 0x5FFFFFFF == 0x52800000
    requires base & 0x80000000 == 0 ==> hw < 2
    ensures Decode(MovWide(base, rd, imm16, hw))
         == MoveWide(base & 0x80000000 != 0, base & 0x20000000 != 0, rd, imm16 as bv32, hw)
  {
    hide DecodeDataReg, DecodeBranch, DecodeLoadStore;
  }

  lemma DecodeLsl(rd: bv8, rn: bv8, shift: bv8)
    requires IsReg(rd) && IsReg(rn) && shift < 64
    ensures Decode(LslXImm(rd, rn, shift)) == Bitfield(false, rd, rn, ((64 - shift) & 63) as bv32, (63 - shift) as bv32)
  {
    hide DecodeDataReg, DecodeBranch, DecodeLoadStore;
  }

  lemma DecodeLsr(rd: bv8, rn: bv8, shift: bv8)
    requires IsReg(rd) && IsReg(rn) && shift < 64
    ensures Decode(LsrXImm(rd, rn, shift)) == Bitfield(false, rd, rn, shift as bv32, 63)
  {
    hide DecodeDataReg, DecodeBranch, DecodeLoadStore;
  }

  lemma DecodeAsr(rd: bv8, rn: bv8, shift: bv8)
    requires IsReg(rd) && IsReg(rn) && shift < 64
    ensures Decode(AsrXImm(rd, rn, shift)) == Bitfield(true, rd, rn, shift as bv32, 63)
  {
    hide DecodeDataReg, DecodeBranch, DecodeLoadStore;
  }

  lemma CompareFields(is64: bool, rn: bv8, rm: bv8)
    requires IsReg(rn) && IsReg(rm)
    ensures var w := if is64 then CmpX(rn, rm) else CmpW(rn, rm);
            && FieldN(w) == rn && FieldM(w) == rm && w & 0xFFE0FC1F == if is64 then 0xEB00001F else 0x6B00001F
  {}

  lemma CompareGroup(w: bv32)
    requires w & 0x7FE0FC1F == 0x6B00001F
    ensures Decode(w) == Compare(w & 0x80000000 != 0, FieldN(w), FieldM(w))
  {
    hide FieldD, FieldN, FieldM, FieldA, DecodeDataImm, DecodeBranch, DecodeLoadStore;
  }

  lemma DecodeCompare(is64: bool, rn: bv8, rm: bv8)
    requires IsReg(rn) && IsReg(rm)
    ensures Decode(if is64 then CmpX(rn, rm) else CmpW(rn, rm)) == Compare(is64, rn, rm)
  {
    CompareFields(is64, rn, rm);
    hide CmpX, CmpW, Decode, FieldN, FieldM;
    CompareGroup(if is64 then CmpX(rn, rm) else CmpW(rn, rm));
  }

  lemma DecodeReturn()
    ensures Decode(Ret()) == Return(30)
  {}

  /** Field positions of a pair access. */
  lemma PairFields(base: bv32, rt1: bv8, rt2: bv8, rn: bv8, imm7: bv32)
    requires IsReg(rt1) && IsReg(rt2) && IsReg(rn) && imm7 < 0x80 && base & 0x003FFFFF == 0
    ensures var w := PairForm(base, rt1, rt2, rn, imm7);
            && FieldD(w) == rt1 && FieldA(w) == rt2 && FieldN(w) == rn && (w >> 15) & 0x7F == imm7
            && w & 0xFFC00000 == base
  {}

  lemma LoadStoreGroup(w: bv32, base: bv32)
    requires w & 0xFFC00000 == base && base & 0x1F000000 in {0x08000000, 0x09000000, 0x19000000}
    ensures Decode(w) == DecodeLoadStore(w)
  {
    hide DecodeDataReg, DecodeDataImm, DecodeBranch, DecodeLoadStore;
  }

  lemma DecodePair(base: bv32, rt1: bv8, rt2: bv8, rn: bv8, imm7: bv32)
    requires IsReg(rt1) && IsReg(rt2) && IsReg(rn) && imm7 < 0x80
    requires base in {0xA9800000, 0xA9000000, 0xA8C00000, 0xA9400000}
    ensures Decode(PairForm(base, rt1, rt2, rn, imm7))
         == if base & 0x00400000 == 0 then StorePair(base == 0xA9800000, rt1, rt2, rn, imm7)
            else LoadPair(base == 0xA8C00000, rt1, rt2, rn, imm7)
  {
    PairFields(base, rt1, rt2, rn, imm7);
    LoadStoreGroup(PairForm(base, rt1, rt2, rn, imm7), base);
    hide PairForm, FieldD, FieldA, FieldN, Decode;
  }

  lemma ScaledFields(base: bv32, rt: bv8, rn: bv8, imm12: bv16)
    requires IsReg(rt) && IsReg(rn) && imm12 < 0x1000 && base & 0x003FFFFF == 0
    ensures var w := ScaledForm(base, rt, rn, imm12);
            && FieldD(w) == rt && FieldN(w) == rn && (w >> 10) & 0xFFF == imm12 as bv32
            && w & 0xFFC00000 == base
  {}

  lemma DecodeStr(rt: bv8, rn: bv8, imm12: bv16)
    requires IsReg(rt) && IsReg(rn) && imm12 < 0x1000
    ensures Decode(ScaledForm(0xF9000000, rt, rn, imm12)) == StoreReg64(rt, rn, imm12 as bv32)
  {
    var w := ScaledForm(0xF9000000, rt, rn, imm12);
    ScaledFields(0xF9000000, rt, rn, imm12);
    hide ScaledForm, FieldD, FieldN, Decode;
    LoadStoreGroup(w, 0xF9000000);
  }

  lemma DecodeLdr(rt: bv8, rn: bv8, imm12: bv16)
    requires IsReg(rt) && IsReg(rn) && imm12 < 0x1000
    ensures Decode(ScaledForm(0xF9400000, rt, rn, imm12)) == LoadReg64(rt, rn, imm12 as bv32)
  {
    var w := ScaledForm(0xF9400000, rt, rn, imm12);
    ScaledFields(0xF9400000, rt, rn, imm12);
    hide ScaledForm, FieldD, FieldN, Decode;
    LoadStoreGroup(w, 0xF9400000);
  }

  /** Words of the manual's own tables, some of which the repository's tests expect too. */
  lemma KnownWords()
    ensures AddX(0, 1, 2) == 0x8B020020 && SubX(0, 1, 2) == 0xCB020020 && MulX(0, 1, 2) == 0x9B027C20
    ensures UdivX(0, 1, 2) == 0x9AC20820 && MsubX(0, 1, 2, 3) == 0x9B028C20
    ensures OrrX(0, 1, 2) == 0xAA020020 && AndX(0, 1, 2) == 0x8A020020 && EorX(0, 1, 2) == 0xCA020020
    ensures LslvX(0, 1, 2) == 0x9AC22020 && LsrvX(0, 1, 2) == 0x9AC22420 && AsrvX(0, 1, 2) == 0x9AC22820
    ensures AddW(0, 1, 2) == 0x0B020020 && SubW(0, 1, 2) == 0x4B020020 && OrrW(0, 1, 2) == 0x2A020020
    ensures CmpX(1, 2) == 0xEB02003F && CmpW(1, 2) == 0x6B02003F && Blr(9) == 0xD63F0120 && Ret() == 0xD65F03C0
    ensures DmbIsh() == 0xD5033BBF
    ensures LdaddX(1, 31, 9) == 0xF8E1013F && LdclrX(1, 31, 9) == 0xF8E1113F && LdeorX(1, 31, 9) == 0xF8E1213F
    ensures LdsetX(1, 31, 9) == 0xF8E1313F && SwpX(1, 31, 9) == 0xF8E1813F && CasX(0, 1, 9) == 0xC8E07D21
  {}
}
