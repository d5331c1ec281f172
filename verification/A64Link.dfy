/** AArch64 relocation: a patched word is a branch of the same kind with the distance to its label. */
module A64Link {
  import opened Bits
  import opened Casts
  import opened A64Encode
  import opened A64Machine
  import opened A64Words

  // ---------- branch offsets ----------

  /** The 19-bit field of a conditional branch and the 26-bit field of a branch. */
  function Imm19(d: int): bv32 { AsU32(d) & 0x7FFFF }

  function Imm26(d: int): bv32 { AsU32(d) & 0x03FFFFFF }

  lemma Imm19Value(d: int)
    requires -0x40000 <= d < 0x40000
    ensures SignedField(Imm19(d), 19) == d
  {
    FieldMask(19);
    SignedFieldValue(d, 19);
    hide AsU32, SignedField, Mask, Pow2;
  }

  lemma Imm26Value(d: int)
    requires -0x2000000 <= d < 0x2000000
    ensures SignedField(Imm26(d), 26) == d
  {
    FieldMask(26);
    SignedFieldValue(d, 26);
    hide AsU32, SignedField, Mask, Pow2;
  }

  /** The reach of a branch is exactly what its offset field can hold: a displacement of q words is in
      reach if and only if some 19 bits, or 26 bits without a condition, have the value q. */
  lemma ReachExact(q: int)
    ensures A64InReach(true, 4 * q) <==> exists field :: SignedField(field, 19) == q
    ensures A64InReach(false, 4 * q) <==> exists field :: SignedField(field, 26) == q
  {
    FieldMask(19);
    FieldMask(26);
    assert TruncDiv(4 * q, 4) == q;
    forall field
      ensures -0x40000 <= SignedField(field, 19) < 0x40000 && -0x2000000 <= SignedField(field, 26) < 0x2000000
    {
      SignedRange(field, 19);
      SignedRange(field, 26);
    }
    hide SignedField, Pow2, Mask, TruncDiv;
    if A64InReach(true, 4 * q) {
      Imm19Value(q);
    }
    if A64InReach(false, 4 * q) {
      Imm26Value(q);
    }
  }

  // ---------- patched words ----------

  lemma CondGroup(w: bv32)
    requires w & 0xFF000010 == 0x54000000
    ensures Decode(w) == CondBranch((w & 15) as bv8, (w >> 5) & 0x7FFFF)
  {
    hide DecodeDataReg, DecodeDataImm, DecodeLoadStore;
  }

  lemma BranchGroup(w: bv32)
    requires w & 0xFC000000 == 0x14000000
    ensures Decode(w) == Branch(w & 0x3FFFFFF)
  {
    hide DecodeDataReg, DecodeDataImm, DecodeLoadStore;
  }

  lemma BCondFields(cond: bv8, field: bv32)
    requires cond < 16
    ensures var w: bv32 := 0x54000000 | ((field & 0x7FFFF) << 5) | (cond as bv32);
            && w & 0xFF000010 == 0x54000000 && (w & 15) as bv8 == cond && (w >> 5) & 0x7FFFF == field & 0x7FFFF
            && w & 0xFF00001F == 0x54000000 | (cond as bv32)
  {}

  lemma PatchedCondFields(w: bv32, field: bv32)
    requires w & 0xFF000010 == 0x54000000
    ensures var p := (w & 0xFF00001F) | ((field & 0x7FFFF) << 5);
            && p & 0xFF000010 == 0x54000000 && p & 15 == w & 15 && (p >> 5) & 0x7FFFF == field & 0x7FFFF
            && p & 0xFF00001F == w & 0xFF00001F
  {}

  lemma PatchedBranchFields(field: bv32)
    ensures var p: bv32 := 0x14000000 | (field & 0x03FFFFFF);
            p & 0xFC000000 == 0x14000000 && p & 0x3FFFFFF == field & 0x03FFFFFF
  {}

  /** The placeholders. */
  lemma DecodeBCond(cond: bv8)
    requires cond < 16
    ensures BCond(cond, 0) & 0xFF000010 == 0x54000000 && (BCond(cond, 0) & 15) as bv8 == cond
  {
    BCondFields(cond, AsU32(0));
    hide AsU32;
  }

  /** A patched conditional branch keeps its condition and gets its distance in words. */
  lemma PatchedCond(existing: bv32, displacement: int)
    requires A64InReach(true, displacement) && existing & 0xFF000010 == 0x54000000
    ensures var p, d := A64Patch(existing, true, displacement), TruncDiv(displacement, 4);
            && p & 0xFF000010 == 0x54000000
            && Decode(p) == CondBranch((existing & 15) as bv8, Imm19(d)) && SignedField(Imm19(d), 19) == d
  {
    var d := TruncDiv(displacement, 4);
    Imm19Value(d);
    PatchedCondFields(existing, AsU32(d));
    hide AsU32, SignedField, Decode, TruncDiv;
    CondGroup(A64Patch(existing, true, displacement));
  }

  /** A patched branch likewise. */
  lemma PatchedJump(existing: bv32, displacement: int)
    requires A64InReach(false, displacement)
    ensures var p, d := A64Patch(existing, false, displacement), TruncDiv(displacement, 4);
            Decode(p) == Branch(Imm26(d)) && SignedField(Imm26(d), 26) == d
  {
    var d := TruncDiv(displacement, 4);
    Imm26Value(d);
    PatchedBranchFields(AsU32(d));
    hide AsU32, SignedField, Decode, TruncDiv;
    BranchGroup(A64Patch(existing, false, displacement));
  }
}
