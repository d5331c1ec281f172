/** Immediates: MOVZ and MOVK build any 64-bit value from its 16-bit chunks. */
module A64Imm {
  import opened Isa
  import opened Bits
  import opened Casts
  import opened Ir
  import opened A64Encode
  import opened A64Machine
  import opened A64Decode
  import opened A64Words
  import opened A64Alu

  // ---------- fields ----------

  lemma Narrow16(w: bv32)
    ensures ((w & 0xFFFF) as bv16) as bv32 == w & 0xFFFF
  {}

  lemma Narrow8(w: bv32)
    ensures ((w & 0xFF) as bv8) as bv32 == w & 0xFF
    ensures (((w & 0xFF) as bv8) as bv32) & 3 == w & 3 && (((w & 0xFF) as bv8) as bv32) & 1 == w & 1
  {}

  lemma MaskTwo()
    ensures Mask(2) == 3 && Mask(6) == 63 && Pow2(2) == 4 && Pow2(1) == 2 && Pow2(6) == 64
  {}

  lemma WordOf16(x: int)
    ensures AsU16(x) as bv32 == ToWord(x % TWO_16) & 0xFFFF
  {
    hide ToWord;
    Narrow16(ToWord(x % TWO_16));
  }

  lemma WordOf8(x: int)
    ensures (AsU8(x) as bv32) & 3 == ToWord(x % TWO_8) & 3 && (AsU8(x) as bv32) & 1 == ToWord(x % TWO_8) & 1
  {
    hide ToWord;
    Narrow8(ToWord(x % TWO_8));
  }

  lemma Field16(x: int)
    ensures FromWord(AsU16(x) as bv32, 16) == x % TWO_16
  {
    hide ToWord, FromWord, Mask, Pow2, AsU16;
    FieldValue(x % TWO_16, 16);
    Masks();
    Pow2Values();
    WordOf16(x);
  }

  lemma Narrow12(w: bv32)
    ensures (((w & 0xFFFF) as bv16) as bv32) & 0xFFF == w & 0xFFF
  {}

  lemma Word12(x: int)
    requires 0 <= x < 4096
    ensures (AsU16(x) as bv32) & 0xFFF == ToWord(x) & 0xFFF
  {
    assert x % TWO_16 == x;
    hide ToWord;
    Narrow12(ToWord(x));
  }

  lemma Mod12(x: int)
    requires 0 <= x < 4096
    ensures x % Pow2(12) == x && Mask(12) == 0xFFF
  {
    Pow2Values();
    Masks();
  }

  lemma Field12(x: int)
    requires 0 <= x < 4096
    ensures FromWord((AsU16(x) as bv32) & 0xFFF, 12) == x
  {
    hide *;
    FieldValue(x, 12);
    Word12(x);
    Mod12(x);
  }

  lemma FieldHw(k: nat)
    requires k < 4
    ensures FromWord((AsU8(k) as bv32) & 3, 2) == k
  {
    FieldValue(k, 2);
    MaskTwo();
    WordOf8(k);
    hide ToWord, FromWord, Mask, Pow2, AsU8;
  }

  // ---------- arithmetic ----------

  /** x modulo p * q, digit by digit. */
  lemma ModSplit(x: nat, p: nat, q: nat)
    requires p > 0 && q > 0
    ensures p * q > 0 && x % (p * q) == x % p + x / p % q * p
  {
    assert x / p == x / p / q * q + x / p % q;
    assert x == x / p * p + x % p;
    DigitsMod(x, p, q, x / p / q, x / p % q, x % p);
  }

  lemma DigitsMod(x: nat, p: nat, q: nat, g: nat, d: nat, r: nat)
    requires d < q && r < p && x == (g * q + d) * p + r
    ensures p * q > 0 && x % (p * q) == r + d * p
  {
    DigitInRange(d, r, p, q);
    DigitSum(g, d, r, p, q);
    ModUnique(x, p * q, g, d * p + r);
  }

  lemma DigitSum(g: nat, d: nat, r: nat, p: nat, q: nat)
    ensures (g * q + d) * p + r == g * (p * q) + (d * p + r)
  {
    assert (g * q + d) * p == g * q * p + d * p;
    assert g * q * p == g * (p * q);
  }

  lemma DigitInRange(d: nat, r: nat, p: nat, q: nat)
    requires d < q && r < p
    ensures p * q > 0 && 0 <= d * p + r < p * q
  {
    MulAtLeast(q - d, p);
    assert (q - d) * p == p * q - d * p;
  }

  /** What the registers hold after the chunks below k have been put in place. */
  function Built(imm: u64, k: nat): u64 { Remainder(imm, Pow2(16 * k)) }

  lemma BuiltNext(imm: u64, k: nat)
    ensures Built(imm, k + 1) == Built(imm, k) + ImmChunk(imm, k) * Pow2(16 * k)
  {
    Pow2Values();
    Pow2Add(16 * k, 16);
    ModSplit(imm, Pow2(16 * k), TWO_16);
  }

  lemma BuiltAll(imm: u64)
    ensures Built(imm, 4) == imm && Built(imm, 1) == ImmChunk(imm, 0)
  {
    Pow2Values();
    assert Pow2(0) == 1;
  }

  lemma SmallQuotient(a: nat, b: nat)
    requires a < b
    ensures a / b == 0
  {}

  /** MOVK puts chunk k on top of the chunks below it. */
  lemma InsertNext(imm: u64, k: nat)
    requires k < 4
    ensures InsertChunk(Built(imm, k), ImmChunk(imm, k), 16 * k) == Built(imm, k + 1)
  {
    BuiltNext(imm, k);
    SmallQuotient(Built(imm, k), Pow2(16 * k));
    var v := Built(imm, k);
    assert v / Pow2(16 * k) % TWO_16 * Pow2(16 * k) == 0;
  }

  // ---------- the words ----------

  lemma ExecuteWide(keep: bool, d: bv8, imm16: bv32, hw: bv32, m: A64, x: nat, k: nat)
    requires d < 31 && FromWord(imm16, 16) == x && FromWord(hw, 2) == k
    ensures Execute(m, MoveWide(true, keep, d, imm16, hw))
         == Go(SetX(m, d, MoveWideResult(keep, X(m, d), x, k) % TWO_64).(pc := m.pc + 1))
  {
    hide FromWord, MoveWideResult, X;
  }

  lemma WideStep(keep: bool, d: bv8, x: nat, k: nat, m: A64) returns (n: A64)
    requires d < 31 && x < TWO_16 && k < 4
    ensures Straight([MovWide(if keep then 0xF2800000 else 0xD2800000, d, AsU16(x), (AsU8(k) as bv32) & 3)], m, n)
    ensures SetsReg(m, n, d, MoveWideResult(keep, X(m, d), x, k) % TWO_64)
  {
    hide *;
    var base: bv32 := if keep then 0xF2800000 else 0xD2800000;
    var hw := (AsU8(k) as bv32) & 3;
    Field16(x);
    FieldHw(k);
    DecodeWide(keep, d, AsU16(x), hw);
    ExecuteWide(keep, d, AsU16(x) as bv32, hw, m, x, k);
    var v := MoveWideResult(keep, X(m, d), x, k) % TWO_64;
    n := SetX(m, d, v).(pc := m.pc + 1);
    SetXSets(m, d, v);
    StraightOne(MovWide(base, d, AsU16(x), hw), m, n);
  }

  lemma DecodeWide(keep: bool, d: bv8, imm16: bv16, hw: bv32)
    requires d < 31 && hw < 4
    ensures Decode(MovWide(if keep then 0xF2800000 else 0xD2800000, d, imm16, hw)) == MoveWide(true, keep, d,
            imm16 as bv32, hw)
  {
    hide Decode, MovWide;
    DecodeMoveWide(if keep then 0xF2800000 else 0xD2800000, d, imm16, hw);
  }

  lemma MovzStep(d: bv8, imm: u64, m: A64) returns (n: A64)
    requires d < 31
    ensures Straight([MovzX(d, AsU16(ImmChunk(imm, 0)), AsU8(0))], m, n) && SetsReg(m, n, d, Built(imm, 1))
  {
    MovzValue(imm, X(m, d));
    hide AsU16, AsU8, Straight, SetsReg, X, Built, ImmChunk, MovWide, MoveWideResult;
    n := WideStep(false, d, ImmChunk(imm, 0), 0, m);
  }

  lemma MovzValue(imm: u64, v: u64)
    ensures MoveWideResult(false, v, ImmChunk(imm, 0), 0) % TWO_64 == Built(imm, 1)
  {
    BuiltAll(imm);
    hide Built, ImmChunk;
    assert Pow2(16 * 0) == 1;
  }

  lemma SmallMod(v: u64)
    ensures v % TWO_64 == v
  {}

  lemma MovkValue(imm: u64, k: nat)
    requires k < 4
    ensures MoveWideResult(true, Built(imm, k), ImmChunk(imm, k), k) % TWO_64 == Built(imm, k + 1)
  {
    InsertNext(imm, k);
    SmallMod(Built(imm, k + 1));
    hide Built, ImmChunk, InsertChunk;
  }

  /** Register d went from one value to another and nothing else changed. */
  ghost predicate Builds(m: A64, n: A64, d: bv8, v: u64) {
    && n.sp == m.sp && n.mem == m.mem && n.flags == m.flags
    && X(n, d) == v && forall r: bv8 :: r != d ==> X(n, r) == X(m, r)
  }

  lemma BuildsChain(m: A64, n: A64, o: A64, d: bv8, v: u64, w: u64)
    requires Builds(m, n, d, v) && SetsReg(n, o, d, w)
    ensures Builds(m, o, d, w)
  {}

  lemma BuildsFirst(m: A64, n: A64, d: bv8, v: u64)
    requires SetsReg(m, n, d, v)
    ensures Builds(m, n, d, v)
  {}

  lemma KeepStep(d: bv8, imm: u64, k: nat, m: A64) returns (n: A64)
    requires d < 31 && 1 <= k < 4 && X(m, d) == Built(imm, k)
    ensures Straight([MovkX(d, AsU16(ImmChunk(imm, k)), AsU8(k))], m, n) && SetsReg(m, n, d, Built(imm, k + 1))
  {
    hide AsU16, AsU8, Straight, SetsReg, X, Built, ImmChunk, MovWide, MoveWideResult;
    n := WideStep(true, d, ImmChunk(imm, k), k, m);
    MovkValue(imm, k);
  }

  lemma {:induction false} KeepRun(dst: PhysReg, imm: u64, k: nat, m: A64) returns (n: A64)
    requires dst.n < 31 && 1 <= k <= 4
    ensures Straight([MovzX(dst.n, AsU16(ImmChunk(imm, 0)), 0)] + KeepWords(dst, imm, k), m, n)
    ensures Builds(m, n, dst.n, Built(imm, k))
    decreases k, 0
  {
    hide MovzX, MovkX, AsU16, Straight, SetsReg, Builds, X, ImmChunk, Built, LoadImmWords;
    var first := MovzX(dst.n, AsU16(ImmChunk(imm, 0)), 0);
    if k == 1 {
      assert AsU8(0) == 0;
      n := MovzStep(dst.n, imm, m);
      BuildsFirst(m, n, dst.n, Built(imm, 1));
      assert [first] + KeepWords(dst, imm, 1) == [first];
    } else {
      hide AsU8;
      var before := [first] + KeepWords(dst, imm, k - 1);
      assert [first] + KeepWords(dst, imm, k) == before + KeepWord(dst, imm, k - 1);
      n := KeepNext(dst, imm, k - 1, before, m);
    }
  }

  lemma KeepNext(dst: PhysReg, imm: u64, k: nat, before: seq<bv32>, m: A64) returns (n: A64)
    requires dst.n < 31 && 1 <= k < 4
    requires before == [MovzX(dst.n, AsU16(ImmChunk(imm, 0)), 0)] + KeepWords(dst, imm, k)
    ensures Straight(before + KeepWord(dst, imm, k), m, n)
    ensures Builds(m, n, dst.n, Built(imm, k + 1))
    decreases k, 1
  {
    hide MovzX, MovkX, AsU16, AsU8, KeepWords, Straight, SetsReg, Builds, X, ImmChunk, Built;
    var q := KeepRun(dst, imm, k, m);
    if ImmChunk(imm, k) == 0 {
      BuiltNext(imm, k);
      assert before + [] == before;
      n := q;
    } else {
      BuildsValue(m, q, dst.n, Built(imm, k));
      n := KeepStep(dst.n, imm, k, q);
      StraightAppend(before, [MovkX(dst.n, AsU16(ImmChunk(imm, k)), AsU8(k))], m, q, n);
      BuildsChain(m, q, n, dst.n, Built(imm, k), Built(imm, k + 1));
    }
  }

  lemma BuildsValue(m: A64, n: A64, d: bv8, v: u64)
    requires Builds(m, n, d, v)
    ensures X(n, d) == v
  {}

  /** The immediate sequence loads exactly its immediate, and changes no other register. */
  lemma LoadImm(dst: PhysReg, imm: u64, m: A64) returns (n: A64)
    requires dst.n < 31
    ensures Straight(LoadImmWords(dst, imm), m, n) && Builds(m, n, dst.n, imm)
  {
    hide MovzX, MovkX, AsU16, Straight, Builds, ImmChunk;
    BuiltAll(imm);
    n := KeepRun(dst, imm, 4, m);
  }
}
