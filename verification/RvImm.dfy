/** The RISC-V load sequence for wide immediates, and exactly which 64-bit values any load gets
    right. */
module RvImm {
  import opened Isa
  import opened Bits
  import opened Casts
  import opened Interpreter
  import opened Ir
  import opened RvEncode
  import opened RvWords
  import opened RvMachine
  import opened RvNodes

  // ---------- what the sequence computes ----------

  function Low32(x: u64): u32 { x % TWO_32 }

  /** The upper half, as far as it was loaded right, in its place. */
  function ShiftedUp(upper: nat): u64 { Low32(Loaded32(upper)) * TWO_32 }

  /** The value left by the whole sequence. Into s7 itself the lower half overwrites the upper half and
      is then added to itself. */
  function Halves(rd: bv8, upper: nat, lower: nat): u64 {
    if lower == 0 then ShiftedUp(upper)
    else if rd == S7 then Wrap64(Loaded32(lower) + Loaded32(lower))
    else Wrap64(ShiftedUp(upper) + Loaded32(lower))
  }

  /** What the load sequence leaves of any immediate. */
  function Left(rd: bv8, imm: u64): u64 {
    if Fits32(AsI64(imm)) then Left32(AsI64(imm)) else Halves(rd, imm / TWO_32, imm % TWO_32)
  }

  lemma ShiftValue(x: u64)
    ensures Result64(OpSll, x, 32) == x % TWO_32 * TWO_32
  {
    Pow2Values();
    assert 32 % 64 == 32;
    var q, f := x / TWO_32, x % TWO_32;
    assert x * TWO_32 == q * TWO_64 + f * TWO_32;
    ModUnique(x * TWO_32, TWO_64, q, f * TWO_32);
  }

  lemma UpperPart(rd: bv8, upper: nat, m: Rv) returns (n: Rv)
    requires 0 < rd < 32 && upper < TWO_32
    ensures Straight(LuiAddi(rd, upper) + [Slli(rd, rd, 32)], m, n) && SetsReg(m, n, rd, ShiftedUp(upper))
  {
    hide Straight, SetsReg, R, LuiAddi, Loaded32, ShiftForm, Result64, AsU32;
    var q := LoadWide(rd, upper, m);
    SetsValue(m, q, rd, Loaded32(upper));
    n := ShiftStep(0x1013, rd, rd, 32, OpSll, q);
    ShiftValue(Loaded32(upper));
    StraightAppend(LuiAddi(rd, upper), [Slli(rd, rd, 32)], m, q, n);
    SetsTwice(m, q, n, rd, Loaded32(upper), ShiftedUp(upper));
  }

  function ScratchWords(lower: nat): seq<bv32> {
    if Hi20(lower) != 0 then LuiAddi(S7, lower) else [Addi(S7, 0, Lo12(lower))]
  }

  /** No upper part: the value is the low part. */
  lemma SmallLoaded(lower: nat)
    requires lower < TWO_32 && Hi20(lower) == 0
    ensures Loaded32(lower) == Wrap64(Lo12(lower)) && Fits12(Lo12(lower)) && lower == Lo12(lower)
  {
    Hi20Fits(lower);
  }

  lemma ScratchPart(lower: nat, m: Rv) returns (n: Rv)
    requires lower < TWO_32
    ensures Straight(ScratchWords(lower), m, n) && SetsReg(m, n, S7, Loaded32(lower))
  {
    hide Straight, SetsReg, R, LuiAddi, Loaded32, IType, Result64, Hi20, Lo12;
    if Hi20(lower) != 0 {
      n := LoadWide(S7, lower, m);
    } else {
      SmallLoaded(lower);
      AddZero(Lo12(lower));
      ReadsZero(m);
      n := ImmStep(Lo12(lower), 0, 0, S7, OpAdd, m);
    }
  }

  lemma LowerWords(rd: bv8, lower: nat)
    requires lower < TWO_32
    ensures LowerHalf(rd, lower) == if lower == 0 then [] else ScratchWords(lower) + [RvAdd(rd, rd, S7)]
  {
    hide LuiAddi, RvAdd, IType;
    Hi20Fits(lower);
  }

  lemma AddStep(rd: bv8, m: Rv) returns (n: Rv)
    requires 0 < rd < 32
    ensures Straight([RvAdd(rd, rd, S7)], m, n) && SetsReg(m, n, rd, Wrap64(R(m, rd) + R(m, S7)))
  {
    hide Straight, SetsReg, R;
    n := RegNode64(Add, rd, S7, m);
  }

  lemma LowerPart(rd: bv8, lower: nat, m: Rv) returns (n: Rv)
    requires 0 < rd < 32 && 0 < lower < TWO_32
    ensures Straight(LowerHalf(rd, lower), m, n) && OnlyChanged(m, n, rd)
    ensures R(n, rd) == if rd == S7 then Wrap64(Loaded32(lower) + Loaded32(lower))
            else Wrap64(R(m, rd) + Loaded32(lower))
  {
    hide *;
    LowerWords(rd, lower);
    var q := ScratchPart(lower, m);
    n := AddStep(rd, q);
    StraightAppend(ScratchWords(lower), [RvAdd(rd, rd, S7)], m, q, n);
    AddedToScratch(rd, lower, m, q, n);
  }

  lemma AddedToScratch(rd: bv8, lower: nat, m: Rv, q: Rv, n: Rv)
    requires SetsReg(m, q, S7, Loaded32(lower)) && SetsReg(q, n, rd, Wrap64(R(q, rd) + R(q, S7)))
    ensures OnlyChanged(m, n, rd)
    ensures R(n, rd) == if rd == S7 then Wrap64(Loaded32(lower) + Loaded32(lower))
            else Wrap64(R(m, rd) + Loaded32(lower))
  {
    hide R, Loaded32, Wrap64;
  }

  lemma UnsignedBack(imm: u64)
    ensures Wrap64(AsI64(imm)) == imm
  {}

  lemma OnlyOne(m: Rv, n: Rv, rd: bv8)
    requires n.mem == m.mem && forall r: bv8 :: r != rd ==> R(n, r) == R(m, r)
    ensures OnlyChanged(m, n, rd)
  {}

  lemma LoadHalves(rd: bv8, upper: nat, lower: nat, m: Rv) returns (n: Rv)
    requires 0 < rd < 32 && upper < TWO_32 && lower < TWO_32
    ensures Straight(LuiAddi(rd, upper) + [Slli(rd, rd, 32)] + LowerHalf(rd, lower), m, n) && OnlyChanged(m, n, rd)
    ensures R(n, rd) == Halves(rd, upper, lower)
  {
    hide Straight, R, LuiAddi, LowerHalf, Loaded32, ShiftForm, IType;
    var first := LuiAddi(rd, upper) + [Slli(rd, rd, 32)];
    var q := UpperPart(rd, upper, m);
    if lower == 0 {
      LowerWords(rd, lower);
      assert first + [] == first;
      n := q;
    } else {
      n := LowerPart(rd, lower, q);
      StraightAppend(first, LowerHalf(rd, lower), m, q, n);
    }
  }

  // ---------- when it is right ----------

  /** The immediates that the sequence into rd gets right: small ones, and wide ones both of whose
      halves are small — into s7, with the lower half zero. */
  predicate Loads(rd: bv8, imm: u64) { LoadsBelow(imm, if rd == S7 then 1 else 2048) }

  predicate LoadsBelow(imm: u64, limit: nat) {
    if Fits32(AsI64(imm)) then LoadsExactly(AsI64(imm)) else imm / TWO_32 < 2048 && imm % TWO_32 < limit
  }

  /** LUI drops the low bits of the upper part: nothing is lost only if there is no upper part. */
  lemma PartsExact(x: nat, h: int, lo: int)
    requires x < TWO_32 && x == 4096 * h + lo && -2048 <= lo < 2048
    ensures var a := h - h % 4096 + lo; (a == x <==> h == 0) && -2048 <= a < 0x20_0000 && (h == 0 <==> x < 2048)
  {}

  lemma WrapBoth(a: int)
    requires -2048 <= a < 0x20_0000
    ensures Low32(Wrap64(a)) == if a < 0 then a + TWO_32 else a
    ensures Wrap64(a) == if a < 0 then a + TWO_64 else a
  {
    if a < 0 {
      ModUnique(a, TWO_64, -1, a + TWO_64);
      ModUnique(a + TWO_64, TWO_32, TWO_32 - 1, a + TWO_32);
    } else {
      ModUnique(a, TWO_64, 0, a);
      ModUnique(a, TWO_32, 0, a);
    }
  }

  /** A half comes out right, modulo 2 to the 32, only if it needs no LUI. */
  lemma HalfExact(x: nat)
    requires x < TWO_32
    ensures Low32(Loaded32(x)) == x <==> x < 2048
    ensures x < 2048 ==> Loaded32(x) == x
    ensures Loaded32(x) < 0x20_0000 || Loaded32(x) >= TWO_64 - 2048
  {
    Hi20Fits(x);
    hide Hi20, Lo12, Wrap64, Low32;
    var h, lo := Hi20(x), Lo12(x);
    PartsExact(x, h, lo);
    WrapBoth(h - h % 4096 + lo);
  }

  lemma SumExact(s: nat, upper: nat, lower: nat, w: u64)
    requires s < TWO_32 && upper < TWO_32 && lower < TWO_32
    requires Low32(w) == lower <==> lower < 2048
    requires lower < 2048 ==> w == lower
    ensures Wrap64(s * TWO_32 + w) == upper * TWO_32 + lower <==> lower < 2048 && s == upper
  {
    var x := s * TWO_32 + w;
    var q, f := w / TWO_32, w % TWO_32;
    assert x == (s + q) * TWO_32 + f;
    var c, d := (s + q) / TWO_32, (s + q) % TWO_32;
    assert x == c * TWO_64 + (d * TWO_32 + f);
    ModUnique(x, TWO_64, c, d * TWO_32 + f);
    if lower < 2048 {
      assert q == 0 && f == lower && d == s;
    } else if d * TWO_32 + f == upper * TWO_32 + lower {
      ModUnique(d * TWO_32 + f, TWO_32, d, f);
      ModUnique(upper * TWO_32 + lower, TWO_32, upper, lower);
    }
  }

  lemma WideIs(imm: u64)
    requires !Fits32(AsI64(imm))
    ensures TWO_31 <= imm < TWO_64 - TWO_31
  {}

  lemma WideExact(rd: bv8, imm: u64)
    requires !Fits32(AsI64(imm))
    ensures Halves(rd, imm / TWO_32, imm % TWO_32) == imm <==> Loads(rd, imm)
  {
    WideIs(imm);
    hide AsI64, Fits32, LoadsExactly;
    HalvesExact(rd, imm / TWO_32, imm % TWO_32);
  }

  lemma HalvesExact(rd: bv8, upper: nat, lower: nat)
    requires upper < TWO_32 && lower < TWO_32 && TWO_31 <= upper * TWO_32 + lower < TWO_64 - TWO_31
    ensures Halves(rd, upper, lower) == upper * TWO_32 + lower <==> upper < 2048 && lower < if rd == S7 then 1 else 2048
  {
    hide Loaded32, Wrap64, Low32;
    HalfExact(upper);
    HalfExact(lower);
    if lower == 0 {
    } else if rd == S7 {
      TwiceNeverWide(upper * TWO_32 + lower, Loaded32(lower));
    } else {
      SumExact(Low32(Loaded32(upper)), upper, lower, Loaded32(lower));
    }
  }

  /** Twice a loaded half fits 32 bits, so it is no wide immediate. */
  lemma TwiceNeverWide(imm: int, w: u64)
    requires TWO_31 <= imm < TWO_64 - TWO_31 && (w < 0x20_0000 || w >= TWO_64 - 2048)
    ensures Wrap64(w + w) != imm
  {
    if w >= TWO_64 - 2048 {
      ModUnique(w + w, TWO_64, 1, w + w - TWO_64);
    } else {
      ModUnique(w + w, TWO_64, 0, w + w);
    }
  }

  lemma LeftExact(rd: bv8, imm: u64)
    ensures Left(rd, imm) == imm <==> Loads(rd, imm)
  {
    hide Left32, Halves, LoadsExactly;
    UnsignedBack(imm);
    if Fits32(AsI64(imm)) {
      Left32Exact(AsI64(imm));
    } else {
      WideExact(rd, imm);
    }
  }

  /** Any 64-bit immediate: what is loaded, when it is right, and that nothing but s7 changes beside
      it. */
  lemma LoadValue(rd: bv8, imm: u64, m: Rv) returns (n: Rv)
    requires 0 < rd < 32
    ensures Straight(RvLoadImm(rd, imm), m, n) && OnlyChanged(m, n, rd)
    ensures R(n, rd) == Left(rd, imm) && (R(n, rd) == imm <==> Loads(rd, imm))
  {
    hide Straight, R, LuiAddi, LowerHalf, Left32, Halves, LoadsExactly, OnlyChanged, SetsReg, ShiftForm, IType, Loads;
    LeftExact(rd, imm);
    UnsignedBack(imm);
    if Fits32(AsI64(imm)) {
      n := LoadImm32(rd, AsI64(imm), m);
      OnlyOne(m, n, rd);
    } else {
      var upper, lower := imm / TWO_32, imm % TWO_32;
      n := LoadHalves(rd, upper, lower, m);
      assert LuiAddi(rd, upper) + [Slli(rd, rd, 32)] + LowerHalf(rd, lower) == RvLoadImm(rd, imm);
    }
  }

  /** A 64-bit constant in a program register. */
  lemma LoadImmNode(dst: PhysReg, imm: u64, m: Rv) returns (n: Rv)
    requires IsProgramReg(dst.n) && Loads(dst.n, imm)
    ensures Straight(RvLoadImm(dst.n, imm), m, n) && OnlyChanged(m, n, dst.n) && R(n, dst.n) == imm
  {
    hide Straight, R, RvLoadImm, OnlyChanged, Loads;
    n := LoadValue(dst.n, imm, m);
  }
}
