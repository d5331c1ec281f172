/** Shifts by an immediate: UBFM and SBFM with the emitter's fields shift as the interpreter does. */
module A64Shift {
  import opened Isa
  import opened Bits
  import opened Casts
  import opened Interpreter
  import opened A64Encode
  import opened A64Machine
  import opened A64Decode
  import opened A64Alu
  import opened A64Imm

  // ---------- six-bit fields ----------

  function SixBits(w: bv32): nat {
    Bit(w & 1 == 1) + 2 * (Bit((w >> 1) & 1 == 1) + 2 * FourBits((w >> 1) >> 1))
  }

  function FourBits(w: bv32): nat {
    Bit(w & 1 == 1) + 2 * (Bit((w >> 1) & 1 == 1) + 2 * TwoBits((w >> 1) >> 1))
  }

  function TwoBits(w: bv32): nat {
    Bit(w & 1 == 1) + 2 * Bit((w >> 1) & 1 == 1)
  }

  lemma FromWordBits(w: bv32, n: nat)
    requires n >= 2
    ensures FromWord(w, n) == Bit(w & 1 == 1) + 2 * (Bit((w >> 1) & 1 == 1) + 2 * FromWord((w >> 1) >> 1, n - 2))
  {}

  lemma NoBits(w: bv32)
    ensures FromWord(w, 0) == 0
  {}

  lemma FieldIsTwoBits(w: bv32)
    ensures FromWord(w, 2) == TwoBits(w)
  {
    FromWordBits(w, 2);
    NoBits((w >> 1) >> 1);
    hide FromWord, Bit;
  }

  lemma FieldIsFourBits(w: bv32)
    ensures FromWord(w, 4) == FourBits(w)
  {
    FromWordBits(w, 4);
    FieldIsTwoBits((w >> 1) >> 1);
    hide FromWord, Bit, TwoBits;
  }

  lemma FieldIsSixBits(w: bv32)
    ensures FromWord(w, 6) == SixBits(w)
  {
    FromWordBits(w, 6);
    FieldIsFourBits((w >> 1) >> 1);
    hide FromWord, Bit, FourBits;
  }

  lemma SixBitsNegated(w: bv32)
    requires w < 64
    ensures SixBits((64 - w) & 63) == if w == 0 then 0 else 64 - SixBits(w)
  {}

  lemma SixBitsComplement(w: bv32)
    requires w < 64
    ensures SixBits(63 - w) == 63 - SixBits(w)
  {}

  lemma SixBitsZero(w: bv32)
    requires w < 64
    ensures SixBits(w) == 0 <==> w == 0
  {}

  lemma ShiftByte(w: bv32, b: bv8)
    requires b == (w & 0xFF) as bv8 && Within(w, 63)
    ensures b < 64 && b as bv32 == w && w < 64
    ensures ((64 - b) & 63) as bv32 == (64 - w) & 63 && (63 - b) as bv32 == 63 - w
  {}

  /** The word of a shift amount. */
  lemma ShiftWord(s: nat) returns (w: bv32)
    requires s < 64
    ensures w < 64 && FromWord(w, 6) == s && AsU8(s) < 64 && AsU8(s) as bv32 == w
    ensures ((64 - AsU8(s)) & 63) as bv32 == (64 - w) & 63 && (63 - AsU8(s)) as bv32 == 63 - w
  {
    w := ToWord(s);
    MaskTwo();
    SmallWord(s, 6);
    SmallByte(s);
    hide *;
    ShiftByte(w, AsU8(s));
  }

  lemma SmallByte(s: nat)
    requires s < 64
    ensures AsU8(s) == (ToWord(s) & 0xFF) as bv8
  {
    hide ToWord;
    assert s % TWO_8 == s;
  }

  lemma Negated(w: bv32)
    requires w < 64
    ensures FromWord((64 - w) & 63, 6) == (if FromWord(w, 6) == 0 then 0 else 64 - FromWord(w, 6))
    ensures FromWord(63 - w, 6) == 63 - FromWord(w, 6)
  {
    hide *;
    FieldIsSixBits(w);
    FieldIsSixBits((64 - w) & 63);
    FieldIsSixBits(63 - w);
    SixBitsNegated(w);
    SixBitsComplement(w);
    SixBitsZero(w);
  }

  lemma Top()
    ensures SixBits(63) == 63
  {}

  /** What LSL #s puts in its two fields. */
  lemma LslFields(s: nat)
    requires s < 64
    ensures FromWord(((64 - AsU8(s)) & 63) as bv32, 6) == if s == 0 then 0 else 64 - s
    ensures FromWord((63 - AsU8(s)) as bv32, 6) == 63 - s
  {
    hide *;
    var w := ShiftWord(s);
    Negated(w);
  }

  lemma RightFields(s: nat)
    requires s < 64
    ensures FromWord(AsU8(s) as bv32, 6) == s && FromWord(63, 6) == 63
  {
    var w := ShiftWord(s);
    FieldIsSixBits(63);
    hide *;
    Top();
  }

  // ---------- values ----------

  /** 2 to the 64 splits at bit s. */
  lemma SplitAt(s: nat)
    requires s < 64
    ensures Pow2(64 - s) * Pow2(s) == TWO_64 && Pow2(64 - s) == 2 * Pow2(63 - s)
  {
    Pow2Add(64 - s, s);
    Pow2Values();
  }

  lemma LeftValue(x: u64, s: nat)
    requires 0 < s < 64
    ensures x % Pow2(64 - s) * Pow2(s) == x * Pow2(s) % TWO_64
  {
    SplitAt(s);
    var p, q, f := Pow2(64 - s), x / Pow2(64 - s), x % Pow2(64 - s);
    assert x == q * p + f;
    LeftParts(x, s, p, Pow2(s), q, f);
  }

  lemma LeftParts(x: nat, s: nat, p: nat, t: nat, q: nat, f: nat)
    requires x == q * p + f && f < p && t > 0 && p * t == TWO_64
    ensures f * t == x * t % TWO_64
  {
    assert (q * p + f) * t == q * (p * t) + f * t by {
      assert (q * p + f) * t == q * p * t + f * t;
      assert q * p * t == q * (p * t);
    }
    assert f * t < p * t by {
      MulAtLeast(p - f, t);
      assert (p - f) * t == p * t - f * t;
    }
    assert f * t >= 0;
    ModUnique(x * t, TWO_64, q, f * t);
  }

  lemma LslValue(x: u64, s: nat)
    requires s < 64
    ensures BitfieldResult(false, x, if s == 0 then 0 else 64 - s, 63 - s) == EvalAlu64(Lsh, x, s)
  {
    if s == 0 {
      Pow2Values();
      assert Pow2(0) == 1;
      assert x / 1 == x && x % TWO_64 == x && x * 1 == x;
    } else {
      LeftValue(x, s);
      hide Pow2;
      SmallMod(x * Pow2(s) % TWO_64);
      assert s % 64 == s;
    }
  }

  /** The bits that a right shift keeps fit in 64 - s bits. */
  lemma ShiftedFits(x: u64, s: nat)
    requires s < 64
    ensures 0 <= x / Pow2(s) < Pow2(64 - s) && x / Pow2(s) % Pow2(64 - s) == x / Pow2(s)
  {
    SplitAt(s);
    QuotientBelow(x, Pow2(s), Pow2(64 - s));
    SmallModulo(x / Pow2(s), Pow2(64 - s));
  }

  lemma SmallModulo(a: nat, b: nat)
    requires a < b
    ensures a % b == a
  {}

  lemma QuotientBelow(x: nat, t: nat, p: nat)
    requires t > 0 && x < p * t
    ensures 0 <= x / t < p
  {
    var q := x / t;
    assert x == q * t + x % t;
    if q >= p {
      MulMonotone(q, p, t);
    }
  }

  lemma MulMonotone(a: nat, b: nat, t: nat)
    requires a >= b
    ensures a * t >= b * t
  {
    assert (a - b) * t == a * t - b * t;
    assert (a - b) * t >= 0;
  }

  lemma LsrValue(x: u64, s: nat)
    requires s < 64
    ensures BitfieldResult(false, x, s, 63) == EvalAlu64(Rsh, x, s)
  {
    ShiftedFits(x, s);
    assert s % 64 == s && 63 - s + 1 == 64 - s;
    hide Pow2;
    assert BitfieldResult(false, x, s, 63) == x / Pow2(s) % TWO_64;
    SmallMod(Quotient(x, Pow2(s)));
  }

  /** Shifting the two's-complement value right takes 2 to the 64 - s off. */
  lemma SignedShift(x: u64, s: nat)
    requires s < 64 && x >= TWO_63
    ensures FloorDiv(x - TWO_64, Pow2(s)) == x / Pow2(s) - Pow2(64 - s)
  {
    SplitAt(s);
    var t, p := Pow2(s), Pow2(64 - s);
    assert x == x / t * t + x % t;
    assert x - TWO_64 == (x / t - p) * t + x % t by {
      assert (x / t - p) * t == x / t * t - p * t;
    }
    ModUnique(x - TWO_64, t, x / t - p, x % t);
  }

  lemma HalfPoint(x: u64, s: nat)
    requires s < 64
    ensures x / Pow2(s) >= Pow2(63 - s) <==> x >= TWO_63
  {
    SplitAt(s);
    var t, h := Pow2(s), Pow2(63 - s);
    assert h * t == TWO_63 by {
      assert 2 * h * t == 2 * (h * t);
    }
    if x < TWO_63 {
      QuotientBelow(x, t, h);
    } else {
      QuotientAtLeast(x, t, h);
    }
  }

  lemma QuotientAtLeast(x: nat, t: nat, h: nat)
    requires t > 0 && x >= h * t
    ensures x / t >= h
  {
    var q := x / t;
    assert x == q * t + x % t;
    if q < h {
      MulMonotone(h, q + 1, t);
    }
  }

  lemma AsrValue(x: u64, s: nat)
    requires s < 64
    ensures BitfieldResult(true, x, s, 63) == EvalAlu64(Arsh, x, s)
  {
    hide Pow2;
    ShiftedFits(x, s);
    HalfPoint(x, s);
    ModUnique(s, 64, 0, s);
    assert 63 - s + 1 == 64 - s;
    if x >= TWO_63 {
      SignedShift(x, s);
    }
  }

  // ---------- the words ----------

  lemma ExecuteBitfield(signed: bool, d: bv8, n: bv8, immr: bv32, imms: bv32, m: A64, r: nat, s: nat)
    requires d < 31 && FromWord(immr, 6) == r < 64 && FromWord(imms, 6) == s < 64
    ensures Execute(m, Bitfield(signed, d, n, immr, imms))
         == Go(SetX(m, d, BitfieldResult(signed, X(m, n), r, s)).(pc := m.pc + 1))
  {
    hide FromWord, BitfieldResult, X;
  }

  predicate IsShift(op: AluOp) { op == Lsh || op == Rsh || op == Arsh }

  function ShiftWordFor(op: AluOp, d: bv8, shift: bv8): bv32
    requires IsShift(op)
  {
    if op == Lsh then LslXImm(d, d, shift) else if op == Rsh then LsrXImm(d, d, shift) else AsrXImm(d, d, shift)
  }

  lemma LslExecutes(d: bv8, s: nat, m: A64)
    requires d < 31 && s < 64
    ensures Execute(m, Decode(LslXImm(d, d, AsU8(s)))) == Go(SetX(m, d, EvalAlu64(Lsh, X(m, d), s)).(pc := m.pc + 1))
  {
    hide AsU8, Execute, Decode, LslXImm, X, EvalAlu64, BitfieldResult, FromWord;
    var _ := ShiftWord(s);
    DecodeLsl(d, d, AsU8(s));
    LslFields(s);
    LslValue(X(m, d), s);
    ExecuteBitfield(false, d, d, ((64 - AsU8(s)) & 63) as bv32, (63 - AsU8(s)) as bv32, m,
                    if s == 0 then 0 else 64 - s, 63 - s);
  }

  lemma ShiftExecutes(op: AluOp, d: bv8, s: nat, m: A64)
    requires IsShift(op) && d < 31 && s < 64
    ensures Execute(m, Decode(ShiftWordFor(op, d, AsU8(s))))
         == Go(SetX(m, d, EvalAlu64(op, X(m, d), s)).(pc := m.pc + 1))
  {
    hide AsU8, Execute, Decode, LslXImm, LsrXImm, AsrXImm, X, EvalAlu64, BitfieldResult, FromWord;
    if op == Lsh {
      LslExecutes(d, s, m);
    } else {
      var _ := ShiftWord(s);
      RightFields(s);
      if op == Rsh {
        DecodeLsr(d, d, AsU8(s));
        LsrValue(X(m, d), s);
      } else {
        DecodeAsr(d, d, AsU8(s));
        AsrValue(X(m, d), s);
      }
      ExecuteBitfield(op == Arsh, d, d, AsU8(s) as bv32, 63, m, s, 63);
    }
  }

  /** A shift by an immediate, one word. */
  lemma ShiftStep(op: AluOp, d: bv8, s: nat, m: A64) returns (n: A64)
    requires IsShift(op) && d < 31 && s < 64
    ensures Straight([ShiftWordFor(op, d, AsU8(s))], m, n)
    ensures SetsReg(m, n, d, EvalAlu64(op, X(m, d), s))
  {
    ShiftExecutes(op, d, s, m);
    hide *;
    n := SetX(m, d, EvalAlu64(op, X(m, d), s)).(pc := m.pc + 1);
    SetXSets(m, d, EvalAlu64(op, X(m, d), s));
    StraightOne(ShiftWordFor(op, d, AsU8(s)), m, n);
  }
}
