/** AArch64 byte swaps: the words emitted for them, and exactly when they leave what the interpreter
    computes. */
module A64Endian {
  import opened Isa
  import opened Bits
  import opened Interpreter
  import opened Ir
  import opened A64Encode
  import opened A64Machine
  import opened A64Decode
  import opened A64Words
  import opened A64Alu

  // ---------- single words ----------

  function ReverseWord(op: RevOp, d: bv8, n: bv8): bv32 {
    match op
    case Rev16 => Rev16W(d, n)
    case Rev32 => RevW(d, n)
    case Rev64 => RevX(d, n)
  }

  lemma ReverseFields(op: RevOp, d: bv8, n: bv8)
    requires IsReg(d) && IsReg(n)
    ensures var w := ReverseWord(op, d, n); FieldD(w) == d && FieldN(w) == n
    ensures ReverseWord(op, d, n) & 0xFFFFFC00 == ReverseWord(op, 0, 0)
  {}

  lemma ReverseGroup(w: bv32, op: RevOp)
    requires w & 0xFFFFFC00 == ReverseWord(op, 0, 0)
    ensures Decode(w) == Reverse(op, FieldD(w), FieldN(w))
  {
    hide FieldD, FieldN, FieldM, FieldA, DecodeDataImm, DecodeBranch, DecodeLoadStore;
  }

  lemma DecodeReversal(op: RevOp, d: bv8, n: bv8)
    requires IsReg(d) && IsReg(n)
    ensures Decode(ReverseWord(op, d, n)) == Reverse(op, d, n)
  {
    hide ReverseWord, Decode, FieldD, FieldN;
    ReverseFields(op, d, n);
    ReverseGroup(ReverseWord(op, d, n), op);
  }

  lemma ReverseExecutes(op: RevOp, d: bv8, n: bv8, m: A64)
    requires d < 31
    ensures Execute(m, Reverse(op, d, n)) == Go(SetX(m, d, RevResult(op, X(m, n))).(pc := m.pc + 1))
  {
    hide RevResult, X;
  }

  lemma ReverseStep(op: RevOp, d: bv8, m: A64) returns (n: A64)
    requires d < 31 && IsReg(d)
    ensures Straight([ReverseWord(op, d, d)], m, n) && SetsReg(m, n, d, RevResult(op, X(m, d)))
  {
    hide *;
    DecodeReversal(op, d, d);
    ReverseExecutes(op, d, d, m);
    n := SetX(m, d, RevResult(op, X(m, d))).(pc := m.pc + 1);
    SetXSets(m, d, RevResult(op, X(m, d)));
    StraightOne(ReverseWord(op, d, d), m, n);
  }

  /** The register that the mask instruction reads: its fixed bits run into the register field. */
  function MaskedReg(r: bv8): bv8 { r | 24 }

  lemma MaskFields(d: bv8, n: bv8)
    requires IsReg(d) && IsReg(n)
    ensures var w := AndXMask(d, n);
            FieldD(w) == d && FieldN(w) == MaskedReg(n) && (w >> 10) & 63 == 3 && w & 0xFFFF0000 == 0x92400000
  {}

  lemma MaskGroup(w: bv32)
    requires w & 0xFFFF0000 == 0x92400000 && (w >> 10) & 63 == 3
    ensures Decode(w) == AndOnes(FieldD(w), FieldN(w), 3)
  {
    hide FieldD, FieldN, FieldM, FieldA, DecodeDataReg, DecodeBranch, DecodeLoadStore;
  }

  lemma DecodeMaskWord(d: bv8, n: bv8)
    requires IsReg(d) && IsReg(n)
    ensures Decode(AndXMask(d, n)) == AndOnes(d, MaskedReg(n), 3)
  {
    hide AndXMask, Decode, FieldD, FieldN, MaskedReg;
    MaskFields(d, n);
    MaskGroup(AndXMask(d, n));
  }

  lemma FourOnes()
    ensures FromWord(3, 6) == 3 && Pow2(4) == 16
  {
    assert FromWord(0, 4) == 0;
  }

  lemma MaskExecutes(d: bv8, n: bv8, m: A64)
    requires d < 31
    ensures Execute(m, AndOnes(d, n, 3)) == Go(SetX(m, d, X(m, n) % 16).(pc := m.pc + 1))
  {
    hide X, FromWord, Pow2;
    FourOnes();
  }

  lemma MaskStep(d: bv8, m: A64) returns (n: A64)
    requires d < 31 && IsReg(d)
    ensures Straight([AndXMask(d, d)], m, n) && SetsReg(m, n, d, X(m, MaskedReg(d)) % 16)
  {
    hide *;
    DecodeMaskWord(d, d);
    MaskExecutes(d, MaskedReg(d), m);
    n := SetX(m, d, X(m, MaskedReg(d)) % 16).(pc := m.pc + 1);
    SetXSets(m, d, X(m, MaskedReg(d)) % 16);
    StraightOne(AndXMask(d, d), m, n);
  }

  // ---------- the node ----------

  /** The four bits that a 16-bit byte swap of register d leaves. */
  function FourBits(d: bv8, m: A64): u64 {
    if MaskedReg(d) == d then X(m, d) / 256 % 16 else X(m, MaskedReg(d)) % 16
  }

  /** What the words of a byte swap leave in register d. */
  function EndianResult(toBe: bool, width: EndianWidth, d: bv8, m: A64): u64 {
    if !toBe then X(m, d)
    else
      match width
      case Bits16 => FourBits(d, m)
      case Bits32 => Swap32(X(m, d) % TWO_32)
      case Bits64 => Swap64(X(m, d))
  }

  /** The bytes of a halfword. */
  lemma HalfwordBytes(x: nat)
    ensures x % TWO_16 % 256 == x % 256 && x % TWO_16 / 256 == x / 256 % 256
  {
    var h, b := x / TWO_16, x / 256;
    assert x == h * TWO_16 + x % TWO_16;
    var low := x % TWO_16;
    ModUnique(x, 256, 256 * h + low / 256, low % 256);
    ModUnique(b, 256, h, low / 256);
  }

  lemma SixteenOfSwap(x: u64)
    ensures RevResult(Rev16, x) % 16 == x / 256 % 16
  {
    HalfwordBytes(x);
    var lo, hi := x % 256, x / 256 % 256;
    assert Swap16(x % TWO_16) == lo * 256 + hi;
    var upper := Swap16(x / TWO_16 % TWO_16);
    ModUnique(lo * 256 + hi + upper * TWO_16, 16, lo * 16 + hi / 16 + upper * 4096, hi % 16);
    ModUnique(x / 256, 16, 16 * (x / 256 / 256) + hi / 16, hi % 16);
  }

  lemma AfterReverse(d: bv8, m: A64, q: A64)
    requires d < 31 && SetsReg(m, q, d, RevResult(Rev16, X(m, d)))
    ensures X(q, MaskedReg(d)) % 16 == FourBits(d, m)
  {
    hide RevResult, X, MaskedReg;
    SixteenOfSwap(X(m, d));
  }

  lemma HalfwordNode(d: bv8, m: A64) returns (n: A64)
    requires IsProgramReg(d)
    ensures Straight([Rev16W(d, d), AndXMask(d, d)], m, n) && OnlyChanged(m, n, d) && X(n, d) == FourBits(d, m)
  {
    hide Straight, SetsReg, RevResult, X, FourBits, Rev16W, AndXMask, RevW, RevX;
    var q := ReverseStep(Rev16, d, m);
    n := MaskStep(d, q);
    AfterReverse(d, m, q);
    StraightAppend([Rev16W(d, d)], [AndXMask(d, d)], m, q, n);
    assert [Rev16W(d, d)] + [AndXMask(d, d)] == [Rev16W(d, d), AndXMask(d, d)];
    SetTwice(m, q, n, d, RevResult(Rev16, X(m, d)), FourBits(d, m));
  }

  lemma SetTwice(m: A64, q: A64, n: A64, d: bv8, v: u64, w: u64)
    requires SetsReg(m, q, d, v) && SetsReg(q, n, d, w)
    ensures OnlyChanged(m, n, d) && X(n, d) == w
  {}

  lemma NothingDone(m: A64, d: bv8)
    ensures Straight([], m, m) && OnlyChanged(m, m, d)
  {}

  /** The words of a byte swap, any of them. */
  lemma EndianNode(toBe: bool, width: EndianWidth, dst: PhysReg, m: A64) returns (n: A64)
    requires IsProgramReg(dst.n)
    ensures Straight(EndianWords(toBe, width, dst), m, n) && OnlyChanged(m, n, dst.n)
    ensures X(n, dst.n) == EndianResult(toBe, width, dst.n, m)
  {
    hide Straight, SetsReg, OnlyChanged, X, FourBits, Swap32, Swap64, Rev16W, AndXMask, RevW, RevX;
    var d := dst.n;
    if !toBe {
      n := m;
      NothingDone(m, d);
    } else {
      match width
      case Bits16 =>
        n := HalfwordNode(d, m);
      case Bits32 =>
        n := ReverseStep(Rev32, d, m);
        SetsOnly(m, n, d, Swap32(X(m, d) % TWO_32));
      case Bits64 =>
        n := ReverseStep(Rev64, d, m);
        SetsOnly(m, n, d, Swap64(X(m, d)));
    }
  }

  // ---------- when it is right ----------

  /** Byte swaps that come out right. A conversion to little-endian should cut off the upper bits; a
      16-bit swap keeps four bits, and of a wrong register. */
  predicate EndianRight(toBe: bool, width: EndianWidth, d: bv8, m: A64) {
    match width
    case Bits16 =>
      if toBe then X(m, d) % 256 == 0 && X(m, d) / 256 % 256 == FourBits(d, m) else X(m, d) < TWO_16
    case Bits32 => toBe || X(m, d) < TWO_32
    case Bits64 => true
  }

  lemma SwapSmall(x: u64, k: nat)
    requires k < 16
    ensures Swap16(x % TWO_16) == k <==> x % 256 == 0 && x / 256 % 256 == k
  {
    HalfwordBytes(x);
  }

  /** A byte swap does what the interpreter does exactly in these cases: from 32 bits on always. */
  lemma EndianExact(toBe: bool, width: EndianWidth, dst: PhysReg, m: A64) returns (n: A64)
    requires IsProgramReg(dst.n)
    ensures Straight(EndianWords(toBe, width, dst), m, n) && OnlyChanged(m, n, dst.n)
    ensures X(n, dst.n) == EvalEndian(toBe, width, X(m, dst.n)) <==> EndianRight(toBe, width, dst.n, m)
  {
    hide Straight, OnlyChanged, X, FourBits, Swap16, Swap32, Swap64, EndianWords;
    n := EndianNode(toBe, width, dst, m);
    FourBitsSmall(dst.n, m);
    SwapSmall(X(m, dst.n), FourBits(dst.n, m));
    CutOff(X(m, dst.n), TWO_16);
    CutOff(X(m, dst.n), TWO_32);
  }

  lemma FourBitsSmall(d: bv8, m: A64)
    ensures FourBits(d, m) < 16
  {}
}
