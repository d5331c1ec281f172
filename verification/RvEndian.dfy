/** RISC-V byte swaps: a word that does nothing is emitted for them, so they are right exactly where
    nothing is to be done. */
module RvEndian {
  import opened Isa
  import opened Bits
  import opened Interpreter
  import opened Ir
  import opened RvEncode
  import opened RvWords
  import opened RvMachine
  import opened RvNodes

  lemma AddNothing(a: u64)
    ensures Result64(OpAdd, a, Wrap64(0)) == a
  {
    ModUnique(a, TWO_64, 0, a);
  }

  /** Whatever the byte swap, the register keeps its value. */
  lemma EndianNode(dst: PhysReg, m: Rv) returns (n: Rv)
    requires IsProgramReg(dst.n)
    ensures Straight([Addi(dst.n, dst.n, 0)], m, n) && OnlyChanged(m, n, dst.n) && R(n, dst.n) == R(m, dst.n)
  {
    hide Straight, SetsReg, OnlyChanged, Result64, IType, R;
    AddNothing(R(m, dst.n));
    n := ImmStep(0, dst.n, 0, dst.n, OpAdd, m);
    SetsOnly(m, n, dst.n, R(m, dst.n));
  }

  // ---------- when it is right ----------

  lemma SwapTwice16(h: u16)
    ensures Swap16(Swap16(h)) == h
  {
    var lo, hi := h % 256, h / 256;
    ModUnique(lo * 256 + hi, 256, lo, hi);
  }

  lemma SwapHalves(lo: u16, hi: u16)
    ensures Swap32(hi * TWO_16 + lo) == Swap16(lo) * TWO_16 + Swap16(hi)
  {
    hide Swap16;
    ModUnique(hi * TWO_16 + lo, TWO_16, hi, lo);
  }

  lemma SwapTwice32(w: u32)
    ensures Swap32(Swap32(w)) == w
  {
    hide Swap16, Swap32;
    var lo, hi := w % TWO_16, w / TWO_16;
    SwapHalves(lo, hi);
    SwapHalves(Swap16(hi), Swap16(lo));
    SwapTwice16(lo);
    SwapTwice16(hi);
  }

  /** The same from either end. */
  predicate Palindrome(width: EndianWidth, v: u64) {
    match width
    case Bits16 => v < TWO_16 && v % 256 == v / 256
    case Bits32 => v < TWO_32 && v % TWO_16 == Swap16(v / TWO_16)
    case Bits64 => v % TWO_32 == Swap32(v / TWO_32)
  }

  function Limit(width: EndianWidth): nat {
    match width
    case Bits16 => TWO_16
    case Bits32 => TWO_32
    case Bits64 => TWO_64
  }

  lemma Parts(a: int, b: int, c: int, d: int, unit: nat)
    requires 0 <= b < unit && 0 <= d < unit
    ensures a * unit + b == c * unit + d <==> a == c && b == d
  {
    if a * unit + b == c * unit + d {
      ModUnique(a * unit + b, unit, a, b);
      ModUnique(c * unit + d, unit, c, d);
    }
  }

  lemma Swapped16(v: u16)
    ensures Swap16(v) == v <==> v % 256 == v / 256
  {
    Parts(v % 256, v / 256, v / 256, v % 256, 256);
  }

  lemma Swapped32(v: u32)
    ensures Swap32(v) == v <==> v % TWO_16 == Swap16(v / TWO_16)
  {
    hide Swap16;
    var lo, hi := v % TWO_16, v / TWO_16;
    Parts(Swap16(lo), Swap16(hi), hi, lo, TWO_16);
    SwapTwice16(lo);
    SwapTwice16(hi);
  }

  lemma Swapped64(v: u64)
    ensures Swap64(v) == v <==> v % TWO_32 == Swap32(v / TWO_32)
  {
    hide Swap32;
    var lo, hi := v % TWO_32, v / TWO_32;
    Parts(Swap32(lo), Swap32(hi), hi, lo, TWO_32);
    SwapTwice32(lo);
    SwapTwice32(hi);
  }

  /** A byte swap does what the interpreter does exactly if its operand has no bits beyond the width
      and, for big-endian, reads the same from either end. */
  lemma EndianExact(toBe: bool, width: EndianWidth, dst: PhysReg, m: Rv) returns (n: Rv)
    requires IsProgramReg(dst.n)
    ensures Straight(RvNodeWords(IrEndian(toBe, width, dst)), m, n) && OnlyChanged(m, n, dst.n)
    ensures R(n, dst.n) == EvalEndian(toBe, width, R(m, dst.n))
       <==> if toBe then Palindrome(width, R(m, dst.n)) else R(m, dst.n) < Limit(width)
  {
    hide Straight, OnlyChanged, R, Addi;
    n := EndianNode(dst, m);
    UnchangedExact(toBe, width, R(m, dst.n));
  }

  lemma UnchangedExact(toBe: bool, width: EndianWidth, v: u64)
    ensures v == EvalEndian(toBe, width, v) <==> if toBe then Palindrome(width, v) else v < Limit(width)
  {
    hide Swap16, Swap32, Swap64;
    CutOff(v, TWO_16);
    CutOff(v, TWO_32);
    Swapped16(v % TWO_16);
    Swapped32(v % TWO_32);
    Swapped64(v);
  }
}
