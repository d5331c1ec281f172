/** Laws of the interpreter's arithmetic, stated on bits and bytes of the operands, and the atomic
    operations of section 5.3 of RFC 9669. */
module AluLaws {
  import opened Isa
  import opened Bits
  import opened Interpreter

  /** Bit k of x, 0 the lowest. */
  function BitAt(x: nat, k: nat): (b: nat)
    ensures b <= 1
  {
    x / Pow2(k) % 2
  }

  /** Byte k of x, 0 the lowest. */
  function ByteAt(x: nat, k: nat): (b: nat)
    ensures b < 256
  {
    x / Pow2(8 * k) % 256
  }

  // ---------- quotients of quotients ----------

  lemma DivDiv(x: nat, a: nat, b: nat)
    requires a > 0 && b > 0
    ensures a * b > 0 && x / a / b == x / (a * b)
  {
    var q, r := x / a, x % a;
    var q', r' := q / b, q % b;
    assert x == q * a + r && q == q' * b + r';
    MulAtLeast(a, b);
    assert x == q' * (a * b) + (r' * a + r) by {
      assert q * a == (q' * b) * a + r' * a;
      assert (q' * b) * a == q' * (a * b);
    }
    assert r' * a + r < a * b by {
      var gap := b - 1 - r';
      assert gap * a >= 0;
      assert gap * a == a * b - a - r' * a;
    }
    ModUnique(x, a * b, q', r' * a + r);
  }

  lemma HalvedBit(x: nat, k: nat)
    ensures BitAt(x, 0) == x % 2 && BitAt(x, k + 1) == BitAt(x / 2, k)
  {
    DivDiv(x, 2, Pow2(k));
  }

  // ---------- bits of the logical operations ----------

  lemma {:induction false} BitwiseBit(op: Logic, a: nat, b: nat, n: nat, k: nat)
    requires k < n
    ensures BitAt(Bitwise(op, a, b, n), k) == Bit(LogicBit(op, BitAt(a, k) == 1, BitAt(b, k) == 1))
  {
    var half := Bitwise(op, a / 2, b / 2, n - 1);
    HalvedBit(a, if k > 0 then k - 1 else 0);
    HalvedBit(b, if k > 0 then k - 1 else 0);
    HalvedBit(Bitwise(op, a, b, n), if k > 0 then k - 1 else 0);
    hide BitAt, LogicBit, Pow2;
    assert Bitwise(op, a, b, n) / 2 == half;
    if k > 0 {
      BitwiseBit(op, a / 2, b / 2, n - 1, k - 1);
    }
  }

  /** A number with a bit set is not zero, and the other way round. */
  lemma {:induction false} SomeBit(x: nat, n: nat) returns (k: nat)
    requires 0 < x < Pow2(n)
    ensures k < n && BitAt(x, k) == 1
  {
    if x % 2 == 1 {
      k := 0;
      assert n > 0;
      HalvedBit(x, 0);
    } else {
      var j := SomeBit(x / 2, n - 1);
      k := j + 1;
      HalvedBit(x, j);
    }
  }

  lemma NoBit(k: nat)
    ensures BitAt(0, k) == 0
  {}

  function Larger(a: nat, b: nat): nat { if a > b then a else b }

  lemma LogicOps(a: u64, b: u64)
    ensures EvalAlu64(Xor, a, b) == Bitwise(LXor, a, b, 64)
    ensures EvalAlu64(And, a, b) == Bitwise(LAnd, a, b, 64)
    ensures EvalAlu64(Or, a, b) == Bitwise(LOr, a, b, 64)
    ensures a < TWO_32 && b < TWO_32 ==>
              && EvalAlu32(Xor, a, b) == Bitwise(LXor, a, b, 32)
              && EvalAlu32(And, a, b) == Bitwise(LAnd, a, b, 32)
              && EvalAlu32(Or, a, b) == Bitwise(LOr, a, b, 32)
  {
    hide Bitwise;
  }

  lemma BitTables(x: nat, y: nat)
    requires x <= 1 && y <= 1
    ensures Bit(LogicBit(LXor, x == 1, y == 1)) == (x + y) % 2
    ensures Bit(LogicBit(LAnd, x == 1, y == 1)) == x * y
    ensures Bit(LogicBit(LOr, x == 1, y == 1)) == Larger(x, y)
  {}

  /** Bit by bit, exclusive or adds without carry, and multiplies, or takes the larger. */
  lemma LogicBits64(a: u64, b: u64, k: nat)
    requires k < 64
    ensures BitAt(EvalAlu64(Xor, a, b), k) == (BitAt(a, k) + BitAt(b, k)) % 2
    ensures BitAt(EvalAlu64(And, a, b), k) == BitAt(a, k) * BitAt(b, k)
    ensures BitAt(EvalAlu64(Or, a, b), k) == Larger(BitAt(a, k), BitAt(b, k))
  {
    LogicOps(a, b);
    BitTables(BitAt(a, k), BitAt(b, k));
    hide *;
    BitwiseBit(LXor, a, b, 64, k);
    BitwiseBit(LAnd, a, b, 64, k);
    BitwiseBit(LOr, a, b, 64, k);
  }

  lemma LogicBits32(a: u32, b: u32, k: nat)
    requires k < 32
    ensures BitAt(EvalAlu32(Xor, a, b), k) == (BitAt(a, k) + BitAt(b, k)) % 2
    ensures BitAt(EvalAlu32(And, a, b), k) == BitAt(a, k) * BitAt(b, k)
    ensures BitAt(EvalAlu32(Or, a, b), k) == Larger(BitAt(a, k), BitAt(b, k))
  {
    LogicOps(a, b);
    BitTables(BitAt(a, k), BitAt(b, k));
    hide *;
    BitwiseBit(LXor, a, b, 32, k);
    BitwiseBit(LAnd, a, b, 32, k);
    BitwiseBit(LOr, a, b, 32, k);
  }

  /** Jset jumps if and only if the operands have a bit in common. */
  lemma CommonBit(a: u64, b: u64)
    ensures EvalJmp(Jset, a, b) <==> exists k :: 0 <= k < 64 && BitAt(a, k) == 1 && BitAt(b, k) == 1
  {
    var both := EvalAlu64(And, a, b);
    Pow2Values();
    hide BitAt, Bitwise, Pow2;
    if both != 0 {
      var k := SomeBit(both, 64);
      LogicBits64(a, b, k);
      OneTimesOne(BitAt(a, k), BitAt(b, k));
    }
    if exists k :: 0 <= k < 64 && BitAt(a, k) == 1 && BitAt(b, k) == 1 {
      var k :| 0 <= k < 64 && BitAt(a, k) == 1 && BitAt(b, k) == 1;
      LogicBits64(a, b, k);
      NoBit(k);
    }
  }

  lemma OneTimesOne(x: nat, y: nat)
    requires x <= 1 && y <= 1 && x * y == 1
    ensures x == 1 && y == 1
  {}

  // ---------- the other operations, against each other ----------

  /** Quotient and remainder make up the dividend; division by zero gives zero, and the remainder is
      then the dividend. */
  lemma DivisionLaw64(a: u64, b: u64)
    ensures EvalAlu64(Div, a, b) * b + EvalAlu64(Mod, a, b) == a
    ensures if b == 0 then EvalAlu64(Div, a, b) == 0 else EvalAlu64(Mod, a, b) < b
  {}

  lemma DivisionLaw32(a: u32, b: u32)
    ensures EvalAlu32(Div, a, b) * b + EvalAlu32(Mod, a, b) == a
    ensures if b == 0 then EvalAlu32(Div, a, b) == 0 else EvalAlu32(Mod, a, b) < b
  {}

  // ---------- atomic operations ----------

  /** What an eBPF atomic leaves in the cell; r0 is the value that a compare-and-exchange expects. */
  function EbpfCell(op: AtomicOp, cell: u64, v: u64, r0: u64): u64 {
    match op
    case AtomicAdd => EvalAlu64(Add, cell, v)
    case FetchAdd => EvalAlu64(Add, cell, v)
    case AtomicOr => EvalAlu64(Or, cell, v)
    case FetchOr => EvalAlu64(Or, cell, v)
    case AtomicAnd => EvalAlu64(And, cell, v)
    case FetchAnd => EvalAlu64(And, cell, v)
    case AtomicXor => EvalAlu64(Xor, cell, v)
    case FetchXor => EvalAlu64(Xor, cell, v)
    case Xchg => v
    case CmpXchg => if cell == r0 then v else cell
  }

  // ---------- byte order ----------

  /** How many bytes a conversion keeps. */
  function Kept(width: EndianWidth): (n: nat)
    ensures 2 <= n <= 8
  {
    match width
    case Bits16 => 2
    case Bits32 => 4
    case Bits64 => 8
  }

  lemma ByteOfLow(x: nat, n: nat, k: nat)
    ensures ByteAt(x % Pow2(8 * n), k) == if k < n then ByteAt(x, k) else 0
  {
    hide Pow2;
    if k < n {
      var m := n - k;
      Pow2Add(8 * k, 8 * m);
      Pow2Add(8, 8 * m - 8);
      assert Pow2(8) == 256 by { Pow2Byte(); }
      LowDigits(x, Pow2(8 * k), Pow2(8 * m - 8));
      assert 8 * n == 8 * k + 8 * m;
    } else {
      Pow2Add(8 * n, 8 * (k - n));
      assert 8 * k == 8 * n + 8 * (k - n);
      var r := x % Pow2(8 * n);
      MulAtLeast(Pow2(8 * (k - n)), Pow2(8 * n));
      assert Pow2(8 * n) * Pow2(8 * (k - n)) == Pow2(8 * (k - n)) * Pow2(8 * n);
      ModUnique(r, Pow2(8 * k), 0, r);
    }
  }

  lemma Pow2Byte()
    ensures Pow2(8) == 256
  {
    Pow2Values();
  }

  /** Cutting off at a * 256 * b leaves the digit at a as it was. */
  lemma LowDigits(x: nat, a: nat, b: nat)
    requires a > 0 && b > 0
    ensures a * (256 * b) > 0 && x % (a * (256 * b)) / a % 256 == x / a % 256
  {
    var m := a * (256 * b);
    MulAtLeast(a, 256 * b);
    var q, r := x / m, x % m;
    assert x == q * m + r && q * m == (q * (256 * b)) * a by { assert q * (a * (256 * b)) == (q * (256 * b)) * a; }
    var h, l := r / a, r % a;
    assert r == h * a + l;
    assert x == (q * (256 * b) + h) * a + l;
    ModUnique(x, a, q * (256 * b) + h, l);
    ModUnique(q * (256 * b) + h, 256, q * b + h / 256, h % 256);
  }

  lemma ByteOfHigh(x: nat, n: nat, k: nat)
    ensures ByteAt(Quotient(x, Pow2(8 * n)), k) == ByteAt(x, n + k)
  {
    DivDiv(x, Pow2(8 * n), Pow2(8 * k));
    Pow2Add(8 * n, 8 * k);
    assert 8 * n + 8 * k == 8 * (n + k);
  }

  lemma JoinedBytes(lo: nat, hi: nat, n: nat, k: nat)
    requires lo < Pow2(8 * n)
    ensures ByteAt(hi * Pow2(8 * n) + lo, k) == if k < n then ByteAt(lo, k) else ByteAt(hi, k - n)
  {
    hide Pow2, ByteAt;
    var x := hi * Pow2(8 * n) + lo;
    ModUnique(x, Pow2(8 * n), hi, lo);
    if k < n {
      ByteOfLow(x, n, k);
    } else {
      ByteOfHigh(x, n, k - n);
    }
  }

  lemma BytePowers()
    ensures Pow2(8 * 1) == 256 && Pow2(8 * 2) == TWO_16 && Pow2(8 * 4) == TWO_32 && Pow2(8 * 8) == TWO_64
  {
    Pow2Values();
  }

  lemma Swap16Bytes(v: u16, k: nat)
    requires k < 2
    ensures ByteAt(Swap16(v), k) == ByteAt(v, 1 - k)
  {
    BytePowers();
    hide Pow2, ByteAt;
    JoinedBytes(v / 256, v % 256, 1, k);
    ByteOfHigh(v, 1, 0);
    ByteOfLow(v, 1, 0);
  }

  lemma Swap32Bytes(v: u32, k: nat)
    requires k < 4
    ensures ByteAt(Swap32(v), k) == ByteAt(v, 3 - k)
  {
    BytePowers();
    hide Pow2, ByteAt, Swap16;
    JoinedBytes(Swap16(v / TWO_16), Swap16(v % TWO_16), 2, k);
    if k < 2 {
      Swap16Bytes(v / TWO_16, k);
      ByteOfHigh(v, 2, 1 - k);
    } else {
      Swap16Bytes(v % TWO_16, k - 2);
      ByteOfLow(v, 2, 3 - k);
    }
  }

  lemma Swap64Bytes(v: u64, k: nat)
    requires k < 8
    ensures ByteAt(Swap64(v), k) == ByteAt(v, 7 - k)
  {
    BytePowers();
    hide Pow2, ByteAt, Swap32;
    JoinedBytes(Swap32(v / TWO_32), Swap32(v % TWO_32), 4, k);
    if k < 4 {
      Swap32Bytes(v / TWO_32, k);
      ByteOfHigh(v, 4, 3 - k);
    } else {
      Swap32Bytes(v % TWO_32, k - 4);
      ByteOfLow(v, 4, 7 - k);
    }
  }

  lemma BytesEnd(v: nat, n: nat, k: nat)
    requires v < Pow2(8 * n) && n <= k
    ensures ByteAt(v, k) == 0
  {
    hide Pow2, ByteAt;
    ModUnique(v, Pow2(8 * n), 0, v);
    ByteOfLow(v, n, k);
  }

  lemma SwapBytes(width: EndianWidth, v: u64, k: nat)
    requires k < Kept(width)
    ensures ByteAt(EvalEndian(true, width, v), k) == ByteAt(v, Kept(width) - 1 - k)
  {
    BytePowers();
    hide Pow2, ByteAt, Swap16, Swap32, Swap64;
    match width
    case Bits16 =>
      Swap16Bytes(v % TWO_16, k);
      ByteOfLow(v, 2, 1 - k);
    case Bits32 =>
      Swap32Bytes(v % TWO_32, k);
      ByteOfLow(v, 4, 3 - k);
    case Bits64 => Swap64Bytes(v, k);
  }

  lemma WithinWidth(toBe: bool, width: EndianWidth, v: u64)
    ensures EvalEndian(toBe, width, v) < Pow2(8 * Kept(width))
    ensures !toBe ==> EvalEndian(toBe, width, v) == v % Pow2(8 * Kept(width))
  {
    BytePowers();
    hide Pow2, Swap16, Swap32, Swap64;
  }

  /** A conversion to big-endian reverses the low bytes, one to little-endian keeps them; either
      clears the others. */
  lemma EndianBytes(toBe: bool, width: EndianWidth, v: u64, k: nat)
    ensures ByteAt(EvalEndian(toBe, width, v), k)
         == if k >= Kept(width) then 0 else ByteAt(v, if toBe then Kept(width) - 1 - k else k)
  {
    WithinWidth(toBe, width, v);
    hide Pow2, ByteAt, EvalEndian;
    if k >= Kept(width) {
      BytesEnd(EvalEndian(toBe, width, v), Kept(width), k);
    } else if toBe {
      SwapBytes(width, v, k);
    } else {
      ByteOfLow(v, Kept(width), k);
    }
  }
}
