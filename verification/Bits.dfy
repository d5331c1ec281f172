/** Powers of two, bitwise logic on naturals, and the passage between naturals and
    32-bit machine words. */
module Bits {

  // ---------- powers of two and remainders ----------

  function Pow2(n: nat): (p: nat)
    ensures p > 0
  {
    if n == 0 then 1 else 2 * Pow2(n - 1)
  }

  lemma Pow2Values()
    ensures Pow2(4) == 0x10 && Pow2(7) == 0x80 && Pow2(12) == 0x1000 && Pow2(16) == 0x1_0000
    ensures Pow2(19) == 0x8_0000 && Pow2(26) == 0x400_0000
    ensures Pow2(32) == 0x1_0000_0000 && Pow2(48) == 0x1_0000_0000_0000
    ensures Pow2(64) == 0x1_0000_0000_0000_0000
  {
    assert Pow2(10) == 1024;
    assert Pow2(13) == 0x2000;
    assert Pow2(20) == 0x10_0000;
    assert Pow2(30) == 0x4000_0000;
    assert Pow2(40) == 0x100_0000_0000;
    assert Pow2(50) == 0x4_0000_0000_0000;
    assert Pow2(60) == 0x1000_0000_0000_0000;
  }

  lemma {:induction false} Pow2Add(a: nat, b: nat)
    ensures Pow2(a + b) == Pow2(a) * Pow2(b)
  {
    if a > 0 {
      Pow2Add(a - 1, b);
    }
  }

  lemma MulAtLeast(k: int, m: int)
    requires k >= 1 && m > 0
    ensures k * m >= m
  {}

  lemma MulAtMost(k: int, m: int)
    requires k <= -1 && m > 0
    ensures k * m <= -m
  {
    MulAtLeast(-k, m);
    assert (-k) * m == -(k * m);
  }

  lemma ModUnique(x: int, m: int, q: int, r: int)
    requires m > 0 && x == q * m + r && 0 <= r < m
    ensures x % m == r && x / m == q
  {
    var q', r' := x / m, x % m;
    assert x == q' * m + r';
    var k := q - q';
    assert k * m == r' - r by { assert k * m == q * m - q' * m; }
    if k >= 1 {
      MulAtLeast(k, m);
    } else if k <= -1 {
      MulAtMost(k, m);
    }
  }

  lemma AddAfterMod(x: int, y: int, m: int)
    requires m > 0
    ensures (x % m + y) % m == (x + y) % m
  {
    var q, r := (x % m + y) / m, (x % m + y) % m;
    assert x == x / m * m + x % m;
    assert x % m + y == q * m + r;
    assert (x / m + q) * m == x / m * m + q * m;
    ModUnique(x + y, m, x / m + q, r);
  }

  function Quotient(a: nat, b: nat): (q: nat)
    requires b > 0
    ensures q <= a
  {
    QuotientBound(a, b);
    a / b
  }

  lemma QuotientBound(a: nat, b: nat)
    requires b > 0
    ensures 0 <= a / b <= a
  {
    var q := a / b;
    assert a == q * b + a % b;
    if q >= 1 {
      assert q * b >= q by { MulAtLeast(b, q); assert b * q == q * b; }
    }
  }

  function Remainder(a: nat, b: nat): (r: nat)
    requires b > 0
    ensures r <= a && r < b
  {
    var q := a / b;
    assert a == q * b + a % b;
    assert 0 <= q <= a by { QuotientBound(a, b); }
    assert q * b >= 0;
    a % b
  }

  /** Division rounding towards minus infinity, as an arithmetic right shift does. */
  function FloorDiv(a: int, b: nat): int
    requires b > 0
  {
    a / b
  }

  // ---------- bitwise logic, one bit at a time ----------

  datatype Logic = LOr | LAnd | LXor

  predicate LogicBit(op: Logic, a: bool, b: bool) {
    match op
    case LOr => a || b
    case LAnd => a && b
    case LXor => a != b
  }

  function Bit(b: bool): (n: nat)
    ensures n <= 1
  {
    if b then 1 else 0
  }

  /** The low n bits of `a op b`. */
  function Bitwise(op: Logic, a: nat, b: nat, n: nat): (r: nat)
    ensures r < Pow2(n)
  {
    if n == 0 then 0
    else 2 * Bitwise(op, a / 2, b / 2, n - 1) + Bit(LogicBit(op, a % 2 == 1, b % 2 == 1))
  }

  // ---------- naturals and 32-bit words ----------

  function BitOf(b: bool): bv32 { if b then 1 else 0 }

  /** The low 32 bits of x. */
  function ToWord(x: nat): bv32 {
    if x == 0 then 0 else (ToWord(x / 2) << 1) | BitOf(x % 2 == 1)
  }

  /** The value of the low n bits of w. */
  function FromWord(w: bv32, n: nat): (v: nat)
    ensures v < Pow2(n)
  {
    if n == 0 then 0 else 2 * FromWord(w >> 1, n - 1) + Bit(w & 1 == 1)
  }

  function Mask(n: nat): bv32 {
    if n == 0 then 0 else (Mask(n - 1) << 1) | 1
  }

  function Low(x: nat, n: nat): nat {
    if n == 0 then 0 else 2 * Low(x / 2, n - 1) + x % 2
  }

  lemma HalvesMod(x: nat, p: nat)
    requires p > 0
    ensures x % (2 * p) == 2 * ((x / 2) % p) + x % 2
  {
    var h := x / 2;
    var q := h / p;
    var r := h % p;
    assert h == q * p + r;
    assert q * (2 * p) == 2 * (q * p);
    ModUnique(x, 2 * p, q, 2 * r + x % 2);
  }

  lemma {:induction false} LowIsMod(x: nat, n: nat)
    ensures Low(x, n) == x % Pow2(n)
  {
    if n > 0 {
      LowIsMod(x / 2, n - 1);
      HalvesMod(x, Pow2(n - 1));
    }
  }

  lemma ToWordHalf(x: nat)
    ensures ToWord(x) == (ToWord(x / 2) << 1) | BitOf(x % 2 == 1)
  {}

  lemma MaskStep(a: bv32, m: bv32, b: bool)
    ensures ((a << 1) | BitOf(b)) & ((m << 1) | 1) == ((a & m) << 1) | BitOf(b)
  {}

  lemma {:induction false} MaskNested(n: nat, k: nat)
    requires n <= k
    ensures Mask(n) & Mask(k) == Mask(n)
  {
    if n > 0 {
      MaskNested(n - 1, k - 1);
      MaskStep(Mask(n - 1), Mask(k - 1), true);
    }
  }

  lemma TopBitFree(n: nat, a: bv32)
    requires n <= 31
    ensures (a & Mask(n)) & 0x8000_0000 == 0
  {
    MaskNested(n, 31);
    assert Mask(31) == 0x7FFF_FFFF by { Masks(); }
    TopBitFreeWord(Mask(n), a);
  }

  lemma TopBitFreeWord(m: bv32, a: bv32)
    requires m & 0x7FFF_FFFF == m
    ensures (a & m) & 0x8000_0000 == 0
  {}

  lemma Masks()
    ensures Mask(1) == 1 && Mask(7) == 0x7F && Mask(12) == 0xFFF && Mask(13) == 0x1FFF && Mask(16) == 0xFFFF
    ensures Mask(19) == 0x7_FFFF && Mask(21) == 0x1F_FFFF && Mask(26) == 0x3FF_FFFF
    ensures Mask(31) == 0x7FFF_FFFF && Mask(32) == 0xFFFF_FFFF
  {}

  lemma ShiftBack(w: bv32, b: bool)
    requires w & 0x8000_0000 == 0
    ensures ((w << 1) | BitOf(b)) >> 1 == w
    ensures (((w << 1) | BitOf(b)) & 1 == 1) == b
  {}

  lemma FromWordStep(v: bv32, w: bv32, b: bool, n: nat)
    requires v >> 1 == w && (v & 1 == 1) == b
    ensures FromWord(v, n + 1) == 2 * FromWord(w, n) + Bit(b)
  {}

  /** Reading back the low n bits of the word of x gives x modulo 2 to the n. */
  lemma {:induction false} FieldValue(x: nat, n: nat)
    requires n <= 32
    ensures FromWord(ToWord(x) & Mask(n), n) == x % Pow2(n)
  {
    hide ToWord, FromWord, Mask, Low, Pow2;
    LowIsMod(x, n);
    MaskedLow(x, n);
  }

  function Masked(w: bv32, m: bv32): bv32 { w & m }

  /** w is h with one more bit at the bottom. */
  predicate Extends(w: bv32, h: bv32, b: bool) { w == (h << 1) | BitOf(b) }

  predicate TopClear(w: bv32) { w & 0x8000_0000 == 0 }

  lemma MaskedExtends(word: bv32, half: bv32, mask: bv32, halfMask: bv32, b: bool)
    requires Extends(word, half, b) && Extends(mask, halfMask, true)
    ensures Extends(Masked(word, mask), Masked(half, halfMask), b)
  {
    MaskStep(half, halfMask, b);
  }

  lemma ExtendedValue(v: bv32, w: bv32, b: bool, n: nat)
    requires n > 0 && Extends(v, w, b) && TopClear(w)
    ensures FromWord(v, n) == 2 * FromWord(w, n - 1) + Bit(b)
  {
    ShiftBack(w, b);
    FromWordStep(v, w, b, n - 1);
  }

  lemma FieldParts(x: nat, n: nat, word: bv32)
    ensures FromWord(word, 0) == 0 && Low(x, 0) == 0
    ensures n > 0 ==> Low(x, n) == 2 * Low(x / 2, n - 1) + Bit(x % 2 == 1) && Extends(Mask(n), Mask(n - 1), true)
    ensures Extends(ToWord(x), ToWord(x / 2), x % 2 == 1)
  {
    ToWordHalf(x);
    hide ToWord;
  }

  lemma {:induction false} MaskedLow(x: nat, n: nat)
    requires n <= 32
    ensures FromWord(Masked(ToWord(x), Mask(n)), n) == Low(x, n)
  {
    hide *;
    FieldParts(x, n, Masked(ToWord(x), Mask(n)));
    if n > 0 {
      MaskedLow(x / 2, n - 1);
      HalfClear(n - 1, ToWord(x / 2));
      MaskedExtends(ToWord(x), ToWord(x / 2), Mask(n), Mask(n - 1), x % 2 == 1);
      ExtendedValue(Masked(ToWord(x), Mask(n)), Masked(ToWord(x / 2), Mask(n - 1)), x % 2 == 1, n);
    }
  }

  lemma HalfClear(n: nat, w: bv32)
    requires n <= 31
    ensures TopClear(Masked(w, Mask(n)))
  {
    hide Mask;
    TopBitFree(n, w);
  }

  lemma CutOff(v: nat, limit: nat)
    requires limit > 0
    ensures v % limit < limit && (v % limit == v <==> v < limit)
  {
    if v < limit {
      ModUnique(v, limit, 0, v);
    }
  }

  // ---------- numbers that fit ----------

  /** All bits of w lie in m. */
  predicate Within(w: bv32, m: bv32) { w & m == w }

  function Double(w: bv32, b: bool): bv32 { (w << 1) | BitOf(b) }

  lemma Digit(x: nat, b: bool)
    ensures ToWord(2 * x + Bit(b)) == Double(ToWord(x), b)
  {
    ToWordHalf(2 * x + Bit(b));
    assert (2 * x + Bit(b)) / 2 == x && (2 * x + Bit(b)) % 2 == Bit(b);
  }

  lemma DoubleMask(w: bv32, m: bv32, b: bool)
    requires w & m == w
    ensures ((w << 1) | BitOf(b)) & ((m << 1) | 1) == (w << 1) | BitOf(b)
  {}

  lemma WithinDouble(w: bv32, m: bv32, b: bool)
    requires Within(w, m)
    ensures Within(Double(w, b), Double(m, true))
  {
    DoubleMask(w, m, b);
  }

  lemma MaskDouble(n: nat)
    requires n > 0
    ensures Mask(n) == Double(Mask(n - 1), true)
  {}

  lemma Halves(x: nat) returns (h: nat, b: bool)
    ensures h == x / 2 && x == 2 * h + Bit(b)
  {
    h, b := x / 2, x % 2 == 1;
  }

  lemma NoBits(m: bv32)
    ensures ToWord(0) == 0 && Within(0, m) && Pow2(0) == 1
  {}

  lemma Pow2Next(n: nat)
    requires n > 0
    ensures Pow2(n) == 2 * Pow2(n - 1)
  {}

  /** The word of a number below 2 to the n has no bit beyond the first n. */
  lemma {:induction false} WordFits(x: nat, n: nat)
    requires x < Pow2(n)
    ensures Within(ToWord(x), Mask(n))
  {
    hide *;
    NoBits(Mask(n));
    if n > 0 {
      var h, b := Halves(x);
      Pow2Next(n);
      WordFits(h, n - 1);
      Digit(h, b);
      WithinDouble(ToWord(h), Mask(n - 1), b);
      MaskDouble(n);
    }
  }

  lemma HalfMask(w: bv32, m: bv32)
    requires w & ((m << 1) | 1) == w
    ensures (w >> 1) & m == w >> 1
  {}

  lemma WithinHalf(w: bv32, m: bv32)
    requires Within(w, Double(m, true))
    ensures Within(w >> 1, m)
  {
    HalfMask(w, m);
  }

  lemma EmptyWord(w: bv32)
    requires Within(w, Mask(0))
    ensures FromWord(w, 1) == 0 && FromWord(w, 0) == 0
  {}

  lemma FromWordNext(w: bv32, n: nat)
    requires n > 0
    ensures FromWord(w, n) == 2 * FromWord(w >> 1, n - 1) + Bit(w & 1 == 1)
  {}

  /** A word without a bit beyond the first n has the same value read with one bit more. */
  lemma {:induction false} TopBitClear(w: bv32, n: nat)
    requires Within(w, Mask(n))
    ensures FromWord(w, n + 1) == FromWord(w, n)
  {
    hide *;
    if n == 0 {
      EmptyWord(w);
    } else {
      MaskDouble(n);
      WithinHalf(w, Mask(n - 1));
      TopBitClear(w >> 1, n - 1);
      FromWordNext(w, n);
      FromWordNext(w, n + 1);
    }
  }

  lemma MaskedValue(w: bv32, m: bv32, n: nat)
    requires Within(w, m)
    ensures FromWord(w & m, n) == FromWord(w, n)
  {
    hide FromWord;
  }

  /** Reading the word of a small number back gives the number. */
  lemma SmallWord(x: nat, n: nat)
    requires n <= 32 && x < Pow2(n)
    ensures Within(ToWord(x), Mask(n)) && FromWord(ToWord(x), n) == x
  {
    hide *;
    WordFits(x, n);
    FieldValue(x, n);
    MaskedValue(ToWord(x), Mask(n), n);
    ModUnique(x, Pow2(n), 0, x);
  }
}
