/** Integer conversions that truncate, and division that truncates. */
module Casts {
  import opened Isa
  import opened Bits

  /** Truncating conversions of (possibly negative) integers. */
  function AsU32(x: int): bv32 { ToWord(x % TWO_32) }

  function AsU16(x: int): bv16 { (ToWord(x % TWO_16) & 0xFFFF) as bv16 }

  function AsU8(x: int): bv8 { (ToWord(x % TWO_8) & 0xFF) as bv8 }

  /** Integer division truncating towards zero. */
  function TruncDiv(a: int, b: nat): int
    requires b > 0
  {
    if a >= 0 then a / b else -(-a / b)
  }

  // ---------- signed fields ----------

  /** The two's-complement value of the low n bits of a word. */
  function SignedField(field: bv32, n: nat): int
    requires n > 0
  {
    var v := FromWord(field, n);
    if v < Pow2(n - 1) then v else v - Pow2(n)
  }

  predicate FitsSigned(d: int, n: nat)
    requires n > 0
  {
    d < Pow2(n - 1) && d + Pow2(n - 1) >= 0
  }

  /** The field widths in use. */
  lemma FieldMask(n: nat)
    requires n in {7, 12, 13, 19, 21, 26}
    ensures n == 7 ==> Mask(n) == 0x7F && Pow2(n - 1) == 0x40
    ensures n == 12 ==> Mask(n) == 0xFFF && Pow2(n - 1) == 0x800
    ensures n == 13 ==> Mask(n) == 0x1FFF && Pow2(n - 1) == 0x1000
    ensures n == 19 ==> Mask(n) == 0x7_FFFF && Pow2(n - 1) == 0x4_0000
    ensures n == 21 ==> Mask(n) == 0x1F_FFFF && Pow2(n - 1) == 0x10_0000
    ensures n == 26 ==> Mask(n) == 0x3FF_FFFF && Pow2(n - 1) == 0x200_0000
  {
    Masks();
    Pow2Values();
  }

  lemma NestedModulo(d: int, m: nat, p: nat, q: nat)
    requires p > 0 && q > 0 && q * p == m && 0 - p <= d < p
    ensures m > 0 && d % m % p == if d >= 0 then d else d + p
  {
    MulAtLeast(q, p);
    if d >= 0 {
      ModUnique(d, m, 0, d);
      ModUnique(d, p, 0, d);
    } else {
      ModUnique(d, m, -1, d + m);
      assert (q - 1) * p == q * p - p;
      ModUnique(d + m, p, q - 1, d + p);
    }
  }

  /** A number modulo 2 to the 32, then modulo 2 to the n. */
  lemma OffsetModulo(d: int, n: nat)
    requires 0 < n <= 32 && FitsSigned(d, n)
    ensures d % TWO_32 % Pow2(n) == if d >= 0 then d else d + Pow2(n)
  {
    Pow2Add(32 - n, n);
    Pow2Values();
    assert Pow2(n) == 2 * Pow2(n - 1);
    hide Pow2;
    NestedModulo(d, TWO_32, Pow2(n), Pow2(32 - n));
  }

  lemma OffsetField(d: int, n: nat)
    requires 0 < n <= 32 && FitsSigned(d, n)
    ensures FromWord(AsU32(d) & Mask(n), n) == if d >= 0 then d else d + Pow2(n)
  {
    OffsetWord(d);
    FieldValue(d % TWO_32, n);
    hide *;
    OffsetModulo(d, n);
  }

  lemma OffsetWord(d: int)
    ensures AsU32(d) == ToWord(d % TWO_32)
  {}

  /** Reading an offset back from the low n bits of its 32-bit word. */
  lemma SignedFieldValue(d: int, n: nat)
    requires 0 < n <= 32 && FitsSigned(d, n)
    ensures SignedField(AsU32(d) & Mask(n), n) == d
  {
    OffsetField(d, n);
    assert Pow2(n) == 2 * Pow2(n - 1);
    hide AsU32, FromWord, Mask, Pow2;
  }

  lemma SignedRange(field: bv32, n: nat)
    requires n > 0
    ensures 0 - Pow2(n - 1) <= SignedField(field, n) < Pow2(n - 1)
  {
    assert Pow2(n) == 2 * Pow2(n - 1);
    hide Pow2, FromWord;
  }
}
