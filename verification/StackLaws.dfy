/** Laws of the interpreter's stack: little-endian bytes, reading back what was written, and what
    happens out of range. */
module StackLaws {
  import opened Isa
  import opened Bits
  import opened Interpreter
  import opened AluLaws

  predicate OnStack(rel: u64, width: MemWidth) { rel + width.ByteLen() <= 512 }

  // ---------- bytes make up a number ----------

  lemma LowByte(x: nat, k: nat)
    ensures ByteAt(x, 0) == x % 256 && ByteAt(x, k + 1) == ByteAt(Quotient(x, 256), k)
  {
    BytePowers();
    hide Pow2, ByteAt;
    ByteOfHigh(x, 1, k);
    ByteOfLow(x, 1, 0);
    assert x % 256 < 256;
    NoHighBytes(x);
  }

  lemma NoHighBytes(x: nat)
    ensures ByteAt(x, 0) == x % 256
  {
    assert Pow2(8 * 0) == 1;
  }

  /** Numbers of n bytes with the same bytes are the same. */
  lemma {:induction false} SameBytes(x: nat, y: nat, n: nat)
    requires x < Pow2(8 * n) && y < Pow2(8 * n) && forall k :: 0 <= k < n ==> ByteAt(x, k) == ByteAt(y, k)
    ensures x == y
  {
    if n == 0 {
      assert Pow2(8 * 0) == 1;
    } else {
      Pow2Add(8, 8 * (n - 1));
      BytePowers();
      assert 8 + 8 * (n - 1) == 8 * n;
      hide Pow2, ByteAt;
      forall k | 0 <= k < n - 1
        ensures ByteAt(Quotient(x, 256), k) == ByteAt(Quotient(y, 256), k)
      {
        LowByte(x, k);
        LowByte(y, k);
        assert ByteAt(x, k + 1) == ByteAt(y, k + 1);
      }
      SameBytes(Quotient(x, 256), Quotient(y, 256), n - 1);
      LowByte(x, 0);
      LowByte(y, 0);
      assert ByteAt(x, 0) == ByteAt(y, 0);
    }
  }

  // ---------- reading and writing ----------

  lemma TwoIs(lo: u8, hi: u8, k: nat)
    requires k < 2
    ensures ByteAt(lo + 0x100 * hi, k) == if k == 0 then lo else hi
  {
    var x := lo + 0x100 * hi;
    LowByte(x, 0);
    NoHighBytes(hi);
    hide ByteAt;
    ModUnique(x, 256, hi, lo);
  }

  lemma FourIs(stack: Stack, at: nat, k: nat)
    requires at + 4 <= STACK_SIZE && k < 4
    ensures ByteAt(Four(stack, at), k) == stack[at + k]
  {
    BytePowers();
    hide Pow2, ByteAt;
    var lo := Byte(stack, at) + 0x100 * Byte(stack, at + 1);
    var hi := Byte(stack, at + 2) + 0x100 * Byte(stack, at + 3);
    JoinedBytes(lo, hi, 2, k);
    if k < 2 {
      TwoIs(stack[at], stack[at + 1], k);
    } else {
      TwoIs(stack[at + 2], stack[at + 3], k - 2);
    }
  }

  /** A read within the stack gives the bytes at its offset, the lowest first. */
  lemma ReadBytes(stack: Stack, rel: u64, width: MemWidth, k: nat)
    requires OnStack(rel, width)
    ensures var v := ReadStack(stack, rel, width);
            && v.Some? && v.value < Pow2(8 * width.ByteLen())
            && ByteAt(v.value, k) == if k < width.ByteLen() then stack[rel + k] else 0
  {
    ReadValue(stack, rel, width);
    hide ReadStack;
    if k < width.ByteLen() {
      ReadByte(stack, rel, width, k);
    } else {
      BytesEnd(ReadStack(stack, rel, width).value, width.ByteLen(), k);
    }
  }

  lemma ReadValue(stack: Stack, rel: u64, width: MemWidth)
    requires OnStack(rel, width)
    ensures ReadStack(stack, rel, width).Some? && ReadStack(stack, rel, width).value < Pow2(8 * width.ByteLen())
  {
    BytePowers();
    hide Pow2, Four;
  }

  lemma ReadByte(stack: Stack, rel: u64, width: MemWidth, k: nat)
    requires OnStack(rel, width) && k < width.ByteLen()
    ensures ReadStack(stack, rel, width).Some? && ByteAt(ReadStack(stack, rel, width).value, k) == stack[rel + k]
  {
    hide ByteAt, Four;
    match width
    case B => NoHighBytes(stack[rel]);
    case H => TwoIs(stack[rel], stack[rel + 1], k);
    case W => FourIs(stack, rel, k);
    case DW => EightIs(stack, rel, k);
  }

  lemma EightIs(stack: Stack, at: nat, k: nat)
    requires at + 8 <= STACK_SIZE && k < 8
    ensures ByteAt(Four(stack, at) + TWO_32 * Four(stack, at + 4), k) == stack[at + k]
  {
    BytePowers();
    hide ByteAt, Four, Pow2;
    JoinedBytes(Four(stack, at), Four(stack, at + 4), 4, k);
    if k < 4 {
      FourIs(stack, at, k);
    } else {
      FourIs(stack, at + 4, k - 4);
    }
  }

  lemma FourBytesAre(v: u32, k: nat)
    requires k < 4
    ensures FourBytes(v)[k] == ByteAt(v, k)
  {
    hide ByteAt;
    LowByte(v, if k > 0 then k - 1 else 0);
    if k > 0 {
      LowByte(v / 256, if k > 1 then k - 2 else 0);
    }
    if k > 1 {
      LowByte(v / 256 / 256, if k > 2 then k - 3 else 0);
    }
    if k > 2 {
      LowByte(v / 256 / 256 / 256, 0);
    }
  }

  /** The bytes that a store writes. */
  lemma StoredBytes(v: u64, width: MemWidth, k: nat)
    requires k < width.ByteLen()
    ensures var bytes := match width
                         case B => [v % 0x100]
                         case H => [v % 0x100, v / 0x100 % 0x100]
                         case W => FourBytes(v % TWO_32)
                         case DW => FourBytes(v % TWO_32) + FourBytes(v / TWO_32);
            |bytes| == width.ByteLen() && bytes[k] == ByteAt(v, k)
  {
    BytePowers();
    hide Pow2, FourBytes;
    LowByte(v, 0);
    NoHighBytes(Quotient(v, 256));
    hide ByteAt;
    if k < 4 {
      FourBytesAre(v % TWO_32, k);
      ByteOfLow(v, 4, k);
    } else {
      FourBytesAre(v / TWO_32, k - 4);
      ByteOfHigh(v, 4, k - 4);
    }
  }

  /** A write within the stack puts the low bytes of the value at its offset, the lowest first, and
      changes nothing else. */
  lemma WriteBytes(stack: Stack, rel: u64, width: MemWidth, v: u64, i: nat)
    requires OnStack(rel, width) && i < 512
    ensures var out := WriteStack(stack, rel, width, v);
            && out.Some?
            && out.value[i] == if rel <= i < rel + width.ByteLen() then ByteAt(v, i - rel) else stack[i]
  {
    hide ByteAt, FourBytes;
    StoredBytes(v, width, if rel <= i < rel + width.ByteLen() then i - rel else 0);
  }

  /** Out of range a read gives 0 and a write does nothing, until the test of the range overflows. */
  lemma OutOfRange(stack: Stack, rel: u64, width: MemWidth, v: u64)
    requires !OnStack(rel, width)
    ensures ReadStack(stack, rel, width) == if rel + width.ByteLen() < TWO_64 then Some(0) else None
    ensures WriteStack(stack, rel, width, v) == if rel + width.ByteLen() < TWO_64 then Some(stack) else None
  {}

  /** Reading back a write gives the value, cut off at the width. */
  lemma ReadBack(stack: Stack, rel: u64, width: MemWidth, v: u64)
    requires OnStack(rel, width)
    ensures WriteStack(stack, rel, width, v).Some?
    ensures ReadStack(WriteStack(stack, rel, width, v).value, rel, width) == Some(CutTo(v, width))
  {
    hide WriteStack, ReadStack, ByteAt, Pow2;
    WriteBytes(stack, rel, width, v, 0);
    var out, n := WriteStack(stack, rel, width, v).value, width.ByteLen();
    ReadBytes(out, rel, width, 0);
    var back := ReadStack(out, rel, width).value;
    forall k | 0 <= k < n
      ensures ByteAt(back, k) == ByteAt(v % Pow2(8 * n), k)
    {
      WriteBytes(stack, rel, width, v, rel + k);
      ReadBytes(out, rel, width, k);
      ByteOfLow(v, n, k);
    }
    SameBytes(back, v % Pow2(8 * n), n);
  }

  /** A write leaves every read that it does not overlap as it was. */
  lemma ReadElsewhere(stack: Stack, rel: u64, width: MemWidth, v: u64, at: u64, size: MemWidth)
    requires OnStack(rel, width) && OnStack(at, size)
    requires at + size.ByteLen() <= rel || rel + width.ByteLen() <= at
    ensures WriteStack(stack, rel, width, v).Some?
    ensures ReadStack(WriteStack(stack, rel, width, v).value, at, size) == ReadStack(stack, at, size)
  {
    hide WriteStack, ReadStack, ByteAt, Pow2;
    WriteBytes(stack, rel, width, v, 0);
    var out, n := WriteStack(stack, rel, width, v).value, size.ByteLen();
    ReadBytes(out, at, size, 0);
    ReadBytes(stack, at, size, 0);
    forall k | 0 <= k < n
      ensures ByteAt(ReadStack(out, at, size).value, k) == ByteAt(ReadStack(stack, at, size).value, k)
    {
      WriteBytes(stack, rel, width, v, at + k);
      ReadBytes(out, at, size, k);
      ReadBytes(stack, at, size, k);
    }
    SameBytes(ReadStack(out, at, size).value, ReadStack(stack, at, size).value, n);
  }

  /** The low bytes of v, as many as the width has. */
  function CutTo(v: u64, width: MemWidth): u64 { Remainder(v, Pow2(8 * width.ByteLen())) }

  // ---------- through the frame pointer ----------

  /** With R10 just above the stack, an offset from R10 counts down from its top. */
  lemma FromTheTop(stackAddr: u64, r10: u64, off: i16)
    requires r10 == Wrap64(stackAddr + 512) && -512 <= off < 0
    ensures StackOffset(stackAddr, r10, off) == 512 + off
  {
    AddAfterMod(stackAddr + 512, off, TWO_64);
    AddAfterMod(stackAddr + 512 + off, -(stackAddr as int), TWO_64);
    ModUnique(512 + off, TWO_64, 0, 512 + off);
  }

  /** Storing a register in the frame and loading it back gives the register, cut off at the width;
      nothing else in the registers changes. */
  lemma StoreThenLoad(width: MemWidth, value: BpfReg, dst: BpfReg, off: i16, stackAddr: u64, regs: Regs, stack: Stack)
    requires regs[10] == Wrap64(stackAddr + 512) && -512 <= off && off + width.ByteLen() <= 0
    ensures var stored := Effect(StoreReg(width, 10, value, off), stackAddr, regs, stack);
            && stored.Some? && stored.value.0 == regs
            && Effect(Load(width, dst, 10, off), stackAddr, regs, stored.value.1)
               == Some((regs[dst := CutTo(regs[value], width)], stored.value.1))
  {
    FromTheTop(stackAddr, regs[10], off);
    hide ReadStack, WriteStack, StackOffset, CutTo, Wrap64;
    ReadBack(stack, 512 + off, width, regs[value]);
  }

  /** A stored constant comes back sign-extended to 64 bits and cut off at the width. */
  lemma StoreImmThenLoad(width: MemWidth, imm: i32, dst: BpfReg, off: i16, stackAddr: u64, regs: Regs, stack: Stack)
    requires regs[10] == Wrap64(stackAddr + 512) && -512 <= off && off + width.ByteLen() <= 0
    ensures var stored := Effect(StoreImm(width, 10, off, imm), stackAddr, regs, stack);
            var extended: u64 := if imm >= 0 then imm else imm + TWO_64;
            && stored.Some? && stored.value.0 == regs
            && Effect(Load(width, dst, 10, off), stackAddr, regs, stored.value.1)
               == Some((regs[dst := CutTo(extended, width)], stored.value.1))
  {
    FromTheTop(stackAddr, regs[10], off);
    Extended(imm);
    hide ReadStack, WriteStack, StackOffset, CutTo, Wrap64;
    ReadBack(stack, 512 + off, width, Wrap64(imm));
  }

  lemma Extended(imm: i32)
    ensures Wrap64(imm) == if imm >= 0 then imm else imm + TWO_64
  {
    ModUnique(imm, TWO_64, if imm >= 0 then 0 else -1, if imm >= 0 then imm else imm + TWO_64);
  }
}
