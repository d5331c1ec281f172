/** Frames: what the prologue saves the epilogue restores, whatever the body did in between, as long
    as the body kept the stack pointer and the save area — except for a frame of 512 bytes. */
module A64Frame {
  import opened Isa
  import opened Bits
  import opened Casts
  import opened Interpreter
  import opened A64Encode
  import opened A64Machine
  import opened A64Decode
  import opened A64Words
  import opened A64Alu
  import opened Frames

  // ---------- offsets of the emitted accesses ----------

  lemma PairOffset(off: i16)
    requires off % 8 == 0 && -512 <= off < 512
    ensures SignedField(Imm7(off), 7) == off / 8 && Imm7(off) < 0x80
  {
    FieldMask(7);
    assert TruncDiv(off, 8) == off / 8;
    Imm7Below(off);
    SignedFieldValue(off / 8, 7);
    hide AsU32, SignedField, Mask, Pow2, TruncDiv;
  }

  lemma Imm7Below(off: i16)
    ensures Imm7(off) < 0x80
  {
    hide AsU32;
  }

  /** 512 bytes are 64 pairs, which a signed 7-bit field reads back as -64. */
  lemma SixtyFour()
    ensures Imm7(512) == ToWord(64) & Mask(7) && Pow2(6) == 64 && Pow2(7) == 128
  {
    FieldMask(7);
    assert Pow2(7) == 2 * Pow2(6);
    assert AsU32(64) == ToWord(64) && TruncDiv(512, 8) == 64;
    hide AsU32, ToWord, Mask, Pow2, TruncDiv;
  }

  lemma PairOffset512()
    ensures SignedField(Imm7(512), 7) == -64 && Imm7(512) < 0x80
  {
    hide Imm7, ToWord, FromWord, Mask, Pow2;
    Imm7Below(512);
    SixtyFour();
    FieldValue(64, 7);
  }

  lemma StoreOffset48()
    ensures AsU16(48) >> 3 == 6 && FromWord(6, 12) == 6
  {
    assert ToWord(48) == 48;
    FromSix();
  }

  lemma FromSix()
    ensures FromWord(6, 12) == 6
  {
    FieldValue(6, 12);
    SixIsSix();
    Masks();
    Pow2Values();
    hide ToWord, FromWord, Mask, Pow2;
    assert (6 as bv32) & 0xFFF == 6;
  }

  lemma SixIsSix()
    ensures ToWord(6) == 6
  {
    assert ToWord(3) == 3;
  }

  // ---------- the save area ----------

  /** Cell i of the save area at a stack pointer. */
  function Slot(sp: u64, i: nat): u64 { Wrap64(sp + 8 * i) }

  lemma SlotsDistinct(sp: u64, i: nat, j: nat)
    requires i < 8 && j < 8 && i != j
    ensures Slot(sp, i) != Slot(sp, j)
  {}

  /** The registers kept in cells 0 to 6. */
  function SlotReg(i: nat): bv8
    requires i < 7
  {
    if i == 0 then 29 else if i == 1 then 30 else if i == 2 then 19 else if i == 3 then 20
    else if i == 4 then 21 else if i == 5 then 22 else 25
  }

  /** The save area at sp holds the registers of m. */
  ghost predicate Saved(mem: map<u64, u64>, sp: u64, m: A64) {
    forall i :: 0 <= i < 7 ==> Slot(sp, i) in mem && mem[Slot(sp, i)] == X(m, SlotReg(i))
  }

  /** Nothing outside the save area was written. */
  ghost predicate OutsideKept(before: map<u64, u64>, after: map<u64, u64>, sp: u64) {
    forall a: u64 :: (forall i :: 0 <= i < 7 ==> a != Slot(sp, i)) ==>
           (a in after <==> a in before) && (a in before ==> after[a] == before[a])
  }

  predicate InSaveArea(a: u64, sp: u64) { exists i :: 0 <= i < 7 && a == Slot(sp, i) }

  /** Address a lies in the save area of one of the first k frames below sp. */
  predicate InAreas(a: u64, sp: u64, frame: u16, k: nat) {
    exists j :: 1 <= j <= k && InSaveArea(a, Down(sp, frame, j))
  }

  /** Nothing outside the save areas of the first k frames below sp was written. */
  ghost predicate OutsideAll(before: map<u64, u64>, after: map<u64, u64>, sp: u64, frame: u16, k: nat) {
    forall a: u64 :: !InAreas(a, sp, frame, k) ==>
           (a in after <==> a in before) && (a in before ==> after[a] == before[a])
  }

  lemma OutsideNext(x: map<u64, u64>, y: map<u64, u64>, z: map<u64, u64>, sp: u64, frame: u16, k: nat)
    requires OutsideAll(x, y, sp, frame, k) && OutsideKept(y, z, Down(sp, frame, k + 1))
    ensures OutsideAll(x, z, sp, frame, k + 1)
  {
    hide Slot, Down;
    forall a: u64 | !InAreas(a, sp, frame, k + 1)
      ensures (a in z <==> a in x) && (a in x ==> z[a] == x[a])
    {
      assert !InSaveArea(a, Down(sp, frame, k + 1)) && !InAreas(a, sp, frame, k);
    }
  }

  // ---------- single accesses ----------

  lemma AlignedOffset(sp: u64, off: int)
    requires sp % 16 == 0 && off % 8 == 0
    ensures Wrap64(sp + off) % 8 == 0
    ensures off % 16 == 0 ==> Wrap64(sp + off) % 16 == 0
  {
    hide Wrap64;
    ModUnique(sp + off, 8, 2 * (sp / 16) + off / 8, 0);
    WrapKeepsMultiples(sp + off, 8);
    if off % 16 == 0 {
      ModUnique(sp + off, 16, sp / 16 + off / 16, 0);
      WrapKeepsMultiples(sp + off, 16);
    }
  }

  function StoredPair(pre: bool, rt: bv8, rt2: bv8, off: int, m: A64): A64 {
    var a := Wrap64(m.sp + off);
    m.(pc := m.pc + 1, mem := m.mem[a := X(m, rt)][Wrap64(a + 8) := X(m, rt2)], sp := if pre then a else m.sp)
  }

  lemma ExecuteStorePair(pre: bool, rt: bv8, rt2: bv8, imm7: bv32, off: int, m: A64)
    requires SignedField(imm7, 7) * 8 == off && m.sp % 16 == 0 && Wrap64(m.sp + off) % 8 == 0
    ensures Execute(m, StorePair(pre, rt, rt2, 31, imm7)) == Go(StoredPair(pre, rt, rt2, off, m))
  {
    hide SignedField, SetX, X, FromWord, DataResult, MsubResult, MoveWideResult, BitfieldResult, CompareFlags,
         ConditionHolds;
  }

  lemma StorePairStep(pre: bool, rt: bv8, rt2: bv8, off: i16, m: A64) returns (n: A64)
    requires rt < 31 && rt2 < 31 && off % 8 == 0 && -512 <= off < 512 && m.sp % 16 == 0
    ensures Straight([PairForm(if pre then 0xA9800000 else 0xA9000000, rt, rt2, 31, Imm7(off))], m, n)
    ensures n == StoredPair(pre, rt, rt2, off, m)
  {
    hide PairForm, Imm7, Decode, SignedField, Straight, X, Execute, Wrap64;
    var base: bv32 := if pre then 0xA9800000 else 0xA9000000;
    PairOffset(off);
    DecodeStorePair(pre, rt, rt2, Imm7(off));
    AlignedOffset(m.sp, off);
    ExecuteStorePair(pre, rt, rt2, Imm7(off), off, m);
    n := StoredPair(pre, rt, rt2, off, m);
    StraightOne(PairForm(base, rt, rt2, 31, Imm7(off)), m, n);
  }

  lemma DecodeStorePair(pre: bool, rt: bv8, rt2: bv8, imm7: bv32)
    requires rt < 31 && rt2 < 31 && imm7 < 0x80
    ensures Decode(PairForm(if pre then 0xA9800000 else 0xA9000000, rt, rt2, 31, imm7)) == StorePair(pre, rt,
            rt2, 31, imm7)
  {
    hide PairForm, Decode;
    DecodePair(if pre then 0xA9800000 else 0xA9000000, rt, rt2, 31, imm7);
  }

  lemma DecodeLoadPair(post: bool, rt: bv8, rt2: bv8, imm7: bv32)
    requires rt < 31 && rt2 < 31 && imm7 < 0x80
    ensures Decode(PairForm(if post then 0xA8C00000 else 0xA9400000, rt, rt2, 31, imm7)) == LoadPair(post, rt,
            rt2, 31, imm7)
  {
    hide PairForm, Decode;
    DecodePair(if post then 0xA8C00000 else 0xA9400000, rt, rt2, 31, imm7);
  }

  function LoadedPair(post: bool, rt: bv8, rt2: bv8, off: int, m: A64): A64 {
    var a := if post then m.sp else Wrap64(m.sp + off);
    SetX(SetX(m, rt, Cell(m, a)), rt2, Cell(m, Wrap64(a + 8))).(pc := m.pc + 1, sp := if post then
        Wrap64(m.sp + off) else m.sp)
  }

  lemma SetXKeeps(m: A64, a: bv8, v: u64, b: bv8, w: u64)
    ensures SetX(SetX(m, a, v), b, w).pc == m.pc && SetX(SetX(m, a, v), b, w).sp == m.sp
  {}

  lemma LoadPostState(rt: bv8, rt2: bv8, off: int, m: A64)
    requires m.sp % 16 == 0
    ensures ExecuteLoad(m, true, rt, rt2, 31, off) == Go(LoadedPair(true, rt, rt2, off, m))
  {
    SetXKeeps(m, rt, Cell(m, m.sp), rt2, Cell(m, Wrap64(m.sp + 8)));
    hide Cell, SetX, X, Wrap64;
    assert m.sp % 8 == 0;
  }

  lemma LoadOffsetState(rt: bv8, rt2: bv8, off: int, m: A64)
    requires m.sp % 16 == 0 && Wrap64(m.sp + off) % 8 == 0
    ensures ExecuteLoad(m, false, rt, rt2, 31, off) == Go(LoadedPair(false, rt, rt2, off, m))
  {
    var a: int := Wrap64(m.sp + off);
    SetXKeeps(m, rt, Cell(m, a), rt2, Cell(m, Wrap64(a + 8)));
    hide Cell, SetX, X, Wrap64;
  }

  lemma ExecuteLoadPair(post: bool, rt: bv8, rt2: bv8, imm7: bv32, off: int, m: A64)
    requires SignedField(imm7, 7) * 8 == off && m.sp % 16 == 0 && Wrap64(m.sp + off) % 8 == 0
    ensures Execute(m, LoadPair(post, rt, rt2, 31, imm7)) == Go(LoadedPair(post, rt, rt2, off, m))
  {
    if post {
      LoadPostState(rt, rt2, off, m);
    } else {
      LoadOffsetState(rt, rt2, off, m);
    }
    hide SignedField, ExecuteLoad, LoadedPair, DataResult, MsubResult, MoveWideResult, BitfieldResult, CompareFlags;
  }

  lemma LoadPairStep(post: bool, rt: bv8, rt2: bv8, off: i16, field: int, m: A64) returns (n: A64)
    requires rt < 31 && rt2 < 31 && m.sp % 16 == 0 && -64 <= field < 64
    requires Imm7(off) < 0x80 && SignedField(Imm7(off), 7) == field
    ensures Straight([PairForm(if post then 0xA8C00000 else 0xA9400000, rt, rt2, 31, Imm7(off))], m, n)
    ensures n == LoadedPair(post, rt, rt2, 8 * field, m)
  {
    hide PairForm, Imm7, Decode, SignedField, Straight, Cell, Execute, Wrap64, SetX;
    DecodeLoadPair(post, rt, rt2, Imm7(off));
    AlignedOffset(m.sp, 8 * field);
    ExecuteLoadPair(post, rt, rt2, Imm7(off), 8 * field, m);
    n := LoadedPair(post, rt, rt2, 8 * field, m);
    LoadedPc(post, rt, rt2, 8 * field, m);
    StraightOne(PairForm(if post then 0xA8C00000 else 0xA9400000, rt, rt2, 31, Imm7(off)), m, n);
  }

  lemma LoadedPc(post: bool, rt: bv8, rt2: bv8, off: int, m: A64)
    ensures LoadedPair(post, rt, rt2, off, m).pc == m.pc + 1
  {}

  lemma Store48Step(rt: bv8, m: A64) returns (n: A64)
    requires rt < 31 && m.sp % 16 == 0
    ensures Straight([StrX(rt, 31, 48)], m, n)
    ensures n == m.(pc := m.pc + 1, mem := m.mem[Wrap64(m.sp + 48) := X(m, rt)])
  {
    hide ScaledForm, Decode, Straight, X, AsU16, FromWord, Wrap64;
    StoreOffset48();
    DecodeStr(rt, 31, 6);
    AlignedOffset(m.sp, 48);
    n := m.(pc := m.pc + 1, mem := m.mem[Wrap64(m.sp + 48) := X(m, rt)]);
    StraightOne(StrX(rt, 31, 48), m, n);
  }

  lemma Load48Step(rt: bv8, m: A64) returns (n: A64)
    requires rt < 31 && m.sp % 16 == 0
    ensures Straight([LdrX(rt, 31, 48)], m, n)
    ensures n == SetX(m, rt, Cell(m, Wrap64(m.sp + 48))).(pc := m.pc + 1)
  {
    hide ScaledForm, Decode, Straight, Cell, AsU16, FromWord, Wrap64;
    StoreOffset48();
    DecodeLdr(rt, 31, 6);
    AlignedOffset(m.sp, 48);
    n := SetX(m, rt, Cell(m, Wrap64(m.sp + 48))).(pc := m.pc + 1);
    StraightOne(LdrX(rt, 31, 48), m, n);
  }

  // ---------- prologue ----------

  lemma SlotNext(sp: u64, i: nat)
    requires i < 8
    ensures Wrap64(Slot(sp, i) + 8) == Slot(sp, i + 1) && Slot(sp, 0) == sp
  {
    AddAfterMod(sp + 8 * i, 8, TWO_64);
    FirstSlot(sp);
    assert sp + 8 * i + 8 == sp + 8 * (i + 1);
  }

  lemma FirstSlot(sp: u64)
    ensures Slot(sp, 0) == sp
  {}

  /** Memory after the prologue's stores. */
  function SaveMem(mem: map<u64, u64>, sp: u64, m: A64): map<u64, u64> {
    mem[Slot(sp, 0) := X(m, 29)][Slot(sp, 1) := X(m, 30)][Slot(sp, 2) := X(m, 19)][Slot(sp, 3) := X(m, 20)]
       [Slot(sp, 4) := X(m, 21)][Slot(sp, 5) := X(m, 22)][Slot(sp, 6) := X(m, 25)]
  }

  lemma SaveMemSaves(mem: map<u64, u64>, sp: u64, m: A64)
    ensures Saved(SaveMem(mem, sp, m), sp, m)
  {
    forall i: nat, j: nat | i < 7 && j < 7 && i != j
      ensures Slot(sp, i) != Slot(sp, j)
    {
      SlotsDistinct(sp, i, j);
    }
    hide Slot, X;
    assert Slot(sp, 0) != Slot(sp, 1);
  }

  lemma SaveMemOutside(mem: map<u64, u64>, sp: u64, m: A64)
    ensures OutsideKept(mem, SaveMem(mem, sp, m), sp)
  {
    hide Slot, X;
    forall a: u64 | forall i :: 0 <= i < 7 ==> a != Slot(sp, i)
      ensures (a in SaveMem(mem, sp, m) <==> a in mem) && (a in mem ==> SaveMem(mem, sp, m)[a] == mem[a])
    {
      assert a != Slot(sp, 0) && a != Slot(sp, 1) && a != Slot(sp, 2) && a != Slot(sp, 3) && a != Slot(sp, 4) &&
             a != Slot(sp, 5) && a != Slot(sp, 6);
    }
  }

  predicate FrameBytes(frame: u16) { frame % 16 == 0 && 64 <= frame <= 512 }

  lemma NegatedFrame(frame: u16)
    requires FrameBytes(frame)
    ensures NegI16(frame) == 0 - frame && AsI16(frame) == frame && NegI16(frame) % 8 == 0 && -512 <= NegI16(frame) < 0
  {}

  /** Registers are as in m, but X29 is zero: `MOV X29, SP` is encoded as ORR X29, XZR, XZR. */
  ghost predicate FramePointerZero(m: A64, n: A64) {
    X(n, 29) == 0 && forall r: bv8 :: r != 29 ==> X(n, r) == X(m, r)
  }

  lemma ZeroStep(m: A64) returns (n: A64)
    ensures Straight([MovX(29, 31)], m, n)
    ensures FramePointerZero(m, n) && n.sp == m.sp && n.mem == m.mem && n.flags == m.flags
  {
    OrrZero(true, 0);
    hide RegReg, Straight, DataResult, Decode;
    n := DataStep(0xAA000000, OpOrr, 29, 31, 31, m);
  }

  ghost predicate Opened(m: A64, n: A64, frame: u16) {
    && n.sp == Wrap64(m.sp - frame) && n.sp % 16 == 0 && n.flags == m.flags && FramePointerZero(m, n)
    && Saved(n.mem, n.sp, m) && OutsideKept(m.mem, n.mem, n.sp)
  }

  /** State while the prologue runs, after its first two words. */
  ghost predicate Opening(m: A64, n: A64, sp: u64, mem: map<u64, u64>) {
    n.sp == sp && n.mem == mem && n.flags == m.flags && FramePointerZero(m, n)
  }

  function Mem1(mem: map<u64, u64>, sp: u64, m: A64): map<u64, u64> {
    mem[Slot(sp, 0) := X(m, 29)][Slot(sp, 1) := X(m, 30)]
  }

  function Mem2(mem: map<u64, u64>, sp: u64, m: A64): map<u64, u64> {
    mem[Slot(sp, 2) := X(m, 19)][Slot(sp, 3) := X(m, 20)]
  }

  function Mem3(mem: map<u64, u64>, sp: u64, m: A64): map<u64, u64> {
    mem[Slot(sp, 4) := X(m, 21)][Slot(sp, 5) := X(m, 22)]
  }

  function Mem4(mem: map<u64, u64>, sp: u64, m: A64): map<u64, u64> {
    mem[Slot(sp, 6) := X(m, 25)]
  }

  lemma OpenFirst(frame: u16, m: A64) returns (n: A64)
    requires FrameBytes(frame) && m.sp % 16 == 0
    ensures var sp := Wrap64(m.sp - frame);
            && sp % 16 == 0 && Straight([StpPre(29, 30, 31, NegI16(frame)), MovX(29, 31)], m, n)
            && Opening(m, n, sp, Mem1(m.mem, sp, m))
  {
    hide StpPre, MovX, Straight, FramePointerZero, X, NegI16, Wrap64, Slot;
    NegatedFrame(frame);
    var q := StoreFirst(frame, m);
    n := ZeroStep(q);
    StraightAppend([StpPre(29, 30, 31, NegI16(frame))], [MovX(29, 31)], m, q, n);
    assert [StpPre(29, 30, 31, NegI16(frame))] + [MovX(29, 31)] == [StpPre(29, 30, 31, NegI16(frame)), MovX(29, 31)];
    SameRegisters(m, q, n);
    AlignedOffset(m.sp, 0 - frame);
  }

  predicate FirstStored(m: A64, q: A64, sp: u64) {
    q.sp == sp && q.flags == m.flags && q.regs == m.regs && q.mem == Mem1(m.mem, sp, m)
  }

  lemma StoreFirst(frame: u16, m: A64) returns (q: A64)
    requires FrameBytes(frame) && m.sp % 16 == 0
    ensures Straight([StpPre(29, 30, 31, NegI16(frame))], m, q) && FirstStored(m, q, Wrap64(m.sp - frame))
  {
    hide PairForm, Imm7, Straight, X, NegI16, AsI16, StoredPair, FirstStored, Wrap64, FrameBytes;
    NegatedFrame(frame);
    PairStored(29, 30, m, 0 - frame);
    q := StorePairStep(true, 29, 30, NegI16(frame), m);
  }

  lemma PairStored(rt: bv8, rt2: bv8, m: A64, off: int)
    requires rt == 29 && rt2 == 30
    ensures FirstStored(m, StoredPair(true, rt, rt2, off, m), Wrap64(m.sp + off))
  {
    hide X;
    SlotNext(Wrap64(m.sp + off), 0);
  }

  lemma SameRegisters(m: A64, q: A64, n: A64)
    requires q.regs == m.regs && FramePointerZero(q, n)
    ensures FramePointerZero(m, n)
  {}

  lemma OpenPair(k: nat, rt: bv8, rt2: bv8, m: A64, q: A64, sp: u64, mem: map<u64, u64>) returns (n: A64)
    requires k == 2 || k == 4
    requires rt < 29 && rt2 < 29 && sp % 16 == 0 && Opening(m, q, sp, mem)
    ensures Straight([StpOffset(rt, rt2, 31, 8 * k)], q, n)
    ensures Opening(m, n, sp, mem[Slot(sp, k) := X(m, rt)][Slot(sp, k + 1) := X(m, rt2)])
  {
    assert q.sp == sp;
    PairOpens(k, rt, rt2, m, q, sp, mem);
    hide PairForm, Imm7, Straight, Opening, StoredPair;
    n := StorePairStep(false, rt, rt2, 8 * k, q);
  }

  lemma PairOpens(k: nat, rt: bv8, rt2: bv8, m: A64, q: A64, sp: u64, mem: map<u64, u64>)
    requires k < 7 && rt < 29 && rt2 < 29 && Opening(m, q, sp, mem)
    ensures Opening(m, StoredPair(false, rt, rt2, 8 * k, q), sp,
            mem[Slot(sp, k) := X(m, rt)][Slot(sp, k + 1) := X(m, rt2)])
  {
    SlotNext(sp, k);
    assert Slot(sp, k) == Wrap64(sp + 8 * k);
    hide Slot, Wrap64;
  }

  lemma OpenLast(m: A64, q: A64, sp: u64, mem: map<u64, u64>) returns (n: A64)
    requires sp % 16 == 0 && Opening(m, q, sp, mem)
    ensures Straight([StrX(25, 31, 48)], q, n) && Opening(m, n, sp, Mem4(mem, sp, m))
  {
    hide StrX, Straight;
    n := Store48Step(25, q);
  }

  /** The prologue moves the stack pointer down and saves X29, X30, X19 to X22 and X25. */
  lemma PrologueNode(frame: u16, m: A64) returns (n: A64)
    requires FrameBytes(frame) && m.sp % 16 == 0
    ensures Straight(PrologueWords(frame), m, n) && Opened(m, n, frame)
  {
    var sp := Wrap64(m.sp - frame);
    hide StpPre, MovX, StpOffset, StrX, Straight, Opening, Mem1, Opened, X, NegI16;
    var q1 := OpenFirst(frame, m);
    var q2 := OpenPair(2, 19, 20, m, q1, sp, Mem1(m.mem, sp, m));
    var q3 := OpenPair(4, 21, 22, m, q2, sp, Mem2(Mem1(m.mem, sp, m), sp, m));
    n := OpenLast(m, q3, sp, Mem3(Mem2(Mem1(m.mem, sp, m), sp, m), sp, m));
    var first := [StpPre(29, 30, 31, NegI16(frame)), MovX(29, 31)];
    StraightAppend(first, [StpOffset(19, 20, 31, 16)], m, q1, q2);
    StraightAppend(first + [StpOffset(19, 20, 31, 16)], [StpOffset(21, 22, 31, 32)], m, q2, q3);
    StraightAppend(first + [StpOffset(19, 20, 31, 16)] + [StpOffset(21, 22, 31, 32)], [StrX(25, 31, 48)], m, q3, n);
    assert first + [StpOffset(19, 20, 31, 16)] + [StpOffset(21, 22, 31, 32)] + [StrX(25, 31, 48)]
         == PrologueWords(frame);
    OpenedAtEnd(frame, m, n, sp);
  }

  lemma OpenedAtEnd(frame: u16, m: A64, n: A64, sp: u64)
    requires sp == Wrap64(m.sp - frame) && sp % 16 == 0
    requires Opening(m, n, sp, Mem4(Mem3(Mem2(Mem1(m.mem, sp, m), sp, m), sp, m), sp, m))
    ensures Opened(m, n, frame)
  {
    hide FramePointerZero, X, Slot, Saved, OutsideKept;
    assert Mem4(Mem3(Mem2(Mem1(m.mem, sp, m), sp, m), sp, m), sp, m) == SaveMem(m.mem, sp, m);
    SaveMemSaves(m.mem, sp, m);
    SaveMemOutside(m.mem, sp, m);
  }

  // ---------- epilogue ----------

  /** Which registers the first k words of the epilogue have reloaded. */
  predicate Reloaded(k: nat, r: bv8) {
    || (k >= 1 && (r == 19 || r == 20)) || (k >= 2 && (r == 21 || r == 22)) || (k >= 3 && r == 25)
    || (k >= 4 && (r == 29 || r == 30))
  }

  /** Registers of b, but those reloaded are those of m. */
  ghost predicate RegsReloaded(b: A64, n: A64, m: A64, k: nat) {
    forall r: bv8 :: X(n, r) == if Reloaded(k, r) then X(m, r) else X(b, r)
  }

  ghost predicate Closing(b: A64, n: A64, m: A64, k: nat) {
    n.sp == b.sp && n.mem == b.mem && n.flags == b.flags && RegsReloaded(b, n, m, k)
  }

  lemma SavedCell(m: A64, q: A64, sp: u64, i: nat)
    requires Saved(q.mem, sp, m) && i < 7
    ensures Cell(q, Slot(sp, i)) == X(m, SlotReg(i))
  {}

  lemma TwoLoaded(q: A64, rt: bv8, rt2: bv8, v: u64, w: u64, r: bv8)
    requires rt < 31 && rt2 < 31 && rt != rt2
    ensures X(SetX(SetX(q, rt, v), rt2, w), r) == if r == rt2 then w else if r == rt then v else X(q, r)
  {
    XOfSetX(q, rt, v, r);
    XOfSetX(SetX(q, rt, v), rt2, w, r);
  }

  /** The pair that word k + 1 of the epilogue reloads. */
  predicate PairOf(k: nat, rt: bv8, rt2: bv8) {
    (k == 0 && rt == 19 && rt2 == 20) || (k == 1 && rt == 21 && rt2 == 22) || (k == 3 && rt == 29 && rt2 == 30)
  }

  lemma NextReloaded(k: nat, rt: bv8, rt2: bv8, r: bv8)
    requires PairOf(k, rt, rt2)
    ensures Reloaded(k + 1, r) <==> Reloaded(k, r) || r == rt || r == rt2
  {
    if k == 0 {
      assert Reloaded(1, r) <==> r == 19 || r == 20;
    } else if k == 1 {
      assert Reloaded(2, r) <==> r == 19 || r == 20 || r == 21 || r == 22;
    } else {
      assert Reloaded(4, r) <==> Reloaded(3, r) || r == 29 || r == 30;
    }
  }

  lemma PairRegs(b: A64, q: A64, m: A64, k: nat, rt: bv8, rt2: bv8, n: A64)
    requires RegsReloaded(b, q, m, k) && rt < 31 && rt2 < 31 && rt != rt2
    requires n.regs == SetX(SetX(q, rt, X(m, rt)), rt2, X(m, rt2)).regs
    requires PairOf(k, rt, rt2)
    ensures RegsReloaded(b, n, m, k + 1)
  {
    forall r: bv8
      ensures X(n, r) == if Reloaded(k + 1, r) then X(m, r) else X(b, r)
    {
      TwoLoaded(q, rt, rt2, X(m, rt), X(m, rt2), r);
      NextReloaded(k, rt, rt2, r);
    }
  }

  lemma SlotIs(sp: u64, post: bool, off: int, i: nat)
    requires i < 6 && if post then i == 0 else off == 8 * i
    ensures Slot(sp, i) == if post then sp else Wrap64(sp + off)
  {}

  lemma PairState(q: A64, rt: bv8, rt2: bv8, v: u64, w: u64, pc: int, sp: u64)
    ensures var n := SetX(SetX(q, rt, v), rt2, w).(pc := pc, sp := sp);
            n.regs == SetX(SetX(q, rt, v), rt2, w).regs && n.mem == q.mem && n.flags == q.flags && n.sp == sp
  {}

  lemma LoadedState(post: bool, rt: bv8, rt2: bv8, off: int, q: A64, m: A64, i: nat)
    requires i < 6 && Saved(q.mem, q.sp, m) && SlotReg(i) == rt && SlotReg(i + 1) == rt2
    requires if post then i == 0 else off == 8 * i
    ensures var n := LoadedPair(post, rt, rt2, off, q);
            && n.regs == SetX(SetX(q, rt, X(m, rt)), rt2, X(m, rt2)).regs && n.mem == q.mem && n.flags == q.flags
            && n.sp == if post then Wrap64(q.sp + off) else q.sp
  {
    hide Saved, Slot, X, Wrap64, Cell, SlotReg, SetX;
    SlotIs(q.sp, post, off, i);
    SavedCell(m, q, q.sp, i);
    SavedCell(m, q, q.sp, i + 1);
    SlotNext(q.sp, i);
    PairState(q, rt, rt2, X(m, rt), X(m, rt2), q.pc + 1, if post then Wrap64(q.sp + off) else q.sp);
  }

  lemma ClosingNext(b: A64, q: A64, m: A64, k: nat, rt: bv8, rt2: bv8, n: A64)
    requires Closing(b, q, m, k) && PairOf(k, rt, rt2) && rt < 31 && rt2 < 31 && rt != rt2
    requires n.regs == SetX(SetX(q, rt, X(m, rt)), rt2, X(m, rt2)).regs
    requires n.mem == q.mem && n.flags == q.flags && n.sp == q.sp
    ensures Closing(b, n, m, k + 1)
  {
    hide SetX, X, RegsReloaded, PairOf;
    PairRegs(b, q, m, k, rt, rt2, n);
  }

  lemma PairSlots(k: nat, rt: bv8, rt2: bv8)
    requires k < 2 && PairOf(k, rt, rt2)
    ensures SlotReg(2 * k + 2) == rt && SlotReg(2 * k + 3) == rt2 && rt < 31 && rt2 < 31 && rt != rt2
  {}

  lemma ClosePair(b: A64, q: A64, m: A64, k: nat, rt: bv8, rt2: bv8) returns (n: A64)
    requires k < 2 && PairOf(k, rt, rt2)
    requires b.sp % 16 == 0 && Saved(b.mem, b.sp, m) && Closing(b, q, m, k)
    ensures Straight([LdpOffset(rt, rt2, 31, 16 * k + 16)], q, n) && Closing(b, n, m, k + 1)
  {
    hide PairForm, Imm7, Straight, RegsReloaded, LoadedPair, SignedField, Saved, SetX, X, SlotReg, PairOf, Wrap64;
    PairOffset(16 * k + 16);
    PairSlots(k, rt, rt2);
    n := LoadPairStep(false, rt, rt2, 16 * k + 16, 2 * k + 2, q);
    LoadedState(false, rt, rt2, 16 * k + 16, q, m, 2 * k + 2);
    ClosingNext(b, q, m, k, rt, rt2, n);
  }

  lemma Close25(b: A64, q: A64, m: A64) returns (n: A64)
    requires b.sp % 16 == 0 && Saved(b.mem, b.sp, m) && Closing(b, q, m, 2)
    ensures Straight([LdrX(25, 31, 48)], q, n) && Closing(b, n, m, 3)
  {
    hide LdrX, Straight, RegsReloaded, Saved, SetX, Wrap64;
    n := Load48Step(25, q);
    SavedCell(m, q, q.sp, 6);
    assert Slot(q.sp, 6) == Wrap64(q.sp + 48);
    LoadedOne(q, X(m, 25), n);
    OneReg(b, q, m, n);
  }

  lemma LoadedOne(q: A64, v: u64, n: A64)
    requires n == SetX(q, 25, v).(pc := q.pc + 1)
    ensures n.sp == q.sp && n.mem == q.mem && n.flags == q.flags && n.regs == SetX(q, 25, v).regs
  {}

  lemma OneReg(b: A64, q: A64, m: A64, n: A64)
    requires RegsReloaded(b, q, m, 2) && n.regs == SetX(q, 25, X(m, 25)).regs
    ensures RegsReloaded(b, n, m, 3)
  {
    forall r: bv8
      ensures X(n, r) == if Reloaded(3, r) then X(m, r) else X(b, r)
    {
      XOfSetX(q, 25, X(m, 25), r);
    }
  }

  /** How far the final load moves the stack pointer. */
  function Release(frame: u16): int { if frame == 512 then -512 else frame }

  /** The frame was closed: registers reloaded, stack pointer moved, nothing else. */
  ghost predicate Closed(b: A64, n: A64, m: A64, frame: u16) {
    n.sp == Wrap64(b.sp + Release(frame)) && n.mem == b.mem && n.flags == b.flags && RegsReloaded(b, n, m, 4)
  }

  lemma FrameField(frame: u16)
    requires FrameBytes(frame)
    ensures var imm7 := Imm7(AsI16(frame));
            imm7 < 0x80 && SignedField(imm7, 7) * 8 == Release(frame) && -64 <= SignedField(imm7, 7) < 64
  {
    NegatedFrame(frame);
    if frame == 512 {
      PairOffset512();
    } else {
      PairOffset(frame);
    }
    hide Imm7, SignedField, AsI16;
  }

  lemma CloseLast(frame: u16, b: A64, q: A64, m: A64) returns (n: A64)
    requires FrameBytes(frame) && b.sp % 16 == 0 && Saved(b.mem, b.sp, m) && Closing(b, q, m, 3)
    ensures Straight([LdpPost(29, 30, 31, AsI16(frame))], q, n) && Closed(b, n, m, frame)
  {
    hide PairForm, Imm7, Straight, RegsReloaded, LoadedPair, SignedField, Saved, SetX, AsI16, Wrap64, Release;
    FrameField(frame);
    n := LoadPairStep(true, 29, 30, AsI16(frame), SignedField(Imm7(AsI16(frame)), 7), q);
    LoadedState(true, 29, 30, Release(frame), q, m, 0);
    PairRegs(b, q, m, 3, 29, 30, n);
  }

  /** The epilogue reloads what the save area holds and moves the stack pointer up by the frame —
      or, at 512 bytes, further down. */
  lemma EpilogueNode(frame: u16, b: A64, m: A64) returns (n: A64)
    requires FrameBytes(frame) && b.sp % 16 == 0 && Saved(b.mem, b.sp, m)
    ensures Straight(EpilogueWords(frame), b, n) && Closed(b, n, m, frame)
  {
    hide LdpOffset, LdrX, LdpPost, Straight, Closed, RegsReloaded, Saved, AsI16;
    NothingReloaded(b, m);
    var q1 := ClosePair(b, b, m, 0, 19, 20);
    var q2 := ClosePair(b, q1, m, 1, 21, 22);
    var q3 := Close25(b, q2, m);
    n := CloseLast(frame, b, q3, m);
    StraightAppend([LdpOffset(19, 20, 31, 16)], [LdpOffset(21, 22, 31, 32)], b, q1, q2);
    StraightAppend([LdpOffset(19, 20, 31, 16)] + [LdpOffset(21, 22, 31, 32)], [LdrX(25, 31, 48)], b, q2, q3);
    StraightAppend([LdpOffset(19, 20, 31, 16)] + [LdpOffset(21, 22, 31, 32)] + [LdrX(25, 31, 48)],
        [LdpPost(29, 30, 31, AsI16(frame))], b, q3, n);
    assert [LdpOffset(19, 20, 31, 16)] + [LdpOffset(21, 22, 31, 32)] + [LdrX(25, 31, 48)] +
           [LdpPost(29, 30, 31, AsI16(frame))] == EpilogueWords(frame);
  }

  lemma NothingReloaded(b: A64, m: A64)
    ensures RegsReloaded(b, b, m, 0)
  {}

  // ---------- round trip ----------

  /** The registers that a callee must preserve and that the code uses. */
  predicate Preserved(r: bv8) { r == 19 || r == 20 || r == 21 || r == 22 || r == 25 || r == 29 || r == 30 }

  lemma StackPointerBack(sp: u64, frame: u16)
    requires FrameBytes(frame)
    ensures Wrap64(Wrap64(sp - frame) + Release(frame)) == sp <==> frame != 512
  {
    AddAfterMod(sp - frame, Release(frame), TWO_64);
    if frame == 512 {
      assert Wrap64(sp - 1024) != sp;
    } else {
      assert sp % TWO_64 == sp;
    }
  }

  /** Prologue, any body that keeps the stack pointer and the save area, epilogue: the callee-saved
      registers are back, and the stack pointer is back exactly if the frame is not 512 bytes. */
  lemma FrameRoundTrip(frame: u16, m: A64, p: A64, b: A64) returns (n: A64)
    requires FrameBytes(frame) && m.sp % 16 == 0 && Opened(m, p, frame)
    requires b.sp == p.sp && forall i :: 0 <= i < 7 ==>
             Slot(p.sp, i) in b.mem && b.mem[Slot(p.sp, i)] == p.mem[Slot(p.sp, i)]
    ensures Straight(EpilogueWords(frame), b, n)
    ensures forall r: bv8 :: X(n, r) == if Preserved(r) then X(m, r) else X(b, r)
    ensures n.sp == m.sp <==> frame != 512
    ensures n.mem == b.mem
  {
    hide Straight, Wrap64, EpilogueWords, X, OutsideKept, FramePointerZero, Release;
    assert Saved(b.mem, b.sp, m);
    n := EpilogueNode(frame, b, m);
    StackPointerBack(m.sp, frame);
    assert forall r: bv8 :: Reloaded(4, r) == Preserved(r);
  }
}
