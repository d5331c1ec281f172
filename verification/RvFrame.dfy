/** RISC-V frames: prologue, any body that keeps the stack pointer and the save area, epilogue —
    and everything the caller needs is back, for every frame size lowering produces. */
module RvFrame {
  import opened Isa
  import opened Bits
  import opened Casts
  import opened Interpreter
  import opened RvEncode
  import opened RvWords
  import opened RvMachine
  import opened RvDecode
  import opened RvNodes
  import opened Frames

  predicate FrameBytes(frame: u16) { frame % 16 == 0 && 64 <= frame <= 512 }

  /** Cell i of the save area, counted down from the old stack pointer. */
  function Slot(sp: u64, frame: u16, i: nat): u64 { Wrap64(sp + frame - 8 * (i + 1)) }

  /** ra, s0 and s2 to s6. */
  function SlotReg(i: nat): bv8
    requires i < 7
  {
    if i == 0 then 1 else if i == 1 then 8 else if i == 2 then 18 else if i == 3 then 19
    else if i == 4 then 20 else if i == 5 then 21 else 22
  }

  /** The first k cells hold registers of m. */
  ghost predicate SavedTo(mem: map<u64, u64>, sp: u64, frame: u16, m: Rv, k: nat)
    requires k <= 7
  {
    forall i :: 0 <= i < k ==> Slot(sp, frame, i) in mem && mem[Slot(sp, frame, i)] == R(m, SlotReg(i))
  }

  ghost predicate Saved(mem: map<u64, u64>, sp: u64, frame: u16, m: Rv) { SavedTo(mem, sp, frame, m, 7) }

  ghost predicate OutsideKept(before: map<u64, u64>, after: map<u64, u64>, sp: u64, frame: u16) {
    forall a: u64 :: (forall i :: 0 <= i < 7 ==> a != Slot(sp, frame, i)) ==>
           (a in after <==> a in before) && (a in before ==> after[a] == before[a])
  }

  predicate InSaveArea(a: u64, sp: u64, frame: u16) { exists i :: 0 <= i < 7 && a == Slot(sp, frame, i) }

  /** Address a lies in the save area of one of the first k frames below sp. */
  predicate InAreas(a: u64, sp: u64, frame: u16, k: nat) {
    exists j :: 1 <= j <= k && InSaveArea(a, Down(sp, frame, j), frame)
  }

  /** Nothing outside the save areas of the first k frames below sp was written. */
  ghost predicate OutsideAll(before: map<u64, u64>, after: map<u64, u64>, sp: u64, frame: u16, k: nat) {
    forall a: u64 :: !InAreas(a, sp, frame, k) ==>
           (a in after <==> a in before) && (a in before ==> after[a] == before[a])
  }

  lemma OutsideNext(x: map<u64, u64>, y: map<u64, u64>, z: map<u64, u64>, sp: u64, frame: u16, k: nat)
    requires OutsideAll(x, y, sp, frame, k) && OutsideKept(y, z, Down(sp, frame, k + 1), frame)
    ensures OutsideAll(x, z, sp, frame, k + 1)
  {
    hide Slot, Down;
    forall a: u64 | !InAreas(a, sp, frame, k + 1)
      ensures (a in z <==> a in x) && (a in x ==> z[a] == x[a])
    {
      assert !InSaveArea(a, Down(sp, frame, k + 1), frame) && !InAreas(a, sp, frame, k);
    }
  }

  lemma SlotsDistinct(sp: u64, frame: u16, i: nat, j: nat)
    requires i < 7 && j < 7 && i != j && frame <= 512
    ensures Slot(sp, frame, i) != Slot(sp, frame, j)
  {
    var x, y := sp + frame - 8 * (i + 1), sp + frame - 8 * (j + 1);
    ModSmall(x);
    ModSmall(y);
  }

  /** Wrapping a value that is off by at most one turn. */
  lemma ModSmall(x: int)
    requires -TWO_64 <= x < 2 * TWO_64
    ensures Wrap64(x) == if x < 0 then x + TWO_64 else if x < TWO_64 then x else x - TWO_64
  {
    if x < 0 {
      ModUnique(x, TWO_64, -1, x + TWO_64);
    } else if x < TWO_64 {
      ModUnique(x, TWO_64, 0, x);
    } else {
      ModUnique(x, TWO_64, 1, x - TWO_64);
    }
  }

  /** All cells are aligned. */
  lemma SlotAligned(sp: u64, frame: u16, i: nat)
    requires i < 7 && sp % 16 == 0 && FrameBytes(frame)
    ensures Slot(sp, frame, i) % 8 == 0
  {
    hide Wrap64;
    var x := sp + frame - 8 * (i + 1);
    ModUnique(x, 8, 2 * (sp / 16) + 2 * (frame / 16) - (i + 1), 0);
    WrapKeepsMultiples(x, 8);
  }

  // ---------- single accesses ----------

  lemma SlotOffset(frame: u16, i: nat)
    requires i < 7 && FrameBytes(frame)
    ensures Fits12(frame - 8 * (i + 1)) && Imm12(AsU32(frame - 8 * (i + 1)) & 0xFFF) == frame - 8 * (i + 1)
  {
    hide AsU32, Imm12;
    Imm12Value(frame - 8 * (i + 1));
  }

  function Stored(m: Rv, frame: u16, i: nat): Rv
    requires i < 7
  {
    m.(pc := m.pc + 4, mem := m.mem[Slot(R(m, 2), frame, i) := R(m, SlotReg(i))])
  }

  lemma StoreExecutes(m: Rv, rs2: bv8, field: bv32, address: u64)
    requires Wrap64(R(m, 2) + Imm12(field)) == address && address % 8 == 0
    ensures Execute(m, StoreDouble(rs2, 2, field)) == Go(m.(pc := m.pc + 4, mem := m.mem[address := R(m, rs2)]))
  {
    hide Imm12, R, Wrap64;
  }

  lemma LoadExecutes(m: Rv, rd: bv8, field: bv32, address: u64)
    requires Wrap64(R(m, 2) + Imm12(field)) == address && address % 8 == 0
    ensures Execute(m, LoadDouble(rd, 2, field)) == Advance(SetR(m, rd, Cell(m, address)))
  {
    hide Imm12, R, Wrap64, SetR, Cell;
  }

  lemma SlotRegIsReg(i: nat)
    requires i < 7
    ensures 0 < SlotReg(i) < 32 && SlotReg(i) != 2 && SlotReg(i) != S7
  {}

  lemma StoreStep(i: nat, frame: u16, m: Rv) returns (n: Rv)
    requires i < 7 && FrameBytes(frame) && R(m, 2) % 16 == 0
    ensures Straight([Sd(SlotReg(i), 2, frame - 8 * (i + 1))], m, n) && n == Stored(m, frame, i)
  {
    hide Sd, Decode, Execute, Straight, R, AsU32, Imm12, SlotReg;
    var off := frame - 8 * (i + 1);
    SlotRegIsReg(i);
    SlotOffset(frame, i);
    SlotAligned(R(m, 2), frame, i);
    DecodeStore(off, 2, SlotReg(i));
    StoreExecutes(m, SlotReg(i), AsU32(off) & 0xFFF, Slot(R(m, 2), frame, i));
    n := Stored(m, frame, i);
    StraightOne(Sd(SlotReg(i), 2, off), m, n);
  }

  lemma LoadStep(i: nat, frame: u16, m: Rv) returns (n: Rv)
    requires i < 7 && FrameBytes(frame) && R(m, 2) % 16 == 0
    ensures Straight([Ld(SlotReg(i), 2, frame - 8 * (i + 1))], m, n)
    ensures SetsReg(m, n, SlotReg(i), Cell(m, Slot(R(m, 2), frame, i)))
  {
    hide Ld, Decode, Execute, Straight, R, AsU32, Imm12, SlotReg, SetsReg, SetR;
    var off := frame - 8 * (i + 1);
    SlotRegIsReg(i);
    SlotOffset(frame, i);
    SlotAligned(R(m, 2), frame, i);
    DecodeLoad(off, 2, SlotReg(i));
    LoadExecutes(m, SlotReg(i), AsU32(off) & 0xFFF, Slot(R(m, 2), frame, i));
    n := WordStep(Ld(SlotReg(i), 2, off), m, SlotReg(i), Cell(m, Slot(R(m, 2), frame, i)));
  }

  // ---------- prologue ----------

  /** State while the prologue saves: k cells written, registers but sp as in m. */
  ghost predicate Saving(m: Rv, n: Rv, frame: u16, k: nat)
    requires k <= 7
  {
    && R(n, 2) == Wrap64(R(m, 2) - frame) && R(n, 2) % 16 == 0 && (forall r: bv8 :: r != 2 ==> R(n, r) == R(m, r))
    && SavedTo(n.mem, R(n, 2), frame, m, k) && OutsideKept(m.mem, n.mem, R(n, 2), frame)
  }

  lemma StoredSaves(m: Rv, q: Rv, frame: u16, k: nat)
    requires k < 7 && FrameBytes(frame) && Saving(m, q, frame, k)
    ensures Saving(m, Stored(q, frame, k), frame, k + 1)
  {
    var n, sp := Stored(q, frame, k), R(q, 2);
    SlotRegIsReg(k);
    StoredRegs(q, frame, k);
    forall i | 0 <= i < k + 1
      ensures Slot(sp, frame, i) in n.mem && n.mem[Slot(sp, frame, i)] == R(m, SlotReg(i))
    {
      if i < k {
        SlotsDistinct(sp, frame, i, k);
      }
    }
    hide Slot, R, SlotReg;
  }

  lemma StoredRegs(q: Rv, frame: u16, k: nat)
    requires k < 7
    ensures forall r: bv8 :: R(Stored(q, frame, k), r) == R(q, r)
  {}

  lemma SaveNext(m: Rv, q: Rv, frame: u16, k: nat) returns (n: Rv)
    requires k < 7 && FrameBytes(frame) && Saving(m, q, frame, k)
    ensures Straight([Sd(SlotReg(k), 2, frame - 8 * (k + 1))], q, n) && Saving(m, n, frame, k + 1)
  {
    hide Sd, Straight, SlotReg, Stored;
    StoredSaves(m, q, frame, k);
    assert R(q, 2) % 16 == 0;
    n := StoreStep(k, frame, q);
  }

  /** The stores of cells 0 to k - 1. */
  function SaveWords(frame: u16, k: nat): seq<bv32>
    requires k <= 7
  {
    if k == 0 then [] else SaveWords(frame, k - 1) + [Sd(SlotReg(k - 1), 2, frame - 8 * k)]
  }

  lemma {:induction false} SaveAll(m: Rv, q: Rv, frame: u16, k: nat) returns (n: Rv)
    requires k <= 7 && FrameBytes(frame) && Saving(m, q, frame, 0)
    ensures Straight(SaveWords(frame, k), q, n) && Saving(m, n, frame, k)
    decreases k
  {
    hide Sd, Straight, Saving, SlotReg;
    if k == 0 {
      n := q;
      StraightNothing(q);
    } else {
      var p := SaveAll(m, q, frame, k - 1);
      n := SaveNext(m, p, frame, k - 1);
      StraightAppend(SaveWords(frame, k - 1), [Sd(SlotReg(k - 1), 2, frame - 8 * k)], q, p, n);
    }
  }

  lemma StraightNothing(m: Rv)
    ensures Straight([], m, m)
  {}

  /** After the prologue: sp moved down, s0 at the old sp, ra, s0 and s2 to s6 saved. */
  ghost predicate Opened(m: Rv, n: Rv, frame: u16) {
    && R(n, 2) == Wrap64(R(m, 2) - frame) && R(n, 2) % 16 == 0 && R(n, 8) == R(m, 2)
    && (forall r: bv8 :: r != 2 && r != 8 ==> R(n, r) == R(m, r))
    && Saved(n.mem, R(n, 2), frame, m) && OutsideKept(m.mem, n.mem, R(n, 2), frame)
  }

  lemma AddSp(sp: u64, off: int)
    ensures Result64(OpAdd, sp, Wrap64(off)) == Wrap64(sp + off)
  {
    WrapSum(sp, off);
    ModUnique(sp, TWO_64, 0, sp);
  }

  lemma DownAndUp(sp: u64, frame: u16)
    requires FrameBytes(frame)
    ensures Wrap64(Wrap64(sp - frame) + frame) == sp
    ensures sp % 16 == 0 ==> Wrap64(sp - frame) % 16 == 0
  {
    ModSmall(sp - frame);
    ModSmall(Wrap64(sp - frame) + frame);
  }

  lemma SpDown(frame: u16, m: Rv) returns (n: Rv)
    requires FrameBytes(frame) && R(m, 2) % 16 == 0
    ensures Straight([Addi(2, 2, 0 - frame)], m, n) && Saving(m, n, frame, 0)
  {
    hide Addi, Straight, SetsReg, Result64, R, Slot, Wrap64;
    AddSp(R(m, 2), 0 - frame);
    DownAndUp(R(m, 2), frame);
    n := AddiStep(2, 2, 0 - frame, m);
    SetsMem(m, n, 2, Wrap64(R(m, 2) - frame));
  }

  lemma AddiStep(rd: bv8, rs1: bv8, imm: int, m: Rv) returns (n: Rv)
    requires 0 < rd < 32 && IsReg(rs1) && Fits12(imm)
    ensures Straight([Addi(rd, rs1, imm)], m, n) && SetsReg(m, n, rd, Result64(OpAdd, R(m, rs1), Wrap64(imm)))
  {
    hide IType, Straight, SetsReg, Result64, R;
    n := ImmStep(imm, rs1, 0, rd, OpAdd, m);
  }

  lemma SetFp(frame: u16, m: Rv, q: Rv) returns (n: Rv)
    requires FrameBytes(frame) && Saving(m, q, frame, 7)
    ensures Straight([Addi(8, 2, frame)], q, n) && Opened(m, n, frame)
  {
    hide Addi, Straight, Result64, R, SavedTo, OutsideKept, Wrap64, SetsReg;
    AddSp(R(q, 2), frame);
    DownAndUp(R(m, 2), frame);
    n := AddiStep(8, 2, frame, q);
    SetsMem(q, n, 8, R(m, 2));
  }

  lemma SaveUnfold(frame: u16, k: nat, r: bv8)
    requires 0 < k <= 7 && r == SlotReg(k - 1)
    ensures SaveWords(frame, k) == SaveWords(frame, k - 1) + [Sd(r, 2, frame - 8 * k)]
  {
    hide Sd;
  }

  lemma PrologueIs(frame: u16)
    ensures RvPrologue(frame) == [Addi(2, 2, 0 - frame)] + SaveWords(frame, 7) + [Addi(8, 2, frame)]
  {
    assert SaveWords(frame, 0) == [];
    hide Addi, Sd, SaveWords;
    SaveUnfold(frame, 1, 1);
    SaveUnfold(frame, 2, 8);
    SaveUnfold(frame, 3, 18);
    SaveUnfold(frame, 4, 19);
    assert SaveWords(frame, 4)
         == [Sd(1, 2, frame - 8), Sd(8, 2, frame - 16), Sd(18, 2, frame - 24), Sd(19, 2, frame - 32)];
    SaveUnfold(frame, 5, 20);
    SaveUnfold(frame, 6, 21);
    SaveUnfold(frame, 7, 22);
  }

  lemma PrologueNode(frame: u16, m: Rv) returns (n: Rv)
    requires FrameBytes(frame) && R(m, 2) % 16 == 0
    ensures Straight(RvPrologue(frame), m, n) && Opened(m, n, frame)
  {
    hide *;
    PrologueIs(frame);
    var q := SpDown(frame, m);
    var p := SaveAll(m, q, frame, 7);
    n := SetFp(frame, m, p);
    StraightAppend([Addi(2, 2, 0 - frame)], SaveWords(frame, 7), m, q, p);
    StraightAppend([Addi(2, 2, 0 - frame)] + SaveWords(frame, 7), [Addi(8, 2, frame)], m, p, n);
  }

  // ---------- epilogue ----------

  /** The registers in the save area. */
  predicate InArea(r: bv8) { r == 1 || r == 8 || (18 <= r && r <= 22) }

  /** Reloading runs from cell 6 down to cell k. */
  predicate Reloaded(k: nat, r: bv8) {
    || (k <= 6 && r == 22) || (k <= 5 && r == 21) || (k <= 4 && r == 20) || (k <= 3 && r == 19) || (k <= 2 && r == 18)
    || (k <= 1 && r == 8) || (k == 0 && r == 1)
  }

  ghost predicate Reloading(b: Rv, n: Rv, m: Rv, k: nat) {
    n.mem == b.mem && forall r: bv8 :: R(n, r) == if Reloaded(k, r) then R(m, r) else R(b, r)
  }

  lemma ReloadedStep(k: nat, r: bv8)
    requires k < 7
    ensures Reloaded(k, r) <==> Reloaded(k + 1, r) || r == SlotReg(k)
  {
    if k == 0 {
    } else if k == 1 {
    } else if k == 2 {
    } else if k == 3 {
    } else if k == 4 {
    } else if k == 5 {
    } else {
      assert k == 6;
    }
  }

  lemma ReloadState(b: Rv, q: Rv, n: Rv, m: Rv, k: nat)
    requires k < 7 && Reloading(b, q, m, k + 1) && SetsReg(q, n, SlotReg(k), R(m, SlotReg(k)))
    ensures Reloading(b, n, m, k)
  {
    forall r: bv8
      ensures R(n, r) == if Reloaded(k, r) then R(m, r) else R(b, r)
    {
      ReloadedStep(k, r);
    }
  }

  lemma ReloadNext(b: Rv, q: Rv, m: Rv, frame: u16, k: nat) returns (n: Rv)
    requires k < 7 && FrameBytes(frame) && R(b, 2) % 16 == 0 && Saved(b.mem, R(b, 2), frame, m)
    requires Reloading(b, q, m, k + 1)
    ensures Straight([Ld(SlotReg(k), 2, frame - 8 * (k + 1))], q, n) && Reloading(b, n, m, k)
  {
    SpNotReloaded(b, q, m, k + 1);
    CellHolds(b, q, m, frame, k);
    hide Ld, Straight, SlotReg, SetsReg, Reloading, Saved, R, Slot, Cell;
    n := LoadStep(k, frame, q);
    ReloadState(b, q, n, m, k);
  }

  lemma SpNotReloaded(b: Rv, q: Rv, m: Rv, k: nat)
    requires Reloading(b, q, m, k)
    ensures R(q, 2) == R(b, 2)
  {
    assert !Reloaded(k, 2);
  }

  lemma CellHolds(b: Rv, q: Rv, m: Rv, frame: u16, k: nat)
    requires k < 7 && Saved(b.mem, R(b, 2), frame, m) && q.mem == b.mem
    ensures Cell(q, Slot(R(b, 2), frame, k)) == R(m, SlotReg(k))
  {
    hide R, Slot, SlotReg;
  }

  /** The loads of cells 6 down to k. */
  function LoadWords(frame: u16, k: nat): seq<bv32>
    requires k <= 7
    decreases 7 - k
  {
    if k == 7 then [] else LoadWords(frame, k + 1) + [Ld(SlotReg(k), 2, frame - 8 * (k + 1))]
  }

  lemma {:induction false} ReloadAll(b: Rv, m: Rv, frame: u16, k: nat) returns (n: Rv)
    requires k <= 7 && FrameBytes(frame) && R(b, 2) % 16 == 0 && Saved(b.mem, R(b, 2), frame, m)
    ensures Straight(LoadWords(frame, k), b, n) && Reloading(b, n, m, k)
    decreases 7 - k
  {
    hide Ld, Straight, SlotReg, Saved, R;
    if k == 7 {
      n := b;
      StraightNothing(b);
    } else {
      hide Reloading;
      var p := ReloadAll(b, m, frame, k + 1);
      n := ReloadNext(b, p, m, frame, k);
      StraightAppend(LoadWords(frame, k + 1), [Ld(SlotReg(k), 2, frame - 8 * (k + 1))], b, p, n);
    }
  }

  /** The frame was closed: registers of the save area reloaded, sp moved up, nothing else. */
  ghost predicate Closed(b: Rv, n: Rv, m: Rv, frame: u16) {
    && n.mem == b.mem && R(n, 2) == Wrap64(R(b, 2) + frame)
    && forall r: bv8 :: r != 2 ==> R(n, r) == if InArea(r) then R(m, r) else R(b, r)
  }

  lemma AllReloaded(r: bv8)
    ensures Reloaded(0, r) <==> InArea(r)
  {}

  lemma ClosedState(frame: u16, b: Rv, q: Rv, n: Rv, m: Rv)
    requires Reloading(b, q, m, 0) && SetsReg(q, n, 2, Wrap64(R(b, 2) + frame))
    ensures Closed(b, n, m, frame)
  {
    hide R, Reloaded, InArea, Wrap64;
    forall r: bv8 | r != 2
      ensures R(n, r) == if InArea(r) then R(m, r) else R(b, r)
    {
      AllReloaded(r);
    }
  }

  lemma SpUp(frame: u16, b: Rv, q: Rv, m: Rv) returns (n: Rv)
    requires FrameBytes(frame) && Reloading(b, q, m, 0)
    ensures Straight([Addi(2, 2, frame)], q, n) && Closed(b, n, m, frame)
  {
    hide Addi, Straight, Result64, R, SetsReg, Reloading, Closed, Wrap64;
    SpNotReloaded(b, q, m, 0);
    AddSp(R(q, 2), frame);
    n := AddiStep(2, 2, frame, q);
    ClosedState(frame, b, q, n, m);
  }

  lemma LoadUnfold(frame: u16, k: nat, r: bv8)
    requires k < 7 && r == SlotReg(k)
    ensures LoadWords(frame, k) == LoadWords(frame, k + 1) + [Ld(r, 2, frame - 8 * (k + 1))]
  {
    hide Ld;
  }

  lemma EpilogueIs(frame: u16)
    ensures RvEpilogue(frame) == LoadWords(frame, 0) + [Addi(2, 2, frame)]
  {
    assert LoadWords(frame, 7) == [];
    hide Addi, Ld, LoadWords;
    LoadUnfold(frame, 6, 22);
    LoadUnfold(frame, 5, 21);
    LoadUnfold(frame, 4, 20);
    LoadUnfold(frame, 3, 19);
    assert LoadWords(frame, 3)
         == [Ld(22, 2, frame - 56), Ld(21, 2, frame - 48), Ld(20, 2, frame - 40), Ld(19, 2, frame - 32)];
    LoadUnfold(frame, 2, 18);
    LoadUnfold(frame, 1, 8);
    LoadUnfold(frame, 0, 1);
  }

  lemma EpilogueNode(frame: u16, b: Rv, m: Rv) returns (n: Rv)
    requires FrameBytes(frame) && R(b, 2) % 16 == 0 && Saved(b.mem, R(b, 2), frame, m)
    ensures Straight(RvEpilogue(frame), b, n) && Closed(b, n, m, frame)
  {
    hide *;
    EpilogueIs(frame);
    var q := ReloadAll(b, m, frame, 0);
    n := SpUp(frame, b, q, m);
    StraightAppend(LoadWords(frame, 0), [Addi(2, 2, frame)], b, q, n);
  }

  /** Prologue, any body that keeps sp and the save area, epilogue: sp, ra, s0 and s2 to s6 are back,
      for every frame from 64 to 512 bytes. */
  lemma FrameRoundTrip(frame: u16, m: Rv, p: Rv, b: Rv) returns (n: Rv)
    requires FrameBytes(frame) && R(m, 2) % 16 == 0 && Opened(m, p, frame)
    requires R(b, 2) == R(p, 2)
    requires forall i :: 0 <= i < 7 ==>
             Slot(R(p, 2), frame, i) in b.mem && b.mem[Slot(R(p, 2), frame, i)] == p.mem[Slot(R(p, 2), frame, i)]
    ensures Straight(RvEpilogue(frame), b, n) && n.mem == b.mem && R(n, 2) == R(m, 2)
    ensures forall r: bv8 :: r != 2 ==> R(n, r) == if InArea(r) then R(m, r) else R(b, r)
  {
    hide Straight, RvEpilogue, R, OutsideKept, InArea, Wrap64, Slot, SlotReg;
    DownAndUp(R(m, 2), frame);
    assert Saved(b.mem, R(b, 2), frame, m);
    n := EpilogueNode(frame, b, m);
  }
}
