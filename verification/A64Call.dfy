/** Helper calls on AArch64: the call overwrites the link register, and the frame brings the return
    address back. */
module A64Call {
  import opened Isa
  import opened Interpreter
  import opened Ir
  import opened A64Encode
  import opened A64Machine
  import opened A64Decode
  import opened A64Words
  import opened A64Alu
  import opened A64Frame

  // ---------- BLR, after section C6.2 of the Arm Architecture Reference Manual ----------

  /** The register that a BLR takes its target from. */
  function DecodeCall(w: bv32): Option<bv8> {
    if w & 0xFFFFFC1F == 0xD63F0000 then Some(FieldN(w)) else None
  }

  /** Control goes to `target`; X30 has the address of the next word, where the code starts at `start`. */
  datatype Called = Called(target: u64, m: A64)

  function ExecuteCall(start: u64, m: A64, rn: bv8): Called {
    Called(X(m, rn), m.(regs := m.regs[PhysReg(30) := Wrap64(start + 4 * (m.pc + 1))]))
  }

  lemma BlrFields(rn: bv8)
    requires IsReg(rn)
    ensures Blr(rn) & 0xFFFFFC1F == 0xD63F0000 && FieldN(Blr(rn)) == rn
  {}

  lemma NoOtherInstruction(w: bv32)
    requires w & 0xFFFFFC1F == 0xD63F0000
    ensures Decode(w) == Undefined
  {}

  /** A call node is one word, a BLR to X9. */
  lemma CallDecodes(funcId: u32)
    ensures A64NodeWords(IrCall(funcId)) == [Blr(9)]
    ensures Decode(Blr(9)) == Undefined && DecodeCall(Blr(9)) == Some(9)
  {
    hide Blr, Decode;
    BlrFields(9);
    NoOtherInstruction(Blr(9));
  }

  // ---------- what a call does ----------

  /** The stack pointer and the save area of the frame below it are as they were. */
  ghost predicate FrameKept(a: A64, b: A64) {
    b.sp == a.sp && forall i :: 0 <= i < 7 ==> Slot(a.sp, i) in b.mem && b.mem[Slot(a.sp, i)] == Stored(a, i)
  }

  /** What cell i of the save area holds. */
  function Stored(a: A64, i: nat): u64 { Cell(a, Slot(a.sp, i)) }

  /** The return address is lost: after a call X30 has the address behind it, whatever it was. Nothing
      else changes before the helper runs. */
  lemma CallSetsLink(start: u64, m: A64)
    ensures var c := ExecuteCall(start, m, 9);
            && c.target == X(m, 9) && X(c.m, 30) == Wrap64(start + 4 * (m.pc + 1))
            && c.m.sp == m.sp && c.m.mem == m.mem && forall r: bv8 :: r != 30 ==> X(c.m, r) == X(m, r)
  {
    forall r: bv8
      ensures X(ExecuteCall(start, m, 9).m, r) == if r == 30 then Wrap64(start + 4 * (m.pc + 1)) else X(m, r)
    {
      GetUpdate(m.regs, PhysReg(30), Wrap64(start + 4 * (m.pc + 1)), PhysReg(r));
    }
  }

  /** With a frame it comes back: m enters, p is behind the prologue, c makes a call, the helper returns
      b, and the epilogue starts at e. If the code and the helper leave stack pointer and save area
      alone, X30 and all other saved registers are behind the epilogue what they were on entry, so the
      return goes to the caller. */
  lemma CallThenReturn(start: u64, frame: u16, m: A64, p: A64, c: A64, b: A64, e: A64) returns (n: A64)
    requires FrameBytes(frame) && m.sp % 16 == 0 && Opened(m, p, frame)
    requires FrameKept(p, c) && FrameKept(ExecuteCall(start, c, 9).m, b) && FrameKept(b, e)
    ensures Straight(EpilogueWords(frame), e, n) && X(n, 30) == X(m, 30)
    ensures forall r: bv8 :: Preserved(r) ==> X(n, r) == X(m, r)
  {
    CallSetsLink(start, c);
    hide X, Straight, EpilogueWords, Saved, OutsideKept, FramePointerZero, ExecuteCall, Slot, Wrap64;
    var d := ExecuteCall(start, c, 9).m;
    FrameKeptTwice(p, c, d);
    FrameKeptTwice(p, d, b);
    FrameKeptTwice(p, b, e);
    SavedCells(m, p);
    n := FrameRoundTrip(frame, m, p, e);
    assert Preserved(30);
  }

  lemma SavedCells(m: A64, p: A64)
    requires Saved(p.mem, p.sp, m)
    ensures forall i :: 0 <= i < 7 ==> Slot(p.sp, i) in p.mem && Stored(p, i) == p.mem[Slot(p.sp, i)]
  {
    hide X, Slot;
  }

  lemma FrameKeptTwice(a: A64, b: A64, c: A64)
    requires b.sp == a.sp && (FrameKept(a, b) || b.mem == a.mem)
    requires FrameKept(b, c) || (FrameKept(a, b) && c.sp == b.sp && c.mem == b.mem)
    ensures FrameKept(a, c)
  {
    hide Slot;
  }
}
