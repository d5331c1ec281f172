/** Helper calls on RISC-V: the call overwrites the return address, and the frame brings it back. */
module RvCall {
  import opened Isa
  import opened Bits
  import opened Casts
  import opened Interpreter
  import opened Ir
  import opened RvEncode
  import opened RvWords
  import opened RvMachine
  import opened RvDecode
  import opened RvFrame

  /** A call node is one word, a JALR through s7 that links in ra. */
  lemma CallDecodes(funcId: u32)
    ensures RvNodeWords(IrCall(funcId)) == [Jalr(1, 23, 0)]
    ensures Decode(Jalr(1, 23, 0)) == JumpReg(1, 23, 0)
  {
    hide Jalr, Decode;
    JalrDecodes(1, 23);
  }

  /** A return node is one word, a JALR through ra that links nowhere. */
  lemma ReturnDecodes()
    ensures RvNodeWords(IrRet) == [Jalr(0, 1, 0)] && Decode(Jalr(0, 1, 0)) == JumpReg(0, 1, 0)
  {
    hide Jalr, Decode;
    JalrDecodes(0, 1);
  }

  lemma JalrDecodes(rd: bv8, rs1: bv8)
    requires IsReg(rd) && IsReg(rs1)
    ensures Decode(Jalr(rd, rs1, 0)) == JumpReg(rd, rs1, 0)
  {
    ZeroWord();
    hide IForm, AsU32;
    IFormFields(0, rs1, 0, rd, 0x67);
  }

  lemma ZeroWord()
    ensures AsU32(0) == 0
  {}

  /** The state in which a helper starts. */
  function Called(m: Rv): Rv { Execute(m, JumpReg(1, 23, 0)).m }

  /** The return address is lost: after a call ra has the address behind it, whatever it was. Nothing
      else changes before the helper runs. */
  lemma CallSetsLink(m: Rv)
    ensures Execute(m, JumpReg(1, 23, 0)).Go?
    ensures var c := Called(m);
            && c.pc == R(m, 23) / 2 * 2 && R(c, 1) == Wrap64(m.pc + 4)
            && c.mem == m.mem && forall r: bv8 :: r != 1 ==> R(c, r) == R(m, r)
  {
    ZeroOffset();
    hide Imm12, Wrap64;
    NoOffset(R(m, 23));
    forall r: bv8
      ensures R(Called(m), r) == if r == 1 then Wrap64(m.pc + 4) else R(m, r)
    {
      GetUpdate(m.regs, PhysReg(1), Wrap64(m.pc + 4), PhysReg(r));
    }
  }

  lemma ZeroOffset()
    ensures Imm12(0) == 0
  {
    Imm12Value(0);
    ZeroWord();
    hide Imm12, AsU32;
  }

  lemma NoOffset(a: u64)
    ensures Wrap64(a + 0) == a
  {
    ModUnique(a, TWO_64, 0, a);
  }

  ghost predicate FrameKept(frame: u16, a: Rv, b: Rv) {
    && R(b, 2) == R(a, 2)
    && forall i :: 0 <= i < 7 ==>
         Slot(R(a, 2), frame, i) in b.mem && b.mem[Slot(R(a, 2), frame, i)] == Cell(a, Slot(R(a, 2), frame, i))
  }

  /** With a frame it comes back: m enters, p is behind the prologue, c makes a call, the helper returns
      b, and the epilogue starts at e. If the code and the helper leave sp and save area alone, ra and
      all other saved registers are behind the epilogue what they were on entry, so the return goes to
      the caller. */
  lemma CallThenReturn(frame: u16, m: Rv, p: Rv, c: Rv, b: Rv, e: Rv) returns (n: Rv)
    requires FrameBytes(frame) && R(m, 2) % 16 == 0 && Opened(m, p, frame)
    requires FrameKept(frame, p, c) && FrameKept(frame, Called(c), b) && FrameKept(frame, b, e)
    ensures Straight(RvEpilogue(frame), e, n) && R(n, 1) == R(m, 1) && R(n, 2) == R(m, 2)
    ensures forall r: bv8 :: r != 2 && InArea(r) ==> R(n, r) == R(m, r)
  {
    CallSetsLink(c);
    hide R, Straight, RvEpilogue, Saved, OutsideKept, Called, Slot, Wrap64;
    var d := Called(c);
    FrameKeptTwice(frame, p, c, d);
    FrameKeptTwice(frame, p, d, b);
    FrameKeptTwice(frame, p, b, e);
    SavedCells(frame, m, p);
    n := FrameRoundTrip(frame, m, p, e);
    assert InArea(1);
  }

  lemma SavedCells(frame: u16, m: Rv, p: Rv)
    requires Saved(p.mem, R(p, 2), frame, m)
    ensures forall i :: 0 <= i < 7 ==>
              var at := Slot(R(p, 2), frame, i); at in p.mem && Cell(p, at) == p.mem[at]
  {
    hide R, Slot;
  }

  lemma FrameKeptTwice(frame: u16, a: Rv, b: Rv, c: Rv)
    requires R(b, 2) == R(a, 2) && (FrameKept(frame, a, b) || b.mem == a.mem)
    requires FrameKept(frame, b, c) || (FrameKept(frame, a, b) && R(c, 2) == R(b, 2) && c.mem == b.mem)
    ensures FrameKept(frame, a, c)
  {
    hide Slot, R;
  }
}
