/** Atomic operations on RISC-V: what the emitted words do to memory, and exactly when that is the
    operation of section 5.3 of RFC 9669. */
module RvAtomic {
  import opened Isa
  import opened Bits
  import opened Casts
  import opened Interpreter
  import opened AluLaws
  import opened Ir
  import opened RvEncode
  import opened RvWords
  import opened RvMachine
  import opened RvDecode
  import opened RvAccess
  import opened RvNodes

  // ---------- the instructions, after chapter 8 of the Unprivileged ISA ----------

  datatype AmoOp = AmoAdd | AmoSwap | AmoXor | AmoOr | AmoAnd

  /** Doubleword operations with acquire and release semantics, and the fence of reads and writes. */
  datatype AmoInstr =
    | Amo(op: AmoOp, rd: bv8, rs2: bv8, rs1: bv8)
    | LoadReserved(rd: bv8, rs1: bv8)
    | StoreConditional(rd: bv8, rs2: bv8, rs1: bv8)
    | Fence
    | NotAmo

  function AmoOpOf(funct5: bv32): Option<AmoOp> {
    if funct5 == 0 then Some(AmoAdd)
    else if funct5 == 1 then Some(AmoSwap)
    else if funct5 == 4 then Some(AmoXor)
    else if funct5 == 8 then Some(AmoOr)
    else if funct5 == 12 then Some(AmoAnd)
    else None
  }

  function DecodeAmo(w: bv32): AmoInstr {
    if Opcode(w) == 0x2F && Funct3(w) == 3 && (w >> 25) & 3 == 3 then
      if AmoOpOf(w >> 27).Some? then Amo(AmoOpOf(w >> 27).value, Rd(w), Rs2(w), Rs1(w))
      else if w >> 27 == 2 && Rs2(w) == 0 then LoadReserved(Rd(w), Rs1(w))
      else if w >> 27 == 3 then StoreConditional(Rd(w), Rs2(w), Rs1(w))
      else NotAmo
    else if Opcode(w) == 0x0F && Funct3(w) == 0 && w >> 20 == 0x33 then Fence
    else NotAmo
  }

  /** A hart: the machine, and the address it holds a reservation for. */
  datatype Hart = Hart(m: Rv, reserved: Option<u64>)

  datatype HartOutcome = Moved(h: Hart) | Trap

  function AmoResult(op: AmoOp, cell: u64, v: u64): u64 {
    match op
    case AmoAdd => (cell + v) % TWO_64
    case AmoSwap => v
    case AmoXor => Bitwise64(LXor, cell, v)
    case AmoOr => Bitwise64(LOr, cell, v)
    case AmoAnd => Bitwise64(LAnd, cell, v)
  }

  function Onward(m: Rv): Rv { m.(pc := m.pc + 4) }

  /** Addresses must be aligned. A conditional store succeeds, and leaves 0, exactly at the reserved
      address; either way the reservation is gone. */
  function ExecuteAmo(h: Hart, i: AmoInstr): HartOutcome {
    var m := h.m;
    match i
    case Amo(op, rd, rs2, rs1) =>
      var at := R(m, rs1);
      if at % 8 != 0 then Trap
      else
        var stored := m.(mem := m.mem[at := AmoResult(op, Cell(m, at), R(m, rs2))]);
        Moved(h.(m := Onward(SetR(stored, rd, Cell(m, at)))))
    case LoadReserved(rd, rs1) =>
      var at := R(m, rs1);
      if at % 8 != 0 then Trap else Moved(Hart(Onward(SetR(m, rd, Cell(m, at))), Some(at)))
    case StoreConditional(rd, rs2, rs1) =>
      var at := R(m, rs1);
      if at % 8 != 0 then Trap
      else if h.reserved == Some(at) then Moved(Hart(Onward(SetR(m.(mem := m.mem[at := R(m, rs2)]), rd, 0)), None))
      else Moved(Hart(Onward(SetR(m, rd, 1)), None))
    case Fence => Moved(h.(m := Onward(m)))
    case NotAmo => Trap
  }

  /** Any word, atomic or not. */
  function ExecuteAny(h: Hart, w: bv32): HartOutcome {
    if Decode(w) != Illegal then
      match Execute(h.m, Decode(w))
      case Go(n) => Moved(h.(m := n))
      case Fault => Trap
    else ExecuteAmo(h, DecodeAmo(w))
  }

  function HartStep(code: seq<bv32>, h: Hart): HartOutcome {
    if h.m.pc % 4 == 0 && 0 <= h.m.pc / 4 < |code| then ExecuteAny(h, code[h.m.pc / 4]) else Trap
  }

  function HartSteps(code: seq<bv32>, h: Hart, k: nat): Option<Hart>
    decreases k
  {
    if k == 0 then Some(h)
    else
      match HartStep(code, h)
      case Moved(g) => HartSteps(code, g, k - 1)
      case Trap => None
  }

  predicate HartRuns(code: seq<bv32>, a: Hart, k: nat, b: Hart) { HartSteps(code, a, k) == Some(b) }

  lemma Stays(code: seq<bv32>, a: Hart)
    ensures HartRuns(code, a, 0, a)
  {}

  lemma StepThen(code: seq<bv32>, a: Hart, b: Hart, k: nat, c: Hart)
    requires HartStep(code, a) == Moved(b) && HartRuns(code, b, k, c)
    ensures HartRuns(code, a, k + 1, c)
  {
    hide HartStep;
  }

  // ---------- decoding ----------

  lemma AmoFields(funct5: bv32, rs2: bv8, rs1: bv8, rd: bv8)
    requires IsReg(rs2) && IsReg(rs1) && IsReg(rd) && funct5 < 32
    ensures var w := RvEncode.Amo(funct5, rs2, rs1, rd);
            && Opcode(w) == 0x2F && Funct3(w) == 3 && Rd(w) == rd && Rs1(w) == rs1 && Rs2(w) == rs2
            && w >> 27 == funct5 && (w >> 25) & 3 == 3
  {}

  lemma AmoIllegal(w: bv32)
    requires Opcode(w) == 0x2F || Opcode(w) == 0x0F
    ensures Decode(w) == Illegal
  {
    hide DecodeRegister, DecodeImmediate, DecodeBranch, JOffset, SOffset, Rd, Rs1, Rs2;
  }

  lemma AmoDecodes(funct5: bv32, rs2: bv8, rs1: bv8, rd: bv8)
    requires IsReg(rs2) && IsReg(rs1) && IsReg(rd) && funct5 < 32
    ensures var w := RvEncode.Amo(funct5, rs2, rs1, rd);
            && Decode(w) == Illegal
            && (AmoOpOf(funct5).Some? ==> DecodeAmo(w) == Amo(AmoOpOf(funct5).value, rd, rs2, rs1))
            && (funct5 == 2 && rs2 == 0 ==> DecodeAmo(w) == LoadReserved(rd, rs1))
            && (funct5 == 3 ==> DecodeAmo(w) == StoreConditional(rd, rs2, rs1))
  {
    AmoFields(funct5, rs2, rs1, rd);
    hide RvEncode.Amo, Decode, Opcode, Funct3, Rd, Rs1, Rs2;
    AmoIllegal(RvEncode.Amo(funct5, rs2, rs1, rd));
  }

  lemma FenceDecodes()
    ensures Decode(FenceRwRw()) == Illegal && DecodeAmo(FenceRwRw()) == Fence
  {
    AmoIllegal(FenceRwRw());
    hide Decode;
  }

  /** The operation that the word of an eBPF atomic carries out. */
  function WordOp(op: AtomicOp): AmoOp
    requires op != CmpXchg
  {
    match op
    case AtomicAdd => AmoAdd
    case FetchAdd => AmoAdd
    case AtomicOr => AmoOr
    case FetchOr => AmoOr
    case AtomicAnd => AmoAnd
    case FetchAnd => AmoAnd
    case AtomicXor => AmoXor
    case FetchXor => AmoXor
    case Xchg => AmoSwap
  }

  /** Every atomic word but those of a compare-and-exchange has the value register as operand, addresses
      s7 and drops the old value. */
  lemma AtomicDecodes(op: AtomicOp, value: PhysReg)
    requires IsReg(value.n) && op != CmpXchg
    ensures |RvAtomicWords(op, value)| == 1
    ensures var w := RvAtomicWords(op, value)[0];
            Decode(w) == Illegal && DecodeAmo(w) == Amo(WordOp(op), 0, value.n, 23)
  {
    hide Decode, DecodeAmo, RvEncode.Amo;
    AmoDecodes(0, value.n, 23, 0);
    AmoDecodes(1, value.n, 23, 0);
    AmoDecodes(4, value.n, 23, 0);
    AmoDecodes(8, value.n, 23, 0);
    AmoDecodes(12, value.n, 23, 0);
  }

  /** A compare-and-exchange loads with a reservation into s7, its own address register, leaves if that
      is not a0, stores conditionally at the address now in s7, and starts over if that failed. */
  lemma ExchangeDecodes(value: PhysReg)
    requires IsReg(value.n)
    ensures |RvAtomicWords(CmpXchg, value)| == 4
    ensures var ws := RvAtomicWords(CmpXchg, value);
            && Decode(ws[0]) == Illegal && DecodeAmo(ws[0]) == LoadReserved(23, 23)
            && BranchesOn(ws[1], 23, 10, 12)
            && Decode(ws[2]) == Illegal && DecodeAmo(ws[2]) == StoreConditional(23, value.n, 23)
            && BranchesOn(ws[3], 23, 0, -12)
  {
    hide Decode, DecodeAmo, RvEncode.Amo, Btype, BranchesOn;
    AmoDecodes(2, 0, 23, 23);
    AmoDecodes(3, value.n, 23, 23);
    UnequalDecodes(23, 10, 12);
    UnequalDecodes(23, 0, -12);
  }

  /** The word branches by d bytes if the registers differ. */
  predicate BranchesOn(w: bv32, rs1: bv8, rs2: bv8, d: int) {
    Decode(w) == BranchIf(Ne, rs1, rs2, BOffset(w)) && SignedField(BOffset(w), 13) == d
  }

  /** The word of a branch if unequal with offset bits imm. */
  function Unequal(imm: bv32, rs1: bv8, rs2: bv8): bv32 {
    BImmBits(imm) | ((rs2 as bv32) << 20) | ((rs1 as bv32) << 15) | (1 << 12) | 0x63
  }

  lemma BneIs(rs1: bv8, rs2: bv8, d: int)
    ensures Bne(rs1, rs2, d) == Unequal(AsU32(d) & 0x1FFE, rs1, rs2)
    ensures EncodeBTypeImm(d) == BImmBits(AsU32(d) & 0x1FFE)
  {
    hide AsU32, BImmBits;
  }

  lemma UnequalFields(imm: bv32, rs1: bv8, rs2: bv8)
    requires IsReg(rs1) && IsReg(rs2)
    ensures var w := Unequal(imm, rs1, rs2);
            Opcode(w) == 0x63 && Funct3(w) == 1 && Rs1(w) == rs1 && Rs2(w) == rs2
  {
    BTypeFields(imm, rs1, rs2, 1);
    hide BImmBits, Opcode, Funct3, Rs1, Rs2;
  }

  lemma UnequalOffset(imm: bv32, rs1: bv8, rs2: bv8)
    requires IsReg(rs1) && IsReg(rs2)
    ensures BOffset(Unequal(imm, rs1, rs2)) == BOffset(BImmBits(imm))
  {}

  lemma UnequalBranch(w: bv32)
    requires Opcode(w) == 0x63 && Funct3(w) == 1
    ensures Decode(w) == BranchIf(Ne, Rs1(w), Rs2(w), BOffset(w))
  {
    BranchGroup(w);
    hide Decode, Opcode, Rs1, Rs2, BOffset;
  }

  lemma UnequalDecodes(rs1: bv8, rs2: bv8, d: int)
    requires IsReg(rs1) && IsReg(rs2) && d % 2 == 0 && -0x1000 <= d < 0x1000
    ensures BranchesOn(Bne(rs1, rs2, d), rs1, rs2, d)
  {
    BRoundTrip(d);
    BneIs(rs1, rs2, d);
    hide Decode, SignedField, BImmBits, BOffset, Opcode, Funct3, Rs1, Rs2, AsU32, Unequal, Bne, EncodeBTypeImm;
    var imm := AsU32(d) & 0x1FFE;
    UnequalFields(imm, rs1, rs2);
    UnequalOffset(imm, rs1, rs2);
    UnequalBranch(Unequal(imm, rs1, rs2));
  }

  // ---------- the words before the operation ----------

  /** What 12 bits say of an offset. */
  function Seen12(off: i16): int { Imm12(AsU32(off) & 0xFFF) }

  function Address(base: u64, off: i16): u64 { Wrap64(base + Seen12(off)) }

  lemma SeenRange(off: i16)
    ensures Fits12(Seen12(off)) && (Seen12(off) == off <==> Fits12(off))
  {
    TwelveBits(AsU32(off) & 0xFFF);
    hide Imm12, AsU32;
    if Fits12(off) {
      Imm12Value(off);
    }
  }

  lemma WrapsApart(a: int, b: int)
    requires -TWO_16 < a - b < TWO_16 && Wrap64(a) == Wrap64(b)
    ensures a == b
  {
    assert a == a / TWO_64 * TWO_64 + Wrap64(a) && b == b / TWO_64 * TWO_64 + Wrap64(b);
    var turns := a / TWO_64 - b / TWO_64;
    assert a - b == turns * TWO_64;
  }

  /** The operation addresses base plus offset exactly if the offset fits 12 signed bits. */
  lemma AddressExact(base: u64, off: i16)
    ensures Address(base, off) == Wrap64(base + off) <==> Fits12(off)
  {
    SeenRange(off);
    hide Seen12, Wrap64;
    if Address(base, off) == Wrap64(base + off) {
      WrapsApart(base + Seen12(off), base + off);
    }
  }

  lemma AddressStep(base: bv8, off: i16, m: Rv)
    requires IsReg(base)
    ensures Execute(m, Decode(Addi(23, base, off))) == Go(Onward(SetR(m, 23, Address(R(m, base), off))))
  {
    hide *;
    AddiDecodes(base, off);
    AddExecutes(base, off, m);
  }

  lemma AddExecutes(base: bv8, off: i16, m: Rv)
    ensures Execute(m, Immediate(OpAdd, 23, base, AsU32(off) & 0xFFF))
         == Go(Onward(SetR(m, 23, Address(R(m, base), off))))
  {
    WrapAfterWrap(R(m, base), Seen12(off));
    hide Imm12, AsU32, SetR, R, Wrap64;
  }

  lemma AddiDecodes(base: bv8, off: i16)
    requires IsReg(base)
    ensures Decode(Addi(23, base, off)) == Immediate(OpAdd, 23, base, AsU32(off) & 0xFFF)
  {
    IFormFields(AsU32(off), base, 0, 23, 0x13);
    hide IForm, Rd, Rs1, AsU32;
  }

  lemma WrapAfterWrap(a: u64, b: int)
    ensures Wrap64(a + Wrap64(b)) == Wrap64(a + b)
  {
    AddAfterMod(b, a, TWO_64);
  }

  // ---------- one word in place ----------

  lemma InPlace(code: seq<bv32>, at: nat, ws: seq<bv32>, i: nat, h: Hart)
    requires Placed(code, at, ws) && i < |ws| && h.m.pc == 4 * (at + i)
    ensures HartStep(code, h) == ExecuteAny(h, ws[i])
  {
    hide ExecuteAny;
    assert code[at + i] == ws[i];
  }

  lemma PlainWord(code: seq<bv32>, at: nat, ws: seq<bv32>, i: nat, h: Hart, n: Rv)
    requires Placed(code, at, ws) && i < |ws| && h.m.pc == 4 * (at + i)
    requires Execute(h.m, Decode(ws[i])) == Go(n)
    ensures HartStep(code, h) == Moved(h.(m := n))
  {
    InPlace(code, at, ws, i, h);
    hide Decode, HartStep, ExecuteAmo;
    assert Decode(ws[i]) != Illegal;
  }

  lemma AmoWord(code: seq<bv32>, at: nat, ws: seq<bv32>, i: nat, h: Hart)
    requires Placed(code, at, ws) && i < |ws| && h.m.pc == 4 * (at + i) && Decode(ws[i]) == Illegal
    ensures HartStep(code, h) == ExecuteAmo(h, DecodeAmo(ws[i]))
  {
    InPlace(code, at, ws, i, h);
    hide Decode, HartStep, ExecuteAmo, Execute, DecodeAmo;
  }

  /** Behind the first two words of an atomic node. */
  function Addressed(m: Rv, base: bv8, off: i16): Rv { Onward(Onward(SetR(m, 23, Address(R(m, base), off)))) }

  lemma Prepared(code: seq<bv32>, at: nat, ws: seq<bv32>, base: bv8, off: i16, h: Hart, k: nat, g: Hart)
    requires Placed(code, at, ws) && |ws| >= 2 && ws[0] == Addi(23, base, off) && ws[1] == FenceRwRw()
    requires IsReg(base) && h.m.pc == 4 * at && HartRuns(code, h.(m := Addressed(h.m, base, off)), k, g)
    ensures HartRuns(code, h, k + 2, g)
  {
    hide Addi, FenceRwRw, HartRuns, Address, SetR, Execute, Decode, DecodeAmo, HartStep;
    var n := Onward(SetR(h.m, 23, Address(R(h.m, base), off)));
    AddressStep(base, off, h.m);
    PcKept(h.m, 23, Address(R(h.m, base), off));
    PlainWord(code, at, ws, 0, h, n);
    FenceDecodes();
    AmoWord(code, at, ws, 1, h.(m := n));
    StepThen(code, h.(m := n), h.(m := Onward(n)), k, g);
    StepThen(code, h, h.(m := n), k + 1, g);
  }

  lemma PcKept(m: Rv, d: bv8, v: u64)
    ensures SetR(m, d, v).pc == m.pc && SetR(m, d, v).mem == m.mem
  {}

  /** Where the operation stands, s7 has the address and all else is as it was. */
  lemma AddressedIs(m: Rv, base: bv8, off: i16)
    ensures var n := Addressed(m, base, off);
            && n.pc == m.pc + 8 && n.mem == m.mem && R(n, 23) == Address(R(m, base), off)
            && forall r: bv8 :: r != 23 ==> R(n, r) == R(m, r)
  {
    var v := Address(R(m, base), off);
    hide Address;
    forall r: bv8
      ensures R(SetR(m, 23, v), r) == if r == 23 then v else R(m, r)
    {
      ROfSetR(m, 23, v, r);
    }
  }

  // ---------- the nodes ----------

  lemma AmoNodeWords(width: MemWidth, op: AtomicOp, base: PhysReg, value: PhysReg, off: i16)
    ensures RvNodeWords(IrAtomic(width, op, base, value, off))
         == [Addi(23, base.n, off), FenceRwRw()] + RvAtomicWords(op, value) + [FenceRwRw()]
  {
    hide Addi, FenceRwRw, RvAtomicWords;
  }

  /** Only the cell at `address` has changed, and of the registers only s7. */
  ghost predicate AtomicDone(m: Rv, n: Rv, address: u64, result: u64) {
    n.mem == m.mem[address := result] && forall r: bv8 :: r != 23 ==> R(n, r) == R(m, r)
  }

  lemma AmoStep(op: AmoOp, value: bv8, m: Rv, q: Rv, r: Option<u64>, address: u64)
    requires value != 23 && q.mem == m.mem && R(q, 23) == address && address % 8 == 0
    requires forall i: bv8 :: i != 23 ==> R(q, i) == R(m, i)
    ensures var n := Onward(q.(mem := q.mem[address := AmoResult(op, Cell(m, address), R(m, value))]));
            && ExecuteAmo(Hart(q, r), Amo(op, 0, value, 23)) == Moved(Hart(n, r))
            && AtomicDone(m, n, address, AmoResult(op, Cell(m, address), R(m, value)))
  {
    hide AmoResult;
  }

  /** An atomic node other than a compare-and-exchange does its operation on the cell at the address, and
      nothing else; s7 is scratch. The width does not matter. */
  lemma AtomicNode(width: MemWidth, op: AtomicOp, base: PhysReg, value: PhysReg, off: i16, code: seq<bv32>, at: nat,
          m: Rv, r: Option<u64>) returns (n: Rv)
    requires op != CmpXchg && IsProgramReg(base.n) && IsProgramReg(value.n)
    requires Placed(code, at, RvNodeWords(IrAtomic(width, op, base, value, off))) && m.pc == 4 * at
    requires Address(R(m, base.n), off) % 8 == 0
    ensures HartRuns(code, Hart(m, r), 4, Hart(n, r)) && n.pc == 4 * (at + 4)
    ensures var address := Address(R(m, base.n), off);
            AtomicDone(m, n, address, AmoResult(WordOp(op), Cell(m, address), R(m, value.n)))
  {
    AmoNodeWords(width, op, base, value, off);
    hide Addi, FenceRwRw, HartRuns, Address, RvAtomicWords, RvNodeWords, AmoResult, Addressed, R, WordOp,
         HartStep, Decode, DecodeAmo, ExecuteAmo, Cell;
    var ws := RvNodeWords(IrAtomic(width, op, base, value, off));
    var address := Address(R(m, base.n), off);
    var q := Addressed(m, base.n, off);
    AddressedIs(m, base.n, off);
    AtomicDecodes(op, value);
    FenceDecodes();
    AmoStep(WordOp(op), value.n, m, q, r, address);
    var p := Onward(q.(mem := q.mem[address := AmoResult(WordOp(op), Cell(m, address), R(m, value.n))]));
    n := Onward(p);
    AmoWord(code, at, ws, 2, Hart(q, r));
    AmoWord(code, at, ws, 3, Hart(p, r));
    FenceMoves(p, r);
    Stays(code, Hart(n, r));
    StepThen(code, Hart(p, r), Hart(n, r), 0, Hart(n, r));
    StepThen(code, Hart(q, r), Hart(p, r), 1, Hart(n, r));
    Prepared(code, at, ws, base.n, off, Hart(m, r), 2, Hart(n, r));
    RegistersStay(p);
  }

  lemma FenceMoves(m: Rv, r: Option<u64>)
    ensures ExecuteAmo(Hart(m, r), Fence) == Moved(Hart(Onward(m), r))
  {}

  lemma RegistersStay(m: Rv)
    ensures forall r: bv8 :: R(Onward(m), r) == R(m, r)
  {}

  // ---------- compare-and-exchange ----------

  /** The words of a compare-and-exchange, operation first. */
  ghost predicate ExchangeAt(code: seq<bv32>, at: nat, ws: seq<bv32>, value: bv8) {
    && Placed(code, at, ws) && |ws| == 7
    && Decode(ws[2]) == Illegal && DecodeAmo(ws[2]) == LoadReserved(23, 23) && BranchesOn(ws[3], 23, 10, 12)
    && Decode(ws[4]) == Illegal && DecodeAmo(ws[4]) == StoreConditional(23, value, 23) && BranchesOn(ws[5], 23, 0, -12)
    && Decode(ws[6]) == Illegal && DecodeAmo(ws[6]) == Fence
  }

  lemma WordsThere(code: seq<bv32>, at: nat, ws: seq<bv32>, value: bv8)
    requires ExchangeAt(code, at, ws, value)
    ensures Placed(code, at, ws) && |ws| == 7 && BranchesOn(ws[3], 23, 10, 12) && BranchesOn(ws[5], 23, 0, -12)
  {
    hide Decode, DecodeAmo, BranchesOn, Placed;
  }

  lemma UnequalExecutes(w: bv32, rs1: bv8, rs2: bv8, d: int, m: Rv)
    requires BranchesOn(w, rs1, rs2, d)
    ensures Execute(m, Decode(w)) == Go(m.(pc := m.pc + (if R(m, rs1) != R(m, rs2) then d else 4)))
  {
    hide Decode, SignedField, R;
  }

  lemma ReservedStep(code: seq<bv32>, at: nat, ws: seq<bv32>, value: bv8, q: Rv, r: Option<u64>)
    requires ExchangeAt(code, at, ws, value) && q.pc == 4 * (at + 2)
    ensures HartStep(code, Hart(q, r)) ==
              if R(q, 23) % 8 != 0 then Trap
              else Moved(Hart(Onward(SetR(q, 23, Cell(q, R(q, 23)))), Some(R(q, 23))))
  {
    hide HartStep, Decode, DecodeAmo, SetR, R, Cell, BranchesOn, Placed;
    AmoWord(code, at, ws, 2, Hart(q, r));
  }

  lemma ConditionalStep(code: seq<bv32>, at: nat, ws: seq<bv32>, value: bv8, q: Rv, r: Option<u64>)
    requires ExchangeAt(code, at, ws, value) && q.pc == 4 * (at + 4)
    ensures var to := R(q, 23);
            HartStep(code, Hart(q, r)) ==
              if to % 8 != 0 then Trap
              else if r == Some(to) then Moved(Hart(Onward(SetR(q.(mem := q.mem[to := R(q, value)]), 23, 0)), None))
              else Moved(Hart(Onward(SetR(q, 23, 1)), None))
  {
    hide HartStep, Decode, DecodeAmo, SetR, R, BranchesOn, Placed;
    AmoWord(code, at, ws, 4, Hart(q, r));
  }

  lemma LeaveStep(code: seq<bv32>, at: nat, ws: seq<bv32>, value: bv8, q: Rv, r: Option<u64>)
    requires ExchangeAt(code, at, ws, value) && q.pc == 4 * (at + 3)
    ensures HartStep(code, Hart(q, r))
         == Moved(Hart(q.(pc := 4 * (at + (if R(q, 23) != R(q, 10) then 6 else 4))), r))
  {
    hide *;
    WordsThere(code, at, ws, value);
    UnequalExecutes(ws[3], 23, 10, 12, q);
    if R(q, 23) != R(q, 10) {
      PlainWord(code, at, ws, 3, Hart(q, r), q.(pc := q.pc + 12));
      assert q.pc + 12 == 4 * (at + 6);
    } else {
      PlainWord(code, at, ws, 3, Hart(q, r), q.(pc := q.pc + 4));
      assert q.pc + 4 == 4 * (at + 4);
    }
  }

  lemma RetryStep(code: seq<bv32>, at: nat, ws: seq<bv32>, value: bv8, q: Rv, r: Option<u64>)
    requires ExchangeAt(code, at, ws, value) && q.pc == 4 * (at + 5)
    ensures HartStep(code, Hart(q, r)) == Moved(Hart(q.(pc := 4 * (at + (if R(q, 23) != 0 then 2 else 6))), r))
  {
    hide *;
    WordsThere(code, at, ws, value);
    RegZero(q);
    UnequalExecutes(ws[5], 23, 0, -12, q);
    if R(q, 23) != 0 {
      PlainWord(code, at, ws, 5, Hart(q, r), q.(pc := q.pc + -12));
      assert q.pc + -12 == 4 * (at + 2);
    } else {
      PlainWord(code, at, ws, 5, Hart(q, r), q.(pc := q.pc + 4));
      assert q.pc + 4 == 4 * (at + 6);
    }
  }

  lemma RegZero(q: Rv)
    ensures R(q, 0) == 0
  {}

  lemma LastFence(code: seq<bv32>, at: nat, ws: seq<bv32>, value: bv8, q: Rv, r: Option<u64>)
    requires ExchangeAt(code, at, ws, value) && q.pc == 4 * (at + 6)
    ensures HartRuns(code, Hart(q, r), 1, Hart(Onward(q), r))
  {
    hide HartStep, Decode, DecodeAmo, BranchesOn, Placed, HartRuns;
    AmoWord(code, at, ws, 6, Hart(q, r));
    FenceMoves(q, r);
    Stays(code, Hart(Onward(q), r));
    StepThen(code, Hart(q, r), Hart(Onward(q), r), 0, Hart(Onward(q), r));
  }

  lemma SetSeven(m: Rv, v: u64)
    ensures forall r: bv8 :: R(SetR(m, 23, v), r) == if r == 23 then v else R(m, r)
    ensures SetR(m, 23, v).pc == m.pc && SetR(m, 23, v).mem == m.mem
  {
    forall r: bv8
      ensures R(SetR(m, 23, v), r) == if r == 23 then v else R(m, r)
    {
      ROfSetR(m, 23, v, r);
    }
  }

  /** Behind the load: s7 has lost the address to the old value of the cell. */
  function Loaded(q: Rv): Rv { Onward(SetR(q, 23, Cell(q, R(q, 23)))) }

  lemma LoadedIs(q: Rv)
    ensures var n := Loaded(q);
            && n.pc == q.pc + 4 && n.mem == q.mem && R(n, 23) == Cell(q, R(q, 23))
            && forall r: bv8 :: r != 23 ==> R(n, r) == R(q, r)
  {
    SetSeven(q, Cell(q, R(q, 23)));
    RegistersStay(SetR(q, 23, Cell(q, R(q, 23))));
    hide R, SetR, Cell;
  }

  /** The cell differs from a0: nothing is stored. */
  lemma ExchangeDiffers(code: seq<bv32>, at: nat, ws: seq<bv32>, value: bv8, q: Rv, r: Option<u64>) returns (h: Hart)
    requires ExchangeAt(code, at, ws, value) && q.pc == 4 * (at + 2) && R(q, 23) % 8 == 0
    requires Cell(q, R(q, 23)) != R(q, 10)
    ensures HartRuns(code, Hart(q, r), 3, h) && h.m.pc == 4 * (at + 7) && h.m.mem == q.mem
    ensures forall i: bv8 :: i != 23 ==> R(h.m, i) == R(q, i)
  {
    LoadedIs(q);
    hide HartStep, ExchangeAt, HartRuns, Cell, R, SetR;
    var address := R(q, 23);
    var n := Loaded(q);
    ReservedStep(code, at, ws, value, q, r);
    var p := n.(pc := 4 * (at + 6));
    LeaveStep(code, at, ws, value, n, Some(address));
    LastFence(code, at, ws, value, p, Some(address));
    h := Hart(Onward(p), Some(address));
    StepThen(code, Hart(n, Some(address)), Hart(p, Some(address)), 1, h);
    StepThen(code, Hart(q, r), Hart(n, Some(address)), 2, h);
    SameRegs(n, h.m);
  }

  lemma SameRegs(m: Rv, n: Rv)
    requires n.regs == m.regs
    ensures forall r: bv8 :: R(n, r) == R(m, r)
  {}

  /** The cell is a0, and by chance its own address: the value is stored. */
  lemma ExchangeSucceeds(code: seq<bv32>, at: nat, ws: seq<bv32>, value: bv8, q: Rv, r: Option<u64>) returns (h: Hart)
    requires ExchangeAt(code, at, ws, value) && q.pc == 4 * (at + 2) && R(q, 23) % 8 == 0 && value != 23
    requires Cell(q, R(q, 23)) == R(q, 10) == R(q, 23)
    ensures HartRuns(code, Hart(q, r), 5, h) && h.m.pc == 4 * (at + 7)
    ensures AtomicDone(q, h.m, R(q, 23), R(q, value))
  {
    LoadedIs(q);
    hide HartStep, ExchangeAt, HartRuns, Cell, R, SetR;
    var address := R(q, 23);
    var n := Loaded(q);
    ReservedStep(code, at, ws, value, q, r);
    LeaveStep(code, at, ws, value, n, Some(address));
    var c := n.(pc := 4 * (at + 4));
    SameRegs(n, c);
    ConditionalStep(code, at, ws, value, c, Some(address));
    var stored := c.(mem := c.mem[address := R(c, value)]);
    var p := Onward(SetR(stored, 23, 0));
    SetSeven(stored, 0);
    RegistersStay(SetR(stored, 23, 0));
    SameRegs(c, stored);
    RetryStep(code, at, ws, value, p, None);
    var e := p.(pc := 4 * (at + 6));
    LastFence(code, at, ws, value, e, None);
    h := Hart(Onward(e), None);
    StepThen(code, Hart(p, None), Hart(e, None), 1, h);
    StepThen(code, Hart(c, Some(address)), Hart(p, None), 2, h);
    StepThen(code, Hart(n, Some(address)), Hart(c, Some(address)), 3, h);
    StepThen(code, Hart(q, r), Hart(n, Some(address)), 4, h);
    SameRegs(p, h.m);
  }

  /** The cell is a0, but not its own address: the store goes elsewhere and fails, and either it or the
      load of the second round is misaligned. */
  lemma ExchangeTraps(code: seq<bv32>, at: nat, ws: seq<bv32>, value: bv8, q: Rv, r: Option<u64>)
    returns (k: nat, h: Hart)
    requires ExchangeAt(code, at, ws, value) && q.pc == 4 * (at + 2) && R(q, 23) % 8 == 0
    requires Cell(q, R(q, 23)) == R(q, 10) != R(q, 23)
    ensures HartRuns(code, Hart(q, r), k, h) && HartStep(code, h).Trap?
  {
    LoadedIs(q);
    hide HartStep, ExchangeAt, HartRuns, Cell, R, SetR;
    var address := R(q, 23);
    var n := Loaded(q);
    ReservedStep(code, at, ws, value, q, r);
    LeaveStep(code, at, ws, value, n, Some(address));
    var c := n.(pc := 4 * (at + 4));
    SameRegs(n, c);
    ConditionalStep(code, at, ws, value, c, Some(address));
    if R(c, 23) % 8 != 0 {
      k, h := 2, Hart(c, Some(address));
      Stays(code, h);
    } else {
      var p := Onward(SetR(c, 23, 1));
      SetSeven(c, 1);
      RegistersStay(SetR(c, 23, 1));
      RetryStep(code, at, ws, value, p, None);
      var e := p.(pc := 4 * (at + 2));
      SameRegs(p, e);
      ReservedStep(code, at, ws, value, e, None);
      k, h := 4, Hart(e, None);
      Stays(code, h);
      StepThen(code, Hart(p, None), Hart(e, None), 0, h);
      StepThen(code, Hart(c, Some(address)), Hart(p, None), 1, h);
    }
    StepThen(code, Hart(n, Some(address)), Hart(c, Some(address)), k - 2, h);
    StepThen(code, Hart(q, r), Hart(n, Some(address)), k - 1, h);
  }

  lemma ExchangePlaced(width: MemWidth, base: PhysReg, value: PhysReg, off: i16, code: seq<bv32>, at: nat)
    requires IsReg(value.n) && Placed(code, at, RvNodeWords(IrAtomic(width, CmpXchg, base, value, off)))
    ensures var ws := RvNodeWords(IrAtomic(width, CmpXchg, base, value, off));
            ExchangeAt(code, at, ws, value.n) && ws[0] == Addi(23, base.n, off) && ws[1] == FenceRwRw()
  {
    AmoNodeWords(width, CmpXchg, base, value, off);
    hide RvNodeWords, RvAtomicWords, Addi, FenceRwRw, Decode, DecodeAmo, BranchesOn, Placed;
    ExchangeDecodes(value);
    FenceDecodes();
  }

  /** The outcome of a compare-and-exchange of v with the cell at `address`. It does what it should in two
      cases only: the cell differs from a0, or it is its own address. In every other case, in which the
      value should be stored, the code traps. */
  ghost predicate Exchanged(code: seq<bv32>, at: nat, m: Rv, address: u64, v: u64, h: Hart) {
    var cell := Cell(m, address);
    if cell == R(m, 10) && cell != address then HartStep(code, h).Trap?
    else
      && h.m.pc == 4 * (at + 7)
      && (if cell == R(m, 10) then AtomicDone(m, h.m, address, v)
          else h.m.mem == m.mem && forall i: bv8 :: i != 23 ==> R(h.m, i) == R(m, i))
  }

  lemma ExchangeRest(code: seq<bv32>, at: nat, ws: seq<bv32>, value: bv8, q: Rv, r: Option<u64>)
    returns (k: nat, h: Hart)
    requires ExchangeAt(code, at, ws, value) && q.pc == 4 * (at + 2) && R(q, 23) % 8 == 0 && value != 23
    ensures HartRuns(code, Hart(q, r), k, h) && Exchanged(code, at, q, R(q, 23), R(q, value), h)
  {
    hide HartStep, ExchangeAt, HartRuns, R, Cell;
    var cell := Cell(q, R(q, 23));
    if cell != R(q, 10) {
      h := ExchangeDiffers(code, at, ws, value, q, r);
      k := 3;
    } else if cell == R(q, 23) {
      h := ExchangeSucceeds(code, at, ws, value, q, r);
      k := 5;
    } else {
      k, h := ExchangeTraps(code, at, ws, value, q, r);
    }
  }

  lemma ExchangedFrom(code: seq<bv32>, at: nat, m: Rv, q: Rv, address: u64, v: u64, h: Hart)
    requires q.mem == m.mem && forall r: bv8 :: r != 23 ==> R(q, r) == R(m, r)
    requires Exchanged(code, at, q, address, v, h)
    ensures Exchanged(code, at, m, address, v, h)
  {
    hide HartStep, R;
  }

  lemma ProgramRegIs(r: bv8)
    requires IsProgramReg(r)
    ensures IsReg(r) && r != 23
  {}

  lemma ExchangeNode(width: MemWidth, base: PhysReg, value: PhysReg, off: i16, code: seq<bv32>, at: nat, m: Rv,
          r: Option<u64>) returns (k: nat, h: Hart)
    requires IsProgramReg(base.n) && IsProgramReg(value.n) && m.pc == 4 * at
    requires Placed(code, at, RvNodeWords(IrAtomic(width, CmpXchg, base, value, off)))
    requires Address(R(m, base.n), off) % 8 == 0
    ensures HartRuns(code, Hart(m, r), k, h)
    ensures Exchanged(code, at, m, Address(R(m, base.n), off), R(m, value.n), h)
  {
    hide *;
    ProgramRegIs(base.n);
    ProgramRegIs(value.n);
    ExchangePlaced(width, base, value, off, code, at);
    var ws := RvNodeWords(IrAtomic(width, CmpXchg, base, value, off));
    var j;
    j, h := ExchangeAddressed(code, at, ws, base.n, value.n, off, m, r);
    WordsThere(code, at, ws, value.n);
    Prepared(code, at, ws, base.n, off, Hart(m, r), j, h);
    k := j + 2;
  }

  lemma ExchangeAddressed(code: seq<bv32>, at: nat, ws: seq<bv32>, base: bv8, value: bv8, off: i16, m: Rv,
          r: Option<u64>) returns (k: nat, h: Hart)
    requires ExchangeAt(code, at, ws, value) && value != 23 && m.pc == 4 * at && Address(R(m, base), off) % 8 == 0
    ensures HartRuns(code, Hart(Addressed(m, base, off), r), k, h)
    ensures Exchanged(code, at, m, Address(R(m, base), off), R(m, value), h)
  {
    hide *;
    var q := Addressed(m, base, off);
    AddressedIs(m, base, off);
    k, h := ExchangeRest(code, at, ws, value, q, r);
    ExchangedFrom(code, at, m, q, Address(R(m, base), off), R(m, value), h);
  }

  // ---------- when it is right ----------

  /** Every operation but the compare-and-exchange leaves the right value in the cell. */
  lemma AtomicRight(op: AtomicOp, cell: u64, v: u64, r0: u64)
    requires op != CmpXchg
    ensures AmoResult(WordOp(op), cell, v) == EbpfCell(op, cell, v, r0)
  {
    hide Bitwise64;
  }
}
