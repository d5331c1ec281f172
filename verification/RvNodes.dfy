/** RISC-V arithmetic nodes: which of them compute what the interpreter computes, and exactly when
    the others do. */
module RvNodes {
  import opened Isa
  import opened Bits
  import opened Casts
  import opened Interpreter
  import opened Ir
  import opened RvEncode
  import opened RvWords
  import opened RvMachine
  import opened RvDecode

  // ---------- registers ----------

  /** A register that may hold a program value: neither x0 nor the scratch register s7. */
  predicate IsProgramReg(r: bv8) { 0 < r < 32 && r != S7 }

  predicate ProgramOperand(o: Operand) { o.OpReg? ==> IsProgramReg(o.reg.n) }

  function OperandR(o: Operand, m: Rv): u64 {
    match o
    case OpReg(r) => R(m, r.n)
    case OpImm(v) => Wrap64(v)
  }

  /** Register d got v; no other register and no memory changed. */
  ghost predicate SetsReg(m: Rv, n: Rv, d: bv8, v: u64) {
    n.mem == m.mem && R(n, d) == v && forall r: bv8 :: r != d ==> R(n, r) == R(m, r)
  }

  /** The same, but s7 may have changed too. */
  ghost predicate OnlyChanged(m: Rv, n: Rv, d: bv8) {
    n.mem == m.mem && forall r: bv8 :: r != d && r != S7 ==> R(n, r) == R(m, r)
  }

  lemma ROfSetR(m: Rv, d: bv8, v: u64, r: bv8)
    requires d != 0
    ensures R(SetR(m, d, v), r) == if r == d then v else R(m, r)
  {
    GetUpdate(m.regs, PhysReg(d), v, PhysReg(r));
  }

  lemma SetRSets(m: Rv, d: bv8, v: u64, pc: int)
    requires d != 0
    ensures SetsReg(m, SetR(m, d, v).(pc := pc), d, v)
  {
    forall r: bv8
      ensures R(SetR(m, d, v).(pc := pc), r) == if r == d then v else R(m, r)
    {
      ROfSetR(m, d, v, r);
    }
  }

  lemma SetsTwice(m: Rv, q: Rv, n: Rv, d: bv8, v: u64, w: u64)
    requires SetsReg(m, q, d, v) && SetsReg(q, n, d, w)
    ensures SetsReg(m, n, d, w)
  {}

  lemma SetsOnly(m: Rv, n: Rv, d: bv8, v: u64)
    requires SetsReg(m, n, d, v)
    ensures OnlyChanged(m, n, d) && R(n, d) == v
  {}

  lemma SetsValue(m: Rv, n: Rv, d: bv8, v: u64)
    requires SetsReg(m, n, d, v)
    ensures R(n, d) == v && forall r: bv8 :: r != d ==> R(n, r) == R(m, r)
  {}

  // ---------- single words ----------

  lemma WordStep(w: bv32, m: Rv, d: bv8, v: u64) returns (n: Rv)
    requires d != 0 && Execute(m, Decode(w)) == Advance(SetR(m, d, v))
    ensures Straight([w], m, n) && SetsReg(m, n, d, v)
  {
    hide Execute, Decode, Straight, SetsReg;
    n := SetR(m, d, v).(pc := m.pc + 4);
    SetRSets(m, d, v, m.pc + 4);
    StraightOne(w, m, n);
  }

  lemma RegStep(word: bool, funct7: bv32, rs2: bv8, rs1: bv8, funct3: bv32, rd: bv8, op: RvOp, m: Rv) returns (n: Rv)
    requires 0 < rd < 32 && IsReg(rs1) && IsReg(rs2) && funct7 < 0x80 && funct3 < 8
    requires OpOf(funct7, funct3) == Some(op) && (word ==> HasWordForm(op))
    ensures Straight([RType(funct7, rs2, rs1, funct3, rd, if word then 0x3B else 0x33)], m, n)
    ensures SetsReg(m, n, rd, if word then SignExtend32(Result32(op, Wrap32(R(m, rs1)), Wrap32(R(m, rs2))))
            else Result64(op, R(m, rs1), R(m, rs2)))
  {
    hide RType, Decode, OpOf, Result64, Result32, SetsReg, Straight, R, SetR, HasWordForm;
    DecodeR(word, funct7, rs2, rs1, funct3, rd);
    n := WordStep(RType(funct7, rs2, rs1, funct3, rd, if word then 0x3B else 0x33), m, rd,
                  if word then SignExtend32(Result32(op, Wrap32(R(m, rs1)), Wrap32(R(m, rs2))))
                     else Result64(op, R(m, rs1), R(m, rs2)));
  }

  lemma ImmStep(imm: int, rs1: bv8, funct3: bv32, rd: bv8, op: RvOp, m: Rv) returns (n: Rv)
    requires 0 < rd < 32 && IsReg(rs1) && Fits12(imm)
    requires (funct3 == 0 && op == OpAdd) || (funct3 == 4 && op == OpXor) || (funct3 == 6 && op == OpOr) ||
             (funct3 == 7 && op == OpAnd)
    ensures Straight([IType(imm, rs1, funct3, rd, 0x13)], m, n)
    ensures SetsReg(m, n, rd, Result64(op, R(m, rs1), Wrap64(imm)))
  {
    hide IType, Decode, Result64, SetsReg, Straight, R, SetR, Imm12, AsU32;
    DecodeI(imm, rs1, funct3, rd, op);
    n := WordStep(IType(imm, rs1, funct3, rd, 0x13), m, rd, Result64(op, R(m, rs1), Wrap64(imm)));
  }

  lemma ShiftStep(base: bv32, rd: bv8, rs1: bv8, s: nat, op: RvOp, m: Rv) returns (n: Rv)
    requires 0 < rd < 32 && IsReg(rs1) && s < 64
    requires (base == 0x1013 && op == OpSll) || (base == 0x5013 && op == OpSrl) || (base == 0x40005013 && op == OpSra)
    ensures Straight([ShiftForm(base, rd, rs1, AsU32(s))], m, n)
    ensures SetsReg(m, n, rd, Result64(op, R(m, rs1), s))
  {
    DecodeShift(base, rd, rs1, s, op);
    ShamtValue(s);
    hide ShiftForm, Decode, Result64, SetsReg, Straight, R, SetR, AsU32, FromWord;
    n := WordStep(ShiftForm(base, rd, rs1, AsU32(s)), m, rd, Result64(op, R(m, rs1), s));
  }

  // ---------- 64-bit operations on registers ----------

  /** What the machine computes: the interpreter's value, but all ones for a division by zero. */
  function RvValue(op: AluOp, a: u64, b: u64): u64 {
    if op == Div && b == 0 then TWO_64 - 1 else EvalAlu64(op, a, b)
  }

  /** So the two agree exactly when no division by zero is involved. */
  lemma ValueAgrees(op: AluOp, a: u64, b: u64)
    ensures RvValue(op, a, b) == EvalAlu64(op, a, b) <==> !(op == Div && b == 0)
  {}

  function RvOpFor(op: AluOp): RvOp
    requires op != Mov && op != Neg
  {
    match op
    case Add => OpAdd
    case Sub => OpSub
    case Mul => OpMul
    case Div => OpDivu
    case Mod => OpRemu
    case Or => OpOr
    case And => OpAnd
    case Xor => OpXor
    case Lsh => OpSll
    case Rsh => OpSrl
    case Arsh => OpSra
  }

  function Funct7For(op: AluOp): bv32 {
    match op
    case Sub => 0x20
    case Arsh => 0x20
    case Mul => 1
    case Div => 1
    case Mod => 1
    case _ => 0
  }

  function Funct3For(op: AluOp): bv32 {
    match op
    case Lsh => 1
    case Xor => 4
    case Rsh => 5
    case Arsh => 5
    case Div => 5
    case Or => 6
    case And => 7
    case Mod => 7
    case _ => 0
  }

  lemma DirectValue(op: AluOp, a: u64, b: u64)
    requires op != Mov && op != Neg
    ensures Result64(RvOpFor(op), a, b) == RvValue(op, a, b)
  {
    hide Bitwise64, Wrap64, Pow2, Quotient, Remainder, FloorDiv, AsI64;
  }

  lemma DirectWord(op: AluOp, d: bv8, s: bv8)
    requires op != Mov && op != Neg
    ensures RvReg64(op, d, s) == RType(Funct7For(op), s, d, Funct3For(op), d, 0x33)
    ensures OpOf(Funct7For(op), Funct3For(op)) == Some(RvOpFor(op)) && Funct7For(op) < 0x80 && Funct3For(op) < 8
  {
    hide RType;
  }

  lemma MovValue(a: u64, b: u64)
    ensures Result64(OpAdd, b, Wrap64(0)) == RvValue(Mov, a, b)
  {}

  lemma NegValue(a: u64, b: u64)
    ensures Result64(OpSub, 0, a) == RvValue(Neg, a, b)
  {
    if a == 0 {
      assert AsI64(a) == 0;
    } else {
      ModUnique(0 - a, TWO_64, -1, TWO_64 - a);
      if a >= TWO_63 {
        assert -AsI64(a) == TWO_64 - a;
        ModUnique(-AsI64(a), TWO_64, 0, TWO_64 - a);
      }
    }
  }

  lemma RegNode64(op: AluOp, d: bv8, s: bv8, m: Rv) returns (n: Rv)
    requires 0 < d < 32 && IsReg(s)
    ensures Straight([RvReg64(op, d, s)], m, n) && SetsReg(m, n, d, RvValue(op, R(m, d), R(m, s)))
  {
    hide Straight, SetsReg, RvValue, Result64, RType, IForm, AsU32, OpOf;
    if op == Mov {
      MovValue(R(m, d), R(m, s));
      n := ImmStep(0, s, 0, d, OpAdd, m);
    } else if op == Neg {
      NegValue(R(m, d), R(m, s));
      NegOp();
      n := RegStep(false, 0x20, d, 0, 0, d, OpSub, m);
    } else {
      DirectValue(op, R(m, d), R(m, s));
      DirectWord(op, d, s);
      n := RegStep(false, Funct7For(op), s, d, Funct3For(op), d, RvOpFor(op), m);
    }
  }

  lemma NegOp()
    ensures OpOf(0x20, 0) == Some(OpSub)
  {}

  // ---------- immediates ----------

  function Halved(w: bv32, k: nat): bv32 { if k == 0 then w else Halved(w >> 1, k - 1) }

  lemma HalvedThrice(w: bv32, k: nat)
    requires k >= 3
    ensures Halved(w, k) == Halved(Drop3(w), k - 3)
  {
    assert Halved(w, k) == Halved(w >> 1, k - 1);
    assert Halved(w >> 1, k - 1) == Halved((w >> 1) >> 1, k - 2);
  }

  function Drop3(w: bv32): bv32 { ((w >> 1) >> 1) >> 1 }

  lemma DropTwelve(w: bv32)
    ensures Drop3(Drop3(Drop3(Drop3(w)))) == Upper(w)
  {}

  lemma HalvedTwelve(w: bv32)
    ensures Halved(w, 12) == Upper(w)
  {
    hide Drop3, Upper;
    HalvedThrice(w, 12);
    HalvedThrice(Drop3(w), 9);
    HalvedThrice(Drop3(Drop3(w)), 6);
    HalvedThrice(Drop3(Drop3(Drop3(w))), 3);
    DropTwelve(w);
    assert Halved(Upper(w), 0) == Upper(w);
  }

  /** Dropping k bits divides by 2 to the k. */
  lemma {:induction false} FromWordHalved(w: bv32, n: nat, k: nat)
    requires k <= n
    ensures FromWord(Halved(w, k), n - k) == FromWord(w, n) / Pow2(k)
  {
    if k > 0 {
      FromWordHalved(w >> 1, n - 1, k - 1);
      HalfThen(FromWord(w, n), FromWord(w >> 1, n - 1), Pow2(k - 1));
    }
  }

  lemma HalfThen(x: nat, h: nat, p: nat)
    requires p > 0 && (x == 2 * h || x == 2 * h + 1)
    ensures h / p == x / (2 * p)
  {
    var q, r := h / p, h % p;
    assert h == q * p + r;
    assert q * (2 * p) == 2 * (q * p);
    ModUnique(x, 2 * p, q, x - 2 * (q * p));
  }

  lemma WholeWord(w: bv32)
    ensures w & 0xFFFF_FFFF == w
  {}

  lemma Mask32()
    ensures Mask(32) == 0xFFFF_FFFF && Pow2(32) == TWO_32
  {
    Masks();
    Pow2Values();
  }

  lemma WordValue(x: nat)
    requires x < TWO_32
    ensures FromWord(ToWord(x), 32) == x
  {
    hide ToWord, FromWord, Mask, Pow2;
    Mask32();
    FieldValue(x, 32);
    WholeWord(ToWord(x));
    assert x % TWO_32 == x;
  }

  /** The upper 20 bits of a 32-bit value. */
  lemma UpperBits(x: int)
    ensures FromWord(Upper(AsU32(x)), 20) == x % TWO_32 / 4096
  {
    assert AsU32(x) == ToWord(x % TWO_32);
    WordValue(x % TWO_32);
    hide ToWord, FromWord, Halved, AsU32, Upper;
    HalvedTwelve(AsU32(x));
    FromWordHalved(AsU32(x), 32, 12);
    assert Pow2(12) == 4096 by { Pow2Values(); }
    hide Pow2;
  }

  lemma LuiFields(rd: bv8, imm: bv32)
    requires IsReg(rd)
    ensures var w := (imm & 0xFFFFF000) | ((rd as bv32) << 7) | 0x37;
            Opcode(w) == 0x37 && Rd(w) == rd && Upper(w) == Upper(imm)
  {}

  lemma LuiGroup(w: bv32)
    requires Opcode(w) == 0x37
    ensures Decode(w) == LoadUpper(Rd(w), Upper(w))
  {
    hide DecodeRegister, DecodeImmediate, DecodeBranch, JOffset, SOffset, Rd, Rs1, Rs2, Opcode, Upper;
  }

  lemma DecodeLui(rd: bv8, imm: int)
    requires IsReg(rd)
    ensures Decode(Lui(rd, imm)) == LoadUpper(rd, Upper(AsU32(imm)))
  {
    hide AsU32, Rd, Opcode, Upper, Decode;
    LuiFields(rd, AsU32(imm));
    LuiGroup(Lui(rd, imm));
  }

  /** What LUI leaves: its immediate with the low 12 bits cleared. */
  lemma LuiValue(imm: int)
    requires Fits32(imm)
    ensures SignExtend32(4096 * (imm % TWO_32 / 4096) % TWO_32) == Wrap64(imm - imm % 4096)
  {
    var w := imm % TWO_32;
    assert w == if imm >= 0 then imm else imm + TWO_32;
    assert w % 4096 == imm % 4096;
    assert 4096 * (w / 4096) == w - w % 4096;
    if imm >= 0 {
      assert w - w % 4096 < TWO_31;
    } else {
      assert w - w % 4096 >= TWO_31;
    }
  }

  lemma LuiStep(rd: bv8, imm: int, m: Rv) returns (n: Rv)
    requires 0 < rd < 32 && Fits32(imm)
    ensures Straight([Lui(rd, imm)], m, n) && SetsReg(m, n, rd, Wrap64(imm - imm % 4096))
  {
    DecodeLui(rd, imm);
    UpperBits(imm);
    LuiValue(imm);
    hide Lui, Decode, SetsReg, Straight, R, SetR, AsU32, FromWord, SignExtend32, Upper;
    n := WordStep(Lui(rd, imm), m, rd, Wrap64(imm - imm % 4096));
  }

  /** What LUI and ADDI together leave: the upper part has not been shifted into place. */
  function Loaded32(v: int): u64 { Wrap64(Hi20(v) - Hi20(v) % 4096 + Lo12(v)) }

  lemma Hi20Fits(v: int)
    requires -TWO_31 <= v < TWO_32
    ensures -0x8_0000 <= Hi20(v) <= 0x10_0000 && v == 4096 * Hi20(v) + Lo12(v) && Fits12(Lo12(v))
  {}

  lemma LoadWide(rd: bv8, v: int, m: Rv) returns (n: Rv)
    requires 0 < rd < 32 && -TWO_31 <= v < TWO_32
    ensures Straight(LuiAddi(rd, v), m, n) && SetsReg(m, n, rd, Loaded32(v))
  {
    hide Straight, SetsReg, Lui, IType, Result64, Hi20, Lo12, R, Loaded32;
    Hi20Fits(v);
    var upper := Hi20(v) - Hi20(v) % 4096;
    var q := LuiStep(rd, Hi20(v), m);
    SumValue(v);
    if v % 4096 != 0 {
      SetsValue(m, q, rd, Wrap64(upper));
      n := ImmStep(Lo12(v), rd, 0, rd, OpAdd, q);
      StraightAppend([Lui(rd, Hi20(v))], [Addi(rd, rd, Lo12(v))], m, q, n);
      SetsTwice(m, q, n, rd, Wrap64(upper), Loaded32(v));
    } else {
      assert [Lui(rd, Hi20(v))] + [] == [Lui(rd, Hi20(v))];
      n := q;
    }
  }

  lemma SumValue(v: int)
    ensures Result64(OpAdd, Wrap64(Hi20(v) - Hi20(v) % 4096), Wrap64(Lo12(v))) == Loaded32(v)
    ensures v % 4096 == 0 ==> Wrap64(Hi20(v) - Hi20(v) % 4096) == Loaded32(v)
  {
    WrapSum(Hi20(v) - Hi20(v) % 4096, Lo12(v));
    assert v % 4096 == 0 ==> Lo12(v) == 0;
    hide Hi20, Lo12, Wrap64;
  }

  lemma WrapSum(a: int, b: int)
    ensures Wrap64(Wrap64(a) + Wrap64(b)) == Wrap64(a + b)
  {
    var x, y := a / TWO_64, b / TWO_64;
    assert a == x * TWO_64 + Wrap64(a) && b == y * TWO_64 + Wrap64(b);
    var q := (Wrap64(a) + Wrap64(b)) / TWO_64;
    ModUnique(a + b, TWO_64, x + y + q, Wrap64(Wrap64(a) + Wrap64(b)));
  }

  /** Immediates that a load gets right. */
  predicate LoadsExactly(v: int) { -6144 <= v < 2048 }

  lemma Loaded32Exact(v: int)
    requires Fits32(v) && !Fits12(v)
    ensures Loaded32(v) == Wrap64(v) <==> LoadsExactly(v)
  {
    Hi20Fits(v);
    var hi, lo := Hi20(v), Lo12(v);
    var w := hi - hi % 4096 + lo;
    assert Wrap64(v) == if v >= 0 then v else v + TWO_64;
    assert Wrap64(w) == if w >= 0 then w else w + TWO_64;
    assert Loaded32(v) == Wrap64(v) <==> hi - hi % 4096 == 4096 * hi;
    assert hi == -1 <==> LoadsExactly(v);
    assert hi != 0;
  }

  /** What the load sequence leaves of a 32-bit immediate. */
  function Left32(v: int): u64 { if Fits12(v) then Wrap64(v) else Loaded32(v) }

  lemma Left32Exact(v: i64)
    requires Fits32(v)
    ensures Left32(v) == Wrap64(v) <==> LoadsExactly(v)
  {
    hide Loaded32, Wrap64;
    if !Fits12(v) {
      Loaded32Exact(v);
    }
  }

  /** For 32-bit immediates, the load sequence is right exactly from -6144 to 2047: beyond, LUI gets
      a value already shifted down and drops its low bits. */
  lemma LoadImm32(rd: bv8, v: i64, m: Rv) returns (n: Rv)
    requires 0 < rd < 32 && Fits32(v)
    ensures Straight(RvLoadImm(rd, Wrap64(v)), m, n)
    ensures forall r: bv8 :: r != rd ==> R(n, r) == R(m, r)
    ensures n.mem == m.mem && R(n, rd) == Left32(v)
    ensures R(n, rd) == Wrap64(v) <==> LoadsExactly(v)
  {
    hide Straight, SetsReg, IType, Result64, LuiAddi, LowerHalf, R;
    SignedBack(v);
    if Fits12(v) {
      AddZero(v);
      n := ImmStep(v, 0, 0, rd, OpAdd, m);
      ReadsZero(m);
      SetsMem(m, n, rd, Wrap64(v));
    } else {
      n := LoadWide(rd, v, m);
      Loaded32Exact(v);
      SetsMem(m, n, rd, Loaded32(v));
    }
  }

  lemma SetsMem(m: Rv, n: Rv, d: bv8, v: u64)
    requires SetsReg(m, n, d, v)
    ensures n.mem == m.mem && R(n, d) == v && forall r: bv8 :: r != d ==> R(n, r) == R(m, r)
  {}

  lemma ReadsZero(m: Rv)
    ensures R(m, 0) == 0
  {}

  lemma SignedBack(v: i64)
    ensures AsI64(Wrap64(v)) == v && (Wrap64(v) == 0 <==> v == 0)
  {}

  lemma AddZero(v: i64)
    ensures Result64(OpAdd, 0, Wrap64(v)) == Wrap64(v)
  {}

  /** An immediate in the exact range, as a state change. */
  lemma LoadExact(rd: bv8, v: i64, m: Rv) returns (n: Rv)
    requires 0 < rd < 32 && LoadsExactly(v)
    ensures Straight(RvLoadImm(rd, Wrap64(v)), m, n) && SetsReg(m, n, rd, Wrap64(v))
  {
    hide Straight, RvLoadImm, R;
    n := LoadImm32(rd, v, m);
  }
}
