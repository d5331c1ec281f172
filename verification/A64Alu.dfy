/** The words emitted for arithmetic nodes and immediates compute what the interpreter computes. */
module A64Alu {
  import opened Isa
  import opened Bits
  import opened Interpreter
  import opened Ir
  import opened A64Encode
  import opened A64Machine
  import opened A64Decode
  import opened A64Words

  // ---------- straight-line code ----------

  /** Executes words that only fall through; None if one faults or transfers control. */
  function ExecWords(ws: seq<bv32>, m: A64): Option<A64> {
    if ws == [] then Some(m)
    else
      match Execute(m, Decode(ws[0]))
      case Go(n) => if n.pc == m.pc + 1 then ExecWords(ws[1..], n) else None
      case _ => None
  }

  predicate Straight(ws: seq<bv32>, m: A64, n: A64) {
    ExecWords(ws, m) == Some(n)
  }

  lemma StraightOne(w: bv32, m: A64, n: A64)
    requires Execute(m, Decode(w)) == Go(n) && n.pc == m.pc + 1
    ensures Straight([w], m, n)
  {
    assert ExecWords([], n) == Some(n);
    assert [w][1..] == [];
  }

  lemma {:induction false} ExecAppend(a: seq<bv32>, b: seq<bv32>, m: A64)
    requires ExecWords(a, m).Some?
    ensures ExecWords(a + b, m) == ExecWords(b, ExecWords(a, m).value)
    decreases |a|
  {
    hide Execute, Decode;
    if a == [] {
      assert a + b == b;
    } else {
      assert (a + b)[1..] == a[1..] + b;
      ExecAppend(a[1..], b, Execute(m, Decode(a[0])).m);
    }
  }

  lemma StraightAppend(a: seq<bv32>, b: seq<bv32>, m: A64, n: A64, o: A64)
    requires Straight(a, m, n) && Straight(b, n, o)
    ensures Straight(a + b, m, o)
  {
    ExecAppend(a, b, m);
  }

  lemma {:induction false} StraightPc(ws: seq<bv32>, m: A64, n: A64)
    requires Straight(ws, m, n)
    ensures n.pc == m.pc + |ws|
    decreases |ws|
  {
    hide Execute, Decode;
    if ws != [] {
      StraightPc(ws[1..], Execute(m, Decode(ws[0])).m, n);
    }
  }

  // ---------- registers ----------

  /** A register that may hold a program value: not SP/ZR and not one of the emitter's scratch
      registers X9 and X12. */
  predicate IsProgramReg(r: bv8) { r < 31 && r != 9 && r != 12 }

  /** Nothing changed but register d, the scratch registers and the program counter. */
  ghost predicate OnlyChanged(m: A64, n: A64, d: bv8) {
    && n.sp == m.sp && n.mem == m.mem && n.flags == m.flags
    && forall r: bv8 :: IsProgramReg(r) && r != d ==> X(n, r) == X(m, r)
  }

  lemma XOfSetX(m: A64, d: bv8, v: u64, r: bv8)
    requires d < 31
    ensures X(SetX(m, d, v), r) == if r == d then v else X(m, r)
  {
    GetUpdate(m.regs, PhysReg(d), v, PhysReg(r));
  }

  /** n is m one word later, with register d set to v. */
  ghost predicate SetsReg(m: A64, n: A64, d: bv8, v: u64) {
    && n.sp == m.sp && n.mem == m.mem && n.flags == m.flags && n.pc == m.pc + 1
    && X(n, d) == v && forall r: bv8 :: r != d ==> X(n, r) == X(m, r)
  }

  lemma SetXSets(m: A64, d: bv8, v: u64)
    requires d < 31
    ensures SetsReg(m, SetX(m, d, v).(pc := m.pc + 1), d, v)
  {
    var n := SetX(m, d, v).(pc := m.pc + 1);
    forall r: bv8
      ensures X(n, r) == if r == d then v else X(m, r)
    {
      XOfSetX(m, d, v, r);
    }
  }

  lemma SetsOnly(m: A64, n: A64, d: bv8, v: u64)
    requires SetsReg(m, n, d, v)
    ensures OnlyChanged(m, n, d) && X(n, d) == v
  {}

  // ---------- one data-processing word ----------

  lemma DataStep(base: bv32, rop: RegOp, rd: bv8, rn: bv8, rm: bv8, m: A64) returns (n: A64)
    requires rd < 31 && IsReg(rn) && IsReg(rm)
    requires base & 0x001F03FF == 0 && RegOpOf(base) == Some(rop) && base & 0x0E000000 == 0x0A000000
    ensures Straight([RegReg(base, rd, rn, rm)], m, n)
    ensures var is64 := base & 0x80000000 != 0;
            SetsReg(m, n, rd, DataResult(is64, rop, Operand64or32(m, is64, rn), Operand64or32(m, is64, rm)))
  {
    var is64 := base & 0x80000000 != 0;
    var v := DataResult(is64, rop, Operand64or32(m, is64, rn), Operand64or32(m, is64, rm));
    n := SetX(m, rd, v).(pc := m.pc + 1);
    hide *;
    DecodeRegReg(base, rd, rn, rm);
    DataExecutes(is64, rop, rd, rn, rm, m);
    SetXSets(m, rd, v);
    StraightOne(RegReg(base, rd, rn, rm), m, n);
  }

  lemma DataExecutes(is64: bool, rop: RegOp, rd: bv8, rn: bv8, rm: bv8, m: A64)
    requires rd < 31
    ensures var v := DataResult(is64, rop, Operand64or32(m, is64, rn), Operand64or32(m, is64, rm));
            Execute(m, DataReg(is64, rop, rd, rn, rm)) == Go(SetX(m, rd, v).(pc := m.pc + 1))
  {
    hide DataResult, Operand64or32;
  }

  lemma MsubStep(is64: bool, rd: bv8, rn: bv8, rm: bv8, ra: bv8, m: A64) returns (n: A64)
    requires rd < 31 && IsReg(rn) && IsReg(rm) && IsReg(ra)
    ensures Straight([if is64 then MsubX(rd, rn, rm, ra) else MsubW(rd, rn, rm, ra)], m, n)
    ensures SetsReg(m, n, rd,
            MsubResult(is64, Operand64or32(m, is64, ra), Operand64or32(m, is64, rn), Operand64or32(m, is64, rm)))
  {
    DecodeMsub(is64, rd, rn, rm, ra);
    hide MsubX, MsubW, Decode, SetsReg;
    var v := MsubResult(is64, Operand64or32(m, is64, ra), Operand64or32(m, is64, rn), Operand64or32(m, is64, rm));
    n := SetX(m, rd, v).(pc := m.pc + 1);
    SetXSets(m, rd, v);
    StraightOne(if is64 then MsubX(rd, rn, rm, ra) else MsubW(rd, rn, rm, ra), m, n);
  }

  // ---------- arithmetic facts ----------

  predicate Direct(op: AluOp) { op != Mod && op != Mov && op != Neg }

  /** The data-processing operation that implements an ALU operation by itself. */
  function Rop(op: AluOp): RegOp
    requires Direct(op)
  {
    match op
    case Add => OpAdd
    case Sub => OpSub
    case Mul => OpMul
    case Div => OpUdiv
    case Or => OpOrr
    case And => OpAnd
    case Xor => OpEor
    case Lsh => OpLslv
    case Rsh => OpLsrv
    case Arsh => OpAsrv
  }

  lemma DirectResult64(op: AluOp, a: u64, b: u64)
    requires Direct(op)
    ensures DataResult(true, Rop(op), a, b) == EvalAlu64(op, a, b)
  {
    hide Bitwise64, Bitwise32, Pow2, Quotient, FloorDiv;
  }

  lemma DirectResult32(op: AluOp, a: u32, b: u32)
    requires Direct(op)
    ensures DataResult(false, Rop(op), a, b) == EvalAlu32(op, a, b)
  {
    hide Bitwise64, Bitwise32, Pow2, Quotient, FloorDiv;
  }

  /** a - (a / b) * b is the remainder. */
  lemma RemainderByMsub(a: nat, b: nat, m: nat)
    requires b > 0 && a < m
    ensures (a - Quotient(a, b) * b) % m == Remainder(a, b)
  {
    QuotientRest(a, b);
    ModUnique(Remainder(a, b), m, 0, Remainder(a, b));
    hide Quotient, Remainder;
  }

  lemma QuotientRest(a: nat, b: nat)
    requires b > 0
    ensures a - Quotient(a, b) * b == Remainder(a, b)
  {
    assert a == a / b * b + a % b;
  }

  lemma OrrZero(is64: bool, b: u64)
    requires b < Modulus(is64)
    ensures DataResult(is64, OpOrr, 0, b) == b
  {
    Pow2Values();
    BitwiseOrZero(b, Width(is64));
  }

  lemma {:induction false} BitwiseOrZero(b: nat, n: nat)
    requires b < Pow2(n)
    ensures Bitwise(LOr, 0, b, n) == b
  {
    if n > 0 {
      BitwiseOrZero(b / 2, n - 1);
    }
  }

  // ---------- register-register nodes ----------

  function Base64(op: AluOp): bv32
    requires Direct(op)
  {
    match op
    case Add => 0x8B000000
    case Sub => 0xCB000000
    case Mul => 0x9B007C00
    case Div => 0x9AC00800
    case Or => 0xAA000000
    case And => 0x8A000000
    case Xor => 0xCA000000
    case Lsh => 0x9AC02000
    case Rsh => 0x9AC02400
    case Arsh => 0x9AC02800
  }

  lemma Base64Decodes(op: AluOp)
    requires Direct(op)
    ensures var b := Base64(op);
            b & 0x001F03FF == 0 && RegOpOf(b) == Some(Rop(op)) && b & 0x0E000000 == 0x0A000000 && b & 0x80000000 != 0
  {}

  lemma Base32Decodes(op: AluOp)
    requires Direct(op)
    ensures var b := Base64(op) & 0x7FFFFFFF;
            b & 0x001F03FF == 0 && RegOpOf(b) == Some(Rop(op)) && b & 0x0E000000 == 0x0A000000 && b & 0x80000000 == 0
  {}

  lemma ModValue64(a: u64, b: u64)
    ensures MsubResult(true, a, DataResult(true, OpUdiv, a, b), b) == EvalAlu64(Mod, a, b)
  {
    if b != 0 {
      RemainderByMsub(a, b, TWO_64);
    }
  }

  lemma ModValue32(a: u32, b: u32)
    ensures MsubResult(false, a, DataResult(false, OpUdiv, a, b), b) == EvalAlu32(Mod, a, b)
    ensures DataResult(false, OpUdiv, a, b) < TWO_32
  {
    if b != 0 {
      RemainderByMsub(a, b, TWO_32);
    }
  }

  /** Two words that go through X12. */
  lemma ThroughScratch(v: bv32, w: bv32, m: A64, q: A64, n: A64, quotient: u64, d: bv8, value: u64)
    requires Straight([v], m, q) && SetsReg(m, q, 12, quotient)
    requires Straight([w], q, n) && SetsReg(q, n, d, value)
    ensures Straight([v, w], m, n) && OnlyChanged(m, n, d) && X(n, d) == value
  {
    assert OnlyChanged(m, n, d) && X(n, d) == value;
    hide X, Straight, OnlyChanged, SetsReg;
    assert [v] + [w] == [v, w];
    StraightAppend([v], [w], m, q, n);
  }

  lemma KeptPastScratch(m: A64, q: A64, quotient: u64, r: bv8)
    requires SetsReg(m, q, 12, quotient)
    ensures X(q, 12) == quotient && (r != 12 ==> X(q, r) == X(m, r))
  {}

  /** UDIV then MSUB, correct even when the divisor is zero or is the destination itself. */
  lemma ModNode64(d: bv8, s: bv8, m: A64) returns (n: A64)
    requires IsProgramReg(d) && s < 31 && s != 12
    ensures Straight(RegWords64(Mod, d, s), m, n)
    ensures OnlyChanged(m, n, d) && X(n, d) == EvalAlu64(Mod, X(m, d), X(m, s))
  {
    hide Straight, OnlyChanged, SetsReg, EvalAlu64, DataResult, MsubResult, X, RegReg, MsubX, Decode;
    var quotient := DataResult(true, OpUdiv, X(m, d), X(m, s));
    var q := DataStep(0x9AC00800, OpUdiv, 12, d, s, m);
    KeptPastScratch(m, q, quotient, d);
    KeptPastScratch(m, q, quotient, s);
    n := MsubStep(true, d, 12, s, d, q);
    ModValue64(X(m, d), X(m, s));
    ThroughScratch(UdivX(12, d, s), MsubX(d, 12, s, d), m, q, n, quotient, d, EvalAlu64(Mod, X(m, d), X(m, s)));
  }

  lemma RegNode64(op: AluOp, d: bv8, s: bv8, m: A64) returns (n: A64)
    requires IsProgramReg(d) && s < 31 && s != 12
    ensures Straight(RegWords64(op, d, s), m, n)
    ensures OnlyChanged(m, n, d) && X(n, d) == EvalAlu64(op, X(m, d), X(m, s))
  {
    hide Straight, EvalAlu64, DataResult, RegReg, OnlyChanged, SetsReg;
    if Direct(op) {
      Base64Decodes(op);
      n := DataStep(Base64(op), Rop(op), d, d, s, m);
      DirectResult64(op, X(m, d), X(m, s));
      DirectWords64(op, d, s);
    } else if op == Mod {
      n := ModNode64(d, s, m);
    } else if op == Mov {
      n := DataStep(0xAA000000, OpOrr, d, 31, s, m);
      MovValue64(X(m, d), X(m, s));
    } else {
      n := DataStep(0xCB000000, OpSub, d, 31, d, m);
      NegValue64(X(m, d), X(m, s));
    }
    if op != Mod {
      SetsOnly(m, n, d, EvalAlu64(op, X(m, d), X(m, s)));
    }
  }

  lemma DirectWords64(op: AluOp, d: bv8, s: bv8)
    requires Direct(op)
    ensures RegWords64(op, d, s) == [RegReg(Base64(op), d, d, s)]
  {
    hide RegReg;
  }

  lemma MovValue64(a: u64, b: u64)
    ensures DataResult(true, OpOrr, 0, b) == EvalAlu64(Mov, a, b)
  {
    OrrZero(true, b);
  }

  lemma NegValue64(a: u64, b: u64)
    ensures DataResult(true, OpSub, 0, a) == EvalAlu64(Neg, a, b)
  {}

  lemma ModNode32(d: bv8, s: bv8, m: A64) returns (n: A64)
    requires IsProgramReg(d) && s < 31 && s != 12
    ensures Straight(RegWords32(Mod, d, s), m, n)
    ensures OnlyChanged(m, n, d) && X(n, d) == EvalAlu32(Mod, Wrap32(X(m, d)), Wrap32(X(m, s)))
  {
    hide Straight, OnlyChanged, SetsReg, EvalAlu32, DataResult, MsubResult, X, RegReg, MsubW, Decode;
    var a, b := Wrap32(X(m, d)), Wrap32(X(m, s));
    var quotient := DataResult(false, OpUdiv, a, b);
    var q := DataStep(0x1AC00800, OpUdiv, 12, d, s, m);
    KeptPastScratch(m, q, quotient, d);
    KeptPastScratch(m, q, quotient, s);
    n := MsubStep(false, d, 12, s, d, q);
    ModValue32(a, b);
    ThroughScratch(UdivW(12, d, s), MsubW(d, 12, s, d), m, q, n, quotient, d, EvalAlu32(Mod, a, b));
  }

  lemma RegNode32(op: AluOp, d: bv8, s: bv8, m: A64) returns (n: A64)
    requires IsProgramReg(d) && s < 31 && s != 12
    ensures Straight(RegWords32(op, d, s), m, n)
    ensures OnlyChanged(m, n, d) && X(n, d) == EvalAlu32(op, Wrap32(X(m, d)), Wrap32(X(m, s)))
  {
    hide Straight, EvalAlu32, DataResult, RegReg, OnlyChanged, SetsReg;
    var a, b := Wrap32(X(m, d)), Wrap32(X(m, s));
    if Direct(op) {
      Base32Decodes(op);
      n := DataStep(Base64(op) & 0x7FFFFFFF, Rop(op), d, d, s, m);
      DirectResult32(op, a, b);
      DirectWords32(op, d, s);
    } else if op == Mod {
      n := ModNode32(d, s, m);
    } else if op == Mov {
      n := DataStep(0x2A000000, OpOrr, d, 31, s, m);
      MovValue32(a, b);
    } else {
      n := DataStep(0x4B000000, OpSub, d, 31, d, m);
      NegValue32(a, b);
    }
    if op != Mod {
      SetsOnly(m, n, d, EvalAlu32(op, a, b));
    }
  }

  lemma DirectWords32(op: AluOp, d: bv8, s: bv8)
    requires Direct(op)
    ensures RegWords32(op, d, s) == [RegReg(Base64(op) & 0x7FFFFFFF, d, d, s)]
  {
    hide RegReg;
  }

  lemma MovValue32(a: u32, b: u32)
    ensures DataResult(false, OpOrr, 0, b) == EvalAlu32(Mov, a, b)
  {
    OrrZero(false, b);
  }

  lemma NegValue32(a: u32, b: u32)
    ensures DataResult(false, OpSub, 0, a) == EvalAlu32(Neg, a, b)
  {}
}
