/** RISC-V 64-bit arithmetic nodes: what they compute for every operand, and exactly which of them
    compute what the interpreter computes. */
module RvAlu64 {
  import opened Isa
  import opened Bits
  import opened Casts
  import opened Interpreter
  import opened Ir
  import opened RvEncode
  import opened RvWords
  import opened RvMachine
  import opened RvNodes
  import opened RvImm

  // ---------- operands ----------

  predicate IsShift(op: AluOp) { op == Lsh || op == Rsh || op == Arsh }

  predicate HasImmediate(op: AluOp) { op == Add || op == And || op == Or || op == Xor }

  /** The immediate is part of the instruction, or not looked at. */
  predicate InPlace(op: AluOp, v: i64) { op == Neg || IsShift(op) || (HasImmediate(op) && Fits12(v)) }

  /** The register that any other immediate is loaded into. */
  function LoadedInto(op: AluOp, d: bv8): bv8 { if op == Mov then d else S7 }

  /** The operand as the machine gets it. */
  function MachineImm(op: AluOp, d: bv8, v: i64): u64 {
    if InPlace(op, v) then Wrap64(v) else Left(LoadedInto(op, d), Wrap64(v))
  }

  function MachineOperand(op: AluOp, d: bv8, src: Operand, m: Rv): u64 {
    match src
    case OpReg(r) => R(m, r.n)
    case OpImm(v) => MachineImm(op, d, v)
  }

  /** Operands that the machine gets right. */
  predicate ExactOperand(op: AluOp, d: bv8, src: Operand) {
    src.OpImm? ==> op == Neg || IsShift(op) || Loads(LoadedInto(op, d), Wrap64(src.imm))
  }

  /** Twelve-bit immediates are always right. */
  lemma SmallLoads(rd: bv8, v: i64)
    requires LoadsExactly(v)
    ensures Loads(rd, Wrap64(v))
  {
    SignedBack(v);
  }

  lemma ImmIsRight(op: AluOp, d: bv8, v: i64)
    requires 0 < d < 32
    ensures MachineImm(op, d, v) == Wrap64(v) <==> ExactOperand(op, d, OpImm(v))
  {
    LeftExact(LoadedInto(op, d), Wrap64(v));
    hide Left, Loads;
    if HasImmediate(op) && Fits12(v) {
      SmallLoads(LoadedInto(op, d), v);
    }
  }

  // ---------- nodes ----------

  lemma SameAmount(op: AluOp, a: u64, x: u64, y: u64)
    requires IsShift(op) && x % 64 == y % 64
    ensures Result64(RvOpFor(op), a, x) == RvValue(op, a, y)
  {
    hide Pow2, Wrap64, Quotient, FloorDiv, AsI64;
  }

  lemma ShiftAmount(op: AluOp, a: u64, v: i64)
    requires IsShift(op)
    ensures 0 <= v % 64 < 64 && Result64(RvOpFor(op), a, v % 64) == RvValue(op, a, Wrap64(v))
  {
    var turns := v / TWO_64;
    assert v == turns * TWO_64 + Wrap64(v);
    ModUnique(Wrap64(v), 64, v / 64 - turns * (TWO_64 / 64), v % 64);
    ModUnique(v % 64, 64, 0, v % 64);
    hide *;
    SameAmount(op, a, v % 64, Wrap64(v));
  }

  function ShiftBase(op: AluOp): bv32 { if op == Lsh then 0x1013 else if op == Rsh then 0x5013 else 0x40005013 }

  lemma ShiftNode(op: AluOp, d: bv8, v: i64, m: Rv) returns (n: Rv)
    requires 0 < d < 32 && IsShift(op)
    ensures Straight([ShiftForm(ShiftBase(op), d, d, AsU32(v % 64))], m, n)
    ensures SetsReg(m, n, d, RvValue(op, R(m, d), Wrap64(v)))
  {
    hide Straight, SetsReg, RvValue, Result64, ShiftForm, AsU32, R;
    ShiftAmount(op, R(m, d), v);
    n := ShiftStep(ShiftBase(op), d, d, v % 64, RvOpFor(op), m);
  }

  lemma ImmediateNode(op: AluOp, d: bv8, v: i64, m: Rv) returns (n: Rv)
    requires 0 < d < 32 && HasImmediate(op) && Fits12(v)
    ensures Straight([IType(v, d, Funct3For(op), d, 0x13)], m, n)
    ensures SetsReg(m, n, d, RvValue(op, R(m, d), Wrap64(v)))
  {
    hide Straight, SetsReg, RvValue, Result64, IType, R;
    DirectValue(op, R(m, d), Wrap64(v));
    n := ImmStep(v, d, Funct3For(op), d, RvOpFor(op), m);
  }

  lemma NegIgnores(a: u64, b: u64, c: u64)
    ensures RvValue(Neg, a, b) == RvValue(Neg, a, c) && RvValue(Mov, a, b) == b
  {}

  lemma ThroughScratch(m: Rv, q: Rv, n: Rv, d: bv8, w: u64)
    requires IsProgramReg(d) && OnlyChanged(m, q, S7) && SetsReg(q, n, d, w)
    ensures OnlyChanged(m, n, d) && R(n, d) == w && R(q, d) == R(m, d)
  {}

  lemma ScratchNode(op: AluOp, d: bv8, v: i64, m: Rv) returns (n: Rv)
    requires IsProgramReg(d)
    ensures Straight(RvLoadImm(S7, Wrap64(v)) + [RvReg64(op, d, S7)], m, n)
    ensures OnlyChanged(m, n, d) && R(n, d) == RvValue(op, R(m, d), Left(S7, Wrap64(v)))
  {
    hide Straight, SetsReg, OnlyChanged, RvValue, RvLoadImm, RvReg64, R, Left, Loads;
    var q := LoadValue(S7, Wrap64(v), m);
    n := RegNode64(op, d, S7, q);
    ThroughScratch(m, q, n, d, RvValue(op, R(q, d), R(q, S7)));
    StraightAppend(RvLoadImm(S7, Wrap64(v)), [RvReg64(op, d, S7)], m, q, n);
  }

  /** The words of an operation on an immediate, by kind. */
  lemma ImmWords(op: AluOp, dst: PhysReg, v: i64)
    ensures RvWords.RvAlu64(op, dst, OpImm(v))
         == if op == Neg then [RvReg64(Neg, dst.n, dst.n)]
            else if HasImmediate(op) && Fits12(v) then [IType(v, dst.n, Funct3For(op), dst.n, 0x13)]
            else if op == Mov then RvLoadImm(dst.n, Wrap64(v))
            else if IsShift(op) then [ShiftForm(ShiftBase(op), dst.n, dst.n, AsU32(v % 64))]
            else RvLoadImm(S7, Wrap64(v)) + [RvReg64(op, dst.n, S7)]
  {
    hide RvLoadImm, RvReg64, IType, ShiftForm, AsU32, Wrap64, Fits12;
  }

  /** The node of an operation on an immediate. */
  lemma ImmNode64(op: AluOp, dst: PhysReg, v: i64, m: Rv) returns (n: Rv)
    requires IsProgramReg(dst.n)
    ensures Straight(RvAlu64(op, dst, OpImm(v)), m, n)
    ensures OnlyChanged(m, n, dst.n) && R(n, dst.n) == RvValue(op, R(m, dst.n), MachineImm(op, dst.n, v))
  {
    hide Straight, SetsReg, OnlyChanged, RvValue, RvLoadImm, RvReg64, R, IType, ShiftForm, AsU32, Left, Loads, Wrap64,
         Funct3For, ShiftBase, Fits12;
    ImmWords(op, dst, v);
    hide RvWords.RvAlu64;
    var d := dst.n;
    NegIgnores(R(m, d), R(m, d), Wrap64(v));
    if op == Neg {
      n := RegNode64(Neg, d, d, m);
      SetsOnly(m, n, d, RvValue(Neg, R(m, d), R(m, d)));
    } else if HasImmediate(op) && Fits12(v) {
      n := ImmediateNode(op, d, v, m);
      SetsOnly(m, n, d, RvValue(op, R(m, d), Wrap64(v)));
    } else if op == Mov {
      n := LoadValue(d, Wrap64(v), m);
      NegIgnores(R(m, d), Left(d, Wrap64(v)), Wrap64(v));
    } else if IsShift(op) {
      n := ShiftNode(op, d, v, m);
      SetsOnly(m, n, d, RvValue(op, R(m, d), Wrap64(v)));
    } else {
      n := ScratchNode(op, d, v, m);
    }
  }

  /** Every 64-bit operation on every operand: the machine's value of the operand as the machine gets
      it is in the destination, and nothing else changed but s7. */
  lemma AluNode64(op: AluOp, dst: PhysReg, src: Operand, m: Rv) returns (n: Rv)
    requires IsProgramReg(dst.n) && ProgramOperand(src)
    ensures Straight(RvAlu64(op, dst, src), m, n) && OnlyChanged(m, n, dst.n)
    ensures R(n, dst.n) == RvValue(op, R(m, dst.n), MachineOperand(op, dst.n, src, m))
  {
    hide Straight, SetsReg, OnlyChanged, RvValue, RvReg64, R, MachineImm;
    match src
    case OpReg(r) =>
      n := RegNode64(op, dst.n, r.n, m);
      SetsOnly(m, n, dst.n, RvValue(op, R(m, dst.n), R(m, r.n)));
    case OpImm(v) =>
      hide RvAlu64;
      n := ImmNode64(op, dst, v, m);
  }

  /** With an operand that the machine gets right, a 64-bit node does what the interpreter does
      exactly unless it divides by zero. */
  lemma AluNode64Exact(op: AluOp, dst: PhysReg, src: Operand, m: Rv) returns (n: Rv)
    requires IsProgramReg(dst.n) && ProgramOperand(src)
    ensures Straight(RvAlu64(op, dst, src), m, n) && OnlyChanged(m, n, dst.n)
    ensures R(n, dst.n) == RvValue(op, R(m, dst.n), MachineOperand(op, dst.n, src, m))
    ensures ExactOperand(op, dst.n, src) ==>
              (R(n, dst.n) == EvalAlu64(op, R(m, dst.n), OperandR(src, m)) <==> !(op == Div && OperandR(src, m) == 0))
  {
    hide Straight, OnlyChanged, RvAlu64, R, RvValue, EvalAlu64, MachineImm, ExactOperand;
    n := AluNode64(op, dst, src, m);
    if src.OpImm? {
      ImmIsRight(op, dst.n, src.imm);
    }
    ValueAgrees(op, R(m, dst.n), OperandR(src, m));
  }

  // ---------- operands that come out wrong ----------

  lemma {:induction false} OrZero(x: nat, n: nat)
    requires x < Pow2(n)
    ensures Bitwise(LOr, 0, x, n) == x && Bitwise(LXor, 0, x, n) == x
  {
    if n > 0 {
      OrZero(x / 2, n - 1);
    }
  }

  lemma {:induction false} AndOnes(x: nat, n: nat)
    requires x < Pow2(n)
    ensures Bitwise(LAnd, Pow2(n) - 1, x, n) == x
  {
    if n > 0 {
      AndOnes(x / 2, n - 1);
      ModUnique(Pow2(n) - 1, 2, Pow2(n - 1) - 1, 1);
    }
  }

  lemma LogicUnit(x: u64)
    ensures Bitwise64(LOr, 0, x) == x && Bitwise64(LXor, 0, x) == x && Bitwise64(LAnd, TWO_64 - 1, x) == x
  {
    Pow2Values();
    hide Bitwise, Pow2;
    OrZero(x, 64);
    AndOnes(x, 64);
  }

  lemma QuotientsDiffer(x: u64, y: u64)
    requires 0 < x < y
    ensures Quotient(x, x) == 1 && Quotient(x, y) == 0 && Remainder(x, x) == 0 && Remainder(x, y) == x
  {
    ModUnique(x, x, 1, 0);
    ModUnique(x, y, 0, x);
  }

  /** A register value for which two different operands give different results. */
  function Witness(op: AluOp, x: u64, y: u64): u64 {
    match op
    case Sub => x
    case Mul => 1
    case And => TWO_64 - 1
    case Div => if x == 0 || y == 0 then 0 else if x < y then x else y
    case Mod => if x == 0 then y else if x < y then x else y
    case _ => 0
  }

  lemma WrongLogic(op: AluOp, x: u64, y: u64)
    requires x != y && (op == Or || op == And || op == Xor)
    ensures var a := Witness(op, x, y); RvValue(op, a, x) != EvalAlu64(op, a, y)
  {
    LogicUnit(x);
    LogicUnit(y);
    hide Bitwise64;
  }

  lemma WrongDivisor(op: AluOp, x: u64, y: u64)
    requires x != y && y != 0 && (op == Div || op == Mod)
    ensures var a := Witness(op, x, y); RvValue(op, a, x) != EvalAlu64(op, a, y)
  {
    if x == 0 {
      ModUnique(0, y, 0, 0);
      ModUnique(y, y, 1, 0);
    } else if x < y {
      QuotientsDiffer(x, y);
      hide Quotient, Remainder;
    } else {
      QuotientsDiffer(y, x);
      hide Quotient, Remainder;
    }
  }

  lemma WrongSum(op: AluOp, x: u64, y: u64)
    requires x != y && (op == Add || op == Sub || op == Mul || op == Mov)
    ensures var a := Witness(op, x, y); RvValue(op, a, x) != EvalAlu64(op, a, y)
  {
    if op == Sub {
      ModUnique(x - x, TWO_64, 0, 0);
      if x >= y {
        ModUnique(x - y, TWO_64, 0, x - y);
      } else {
        ModUnique(x - y, TWO_64, -1, x - y + TWO_64);
      }
    } else {
      ModUnique(x, TWO_64, 0, x);
      ModUnique(y, TWO_64, 0, y);
    }
  }

  lemma WrongOperand(op: AluOp, x: u64, y: u64)
    requires x != y && y != 0 && op != Neg && !IsShift(op)
    ensures var a := Witness(op, x, y); RvValue(op, a, x) != EvalAlu64(op, a, y)
  {
    hide RvValue, EvalAlu64, Witness;
    if op == Or || op == And || op == Xor {
      WrongLogic(op, x, y);
    } else if op == Div || op == Mod {
      WrongDivisor(op, x, y);
    } else {
      WrongSum(op, x, y);
    }
  }

  lemma ZeroLoads(rd: bv8, v: i64)
    requires !Loads(rd, Wrap64(v))
    ensures Wrap64(v) != 0
  {
    SignedBack(v);
  }

  /** A node with an immediate does what the interpreter does, whatever its register holds, exactly if
      the immediate is loaded right, or is not loaded at all, and is no divisor zero. */
  lemma ImmediateAlwaysRight(op: AluOp, d: bv8, v: i64)
    requires 0 < d < 32
    ensures (forall a: u64 :: RvValue(op, a, MachineImm(op, d, v)) == EvalAlu64(op, a, Wrap64(v)))
       <==> ExactOperand(op, d, OpImm(v)) && !(op == Div && v == 0)
  {
    hide RvValue, EvalAlu64, MachineImm, Loads;
    SignedBack(v);
    var x, y := MachineImm(op, d, v), Wrap64(v);
    ImmIsRight(op, d, v);
    if ExactOperand(op, d, OpImm(v)) {
      forall a: u64
        ensures RvValue(op, a, x) == EvalAlu64(op, a, y) <==> !(op == Div && y == 0)
      {
        ValueAgrees(op, a, y);
      }
      assert op == Div && v == 0 ==> RvValue(op, 0, x) != EvalAlu64(op, 0, y);
    } else {
      ZeroLoads(LoadedInto(op, d), v);
      WrongOperand(op, x, y);
    }
  }
}
