/** RISC-V 32-bit arithmetic: the word instructions sign-extend where the interpreter zero-extends,
    so they agree exactly on results below 2 to the 31; the operations that clear the upper half
    always agree. */
module RvAlu32 {
  import opened Isa
  import opened Bits
  import opened Casts
  import opened Interpreter
  import opened Ir
  import opened RvEncode
  import opened RvWords
  import opened RvMachine
  import opened RvDecode
  import opened RvNodes
  import opened RvImm
  import opened RvAlu64

  /** Emitted with an explicit zero-extension. */
  predicate ZeroExtended(op: AluOp) { op == Mov || op == Or || op == And || op == Xor }

  // ---------- word instructions ----------

  lemma WordExact(op: AluOp, a: u32, b: u32)
    requires !ZeroExtended(op) && op != Neg
    ensures SignExtend32(Result32(RvOpFor(op), a, b)) == EvalAlu32(op, a, b)
       <==> !(op == Div && b == 0) && EvalAlu32(op, a, b) < TWO_31
  {
    if op == Div && b == 0 {
      assert SignExtend32(TWO_32 - 1) != 0;
    } else {
      SameResult(op, a, b);
      hide EvalAlu32, Result32;
    }
  }

  lemma SameResult(op: AluOp, a: u32, b: u32)
    requires !ZeroExtended(op) && op != Neg && !(op == Div && b == 0)
    ensures Result32(RvOpFor(op), a, b) == EvalAlu32(op, a, b)
  {}

  lemma NegExact(a: u32, b: u32)
    ensures SignExtend32(Result32(OpSub, 0, a)) == EvalAlu32(Neg, a, b) <==> EvalAlu32(Neg, a, b) < TWO_31
  {
    if a == 0 {
      assert AsI32(a) == 0;
    } else {
      ModUnique(0 - a, TWO_32, -1, TWO_32 - a);
      if a >= TWO_31 {
        assert -AsI32(a) == TWO_32 - a;
        ModUnique(-AsI32(a), TWO_32, 0, TWO_32 - a);
      }
    }
  }

  lemma WordStepNode(op: AluOp, d: bv8, s: bv8, m: Rv) returns (n: Rv)
    requires 0 < d < 32 && IsReg(s) && !ZeroExtended(op)
    ensures Straight(RvReg32(op, d, s), m, n)
    ensures SetsReg(m, n, d, WordValue(op, Wrap32(R(m, d)), Wrap32(R(m, s))))
  {
    hide Straight, SetsReg, RType, Result32, SignExtend32, OpOf, R, Wrap32;
    if op == Neg {
      NegOp();
      ReadsZero(m);
      ZeroWraps();
      n := RegStep(true, 0x20, d, 0, 0, d, OpSub, m);
    } else {
      DirectWord(op, d, s);
      n := RegStep(true, Funct7For(op), s, d, Funct3For(op), d, RvOpFor(op), m);
    }
  }

  lemma ZeroWraps()
    ensures Wrap32(0) == 0
  {}

  /** What a word instruction leaves. */
  function WordValue(op: AluOp, a: u32, b: u32): u64
    requires !ZeroExtended(op)
  {
    if op == Neg then SignExtend32(Result32(OpSub, 0, a)) else SignExtend32(Result32(RvOpFor(op), a, b))
  }

  // ---------- zero-extended operations ----------

  lemma BitwiseHalf(op: Logic, a: nat, b: nat, n: nat)
    requires n > 0
    ensures Bitwise(op, a, b, n) / 2 == Bitwise(op, a / 2, b / 2, n - 1)
    ensures Bitwise(op, a, b, n) % 2 == Bit(LogicBit(op, a % 2 == 1, b % 2 == 1))
    ensures Bitwise(op, a, b, n) == 2 * Bitwise(op, a / 2, b / 2, n - 1) + Bit(LogicBit(op, a % 2 == 1, b % 2 == 1))
  {}

  lemma {:induction false} BitwiseLow(op: Logic, a: nat, b: nat, n: nat, k: nat)
    requires k <= n
    ensures Bitwise(op, a, b, n) % Pow2(k) == Bitwise(op, a % Pow2(k), b % Pow2(k), k)
  {
    if k > 0 {
      var p := Pow2(k - 1);
      assert Pow2(k) == 2 * p;
      BitwiseLow(op, a / 2, b / 2, n - 1, k - 1);
      hide Bitwise, Pow2, LogicBit;
      BitwiseHalf(op, a, b, n);
      BitwiseHalf(op, a % (2 * p), b % (2 * p), k);
      HalvesMod(Bitwise(op, a, b, n), p);
      LowHalf(a, p);
      LowHalf(b, p);
    }
  }

  lemma LowHalf(a: nat, p: nat)
    requires p > 0
    ensures (a % (2 * p)) / 2 == (a / 2) % p && (a % (2 * p)) % 2 == a % 2
  {
    HalvesMod(a, p);
  }

  /** Shifting left and right by 32 keeps the low half. */
  lemma ShiftPair(x: u64)
    ensures Result64(OpSrl, Result64(OpSll, x, 32), 32) == x % TWO_32
  {
    assert Pow2(32) == TWO_32 by { Pow2Values(); }
    hide Pow2;
    var q, r := x / TWO_32, x % TWO_32;
    ModUnique(x * TWO_32, TWO_64, q, r * TWO_32);
    assert Wrap64(x * TWO_32) == r * TWO_32;
    assert Quotient(r * TWO_32, TWO_32) == r;
  }

  lemma BeforeLow(op: AluOp, a: u64, b: u64)
    requires ZeroExtended(op)
    ensures RvValue(op, a, b) % TWO_32 == EvalAlu32(op, Wrap32(a), Wrap32(b))
  {
    Pow2Values();
    if op != Mov {
      BitwiseLow(if op == Or then LOr else if op == And then LAnd else LXor, a, b, 64, 32);
    }
  }

  lemma ZeroExtendStep(d: bv8, m: Rv) returns (n: Rv)
    requires 0 < d < 32
    ensures Straight(ZeroExtend(d), m, n) && SetsReg(m, n, d, R(m, d) % TWO_32)
  {
    hide Straight, SetsReg, ShiftForm, Result64, AsU32, R;
    var q := ShiftStep(0x1013, d, d, 32, OpSll, m);
    SetsValue(m, q, d, Result64(OpSll, R(m, d), 32));
    n := ShiftStep(0x5013, d, d, 32, OpSrl, q);
    StraightAppend([Slli(d, d, 32)], [Srli(d, d, 32)], m, q, n);
    assert [Slli(d, d, 32)] + [Srli(d, d, 32)] == ZeroExtend(d);
    ShiftPair(R(m, d));
    SetsTwice(m, q, n, d, Result64(OpSll, R(m, d), 32), R(m, d) % TWO_32);
  }

  lemma ZeroExtendedNode(op: AluOp, d: bv8, s: bv8, m: Rv) returns (n: Rv)
    requires 0 < d < 32 && IsReg(s) && ZeroExtended(op)
    ensures Straight(RvReg32(op, d, s), m, n)
    ensures SetsReg(m, n, d, EvalAlu32(op, Wrap32(R(m, d)), Wrap32(R(m, s))))
  {
    hide Straight, SetsReg, RType, IType, R, RvValue, ZeroExtend, EvalAlu32, Wrap32;
    var v := RvValue(op, R(m, d), R(m, s));
    var q := RegNode64(op, d, s, m);
    SetsValue(m, q, d, v);
    n := ZeroExtendStep(d, q);
    StraightAppend([RvReg64(op, d, s)], ZeroExtend(d), m, q, n);
    BeforeLow(op, R(m, d), R(m, s));
    SetsTwice(m, q, n, d, v, v % TWO_32);
  }

  /** What a 32-bit node leaves. */
  function Value32(op: AluOp, a: u32, b: u32): u64 {
    if ZeroExtended(op) then EvalAlu32(op, a, b) else WordValue(op, a, b)
  }

  lemma RegNode32(op: AluOp, d: bv8, s: bv8, m: Rv) returns (n: Rv)
    requires 0 < d < 32 && IsReg(s)
    ensures Straight(RvReg32(op, d, s), m, n) && SetsReg(m, n, d, Value32(op, Wrap32(R(m, d)), Wrap32(R(m, s))))
  {
    hide Straight, SetsReg, RvReg32, R, EvalAlu32, Wrap32, WordValue;
    if ZeroExtended(op) {
      n := ZeroExtendedNode(op, d, s, m);
    } else {
      n := WordStepNode(op, d, s, m);
    }
  }

  // ---------- operands ----------

  /** The operand as the machine gets it: any immediate goes through s7. */
  function MachineOperand32(op: AluOp, src: Operand, m: Rv): u32 {
    match src
    case OpReg(r) => Wrap32(R(m, r.n))
    case OpImm(v) => Wrap32(if op == Neg then Wrap64(v) else Left(S7, Wrap64(v)))
  }

  lemma NegIgnores32(a: u32, b: u32, c: u32)
    ensures Value32(Neg, a, b) == Value32(Neg, a, c)
  {}

  lemma ScratchNode32(op: AluOp, d: bv8, v: i64, m: Rv) returns (n: Rv)
    requires IsProgramReg(d)
    ensures Straight(RvLoadImm(S7, Wrap64(v)) + RvReg32(op, d, S7), m, n)
    ensures OnlyChanged(m, n, d) && R(n, d) == Value32(op, Wrap32(R(m, d)), Wrap32(Left(S7, Wrap64(v))))
  {
    hide Straight, SetsReg, OnlyChanged, Value32, RvLoadImm, RvReg32, R, Left, Loads, Wrap32, Wrap64;
    var q := LoadValue(S7, Wrap64(v), m);
    n := RegNode32(op, d, S7, q);
    ThroughScratch(m, q, n, d, Value32(op, Wrap32(R(q, d)), Wrap32(R(q, S7))));
    StraightAppend(RvLoadImm(S7, Wrap64(v)), RvReg32(op, d, S7), m, q, n);
  }

  /** Every 32-bit operation on every operand: what is left in the destination, and that nothing else
      changed but s7. */
  lemma AluNode32(op: AluOp, dst: PhysReg, src: Operand, m: Rv) returns (n: Rv)
    requires IsProgramReg(dst.n) && ProgramOperand(src)
    ensures Straight(RvAlu32(op, dst, src), m, n) && OnlyChanged(m, n, dst.n)
    ensures R(n, dst.n) == Value32(op, Wrap32(R(m, dst.n)), MachineOperand32(op, src, m))
  {
    hide Straight, SetsReg, OnlyChanged, Value32, RvLoadImm, RvReg32, R, Left, Wrap32, Wrap64;
    var d := dst.n;
    match src
    case OpReg(r) =>
      n := RegNode32(op, d, r.n, m);
      SetsOnly(m, n, d, Value32(op, Wrap32(R(m, d)), Wrap32(R(m, r.n))));
    case OpImm(v) =>
      if op == Neg {
        n := RegNode32(Neg, d, d, m);
        SetsOnly(m, n, d, Value32(Neg, Wrap32(R(m, d)), Wrap32(R(m, d))));
        NegIgnores32(Wrap32(R(m, d)), Wrap32(R(m, d)), Wrap32(Wrap64(v)));
      } else {
        n := ScratchNode32(op, d, v, m);
      }
  }

  lemma WrapSmall(v: int)
    requires -TWO_31 <= v < TWO_31
    ensures Wrap32(Wrap64(v)) == if v < 0 then v + TWO_32 else v
  {
    if v < 0 {
      ModUnique(v, TWO_64, -1, v + TWO_64);
      ModUnique(v + TWO_64, TWO_32, TWO_32 - 1, v + TWO_32);
    } else {
      ModUnique(v, TWO_64, 0, v);
      ModUnique(v, TWO_32, 0, v);
    }
  }

  /** The low half of an immediate of 32 bits comes out right exactly when the whole of it does. */
  lemma LowExact(v: i64)
    requires Fits32(v)
    ensures Wrap32(Left(S7, Wrap64(v))) == Wrap32(Wrap64(v)) <==> LoadsExactly(v)
  {
    SignedBack(v);
    Left32Exact(v);
    hide Wrap64, Wrap32;
    if !LoadsExactly(v) {
      Hi20Fits(v);
      var w := Hi20(v) - Hi20(v) % 4096 + Lo12(v);
      assert Left(S7, Wrap64(v)) == Wrap64(w);
      WrapSmall(w);
      WrapSmall(v);
    }
  }

  // ---------- when they agree ----------

  /** The interpreter's result is below 2 to the 31, by the operands. */
  predicate StaysBelow(op: AluOp, a: u32, b: u32)
    requires !ZeroExtended(op)
  {
    match op
    case Add => a + b < TWO_31 || TWO_32 <= a + b < TWO_32 + TWO_31
    case Sub => if b <= a then a - b < TWO_31 else b - a > TWO_31
    case Mul => a * b % TWO_32 < TWO_31
    case Div => b != 1 || a < TWO_31
    case Mod => a < TWO_31 || 0 < b <= a
    case Lsh => a * Pow2(b % 32) % TWO_32 < TWO_31
    case Rsh => b % 32 != 0 || a < TWO_31
    case Arsh => a < TWO_31
    case Neg => a == 0 || a > TWO_31
  }

  lemma SumBelow(a: u32, b: u32)
    ensures EvalAlu32(Add, a, b) < TWO_31 <==> StaysBelow(Add, a, b)
    ensures EvalAlu32(Sub, a, b) < TWO_31 <==> StaysBelow(Sub, a, b)
  {
    if a + b < TWO_32 {
      ModUnique(a + b, TWO_32, 0, a + b);
    } else {
      ModUnique(a + b, TWO_32, 1, a + b - TWO_32);
    }
    if b <= a {
      ModUnique(a - b, TWO_32, 0, a - b);
    } else {
      ModUnique(a - b, TWO_32, -1, a - b + TWO_32);
    }
  }

  /** What a division leaves is at most half, unless the divisor is 1. */
  lemma QuotientBelow(a: nat, b: nat)
    requires b > 0
    ensures Quotient(a, b) <= a && (b > 1 ==> 2 * Quotient(a, b) <= a) && (b == 1 ==> Quotient(a, b) == a)
  {
    if b == 1 {
      ModUnique(a, 1, a, 0);
    } else {
      TwiceBelow(a / b, b, a % b, a);
    }
  }

  lemma TwiceBelow(q: nat, b: nat, r: nat, a: nat)
    requires b > 1 && a == q * b + r
    ensures 2 * q <= a
  {
    assert q * b >= q * 2;
  }

  lemma DivBelow(a: u32, b: u32)
    ensures EvalAlu32(Div, a, b) < TWO_31 <==> StaysBelow(Div, a, b)
  {
    if b > 0 {
      QuotientBelow(a, b);
    }
    hide Quotient;
  }

  lemma ModBelow(a: u32, b: u32)
    ensures EvalAlu32(Mod, a, b) < TWO_31 <==> StaysBelow(Mod, a, b)
  {
    if b > a {
      ModUnique(a, b, 0, a);
    } else if b > TWO_31 {
      ModUnique(a, b, 1, a - b);
    } else if b > 0 {
      assert 0 <= a % b < b;
      QuotientBelow(a, b);
    }
  }

  lemma ShiftDivisor(s: nat)
    ensures Pow2(s) == 1 <==> s == 0
  {}

  lemma RightBelow(a: u32, b: u32)
    ensures EvalAlu32(Rsh, a, b) < TWO_31 <==> StaysBelow(Rsh, a, b)
  {
    ShiftDivisor(b % 32);
    QuotientBelow(a, Pow2(b % 32));
    hide Quotient, Pow2;
  }

  lemma ArithmeticBelow(a: u32, b: u32)
    ensures EvalAlu32(Arsh, a, b) < TWO_31 <==> StaysBelow(Arsh, a, b)
  {
    FloorBounds(AsI32(a), Pow2(b % 32));
    var f := FloorDiv(AsI32(a), Pow2(b % 32));
    hide FloorDiv, Pow2;
    if f < 0 {
      ModUnique(f, TWO_32, -1, f + TWO_32);
    } else {
      ModUnique(f, TWO_32, 0, f);
    }
  }

  lemma Grows(q: nat, p: nat)
    requires p > 0
    ensures q * p >= q
  {}

  lemma OneMore(k: nat, p: nat)
    requires k > 0
    ensures k * p == (k - 1) * p + p
  {}

  lemma Negated(k: int, p: int)
    ensures (0 - k) * p == 0 - k * p
  {}

  lemma FloorParts(x: int, p: int, q: int, r: int)
    requires p > 0 && x == q * p + r && 0 <= r < p
    ensures if x < 0 then x <= q < 0 else 0 <= q <= x
  {
    if q >= 0 {
      Grows(q, p);
    } else {
      var k := 0 - q;
      Negated(k, p);
      OneMore(k, p);
      Grows(k - 1, p);
      var below := (k - 1) * p;
      assert x == 0 - below - p + r && below >= k - 1;
    }
  }

  lemma FloorBounds(x: int, p: int)
    requires p > 0 && -TWO_31 <= x < TWO_31
    ensures if x < 0 then -TWO_31 <= FloorDiv(x, p) < 0 else 0 <= FloorDiv(x, p) < TWO_31
  {
    FloorParts(x, p, x / p, x % p);
  }

  lemma NegBelow(a: u32, b: u32)
    ensures EvalAlu32(Neg, a, b) < TWO_31 <==> StaysBelow(Neg, a, b)
  {
    if a == 0 || a >= TWO_31 {
      ModUnique(-AsI32(a), TWO_32, 0, -AsI32(a));
    } else {
      ModUnique(-AsI32(a), TWO_32, -1, TWO_32 - a);
    }
  }

  lemma BelowExact(op: AluOp, a: u32, b: u32)
    requires !ZeroExtended(op)
    ensures EvalAlu32(op, a, b) < TWO_31 <==> StaysBelow(op, a, b)
  {
    match op
    case Div => DivBelow(a, b);
    case Mod => ModBelow(a, b);
    case Rsh => RightBelow(a, b);
    case Arsh => ArithmeticBelow(a, b);
    case Neg => NegBelow(a, b);
    case Add => SumBelow(a, b);
    case Sub => SumBelow(a, b);
    case _ => hide Pow2;
  }

  /** Operations that stay below whatever is in the register. */
  predicate AlwaysBelow(op: AluOp, b: u32) {
    (op == Rsh && b % 32 != 0) || (op == Div && b > 1) || (op == Mod && 0 < b <= TWO_31)
  }

  lemma AlwaysStays(op: AluOp, a: u32, b: u32)
    requires AlwaysBelow(op, b)
    ensures StaysBelow(op, a, b) && !ZeroExtended(op) && !(op == Div && b == 0)
  {}

  /** The operation does on these operands what the interpreter does: it zero-extends, or its result
      is below 2 to the 31 and it does not divide by zero. */
  predicate Agrees32(op: AluOp, a: u32, b: u32) {
    ZeroExtended(op) || (StaysBelow(op, a, b) && !(op == Div && b == 0))
  }

  lemma ValueExact(op: AluOp, a: u32, b: u32)
    ensures Value32(op, a, b) == EvalAlu32(op, a, b) <==> Agrees32(op, a, b)
  {
    hide SignExtend32, Result32, EvalAlu32, StaysBelow;
    if !ZeroExtended(op) {
      BelowExact(op, a, b);
      if op == Neg {
        NegExact(a, b);
      } else {
        WordExact(op, a, b);
      }
    }
  }

  /** Immediate operands that the machine gets right, and no other. */
  predicate ExactOperand32(op: AluOp, src: Operand) {
    src.OpImm? && op != Neg ==> Wrap32(Left(S7, Wrap64(src.imm))) == Wrap32(Wrap64(src.imm))
  }

  /** With an operand whose low half the machine gets right, a 32-bit node does what the interpreter
      does exactly if the operation agrees on the operands. */
  lemma AluNode32Exact(op: AluOp, dst: PhysReg, src: Operand, m: Rv) returns (n: Rv)
    requires IsProgramReg(dst.n) && ProgramOperand(src)
    ensures Straight(RvAlu32(op, dst, src), m, n) && OnlyChanged(m, n, dst.n)
    ensures R(n, dst.n) == Value32(op, Wrap32(R(m, dst.n)), MachineOperand32(op, src, m))
    ensures ExactOperand32(op, src) ==>
              var a, b := Wrap32(R(m, dst.n)), Wrap32(OperandR(src, m));
              R(n, dst.n) == EvalAlu32(op, a, b) <==> Agrees32(op, a, b)
  {
    hide Straight, OnlyChanged, RvAlu32, R, Value32, EvalAlu32, Wrap32, Agrees32, Left;
    n := AluNode32(op, dst, src, m);
    ValueExact(op, Wrap32(R(m, dst.n)), Wrap32(OperandR(src, m)));
  }
}
