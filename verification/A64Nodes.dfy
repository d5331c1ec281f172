/** Arithmetic nodes, all operations and operand forms: the emitted words leave the interpreter's
    result in the destination and change nothing else but the scratch registers. */
module A64Nodes {
  import opened Isa
  import opened Bits
  import opened Casts
  import opened Interpreter
  import opened Ir
  import opened A64Encode
  import opened A64Machine
  import opened A64Decode
  import opened A64Words
  import opened A64Alu
  import opened A64Imm
  import opened A64Shift

  /** The machine's value of an operand. */
  function OperandX(o: Operand, m: A64): u64 {
    match o
    case OpReg(r) => X(m, r.n)
    case OpImm(v) => Wrap64(v)
  }

  predicate ProgramOperand(o: Operand) { o.OpReg? ==> IsProgramReg(o.reg.n) }

  // ---------- 12-bit immediates ----------

  function Imm12Base(is64: bool, sub: bool): bv32 {
    if is64 then (if sub then 0xD1000000 else 0x91000000) else if sub then 0x51000000 else 0x11000000
  }

  lemma DecodeAddSub(is64: bool, sub: bool, d: bv8, imm12: bv16)
    requires d < 31
    ensures Decode(Imm12Form(Imm12Base(is64, sub), d, d, imm12)) == AddSubImm(is64, sub, d, d, (imm12 as bv32) & 0xFFF)
  {
    hide Decode, Imm12Form;
    DecodeImm12(Imm12Base(is64, sub), d, d, imm12);
  }

  function AddSubValue(is64: bool, sub: bool, a: u64, v: int): u64 {
    var x := if is64 then a else Wrap32(a);
    (if sub then x - v else x + v) % Modulus(is64)
  }

  lemma ExecuteAddSub(is64: bool, sub: bool, d: bv8, imm12: bv32, m: A64, v: int)
    requires d < 31 && FromWord(imm12, 12) == v
    ensures Execute(m, AddSubImm(is64, sub, d, d, imm12))
         == Go(SetX(m, d, AddSubValue(is64, sub, X(m, d), v)).(pc := m.pc + 1))
  {
    hide FromWord, X, Modulus, Wrap32;
  }

  lemma AddSubStep(is64: bool, sub: bool, d: bv8, v: i64, m: A64) returns (n: A64)
    requires d < 31 && FitsImm12(v)
    ensures Straight([Imm12Form(Imm12Base(is64, sub), d, d, AsU16(v))], m, n)
    ensures SetsReg(m, n, d, AddSubValue(is64, sub, X(m, d), v))
  {
    Field12(v);
    hide *;
    DecodeAddSub(is64, sub, d, AsU16(v));
    ExecuteAddSub(is64, sub, d, (AsU16(v) as bv32) & 0xFFF, m, v);
    n := SetX(m, d, AddSubValue(is64, sub, X(m, d), v)).(pc := m.pc + 1);
    SetXSets(m, d, AddSubValue(is64, sub, X(m, d), v));
    StraightOne(Imm12Form(Imm12Base(is64, sub), d, d, AsU16(v)), m, n);
  }

  lemma AddSubValue64(op: AluOp, a: u64, v: i64)
    requires FitsImm12(v) && (op == Add || op == Sub)
    ensures AddSubValue(true, op == Sub, a, v) == EvalAlu64(op, a, Wrap64(v))
  {}

  lemma AddSubValue32(op: AluOp, a: u64, v: i64)
    requires FitsImm12(v) && (op == Add || op == Sub)
    ensures AddSubValue(false, op == Sub, a, v) == EvalAlu32(op, Wrap32(a), Wrap32(Wrap64(v)))
  {
    ModUnique(v, TWO_64, 0, v);
    ModUnique(v, TWO_32, 0, v);
    hide Wrap64;
  }

  // ---------- through the scratch register ----------

  lemma AfterLoad(m: A64, q: A64, n: A64, d: bv8, o: A64)
    requires IsProgramReg(d) && Builds(m, q, 9, X(q, 9)) && OnlyChanged(q, n, d)
    ensures OnlyChanged(m, n, d) && X(q, d) == X(m, d)
  {}

  lemma ScratchLoaded(m: A64, q: A64, v: u64, d: bv8)
    requires IsProgramReg(d) && Builds(m, q, 9, v)
    ensures Builds(m, q, 9, X(q, 9)) && X(q, 9) == v && X(q, d) == X(m, d)
  {}

  lemma ViaScratch64(op: AluOp, dst: PhysReg, v: i64, m: A64) returns (n: A64)
    requires IsProgramReg(dst.n)
    ensures Straight(LoadImmWords(TMP, Wrap64(v)) + RegWords64(op, dst.n, TMP.n), m, n)
    ensures OnlyChanged(m, n, dst.n) && X(n, dst.n) == EvalAlu64(op, X(m, dst.n), Wrap64(v))
  {
    assert TMP.n == 9;
    hide *;
    var q := LoadImm(TMP, Wrap64(v), m);
    ScratchLoaded(m, q, Wrap64(v), dst.n);
    n := RegNode64(op, dst.n, TMP.n, q);
    AfterLoad(m, q, n, dst.n, n);
    StraightAppend(LoadImmWords(TMP, Wrap64(v)), RegWords64(op, dst.n, TMP.n), m, q, n);
  }

  lemma ViaScratch32(op: AluOp, dst: PhysReg, v: i64, m: A64) returns (n: A64)
    requires IsProgramReg(dst.n)
    ensures Straight(LoadImmWords(TMP, Wrap64(v)) + RegWords32(op, dst.n, TMP.n), m, n)
    ensures OnlyChanged(m, n, dst.n) && X(n, dst.n) == EvalAlu32(op, Wrap32(X(m, dst.n)), Wrap32(Wrap64(v)))
  {
    assert TMP.n == 9;
    hide *;
    var q := LoadImm(TMP, Wrap64(v), m);
    ScratchLoaded(m, q, Wrap64(v), dst.n);
    n := RegNode32(op, dst.n, TMP.n, q);
    AfterLoad(m, q, n, dst.n, n);
    StraightAppend(LoadImmWords(TMP, Wrap64(v)), RegWords32(op, dst.n, TMP.n), m, q, n);
  }

  lemma BuildsOnly(m: A64, n: A64, d: bv8, v: u64)
    requires Builds(m, n, d, v)
    ensures OnlyChanged(m, n, d) && X(n, d) == v
  {}

  // ---------- 64-bit ----------

  lemma ShiftAmount(v: i64)
    ensures 0 <= v % 64 < 64 && Wrap64(v) % 64 == v % 64
  {}

  lemma ShiftByAmount(op: AluOp, a: u64, v: i64)
    requires IsShift(op)
    ensures EvalAlu64(op, a, v % 64) == EvalAlu64(op, a, Wrap64(v))
  {
    ShiftAmount(v);
    hide Pow2;
    assert v % 64 % 64 == v % 64;
  }

  lemma ShiftNode(op: AluOp, dst: PhysReg, v: i64, m: A64) returns (n: A64)
    requires IsProgramReg(dst.n) && IsShift(op)
    ensures Straight([ShiftWordFor(op, dst.n, AsU8(v % 64))], m, n)
    ensures OnlyChanged(m, n, dst.n) && X(n, dst.n) == EvalAlu64(op, X(m, dst.n), Wrap64(v))
  {
    hide *;
    ShiftAmount(v);
    ProgramRegBelow(dst.n);
    n := ShiftStep(op, dst.n, v % 64, m);
    ShiftByAmount(op, X(m, dst.n), v);
    SetsOnly(m, n, dst.n, EvalAlu64(op, X(m, dst.n), Wrap64(v)));
  }

  lemma AddSubNode64(op: AluOp, dst: PhysReg, v: i64, m: A64) returns (n: A64)
    requires IsProgramReg(dst.n) && FitsImm12(v) && (op == Add || op == Sub)
    ensures Straight([Imm12Form(Imm12Base(true, op == Sub), dst.n, dst.n, AsU16(v))], m, n)
    ensures OnlyChanged(m, n, dst.n) && X(n, dst.n) == EvalAlu64(op, X(m, dst.n), Wrap64(v))
  {
    hide AsU16, X, OnlyChanged, SetsReg, Straight, EvalAlu64, FitsImm12, Imm12Base, Imm12Form, AddSubValue;
    n := AddSubStep(true, op == Sub, dst.n, v, m);
    AddSubValue64(op, X(m, dst.n), v);
    SetsOnly(m, n, dst.n, EvalAlu64(op, X(m, dst.n), Wrap64(v)));
  }

  lemma MovNode64(dst: PhysReg, v: i64, m: A64) returns (n: A64)
    requires IsProgramReg(dst.n)
    ensures Straight(LoadImmWords(dst, Wrap64(v)), m, n)
    ensures OnlyChanged(m, n, dst.n) && X(n, dst.n) == EvalAlu64(Mov, X(m, dst.n), Wrap64(v))
  {
    hide X, OnlyChanged, Builds, Straight, LoadImmWords;
    n := LoadImm(dst, Wrap64(v), m);
    BuildsOnly(m, n, dst.n, Wrap64(v));
  }

  /** Every 64-bit operation, register and immediate operands alike. */
  lemma AluNode64(op: AluOp, dst: PhysReg, src: Operand, m: A64) returns (n: A64)
    requires IsProgramReg(dst.n) && ProgramOperand(src)
    ensures Straight(AluWords64(op, dst, src), m, n)
    ensures OnlyChanged(m, n, dst.n) && X(n, dst.n) == EvalAlu64(op, X(m, dst.n), OperandX(src, m))
  {
    hide AsU8, AsU16, X, OnlyChanged, Straight, EvalAlu64, LoadImmWords, RegWords64, Imm12Form, LslXImm,
         LsrXImm, AsrXImm;
    match src
    case OpReg(r) => n := RegNode64(op, dst.n, r.n, m);
    case OpImm(v) =>
      if op == Neg {
        n := RegNode64(Neg, dst.n, dst.n, m);
        NegIgnores64(X(m, dst.n), X(m, dst.n), Wrap64(v));
      } else if (op == Add || op == Sub) && FitsImm12(v) {
        n := AddSubNode64(op, dst, v, m);
      } else if op == Mov {
        n := MovNode64(dst, v, m);
      } else if IsShift(op) {
        n := ShiftNode(op, dst, v, m);
      } else {
        n := ViaScratch64(op, dst, v, m);
      }
  }

  lemma NegIgnores64(a: u64, b: u64, c: u64)
    ensures EvalAlu64(Neg, a, b) == EvalAlu64(Neg, a, c)
  {}

  lemma NegIgnores32(a: u32, b: u32, c: u32)
    ensures EvalAlu32(Neg, a, b) == EvalAlu32(Neg, a, c)
  {}

  // ---------- 32-bit ----------

  lemma AddSubNode32(op: AluOp, dst: PhysReg, v: i64, m: A64) returns (n: A64)
    requires IsProgramReg(dst.n) && FitsImm12(v) && (op == Add || op == Sub)
    ensures Straight([Imm12Form(Imm12Base(false, op == Sub), dst.n, dst.n, AsU16(v))], m, n)
    ensures OnlyChanged(m, n, dst.n) && X(n, dst.n) == EvalAlu32(op, Wrap32(X(m, dst.n)), Wrap32(Wrap64(v)))
  {
    hide AsU16, X, OnlyChanged, SetsReg, Straight, EvalAlu32, FitsImm12, Imm12Base, Imm12Form, AddSubValue;
    n := AddSubStep(false, op == Sub, dst.n, v, m);
    AddSubValue32(op, X(m, dst.n), v);
    SetsOnly(m, n, dst.n, EvalAlu32(op, Wrap32(X(m, dst.n)), Wrap32(Wrap64(v))));
  }

  lemma DecodeWideW(keep: bool, d: bv8, imm16: bv16, hw: bv32)
    requires d < 31 && hw < 2
    ensures Decode(MovWide(if keep then 0x72800000 else 0x52800000, d, imm16, hw)) == MoveWide(false, keep, d,
            imm16 as bv32, hw)
  {
    hide Decode, MovWide;
    DecodeMoveWide(if keep then 0x72800000 else 0x52800000, d, imm16, hw);
  }

  lemma FieldHwW(k: nat)
    requires k < 2
    ensures FromWord((AsU8(k) as bv32) & 1, 2) == k
  {
    OneBit(k);
    WordOf8(k);
    assert k % TWO_8 == k;
    hide AsU8, ToWord, FromWord;
  }

  lemma OneBit(k: nat)
    requires k < 2
    ensures FromWord(ToWord(k) & 1, 2) == k
  {
    if k == 0 {
      assert ToWord(0) & 1 == 0;
      assert FromWord(0, 2) == 0;
    } else {
      assert ToWord(1) & 1 == 1;
      assert FromWord(1, 2) == 1;
    }
  }

  lemma ExecuteWideW(keep: bool, d: bv8, imm16: bv32, hw: bv32, m: A64, x: nat, k: nat)
    requires d < 31 && FromWord(imm16, 16) == x && FromWord(hw, 2) == k
    ensures Execute(m, MoveWide(false, keep, d, imm16, hw))
         == Go(SetX(m, d, MoveWideResult(keep, Wrap32(X(m, d)), x, k) % TWO_32).(pc := m.pc + 1))
  {
    hide FromWord, MoveWideResult, X;
  }

  lemma WideExecutesW(keep: bool, d: bv8, v: int, k: nat, m: A64, value: u64)
    requires d < 31 && k < 2 && value == MoveWideResult(keep, Wrap32(X(m, d)), v % TWO_16, k) % TWO_32
    ensures Execute(m, Decode(MovWide(if keep then 0x72800000 else 0x52800000, d, AsU16(v), (AsU8(k) as bv32) & 1)))
         == Go(SetX(m, d, value).(pc := m.pc + 1))
  {
    hide AsU16, AsU8, Execute, Decode, MovWide, FromWord, MoveWideResult, X, SetX;
    Field16(v);
    FieldHwW(k);
    DecodeWideW(keep, d, AsU16(v), (AsU8(k) as bv32) & 1);
    ExecuteWideW(keep, d, AsU16(v) as bv32, (AsU8(k) as bv32) & 1, m, v % TWO_16, k);
  }

  lemma WideStepW(keep: bool, d: bv8, v: int, k: nat, m: A64) returns (n: A64)
    requires d < 31 && k < 2
    ensures Straight([MovWide(if keep then 0x72800000 else 0x52800000, d, AsU16(v), (AsU8(k) as bv32) & 1)], m, n)
    ensures SetsReg(m, n, d, MoveWideResult(keep, Wrap32(X(m, d)), v % TWO_16, k) % TWO_32)
  {
    var value := MoveWideResult(keep, Wrap32(X(m, d)), v % TWO_16, k) % TWO_32;
    WideExecutesW(keep, d, v, k, m, value);
    hide *;
    n := SetX(m, d, value).(pc := m.pc + 1);
    SetXSets(m, d, value);
    StraightOne(MovWide(if keep then 0x72800000 else 0x52800000, d, AsU16(v), (AsU8(k) as bv32) & 1), m, n);
  }

  lemma LowValue(v: i64, old': u64)
    ensures MoveWideResult(false, old', v % TWO_16, 0) % TWO_32 == v % TWO_16
    ensures Wrap64(v) <= 0xFFFF ==> v % TWO_16 == Wrap32(Wrap64(v))
  {
    assert Pow2(16 * 0) == 1;
  }

  lemma InsertHigh(low: u64, high: nat)
    requires low < TWO_16 && high < TWO_16
    ensures MoveWideResult(true, low, high, 1) == low + high * TWO_16
  {
    assert Pow2(16 * 1) == TWO_16 by { Pow2Values(); }
    assert low / TWO_16 == 0;
  }

  lemma TwoChunks(w: u64)
    ensures w % TWO_16 + w / TWO_16 % TWO_16 * TWO_16 == w % TWO_32
  {}

  lemma SameLow(v: i64)
    ensures Wrap64(v) % TWO_16 == v % TWO_16
  {}

  lemma SmallMod32(w: u32)
    ensures w % TWO_32 == w
  {}

  lemma HighWord(w: u64)
    ensures MoveWideResult(true, w % TWO_16, w / TWO_16 % TWO_16, 1) % TWO_32 == Wrap32(w)
  {
    InsertHigh(w % TWO_16, w / TWO_16 % TWO_16);
    TwoChunks(w);
    SmallMod32(Wrap32(w));
    hide MoveWideResult;
  }

  lemma HighValue(v: i64)
    ensures MoveWideResult(true, v % TWO_16, Wrap64(v) / TWO_16 % TWO_16, 1) % TWO_32 == Wrap32(Wrap64(v))
  {
    hide MoveWideResult, Wrap64, Wrap32;
    SameLow(v);
    HighWord(Wrap64(v));
  }

  lemma MovNode32(dst: PhysReg, v: i64, m: A64) returns (n: A64)
    requires IsProgramReg(dst.n)
    ensures Straight(AluWords32(Mov, dst, OpImm(v)), m, n)
    ensures OnlyChanged(m, n, dst.n) && X(n, dst.n) == EvalAlu32(Mov, Wrap32(X(m, dst.n)), Wrap32(Wrap64(v)))
  {
    hide AsU16, AsU8, X, OnlyChanged, SetsReg, Builds, Straight, MovWide, MoveWideResult, LoadImmWords, RegWords32;
    var d := dst.n;
    var q := WideStepW(false, d, v, 0, m);
    LowValue(v, Wrap32(X(m, d)));
    ZeroHw();
    if Wrap64(v) > 0xFFFF {
      SetsValue(m, q, d, v % TWO_16);
      n := WideStepW(true, d, Wrap64(v) / TWO_16, 1, q);
      HighValue(v);
      StraightAppend([MovzW(d, AsU16(v), 0)], [MovkW(d, AsU16(Wrap64(v) / TWO_16), 1)], m, q, n);
      TwiceSet(m, q, n, d, v % TWO_16, Wrap32(Wrap64(v)));
    } else {
      n := q;
      assert [MovzW(d, AsU16(v), 0)] + [] == [MovzW(d, AsU16(v), 0)];
      SetsOnly(m, n, d, v % TWO_16);
    }
  }

  lemma ZeroHw()
    ensures AsU8(0) == 0 && AsU8(1) == 1
  {
    assert ToWord(0) == 0 && ToWord(1) == 1;
  }

  lemma SetsValue(m: A64, n: A64, d: bv8, v: u64)
    requires SetsReg(m, n, d, v)
    ensures X(n, d) == v
  {}

  lemma TwiceSet(m: A64, q: A64, n: A64, d: bv8, v: u64, w: u64)
    requires SetsReg(m, q, d, v) && SetsReg(q, n, d, w)
    ensures OnlyChanged(m, n, d) && X(n, d) == w
  {}

  /** Every 32-bit operation; the result is zero-extended. */
  lemma AluNode32(op: AluOp, dst: PhysReg, src: Operand, m: A64) returns (n: A64)
    requires IsProgramReg(dst.n) && ProgramOperand(src)
    ensures Straight(AluWords32(op, dst, src), m, n)
    ensures OnlyChanged(m, n, dst.n)
    ensures X(n, dst.n) == EvalAlu32(op, Wrap32(X(m, dst.n)), Wrap32(OperandX(src, m)))
  {
    hide AsU8, AsU16, X, OnlyChanged, Straight, EvalAlu32, LoadImmWords, RegWords32, Imm12Form, MovWide;
    match src
    case OpReg(r) => n := RegNode32(op, dst.n, r.n, m);
    case OpImm(v) =>
      if op == Neg {
        n := RegNode32(Neg, dst.n, dst.n, m);
        NegIgnores32(Wrap32(X(m, dst.n)), Wrap32(X(m, dst.n)), Wrap32(Wrap64(v)));
      } else if op == Mov {
        n := MovNode32(dst, v, m);
      } else if (op == Add || op == Sub) && FitsImm12(v) {
        n := AddSubNode32(op, dst, v, m);
      } else {
        n := ViaScratch32(op, dst, v, m);
      }
  }

  /** A 64-bit constant. */
  lemma LoadImmNode(dst: PhysReg, imm: u64, m: A64) returns (n: A64)
    requires IsProgramReg(dst.n)
    ensures Straight(LoadImmWords(dst, imm), m, n) && OnlyChanged(m, n, dst.n) && X(n, dst.n) == imm
  {
    hide *;
    assert dst.n < 31 by { ProgramRegBelow(dst.n); }
    n := LoadImm(dst, imm, m);
    BuildsOnly(m, n, dst.n, imm);
  }

  lemma ProgramRegBelow(r: bv8)
    requires IsProgramReg(r)
    ensures r < 31 && r != 9 && r != 12
  {}
}
