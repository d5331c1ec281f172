/** Compare-and-branch: the flags of the emitted comparison, under the chosen condition code, decide
    as the interpreter does — and exactly when they do not. */
module A64Compare {
  import opened Isa
  import opened Bits
  import opened Interpreter
  import opened Ir
  import opened A64Encode
  import opened A64Machine
  import opened A64Decode
  import opened A64Words
  import opened A64Alu
  import opened A64Imm
  import opened A64Nodes

  // ---------- flags ----------

  predicate Unsigned(op: JmpOp) { op in {Jeq, Jne, Jgt, Jge, Jlt, Jle} }

  predicate Signed(op: JmpOp) { op in {Jsgt, Jsge, Jslt, Jsle} }

  /** Complementing a word negates its signed value, less one. */
  lemma SIntComplement(is64: bool, y: u64)
    requires y < Modulus(is64)
    ensures SInt(is64, Modulus(is64) - 1 - y) == -SInt(is64, y) - 1
  {}

  /** Z, C and N == V after comparing x with y. */
  lemma FlagsMean(is64: bool, x: u64, y: u64)
    requires x < Modulus(is64) && y < Modulus(is64)
    ensures var f := CompareFlags(is64, x, y);
            && f.z == (x == y) && f.c == (x >= y)
            && (f.n == f.v) == (SInt(is64, x) >= SInt(is64, y))
  {
    SIntComplement(is64, y);
    var m := Modulus(is64);
    assert m % 2 == 0;
    if x >= y {
      ModUnique(x + (m - 1 - y) + 1, m, 1, x - y);
    } else {
      ModUnique(x + (m - 1 - y) + 1, m, 0, x - y + m);
    }
  }

  lemma ConditionMeans(op: JmpOp, f: Flags)
    ensures ConditionHolds(ConditionCode(op), f)
         == match op
            case Jeq => f.z
            case Jne => !f.z
            case Jset => !f.z
            case Jge => f.c
            case Jlt => !f.c
            case Jgt => f.c && !f.z
            case Jle => !f.c || f.z
            case Jsge => f.n == f.v
            case Jslt => f.n != f.v
            case Jsgt => f.n == f.v && !f.z
            case Jsle => f.n != f.v || f.z
            case Ja => true
  {}

  /** 64-bit compare-and-branch agrees with the interpreter for every operation but Jset. */
  lemma BranchAgrees64(op: JmpOp, a: u64, b: u64)
    requires op != Jset
    ensures ConditionHolds(ConditionCode(op), CompareFlags(true, a, b)) == EvalJmp(op, a, b)
  {
    FlagsMean(true, a, b);
    ConditionMeans(op, CompareFlags(true, a, b));
    hide CompareFlags, ConditionHolds, ConditionCode;
  }

  /** The 32-bit form agrees for equality and unsigned order. */
  lemma BranchAgrees32(op: JmpOp, a: u32, b: u32)
    requires Unsigned(op) || op == Ja
    ensures ConditionHolds(ConditionCode(op), CompareFlags(false, a, b)) == EvalJmp(op, a, b)
  {
    FlagsMean(false, a, b);
    ConditionMeans(op, CompareFlags(false, a, b));
    hide CompareFlags, ConditionHolds, ConditionCode;
  }

  /** Signed 32-bit conditions: the interpreter compares zero-extended operands, the machine their
      signed values; they agree exactly when the operands have the same sign bit. */
  lemma SignedBranch32(op: JmpOp, a: u32, b: u32)
    requires Signed(op)
    ensures ConditionHolds(ConditionCode(op), CompareFlags(false, a, b)) == EvalJmp(op, a, b)
       <==> (a < TWO_31 <==> b < TWO_31)
  {
    FlagsMean(false, a, b);
    ConditionMeans(op, CompareFlags(false, a, b));
    hide CompareFlags, ConditionHolds, ConditionCode;
  }

  /** Jset is emitted as a comparison for inequality: in either width it decides as the interpreter
      does exactly for equal operands that are zero and unequal operands with a common bit. */
  lemma JsetBranch(is64: bool, a: u64, b: u64)
    requires a < Modulus(is64) && b < Modulus(is64)
    ensures ConditionHolds(ConditionCode(Jset), CompareFlags(is64, a, b)) == EvalJmp(Jset, a, b)
       <==> if a == b then a == 0 else Bitwise64(LAnd, a, b) != 0
  {
    FlagsMean(is64, a, b);
    ConditionMeans(Jset, CompareFlags(is64, a, b));
    hide CompareFlags, ConditionHolds, ConditionCode, Modulus;
    if a == b {
      Pow2Values();
      AndSelf(a, 64);
    }
  }

  lemma {:induction false} AndSelf(a: nat, n: nat)
    requires a < Pow2(n)
    ensures Bitwise(LAnd, a, a, n) == a
  {
    if n > 0 {
      AndSelf(a / 2, n - 1);
    }
  }

  /** -1 < 1 holds on the machine but not in the interpreter, and `1 & 1 != 0` the other way round. */
  lemma BranchesDisagree()
    ensures ConditionHolds(ConditionCode(Jslt), CompareFlags(false, TWO_32 - 1, 1)) && !EvalJmp(Jslt, TWO_32 - 1, 1)
    ensures !ConditionHolds(ConditionCode(Jset), CompareFlags(true, 1, 1)) && EvalJmp(Jset, 1, 1)
  {
    SignedBranch32(Jslt, TWO_32 - 1, 1);
    JsetBranch(true, 1, 1);
    hide CompareFlags, ConditionHolds, ConditionCode, Bitwise64;
    assert !EvalJmp(Jslt, TWO_32 - 1, 1);
    JsetOfOne();
  }

  lemma JsetOfOne()
    ensures EvalJmp(Jset, 1, 1)
  {
    Pow2Values();
    AndSelf(1, 64);
  }

  // ---------- the words ----------

  /** Only the flags and the scratch register X9 changed. */
  ghost predicate OnlyFlags(m: A64, n: A64, f: Flags) {
    && n.sp == m.sp && n.mem == m.mem && n.flags == f
    && forall r: bv8 :: IsProgramReg(r) ==> X(n, r) == X(m, r)
  }

  function FlagsFor(c: BranchCond, m: A64): Flags {
    CompareFlags(!c.is32bit,
                 if c.is32bit then Wrap32(X(m, c.lhs.n)) else X(m, c.lhs.n),
                 if c.is32bit then Wrap32(OperandX(c.rhs, m)) else OperandX(c.rhs, m))
  }

  predicate ProgramCond(c: BranchCond) { IsProgramReg(c.lhs.n) && ProgramOperand(c.rhs) }

  function CompareWord(is64: bool, rn: bv8, rm: bv8): bv32 { if is64 then CmpX(rn, rm) else CmpW(rn, rm) }

  lemma CompareDecodes(is64: bool, rn: bv8, rm: bv8)
    requires rn < 31 && rm < 31
    ensures Decode(CompareWord(is64, rn, rm)) == Compare(is64, rn, rm)
  {
    hide CmpX, CmpW, Decode;
    DecodeCompare(is64, rn, rm);
  }

  lemma CompareExecutes(is64: bool, rn: bv8, rm: bv8, m: A64)
    ensures Execute(m, Compare(is64, rn, rm))
         == Go(m.(pc := m.pc + 1,
            flags := CompareFlags(is64, Operand64or32(m, is64, rn), Operand64or32(m, is64, rm))))
  {
    hide CompareFlags, Operand64or32;
  }

  lemma CompareStep(is64: bool, rn: bv8, rm: bv8, m: A64) returns (n: A64)
    requires rn < 31 && rm < 31
    ensures Straight([CompareWord(is64, rn, rm)], m, n)
    ensures n == m.(pc := m.pc + 1, flags := CompareFlags(is64, Operand64or32(m, is64, rn), Operand64or32(m, is64, rm)))
  {
    hide CompareWord, Decode, Execute, CompareFlags, Straight;
    CompareDecodes(is64, rn, rm);
    CompareExecutes(is64, rn, rm, m);
    n := m.(pc := m.pc + 1, flags := CompareFlags(is64, Operand64or32(m, is64, rn), Operand64or32(m, is64, rm)));
    StraightOne(CompareWord(is64, rn, rm), m, n);
  }

  lemma CompareRegisters(c: BranchCond, m: A64) returns (n: A64)
    requires ProgramCond(c) && c.rhs.OpReg?
    ensures Straight(CompareWords(c), m, n) && OnlyFlags(m, n, FlagsFor(c, m))
  {
    hide CmpX, CmpW, CompareFlags, Straight;
    n := CompareStep(!c.is32bit, c.lhs.n, c.rhs.reg.n, m);
  }

  lemma CompareImmediate(c: BranchCond, v: u64, m: A64) returns (n: A64)
    requires ProgramCond(c) && c.rhs.OpImm? && v == Wrap64(c.rhs.imm)
    ensures Straight(LoadImmWords(TMP, v) + [CompareWord(!c.is32bit, c.lhs.n, 9)], m, n)
    ensures OnlyFlags(m, n, FlagsFor(c, m))
  {
    hide CmpX, CmpW, CompareFlags, Straight, LoadImmWords, Builds, X, OnlyFlags, CompareWord;
    var q := LoadImm(TMP, v, m);
    n := CompareStep(!c.is32bit, c.lhs.n, 9, q);
    StraightAppend(LoadImmWords(TMP, v), [CompareWord(!c.is32bit, c.lhs.n, 9)], m, q, n);
    FlagsAfterLoad(c, v, m, q, n);
  }

  lemma FlagsAfterLoad(c: BranchCond, v: u64, m: A64, q: A64, n: A64)
    requires ProgramCond(c) && c.rhs.OpImm? && v == Wrap64(c.rhs.imm) && Builds(m, q, 9, v)
    requires var is64 := !c.is32bit;
             n == q.(pc := q.pc + 1,
                 flags := CompareFlags(is64, Operand64or32(q, is64, c.lhs.n), Operand64or32(q, is64, 9)))
    ensures OnlyFlags(m, n, FlagsFor(c, m))
  {
    hide CompareFlags;
  }

  /** The comparison part of a conditional branch. */
  lemma CompareNode(c: BranchCond, m: A64) returns (n: A64)
    requires ProgramCond(c)
    ensures Straight(CompareWords(c), m, n) && OnlyFlags(m, n, FlagsFor(c, m))
  {
    hide CmpX, CmpW, FlagsFor, Straight, LoadImmWords, OnlyFlags;
    if c.rhs.OpReg? {
      n := CompareRegisters(c, m);
    } else {
      n := CompareImmediate(c, Wrap64(c.rhs.imm), m);
    }
  }

  /** Branches whose machine decision is the interpreter's. */
  predicate FaithfulCond(c: BranchCond) {
    if c.is32bit then Unsigned(c.op) || c.op == Ja else c.op != Jset
  }

  /** On a machine that mirrors the IR registers the emitted test decides as the IR node does. */
  lemma DecisionAgrees(c: BranchCond, m: A64, regs: PhysRegs)
    requires FaithfulCond(c) && X(m, c.lhs.n) == Get(regs, c.lhs) && OperandX(c.rhs, m) == OperandValue(c.rhs, regs)
    ensures ConditionHolds(ConditionCode(c.op), FlagsFor(c, m)) == CondHolds(c, regs)
  {
    hide ConditionHolds, ConditionCode, CompareFlags, EvalJmp;
    var a, b := Get(regs, c.lhs), OperandValue(c.rhs, regs);
    if c.is32bit {
      BranchAgrees32(c.op, Wrap32(a), Wrap32(b));
    } else {
      BranchAgrees64(c.op, a, b);
    }
  }
}
