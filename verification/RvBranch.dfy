/** RISC-V conditional branches and jumps: they decide as the interpreter does — Jset and the
    comparisons with swapped operands included — and, once linked, land on their labels. */
module RvBranch {
  import opened Isa
  import opened Casts
  import opened Interpreter
  import opened Ir
  import opened RvEncode
  import opened RvWords
  import opened RvMachine
  import opened RvDecode
  import opened RvNodes
  import opened Emitting
  import opened Layout

  // ---------- the decision ----------

  function CondFor(op: JmpOp): RvCond {
    match op
    case Jeq => Eq
    case Jne => Ne
    case Jgt => Ltu
    case Jge => Geu
    case Jlt => Ltu
    case Jle => Geu
    case Jsgt => Lt
    case Jsge => Ge
    case Jslt => Lt
    case Jsle => Ge
    case Jset => Ne
    case Ja => Eq
  }

  /** The comparison is made with exchanged operands. */
  predicate Swapped(op: JmpOp) { op == Jgt || op == Jle || op == Jsgt || op == Jsle }

  function FirstReg(op: JmpOp, lhs: bv8, rhs: bv8): bv8 {
    if op == Jset then S7 else if Swapped(op) then rhs else lhs
  }

  function SecondReg(op: JmpOp, lhs: bv8, rhs: bv8): bv8 {
    if op == Jset then 0 else if Swapped(op) then lhs else rhs
  }

  function CondBits(c: RvCond): bv32 {
    match c
    case Eq => 0
    case Ne => 1
    case Lt => 4
    case Ge => 5
    case Ltu => 6
    case Geu => 7
  }

  lemma CondBitsDecode(c: RvCond)
    ensures CondBits(c) < 8 && CondOf(CondBits(c)) == Some(c)
  {}

  lemma BranchWordIs(op: JmpOp, lhs: bv8, rhs: bv8)
    requires op != Ja
    ensures RvBranchWord(op, lhs, rhs)
         == Btype(0, FirstReg(op, lhs, rhs), SecondReg(op, lhs, rhs), CondBits(CondFor(op)))
  {
    hide Btype;
    if op != Jset {
      assert Swapped(op) <==> op in {Jgt, Jle, Jsgt, Jsle};
    }
  }

  /** A comparison, possibly with exchanged operands, decides as the interpreter does. */
  lemma DirectDecision(op: JmpOp, a: u64, b: u64)
    requires op != Ja && op != Jset
    ensures Compare(CondFor(op), if Swapped(op) then b else a, if Swapped(op) then a else b) == EvalJmp(op, a, b)
  {}

  /** Jset compares the conjunction with zero. */
  lemma JsetDecision(a: u64, b: u64)
    ensures Compare(CondFor(Jset), Result64(OpAnd, a, b), 0) == EvalJmp(Jset, a, b)
  {}

  predicate ProgramCond(c: BranchCond) {
    && !c.is32bit && c.op != Ja && IsProgramReg(c.lhs.n) && ProgramOperand(c.rhs)
    && (c.rhs.OpImm? ==> LoadsExactly(c.rhs.imm))
  }

  /** No register but s7, and no memory, changed. */
  ghost predicate SameButS7(m: Rv, n: Rv) {
    n.mem == m.mem && forall r: bv8 :: r != S7 ==> R(n, r) == R(m, r)
  }

  lemma SetsS7(m: Rv, n: Rv, v: u64)
    requires SetsReg(m, n, S7, v)
    ensures SameButS7(m, n) && R(n, S7) == v
  {}

  lemma SameTwice(m: Rv, q: Rv, n: Rv)
    requires SameButS7(m, q) && SameButS7(q, n)
    ensures SameButS7(m, n)
  {}

  lemma SameReads(m: Rv, n: Rv, r: bv8)
    requires SameButS7(m, n)
    ensures r != S7 ==> R(n, r) == R(m, r)
  {}

  lemma SameSelf(m: Rv)
    ensures SameButS7(m, m)
  {}

  /** The right operand is in its register. */
  lemma LoadRhs(c: BranchCond, m: Rv) returns (n: Rv)
    requires ProgramCond(c)
    ensures Straight(if c.rhs.OpImm? then RvLoadImm(S7, Wrap64(c.rhs.imm)) else [], m, n) && SameButS7(m, n)
    ensures R(n, RhsReg(c.rhs)) == OperandR(c.rhs, m) && IsReg(RhsReg(c.rhs)) && R(n, c.lhs.n) == R(m, c.lhs.n)
  {
    hide Straight, SetsReg, SameButS7, R, RvLoadImm, LoadsExactly;
    if c.rhs.OpImm? {
      n := LoadExact(S7, c.rhs.imm, m);
      SetsS7(m, n, Wrap64(c.rhs.imm));
      SameReads(m, n, c.lhs.n);
    } else {
      n := m;
      StraightNothing(m);
      SameSelf(m);
    }
  }

  lemma StraightNothing(m: Rv)
    ensures Straight([], m, m)
  {}

  lemma AndStep(lhs: bv8, rhs: bv8, m: Rv) returns (n: Rv)
    requires IsReg(lhs) && IsReg(rhs)
    ensures Straight([RvAnd(S7, lhs, rhs)], m, n) && SetsReg(m, n, S7, Result64(OpAnd, R(m, lhs), R(m, rhs)))
  {
    AndOp();
    hide Straight, SetsReg, RType, R, Result64, OpOf;
    n := RegStep(false, 0, rhs, lhs, 7, S7, OpAnd, m);
  }

  lemma AndOp()
    ensures OpOf(0, 7) == Some(OpAnd)
  {}

  /** Once the words before the branch have run, the branch decides as the interpreter does. */
  lemma BeforeBranch(c: BranchCond, m: Rv) returns (n: Rv)
    requires ProgramCond(c)
    ensures Straight(RvBeforeBranch(c), m, n) && SameButS7(m, n)
    ensures IsReg(FirstReg(c.op, c.lhs.n, RhsReg(c.rhs))) && IsReg(SecondReg(c.op, c.lhs.n, RhsReg(c.rhs)))
    ensures Compare(CondFor(c.op), R(n, FirstReg(c.op, c.lhs.n, RhsReg(c.rhs))),
            R(n, SecondReg(c.op, c.lhs.n, RhsReg(c.rhs))))
         == EvalJmp(c.op, R(m, c.lhs.n), OperandR(c.rhs, m))
  {
    hide Straight, SetsReg, SameButS7, R, RvLoadImm, Result64, Compare, EvalJmp, CondFor, RvAnd;
    var loaded := if c.rhs.OpImm? then RvLoadImm(S7, Wrap64(c.rhs.imm)) else [];
    var q := LoadRhs(c, m);
    var a, b := R(m, c.lhs.n), OperandR(c.rhs, m);
    if c.op == Jset {
      n := AndStep(c.lhs.n, RhsReg(c.rhs), q);
      SetsS7(q, n, Result64(OpAnd, a, b));
      StraightAppend(loaded, [RvAnd(S7, c.lhs.n, RhsReg(c.rhs))], m, q, n);
      SameTwice(m, q, n);
      ReadsZero(n);
      JsetDecision(a, b);
    } else {
      assert loaded + [] == loaded;
      n := q;
      DirectDecision(c.op, a, b);
    }
  }

  // ---------- linked branches ----------

  /** The last word of a branching node, patched: its displacement leads to the label. */
  lemma PatchedAt(nodes: seq<IrNode>, code: seq<bv32>, i: nat, p: nat) returns (displacement: int)
    requires Image(RiscV64, nodes, code) && i < |nodes| && Branching(nodes[i])
    requires FindLabel(nodes, TargetOf(nodes[i])) == Some(p)
    ensures Offset(RiscV64, nodes, i + 1) >= 1
    ensures var last, words := Offset(RiscV64, nodes, i + 1) - 1, NodeWords(RiscV64, nodes[i]);
            && words != [] && last < |code| && RvInReach(nodes[i].IrBranch?, displacement)
            && code[last] == RvPatch(words[|words| - 1], nodes[i].IrBranch?, displacement)
            && displacement == 4 * (Offset(RiscV64, nodes, p) - last)
  {
    hide Offset, EmitAll, NodeWords, RvPatch, RvInReach, Image, FindLabel;
    displacement := LinkedBranch(RiscV64, nodes, code, i, p);
  }

  lemma BranchExecutes(m: Rv, c: RvCond, rs1: bv8, rs2: bv8, field: bv32, d: int)
    requires SignedField(field, 13) == d
    ensures Execute(m, BranchIf(c, rs1, rs2, field))
         == Go(m.(pc := m.pc + (if Compare(c, R(m, rs1), R(m, rs2)) then d else 4)))
  {
    hide SignedField, Compare, R;
  }

  lemma JumpExecutes(m: Rv, field: bv32, d: int)
    requires SignedField(field, 21) == d
    ensures Execute(m, JumpLink(0, field)) == Go(m.(pc := m.pc + d))
  {
    hide SignedField;
  }

  /** The placeholder of a conditional branch, with its operands. */
  lemma PlaceholderFields(c: BranchCond)
    requires c.op != Ja
    requires IsReg(FirstReg(c.op, c.lhs.n, RhsReg(c.rhs))) && IsReg(SecondReg(c.op, c.lhs.n, RhsReg(c.rhs)))
    ensures var w := RvBranchWord(c.op, c.lhs.n, RhsReg(c.rhs));
            && Opcode(w) == 0x63 && CondOf(Funct3(w)) == Some(CondFor(c.op))
            && Rs1(w) == FirstReg(c.op, c.lhs.n, RhsReg(c.rhs)) && Rs2(w) == SecondReg(c.op, c.lhs.n, RhsReg(c.rhs))
  {
    hide RvBranchWord, Btype, Opcode, Funct3, Rs1, Rs2, CondOf, CondFor, CondBits, FirstReg, SecondReg;
    BranchWordIs(c.op, c.lhs.n, RhsReg(c.rhs));
    CondBitsDecode(CondFor(c.op));
    BranchPlaceholder(FirstReg(c.op, c.lhs.n, RhsReg(c.rhs)), SecondReg(c.op, c.lhs.n, RhsReg(c.rhs)),
        CondBits(CondFor(c.op)));
  }

  lemma BeforeThenBranch(n: IrNode)
    requires n.IrBranch?
    ensures var w := RvBranchWord(n.cond.op, n.cond.lhs.n, RhsReg(n.cond.rhs));
            NodeWords(RiscV64, n)
                 == RvBeforeBranch(n.cond) + [w] && NodeWords(RiscV64, n)[|NodeWords(RiscV64, n)| - 1] == w
    ensures |NodeWords(RiscV64, n)| == |RvBeforeBranch(n.cond)| + 1
  {
    hide RvBeforeBranch, RvBranchWord;
  }

  /** The machine's own branch, at the end of a conditional branch node: it goes to the label if its
      comparison holds and falls through to the next node otherwise. */
  lemma BranchWordStep(nodes: seq<IrNode>, code: seq<bv32>, i: nat, p: nat, m: Rv) returns (n: Rv)
    requires Image(RiscV64, nodes, code) && i < |nodes| && nodes[i].IrBranch?
    requires FindLabel(nodes, nodes[i].target) == Some(p)
    requires nodes[i].cond.op != Ja && m.pc == 4 * (Offset(RiscV64, nodes, i + 1) - 1)
    requires var c := nodes[i].cond;
             IsReg(FirstReg(c.op, c.lhs.n, RhsReg(c.rhs))) && IsReg(SecondReg(c.op, c.lhs.n, RhsReg(c.rhs)))
    ensures RunsTo(code, m, 1, n) && n == m.(pc := n.pc)
    ensures var c := nodes[i].cond;
            n.pc == 4 * if Compare(CondFor(c.op), R(m, FirstReg(c.op, c.lhs.n, RhsReg(c.rhs))),
                R(m, SecondReg(c.op, c.lhs.n, RhsReg(c.rhs))))
                        then Offset(RiscV64, nodes, p) else Offset(RiscV64, nodes, i + 1)
  {
    hide *;
    var c := nodes[i].cond;
    var w := RvBranchWord(c.op, c.lhs.n, RhsReg(c.rhs));
    var rs1, rs2 := FirstReg(c.op, c.lhs.n, RhsReg(c.rhs)), SecondReg(c.op, c.lhs.n, RhsReg(c.rhs));
    PlaceholderFields(c);
    BeforeThenBranch(nodes[i]);
    NodeBranches(nodes[i]);
    var d := PatchedAt(nodes, code, i, p);
    PatchedBranch(w, d);
    BranchExecutes(m, CondFor(c.op), rs1, rs2, BOffset(EncodeBTypeImm(d)), d);
    StepPlaced(code, m, Offset(RiscV64, nodes, i + 1) - 1, RvPatch(w, true, d));
    n := m.(pc := m.pc + (if Compare(CondFor(c.op), R(m, rs1), R(m, rs2)) then d else 4));
    RunsOne(code, m, n);
  }

  lemma JumpPlaceholder()
    ensures Rd(Jal(0, 0)) == 0 && NodeWords(RiscV64, IrJump(0)) == [Jal(0, 0)]
  {
    ZeroBits();
    assert AsU32(0) == 0;
  }

  lemma ZeroBits()
    ensures JImmBits(0) == 0
  {}

  lemma JumpWords(n: IrNode)
    requires n.IrJump?
    ensures NodeWords(RiscV64, n) == [Jal(0, 0)] && |NodeWords(RiscV64, n)| == 1
  {
    hide Jal;
  }

  lemma JumpWordStep(nodes: seq<IrNode>, code: seq<bv32>, i: nat, p: nat, m: Rv) returns (n: Rv)
    requires Image(RiscV64, nodes, code) && i < |nodes| && nodes[i].IrJump?
    requires FindLabel(nodes, nodes[i].target) == Some(p)
    requires m.pc == 4 * (Offset(RiscV64, nodes, i + 1) - 1)
    ensures RunsTo(code, m, 1, n) && n == m.(pc := 4 * Offset(RiscV64, nodes, p))
  {
    hide *;
    NodeBranches(nodes[i]);
    JumpWords(nodes[i]);
    JumpPlaceholder();
    var d := PatchedAt(nodes, code, i, p);
    PatchedJump(Jal(0, 0), d);
    JumpExecutes(m, JOffset(EncodeJTypeImm(d)), d);
    StepPlaced(code, m, Offset(RiscV64, nodes, i + 1) - 1, RvPatch(Jal(0, 0), false, d));
    n := m.(pc := m.pc + d);
    RunsOne(code, m, n);
  }
}
