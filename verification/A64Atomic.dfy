/** Atomic operations on AArch64: what the emitted words do to memory, and exactly when that is the
    operation of section 5.3 of RFC 9669. */
module A64Atomic {
  import opened Isa
  import opened Bits
  import opened Interpreter
  import opened AluLaws
  import opened Ir
  import opened A64Encode
  import opened A64Machine
  import opened A64Decode
  import opened A64Words
  import opened A64Alu
  import opened A64Imm

  // ---------- the instructions, after sections C4.1 and C6.2 of the Arm Architecture Reference Manual ----------

  datatype MemOp = MemAdd | MemClear | MemXor | MemSet | MemSwap

  /** 64-bit LDADD, LDCLR, LDEOR, LDSET and SWP with acquire and release, CAS with acquire semantics, and
      the full barrier of the inner shareable domain. */
  datatype AtomicInstr =
    | ReadModifyWrite(op: MemOp, rs: bv8, rt: bv8, rn: bv8)
    | CompareSwap(rs: bv8, rt: bv8, rn: bv8)
    | Barrier
    | NotAtomic

  function MemOpOf(key: bv32): Option<MemOp> {
    if key == 0xF8E00000 then Some(MemAdd)
    else if key == 0xF8E01000 then Some(MemClear)
    else if key == 0xF8E02000 then Some(MemXor)
    else if key == 0xF8E03000 then Some(MemSet)
    else if key == 0xF8E08000 then Some(MemSwap)
    else None
  }

  function DecodeAtomic(w: bv32): AtomicInstr {
    var key := w & 0xFFE0FC00;
    if MemOpOf(key).Some? then ReadModifyWrite(MemOpOf(key).value, FieldM(w), FieldD(w), FieldN(w))
    else if key == 0xC8E07C00 then CompareSwap(FieldM(w), FieldD(w), FieldN(w))
    else if w == 0xD5033BBF then Barrier
    else NotAtomic
  }

  /** All bits inverted. */
  function Complement(x: u64): u64 { TWO_64 - 1 - x }

  function MemResult(op: MemOp, cell: u64, v: u64): u64 {
    match op
    case MemAdd => (cell + v) % TWO_64
    case MemClear => Bitwise64(LAnd, cell, Complement(v))
    case MemXor => Bitwise64(LXor, cell, v)
    case MemSet => Bitwise64(LOr, cell, v)
    case MemSwap => v
  }

  /** The register that is read gets the cell's old value; register 31 drops it. */
  function ExecuteAtomic(m: A64, i: AtomicInstr): Outcome {
    match i
    case ReadModifyWrite(op, rs, rt, rn) =>
      var address := XorSp(m, rn);
      if !Aligned(m, rn, address) then Fault
      else
        var cell := Cell(m, address);
        Advance(SetX(m.(mem := m.mem[address := MemResult(op, cell, X(m, rs))]), rt, cell))
    case CompareSwap(rs, rt, rn) =>
      var address := XorSp(m, rn);
      if !Aligned(m, rn, address) then Fault
      else
        var cell := Cell(m, address);
        Advance(SetX(m.(mem := m.mem[address := if cell == X(m, rs) then X(m, rt) else cell]), rs, cell))
    case Barrier => Advance(m)
    case NotAtomic => Fault
  }

  /** Any word, atomic or not. */
  function AnyStep(m: A64, w: bv32): Outcome {
    if Decode(w) != Undefined then Execute(m, Decode(w)) else ExecuteAtomic(m, DecodeAtomic(w))
  }

  function AnyWords(ws: seq<bv32>, m: A64): Option<A64> {
    if ws == [] then Some(m)
    else
      match AnyStep(m, ws[0])
      case Go(n) => if n.pc == m.pc + 1 then AnyWords(ws[1..], n) else None
      case _ => None
  }

  // ---------- running words ----------

  lemma {:induction false} StraightAny(ws: seq<bv32>, rest: seq<bv32>, m: A64, n: A64)
    requires Straight(ws, m, n)
    ensures AnyWords(ws + rest, m) == AnyWords(rest, n)
    decreases |ws|
  {
    hide *;
    if ws == [] {
      NoWordsLeft(m, n);
      assert ws + rest == rest;
    } else {
      var q := FirstOf(ws, m, n);
      AnyPlain(ws[0], ws[1..] + rest, m, q);
      StraightAny(ws[1..], rest, q, n);
      assert ws + rest == [ws[0]] + (ws[1..] + rest);
    }
  }

  lemma NoWordsLeft(m: A64, n: A64)
    requires Straight([], m, n)
    ensures m == n
  {}

  lemma FirstOf(ws: seq<bv32>, m: A64, n: A64) returns (q: A64)
    requires ws != [] && Straight(ws, m, n)
    ensures Execute(m, Decode(ws[0])) == Go(q) && q.pc == m.pc + 1 && Straight(ws[1..], q, n)
  {
    hide Execute, Decode;
    q := Execute(m, Decode(ws[0])).m;
  }

  lemma AnyPlain(w: bv32, rest: seq<bv32>, m: A64, q: A64)
    requires Execute(m, Decode(w)) == Go(q) && q.pc == m.pc + 1
    ensures AnyWords([w] + rest, m) == AnyWords(rest, q)
  {
    NoFault(m, w);
    assert ([w] + rest)[1..] == rest;
    hide Decode, Execute;
  }

  lemma NoFault(m: A64, w: bv32)
    requires Execute(m, Decode(w)).Go?
    ensures Decode(w) != Undefined
  {
    hide Decode;
  }

  lemma AnyFirst(w: bv32, rest: seq<bv32>, m: A64, n: A64)
    requires Decode(w) == Undefined && ExecuteAtomic(m, DecodeAtomic(w)) == Go(n) && n.pc == m.pc + 1
    ensures AnyWords([w] + rest, m) == AnyWords(rest, n)
  {
    assert ([w] + rest)[1..] == rest;
    hide Decode, DecodeAtomic, ExecuteAtomic, Execute;
  }

  // ---------- decoding ----------

  lemma BarrierDecodes()
    ensures Decode(DmbIsh()) == Undefined && DecodeAtomic(DmbIsh()) == Barrier
  {}

  lemma AtomicUndefined(w: bv32)
    requires w & 0xFFE00000 == 0xF8E00000 || w & 0xFFE00000 == 0xC8E00000
    ensures Decode(w) == Undefined
  {}

  lemma KeyUpper(w: bv32, base: bv32)
    requires FilledIn(w, base)
    ensures w & 0xFFE00000 == base & 0xFFE00000
  {}

  lemma AtomicFields(base: bv32, rs: bv8, rt: bv8, rn: bv8)
    requires IsReg(rs) && IsReg(rt) && IsReg(rn) && base & 0x001F03FF == 0
    requires base & 0xFFE00000 == 0xF8E00000 || base & 0xFFE00000 == 0xC8E00000
    ensures var w := RegReg(base, rt, rn, rs);
            Decode(w) == Undefined && DecodeAtomic(w) ==
              (if MemOpOf(base).Some? then ReadModifyWrite(MemOpOf(base).value, rs, rt, rn)
               else if base == 0xC8E07C00 then CompareSwap(rs, rt, rn)
               else DecodeAtomic(w))
  {
    hide Decode, RegReg, FieldD, FieldN, FieldM, MemOpOf;
    RegRegFields(base, rt, rn, rs);
    var w := RegReg(base, rt, rn, rs);
    KeyUpper(w, base);
    AtomicUndefined(w);
  }

  /** The operation that the word of an eBPF atomic carries out. */
  function WordOp(op: AtomicOp): MemOp
    requires op != CmpXchg
  {
    match op
    case AtomicAdd => MemAdd
    case FetchAdd => MemAdd
    case AtomicOr => MemSet
    case FetchOr => MemSet
    case AtomicAnd => MemClear
    case FetchAnd => MemClear
    case AtomicXor => MemXor
    case FetchXor => MemXor
    case Xchg => MemSwap
  }

  /** Every atomic word has the value register as operand, addresses X9 and drops the old value; the
      compare-and-swap compares with X0. */
  lemma AtomicDecodes(op: AtomicOp, value: PhysReg)
    requires IsReg(value.n)
    ensures Decode(AtomicWord(op, value)) == Undefined
    ensures DecodeAtomic(AtomicWord(op, value)) ==
              if op == CmpXchg then CompareSwap(0, value.n, 9) else ReadModifyWrite(WordOp(op), value.n, 31, 9)
  {
    hide Decode, DecodeAtomic, RegReg;
    match op
    case AtomicAdd => AtomicFields(0xF8E00000, value.n, 31, 9);
    case FetchAdd => AtomicFields(0xF8E00000, value.n, 31, 9);
    case AtomicOr => AtomicFields(0xF8E03000, value.n, 31, 9);
    case FetchOr => AtomicFields(0xF8E03000, value.n, 31, 9);
    case AtomicAnd => AtomicFields(0xF8E01000, value.n, 31, 9);
    case FetchAnd => AtomicFields(0xF8E01000, value.n, 31, 9);
    case AtomicXor => AtomicFields(0xF8E02000, value.n, 31, 9);
    case FetchXor => AtomicFields(0xF8E02000, value.n, 31, 9);
    case Xchg => AtomicFields(0xF8E08000, value.n, 31, 9);
    case CmpXchg => AtomicFields(0xC8E07C00, 0, value.n, 9);
  }

  // ---------- the address ----------

  function AddressWords(base: PhysReg, off: i16): seq<bv32> {
    if off != 0 then LoadImmWords(TMP, Wrap64(off)) + [AddX(TMP.n, base.n, TMP.n)] else [MovX(TMP.n, base.n)]
  }

  lemma WrapSum(a: u64, off: int)
    ensures (a + Wrap64(off)) % TWO_64 == Wrap64(a + off)
  {
    AddAfterMod(off, a, TWO_64);
  }

  lemma NoOffset(a: u64)
    ensures Wrap64(a + 0) == a
  {
    ModUnique(a, TWO_64, 0, a);
  }

  /** The words before the operation leave base plus offset in X9 and change nothing else. */
  lemma AddressNode(base: PhysReg, off: i16, m: A64) returns (n: A64)
    requires IsProgramReg(base.n)
    ensures Straight(AddressWords(base, off), m, n) && Builds(m, n, 9, Wrap64(X(m, base.n) + off))
  {
    hide RegReg, Straight, DataResult, Decode, SetsReg, LoadImmWords, Builds, X, Operand64or32, Wrap64;
    if off != 0 {
      var q := LoadImm(TMP, Wrap64(off), m);
      n := DataStep(0x8B000000, OpAdd, 9, base.n, 9, q);
      StraightAppend(LoadImmWords(TMP, Wrap64(off)), [AddX(9, base.n, 9)], m, q, n);
      SumBuilt(m, q, n, base.n, off);
    } else {
      n := DataStep(0xAA000000, OpOrr, 9, 31, base.n, m);
      CopyBuilt(m, n, base.n);
    }
  }

  lemma SumBuilt(m: A64, q: A64, n: A64, b: bv8, off: int)
    requires b < 31 && b != 9 && Builds(m, q, 9, Wrap64(off))
    requires SetsReg(q, n, 9, DataResult(true, OpAdd, Operand64or32(q, true, b), Operand64or32(q, true, 9)))
    ensures Builds(m, n, 9, Wrap64(X(m, b) + off))
  {
    WrapSum(X(m, b), off);
    hide X, Wrap64;
  }

  lemma CopyBuilt(m: A64, n: A64, b: bv8)
    requires b < 31
    requires SetsReg(m, n, 9, DataResult(true, OpOrr, Operand64or32(m, true, 31), Operand64or32(m, true, b)))
    ensures Builds(m, n, 9, Wrap64(X(m, b) + 0))
  {
    OrrZero(true, X(m, b));
    NoOffset(X(m, b));
    assert X(m, 31) == 0;
    hide X, Wrap64, DataResult;
  }

  // ---------- the node ----------

  /** What the words leave in the cell. */
  function CellAfter(op: AtomicOp, cell: u64, v: u64, x0: u64): u64 {
    if op == CmpXchg then if cell == x0 then v else cell else MemResult(WordOp(op), cell, v)
  }

  /** Only the cell at `address` has changed, and of the registers only X9, and X0 for a compare-and-swap,
      which has the old value of the cell. */
  ghost predicate AtomicDone(op: AtomicOp, m: A64, n: A64, address: u64, result: u64) {
    && n.sp == m.sp && n.flags == m.flags && n.mem == m.mem[address := result]
    && (op == CmpXchg ==> X(n, 0) == Cell(m, address))
    && forall r: bv8 :: r != 9 && (op == CmpXchg ==> r != 0) ==> X(n, r) == X(m, r)
  }

  lemma OperationStep(op: AtomicOp, value: PhysReg, m: A64, q: A64, address: u64) returns (n: A64)
    requires IsProgramReg(value.n) && Builds(m, q, 9, address) && address % 8 == 0
    ensures ExecuteAtomic(q, DecodeAtomic(AtomicWord(op, value))) == Go(n) && n.pc == q.pc + 1
    ensures AtomicDone(op, m, n, address, CellAfter(op, Cell(m, address), X(m, value.n), X(m, 0)))
  {
    hide DecodeAtomic, AtomicWord, Decode, MemResult;
    AtomicDecodes(op, value);
    assert XorSp(q, 9) == address && Cell(q, address) == Cell(m, address);
    if op == CmpXchg {
      var cell := Cell(m, address);
      var p := q.(mem := q.mem[address := if cell == X(q, 0) then X(q, value.n) else cell]);
      n := SetX(p, 0, cell).(pc := q.pc + 1);
      forall r: bv8
        ensures X(n, r) == if r == 0 then cell else X(p, r)
      {
        XOfSetX(p, 0, cell, r);
      }
    } else {
      n := q.(mem := q.mem[address := MemResult(WordOp(op), Cell(m, address), X(q, value.n))], pc := q.pc + 1);
    }
  }

  lemma FenceStep(rest: seq<bv32>, m: A64) returns (n: A64)
    ensures AnyWords([DmbIsh()] + rest, m) == AnyWords(rest, n) && n == m.(pc := m.pc + 1)
  {
    n := m.(pc := m.pc + 1);
    BarrierDecodes();
    hide Decode, DecodeAtomic, DmbIsh;
    AnyFirst(DmbIsh(), rest, m, n);
  }

  lemma DoneAfterFences(op: AtomicOp, m: A64, q: A64, address: u64, p: A64, result: u64, n: A64)
    requires Builds(m, q, 9, address) && AtomicDone(op, m, p, address, result) && n == p.(pc := n.pc)
    ensures AtomicDone(op, m, n, address, result)
  {}

  /** An atomic node at an aligned address does its operation on the cell at base plus offset, between
      two barriers, and nothing else; X9 is scratch. The width does not matter. */
  lemma AtomicNode(width: MemWidth, op: AtomicOp, base: PhysReg, value: PhysReg, off: i16, m: A64) returns (n: A64)
    requires IsProgramReg(base.n) && IsProgramReg(value.n) && Wrap64(X(m, base.n) + off) % 8 == 0
    ensures AnyWords(A64NodeWords(IrAtomic(width, op, base, value, off)), m) == Some(n)
    ensures var address := Wrap64(X(m, base.n) + off);
            AtomicDone(op, m, n, address, CellAfter(op, Cell(m, address), X(m, value.n), X(m, 0)))
  {
    var address := Wrap64(X(m, base.n) + off);
    AtomicWordsAre(width, op, base, value, off);
    hide *;
    var q := AddressNode(base, off, m);
    var w := AtomicWord(op, value);
    StraightAny(AddressWords(base, off), [DmbIsh()] + ([w] + ([DmbIsh()] + [])), m, q);
    var q1 := FenceStep([w] + ([DmbIsh()] + []), q);
    FencedStillBuilds(m, q, q1, address);
    var p := OperationStep(op, value, m, q1, address);
    AtomicDecodes(op, value) by { ProgramRegIsReg(value.n); }
    AnyFirst(w, [DmbIsh()] + [], q1, p);
    n := FenceStep([], p);
    NothingLeft(n);
    DoneAfterFences(op, m, q1, address, p, CellAfter(op, Cell(m, address), X(m, value.n), X(m, 0)), n);
  }

  lemma AtomicWordsAre(width: MemWidth, op: AtomicOp, base: PhysReg, value: PhysReg, off: i16)
    ensures A64NodeWords(IrAtomic(width, op, base, value, off))
         == AddressWords(base, off) + ([DmbIsh()] + ([AtomicWord(op, value)] + ([DmbIsh()] + [])))
  {
    hide LoadImmWords, AtomicWord, DmbIsh, AddX, MovX;
  }

  lemma FencedStillBuilds(m: A64, q: A64, q1: A64, address: u64)
    requires Builds(m, q, 9, address) && q1 == q.(pc := q.pc + 1)
    ensures Builds(m, q1, 9, address)
  {}

  lemma ProgramRegIsReg(r: bv8)
    requires IsProgramReg(r)
    ensures IsReg(r)
  {}

  lemma NothingLeft(m: A64)
    ensures AnyWords([], m) == Some(m)
  {}

  // ---------- when it is right ----------

  lemma Parity(a: nat, b: nat)
    requires b <= a && a % 2 == 1
    ensures (a - b) % 2 == 1 - b % 2
  {}

  lemma QuotientBelow(x: nat, p: nat, n: nat)
    requires p > 0 && x < n * p
    ensures x / p < n
  {
    var q := x / p;
    assert x == q * p + x % p;
    if q >= n {
      Grows(n, q, p);
    }
  }

  lemma Grows(a: nat, b: nat, p: nat)
    requires a <= b
    ensures a * p <= b * p
  {
    assert b * p == a * p + (b - a) * p;
  }

  lemma ComplementQuotient(x: nat, p: nat, n: nat)
    requires p > 0 && x < n * p
    ensures x / p < n && (n * p - 1 - x) / p == n - 1 - x / p
  {
    QuotientBelow(x, p, n);
    var q, r := x / p, x % p;
    assert x == q * p + r;
    assert n * p - 1 - x == (n - 1 - q) * p + (p - 1 - r) by {
      assert (n - 1 - q) * p == n * p - p - q * p;
    }
    ModUnique(n * p - 1 - x, p, n - 1 - q, p - 1 - r);
  }

  lemma HalfWord()
    ensures 2 * Pow2(63) == TWO_64
  {
    Pow2Values();
    hide Pow2;
    Doubled(63);
  }

  lemma Doubled(n: nat)
    ensures Pow2(n + 1) == 2 * Pow2(n)
  {}

  lemma Twice(a: nat, b: nat, c: nat)
    requires a * b == c
    ensures 2 * a * b == 2 * c
  {
    assert 2 * a * b == 2 * (a * b);
  }

  lemma SplitWord(k: nat)
    requires k < 64
    ensures 2 * Pow2(63 - k) * Pow2(k) == TWO_64
  {
    HalfWord();
    hide Pow2;
    Pow2Add(63 - k, k);
    Twice(Pow2(63 - k), Pow2(k), Pow2(63));
  }

  lemma ComplementBit(x: u64, k: nat)
    requires k < 64
    ensures BitAt(Complement(x), k) == 1 - BitAt(x, k)
  {
    SplitWord(k);
    hide Pow2;
    ComplementQuotient(x, Pow2(k), 2 * Pow2(63 - k));
    Parity(2 * Pow2(63 - k) - 1, x / Pow2(k));
  }

  /** Clearing the bits of v and keeping them is the same for a cell of zero only. */
  lemma ClearIsNotAnd(cell: u64, v: u64)
    ensures Bitwise64(LAnd, cell, Complement(v)) == EvalAlu64(And, cell, v) <==> cell == 0
  {
    Pow2Values();
    hide Bitwise, BitAt, Pow2, Complement;
    LogicOps(cell, v);
    LogicOps(cell, Complement(v));
    if cell != 0 {
      var k := SomeBit(cell, 64);
      LogicBits64(cell, v, k);
      LogicBits64(cell, Complement(v), k);
      ComplementBit(v, k);
      Product(BitAt(cell, k), BitAt(v, k));
    } else {
      AndZero(v, 64);
      AndZero(Complement(v), 64);
    }
  }

  lemma Product(c: nat, b: nat)
    requires c == 1
    ensures c * b == b && c * (1 - b) == 1 - b
  {}

  lemma {:induction false} AndZero(v: nat, n: nat)
    ensures Bitwise(LAnd, 0, v, n) == 0
  {
    if n > 0 {
      AndZero(v / 2, n - 1);
    }
  }

  /** Addition, or, exclusive or and exchange leave the right value in the cell. And clears the bits it
      should keep: that is right for a cell of zero only. Compare-and-exchange compares with X0, which
      holds R1, in place of R0: that is right if both are equal to the cell or neither is, or if the new
      value is the old one. */
  lemma AtomicExact(op: AtomicOp, cell: u64, v: u64, x0: u64, r0: u64)
    ensures CellAfter(op, cell, v, x0) == EbpfCell(op, cell, v, r0) <==>
            match op
            case AtomicAnd => cell == 0
            case FetchAnd => cell == 0
            case CmpXchg => v == cell || (cell == x0 <==> cell == r0)
            case _ => true
  {
    ClearIsNotAnd(cell, v);
    hide Bitwise64, Complement;
  }
}
