/** The program generator of the differential fuzzer: whatever the seed, its programs decode, only
    branch forward, run to their final exit, and are rejected for nothing but an uninitialised
    register. */
module Generator {
  import Bits
  import opened Isa
  import opened Flow
  import opened Interpreter
  import opened Decode
  import opened Runs
  import Cfg
  import Verifier

  // ---------- random numbers ----------

  function ShiftXorLeft(x: bv64, first: bool): bv64 { if first then x ^ (x << 13) else x ^ (x << 17) }

  function ShiftXorRight(x: bv64): bv64 { x ^ (x >> 7) }

  /** One step of xorshift64. */
  function XorShift(x: bv64): bv64 { ShiftXorLeft(ShiftXorRight(ShiftXorLeft(x, true)), false) }

  lemma LeftNonzero(x: bv64, first: bool)
    requires x != 0
    ensures ShiftXorLeft(x, first) != 0
  {}

  lemma RightNonzero(x: bv64)
    requires x != 0
    ensures ShiftXorRight(x) != 0
  {}

  /** The generator never gets stuck at zero. */
  lemma XorShiftNonzero(x: bv64)
    requires x != 0
    ensures XorShift(x) != 0
  {
    var a := ShiftXorLeft(x, true);
    LeftNonzero(x, true);
    RightNonzero(a);
    LeftNonzero(ShiftXorRight(a), false);
    hide ShiftXorLeft, ShiftXorRight;
  }

  /** The first number from seed 1. */
  lemma FirstFromOne()
    ensures XorShift(1) == 1082269761
  {}

  function Value(x: bv64): u64 { x as int }

  class Rng {
    var state: bv64

    ghost predicate Valid()
      reads this
    {
      state != 0
    }

    constructor (seed: bv64)
      ensures Valid() && state == if seed == 0 then 1 else seed
    {
      state := if seed == 0 then 1 else seed;
    }

    method NextU64() returns (x: u64)
      requires Valid()
      modifies this
      ensures Valid() && state == XorShift(old(state)) && x == Value(state)
      ensures Drawn(x, state) == DrawU64(old(state))
    {
      hide XorShift, Value;
      XorShiftNonzero(state);
      state := XorShift(state);
      x := Value(state);
    }

    /** A value of the half-open interval; lo if the interval is empty. Differences and sums wrap, so
        that a reversed interval gives values outside of it. */
    method Range(lo: i64, hi: i64) returns (r: i64)
      requires Valid()
      modifies this
      ensures Valid()
      ensures if lo == hi then r == lo && state == old(state) else state == XorShift(old(state))
      ensures lo != hi ==> r == AsI64(Wrap64(lo + Value(state) % Wrap64(hi - lo)))
      ensures lo < hi ==> lo <= r < hi && Drawn(r, state) == DrawRange(old(state), lo, hi)
    {
      hide XorShift, Value, AsI64, Wrap64, DrawRange;
      SpanIs(lo, hi);
      var span := Wrap64(hi - lo);
      if span == 0 {
        return lo;
      }
      var x := NextU64();
      r := AsI64(Wrap64(lo + x % span));
      if lo < hi {
        WithinI64(lo + x % span);
        RangeIs(old(state), lo, hi);
      }
    }

    static lemma RangeIs(s: bv64, lo: i64, hi: i64)
      requires lo < hi
      ensures DrawRange(s, lo, hi) == Drawn(lo + Value(XorShift(s)) % (hi - lo), XorShift(s))
    {
      hide Value, XorShift;
    }

    static lemma SpanIs(lo: i64, hi: i64)
      ensures Wrap64(hi - lo) == if lo <= hi then hi - lo else hi - lo + TWO_64
    {
      Bits.ModUnique(hi - lo, TWO_64, if lo <= hi then 0 else -1, if lo <= hi then hi - lo else hi - lo + TWO_64);
    }

    static lemma WithinI64(x: i64)
      ensures AsI64(Wrap64(x)) == x
    {
      Bits.ModUnique(x, TWO_64, if x < 0 then -1 else 0, if x < 0 then x + TWO_64 else x);
    }

    method Pick<T>(items: seq<T>) returns (t: T)
      requires Valid() && items != []
      modifies this
      ensures Valid() && t in items && Drawn(t, state) == DrawPick(old(state), items)
    {
      hide XorShift, Value;
      var x := NextU64();
      t := items[x % |items|];
    }
  }

  // ---------- the shape of generated programs ----------

  /** A move of a constant from lo to hi, exclusive, to register r. */
  predicate MovesTo(i: Insn, r: nat, lo: int, hi: int) {
    i.Alu64? && i.op == Mov && i.dst == r && i.src.Imm? && lo <= i.src.value < hi
  }

  /** A register-initialising move: below 1000 to R0, 100 to R1 and 50 to R2 to R9, and not of zero but
      to R0. */
  predicate InitInsn(i: Insn) {
    || MovesTo(i, 0, 0, 1000) || MovesTo(i, 1, 1, 100)
    || (i.Alu64? && 2 <= i.dst <= 9 && MovesTo(i, i.dst, 1, 50))
  }

  const JMP_OPS: set<JmpOp> := {Jeq, Jne, Jgt, Jge, Jlt, Jle}

  const PLAIN_OPS: set<AluOp> := {Add, Sub, Or, And, Xor}

  /** Which constants go with which operation. */
  predicate ConstantFits(op: AluOp, v: int) {
    match op
    case Mul => 1 <= v < 10
    case Lsh => 0 <= v < 16
    case Rsh => 0 <= v < 16
    case Mov => 0 <= v < 1000
    case _ => op in PLAIN_OPS && -100 <= v < 100
  }

  /** An instruction of the body: arithmetic on R0 to R4, or a branch on one of them that goes
      forward by at most four and stays short of the exit. Between registers and on 32 bits there are
      addition, subtraction and bitwise logic; constants can also multiply, shift and be moved; the only
      comparisons are equality and unsigned order. */
  predicate BodyInsn(i: Insn, pc: nat, last: nat) {
    match i
    case Alu64(op, dst, Reg(r)) => dst <= 4 && r <= 4 && op in PLAIN_OPS
    case Alu64(op, dst, Imm(v)) => dst <= 4 && ConstantFits(op, v)
    case Alu32(op, dst, src) => dst <= 4 && src.Imm? && op in PLAIN_OPS && -50 <= src.value < 50
    case JmpCond(op, dst, src, off) =>
      op in JMP_OPS && dst <= 4 && src.Imm? && 0 <= src.value < 1000 && 1 <= off <= 4 && pc + 1 + off < last
    case _ => false
  }

  predicate StartsWithR0R1(insns: seq<Insn>) {
    |insns| >= 2 && InitInsn(insns[0]) && InitInsn(insns[1]) && insns[0].dst == 0 && insns[1].dst == 1
  }

  /** A preamble of moves that starts with R0 and R1, a body, an exit. */
  predicate Shape(insns: seq<Insn>, pre: nat) {
    && 2 <= pre < |insns| && insns[|insns| - 1] == Exit && StartsWithR0R1(insns)
    && (forall k :: 0 <= k < pre ==> InitInsn(insns[k]))
    && (forall k :: pre <= k < |insns| - 1 ==> BodyInsn(insns[k], k, |insns| - 1))
  }

  /** A raw instruction of one slot that decodes to i wherever it stands. */
  predicate Decodes(r: RawInsn, i: Insn) {
    r.Class() != 0 && DecodeAt([r], 0) == Outcome.Ok(i)
  }

  lemma DecodesAnywhere(raw: seq<RawInsn>, pc: nat, i: Insn)
    requires pc < |raw| && Decodes(raw[pc], i)
    ensures DecodeAt(raw, pc) == Outcome.Ok(i) && Slots(i) == 1
  {
    hide WidthOf, Unsigned, AluOpOf, JmpOpOf, AtomicOpOf;
    OpsAnywhere(raw[pc], pc);
  }

  lemma OpsAnywhere(r: RawInsn, pc: nat)
    ensures AluOpOf(r, pc).Ok? == AluOpOf(r, 0).Ok? && (AluOpOf(r, 0).Ok? ==> AluOpOf(r, pc) == AluOpOf(r, 0))
    ensures JmpOpOf(r, pc).Ok? == JmpOpOf(r, 0).Ok? && (JmpOpOf(r, 0).Ok? ==> JmpOpOf(r, pc) == JmpOpOf(r, 0))
    ensures var a, b := AtomicOpOf(Unsigned(r.imm), pc), AtomicOpOf(Unsigned(r.imm), 0);
            a.Ok? == b.Ok? && (b.Ok? ==> a == b)
  {}

  predicate AllDecode(raw: seq<RawInsn>, insns: seq<Insn>) {
    |raw| == |insns| && forall k :: 0 <= k < |raw| ==> Decodes(raw[k], insns[k])
  }

  lemma {:induction false} DecodesFrom(raw: seq<RawInsn>, insns: seq<Insn>, pc: nat)
    requires AllDecode(raw, insns) && pc <= |raw|
    ensures DecodeFrom(raw, pc) == Outcome.Ok(insns[pc..])
    decreases |raw| - pc
  {
    hide DecodeAt, Decodes, DecodeFrom;
    if pc < |raw| {
      DecodesAnywhere(raw, pc, insns[pc]);
      DecodeStep(raw, pc);
      DecodesFrom(raw, insns, pc + 1);
      assert [insns[pc]] + insns[pc + 1..] == insns[pc..];
    } else {
      AtEnd(raw);
      assert insns[pc..] == [];
    }
  }

  lemma GeneratedDecodes(raw: seq<RawInsn>, insns: seq<Insn>)
    requires AllDecode(raw, insns) && 0 < |raw| <= MAX_INSNS
    ensures DecodeAll(raw) == Outcome.Ok(insns)
  {
    DecodesFrom(raw, insns, 0);
    assert insns[0..] == insns;
  }

  // ---------- the generator ----------

  function MakeRaw(opcode: u8, dst: u8, src: u8, off: i16, imm: i32): RawInsn
    requires dst < 16 && src < 16
  {
    RawInsn(opcode, 16 * src + dst, off, imm)
  }

  function AluOpAt(bits: nat): AluOp
    requires bits < 13
  {
    match bits
    case 0 => Add
    case 1 => Sub
    case 2 => Mul
    case 3 => Div
    case 4 => Or
    case 5 => And
    case 6 => Lsh
    case 7 => Rsh
    case 8 => Neg
    case 9 => Mod
    case 10 => Xor
    case 11 => Mov
    case _ => Arsh
  }

  lemma AluImmDecodes(is64: bool, bits: nat, dst: u8, imm: i32)
    requires bits < 13 && dst <= 10
    ensures Decodes(MakeRaw(16 * bits + (if is64 then 7 else 4), dst, 0, 0, imm),
                    if is64 then Alu64(AluOpAt(bits), dst, Imm(imm)) else Alu32(AluOpAt(bits), dst, Imm(imm)))
  {
    hide WidthOf, Unsigned, JmpOpOf, AtomicOpOf;
    var r := MakeRaw(16 * bits + (if is64 then 7 else 4), dst, 0, 0, imm);
    assert r.Class() == (if is64 then 7 else 4) && r.OpBits() == bits && !r.IsX();
  }

  lemma AluRegDecodes(bits: nat, dst: u8, src: u8)
    requires bits < 13 && dst <= 10 && src <= 10
    ensures Decodes(MakeRaw(16 * bits + 15, dst, src, 0, 0), Alu64(AluOpAt(bits), dst, Reg(src)))
  {
    hide WidthOf, Unsigned, JmpOpOf, AtomicOpOf;
    var r := MakeRaw(16 * bits + 15, dst, src, 0, 0);
    assert r.Class() == 7 && r.OpBits() == bits && r.IsX();
  }

  function JmpOpAt(bits: nat): JmpOp
    requires bits in JMP_BITS
  {
    match bits
    case 1 => Jeq
    case 5 => Jne
    case 2 => Jgt
    case 3 => Jge
    case 10 => Jlt
    case _ => Jle
  }

  const JMP_BITS: seq<nat> := [1, 5, 2, 3, 10, 11]

  lemma JmpOpDrawn(bits: nat)
    requires bits in JMP_BITS
    ensures JmpOpAt(bits) in JMP_OPS
  {}

  lemma JmpDecodes(bits: nat, dst: u8, off: i16, imm: i32)
    requires bits in JMP_BITS && dst <= 10
    ensures Decodes(MakeRaw(16 * bits + 5, dst, 0, off, imm), JmpCond(JmpOpAt(bits), dst, Imm(imm), off))
  {}

  lemma ExitDecodes()
    ensures Decodes(MakeRaw(0x95, 0, 0, 0, 0), Exit)
  {
    hide WidthOf, Unsigned, AluOpOf, AtomicOpOf;
    var r := MakeRaw(0x95, 0, 0, 0, 0);
    assert r.Class() == 5 && r.opcode / 16 == 9;
  }

  // ---------- draws ----------

  /** What is drawn from a state of the generator, and the state it leaves. */
  datatype Drawn<+T> = Drawn(value: T, state: bv64)

  function DrawU64(s: bv64): Drawn<u64> { Drawn(Value(XorShift(s)), XorShift(s)) }

  function DrawRange(s: bv64, lo: i64, hi: i64): (d: Drawn<i64>)
    requires lo < hi
    ensures lo <= d.value < hi
  {
    Drawn(lo + Value(XorShift(s)) % (hi - lo), XorShift(s))
  }

  function DrawPick<T>(s: bv64, items: seq<T>): (d: Drawn<T>)
    requires items != []
    ensures d.value in items
  {
    Drawn(items[Value(XorShift(s)) % |items|], XorShift(s))
  }

  const ALU_BITS: seq<nat> := [0, 1, 4, 5, 10]
  const ALU_IMM_BITS: seq<nat> := [0, 1, 2, 4, 5, 10, 6, 7]

  function DrawMove(s: bv64, r: u8, lo: i64, hi: i64): Drawn<RawInsn>
    requires r <= 9 && -100 <= lo < hi <= 1000
  {
    var imm := DrawRange(s, lo, hi);
    Drawn(MakeRaw(16 * 11 + 7, r, 0, 0, imm.value), imm.state)
  }

  function DrawImm(s: bv64, bits: nat): (d: Drawn<i64>)
    ensures -100 <= d.value < 100
  {
    if bits == 2 then DrawRange(s, 1, 10)
    else if bits == 6 || bits == 7 then DrawRange(s, 0, 16)
    else if bits == 3 then DrawRange(s, 1, 100)
    else DrawRange(s, -100, 100)
  }

  function DrawAluImm(s: bv64): Drawn<RawInsn> {
    var bits := DrawPick(s, ALU_IMM_BITS);
    var dst := DrawRange(bits.state, 0, 5);
    var imm := DrawImm(dst.state, bits.value);
    Drawn(MakeRaw(16 * bits.value + 7, dst.value, 0, 0, imm.value), imm.state)
  }

  function DrawAluReg(s: bv64): Drawn<RawInsn> {
    var bits := DrawPick(s, ALU_BITS);
    var dst := DrawRange(bits.state, 0, 5);
    var src := DrawRange(dst.state, 0, 5);
    Drawn(MakeRaw(16 * bits.value + 15, dst.value, src.value, 0, 0), src.state)
  }

  function DrawAlu32(s: bv64): Drawn<RawInsn> {
    var bits := DrawPick(s, ALU_BITS);
    var dst := DrawRange(bits.state, 0, 5);
    var imm := DrawRange(dst.state, -50, 50);
    Drawn(MakeRaw(16 * bits.value + 4, dst.value, 0, 0, imm.value), imm.state)
  }

  function DrawAnyMove(s: bv64): Drawn<RawInsn> {
    var dst := DrawRange(s, 0, 5);
    DrawMove(dst.state, dst.value, 0, 1000)
  }

  function DrawJump(s: bv64, left: nat): Drawn<RawInsn>
    requires left > 2
  {
    var off := DrawRange(s, 1, if left - 1 < 5 then left - 1 else 5);
    var bits := DrawPick(off.state, JMP_BITS);
    var dst := DrawRange(bits.state, 0, 5);
    var imm := DrawRange(dst.state, 0, 1000);
    Drawn(MakeRaw(16 * bits.value + 5, dst.value, 0, off.value, imm.value), imm.state)
  }

  /** One instruction of the body, with `left` instructions still to come before the exit. */
  function DrawBody(s: bv64, left: nat): Drawn<RawInsn> {
    var kind := DrawU64(s);
    if kind.value % 10 <= 3 then DrawAluImm(kind.state)
    else if kind.value % 10 <= 5 then DrawAluReg(kind.state)
    else if kind.value % 10 <= 7 then DrawAlu32(kind.state)
    else if kind.value % 10 == 8 then DrawAnyMove(kind.state)
    else if left > 2 then DrawJump(kind.state, left)
    else DrawMove(kind.state, 0, 0, 100)
  }

  /** The moves to R0, R1 and, by chance, each register below r. */
  function DrawPreamble(s: bv64, r: nat): (d: Drawn<seq<RawInsn>>)
    requires 2 <= r <= 10
  {
    if r == 2 then
      var r0 := DrawMove(s, 0, 0, 1000);
      var r1 := DrawMove(r0.state, 1, 1, 100);
      Drawn([r0.value, r1.value], r1.state)
    else
      var before := DrawPreamble(s, r - 1);
      var chance := DrawU64(before.state);
      if chance.value % 3 != 0 then Drawn(before.value, chance.state)
      else
        var move := DrawMove(chance.state, r - 1, 1, 50);
        Drawn(before.value + [move.value], move.state)
  }

  /** The first k of `count` body instructions. */
  function DrawBodies(s: bv64, count: nat, k: nat): Drawn<seq<RawInsn>>
    requires k <= count
  {
    if k == 0 then Drawn([], s)
    else
      var before := DrawBodies(s, count, k - 1);
      var next := DrawBody(before.state, count - (k - 1));
      Drawn(before.value + [next.value], next.state)
  }

  /** The program that a state of the generator stands for. */
  function Generated(s: bv64, maxInsns: nat): Drawn<seq<RawInsn>> {
    var size := DrawU64(s);
    var n := 2 + size.value % (if maxInsns <= 3 then 1 else maxInsns - 2);
    var preamble := DrawPreamble(size.state, 10);
    var start := |preamble.value|;
    var count := if n <= start + 1 then 0 else n - start - 1;
    var body := DrawBodies(preamble.state, count, count);
    Drawn(preamble.value + body.value + [MakeRaw(0x95, 0, 0, 0, 0)], body.state)
  }

  // ---------- the generator itself ----------

  /** A move of a small constant. */
  method InitMove(rng: Rng, r: u8, lo: i32, hi: i32) returns (raw: RawInsn, ghost insn: Insn)
    requires rng.Valid() && r <= 9 && -100 <= lo < hi <= 1000
    modifies rng
    ensures rng.Valid() && Drawn(raw, rng.state) == DrawMove(old(rng.state), r, lo, hi)
    ensures Decodes(raw, insn) && MovesTo(insn, r, lo, hi)
  {
    hide XorShift, Value, Decodes, MakeRaw, Wrap64, AsI64, DrawU64, DrawRange;
    var imm := rng.Range(lo, hi);
    raw := MakeRaw(16 * 11 + 7, r, 0, 0, imm);
    AluImmDecodes(true, 11, r, imm);
    insn := Alu64(Mov, r, Imm(imm));
  }

  /** What a pick chooses from, each with the same chance: eight operations on constants, five between
      registers and on 32 bits, six comparisons. */
  lemma OpsPicked()
    ensures |ALU_IMM_BITS| == 8 && |ALU_BITS| == 5 && |JMP_BITS| == 6
    ensures AluOpAt(ALU_IMM_BITS[0]) == Add && AluOpAt(ALU_IMM_BITS[1]) == Sub && AluOpAt(ALU_IMM_BITS[2]) == Mul
    ensures AluOpAt(ALU_IMM_BITS[3]) == Or && AluOpAt(ALU_IMM_BITS[4]) == And && AluOpAt(ALU_IMM_BITS[5]) == Xor
    ensures AluOpAt(ALU_IMM_BITS[6]) == Lsh && AluOpAt(ALU_IMM_BITS[7]) == Rsh
    ensures AluOpAt(ALU_BITS[0]) == Add && AluOpAt(ALU_BITS[1]) == Sub && AluOpAt(ALU_BITS[2]) == Or
    ensures AluOpAt(ALU_BITS[3]) == And && AluOpAt(ALU_BITS[4]) == Xor
    ensures JmpOpAt(JMP_BITS[0]) == Jeq && JmpOpAt(JMP_BITS[1]) == Jne && JmpOpAt(JMP_BITS[2]) == Jgt
    ensures JmpOpAt(JMP_BITS[3]) == Jge && JmpOpAt(JMP_BITS[4]) == Jlt && JmpOpAt(JMP_BITS[5]) == Jle
  {}

  lemma OpsDrawn(bits: nat)
    ensures bits in ALU_BITS ==> bits < 13 && AluOpAt(bits) in PLAIN_OPS
    ensures bits in ALU_IMM_BITS ==> bits < 13 && AluOpAt(bits) in PLAIN_OPS + {Mul, Lsh, Rsh}
  {}

  lemma ImmDrawn(bits: nat, imm: i32)
    requires bits in ALU_IMM_BITS && ImmFits(bits, imm)
    ensures bits < 13 && ConstantFits(AluOpAt(bits), imm) && AluOpAt(bits) != Mov
  {}

  predicate ImmFits(bits: nat, imm: i32) {
    if bits == 2 then 1 <= imm < 10
    else if bits == 3 then 1 <= imm < 100
    else if bits in {6, 7} then 0 <= imm < 16
    else -100 <= imm < 100
  }

  /** Immediate operands, by operation: small factors, shift amounts, or anything small. */
  method PickImm(rng: Rng, bits: nat) returns (imm: i32)
    requires rng.Valid()
    modifies rng
    ensures rng.Valid() && ImmFits(bits, imm) && Drawn(imm, rng.state) == DrawImm(old(rng.state), bits)
  {
    hide XorShift, Value, Wrap64, AsI64, DrawRange;
    if bits == 2 {
      imm := rng.Range(1, 10);
    } else if bits == 6 || bits == 7 {
      imm := rng.Range(0, 16);
    } else if bits == 3 {
      imm := rng.Range(1, 100);
    } else {
      imm := rng.Range(-100, 100);
    }
  }

  /** An operation on a small constant. */
  method BodyAluImm(rng: Rng) returns (raw: RawInsn, ghost insn: Insn)
    requires rng.Valid()
    modifies rng
    ensures rng.Valid() && Drawn(raw, rng.state) == DrawAluImm(old(rng.state))
    ensures Decodes(raw, insn) && insn.Alu64? && insn.dst <= 4 && insn.src.Imm? && ConstantFits(insn.op, insn.src.value)
    ensures insn.op != Mov
  {
    hide Decodes, XorShift, Value, MakeRaw, Wrap64, AsI64, DrawU64, DrawRange, DrawPick, AluOpAt, DrawImm;
    var bits := rng.Pick(ALU_IMM_BITS);
    var dst := rng.Range(0, 5);
    var imm := PickImm(rng, bits);
    ImmDrawn(bits, imm);
    raw := MakeRaw(16 * bits + 7, dst, 0, 0, imm);
    AluImmDecodes(true, bits, dst, imm);
    insn := Alu64(AluOpAt(bits), dst, Imm(imm));
  }

  /** A conditional jump that stays before the exit. */
  method BodyJump(rng: Rng, pc: nat, left: nat) returns (raw: RawInsn, ghost insn: Insn)
    requires rng.Valid() && left > 2
    modifies rng
    ensures rng.Valid() && Drawn(raw, rng.state) == DrawJump(old(rng.state), left)
    ensures Decodes(raw, insn) && BodyInsn(insn, pc, pc + left) && insn.JmpCond?
  {
    hide Decodes, XorShift, Value, MakeRaw, Wrap64, AsI64, DrawU64, DrawRange, DrawPick, JmpOpAt;
    var off := rng.Range(1, if left - 1 < 5 then left - 1 else 5);
    var bits := rng.Pick(JMP_BITS);
    var dst := rng.Range(0, 5);
    var imm := rng.Range(0, 1000);
    raw := MakeRaw(16 * bits + 5, dst, 0, off, imm);
    JmpDecodes(bits, dst, off, imm);
    JmpOpDrawn(bits);
    insn := JmpCond(JmpOpAt(bits), dst, Imm(imm), off);
  }

  /** An operation on two registers. */
  method BodyAluReg(rng: Rng) returns (raw: RawInsn, ghost insn: Insn)
    requires rng.Valid()
    modifies rng
    ensures rng.Valid() && Drawn(raw, rng.state) == DrawAluReg(old(rng.state))
    ensures Decodes(raw, insn) && insn.Alu64? && insn.op in PLAIN_OPS
    ensures insn.dst <= 4 && insn.src.Reg? && insn.src.reg <= 4
  {
    hide Decodes, XorShift, Value, MakeRaw, Wrap64, AsI64, DrawU64, DrawRange, DrawPick, AluOpAt;
    var bits := rng.Pick(ALU_BITS);
    var dst := rng.Range(0, 5);
    var src := rng.Range(0, 5);
    raw := MakeRaw(16 * bits + 15, dst, src, 0, 0);
    AluRegDecodes(bits, dst, src);
    OpsDrawn(bits);
    insn := Alu64(AluOpAt(bits), dst, Reg(src));
  }

  /** A 32-bit operation on a small constant. */
  method BodyAlu32(rng: Rng) returns (raw: RawInsn, ghost insn: Insn)
    requires rng.Valid()
    modifies rng
    ensures rng.Valid() && Drawn(raw, rng.state) == DrawAlu32(old(rng.state))
    ensures Decodes(raw, insn) && insn.Alu32? && insn.op in PLAIN_OPS
    ensures insn.dst <= 4 && insn.src.Imm? && -50 <= insn.src.value < 50
  {
    hide Decodes, XorShift, Value, MakeRaw, Wrap64, AsI64, DrawU64, DrawRange, DrawPick, AluOpAt;
    var bits := rng.Pick(ALU_BITS);
    var dst := rng.Range(0, 5);
    var imm := rng.Range(-50, 50);
    raw := MakeRaw(16 * bits + 4, dst, 0, 0, imm);
    AluImmDecodes(false, bits, dst, imm);
    OpsDrawn(bits);
    insn := Alu32(AluOpAt(bits), dst, Imm(imm));
  }

  /** The kind of instruction that a digit stands for: four in ten operate on a constant, two on a
      register, two on 32 bits; one is a move; and one a jump, if there is room for it, or a move to R0. */
  predicate KindFits(digit: nat, left: nat, i: Insn) {
    if digit <= 3 then i.Alu64? && i.src.Imm? && i.op != Mov
    else if digit <= 5 then i.Alu64? && i.src.Reg?
    else if digit <= 7 then i.Alu32?
    else if digit == 8 then i.Alu64? && i.op == Mov && i.src.Imm?
    else if left > 2 then i.JmpCond?
    else MovesTo(i, 0, 0, 100)
  }

  /** One instruction of the body, at distance `left` before the exit. */
  method BodyStep(rng: Rng, pc: nat, left: nat) returns (raw: RawInsn, ghost insn: Insn)
    requires rng.Valid() && left > 0
    modifies rng
    ensures rng.Valid() && Drawn(raw, rng.state) == DrawBody(old(rng.state), left)
    ensures Decodes(raw, insn) && BodyInsn(insn, pc, pc + left)
    ensures KindFits(Value(XorShift(old(rng.state))) % 10, left, insn)
  {
    hide Decodes, XorShift, Value, MakeRaw, Wrap64, AsI64, DrawU64, DrawRange, DrawPick, DrawAluImm, DrawAluReg,
         DrawAlu32, DrawJump, DrawMove;
    var x := rng.NextU64();
    var kind := x % 10;
    if kind <= 3 {
      raw, insn := BodyAluImm(rng);
    } else if kind <= 5 {
      raw, insn := BodyAluReg(rng);
    } else if kind <= 7 {
      raw, insn := BodyAlu32(rng);
    } else if kind == 8 {
      var dst := rng.Range(0, 5);
      raw, insn := InitMove(rng, dst, 0, 1000);
    } else if left > 2 {
      raw, insn := BodyJump(rng, pc, left);
    } else {
      raw, insn := InitMove(rng, 0, 0, 100);
    }
  }

  /** Decoded moves, to R0 and R1 first. */
  ghost predicate MovesSoFar(raw: seq<RawInsn>, insns: seq<Insn>) {
    && AllDecode(raw, insns) && StartsWithR0R1(insns) && forall k :: 0 <= k < |insns| ==> InitInsn(insns[k])
  }

  lemma OneMoreMove(raw: seq<RawInsn>, insns: seq<Insn>, r: RawInsn, i: Insn)
    requires MovesSoFar(raw, insns) && Decodes(r, i) && InitInsn(i)
    ensures MovesSoFar(raw + [r], insns + [i])
  {
    hide Decodes, InitInsn;
  }

  lemma AnyInit(i: Insn, r: nat)
    requires 2 <= r <= 9 && MovesTo(i, r, 1, 50)
    ensures InitInsn(i)
  {}

  lemma TwoMoves(r0: RawInsn, r1: RawInsn, i0: Insn, i1: Insn)
    requires Decodes(r0, i0) && Decodes(r1, i1) && MovesTo(i0, 0, 0, 1000) && MovesTo(i1, 1, 1, 100)
    ensures MovesSoFar([r0, r1], [i0, i1])
  {
    hide Decodes;
  }

  lemma PreambleMore(s: bv64, r: nat)
    requires 2 <= r < 10
    ensures var before := DrawPreamble(s, r);
            var chance := DrawU64(before.state);
            DrawPreamble(s, r + 1)
              == if chance.value % 3 != 0 then Drawn(before.value, chance.state)
                 else
                   var move := DrawMove(chance.state, r, 1, 50);
                   Drawn(before.value + [move.value], move.state)
  {
    hide DrawMove, DrawU64;
  }

  lemma PreambleStart(s: bv64)
    ensures var r0 := DrawMove(s, 0, 0, 1000);
            var r1 := DrawMove(r0.state, 1, 1, 100);
            DrawPreamble(s, 2) == Drawn([r0.value, r1.value], r1.state)
  {
    hide DrawMove;
  }

  /** R0 and R1 always, R2 to R9 each by chance. */
  method Preamble(rng: Rng) returns (raw: seq<RawInsn>, ghost insns: seq<Insn>)
    requires rng.Valid()
    modifies rng
    ensures rng.Valid() && Drawn(raw, rng.state) == DrawPreamble(old(rng.state), 10)
    ensures MovesSoFar(raw, insns) && 2 <= |insns| <= 10
  {
    hide Decodes, InitInsn, XorShift, Value, Wrap64, AsI64, DrawMove, DrawU64, DrawPreamble, MovesSoFar;
    ghost var i0, i1;
    var r0, r1;
    PreambleStart(rng.state);
    r0, i0 := InitMove(rng, 0, 0, 1000);
    r1, i1 := InitMove(rng, 1, 1, 100);
    TwoMoves(r0, r1, i0, i1);
    raw, insns := [r0, r1], [i0, i1];
    for r := 2 to 10
      invariant rng.Valid() && MovesSoFar(raw, insns) && 2 <= |insns| <= r
      invariant Drawn(raw, rng.state) == DrawPreamble(old(rng.state), r)
    {
      PreambleMore(old(rng.state), r);
      var x := rng.NextU64();
      if x % 3 == 0 {
        var m;
        ghost var i;
        m, i := InitMove(rng, r, 1, 50);
        AnyInit(i, r);
        OneMoreMove(raw, insns, m, i);
        raw, insns := raw + [m], insns + [i];
      }
    }
  }

  /** The program so far: the preamble and the first k of `count` body instructions. */
  ghost function AfterPreamble(preamble: seq<RawInsn>, s: bv64, count: nat, k: nat): Drawn<seq<RawInsn>>
    requires k <= count
  {
    var body := DrawBodies(s, count, k);
    Drawn(preamble + body.value, body.state)
  }

  lemma NoBodyYet(preamble: seq<RawInsn>, s: bv64, count: nat)
    ensures AfterPreamble(preamble, s, count, 0) == Drawn(preamble, s)
  {
    assert preamble + [] == preamble;
  }

  lemma OneMoreDrawn(preamble: seq<RawInsn>, s: bv64, count: nat, k: nat)
    requires k < count
    ensures var before := AfterPreamble(preamble, s, count, k);
            var next := DrawBody(before.state, count - k);
            AfterPreamble(preamble, s, count, k + 1) == Drawn(before.value + [next.value], next.state)
  {
    hide DrawBody;
    var body, next := DrawBodies(s, count, k), DrawBody(DrawBodies(s, count, k).state, count - k);
    assert preamble + (body.value + [next.value]) == preamble + body.value + [next.value];
  }

  lemma WholeProgram(s: bv64, maxInsns: nat, preamble: seq<RawInsn>, state: bv64, count: nat)
    requires Drawn(preamble, state) == DrawPreamble(DrawU64(s).state, 10)
    requires var n := 2 + DrawU64(s).value % (if maxInsns <= 3 then 1 else maxInsns - 2);
             count == if n <= |preamble| + 1 then 0 else n - |preamble| - 1
    ensures var d := AfterPreamble(preamble, state, count, count);
            Generated(s, maxInsns) == Drawn(d.value + [MakeRaw(0x95, 0, 0, 0, 0)], d.state)
  {
    hide DrawPreamble, DrawBodies, MakeRaw;
  }

  /** Preamble and part of a body that ends before `last`, decoded. */
  ghost predicate SoFar(raw: seq<RawInsn>, insns: seq<Insn>, pre: nat, last: nat) {
    && AllDecode(raw, insns) && 2 <= pre <= |insns| && StartsWithR0R1(insns)
    && (forall k :: 0 <= k < pre ==> InitInsn(insns[k]))
    && (forall k :: pre <= k < |insns| ==> BodyInsn(insns[k], k, last))
  }

  lemma OneMoreSoFar(raw: seq<RawInsn>, insns: seq<Insn>, pre: nat, last: nat, r: RawInsn, i: Insn)
    requires SoFar(raw, insns, pre, last) && Decodes(r, i) && BodyInsn(i, |insns|, last)
    ensures SoFar(raw + [r], insns + [i], pre, last)
  {
    hide Decodes, BodyInsn, InitInsn;
  }

  lemma ShapeDone(raw: seq<RawInsn>, insns: seq<Insn>, pre: nat, r: RawInsn)
    requires SoFar(raw, insns, pre, |insns|) && Decodes(r, Exit)
    ensures AllDecode(raw + [r], insns + [Exit]) && Shape(insns + [Exit], pre)
  {
    hide Decodes, BodyInsn, InitInsn;
  }

  /** Generates a program: its instructions, its decoded form and the length of its preamble. */
  method GenerateProgram(rng: Rng, maxInsns: nat) returns (raw: seq<RawInsn>, ghost insns: seq<Insn>, ghost pre: nat)
    requires rng.Valid()
    modifies rng
    ensures rng.Valid() && Drawn(raw, rng.state) == Generated(old(rng.state), maxInsns)
    ensures AllDecode(raw, insns) && Shape(insns, pre)
    ensures var n := 2 + Value(XorShift(old(rng.state))) % (if maxInsns <= 3 then 1 else maxInsns - 2);
            |raw| == if n <= pre + 1 then pre + 1 else n
    ensures |raw| <= if maxInsns < 11 then 11 else maxInsns
  {
    hide Decodes, BodyInsn, InitInsn, XorShift, Value, Wrap64, AsI64, DrawU64, Generated, DrawPreamble, DrawBody,
         MakeRaw, AfterPreamble, Shape;
    var x := rng.NextU64();
    var n := 2 + x % (if maxInsns <= 3 then 1 else maxInsns - 2);
    raw, insns := Preamble(rng);
    pre := |insns|;
    var start := |raw|;
    var remaining := if n <= start + 1 then 0 else n - start - 1;
    ghost var last := start + remaining;
    ghost var preamble, state := raw, rng.state;
    assert SoFar(raw, insns, pre, last);
    hide SoFar, StartsWithR0R1;
    NoBodyYet(preamble, state, remaining);
    for i := 0 to remaining
      invariant rng.Valid() && SoFar(raw, insns, pre, last) && |raw| == |insns| == start + i
      invariant Drawn(raw, rng.state) == AfterPreamble(preamble, state, remaining, i)
    {
      var r;
      ghost var insn;
      r, insn := BodyStep(rng, start + i, remaining - i);
      OneMoreDrawn(preamble, state, remaining, i);
      OneMoreSoFar(raw, insns, pre, last, r, insn);
      raw, insns := raw + [r], insns + [insn];
    }
    ExitDecodes();
    WholeProgram(old(rng.state), maxInsns, preamble, state, remaining);
    ShapeDone(raw, insns, pre, MakeRaw(0x95, 0, 0, 0, 0));
    raw, insns := raw + [MakeRaw(0x95, 0, 0, 0, 0)], insns + [Exit];
  }

  // ---------- what the shape guarantees ----------

  lemma ShapeInsn(insns: seq<Insn>, pre: nat, pc: nat)
    requires Shape(insns, pre) && pc < |insns|
    ensures pc < pre ==> InitInsn(insns[pc])
    ensures pre <= pc < |insns| - 1 ==> BodyInsn(insns[pc], pc, |insns| - 1)
    ensures pc == |insns| - 1 ==> insns[pc].Exit?
    ensures 10 !in Writes(insns[pc]) && !FrameAccess(insns[pc]) && !insns[pc].TailCall?
    ensures IsBranch(insns[pc]) ==> pc < Target(insns, pc) < |insns|
    ensures pc < |insns| - 1 ==> FallsThrough(insns[pc])
    ensures insns[pc].Alu64? || insns[pc].Alu32? || insns[pc].Exit? || (insns[pc].JmpCond? && insns[pc].jop != Jset)
  {}

  lemma ShapeForward(insns: seq<Insn>, pre: nat)
    requires Shape(insns, pre)
    ensures BranchesInRange(insns) && BackwardBranches(insns) == {} && EndOk(insns) && NoTailCall(insns)
  {
    hide Shape;
    forall pc: nat | pc < |insns|
      ensures BranchInRange(insns, pc) && pc !in BackwardBranches(insns) && !insns[pc].TailCall?
    {
      ShapeInsn(insns, pre, pc);
    }
    ShapeSize(insns, pre);
    ShapeInsn(insns, pre, |insns| - 1);
  }

  lemma ShapeSize(insns: seq<Insn>, pre: nat)
    requires Shape(insns, pre)
    ensures |insns| > 2 && 2 <= pre < |insns|
  {}

  /** Every instruction is reached by falling through from the first. */
  lemma {:induction false} ShapeReachable(insns: seq<Insn>, pre: nat, pc: nat)
    requires Shape(insns, pre) && pc < |insns|
    ensures Reachable(insns, pc)
    decreases pc
  {
    if pc == 0 {
      assert PathTo(insns, [0], 0);
    } else {
      ShapeReachable(insns, pre, pc - 1);
      ShapeInsn(insns, pre, pc - 1);
      hide Shape;
      var p :| PathTo(insns, p, pc - 1);
      ExtendPath(insns, p, pc);
    }
  }

  /** A generated program can be rejected for one reason only. */
  lemma OnlyUninitialised(insns: seq<Insn>, pre: nat, e: Cfg.VerifyError)
    requires Shape(insns, pre) && Verifier.Justified(insns, e)
    ensures e.UninitializedRegRead?
  {
    hide Shape, Reachable;
    ShapeSize(insns, pre);
    ShapeForward(insns, pre);
    match e
    case UnreachableCode(pc) => ShapeReachable(insns, pre, pc);
    case WriteToR10(pc) => ShapeInsn(insns, pre, pc);
    case StackOutOfBounds(pc, off) => ShapeInsn(insns, pre, pc);
    case BranchOutOfBounds(pc, target) => ShapeInsn(insns, pre, pc);
    case NoExitInstruction => ShapeInsn(insns, pre, |insns| - 1);
    case _ =>
  }

  // ---------- initialised registers ----------

  /** Along every path the moves of the preamble passed so far have taken effect. */
  lemma {:induction false} PreambleInitialises(insns: seq<Insn>, pre: nat, p: seq<nat>, j: nat)
    requires Shape(insns, pre) && IsPath(insns, p) && j < pre && j < Last(p)
    ensures insns[j].Alu64? && insns[j].dst in Initialised(insns, p)
    decreases |p|
  {
    ShapeInsn(insns, pre, j);
    assert |p| > 1;
    var q := p[..|p| - 1];
    var u := Last(q);
    assert IsPath(insns, q) && Edge(insns, u, Last(p)) by { PathPrefix(insns, p); }
    ShapeInsn(insns, pre, u);
    if u < j || u == j {
      assert u < pre;
      assert Last(p) == u + 1;
      assert u == j;
      assert insns[u].dst in Writes(insns[u]);
    } else {
      PreambleInitialises(insns, pre, q, j);
      assert !insns[u].Call?;
    }
  }

  lemma PathPrefix(insns: seq<Insn>, p: seq<nat>)
    requires IsPath(insns, p) && |p| > 1
    ensures IsPath(insns, p[..|p| - 1]) && Edge(insns, Last(p[..|p| - 1]), Last(p))
    ensures Initialised(insns, p) == Transfer(insns[Last(p[..|p| - 1])], Initialised(insns, p[..|p| - 1]))
  {
    assert Edge(insns, p[|p| - 2], p[|p| - 1]);
  }

  predicate Defines(insns: seq<Insn>, pre: nat, r: BpfReg) {
    pre <= |insns| && exists j :: 0 <= j < pre && insns[j].Alu64? && insns[j].dst == r
  }

  /** The preamble initialises R2, R3 and R4 too. */
  predicate InitialisesLow(insns: seq<Insn>, pre: nat) {
    Defines(insns, pre, 2) && Defines(insns, pre, 3) && Defines(insns, pre, 4)
  }

  lemma LowInitialised(insns: seq<Insn>, pre: nat, p: seq<nat>, r: BpfReg)
    requires Shape(insns, pre) && InitialisesLow(insns, pre) && IsPath(insns, p) && Last(p) >= pre && r <= 4
    ensures r in Initialised(insns, p)
  {
    if r < 2 {
      PreambleInitialises(insns, pre, p, r);
    } else {
      assert Defines(insns, pre, r);
      var j :| 0 <= j < pre && insns[j].Alu64? && insns[j].dst == r;
      PreambleInitialises(insns, pre, p, j);
    }
  }

  lemma BodyReadsLow(insns: seq<Insn>, pre: nat, pc: nat)
    requires Shape(insns, pre) && pc < |insns|
    ensures pc < pre ==> Reads(insns[pc]) == []
    ensures forall r :: r in Reads(insns[pc]) ==> r <= 4
  {
    ShapeInsn(insns, pre, pc);
  }

  /** If the preamble initialises R2 to R4, the program is safe, so verification accepts it. */
  lemma InitialisedIsSafe(insns: seq<Insn>, pre: nat)
    requires Shape(insns, pre) && InitialisesLow(insns, pre)
    ensures Safe(insns)
  {
    hide Shape, InitialisesLow;
    ShapeForward(insns, pre);
    ShapeSize(insns, pre);
    forall pc: nat | pc < |insns|
      ensures Reachable(insns, pc)
    {
      ShapeReachable(insns, pre, pc);
    }
    forall p | IsPath(insns, p)
      ensures PathOk(insns, p)
    {
      GeneratedPathOk(insns, pre, p);
    }
    ShapeInsn(insns, pre, |insns| - 1);
    assert insns[(|insns| - 1) as nat].Exit?;
  }

  lemma GeneratedPathOk(insns: seq<Insn>, pre: nat, p: seq<nat>)
    requires Shape(insns, pre) && InitialisesLow(insns, pre) && IsPath(insns, p)
    ensures PathOk(insns, p)
  {
    var pc := Last(p);
    hide Shape, InitialisesLow, Initialised;
    ShapeInsn(insns, pre, pc);
    BodyReadsLow(insns, pre, pc);
    if pc >= pre {
      forall r | r in Reads(insns[pc])
        ensures r in Initialised(insns, p)
      {
        LowInitialised(insns, pre, p, r);
      }
    }
  }

  // ---------- running ----------

  lemma ShapeStep(insns: seq<Insn>, pre: nat, stackAddr: u64, s: State)
    requires Shape(insns, pre) && Addressable(insns) && s.pc < |insns| - 1 && !s.halted
    ensures Step(insns, stackAddr, s).Running?
    ensures s.pc < Step(insns, stackAddr, s).next.pc < |insns| && !Step(insns, stackAddr, s).next.halted
  {
    hide EvalAlu64, EvalAlu32, EvalJmp, Shape, InitInsn, BodyInsn, FrameAccess, FallsThrough;
    ShapeInsn(insns, pre, s.pc);
    ShapeSize(insns, pre);
  }

  /** From anywhere in a generated program the interpreter gets to the final exit, in at most as many
      steps as there are instructions ahead — initialised registers or not. */
  lemma {:induction false} RunsToExit(insns: seq<Insn>, pre: nat, stackAddr: u64, s: State, maxSteps: nat)
    requires Shape(insns, pre) && Addressable(insns) && s.pc < |insns| && !s.halted && maxSteps >= |insns| - s.pc
    ensures Run(insns, stackAddr, s, maxSteps).Some?
    ensures Run(insns, stackAddr, s, maxSteps).value.halted
    ensures Run(insns, stackAddr, s, maxSteps).value.pc == |insns| - 1
    decreases maxSteps
  {
    if s.pc < |insns| - 1 {
      ShapeStep(insns, pre, stackAddr, s);
      hide Step, Shape;
      RunsToExit(insns, pre, stackAddr, Step(insns, stackAddr, s).next, maxSteps - 1);
    } else {
      ShapeInsn(insns, pre, s.pc);
    }
  }

  // ---------- what the result depends on ----------

  /** All registers but R10, and but R1 before the preamble sets it. */
  function Relevant(pc: nat): set<BpfReg> {
    {0, 2, 3, 4, 5, 6, 7, 8, 9} + if pc < 2 then {} else {1}
  }

  lemma OkOnRelevant(insns: seq<Insn>, pre: nat, pc: nat)
    requires Shape(insns, pre) && pc < |insns|
    ensures InsnOk(insns[pc], Relevant(pc)) && !insns[pc].Call?
  {
    hide Shape, Writes, Reads, IsBranch, Target, FallsThrough, InitInsn, BodyInsn, FrameAccess;
    ShapeInsn(insns, pre, pc);
    BodyReadsLow(insns, pre, pc);
    ShapeSize(insns, pre);
  }

  /** What is relevant next was relevant before or has just been set. */
  lemma StaysRelevant(i: Insn, pc: nat, next: nat)
    requires pc < next && (pc == 0 ==> next == 1) && (pc == 1 ==> Writes(i) == {1}) && !i.Call?
    ensures Relevant(next) <= Transfer(i, Relevant(pc))
  {
    hide Writes;
  }

  lemma AgreeLess(big: set<BpfReg>, small: set<BpfReg>, a: State, b: State)
    requires Agree(big, a, b) && small <= big
    ensures Agree(small, a, b)
  {}

  lemma StepRelevant(insns: seq<Insn>, pre: nat, stackAddr: u64, a: State, b: State)
    requires Shape(insns, pre) && Addressable(insns) && a.pc < |insns| - 1 && !a.halted && Agree(Relevant(a.pc), a, b)
    ensures Step(insns, stackAddr, a).Running? && Step(insns, stackAddr, b).Running?
    ensures var u := Step(insns, stackAddr, a).next;
            a.pc < u.pc < |insns| && !u.halted && Agree(Relevant(u.pc), u, Step(insns, stackAddr, b).next)
  {
    hide *;
    ShapeStep(insns, pre, stackAddr, a);
    OkOnRelevant(insns, pre, a.pc);
    ShapeSize(insns, pre);
    MovesFirst(insns, pre, stackAddr, a);
    StepAgrees(Relevant(a.pc), insns, stackAddr, a, b);
    var u, w := Step(insns, stackAddr, a).next, Step(insns, stackAddr, b).next;
    StaysRelevant(insns[a.pc], a.pc, u.pc);
    AgreeLess(Transfer(insns[a.pc], Relevant(a.pc)), Relevant(u.pc), u, w);
  }

  /** The second instruction sets R1, and the first one leads to it. */
  lemma MovesFirst(insns: seq<Insn>, pre: nat, stackAddr: u64, a: State)
    requires Shape(insns, pre) && Addressable(insns) && a.pc < |insns| - 1 && !a.halted
    ensures Writes(insns[1]) == {1}
    ensures a.pc == 0 ==> Step(insns, stackAddr, a).Running? && Step(insns, stackAddr, a).next.pc == 1
  {
    hide EvalAlu64, EvalAlu32, EvalJmp;
  }

  /** The result of a generated program does not depend on the registers it is entered with, verified
      or not; and it never panics, whatever the step limit. */
  lemma {:induction false} ResultIsClosed(insns: seq<Insn>, pre: nat, stackAddr: u64, a: State, b: State, maxSteps: nat)
    requires Shape(insns, pre) && Addressable(insns) && a.pc < |insns| && !a.halted && Agree(Relevant(a.pc), a, b)
    ensures Run(insns, stackAddr, a, maxSteps).Some? && Run(insns, stackAddr, b, maxSteps).Some?
    ensures Run(insns, stackAddr, a, maxSteps).value.regs[0] == Run(insns, stackAddr, b, maxSteps).value.regs[0]
    decreases maxSteps
  {
    ShapeInsn(insns, pre, a.pc);
    hide Shape;
    if a.pc < |insns| - 1 && maxSteps > 0 {
      StepRelevant(insns, pre, stackAddr, a, b);
      hide Step;
      ResultIsClosed(insns, pre, stackAddr, Step(insns, stackAddr, a).next, Step(insns, stackAddr, b).next,
          maxSteps - 1);
    }
  }

  lemma GeneratedSize(raw: seq<RawInsn>, insns: seq<Insn>)
    requires AllDecode(raw, insns)
    ensures |raw| == |insns|
  {}
}
