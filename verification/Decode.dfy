/** The bytecode decoder, and the canonical encoding it inverts (sections 3 to 5 of RFC 9669). */
module Decode {
  import opened Isa

  const MAX_INSNS := 1_000_000

  datatype RawInsn = RawInsn(opcode: u8, regs: u8, off: i16, imm: i32) {
    function DstReg(): u8 { regs % 16 }
    function SrcReg(): u8 { regs / 16 }
    function Class(): nat { opcode % 8 }
    /** Bits 7 to 4: the operation. */
    function OpBits(): nat { opcode / 16 }
    /** Bit 3: the operand is a register. */
    predicate IsX() { opcode / 8 % 2 == 1 }
    /** Bits 4 and 3, and bits 7 to 5, of a memory instruction. */
    function SizeCode(): nat { opcode / 8 % 4 }
    function Mode(): nat { opcode / 32 }
  }

  datatype DecodeError =
    | UnknownOpcode(pc: nat, opcode: u8)
    | InvalidRegister(pc: nat, raw: u8)
    | TruncatedWideInsn(pc: nat)
    | ProgramTooLarge(count: nat)
    | EmptyProgram
    | InvalidAtomicOp(pc: nat, atomic: u32)
    | InvalidEndianWidth(pc: nat, width: i32)

  datatype Outcome<+T> = Ok(value: T) | Err(error: DecodeError) {
    predicate IsFailure() { Err? }
    function PropagateFailure<U>(): Outcome<U>
      requires Err?
    {
      Err(error)
    }
    function Extract(): T
      requires Ok?
    {
      value
    }
  }

  // ---------- fields ----------

  function RegOf(raw: u8, pc: nat): Outcome<BpfReg> {
    if raw <= 10 then Ok(raw) else Err(InvalidRegister(pc, raw))
  }

  function SourceOf(r: RawInsn, pc: nat): Outcome<Source> {
    if r.IsX() then
      var s :- RegOf(r.SrcReg(), pc);
      Ok(Reg(s))
    else Ok(Imm(r.imm))
  }

  function AluOpOf(r: RawInsn, pc: nat): Outcome<AluOp> {
    match r.OpBits()
    case 0 => Ok(Add)
    case 1 => Ok(Sub)
    case 2 => Ok(Mul)
    case 3 => Ok(Div)
    case 4 => Ok(Or)
    case 5 => Ok(And)
    case 6 => Ok(Lsh)
    case 7 => Ok(Rsh)
    case 8 => Ok(Neg)
    case 9 => Ok(Mod)
    case 10 => Ok(Xor)
    case 11 => Ok(Mov)
    case 12 => Ok(Arsh)
    case _ => Err(UnknownOpcode(pc, r.opcode))
  }

  function JmpOpOf(r: RawInsn, pc: nat): Outcome<JmpOp> {
    match r.OpBits()
    case 0 => Ok(Ja)
    case 1 => Ok(Jeq)
    case 2 => Ok(Jgt)
    case 3 => Ok(Jge)
    case 4 => Ok(Jset)
    case 5 => Ok(Jne)
    case 6 => Ok(Jsgt)
    case 7 => Ok(Jsge)
    case 10 => Ok(Jlt)
    case 11 => Ok(Jle)
    case 12 => Ok(Jslt)
    case 13 => Ok(Jsle)
    case _ => Err(UnknownOpcode(pc, r.opcode))
  }

  function WidthOf(r: RawInsn): MemWidth {
    match r.SizeCode()
    case 0 => W
    case 1 => H
    case 2 => B
    case _ => DW
  }

  /** An i32 read as u32. */
  function Unsigned(imm: i32): u32 { if imm >= 0 then imm else imm + TWO_32 }

  function AtomicOpOf(imm: u32, pc: nat): Outcome<AtomicOp> {
    var fetch := imm % 2 == 1;
    var base := imm - imm % 2;
    if base == 0x00 then Ok(if fetch then FetchAdd else AtomicAdd)
    else if base == 0x40 then Ok(if fetch then FetchOr else AtomicOr)
    else if base == 0x50 then Ok(if fetch then FetchAnd else AtomicAnd)
    else if base == 0xA0 then Ok(if fetch then FetchXor else AtomicXor)
    else if imm == 0xE1 then Ok(Xchg)
    else if imm == 0xF1 then Ok(CmpXchg)
    else Err(InvalidAtomicOp(pc, imm))
  }

  // ---------- instruction classes ----------

  function DecodeAlu(r: RawInsn, pc: nat, is64: bool): Outcome<Insn> {
    var dst :- RegOf(r.DstReg(), pc);
    if r.OpBits() == 13 then
      if r.imm == 16 then Ok(Endian(r.IsX(), Bits16, dst))
      else if r.imm == 32 then Ok(Endian(r.IsX(), Bits32, dst))
      else if r.imm == 64 then Ok(Endian(r.IsX(), Bits64, dst))
      else Err(InvalidEndianWidth(pc, r.imm))
    else
      var op :- AluOpOf(r, pc);
      var src :- SourceOf(r, pc);
      Ok(if is64 then Alu64(op, dst, src) else Alu32(op, dst, src))
  }

  function DecodeJmp(r: RawInsn, pc: nat): Outcome<Insn> {
    if r.OpBits() == 0 then Ok(Jump(r.off))
    else if r.OpBits() == 8 then Ok(Call(Unsigned(r.imm)))
    else if r.OpBits() == 9 then Ok(Exit)
    else
      var op :- JmpOpOf(r, pc);
      var dst :- RegOf(r.DstReg(), pc);
      var src :- SourceOf(r, pc);
      Ok(JmpCond(op, dst, src, r.off))
  }

  function DecodeJmp32(r: RawInsn, pc: nat): Outcome<Insn> {
    var op :- JmpOpOf(r, pc);
    var dst :- RegOf(r.DstReg(), pc);
    var src :- SourceOf(r, pc);
    Ok(JmpCond32(op, dst, src, r.off))
  }

  function DecodeLdx(r: RawInsn, pc: nat): Outcome<Insn> {
    var dst :- RegOf(r.DstReg(), pc);
    var src :- RegOf(r.SrcReg(), pc);
    Ok(Load(WidthOf(r), dst, src, r.off))
  }

  function DecodeStx(r: RawInsn, pc: nat): Outcome<Insn> {
    var dst :- RegOf(r.DstReg(), pc);
    var src :- RegOf(r.SrcReg(), pc);
    if r.Mode() == 6 then
      var op :- AtomicOpOf(Unsigned(r.imm), pc);
      Ok(Atomic(WidthOf(r), op, dst, src, r.off))
    else Ok(StoreReg(WidthOf(r), dst, src, r.off))
  }

  function DecodeSt(r: RawInsn, pc: nat): Outcome<Insn> {
    var dst :- RegOf(r.DstReg(), pc);
    Ok(StoreImm(WidthOf(r), dst, r.off, r.imm))
  }

  function DecodeLd(raw: seq<RawInsn>, pc: nat): Outcome<Insn>
    requires pc < |raw|
  {
    var r := raw[pc];
    if r.Mode() != 0 || r.SizeCode() != 3 then Err(UnknownOpcode(pc, r.opcode))
    else if pc + 1 >= |raw| then Err(TruncatedWideInsn(pc))
    else
      var dst :- RegOf(r.DstReg(), pc);
      Ok(LoadImm64(dst, Unsigned(r.imm) + TWO_32 * Unsigned(raw[pc + 1].imm)))
  }

  /** The instruction in slot pc. */
  function DecodeAt(raw: seq<RawInsn>, pc: nat): Outcome<Insn>
    requires pc < |raw|
  {
    var r := raw[pc];
    match r.Class()
    case 0 => DecodeLd(raw, pc)
    case 1 => DecodeLdx(r, pc)
    case 2 => DecodeSt(r, pc)
    case 3 => DecodeStx(r, pc)
    case 4 => DecodeAlu(r, pc, false)
    case 5 => DecodeJmp(r, pc)
    case 6 => DecodeJmp32(r, pc)
    case _ => DecodeAlu(r, pc, true)
  }

  /** How many slots an instruction takes. */
  function Slots(i: Insn): (n: nat)
    ensures 1 <= n <= 2
  {
    if i.LoadImm64? then 2 else 1
  }

  /** A wide instruction has its second slot. */
  lemma WideFits(raw: seq<RawInsn>, pc: nat)
    requires pc < |raw| && DecodeAt(raw, pc).Ok?
    ensures pc + Slots(DecodeAt(raw, pc).value) <= |raw|
  {
    hide AluOpOf, JmpOpOf, AtomicOpOf, SourceOf, RegOf, WidthOf;
  }

  /** The instructions from slot pc on. */
  function DecodeFrom(raw: seq<RawInsn>, pc: nat): Outcome<seq<Insn>>
    requires pc <= |raw|
    decreases |raw| - pc
  {
    if pc == |raw| then Ok([])
    else
      var insn :- DecodeAt(raw, pc);
      WideFits(raw, pc);
      var rest :- DecodeFrom(raw, pc + Slots(insn));
      Ok([insn] + rest)
  }

  function DecodeAll(raw: seq<RawInsn>): Outcome<seq<Insn>> {
    if raw == [] then Err(EmptyProgram)
    else if |raw| > MAX_INSNS then Err(ProgramTooLarge(|raw|))
    else DecodeFrom(raw, 0)
  }

  lemma DecodeStep(raw: seq<RawInsn>, pc: nat)
    requires pc < |raw|
    ensures DecodeAt(raw, pc).Err? ==> DecodeFrom(raw, pc) == Err(DecodeAt(raw, pc).error)
    ensures DecodeAt(raw, pc).Ok? ==>
              var i := DecodeAt(raw, pc).value;
              pc + Slots(i) <= |raw|
              && DecodeFrom(raw, pc) == Prepend([i], DecodeFrom(raw, pc + Slots(i)))
  {
    hide DecodeAt;
    if DecodeAt(raw, pc).Ok? {
      WideFits(raw, pc);
    }
  }

  /** One scan over the slots; a wide instruction takes two. */
  method DecodeProgram(raw: seq<RawInsn>) returns (r: Outcome<seq<Insn>>)
    ensures r == DecodeAll(raw)
  {
    hide DecodeAt, DecodeFrom;
    if raw == [] {
      return Err(EmptyProgram);
    }
    if |raw| > MAX_INSNS {
      return Err(ProgramTooLarge(|raw|));
    }
    var insns := [];
    var pc := 0;
    PrependNothing(DecodeFrom(raw, 0));
    while pc < |raw|
      invariant pc <= |raw|
      invariant DecodeFrom(raw, 0) == Prepend(insns, DecodeFrom(raw, pc))
    {
      DecodeStep(raw, pc);
      var insn := DecodeAt(raw, pc);
      if insn.Err? {
        return Err(insn.error);
      }
      PrependOne(insns, insn.value, DecodeFrom(raw, pc + Slots(insn.value)));
      insns := insns + [insn.value];
      pc := pc + Slots(insn.value);
    }
    AtEnd(raw);
    assert insns + [] == insns;
    r := Ok(insns);
  }

  function Prepend(before: seq<Insn>, rest: Outcome<seq<Insn>>): Outcome<seq<Insn>> {
    match rest
    case Ok(insns) => Ok(before + insns)
    case Err(e) => Err(e)
  }

  lemma PrependNothing(rest: Outcome<seq<Insn>>)
    ensures Prepend([], rest) == rest
  {
    assert rest.Ok? ==> [] + rest.value == rest.value;
  }

  lemma PrependOne(before: seq<Insn>, i: Insn, rest: Outcome<seq<Insn>>)
    ensures Prepend(before, Prepend([i], rest)) == Prepend(before + [i], rest)
  {
    assert rest.Ok? ==> before + ([i] + rest.value) == before + [i] + rest.value;
  }

  lemma AtEnd(raw: seq<RawInsn>)
    ensures DecodeFrom(raw, |raw|) == Ok([])
  {}

  // ---------- conservation ----------

  /** Slots taken by the first k instructions. */
  function SlotOf(insns: seq<Insn>, k: nat): nat
    requires k <= |insns|
  {
    if k == 0 then 0 else SlotOf(insns, k - 1) + Slots(insns[k - 1])
  }

  lemma {:induction false} SlotOfCons(i: Insn, rest: seq<Insn>, k: nat)
    requires k <= |rest|
    ensures SlotOf([i] + rest, k + 1) == Slots(i) + SlotOf(rest, k)
  {
    if k > 0 {
      SlotOfCons(i, rest, k - 1);
    } else {
      assert SlotOf([i] + rest, 0) == 0;
    }
  }

  lemma {:induction false} SlotsTaken(raw: seq<RawInsn>, pc: nat, insns: seq<Insn>)
    requires pc <= |raw| && DecodeFrom(raw, pc) == Ok(insns)
    ensures pc + SlotOf(insns, |insns|) == |raw|
    decreases |raw| - pc
  {
    hide DecodeAt;
    if pc < |raw| {
      DecodeStep(raw, pc);
      var i, rest := insns[0], insns[1..];
      assert insns == [i] + rest;
      SlotsTaken(raw, pc + Slots(i), rest);
      SlotOfCons(i, rest, |rest|);
    }
  }

  lemma Unfold(raw: seq<RawInsn>, pc: nat, insns: seq<Insn>)
    requires pc < |raw| && DecodeFrom(raw, pc) == Ok(insns)
    ensures insns != [] && DecodeAt(raw, pc) == Ok(insns[0]) && pc + Slots(insns[0]) <= |raw|
    ensures DecodeFrom(raw, pc + Slots(insns[0])) == Ok(insns[1..])
  {
    hide DecodeAt;
    DecodeStep(raw, pc);
    assert insns[1..] == DecodeFrom(raw, pc + Slots(insns[0])).value;
  }

  /** No slot is lost or used twice: decoded instruction k is the one in its own slot, in order. */
  lemma {:induction false} DecodedInOrder(raw: seq<RawInsn>, pc: nat, insns: seq<Insn>, k: nat)
    requires pc <= |raw| && DecodeFrom(raw, pc) == Ok(insns) && k < |insns|
    ensures pc + SlotOf(insns, k) < |raw| && DecodeAt(raw, pc + SlotOf(insns, k)) == Ok(insns[k])
    decreases k
  {
    AtEnd(raw);
    hide DecodeAt, DecodeFrom;
    Unfold(raw, pc, insns);
    if k == 0 {
      assert SlotOf(insns, 0) == 0;
    } else {
      var rest := insns[1..];
      assert insns == [insns[0]] + rest;
      DecodedInOrder(raw, pc + Slots(insns[0]), rest, k - 1);
      SlotOfCons(insns[0], rest, k - 1);
      hide SlotOf;
      assert insns[k] == rest[k - 1];
    }
  }

  function WideCount(insns: seq<Insn>): nat {
    if insns == [] then 0 else WideCount(insns[..|insns| - 1]) + (if insns[|insns| - 1].LoadImm64? then 1 else 0)
  }

  lemma {:induction false} SlotsCount(insns: seq<Insn>, k: nat)
    requires k <= |insns|
    ensures SlotOf(insns, k) == k + WideCount(insns[..k])
  {
    if k > 0 {
      SlotsCount(insns, k - 1);
      assert insns[..k][..k - 1] == insns[..k - 1];
    } else {
      assert insns[..0] == [];
    }
  }

  /** A conditional jump with the operation that always jumps. */
  predicate AlwaysTaken(i: Insn) { (i.JmpCond? || i.JmpCond32?) && i.jop == Ja }

  lemma KindsAt(raw: seq<RawInsn>, pc: nat)
    requires pc < |raw| && DecodeAt(raw, pc).Ok?
    ensures var i := DecodeAt(raw, pc).value;
            !i.TailCall? && (AlwaysTaken(i) <==> raw[pc].Class() == 6 && raw[pc].OpBits() == 0)
    ensures AlwaysTaken(DecodeAt(raw, pc).value) ==> DecodeAt(raw, pc).value.JmpCond32?
  {
    hide AluOpOf, AtomicOpOf, SourceOf, RegOf, WidthOf;
  }

  /** Decoding conserves instructions: slots minus wide instructions; no tail call and no 64-bit
      conditional jump that always jumps comes out. */
  lemma DecodeConserves(raw: seq<RawInsn>, insns: seq<Insn>)
    requires DecodeAll(raw) == Ok(insns)
    ensures |raw| == |insns| + WideCount(insns) && 0 < |insns| <= MAX_INSNS
    ensures forall k :: 0 <= k < |insns| ==> !insns[k].TailCall? && (insns[k].JmpCond? ==> insns[k].jop != Ja)
  {
    hide DecodeAt, DecodeFrom, WideCount;
    SlotsTaken(raw, 0, insns);
    SlotsCount(insns, |insns|);
    assert insns[..|insns|] == insns;
    forall k | 0 <= k < |insns|
      ensures !insns[k].TailCall? && (insns[k].JmpCond? ==> insns[k].jop != Ja)
    {
      DecodedInOrder(raw, 0, insns, k);
      KindsAt(raw, SlotOf(insns, k));
    }
  }

  /** A conditional jump that is always taken comes out exactly for a slot of the 32-bit jump class
      with operation bits 0, and only in its 32-bit form: the 64-bit class decodes those bits to a
      plain jump. */
  lemma AlwaysTakenSlots(raw: seq<RawInsn>, insns: seq<Insn>, k: nat)
    requires DecodeAll(raw) == Ok(insns) && k < |insns|
    ensures SlotOf(insns, k) < |raw|
    ensures var r := raw[SlotOf(insns, k)]; AlwaysTaken(insns[k]) <==> r.Class() == 6 && r.OpBits() == 0
    ensures AlwaysTaken(insns[k]) ==> insns[k].JmpCond32?
  {
    hide DecodeAt, DecodeFrom, SlotOf, AlwaysTaken;
    DecodedInOrder(raw, 0, insns, k);
    KindsAt(raw, SlotOf(insns, k));
  }

  // ---------- canonical encoding ----------

  function AluBits(op: AluOp): (n: nat)
    ensures n < 13
  {
    match op
    case Add => 0
    case Sub => 1
    case Mul => 2
    case Div => 3
    case Or => 4
    case And => 5
    case Lsh => 6
    case Rsh => 7
    case Neg => 8
    case Mod => 9
    case Xor => 10
    case Mov => 11
    case Arsh => 12
  }

  function JmpBits(op: JmpOp): (n: nat)
    ensures n < 14
  {
    match op
    case Ja => 0
    case Jeq => 1
    case Jgt => 2
    case Jge => 3
    case Jset => 4
    case Jne => 5
    case Jsgt => 6
    case Jsge => 7
    case Jlt => 10
    case Jle => 11
    case Jslt => 12
    case Jsle => 13
  }

  function SizeBits(w: MemWidth): (n: nat)
    ensures n < 4
  {
    match w
    case W => 0
    case H => 1
    case B => 2
    case DW => 3
  }

  function AtomicImm(op: AtomicOp): i32 {
    match op
    case AtomicAdd => 0x00
    case FetchAdd => 0x01
    case AtomicOr => 0x40
    case FetchOr => 0x41
    case AtomicAnd => 0x50
    case FetchAnd => 0x51
    case AtomicXor => 0xA0
    case FetchXor => 0xA1
    case Xchg => 0xE1
    case CmpXchg => 0xF1
  }

  function WidthBits(w: EndianWidth): i32 {
    match w
    case Bits16 => 16
    case Bits32 => 32
    case Bits64 => 64
  }

  function Signed(x: u32): i32 { if x < TWO_31 then x else x - TWO_32 }

  function FitsImm32(v: i64): bool { -TWO_31 <= v < TWO_31 }

  /** Instructions with an encoding: immediate operands have 32 bits, there is no tail call, and an
      unconditional jump is no conditional one. */
  predicate Encodable(i: Insn) {
    match i
    case Alu64(_, _, src) => src.Imm? ==> FitsImm32(src.value)
    case Alu32(_, _, src) => src.Imm? ==> FitsImm32(src.value)
    case JmpCond(op, _, src, _) => op != Ja && (src.Imm? ==> FitsImm32(src.value))
    case JmpCond32(_, _, src, _) => src.Imm? ==> FitsImm32(src.value)
    case TailCall => false
    case _ => true
  }

  function Regs(dst: BpfReg, src: BpfReg): u8 { 16 * src + dst }

  /** An instruction with a register or 32-bit immediate operand. */
  function WithSource(group: nat, bits: nat, dst: BpfReg, src: Source, off: i16): RawInsn
    requires group < 8 && bits < 16 && (src.Imm? ==> FitsImm32(src.value))
  {
    match src
    case Imm(v) => RawInsn(16 * bits + group, Regs(dst, 0), off, v)
    case Reg(r) => RawInsn(16 * bits + 8 + group, Regs(dst, r), off, 0)
  }

  function MemOpcode(mode: nat, w: MemWidth, group: nat): u8
    requires mode < 8 && group < 8
  {
    32 * mode + 8 * SizeBits(w) + group
  }

  function Encode(i: Insn): (r: seq<RawInsn>)
    requires Encodable(i)
    ensures |r| == Slots(i)
  {
    match i
    case Alu64(op, dst, src) => [WithSource(7, AluBits(op), dst, src, 0)]
    case Alu32(op, dst, src) => [WithSource(4, AluBits(op), dst, src, 0)]
    case Load(w, dst, base, off) => [RawInsn(MemOpcode(3, w, 1), Regs(dst, base), off, 0)]
    case StoreReg(w, dst, value, off) => [RawInsn(MemOpcode(3, w, 3), Regs(dst, value), off, 0)]
    case StoreImm(w, dst, off, imm) => [RawInsn(MemOpcode(3, w, 2), Regs(dst, 0), off, imm)]
    case LoadImm64(dst, imm) =>
      [RawInsn(0x18, Regs(dst, 0), 0, Signed(imm % TWO_32)), RawInsn(0, 0, 0, Signed(imm / TWO_32))]
    case JmpCond(op, dst, src, off) => [WithSource(5, JmpBits(op), dst, src, off)]
    case JmpCond32(op, dst, src, off) => [WithSource(6, JmpBits(op), dst, src, off)]
    case Jump(off) => [RawInsn(5, 0, off, 0)]
    case Call(f) => [RawInsn(0x85, 0, 0, Signed(f))]
    case Exit => [RawInsn(0x95, 0, 0, 0)]
    case Atomic(w, op, dst, value, off) => [RawInsn(MemOpcode(6, w, 3), Regs(dst, value), off, AtomicImm(op))]
    case Endian(toBe, w, dst) => [RawInsn(if toBe then 0xDC else 0xD4, Regs(dst, 0), 0, WidthBits(w))]
  }

  predicate AllEncodable(insns: seq<Insn>) { forall k :: 0 <= k < |insns| ==> Encodable(insns[k]) }

  function EncodeAll(insns: seq<Insn>): seq<RawInsn>
    requires AllEncodable(insns)
  {
    if insns == [] then [] else Encode(insns[0]) + EncodeAll(insns[1..])
  }

  lemma RegFields(dst: BpfReg, src: BpfReg, opcode: u8, off: i16, imm: i32, pc: nat)
    ensures var r := RawInsn(opcode, Regs(dst, src), off, imm);
            RegOf(r.DstReg(), pc) == Ok(dst) && RegOf(r.SrcReg(), pc) == Ok(src)
  {}

  lemma SourceFields(group: nat, bits: nat, dst: BpfReg, src: Source, off: i16, pc: nat)
    requires group < 8 && bits < 16 && (src.Imm? ==> FitsImm32(src.value))
    ensures var r := WithSource(group, bits, dst, src, off);
            && r.Class() == group && r.OpBits() == bits && RegOf(r.DstReg(), pc) == Ok(dst) &&
               SourceOf(r, pc) == Ok(src) && r.off == off
  {}

  lemma MemFields(mode: nat, w: MemWidth, group: nat, regs: u8, off: i16, imm: i32)
    requires mode < 8 && group < 8
    ensures var r := RawInsn(MemOpcode(mode, w, group), regs, off, imm);
            r.Class() == group && WidthOf(r) == w && r.Mode() == mode
  {}

  lemma AtomicImmDecodes(op: AtomicOp, pc: nat)
    ensures AtomicOpOf(Unsigned(AtomicImm(op)), pc) == Ok(op)
  {}

  lemma BitsDecode(op: AluOp, jop: JmpOp, r: RawInsn, pc: nat)
    ensures r.OpBits() == AluBits(op) ==> AluOpOf(r, pc) == Ok(op)
    ensures r.OpBits() == JmpBits(jop) ==> JmpOpOf(r, pc) == Ok(jop)
  {}

  lemma UnsignedSigned(x: u32)
    ensures Unsigned(Signed(x)) == x
  {}

  lemma ImmHalves(imm: u64)
    ensures Unsigned(Signed(imm % TWO_32)) + TWO_32 * Unsigned(Signed(imm / TWO_32)) == imm
  {
    UnsignedSigned(imm % TWO_32);
    UnsignedSigned(imm / TWO_32);
  }

  /** One instruction, encoded at slot pc, decodes to itself. */
  predicate IsMemory(i: Insn) { i.Load? || i.StoreReg? || i.StoreImm? || i.Atomic? }

  lemma DecodeEncodedMemory(raw: seq<RawInsn>, pc: nat, i: Insn)
    requires Encodable(i) && IsMemory(i) && pc < |raw| && [raw[pc]] == Encode(i)
    ensures DecodeAt(raw, pc) == Ok(i)
  {
    hide AluOpOf, JmpOpOf, AtomicOpOf, RegOf, SourceOf, WidthOf, WithSource, MemOpcode, Regs, Unsigned;
    var r := raw[pc];
    assert r == [r][0];
    match i
    case Load(w, dst, base, off) =>
      MemFields(3, w, 1, Regs(dst, base), off, 0);
      RegFields(dst, base, r.opcode, off, 0, pc);
    case StoreReg(w, dst, value, off) =>
      MemFields(3, w, 3, Regs(dst, value), off, 0);
      RegFields(dst, value, r.opcode, off, 0, pc);
    case StoreImm(w, dst, off, imm) =>
      MemFields(3, w, 2, Regs(dst, 0), off, imm);
      RegFields(dst, 0, r.opcode, off, imm, pc);
    case Atomic(w, op, dst, value, off) =>
      MemFields(6, w, 3, Regs(dst, value), off, AtomicImm(op));
      RegFields(dst, value, r.opcode, off, AtomicImm(op), pc);
      AtomicImmDecodes(op, pc);
  }

  lemma EncodedSlot(raw: seq<RawInsn>, pc: nat, i: Insn)
    requires Encodable(i) && pc + Slots(i) <= |raw| && raw[pc..pc + Slots(i)] == Encode(i)
    ensures raw[pc] == Encode(i)[0] && (i.LoadImm64? ==> raw[pc + 1] == Encode(i)[1])
    ensures !i.LoadImm64? ==> [raw[pc]] == Encode(i)
  {
    hide Encode;
    assert raw[pc] == raw[pc..pc + Slots(i)][0];
    assert i.LoadImm64? ==> raw[pc + 1] == raw[pc..pc + Slots(i)][1];
  }

  lemma DecodeEncoded(raw: seq<RawInsn>, pc: nat, i: Insn)
    requires Encodable(i) && pc + Slots(i) <= |raw| && raw[pc..pc + Slots(i)] == Encode(i)
    ensures DecodeAt(raw, pc) == Ok(i)
  {
    hide AluOpOf, JmpOpOf, AtomicOpOf, RegOf, SourceOf, WidthOf, WithSource, MemOpcode, Regs, AluBits, JmpBits,
         Unsigned, Signed;
    EncodedSlot(raw, pc, i);
    if IsMemory(i) {
      DecodeEncodedMemory(raw, pc, i);
      return;
    }
    var r := raw[pc];
    match i
    case Alu64(op, dst, src) => SourceFields(7, AluBits(op), dst, src, 0, pc); BitsDecode(op, Ja, r, pc);
    case Alu32(op, dst, src) => SourceFields(4, AluBits(op), dst, src, 0, pc); BitsDecode(op, Ja, r, pc);
    case LoadImm64(dst, imm) => RegFields(dst, 0, 0x18, 0, r.imm, pc); ImmHalves(imm);
    case JmpCond(op, dst, src, off) =>
      SourceFields(5, JmpBits(op), dst, src, off, pc);
      BitsDecode(Add, op, r, pc);
      CondBits(op);
    case JmpCond32(op, dst, src, off) => SourceFields(6, JmpBits(op), dst, src, off, pc); BitsDecode(Add, op, r, pc);
    case Call(f) => UnsignedSigned(f);
    case Endian(toBe, w, dst) => RegFields(dst, 0, r.opcode, 0, WidthBits(w), pc);
    case _ =>
  }

  lemma CondBits(op: JmpOp)
    requires op != Ja
    ensures JmpBits(op) != 0 && JmpBits(op) != 8 && JmpBits(op) != 9
  {}

  lemma {:induction false} DecodeEncodedFrom(before: seq<RawInsn>, insns: seq<Insn>)
    requires AllEncodable(insns)
    ensures DecodeFrom(before + EncodeAll(insns), |before|) == Ok(insns)
    decreases |insns|
  {
    hide DecodeAt, Encode, Encodable;
    var raw := before + EncodeAll(insns);
    if insns != [] {
      var i, rest := insns[0], insns[1..];
      var next := before + Encode(i);
      assert raw == next + EncodeAll(rest);
      assert raw[|before|..|before| + Slots(i)] == Encode(i);
      DecodeEncoded(raw, |before|, i);
      DecodeEncodedFrom(next, rest);
      DecodeStep(raw, |before|);
      assert [i] + rest == insns;
    }
  }

  /** Decoding inverts the canonical encoding of every list of encodable instructions that fits. */
  lemma RoundTrip(insns: seq<Insn>)
    requires AllEncodable(insns) && 0 < |EncodeAll(insns)| <= MAX_INSNS
    ensures DecodeAll(EncodeAll(insns)) == Ok(insns)
  {
    assert [] + EncodeAll(insns) == EncodeAll(insns);
    DecodeEncodedFrom([], insns);
  }
}
