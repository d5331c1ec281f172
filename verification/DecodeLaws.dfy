/** The decoder against the layout of raw instructions (sections 3 to 5 of RFC 9669): where every field
    of a decoded instruction comes from, and exactly which slots are refused, for which reason. */
module DecodeLaws {
  import opened Isa
  import opened Interpreter
  import opened Decode

  // ---------- codes ----------

  function AluCode(op: AluOp): nat {
    match op
    case Add => 0
    case Sub => 1
    case Mul => 2
    case Div => 3
    case Or => 4
    case And => 5
    case Lsh => 6
    case Rsh => 7
    case Neg => 8
    case Mod => 9
    case Xor => 10
    case Mov => 11
    case Arsh => 12
  }

  function JmpCode(op: JmpOp): nat {
    match op
    case Ja => 0
    case Jeq => 1
    case Jgt => 2
    case Jge => 3
    case Jset => 4
    case Jne => 5
    case Jsgt => 6
    case Jsge => 7
    case Jlt => 10
    case Jle => 11
    case Jslt => 12
    case Jsle => 13
  }

  function WidthCode(width: MemWidth): nat {
    match width
    case W => 0
    case H => 1
    case B => 2
    case DW => 3
  }

  function AtomicCode(op: AtomicOp): nat {
    match op
    case AtomicAdd => 0x00
    case FetchAdd => 0x01
    case AtomicOr => 0x40
    case FetchOr => 0x41
    case AtomicAnd => 0x50
    case FetchAnd => 0x51
    case AtomicXor => 0xA0
    case FetchXor => 0xA1
    case Xchg => 0xE1
    case CmpXchg => 0xF1
  }

  function BitsOf(width: EndianWidth): nat {
    match width
    case Bits16 => 16
    case Bits32 => 32
    case Bits64 => 64
  }

  predicate SourceIs(src: Source, r: RawInsn) {
    if r.opcode / 8 % 2 == 1 then src.Reg? && src.reg == r.regs / 16 else src == Imm(r.imm)
  }

  /** Every field of instruction i is the field of its slot, or, for a wide constant, of its two slots;
      class and operation bits are those of its kind. */
  predicate FieldsOf(raw: seq<RawInsn>, pc: nat, i: Insn)
    requires pc < |raw|
  {
    var r := raw[pc];
    var kind, bits, d, s := r.opcode % 8, r.opcode / 16, r.regs % 16, r.regs / 16;
    match i
    case Alu64(op, dst, src) => kind == 7 && bits == AluCode(op) && dst == d && SourceIs(src, r)
    case Alu32(op, dst, src) => kind == 4 && bits == AluCode(op) && dst == d && SourceIs(src, r)
    case Endian(toBe, width, dst) =>
      kind in {4, 7} && bits == 13 && dst == d && r.imm == BitsOf(width) && toBe == (r.opcode / 8 % 2 == 1)
    case Load(width, dst, base, off) =>
      kind == 1 && r.opcode / 8 % 4 == WidthCode(width) && dst == d && base == s && off == r.off
    case StoreImm(width, dst, off, imm) =>
      kind == 2 && r.opcode / 8 % 4 == WidthCode(width) && dst == d && off == r.off && imm == r.imm
    case StoreReg(width, dst, value, off) =>
      && kind == 3 && r.opcode / 32 != 6 && r.opcode / 8 % 4 == WidthCode(width)
      && dst == d && value == s && off == r.off
    case Atomic(width, op, dst, value, off) =>
      && kind == 3 && r.opcode / 32 == 6 && r.opcode / 8 % 4 == WidthCode(width) && r.imm == AtomicCode(op)
      && dst == d && value == s && off == r.off
    case LoadImm64(dst, imm) =>
      && kind == 0 && r.opcode == 0x18 && dst == d && pc + 1 < |raw|
      && imm == r.imm % TWO_32 + TWO_32 * (raw[pc + 1].imm % TWO_32)
    case Jump(off) => kind == 5 && bits == 0 && off == r.off
    case Call(funcId) => kind == 5 && bits == 8 && funcId == r.imm % TWO_32
    case Exit => kind == 5 && bits == 9
    case JmpCond(op, dst, src, off) =>
      kind == 5 && bits == JmpCode(op) && bits !in {0, 8, 9} && dst == d && SourceIs(src, r) && off == r.off
    case JmpCond32(op, dst, src, off) =>
      kind == 6 && bits == JmpCode(op) && dst == d && SourceIs(src, r) && off == r.off
    case TailCall => false
  }

  // ---------- where fields come from ----------

  lemma UnsignedIs(imm: i32)
    ensures Unsigned(imm) == imm % TWO_32
  {}

  lemma AluOpIs(r: RawInsn, pc: nat)
    ensures AluOpOf(r, pc).Ok? <==> r.opcode / 16 <= 12
    ensures AluOpOf(r, pc).Ok? ==> AluCode(AluOpOf(r, pc).value) == r.opcode / 16
    ensures AluOpOf(r, pc).Err? ==> AluOpOf(r, pc).error == UnknownOpcode(pc, r.opcode)
  {}

  lemma JmpOpIs(r: RawInsn, pc: nat)
    ensures JmpOpOf(r, pc).Ok? <==> r.opcode / 16 <= 7 || 10 <= r.opcode / 16 <= 13
    ensures JmpOpOf(r, pc).Ok? ==> JmpCode(JmpOpOf(r, pc).value) == r.opcode / 16
    ensures JmpOpOf(r, pc).Err? ==> JmpOpOf(r, pc).error == UnknownOpcode(pc, r.opcode)
  {}

  const ATOMIC_CODES: set<int> := {0x00, 0x01, 0x40, 0x41, 0x50, 0x51, 0xA0, 0xA1, 0xE1, 0xF1}

  lemma AtomicOpIs(imm: i32, pc: nat)
    ensures AtomicOpOf(Unsigned(imm), pc).Ok? <==> imm in ATOMIC_CODES
    ensures AtomicOpOf(Unsigned(imm), pc).Ok? ==> AtomicCode(AtomicOpOf(Unsigned(imm), pc).value) == imm
    ensures AtomicOpOf(Unsigned(imm), pc).Err? ==>
              AtomicOpOf(Unsigned(imm), pc).error == InvalidAtomicOp(pc, imm % TWO_32)
  {}

  lemma RegIs(raw: u8, pc: nat)
    ensures RegOf(raw, pc) == if raw > 10 then Err(InvalidRegister(pc, raw)) else Outcome.Ok(raw)
  {}

  lemma SourceFrom(r: RawInsn, pc: nat)
    ensures SourceOf(r, pc).Ok? ==> SourceIs(SourceOf(r, pc).value, r)
    ensures SourceOf(r, pc).Err? <==> r.opcode / 8 % 2 == 1 && r.regs / 16 > 10
    ensures SourceOf(r, pc).Err? ==> SourceOf(r, pc).error == InvalidRegister(pc, r.regs / 16)
  {}

  lemma WidthIs(r: RawInsn)
    ensures WidthCode(WidthOf(r)) == r.opcode / 8 % 4
  {}

  // ---------- which slots are refused ----------

  function Refuse(bad: bool, e: DecodeError, otherwise: Option<DecodeError>): Option<DecodeError> {
    if bad then Some(e) else otherwise
  }

  /** What is wrong with slot pc, if anything. Registers above 10 are refused wherever the instruction
      has a register, the destination first. */
  function Fault(raw: seq<RawInsn>, pc: nat): Option<DecodeError>
    requires pc < |raw|
  {
    var r := raw[pc];
    var kind, bits, d, s := r.opcode % 8, r.opcode / 16, r.regs % 16, r.regs / 16;
    var unknown, badDst, badSrc := UnknownOpcode(pc, r.opcode), InvalidRegister(pc, d), InvalidRegister(pc, s);
    var badOperand := r.opcode / 8 % 2 == 1 && s > 10;
    if kind == 0 then
      Refuse(r.opcode != 0x18, unknown, Refuse(pc + 1 == |raw|, TruncatedWideInsn(pc), Refuse(d > 10, badDst, None)))
    else if kind == 1 then Refuse(d > 10, badDst, Refuse(s > 10, badSrc, None))
    else if kind == 2 then Refuse(d > 10, badDst, None)
    else if kind == 3 then
      Refuse(d > 10, badDst, Refuse(s > 10, badSrc,
          Refuse(r.opcode / 32 == 6 && r.imm !in ATOMIC_CODES, InvalidAtomicOp(pc, r.imm % TWO_32), None)))
    else if kind == 5 then
      if bits in {0, 8, 9} then None
      else Refuse(bits > 13, unknown, Refuse(d > 10, badDst, Refuse(badOperand, badSrc, None)))
    else if kind == 6 then
      Refuse(bits in {8, 9, 14, 15}, unknown, Refuse(d > 10, badDst, Refuse(badOperand, badSrc, None)))
    else
      Refuse(d > 10, badDst,
        if bits == 13 then Refuse(r.imm !in {16, 32, 64}, InvalidEndianWidth(pc, r.imm), None)
        else Refuse(bits > 13, unknown, Refuse(badOperand, badSrc, None)))
  }

  /** The slot is decoded, with its own fields, or refused, for its own fault. */
  predicate FaultOrFields(raw: seq<RawInsn>, pc: nat, out: Outcome<Insn>)
    requires pc < |raw|
  {
    match out
    case Err(e) => Fault(raw, pc) == Some(e)
    case Ok(i) => Fault(raw, pc) == None && FieldsOf(raw, pc, i)
  }

  lemma WideSlot(raw: seq<RawInsn>, pc: nat)
    requires pc < |raw| && raw[pc].opcode % 8 == 0
    ensures FaultOrFields(raw, pc, DecodeLd(raw, pc))
  {
    RegIs(raw[pc].regs % 16, pc);
    UnsignedIs(raw[pc].imm);
    hide RegOf, Unsigned;
    if pc + 1 < |raw| {
      UnsignedIs(raw[pc + 1].imm);
    }
  }

  lemma MemorySlot(raw: seq<RawInsn>, pc: nat)
    requires pc < |raw|
    ensures raw[pc].opcode % 8 == 1 ==> FaultOrFields(raw, pc, DecodeLdx(raw[pc], pc))
    ensures raw[pc].opcode % 8 == 2 ==> FaultOrFields(raw, pc, DecodeSt(raw[pc], pc))
    ensures raw[pc].opcode % 8 == 3 ==> FaultOrFields(raw, pc, DecodeStx(raw[pc], pc))
  {
    var r := raw[pc];
    RegIs(r.regs % 16, pc);
    RegIs(r.regs / 16, pc);
    WidthIs(r);
    AtomicOpIs(r.imm, pc);
    hide RegOf, WidthOf, AtomicOpOf, Unsigned, AtomicCode, WidthCode;
  }

  lemma JumpSlot(raw: seq<RawInsn>, pc: nat)
    requires pc < |raw|
    ensures raw[pc].opcode % 8 == 5 ==> FaultOrFields(raw, pc, DecodeJmp(raw[pc], pc))
    ensures raw[pc].opcode % 8 == 6 ==> FaultOrFields(raw, pc, DecodeJmp32(raw[pc], pc))
  {
    var r := raw[pc];
    RegIs(r.regs % 16, pc);
    JmpOpIs(r, pc);
    SourceFrom(r, pc);
    UnsignedIs(r.imm);
    hide RegOf, JmpOpOf, SourceOf, Unsigned, JmpCode, SourceIs;
  }

  lemma AluSlot(raw: seq<RawInsn>, pc: nat)
    requires pc < |raw|
    ensures raw[pc].opcode % 8 == 4 ==> FaultOrFields(raw, pc, DecodeAlu(raw[pc], pc, false))
    ensures raw[pc].opcode % 8 == 7 ==> FaultOrFields(raw, pc, DecodeAlu(raw[pc], pc, true))
  {
    var r := raw[pc];
    RegIs(r.regs % 16, pc);
    AluOpIs(r, pc);
    SourceFrom(r, pc);
    hide RegOf, AluOpOf, SourceOf, AluCode, SourceIs;
  }

  lemma SlotDecoded(raw: seq<RawInsn>, pc: nat)
    requires pc < |raw|
    ensures FaultOrFields(raw, pc, DecodeAt(raw, pc))
  {
    hide FaultOrFields, DecodeLd, DecodeLdx, DecodeSt, DecodeStx, DecodeAlu, DecodeJmp, DecodeJmp32;
    if raw[pc].opcode % 8 == 0 {
      WideSlot(raw, pc);
    }
    MemorySlot(raw, pc);
    JumpSlot(raw, pc);
    AluSlot(raw, pc);
  }

  // ---------- whole programs ----------

  /** The first fault of a scan that starts at slot pc: a slot of class 0 takes two slots. */
  function FirstFault(raw: seq<RawInsn>, pc: nat): Option<DecodeError>
    decreases |raw| - pc
  {
    if pc >= |raw| then None
    else
      match Fault(raw, pc)
      case Some(e) => Some(e)
      case None => FirstFault(raw, pc + (if raw[pc].opcode % 8 == 0 then 2 else 1))
  }

  lemma SlotWidth(raw: seq<RawInsn>, pc: nat, i: Insn)
    requires pc < |raw| && FieldsOf(raw, pc, i)
    ensures Slots(i) == if raw[pc].opcode % 8 == 0 then 2 else 1
  {
    hide AluCode, JmpCode, AtomicCode, WidthCode, SourceIs;
  }

  lemma {:induction false} ScanFaults(raw: seq<RawInsn>, pc: nat)
    requires pc <= |raw|
    ensures match DecodeFrom(raw, pc)
            case Err(e) => FirstFault(raw, pc) == Some(e)
            case Ok(_) => FirstFault(raw, pc) == None
    decreases |raw| - pc
  {
    hide DecodeAt, Fault, FieldsOf;
    if pc < |raw| {
      SlotDecoded(raw, pc);
      DecodeStep(raw, pc);
      if DecodeAt(raw, pc).Ok? {
        SlotWidth(raw, pc, DecodeAt(raw, pc).value);
        ScanFaults(raw, pc + Slots(DecodeAt(raw, pc).value));
      }
    }
  }

  /** A program is refused exactly if it is empty, longer than a million slots, or has a faulty slot;
      and then for the first of these. */
  lemma RefusedExactly(raw: seq<RawInsn>)
    ensures match DecodeAll(raw)
            case Ok(_) => 0 < |raw| <= 1_000_000 && FirstFault(raw, 0) == None
            case Err(e) =>
              if raw == [] then e == EmptyProgram
              else if |raw| > 1_000_000 then e == ProgramTooLarge(|raw|)
              else FirstFault(raw, 0) == Some(e)
  {
    hide DecodeFrom, FirstFault;
    ScanFaults(raw, 0);
  }

  /** Every decoded instruction has the fields of its own slot. */
  lemma DecodedFields(raw: seq<RawInsn>, insns: seq<Insn>, k: nat)
    requires DecodeAll(raw) == Outcome.Ok(insns) && k < |insns|
    ensures SlotOf(insns, k) < |raw| && FieldsOf(raw, SlotOf(insns, k), insns[k])
  {
    hide DecodeAt, DecodeFrom, SlotOf, FieldsOf, Fault;
    DecodedInOrder(raw, 0, insns, k);
    SlotDecoded(raw, SlotOf(insns, k));
  }
}
