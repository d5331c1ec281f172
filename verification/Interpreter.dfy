/** The reference interpreter: arithmetic, memory, one step, and runs. The functions are the
    specification; the class at the end is the interpreter itself, proved against them. */
module Interpreter {
  import opened Isa
  import opened Bits

  datatype Option<+T> = None | Some(value: T)

  // ---------- 64- and 32-bit arithmetic ----------

  function Wrap64(x: int): u64 { x % TWO_64 }

  function Wrap32(x: int): u32 { x % TWO_32 }

  /** Two's-complement reading of a 64-bit word. */
  function AsI64(x: u64): (v: int)
    ensures -TWO_63 <= v < TWO_63
  {
    if x < TWO_63 then x else x - TWO_64
  }

  function AsI32(x: u32): (v: int)
    ensures -TWO_31 <= v < TWO_31
  {
    if x < TWO_31 then x else x - TWO_32
  }

  function Bitwise64(op: Logic, a: u64, b: u64): u64 {
    Pow2Values();
    Bitwise(op, a, b, 64)
  }

  function Bitwise32(op: Logic, a: u32, b: u32): u32 {
    Pow2Values();
    Bitwise(op, a, b, 32)
  }

  function EvalAlu64(op: AluOp, dst: u64, src: u64): u64 {
    match op
    case Add => Wrap64(dst + src)
    case Sub => Wrap64(dst - src)
    case Mul => Wrap64(dst * src)
    case Div => if src == 0 then 0 else Quotient(dst, src)
    case Mod => if src == 0 then dst else Remainder(dst, src)
    case Or => Bitwise64(LOr, dst, src)
    case And => Bitwise64(LAnd, dst, src)
    case Xor => Bitwise64(LXor, dst, src)
    case Lsh => Wrap64(dst * Pow2(src % 64))
    case Rsh => Quotient(dst, Pow2(src % 64))
    case Arsh => Wrap64(FloorDiv(AsI64(dst), Pow2(src % 64)))
    case Mov => src
    case Neg => Wrap64(-AsI64(dst))
  }

  function EvalAlu32(op: AluOp, dst: u32, src: u32): u32 {
    match op
    case Add => Wrap32(dst + src)
    case Sub => Wrap32(dst - src)
    case Mul => Wrap32(dst * src)
    case Div => if src == 0 then 0 else Quotient(dst, src)
    case Mod => if src == 0 then dst else Remainder(dst, src)
    case Or => Bitwise32(LOr, dst, src)
    case And => Bitwise32(LAnd, dst, src)
    case Xor => Bitwise32(LXor, dst, src)
    case Lsh => Wrap32(dst * Pow2(src % 32))
    case Rsh => Quotient(dst, Pow2(src % 32))
    case Arsh => Wrap32(FloorDiv(AsI32(dst), Pow2(src % 32)))
    case Mov => src
    case Neg => Wrap32(-AsI32(dst))
  }

  predicate EvalJmp(op: JmpOp, a: u64, b: u64) {
    match op
    case Jeq => a == b
    case Jne => a != b
    case Jgt => a > b
    case Jge => a >= b
    case Jlt => a < b
    case Jle => a <= b
    case Jsgt => AsI64(a) > AsI64(b)
    case Jsge => AsI64(a) >= AsI64(b)
    case Jslt => AsI64(a) < AsI64(b)
    case Jsle => AsI64(a) <= AsI64(b)
    case Jset => Bitwise64(LAnd, a, b) != 0
    case Ja => true
  }

  function Swap16(v: u16): u16 { (v % 256) * 256 + v / 256 }

  function Swap32(v: u32): u32 { Swap16(v % TWO_16) * TWO_16 + Swap16(v / TWO_16) }

  function Swap64(v: u64): u64 { Swap32(v % TWO_32) * TWO_32 + Swap32(v / TWO_32) }

  /** Byte swap, or truncation: the host is little-endian. */
  function EvalEndian(toBe: bool, width: EndianWidth, v: u64): u64 {
    match width
    case Bits16 => if toBe then Swap16(v % TWO_16) else v % TWO_16
    case Bits32 => if toBe then Swap32(v % TWO_32) else v % TWO_32
    case Bits64 => if toBe then Swap64(v) else v
  }

  // ---------- the stack ----------

  type Stack = s: seq<u8> | |s| == STACK_SIZE witness seq(STACK_SIZE, _ => 0)

  /** Reading at a stack-relative offset. The bounds test `offset + len` overflows, and the
      interpreter panics, for the last few offsets (None); any other out-of-range read yields 0. */
  function ReadStack(stack: Stack, rel: u64, width: MemWidth): Option<u64> {
    if rel + width.ByteLen() >= TWO_64 then None
    else if rel + width.ByteLen() > STACK_SIZE then Some(0)
    else
      match width
      case B => Some(stack[rel])
      case H => Some(Byte(stack, rel) + 0x100 * Byte(stack, rel + 1))
      case W => Some(Four(stack, rel))
      case DW => Some(Four(stack, rel) + TWO_32 * Four(stack, rel + 4))
  }

  function Byte(stack: Stack, at: nat): (b: int)
    requires at < STACK_SIZE
    ensures 0 <= b < TWO_8
  {
    stack[at]
  }

  function Four(stack: Stack, at: nat): u32
    requires at + 4 <= STACK_SIZE
  {
    Byte(stack, at) + 0x100 * Byte(stack, at + 1) + 0x1_0000 * Byte(stack, at + 2) + 0x100_0000 * Byte(stack, at + 3)
  }

  function FourBytes(v: u32): (bs: seq<u8>)
    ensures |bs| == 4
  {
    [v % 0x100, v / 0x100 % 0x100, v / 0x1_0000 % 0x100, v / 0x100_0000]
  }

  function Put(stack: Stack, at: nat, bytes: seq<u8>): (r: Stack)
    requires at + |bytes| <= STACK_SIZE
  {
    stack[..at] + bytes + stack[at + |bytes|..]
  }

  function WriteStack(stack: Stack, rel: u64, width: MemWidth, v: u64): Option<Stack> {
    if rel + width.ByteLen() >= TWO_64 then None
    else if rel + width.ByteLen() > STACK_SIZE then Some(stack)
    else
      match width
      case B => Some(Put(stack, rel, [v % 0x100]))
      case H => Some(Put(stack, rel, [v % 0x100, v / 0x100 % 0x100]))
      case W => Some(Put(stack, rel, FourBytes(v % TWO_32)))
      case DW => Some(Put(stack, rel, FourBytes(v % TWO_32) + FourBytes(v / TWO_32)))
  }

  // ---------- one instruction ----------

  type Regs = s: seq<u64> | |s| == NUM_REGS witness seq(NUM_REGS, _ => 0)

  datatype State = State(regs: Regs, stack: Stack, pc: u64, halted: bool)

  datatype StepResult = Running(next: State) | Stopped(last: State) | Panicked

  function ResolveSource(src: Source, regs: Regs): u64 {
    match src
    case Imm(v) => Wrap64(v)
    case Reg(r) => regs[r]
  }

  /** `(reg + off)` as an address, relative to the stack array at `stackAddr`. */
  function StackOffset(stackAddr: u64, reg: u64, off: i16): u64 {
    Wrap64(Wrap64(reg + off) - stackAddr)
  }

  /** Registers and stack after one non-terminating instruction; None is a panic. */
  function Effect(insn: Insn, stackAddr: u64, regs: Regs, stack: Stack): Option<(Regs, Stack)> {
    match insn
    case Alu64(op, dst, src) =>
      Some((regs[dst := EvalAlu64(op, regs[dst], ResolveSource(src, regs))], stack))
    case Alu32(op, dst, src) =>
      Some((regs[dst := EvalAlu32(op, Wrap32(regs[dst]), Wrap32(ResolveSource(src, regs)))], stack))
    case LoadImm64(dst, imm) => Some((regs[dst := imm], stack))
    case Load(width, dst, base, off) =>
      (match ReadStack(stack, StackOffset(stackAddr, regs[base], off), width)
       case None => None
       case Some(v) => Some((regs[dst := v], stack)))
    case StoreReg(width, dst, value, off) =>
      (match WriteStack(stack, StackOffset(stackAddr, regs[dst], off), width, regs[value])
       case None => None
       case Some(st) => Some((regs, st)))
    case StoreImm(width, dst, off, imm) =>
      (match WriteStack(stack, StackOffset(stackAddr, regs[dst], off), width, Wrap64(imm))
       case None => None
       case Some(st) => Some((regs, st)))
    case Call(_) => Some((regs[0 := 0], stack))
    case Endian(toBe, width, dst) => Some((regs[dst := EvalEndian(toBe, width, regs[dst])], stack))
    case _ => Some((regs, stack))
  }

  predicate Taken(insn: Insn, regs: Regs) {
    match insn
    case JmpCond(op, dst, src, _) => EvalJmp(op, regs[dst], ResolveSource(src, regs))
    case JmpCond32(op, dst, src, _) => EvalJmp(op, Wrap32(regs[dst]), Wrap32(ResolveSource(src, regs)))
    case Jump(_) => true
    case _ => false
  }

  function NextPc(insn: Insn, regs: Regs, pc: u64): u64 {
    if Taken(insn, regs) then Wrap64(pc + 1 + insn.off) else Wrap64(pc + 1)
  }

  function Step(insns: seq<Insn>, stackAddr: u64, s: State): StepResult {
    if s.halted || s.pc >= |insns| then Stopped(s)
    else
      var insn := insns[s.pc];
      if insn.Exit? || insn.TailCall? then Stopped(s.(halted := true))
      else
        match Effect(insn, stackAddr, s.regs, s.stack)
        case None => Panicked
        case Some(e) => Running(State(e.0, e.1, NextPc(insn, s.regs, s.pc), false))
  }

  /** k uninterrupted steps from s. */
  function Steps(insns: seq<Insn>, stackAddr: u64, s: State, k: nat): Option<State> {
    if k == 0 then Some(s)
    else
      match Steps(insns, stackAddr, s, k - 1)
      case None => None
      case Some(t) =>
        match Step(insns, stackAddr, t)
        case Running(u) => Some(u)
        case _ => None
  }

  /** At most `maxSteps` steps; None is a panic. */
  function Run(insns: seq<Insn>, stackAddr: u64, s: State, maxSteps: nat): Option<State>
    decreases maxSteps
  {
    if maxSteps == 0 then Some(s)
    else
      match Step(insns, stackAddr, s)
      case Running(t) => Run(insns, stackAddr, t, maxSteps - 1)
      case Stopped(t) => Some(t)
      case Panicked => None
  }

  /** Everything zero, at the first instruction. */
  function InitialState(): State { State(seq(NUM_REGS, _ => 0), seq(STACK_SIZE, _ => 0), 0, false) }

  // ---------- the interpreter object ----------

  datatype Signal = Continue | Halt | Panic

  class InterpreterState {
    const stackAddr: u64
    const regs: array<u64>
    const stack: array<u8>
    var pc: u64
    var halted: bool

    ghost predicate Valid()
      reads this
    {
      regs.Length == NUM_REGS && stack.Length == STACK_SIZE
    }

    ghost function View(): State
      requires Valid()
      reads this, regs, stack
    {
      State(regs[..], stack[..], pc, halted)
    }

    constructor (addr: u64)
      ensures Valid() && fresh(regs) && fresh(stack) && stackAddr == addr
      ensures View() == InitialState()
      ensures (forall r :: 0 <= r < 11 ==> regs[r] == 0) && (forall i :: 0 <= i < 512 ==> stack[i] == 0)
      ensures pc == 0 && !halted
    {
      stackAddr := addr;
      regs := new u64[NUM_REGS](_ => 0);
      stack := new u8[STACK_SIZE](_ => 0);
      pc, halted := 0, false;
      new;
      assert regs[..] == InitialState().regs;
      assert stack[..] == InitialState().stack;
    }

    method ResolveOperand(src: Source) returns (v: u64)
      requires Valid()
      ensures v == ResolveSource(src, regs[..])
    {
      match src
      case Imm(i) => v := Wrap64(i);
      case Reg(r) => v := regs[r];
    }

    method SetReg(r: BpfReg, v: u64)
      requires Valid()
      modifies this`pc, regs
      ensures Valid() && pc == Wrap64(old(pc) + 1)
      ensures regs[..] == old(regs[..])[r := v]
    {
      regs[r] := v;
      pc := Wrap64(pc + 1);
    }

    method SetStack(st: Stack)
      requires Valid()
      modifies this`pc, stack
      ensures Valid() && pc == Wrap64(old(pc) + 1)
      ensures stack[..] == st
    {
      forall i | 0 <= i < STACK_SIZE {
        stack[i] := st[i];
      }
      pc := Wrap64(pc + 1);
    }

    /** One instruction. */
    method DoStep(insns: seq<Insn>) returns (r: Signal)
      requires Valid()
      modifies this, regs, stack
      ensures Valid()
      ensures match Step(insns, stackAddr, old(View()))
              case Running(t) => r == Continue && View() == t
              case Stopped(t) => r == Halt && View() == t
              case Panicked => r == Panic
    {
      hide EvalAlu64, EvalAlu32, EvalJmp, EvalEndian, ReadStack, WriteStack, StackOffset, Wrap64, Wrap32, ResolveSource;
      if halted || pc >= |insns| {
        return Halt;
      }
      var insn := insns[pc];
      match insn {
        case Alu64(op, dst, src) =>
          var s := ResolveOperand(src);
          SetReg(dst, EvalAlu64(op, regs[dst], s));
        case Alu32(op, dst, src) =>
          var s := ResolveOperand(src);
          SetReg(dst, EvalAlu32(op, Wrap32(regs[dst]), Wrap32(s)));
        case LoadImm64(dst, imm) =>
          SetReg(dst, imm);
        case Load(width, dst, base, off) =>
          var rel := StackOffset(stackAddr, regs[base], off);
          var v := ReadStack(stack[..], rel, width);
          if v.None? { return Panic; }
          SetReg(dst, v.value);
        case StoreReg(width, dst, value, off) =>
          var rel := StackOffset(stackAddr, regs[dst], off);
          var st := WriteStack(stack[..], rel, width, regs[value]);
          if st.None? { return Panic; }
          SetStack(st.value);
        case StoreImm(width, dst, off, imm) =>
          var rel := StackOffset(stackAddr, regs[dst], off);
          var st := WriteStack(stack[..], rel, width, Wrap64(imm));
          if st.None? { return Panic; }
          SetStack(st.value);
        case Jump(off) =>
          pc := Wrap64(pc + 1 + off);
        case JmpCond(op, dst, src, off) =>
          var b := ResolveOperand(src);
          pc := if EvalJmp(op, regs[dst], b) then Wrap64(pc + 1 + off) else Wrap64(pc + 1);
        case JmpCond32(op, dst, src, off) =>
          var b := ResolveOperand(src);
          pc := if EvalJmp(op, Wrap32(regs[dst]), Wrap32(b)) then Wrap64(pc + 1 + off) else Wrap64(pc + 1);
        case Call(_) =>
          SetReg(0, 0);
        case Exit =>
          halted := true;
          return Halt;
        case TailCall =>
          halted := true;
          return Halt;
        case Atomic(_, _, _, _, _) =>
          pc := Wrap64(pc + 1);
        case Endian(toBe, width, dst) =>
          SetReg(dst, EvalEndian(toBe, width, regs[dst]));
      }
      return Continue;
    }

    /** Runs until exit or the step limit, and returns R0. */
    method DoRun(insns: seq<Insn>, maxSteps: nat) returns (r: Option<u64>)
      requires Valid()
      modifies this, regs, stack
      ensures Valid()
      ensures var out := Run(insns, stackAddr, old(View()), maxSteps);
              if out.Some? then r == Some(out.value.regs[0]) && View() == out.value else r == None
    {
      var i := 0;
      while i < maxSteps
        invariant 0 <= i <= maxSteps && Valid()
        invariant Run(insns, stackAddr, old(View()), maxSteps) == Run(insns, stackAddr, View(), maxSteps - i)
      {
        var go := DoStep(insns);
        if go == Panic { return None; }
        if go == Halt { break; }
        i := i + 1;
      }
      r := Some(regs[0]);
    }
  }
}
