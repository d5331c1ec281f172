/** The frames of a run, on either target: how many were opened, which are still there, and how far
    they moved the stack pointer. */
module Frames {
  import opened Isa
  import opened Bits
  import opened Interpreter
  import opened Ir

  /** The frames opened so far, and the machine as it was when the last of them was opened. */
  datatype FrameLog<M> = FrameLog(count: nat, saver: M)

  /** Every frame opened is still there, but for one that an epilogue closed just before a return. */
  predicate Balanced(nodes: seq<IrNode>, s: IrState, count: nat) {
    if s.pos < |nodes| && nodes[s.pos].IrRet? then |s.frames| <= count <= |s.frames| + 1 else count == |s.frames|
  }

  predicate ReturnsNext(nodes: seq<IrNode>, i: nat) { i + 1 < |nodes| && nodes[i + 1].IrRet? }

  /** A frame is closed only to return. */
  predicate EpiloguesReturn(nodes: seq<IrNode>) {
    forall i :: 0 <= i < |nodes| && nodes[i].IrEpilogue? ==> ReturnsNext(nodes, i)
  }

  lemma BalanceKept(nodes: seq<IrNode>, s: IrState, t: IrState, count: nat)
    requires Balanced(nodes, s, count) && s.pos < |nodes| && !nodes[s.pos].IrRet? && t.frames == s.frames
    ensures Balanced(nodes, t, count)
  {}

  lemma ReturnAfter(nodes: seq<IrNode>, i: nat)
    requires EpiloguesReturn(nodes) && i < |nodes| && nodes[i].IrEpilogue?
    ensures ReturnsNext(nodes, i)
  {}

  /** The stack pointer below k frames. */
  function Down(sp: u64, frame: u16, k: nat): u64 { if k == 0 then sp else Wrap64(Down(sp, frame, k - 1) - frame) }

  lemma {:induction false} DownIs(sp: u64, frame: u16, k: nat)
    ensures Down(sp, frame, k) == Wrap64(sp - frame * k)
  {
    hide Wrap64;
    if k == 0 {
      NothingWraps(sp);
    } else {
      DownIs(sp, frame, k - 1);
      WrapAgain(sp - frame * (k - 1), frame);
      Distribute(sp, frame, k);
    }
  }

  lemma NothingWraps(sp: u64)
    ensures Wrap64(sp) == sp
  {
    ModUnique(sp, TWO_64, 0, sp);
  }

  lemma WrapAgain(x: int, frame: u16)
    ensures Wrap64(Wrap64(x) - frame) == Wrap64(x - frame)
  {
    AddAfterMod(x, 0 - frame, TWO_64);
  }

  lemma Distribute(sp: int, frame: int, k: int)
    ensures sp - frame * (k - 1) - frame == sp - frame * k
  {}

  lemma {:induction false} DownAligned(sp: u64, frame: u16, k: nat)
    requires sp % 16 == 0 && frame % 16 == 0
    ensures Down(sp, frame, k) % 16 == 0
  {
    hide Wrap64;
    if k > 0 {
      DownAligned(sp, frame, k - 1);
      Sixteens(Down(sp, frame, k - 1), frame);
      WrapAligned(Down(sp, frame, k - 1) - frame);
    }
  }

  lemma Sixteens(x: int, y: int)
    requires x % 16 == 0 && y % 16 == 0
    ensures (x - y) % 16 == 0
  {
    ModUnique(x - y, 16, x / 16 - y / 16, 0);
  }

  lemma WrapAligned(x: int)
    requires x % 16 == 0
    ensures Wrap64(x) % 16 == 0
  {
    WrapKeepsMultiples(x, 16);
  }

  lemma WrapKeepsMultiples(x: int, unit: nat)
    requires (unit == 8 || unit == 16) && x % unit == 0
    ensures Wrap64(x) % unit == 0
  {
    var turns := x / TWO_64;
    assert x == TWO_64 * turns + Wrap64(x);
    if unit == 8 {
      ModUnique(Wrap64(x), 8, x / 8 - TWO_64 / 8 * turns, 0);
    } else {
      ModUnique(Wrap64(x), 16, x / 16 - TWO_64 / 16 * turns, 0);
    }
  }
}
