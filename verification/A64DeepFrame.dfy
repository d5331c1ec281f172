/** A program that verification accepts and whose AArch64 frame does not restore the stack pointer. */
module A64DeepFrame {
  import opened Isa
  import opened Flow
  import opened Lowering
  import opened LoweringMeaning
  import opened A64Words
  import opened A64Machine
  import opened A64Alu
  import opened A64Frame

  /** R0 = 0; eight bytes at [R10 - 512] = 0; exit */
  const DEEP: seq<Insn> := [LoadImm64(0, 0), StoreImm(DW, 10, -512, 0), Exit]

  lemma {:induction false} DeepPaths(p: seq<nat>)
    requires IsPath(DEEP, p)
    ensures {1, 10} <= Initialised(DEEP, p) && (Last(p) > 0 ==> 0 in Initialised(DEEP, p))
    decreases |p|
  {
    if |p| > 1 {
      var q := p[..|p| - 1];
      DeepPaths(q);
      assert Edge(DEEP, Last(q), Last(p));
    }
  }

  lemma DeepReachable(pc: nat)
    requires pc < 3
    ensures Reachable(DEEP, pc)
  {
    assert PathTo(DEEP, [0], 0);
    if pc > 0 {
      ExtendPath(DEEP, [0], 1);
      if pc == 2 {
        ExtendPath(DEEP, [0] + [1], 2);
      }
    }
  }

  lemma DeepIsSafe()
    ensures Safe(DEEP)
  {
    forall pc: nat | pc < |DEEP|
      ensures Reachable(DEEP, pc)
    {
      DeepReachable(pc);
    }
    forall p | IsPath(DEEP, p)
      ensures PathOk(DEEP, p)
    {
      DeepPaths(p);
    }
    hide PathOk, IsPath, Reachable;
    assert DEEP[2].Exit?;
  }

  lemma DeepFrame()
    requires Lowerable(DEEP)
    ensures FrameSize(DEEP) == 512
  {
    assert FrameAccess(DEEP[1]) && DEEP[1].off == -512;
    FrameDiscipline(DEEP);
    hide FrameSize, Lowerable;
  }

  /** A safe program can need a frame of 512 bytes, whose prologue and epilogue do not restore the stack
      pointer. */
  lemma SafeProgramLosesStack(m: A64) returns (p: A64, n: A64)
    requires m.sp % 16 == 0
    ensures Safe(DEEP) && Lowerable(DEEP) && FrameSize(DEEP) == 512
    ensures Straight(PrologueWords(512), m, p) && Straight(EpilogueWords(512), p, n) && n.sp != m.sp
  {
    DeepIsSafe();
    SafeIsLowerable(DEEP);
    DeepFrame();
    hide Safe, Lowerable, FrameSize, Straight, Opened, PrologueWords, EpilogueWords, Slot;
    p := PrologueNode(512, m);
    n := FrameRoundTrip(512, m, p, p);
  }
}
