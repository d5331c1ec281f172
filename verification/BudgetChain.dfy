/** Where the pass budget bites: a family of safe programs without a loop, each made of backward jumps
    that are taken once. Verification accepts them up to 30 jumps and rejects them from 31 on. */
module BudgetChain {
  import opened Isa
  import opened Flow
  import opened Blocks
  import opened Budget

  /** R0 = 0, a jump to the last of k backward jumps, each of which leads to the one before it, and
      from the first a forward jump to the exit. */
  function ChainInsn(k: nat, pc: nat): Insn
    requires 1 <= k < 0x8000
  {
    if pc == 0 then LoadImm64(0, 0)
    else if pc == 1 || pc == 2 then Jump(k)
    else if pc < k + 3 then Jump(-2)
    else Exit
  }

  function Chain(k: nat): seq<Insn>
    requires 1 <= k < 0x8000
  {
    seq(k + 4, pc requires 0 <= pc < k + 4 => ChainInsn(k, pc))
  }

  /** Where the only path through the chain is after t steps. */
  function Stop(k: nat, t: nat): nat
    requires t <= k + 3
  {
    if t < 2 then t else if t < k + 3 then k + 4 - t else k + 3
  }

  lemma OnlyEdge(k: nat, t: nat, pc: nat)
    requires 1 <= k < 0x8000 && t <= k + 3
    ensures Edge(Chain(k), Stop(k, t), pc) <==> t < k + 3 && pc == Stop(k, t + 1)
  {
    var i := ChainInsn(k, Stop(k, t));
    assert Chain(k)[Stop(k, t)] == i;
  }

  /** There is only one path, and it never comes back. */
  lemma {:induction false} OnePath(k: nat, p: seq<nat>)
    requires 1 <= k < 0x8000 && IsPath(Chain(k), p)
    ensures |p| <= k + 4 && forall t :: 0 <= t < |p| ==> p[t] == Stop(k, t)
    decreases |p|
  {
    if |p| > 1 {
      var q := p[..|p| - 1];
      OnePath(k, q);
      assert q[|p| - 2] == p[|p| - 2];
      assert Edge(Chain(k), p[|p| - 2], p[|p| - 2 + 1]);
      OnlyEdge(k, |p| - 2, Last(p));
    }
  }

  /** The path of t steps. */
  function Walk(k: nat, t: nat): (p: seq<nat>)
    requires t <= k + 3
    ensures |p| == t + 1
  {
    if t == 0 then [0] else Walk(k, t - 1) + [Stop(k, t)]
  }

  lemma {:induction false} WalkIsPath(k: nat, t: nat)
    requires 1 <= k < 0x8000 && t <= k + 3
    ensures PathTo(Chain(k), Walk(k, t), Stop(k, t))
    ensures t > 0 ==> 0 in Initialised(Chain(k), Walk(k, t))
  {
    if t > 0 {
      WalkIsPath(k, t - 1);
      OnlyEdge(k, t - 1, Stop(k, t));
      assert Chain(k)[Stop(k, t - 1)] == ChainInsn(k, Stop(k, t - 1));
      hide Edge, IsPath, Chain, Initialised;
      ExtendPath(Chain(k), Walk(k, t - 1), Stop(k, t));
    }
  }

  /** Every step between the third and the last retreats. */
  lemma {:induction false} WalkRetreats(k: nat, t: nat)
    requires 1 <= k && t <= k + 3
    ensures Retreats(Walk(k, t)) == if t < 3 then 0 else if t < k + 3 then t - 2 else k
  {
    if t > 0 {
      WalkRetreats(k, t - 1);
      RetreatsSnoc(Walk(k, t - 1), Stop(k, t));
      WalkEnds(k, t - 1);
    }
  }

  lemma WalkEnds(k: nat, t: nat)
    requires t <= k + 3
    ensures Last(Walk(k, t)) == Stop(k, t)
  {}

  lemma {:induction false} WalkAt(k: nat, t: nat, j: nat)
    requires j <= t <= k + 3
    ensures Walk(k, t)[j] == Stop(k, j)
  {
    if j < t {
      WalkAt(k, t - 1, j);
    }
  }

  lemma PathIsWalk(k: nat, p: seq<nat>)
    requires 1 <= k < 0x8000 && IsPath(Chain(k), p)
    ensures |p| <= k + 4 && p == Walk(k, |p| - 1)
  {
    OnePath(k, p);
    forall j | 0 <= j < |p|
      ensures p[j] == Walk(k, |p| - 1)[j]
    {
      WalkAt(k, |p| - 1, j);
    }
  }

  lemma StopsEverywhere(k: nat, pc: nat) returns (t: nat)
    requires 1 <= k && pc < k + 4
    ensures t <= k + 3 && Stop(k, t) == pc
  {
    t := if pc < 2 || pc == k + 3 then pc else k + 4 - pc;
  }

  /** Every chain is safe. */
  lemma ChainSafe(k: nat)
    requires 1 <= k < 0x8000
    ensures Safe(Chain(k))
  {
    hide PathOk, IsPath, Reachable, BranchesInRange, EndOk, ChainInsn;
    forall pc: nat | pc < |Chain(k)|
      ensures Reachable(Chain(k), pc)
    {
      ChainReachable(k, pc);
    }
    forall p | IsPath(Chain(k), p)
      ensures PathOk(Chain(k), p)
    {
      ChainPathOk(k, p);
    }
    ChainShape(k);
  }

  lemma ChainReachable(k: nat, pc: nat)
    requires 1 <= k < 0x8000 && pc < k + 4
    ensures Reachable(Chain(k), pc)
  {
    hide IsPath;
    var t := StopsEverywhere(k, pc);
    WalkIsPath(k, t);
    assert PathTo(Chain(k), Walk(k, t), pc);
  }

  lemma ChainPathOk(k: nat, p: seq<nat>)
    requires 1 <= k < 0x8000 && IsPath(Chain(k), p)
    ensures PathOk(Chain(k), p)
  {
    PathIsWalk(k, p);
    WalkIsPath(k, |p| - 1);
    hide Walk, Initialised;
    assert Chain(k)[Last(p)] == ChainInsn(k, Last(p));
  }

  lemma ChainShape(k: nat)
    requires 1 <= k < 0x8000
    ensures BranchesInRange(Chain(k)) && EndOk(Chain(k))
    ensures exists pc: nat :: pc < |Chain(k)| && Chain(k)[pc].Exit?
  {
    assert Chain(k)[k + 3] == ChainInsn(k, k + 3);
    forall pc | 0 <= pc < |Chain(k)|
      ensures BranchInRange(Chain(k), pc)
    {
      assert Chain(k)[pc] == ChainInsn(k, pc);
    }
  }

  lemma {:induction false} ChainBackward(k: nat)
    requires 1 <= k < 0x8000
    ensures |BackwardBranches(Chain(k))| == k
  {
    forall pc: nat | pc < k + 4
      ensures pc in BackwardBranches(Chain(k)) <==> 3 <= pc < k + 3
    {
      assert Chain(k)[pc] == ChainInsn(k, pc);
    }
    hide Chain, IsBackward;
    RangeSize(BackwardBranches(Chain(k)), 3, k + 3);
  }

  lemma {:induction false} RangeSize(s: set<nat>, lo: nat, hi: nat)
    requires lo <= hi && forall x :: x in s <==> lo <= x < hi
    ensures |s| == hi - lo
    decreases hi
  {
    if lo < hi {
      RangeSize(s - {hi - 1}, lo, hi - 1);
    }
  }

  lemma WalkArrival(k: nat, t: nat)
    requires 1 <= k && t <= k + 3
    ensures Arrival(Walk(k, t)) <= k + 1
    ensures t == k + 3 ==> Arrival(Walk(k, t)) == k + 1
  {
    if t > 0 {
      WalkRetreats(k, t - 1);
      RetreatsSnoc(Walk(k, t - 1), Stop(k, t));
    }
  }

  lemma ExitIsLeader(k: nat)
    requires 1 <= k < 0x8000
    ensures IsLeader(Chain(k), false, k + 3)
  {
    assert Chain(k)[2] == ChainInsn(k, 2);
    assert JumpsTo(Chain(k), 2, k + 3);
  }

  /** Everything about a chain is known after k + 1 passes, and not earlier. */
  lemma ChainKnown(k: nat, n: nat)
    requires 1 <= k < 0x8000
    ensures KnownWithin(Chain(k), n) <==> n >= k + 1
  {
    var insns := Chain(k);
    if n >= k + 1 {
      forall p | LeaderPath(insns, p)
        ensures SubstituteFor(insns, n, p)
      {
        PathIsWalk(k, p);
        WalkArrival(k, |p| - 1);
        hide Chain, Arrival, IsPath, IsLeader, Walk, Initialised;
        assert ArrivesBy(insns, Last(p), n, p);
        forall r: BpfReg | r !in Initialised(insns, p)
          ensures LackedIn(insns, Last(p), r, n)
        {
          assert ArrivesWithout(insns, Last(p), r, n, p);
        }
      }
    }
    if KnownWithin(insns, n) {
      LastArrival(k, n);
    }
  }

  lemma LastArrival(k: nat, n: nat)
    requires 1 <= k < 0x8000 && KnownWithin(Chain(k), n)
    ensures n >= k + 1
  {
    var insns, p := Chain(k), Walk(k, k + 3);
    WalkIsPath(k, k + 3);
    ExitIsLeader(k);
    assert LeaderPath(insns, p);
    assert SubstituteFor(insns, n, p);
    var q :| ArrivesBy(insns, k + 3, n, q);
    PathIsWalk(k, q);
    WalkEnds(k, |q| - 1);
    assert |q| == k + 4;
    WalkArrival(k, k + 3);
  }

  /** The budget is exceeded from 31 backward jumps on. */
  lemma ChainBudget(k: nat)
    requires 1 <= k < 0x8000
    ensures Safe(Chain(k)) && |BackwardBranches(Chain(k))| == k
    ensures WithinBudget(Chain(k)) <==> k <= 30
  {
    ChainSafe(k);
    ChainBackward(k);
    hide Chain, Safe, BackwardBranches, KnownWithin;
    ChainKnown(k, 31);
  }
}
