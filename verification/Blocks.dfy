/** Paths through basic blocks and what they initialise; how they correspond to paths through
    instructions; and how many retreating steps a path needs. */
module Blocks {
  import opened Isa
  import opened Flow
  import opened Cfg

  // ---------- transfer through a range of instructions ----------

  function TransferRange(insns: seq<Insn>, lo: nat, hi: nat, s: set<BpfReg>): set<BpfReg>
    requires lo <= hi <= |insns|
    decreases hi
  {
    if lo == hi then s else Transfer(insns[hi - 1], TransferRange(insns, lo, hi - 1, s))
  }

  lemma {:induction false} TransferMonotone(insns: seq<Insn>, lo: nat, hi: nat, s: set<BpfReg>, t: set<BpfReg>)
    requires lo <= hi <= |insns| && s <= t
    ensures TransferRange(insns, lo, hi, s) <= TransferRange(insns, lo, hi, t)
    decreases hi
  {
    if lo < hi {
      TransferMonotone(insns, lo, hi - 1, s, t);
    }
  }

  /** Each register flows on its own: the analysis is distributive. */
  lemma {:induction false} TransferPointwise(insns: seq<Insn>, lo: nat, hi: nat, s: set<BpfReg>, t: set<BpfReg>,
          r: BpfReg)
    requires lo <= hi <= |insns| && (r in s <==> r in t)
    ensures r in TransferRange(insns, lo, hi, s) <==> r in TransferRange(insns, lo, hi, t)
    decreases hi
  {
    if lo < hi {
      TransferPointwise(insns, lo, hi - 1, s, t, r);
    }
  }

  // ---------- block paths ----------

  predicate IsBlockPath(cfg: seq<BasicBlock>, p: seq<nat>) {
    && |p| > 0 && p[0] == 0 && |cfg| > 0
    && (forall j :: 0 <= j < |p| ==> p[j] < |cfg|)
    && (forall j :: 0 <= j < |p| - 1 ==> p[j + 1] in cfg[p[j]].successors)
  }

  /** The registers initialised on arrival at the last block of p. */
  function BlockInits(insns: seq<Insn>, cfg: seq<BasicBlock>, p: seq<nat>): set<BpfReg>
    requires WellFormed(insns, cfg) && forall j :: 0 <= j < |p| ==> p[j] < |cfg|
  {
    if |p| <= 1 then ENTRY_REGS
    else
      var b := p[|p| - 2];
      TransferRange(insns, cfg[b].start, cfg[b].end, BlockInits(insns, cfg, p[..|p| - 1]))
  }

  lemma ArcTo(insns: seq<Insn>, cfg: seq<BasicBlock>, b: nat, s: nat)
    requires WellFormed(insns, cfg) && b < |cfg| && s in cfg[b].successors
    ensures s < |cfg| && cfg[b].start <= cfg[b].end <= |insns|
  {
    assert IsArc(insns, cfg, b, s);
  }

  lemma ExtendBlockPath(insns: seq<Insn>, cfg: seq<BasicBlock>, p: seq<nat>, s: nat)
    requires WellFormed(insns, cfg) && IsBlockPath(cfg, p) && s in cfg[Last(p)].successors
    ensures IsBlockPath(cfg, p + [s])
    ensures BlockInits(insns, cfg, p + [s])
         == TransferRange(insns, cfg[Last(p)].start, cfg[Last(p)].end, BlockInits(insns, cfg, p))
  {
    hide WellFormed, TransferRange, Transfer;
    ArcTo(insns, cfg, Last(p), s);
    assert (p + [s])[..|p|] == p;
  }

  lemma PrefixBlockPath(cfg: seq<BasicBlock>, p: seq<nat>, k: nat)
    requires IsBlockPath(cfg, p) && 0 < k <= |p|
    ensures IsBlockPath(cfg, p[..k])
  {}

  lemma StepIsArc(cfg: seq<BasicBlock>, p: seq<nat>, k: nat)
    requires IsBlockPath(cfg, p) && k + 1 < |p|
    ensures p[k] < |cfg| && p[k + 1] in cfg[p[k]].successors
  {}

  // ---------- retreating steps ----------

  /** How many steps of p go to the same or an earlier block. */
  function Retreats(p: seq<nat>): nat {
    if |p| <= 1 then 0
    else Retreats(p[..|p| - 1]) + (if p[|p| - 1] <= p[|p| - 2] then 1 else 0)
  }

  /** The pass that propagates the last step of p: one pass carries a path up to its next retreating
      step. */
  function Arrival(p: seq<nat>): nat
    requires |p| > 0
  {
    if |p| == 1 then 0 else Retreats(p[..|p| - 1]) + 1
  }

  lemma {:induction false} StartsIncrease(insns: seq<Insn>, cfg: seq<BasicBlock>, a: nat, b: nat)
    requires WellFormed(insns, cfg) && a <= b < |cfg|
    ensures cfg[a].start <= cfg[b].start && cfg[a].end <= cfg[b].end
    decreases b - a
  {
    if a < b {
      StartsIncrease(insns, cfg, a, b - 1);
      assert cfg[b - 1].end == cfg[b - 1 + 1].start;
    }
  }

  // ---------- from block paths to instruction paths ----------

  /** One more step. */
  lemma RetreatsSnoc(p: seq<nat>, s: nat)
    requires |p| > 0
    ensures Retreats(p + [s]) == Retreats(p) + (if s <= Last(p) then 1 else 0)
    ensures Arrival(p + [s]) == Retreats(p) + 1
  {
    assert (p + [s])[..|p|] == p;
  }

  /** Stepping along the interior of a block. */
  lemma {:induction false} PathWithinBlock(insns: seq<Insn>, cfg: seq<BasicBlock>, p: seq<nat>, b: nat, pc: nat)
    returns (q: seq<nat>)
    requires WellFormed(insns, cfg) && b < |cfg| && cfg[b].start <= pc < cfg[b].end
    requires PathTo(insns, p, cfg[b].start)
    ensures PathTo(insns, q, pc)
    ensures Initialised(insns, q) == TransferRange(insns, cfg[b].start, pc, Initialised(insns, p))
    ensures Retreats(q) == Retreats(p)
    decreases pc
  {
    if pc == cfg[b].start {
      q := p;
    } else {
      var q' := PathWithinBlock(insns, cfg, p, b, pc - 1);
      assert !EndsBlock(insns[pc - 1], false);
      ExtendPath(insns, q', pc);
      RetreatsSnoc(q', pc);
      q := q' + [pc];
    }
  }

  /** A retreating step between blocks is one between instructions. */
  lemma RetreatsAlike(insns: seq<Insn>, cfg: seq<BasicBlock>, b: nat, s: nat)
    requires WellFormed(insns, cfg) && b < |cfg| && s < |cfg|
    ensures s <= b <==> cfg[s].start <= cfg[b].end - 1
  {
    if s <= b {
      StartsIncrease(insns, cfg, s, b);
    } else {
      StartsIncrease(insns, cfg, b + 1, s);
      assert cfg[b].end == cfg[b + 1].start;
    }
  }

  lemma WholeBlock(insns: seq<Insn>, cfg: seq<BasicBlock>, p: seq<nat>, b: nat) returns (q: seq<nat>)
    requires WellFormed(insns, cfg) && b < |cfg| && cfg[b].start < cfg[b].end <= |insns|
    requires PathTo(insns, p, cfg[b].start)
    ensures PathTo(insns, q, cfg[b].end - 1) && Retreats(q) == Retreats(p)
    ensures Transfer(insns[cfg[b].end - 1], Initialised(insns, q))
         == TransferRange(insns, cfg[b].start, cfg[b].end, Initialised(insns, p))
  {
    q := PathWithinBlock(insns, cfg, p, b, cfg[b].end - 1);
  }

  lemma {:induction false} BlockPathToPath(insns: seq<Insn>, cfg: seq<BasicBlock>, p: seq<nat>) returns (q: seq<nat>)
    requires WellFormed(insns, cfg) && IsBlockPath(cfg, p)
    ensures PathTo(insns, q, cfg[Last(p)].start)
    ensures Initialised(insns, q) == BlockInits(insns, cfg, p)
    ensures Retreats(q) == Retreats(p) && Arrival(q) == Arrival(p)
    decreases |p|
  {
    if |p| == 1 {
      q := [0];
    } else {
      var p', s := p[..|p| - 1], Last(p);
      assert p == p' + [s];
      PrefixBlockPath(cfg, p, |p| - 1);
      StepIsArc(cfg, p, |p| - 2);
      hide *;
      var q' := BlockPathToPath(insns, cfg, p');
      q := NextBlock(insns, cfg, p', s, q');
    }
  }

  /** The instruction path q along block path p, continued to successor s. */
  lemma LastArc(insns: seq<Insn>, cfg: seq<BasicBlock>, p: seq<nat>, s: nat)
    requires WellFormed(insns, cfg) && IsBlockPath(cfg, p) && s in cfg[Last(p)].successors
    ensures |p| > 0 && Last(p) < |cfg| && s < |cfg| && cfg[Last(p)].start < cfg[Last(p)].end <= |insns|
    ensures Edge(insns, cfg[Last(p)].end - 1, cfg[s].start)
  {
    hide Edge;
    assert IsArc(insns, cfg, Last(p), s);
  }

  lemma PathParts(insns: seq<Insn>, q: seq<nat>, pc: nat)
    requires PathTo(insns, q, pc)
    ensures IsPath(insns, q) && |q| > 0 && Last(q) == pc && forall j :: 0 <= j < |q| ==> q[j] < |insns|
  {}

  lemma NextBlock(insns: seq<Insn>, cfg: seq<BasicBlock>, p: seq<nat>, s: nat, q: seq<nat>) returns (q': seq<nat>)
    requires WellFormed(insns, cfg) && IsBlockPath(cfg, p) && s in cfg[Last(p)].successors && IsBlockPath(cfg, p + [s])
    requires PathTo(insns, q, cfg[Last(p)].start) && Initialised(insns, q) == BlockInits(insns, cfg, p)
    requires Retreats(q) == Retreats(p)
    ensures PathTo(insns, q', cfg[s].start) && Initialised(insns, q') == BlockInits(insns, cfg, p + [s])
    ensures Retreats(q') == Retreats(p + [s]) && Arrival(q') == Arrival(p + [s])
  {
    hide *;
    LastArc(insns, cfg, p, s);
    ExtendBlockPath(insns, cfg, p, s);
    var e := WholeBlock(insns, cfg, q, Last(p));
    PathParts(insns, e, cfg[Last(p)].end - 1);
    ExtendPath(insns, e, cfg[s].start);
    RetreatsAlike(insns, cfg, Last(p), s);
    RetreatsSnoc(e, cfg[s].start);
    RetreatsSnoc(p, s);
    q' := e + [cfg[s].start];
  }

  /** A retreating step leaves through a backward branch. */
  lemma RetreatIsBackward(insns: seq<Insn>, cfg: seq<BasicBlock>, b: nat, s: nat)
    requires WellFormed(insns, cfg) && b < |cfg| && s in cfg[b].successors && s <= b
    ensures cfg[b].end - 1 in BackwardBranches(insns)
  {
    assert IsArc(insns, cfg, b, s);
    StartsIncrease(insns, cfg, s, b);
  }

  /** Block b is reached at step j of p with register r initialised or not. */
  predicate Has(insns: seq<Insn>, cfg: seq<BasicBlock>, p: seq<nat>, j: nat, r: BpfReg)
    requires WellFormed(insns, cfg) && IsBlockPath(cfg, p) && j < |p|
  {
    PrefixBlockPath(cfg, p, j + 1);
    r in BlockInits(insns, cfg, p[..j + 1])
  }

  predicate Carries(insns: seq<Insn>, cfg: seq<BasicBlock>, b: nat, has: bool, r: BpfReg)
    requires WellFormed(insns, cfg) && b < |cfg|
  {
    r in TransferRange(insns, cfg[b].start, cfg[b].end, if has then {r} else {})
  }

  /** One step later the answer depends only on the block and the answer now. */
  lemma HasStep(insns: seq<Insn>, cfg: seq<BasicBlock>, p: seq<nat>, j: nat, r: BpfReg)
    requires WellFormed(insns, cfg) && IsBlockPath(cfg, p) && j + 1 < |p|
    ensures Has(insns, cfg, p, j + 1, r) == Carries(insns, cfg, p[j], Has(insns, cfg, p, j, r), r)
  {
    PrefixBlockPath(cfg, p, j + 1);
    PrefixBlockPath(cfg, p, j + 2);
    assert p[..j + 2][..j + 1] == p[..j + 1];
    TransferPointwise(insns, cfg[p[j]].start, cfg[p[j]].end, BlockInits(insns, cfg, p[..j + 1]),
                      if Has(insns, cfg, p, j, r) then {r} else {}, r);
  }

  /** The backward branches that p takes, each with whether r was initialised at its block. */
  ghost function RetreatSet(insns: seq<Insn>, cfg: seq<BasicBlock>, p: seq<nat>, k: nat, r: BpfReg): set<(nat, bool)>
    requires WellFormed(insns, cfg) && IsBlockPath(cfg, p) && k < |p|
  {
    if k == 0 then {}
    else RetreatSet(insns, cfg, p, k - 1, r)
         + (if p[k] <= p[k - 1] then {(cfg[p[k - 1]].end - 1, Has(insns, cfg, p, k - 1, r))} else {})
  }

  /** No block is visited twice with the same answer for r. */
  ghost predicate Simple(insns: seq<Insn>, cfg: seq<BasicBlock>, p: seq<nat>, r: BpfReg)
    requires WellFormed(insns, cfg) && IsBlockPath(cfg, p)
  {
    forall i, j :: 0 <= i < j < |p| && p[i] == p[j] ==> Has(insns, cfg, p, i, r) != Has(insns, cfg, p, j, r)
  }

  lemma {:induction false} RetreatSetMembers(insns: seq<Insn>, cfg: seq<BasicBlock>, p: seq<nat>, k: nat, r: BpfReg,
          e: (nat, bool))
    requires WellFormed(insns, cfg) && IsBlockPath(cfg, p) && k < |p|
    requires e in RetreatSet(insns, cfg, p, k, r)
    ensures e.0 in BackwardBranches(insns)
    ensures exists j :: 0 <= j < k && e.0 == cfg[p[j]].end - 1 && e.1 == Has(insns, cfg, p, j, r)
  {
    hide WellFormed, IsBlockPath, Has, BackwardBranches;
    if e in RetreatSet(insns, cfg, p, k - 1, r) {
      RetreatSetMembers(insns, cfg, p, k - 1, r, e);
    } else {
      StepIsArc(cfg, p, k - 1);
      RetreatIsBackward(insns, cfg, p[k - 1], p[k]);
      assert e.0 == cfg[p[k - 1]].end - 1 && e.1 == Has(insns, cfg, p, k - 1, r);
    }
  }

  lemma DistinctEnds(insns: seq<Insn>, cfg: seq<BasicBlock>, a: nat, b: nat)
    requires WellFormed(insns, cfg) && a < b < |cfg|
    ensures cfg[a].end < cfg[b].end
  {
    StartsIncrease(insns, cfg, a + 1, b);
    assert cfg[a].end == cfg[a + 1].start;
  }

  lemma RetreatSetFresh(insns: seq<Insn>, cfg: seq<BasicBlock>, p: seq<nat>, k: nat, r: BpfReg)
    requires WellFormed(insns, cfg) && IsBlockPath(cfg, p) && 0 < k < |p| && Simple(insns, cfg, p, r)
    ensures (cfg[p[k - 1]].end - 1, Has(insns, cfg, p, k - 1, r)) !in RetreatSet(insns, cfg, p, k - 1, r)
  {
    var e := (cfg[p[k - 1]].end - 1, Has(insns, cfg, p, k - 1, r));
    if e in RetreatSet(insns, cfg, p, k - 1, r) {
      RetreatSetMembers(insns, cfg, p, k - 1, r, e);
      var j :| 0 <= j < k - 1 && e.0 == cfg[p[j]].end - 1 && e.1 == Has(insns, cfg, p, j, r);
      if p[j] < p[k - 1] {
        DistinctEnds(insns, cfg, p[j], p[k - 1]);
      } else if p[k - 1] < p[j] {
        DistinctEnds(insns, cfg, p[k - 1], p[j]);
      }
    }
  }

  lemma NoRetreatsYet(insns: seq<Insn>, cfg: seq<BasicBlock>, p: seq<nat>, r: BpfReg)
    requires WellFormed(insns, cfg) && IsBlockPath(cfg, p) && 0 < |p|
    ensures RetreatSet(insns, cfg, p, 0, r) == {} && Retreats(p[..1]) == 0
  {
    hide WellFormed, IsBlockPath;
  }

  lemma RetreatSetGrows(insns: seq<Insn>, cfg: seq<BasicBlock>, p: seq<nat>, k: nat, r: BpfReg)
    requires WellFormed(insns, cfg) && IsBlockPath(cfg, p) && 0 < k < |p| && Simple(insns, cfg, p, r)
    ensures |RetreatSet(insns, cfg, p, k, r)|
         == |RetreatSet(insns, cfg, p, k - 1, r)| + (if p[k] <= p[k - 1] then 1 else 0)
  {
    RetreatSetFresh(insns, cfg, p, k, r);
    hide WellFormed, IsBlockPath, Has, Simple;
  }

  lemma RetreatsStep(p: seq<nat>, k: nat)
    requires 0 < k < |p|
    ensures Retreats(p[..k + 1]) == Retreats(p[..k]) + (if p[k] <= p[k - 1] then 1 else 0)
  {
    assert p[..k + 1][..k] == p[..k];
  }

  lemma {:induction false} RetreatSetSize(insns: seq<Insn>, cfg: seq<BasicBlock>, p: seq<nat>, k: nat, r: BpfReg)
    requires WellFormed(insns, cfg) && IsBlockPath(cfg, p) && k < |p| && Simple(insns, cfg, p, r)
    ensures |RetreatSet(insns, cfg, p, k, r)| == Retreats(p[..k + 1])
  {
    hide WellFormed, IsBlockPath, Has, Simple, Retreats, RetreatSet;
    if k == 0 {
      NoRetreatsYet(insns, cfg, p, r);
    } else {
      RetreatSetSize(insns, cfg, p, k - 1, r);
      RetreatSetGrows(insns, cfg, p, k, r);
      RetreatsStep(p, k);
    }
  }

  lemma {:induction false} TaggedSize(b: set<nat>, flag: bool) returns (t: set<(nat, bool)>)
    ensures |t| == |b| && forall x :: x in b <==> (x, flag) in t
  {
    if b == {} {
      t := {};
    } else {
      var x :| x in b;
      t := TaggedSize(b - {x}, flag);
      t := t + {(x, flag)};
    }
  }

  lemma PairsBound(s: set<(nat, bool)>, b: set<nat>)
    requires forall e :: e in s ==> e.0 in b
    ensures |s| <= 2 * |b|
  {
    var yes := TaggedSize(b, true);
    var no := TaggedSize(b, false);
    assert s <= yes + no by {
      forall e | e in s
        ensures e in yes + no
      {
        assert if e.1 then e == (e.0, true) && (e.0, true) in yes else e == (e.0, false) && (e.0, false) in no;
      }
    }
    SubsetSize(s, yes + no);
  }

  lemma {:induction false} SubsetSize<T>(a: set<T>, b: set<T>)
    requires a <= b
    ensures |a| <= |b|
  {
    if a != {} {
      var x :| x in a;
      SubsetSize(a - {x}, b - {x});
    }
  }

  /** A simple path takes each backward branch at most twice. */
  lemma SimplePathRetreats(insns: seq<Insn>, cfg: seq<BasicBlock>, p: seq<nat>, r: BpfReg)
    requires WellFormed(insns, cfg) && IsBlockPath(cfg, p) && Simple(insns, cfg, p, r)
    ensures Retreats(p) <= 2 * |BackwardBranches(insns)|
  {
    var k := |p| - 1;
    RetreatSetSize(insns, cfg, p, k, r);
    forall e | e in RetreatSet(insns, cfg, p, k, r)
      ensures e.0 in BackwardBranches(insns)
    {
      RetreatSetMembers(insns, cfg, p, k, r, e);
    }
    PairsBound(RetreatSet(insns, cfg, p, k, r), BackwardBranches(insns));
    assert p[..k + 1] == p;
  }

  // ---------- cutting a cycle ----------

  function Cut(p: seq<nat>, i: nat, j: nat): seq<nat>
    requires i < j < |p|
  {
    p[..i + 1] + p[j + 1..]
  }

  lemma CutAt(p: seq<nat>, i: nat, j: nat, m: nat)
    requires i < j < |p| && p[i] == p[j] && j + m < |p|
    ensures i + m < |Cut(p, i, j)| && Cut(p, i, j)[i + m] == p[j + m]
  {}

  lemma CutIsPath(cfg: seq<BasicBlock>, p: seq<nat>, i: nat, j: nat)
    requires IsBlockPath(cfg, p) && i < j < |p| && p[i] == p[j]
    ensures IsBlockPath(cfg, Cut(p, i, j))
    ensures Last(Cut(p, i, j)) == Last(p)
  {
    var q := Cut(p, i, j);
    assert forall m :: 0 <= m < |q| ==> q[m] == if m <= i then p[m] else p[m + (j - i)];
  }

  lemma {:induction false} CutKeepsHas(insns: seq<Insn>, cfg: seq<BasicBlock>, p: seq<nat>, i: nat, j: nat,
          q: seq<nat>, r: BpfReg, m: nat)
    requires WellFormed(insns, cfg) && IsBlockPath(cfg, p) && i < j < |p| && p[i] == p[j] && j + m < |p|
    requires q == Cut(p, i, j) && IsBlockPath(cfg, q) && i + m < |q|
    requires Has(insns, cfg, p, i, r) == Has(insns, cfg, p, j, r)
    ensures Has(insns, cfg, q, i + m, r) == Has(insns, cfg, p, j + m, r)
  {
    hide WellFormed, BlockInits, TransferRange;
    if m == 0 {
      assert q[..i + 1] == p[..i + 1];
    } else {
      CutKeepsHas(insns, cfg, p, i, j, q, r, m - 1);
      HasStep(insns, cfg, p, j + m - 1, r);
      HasStep(insns, cfg, q, i + m - 1, r);
      CutAt(p, i, j, m - 1);
    }
  }

  lemma HasAtEnd(insns: seq<Insn>, cfg: seq<BasicBlock>, p: seq<nat>, r: BpfReg)
    requires WellFormed(insns, cfg) && IsBlockPath(cfg, p)
    ensures Has(insns, cfg, p, |p| - 1, r) == (r in BlockInits(insns, cfg, p))
  {
    assert p[..|p|] == p;
  }

  lemma CutCycle(insns: seq<Insn>, cfg: seq<BasicBlock>, p: seq<nat>, r: BpfReg) returns (q: seq<nat>)
    requires WellFormed(insns, cfg) && IsBlockPath(cfg, p) && !Simple(insns, cfg, p, r)
    ensures IsBlockPath(cfg, q) && Last(q) == Last(p) && |q| < |p|
    ensures r in BlockInits(insns, cfg, q) <==> r in BlockInits(insns, cfg, p)
  {
    hide WellFormed, BlockInits, TransferRange, Has;
    var i, j :| 0 <= i < j < |p| && p[i] == p[j] && Has(insns, cfg, p, i, r) == Has(insns, cfg, p, j, r);
    q := Cut(p, i, j);
    CutIsPath(cfg, p, i, j);
    CutKeepsHas(insns, cfg, p, i, j, q, r, |p| - 1 - j);
    HasAtEnd(insns, cfg, p, r);
    HasAtEnd(insns, cfg, q, r);
  }

  /** Every path can be replaced by one to the same block, with the same answer for r, that
      retreats at most twice per backward branch. */
  lemma {:induction false} Shorten(insns: seq<Insn>, cfg: seq<BasicBlock>, p: seq<nat>, r: BpfReg) returns (q: seq<nat>)
    requires WellFormed(insns, cfg) && IsBlockPath(cfg, p)
    ensures IsBlockPath(cfg, q) && Last(q) == Last(p)
    ensures r in BlockInits(insns, cfg, q) <==> r in BlockInits(insns, cfg, p)
    ensures Retreats(q) <= 2 * |BackwardBranches(insns)|
    decreases |p|
  {
    if Simple(insns, cfg, p, r) {
      q := p;
      SimplePathRetreats(insns, cfg, p, r);
    } else {
      var c := CutCycle(insns, cfg, p, r);
      q := Shorten(insns, cfg, c, r);
    }
  }
}
