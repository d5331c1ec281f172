/** Where the words of each node are in the emitted and in the linked code. */
module Layout {
  import opened Interpreter
  import opened Ir
  import opened Emitting
  import opened Linking

  /** Word offset of node i. */
  function Offset(b: Backend, nodes: seq<IrNode>, i: nat): nat
    requires i <= |nodes|
  {
    |EmitAll(b, nodes[..i]).words|
  }

  lemma EmitOneWords(b: Backend, e: Emission, n: IrNode)
    ensures EmitOne(b, e, n).words == e.words + NodeWords(b, n)
  {}

  lemma EmitLast(b: Backend, nodes: seq<IrNode>, i: nat)
    requires i < |nodes|
    ensures EmitAll(b, nodes[..i + 1]) == EmitOne(b, EmitAll(b, nodes[..i]), nodes[i])
  {
    hide EmitOne;
    assert nodes[..i + 1][..i] == nodes[..i];
  }

  lemma OffsetNext(b: Backend, nodes: seq<IrNode>, i: nat)
    requires i < |nodes|
    ensures Offset(b, nodes, i + 1) == Offset(b, nodes, i) + |NodeWords(b, nodes[i])|
  {
    hide NodeWords, EmitOne, EmitAll;
    EmitLast(b, nodes, i);
    EmitOneWords(b, EmitAll(b, nodes[..i]), nodes[i]);
  }

  lemma {:induction false} WordsPrefix(b: Backend, nodes: seq<IrNode>, i: nat, j: nat)
    requires i <= j <= |nodes|
    ensures EmitAll(b, nodes[..i]).words <= EmitAll(b, nodes[..j]).words
    decreases j
  {
    hide NodeWords, EmitOne, EmitAll;
    if i < j {
      WordsPrefix(b, nodes, i, j - 1);
      EmitLast(b, nodes, j - 1);
      EmitOneWords(b, EmitAll(b, nodes[..j - 1]), nodes[j - 1]);
    }
  }

  lemma WholeProgram(nodes: seq<IrNode>)
    ensures nodes[..|nodes|] == nodes
  {}

  lemma OffsetMonotone(b: Backend, nodes: seq<IrNode>, i: nat, j: nat)
    requires i <= j <= |nodes|
    ensures Offset(b, nodes, i) <= Offset(b, nodes, j) <= |EmitAll(b, nodes).words|
  {
    hide EmitAll;
    WordsPrefix(b, nodes, i, j);
    WordsPrefix(b, nodes, j, |nodes|);
    WholeProgram(nodes);
  }

  /** The emitted words of node i. */
  lemma NodeWordsAt(b: Backend, nodes: seq<IrNode>, i: nat, w: nat)
    requires i < |nodes| && w < |NodeWords(b, nodes[i])|
    ensures Offset(b, nodes, i) + w < |EmitAll(b, nodes).words|
    ensures EmitAll(b, nodes).words[Offset(b, nodes, i) + w] == NodeWords(b, nodes[i])[w]
  {
    hide NodeWords, EmitOne, EmitAll;
    EmitLast(b, nodes, i);
    EmitOneWords(b, EmitAll(b, nodes[..i]), nodes[i]);
    WordsPrefix(b, nodes, i + 1, |nodes|);
    WholeProgram(nodes);
  }

  // ---------- labels ----------

  lemma FindLabelLast(nodes: seq<IrNode>, bb: nat)
    requires nodes != []
    ensures FindLabel(nodes, bb)
         == if nodes[|nodes| - 1] == IrLabel(bb) then Some(|nodes| - 1) else FindLabel(nodes[..|nodes| - 1], bb)
  {}

  lemma EmitOneLabels(b: Backend, e: Emission, n: IrNode)
    ensures EmitOne(b, e, n).labels == if n.IrLabel? then e.labels[n.bb := 4 * |e.words|] else e.labels
  {
    hide NodeWords;
  }

  lemma PrefixOffset(b: Backend, nodes: seq<IrNode>, n: nat, i: nat)
    requires i <= n <= |nodes|
    ensures Offset(b, nodes[..n], i) == Offset(b, nodes, i)
  {
    hide EmitAll;
    assert nodes[..n][..i] == nodes[..i];
  }

  ghost predicate LabelRight(b: Backend, nodes: seq<IrNode>, bb: nat) {
    var labels := EmitAll(b, nodes).labels;
    match FindLabel(nodes, bb)
    case None => bb !in labels
    case Some(p) => bb in labels && labels[bb] == 4 * Offset(b, nodes, p)
  }

  lemma LabelStep(b: Backend, nodes: seq<IrNode>, bb: nat)
    requires nodes != [] && LabelRight(b, nodes[..|nodes| - 1], bb)
    ensures LabelRight(b, nodes, bb)
  {
    var n := |nodes| - 1;
    var r := FindLabel(nodes[..n], bb);
    FindLabelLast(nodes, bb);
    EmitLast(b, nodes, n);
    WholeProgram(nodes);
    if r.Some? {
      PrefixOffset(b, nodes, n, r.value);
    }
    EmitOneLabels(b, EmitAll(b, nodes[..n]), nodes[n]);
    assert Offset(b, nodes, n) == |EmitAll(b, nodes[..n]).words|;
    hide EmitOne, EmitAll, FindLabel, NodeWords, Offset;
  }

  /** The label table says where the last label of a block stands. */
  lemma {:induction false} LabelOffset(b: Backend, nodes: seq<IrNode>, bb: nat)
    ensures LabelRight(b, nodes, bb)
    decreases |nodes|
  {
    if nodes == [] {
    } else {
      hide LabelRight;
      LabelOffset(b, nodes[..|nodes| - 1], bb);
      LabelStep(b, nodes, bb);
    }
  }

  // ---------- relocations ----------

  /** The relocation that a branching node leaves. */
  function RelocFor(b: Backend, nodes: seq<IrNode>, i: nat): Relocation
    requires i < |nodes| && Branching(nodes[i])
  {
    LastWord(b, nodes, i);
    Relocation(4 * (Offset(b, nodes, i + 1) - 1), TargetOf(nodes[i]), nodes[i].IrBranch?)
  }

  lemma LastWord(b: Backend, nodes: seq<IrNode>, i: nat)
    requires i < |nodes| && Branching(nodes[i])
    ensures Offset(b, nodes, i + 1) >= Offset(b, nodes, i) + 1
  {
    OffsetNext(b, nodes, i);
    BranchingWords(b, nodes[i]);
  }

  lemma EmitOneRelocs(b: Backend, e: Emission, n: IrNode)
    ensures Branching(n) ==> |EmitOne(b, e, n).words| > 0
    ensures EmitOne(b, e, n).relocs
         == if Branching(n) then
             e.relocs + [Relocation(4 * (|EmitOne(b, e, n).words| - 1), TargetOf(n), n.IrBranch?)] else e.relocs
  {
    hide NodeWords;
    if Branching(n) {
      BranchingWords(b, n);
    }
  }

  lemma RelocForPrefix(b: Backend, nodes: seq<IrNode>, n: nat, i: nat)
    requires i < n <= |nodes| && Branching(nodes[i])
    ensures RelocFor(b, nodes[..n], i) == RelocFor(b, nodes, i)
  {
    PrefixOffset(b, nodes, n, i + 1);
  }

  lemma EmitRelocsLast(b: Backend, nodes: seq<IrNode>)
    requires nodes != []
    ensures var n := |nodes| - 1;
            EmitAll(b, nodes).relocs
                 == EmitAll(b, nodes[..n]).relocs + if Branching(nodes[n]) then [RelocFor(b, nodes, n)] else []
  {
    var n := |nodes| - 1;
    EmitLast(b, nodes, n);
    WholeProgram(nodes);
    hide EmitOne, EmitAll, NodeWords, Branching, TargetOf;
    EmitOneRelocs(b, EmitAll(b, nodes[..n]), nodes[n]);
  }

  /** Every relocation comes from a branching node. */
  lemma {:induction false} RelocSource(b: Backend, nodes: seq<IrNode>, k: nat) returns (i: nat)
    requires k < |EmitAll(b, nodes).relocs|
    ensures i < |nodes| && Branching(nodes[i]) && EmitAll(b, nodes).relocs[k] == RelocFor(b, nodes, i)
    decreases |nodes|
  {
    assert nodes != [];
    var n := |nodes| - 1;
    EmitRelocsLast(b, nodes);
    hide EmitAll, RelocFor;
    if k < |EmitAll(b, nodes[..n]).relocs| {
      i := RelocSource(b, nodes[..n], k);
      RelocForPrefix(b, nodes, n, i);
    } else {
      i := n;
    }
  }

  lemma RelocKept(b: Backend, nodes: seq<IrNode>, k: nat)
    requires nodes != [] && k < |EmitAll(b, nodes[..|nodes| - 1]).relocs|
    ensures k < |EmitAll(b, nodes).relocs| && EmitAll(b, nodes).relocs[k] == EmitAll(b, nodes[..|nodes| - 1]).relocs[k]
  {
    EmitRelocsLast(b, nodes);
    hide EmitAll, RelocFor;
  }

  lemma RelocAdded(b: Backend, nodes: seq<IrNode>) returns (k: nat)
    requires nodes != [] && Branching(nodes[|nodes| - 1])
    ensures k < |EmitAll(b, nodes).relocs| && EmitAll(b, nodes).relocs[k] == RelocFor(b, nodes, |nodes| - 1)
  {
    EmitRelocsLast(b, nodes);
    hide EmitAll, RelocFor;
    k := |EmitAll(b, nodes[..|nodes| - 1]).relocs|;
  }

  /** Every branching node left its relocation. */
  lemma {:induction false} RelocPresent(b: Backend, nodes: seq<IrNode>, i: nat) returns (k: nat)
    requires i < |nodes| && Branching(nodes[i])
    ensures k < |EmitAll(b, nodes).relocs| && EmitAll(b, nodes).relocs[k] == RelocFor(b, nodes, i)
    decreases |nodes|
  {
    hide EmitAll, RelocFor, Branching;
    var n := |nodes| - 1;
    if i < n {
      k := RelocPresent(b, nodes[..n], i);
      RelocKept(b, nodes, k);
      RelocForPrefix(b, nodes, n, i);
    } else {
      k := RelocAdded(b, nodes);
    }
  }

  lemma RelocInNode(b: Backend, nodes: seq<IrNode>, i: nat)
    requires i < |nodes| && Branching(nodes[i])
    ensures var r := RelocFor(b, nodes, i);
            r.offset % 4 == 0 &&
                Offset(b, nodes, i) <= r.offset / 4 < Offset(b, nodes, i + 1) <= |EmitAll(b, nodes).words|
            && r.offset / 4 == Offset(b, nodes, i + 1) - 1
  {
    hide EmitAll, NodeWords;
    LastWord(b, nodes, i);
    OffsetMonotone(b, nodes, i + 1, |nodes|);
  }

  lemma EmittedLinkReady(b: Backend, nodes: seq<IrNode>)
    ensures LinkReady(EmitAll(b, nodes).words, EmitAll(b, nodes).relocs)
  {
    hide EmitAll, RelocFor;
    forall k: nat | k < |EmitAll(b, nodes).relocs|
      ensures InBounds(EmitAll(b, nodes).relocs[k], |EmitAll(b, nodes).words|)
    {
      var i := RelocSource(b, nodes, k);
      RelocInNode(b, nodes, i);
    }
  }

  lemma RelocBelow(b: Backend, nodes: seq<IrNode>, k: nat)
    requires k < |EmitAll(b, nodes).relocs|
    ensures EmitAll(b, nodes).relocs[k].offset < 4 * |EmitAll(b, nodes).words|
  {
    hide EmitAll, RelocFor;
    var i := RelocSource(b, nodes, k);
    RelocInNode(b, nodes, i);
  }

  /** Relocations stand at increasing offsets. */
  lemma {:induction false} RelocsIncrease(b: Backend, nodes: seq<IrNode>, k: nat, l: nat)
    requires k < l < |EmitAll(b, nodes).relocs|
    ensures EmitAll(b, nodes).relocs[k].offset < EmitAll(b, nodes).relocs[l].offset
    decreases |nodes|
  {
    assert nodes != [];
    var n := |nodes| - 1;
    EmitRelocsLast(b, nodes);
    hide EmitAll, RelocFor;
    if l < |EmitAll(b, nodes[..n]).relocs| {
      RelocsIncrease(b, nodes[..n], k, l);
    } else {
      RelocBelow(b, nodes[..n], k);
      RelocInNode(b, nodes, n);
    }
  }

  lemma EmittedSeparate(b: Backend, nodes: seq<IrNode>)
    ensures Separate(EmitAll(b, nodes).relocs)
  {
    hide EmitAll;
    forall k: nat, l: nat | k < l < |EmitAll(b, nodes).relocs|
      ensures EmitAll(b, nodes).relocs[k].offset != EmitAll(b, nodes).relocs[l].offset
    {
      RelocsIncrease(b, nodes, k, l);
    }
  }

  // ---------- labels take no time ----------

  predicate NoAdjacentLabels(nodes: seq<IrNode>) {
    forall i :: 0 < i < |nodes| && nodes[i].IrLabel? ==> !nodes[i - 1].IrLabel?
  }

  predicate AfterLabel(nodes: seq<IrNode>, pos: nat) { 0 < pos <= |nodes| && nodes[pos - 1].IrLabel? }

  predicate LabelPassed(nodes: seq<IrNode>, s: IrState, u: IrState) {
    s.pos < |nodes| && nodes[s.pos].IrLabel? && u.pos == s.pos + 1
  }

  // ---------- linked code ----------

  /** The code that emitting and finalizing the nodes yields. */
  ghost predicate Image(b: Backend, nodes: seq<IrNode>, code: seq<bv32>) {
    var e := EmitAll(b, nodes);
    LinkReady(e.words, e.relocs) && Link(b, e.words, e.labels, e.relocs) == Linked(code)
  }

  lemma OtherWord(b: Backend, nodes: seq<IrNode>, i: nat, w: nat)
    requires i < |nodes| && Offset(b, nodes, i) <= w < Offset(b, nodes, i + 1)
    requires Branching(nodes[i]) ==> w != Offset(b, nodes, i + 1) - 1
    ensures Untouched(EmitAll(b, nodes).relocs, w)
  {
    hide EmitAll, Offset;
    forall k: nat | k < |EmitAll(b, nodes).relocs|
      ensures EmitAll(b, nodes).relocs[k].offset / 4 != w
    {
      var j := RelocSource(b, nodes, k);
      RelocInNode(b, nodes, j);
      if j < i {
        OffsetMonotone(b, nodes, j + 1, i);
      } else if i < j {
        OffsetMonotone(b, nodes, i + 1, j);
      }
    }
  }

  /** A word of node i that is not a pending branch is in the linked code as emitted. */
  lemma ImageWord(b: Backend, nodes: seq<IrNode>, code: seq<bv32>, i: nat, w: nat)
    requires Image(b, nodes, code) && i < |nodes| && w < |NodeWords(b, nodes[i])|
    requires Branching(nodes[i]) ==> w != |NodeWords(b, nodes[i])| - 1
    ensures Offset(b, nodes, i) + w < |code| && code[Offset(b, nodes, i) + w] == NodeWords(b, nodes[i])[w]
  {
    hide EmitAll, NodeWords, Link;
    var e := EmitAll(b, nodes);
    NodeWordsAt(b, nodes, i, w);
    OffsetNext(b, nodes, i);
    OtherWord(b, nodes, i, Offset(b, nodes, i) + w);
    LinkSucceeds(b, e.words, e.labels, e.relocs);
    LinkKeeps(b, e.words, e.labels, e.relocs, Offset(b, nodes, i) + w);
  }

  lemma NodeWordAt(b: Backend, nodes: seq<IrNode>, i: nat, w: nat, at: nat)
    requires i < |nodes| && w < |NodeWords(b, nodes[i])| && at == Offset(b, nodes, i) + w
    ensures at < |EmitAll(b, nodes).words| && EmitAll(b, nodes).words[at] == NodeWords(b, nodes[i])[w]
  {
    hide EmitAll, NodeWords, Offset;
    NodeWordsAt(b, nodes, i, w);
  }

  lemma PlaceholderAt(b: Backend, nodes: seq<IrNode>, i: nat)
    requires i < |nodes| && Branching(nodes[i])
    ensures |NodeWords(b, nodes[i])| > 0 && Offset(b, nodes, i + 1) - 1 < |EmitAll(b, nodes).words|
    ensures Offset(b, nodes, i + 1) >= 1
    ensures EmitAll(b, nodes).words[Offset(b, nodes, i + 1) - 1] == NodeWords(b, nodes[i])[|NodeWords(b, nodes[i])| - 1]
  {
    hide *;
    BranchingWords(b, nodes[i]);
    OffsetNext(b, nodes, i);
    NodeWordAt(b, nodes, i, |NodeWords(b, nodes[i])| - 1, Offset(b, nodes, i + 1) - 1);
  }

  lemma ImagePatched(b: Backend, nodes: seq<IrNode>, code: seq<bv32>, k: nat, at: nat)
    requires Image(b, nodes, code) && k < |EmitAll(b, nodes).relocs| && at == EmitAll(b, nodes).relocs[k].offset / 4
    ensures var e := EmitAll(b, nodes);
            && at < |e.words| == |code| && Resolvable(b, e.relocs[k], e.labels) && e.relocs[k].target in e.labels
            && code[at] == PatchedWord(b, e.words[at], e.relocs[k], e.labels)
  {
    hide EmitAll, Link, PatchedWord, Resolvable;
    var e := EmitAll(b, nodes);
    EmittedSeparate(b, nodes);
    LinkSucceeds(b, e.words, e.labels, e.relocs);
    LinkPatches(b, e.words, e.labels, e.relocs, k);
    HasLabel(b, e.relocs[k], e.labels);
  }

  /** The last word of a branching node is the placeholder, patched. */
  lemma ImageBranch(b: Backend, nodes: seq<IrNode>, code: seq<bv32>, i: nat)
    requires Image(b, nodes, code) && i < |nodes| && Branching(nodes[i])
    ensures Offset(b, nodes, i + 1) >= 1
    ensures var last, r, labels := Offset(b, nodes, i + 1) - 1, RelocFor(b, nodes, i), EmitAll(b, nodes).labels;
            && |NodeWords(b, nodes[i])| > 0 && last < |code| && Resolvable(b, r, labels) && r.target in labels
            && code[last] == PatchedWord(b, NodeWords(b, nodes[i])[|NodeWords(b, nodes[i])| - 1], r, labels)
  {
    hide EmitAll, NodeWords, Link, PatchedWord, RelocFor, Resolvable, Branching, Image, Offset;
    var k := RelocPresent(b, nodes, i);
    RelocInNode(b, nodes, i);
    PlaceholderAt(b, nodes, i);
    ImagePatched(b, nodes, code, k, Offset(b, nodes, i + 1) - 1);
  }

  lemma BranchHasLabel(b: Backend, nodes: seq<IrNode>, code: seq<bv32>, i: nat)
    requires Image(b, nodes, code) && i < |nodes| && Branching(nodes[i])
    ensures FindLabel(nodes, TargetOf(nodes[i])).Some?
  {
    ImageBranch(b, nodes, code, i);
    hide EmitAll, FindLabel, PatchedWord, NodeWords;
    LabelOffset(b, nodes, TargetOf(nodes[i]));
  }

  lemma ImageLength(b: Backend, nodes: seq<IrNode>, code: seq<bv32>)
    requires Image(b, nodes, code)
    ensures |code| == |EmitAll(b, nodes).words|
  {
    hide EmitAll, Link;
    var e := EmitAll(b, nodes);
    LinkSucceeds(b, e.words, e.labels, e.relocs);
  }

  /** Code so short that every branch reaches every label. */
  function ShortCode(b: Backend): nat { if b == AArch64 then 0x10_0000 else 0x1000 }

  /** Linking cannot fail when every target has a label and the code is short. */
  lemma ShortCodeLinks(b: Backend, nodes: seq<IrNode>)
    requires forall i :: 0 <= i < |nodes| && Branching(nodes[i]) ==> FindLabel(nodes, TargetOf(nodes[i])).Some?
    requires 4 * |EmitAll(b, nodes).words| < ShortCode(b)
    ensures var e := EmitAll(b, nodes); LinkReady(e.words, e.relocs) && Link(b, e.words, e.labels, e.relocs).Linked?
  {
    hide EmitAll, NodeWords, Link, RelocFor, FindLabel, Resolvable;
    var e := EmitAll(b, nodes);
    EmittedLinkReady(b, nodes);
    LinkSucceeds(b, e.words, e.labels, e.relocs);
    forall k: nat | k < |e.relocs|
      ensures Resolvable(b, e.relocs[k], e.labels)
    {
      var i := RelocSource(b, nodes, k);
      NearTarget(b, nodes, i);
    }
  }

  lemma NearTarget(b: Backend, nodes: seq<IrNode>, i: nat)
    requires i < |nodes| && Branching(nodes[i]) && FindLabel(nodes, TargetOf(nodes[i])).Some?
    requires 4 * |EmitAll(b, nodes).words| < ShortCode(b)
    ensures Resolvable(b, RelocFor(b, nodes, i), EmitAll(b, nodes).labels)
  {
    hide EmitAll, NodeWords, FindLabel, InReach, Offset;
    var p := FindLabel(nodes, TargetOf(nodes[i])).value;
    DisplacementToLabel(b, nodes, i, p);
    RelocInNode(b, nodes, i);
    OffsetMonotone(b, nodes, p, |nodes|);
    ShortIsInReach(b, nodes[i].IrBranch?, Displacement(RelocFor(b, nodes, i), EmitAll(b, nodes).labels));
  }

  lemma ShortIsInReach(b: Backend, isConditional: bool, displacement: int)
    requires displacement % 4 == 0 && 0 - ShortCode(b) <= displacement < ShortCode(b)
    ensures InReach(b, isConditional, displacement)
  {}

  /** A branching node is displaced from its label by the words between its last word and the
      label's node. */
  lemma DisplacementToLabel(b: Backend, nodes: seq<IrNode>, i: nat, p: nat)
    requires i < |nodes| && Branching(nodes[i]) && FindLabel(nodes, TargetOf(nodes[i])) == Some(p)
    ensures RelocFor(b, nodes, i).target in EmitAll(b, nodes).labels
    ensures Displacement(RelocFor(b, nodes, i), EmitAll(b, nodes).labels)
         == 4 * (Offset(b, nodes, p) - (Offset(b, nodes, i + 1) - 1))
  {
    hide EmitAll, NodeWords, FindLabel;
    LabelOffset(b, nodes, TargetOf(nodes[i]));
    RelocInNode(b, nodes, i);
    hide Offset;
  }

  lemma RelocKind(b: Backend, nodes: seq<IrNode>, i: nat)
    requires i < |nodes| && Branching(nodes[i])
    ensures RelocFor(b, nodes, i).isConditional == nodes[i].IrBranch? && Offset(b, nodes, i + 1) >= 1
  {
    LastWord(b, nodes, i);
  }

  lemma PatchIs(b: Backend, existing: bv32, r: Relocation, labels: map<nat, nat>, displacement: int)
    requires r.target in labels && Displacement(r, labels) == displacement
    ensures PatchedWord(b, existing, r, labels) == Patch(b, existing, r.isConditional, displacement)
    ensures Resolvable(b, r, labels) ==> InReach(b, r.isConditional, displacement)
  {
    hide Patch, InReach;
  }

  /** In linked code the last word of a branching node is its placeholder with the displacement from
      there to the label's node filled in, and that displacement is in reach. */
  lemma LinkedBranch(b: Backend, nodes: seq<IrNode>, code: seq<bv32>, i: nat, p: nat) returns (displacement: int)
    requires Image(b, nodes, code) && i < |nodes| && Branching(nodes[i])
    requires FindLabel(nodes, TargetOf(nodes[i])) == Some(p)
    ensures Offset(b, nodes, i + 1) >= 1
    ensures var last, words := Offset(b, nodes, i + 1) - 1, NodeWords(b, nodes[i]);
            && words != [] && last < |code| && InReach(b, nodes[i].IrBranch?, displacement)
            && code[last] == Patch(b, words[|words| - 1], nodes[i].IrBranch?, displacement)
            && displacement == 4 * (Offset(b, nodes, p) - last)
  {
    hide Offset, EmitAll, NodeWords, Patch, PatchedWord, InReach, Resolvable, Image, FindLabel, RelocFor,
         Branching, TargetOf;
    ImageBranch(b, nodes, code, i);
    DisplacementToLabel(b, nodes, i, p);
    RelocKind(b, nodes, i);
    displacement := 4 * (Offset(b, nodes, p) - (Offset(b, nodes, i + 1) - 1));
    PatchIs(b, NodeWords(b, nodes[i])[|NodeWords(b, nodes[i])| - 1], RelocFor(b, nodes, i), EmitAll(b, nodes).labels,
        displacement);
  }

  // ---------- branches in reach ----------

  /** The branch that node i becomes has a label to go to, and reaches it. */
  predicate BranchReaches(b: Backend, nodes: seq<IrNode>, i: nat)
    requires i < |nodes| && Branching(nodes[i])
  {
    match FindLabel(nodes, TargetOf(nodes[i]))
    case None => false
    case Some(p) => InReach(b, nodes[i].IrBranch?, 4 * (Offset(b, nodes, p) - (Offset(b, nodes, i + 1) - 1)))
  }

  /** Every branch among the first n nodes reaches its label. */
  predicate AllReach(b: Backend, nodes: seq<IrNode>, n: nat)
    requires n <= |nodes|
  {
    forall i :: 0 <= i < n && Branching(nodes[i]) ==> BranchReaches(b, nodes, i)
  }

  /** Node i branches to block bb, which is out of its reach, and is the first such node. */
  predicate FirstOutOfReach(b: Backend, nodes: seq<IrNode>, i: nat, bb: nat) {
    && i < |nodes| && Branching(nodes[i]) && TargetOf(nodes[i]) == bb && !BranchReaches(b, nodes, i)
    && AllReach(b, nodes, i)
  }

  lemma ReachIsResolvable(b: Backend, nodes: seq<IrNode>, i: nat)
    requires i < |nodes| && Branching(nodes[i])
    ensures Resolvable(b, RelocFor(b, nodes, i), EmitAll(b, nodes).labels) <==> BranchReaches(b, nodes, i)
    ensures RelocFor(b, nodes, i).target == TargetOf(nodes[i])
  {
    hide EmitAll, NodeWords, FindLabel, InReach, Offset;
    match FindLabel(nodes, TargetOf(nodes[i])) {
      case None => LabelOffset(b, nodes, TargetOf(nodes[i]));
      case Some(p) => DisplacementToLabel(b, nodes, i, p); RelocKind(b, nodes, i);
    }
  }

  /** Relocations stand in the order of their nodes. */
  lemma RelocOrder(b: Backend, nodes: seq<IrNode>, i: nat, j: nat, k: nat, l: nat)
    requires j < i < |nodes| && Branching(nodes[i]) && Branching(nodes[j])
    requires k < |EmitAll(b, nodes).relocs| && EmitAll(b, nodes).relocs[k] == RelocFor(b, nodes, i)
    requires l < |EmitAll(b, nodes).relocs| && EmitAll(b, nodes).relocs[l] == RelocFor(b, nodes, j)
    ensures l < k
  {
    hide EmitAll, RelocFor, Offset;
    RelocInNode(b, nodes, i);
    RelocInNode(b, nodes, j);
    OffsetMonotone(b, nodes, j + 1, i);
    if k < l {
      RelocsIncrease(b, nodes, k, l);
    }
  }

  /** Finalizing succeeds exactly when every branch reaches its label; otherwise it names the block
      that the first branch out of reach goes to. */
  lemma LinkOutcome(b: Backend, nodes: seq<IrNode>)
    ensures var e := EmitAll(b, nodes);
            && LinkReady(e.words, e.relocs)
            && match Link(b, e.words, e.labels, e.relocs)
               case Linked(_) => AllReach(b, nodes, |nodes|)
               case LinkError(error) => exists i :: FirstOutOfReach(b, nodes, i, error.bb)
  {
    hide EmitAll, Link, RelocFor, Resolvable, BranchReaches, Offset;
    var e := EmitAll(b, nodes);
    EmittedLinkReady(b, nodes);
    LinkSucceeds(b, e.words, e.labels, e.relocs);
    match Link(b, e.words, e.labels, e.relocs) {
      case Linked(_) => ResolvedReach(b, nodes, |nodes|, |e.relocs|);
      case LinkError(error) =>
        var k := LinkFails(b, e.words, e.labels, e.relocs);
        var i := RelocSource(b, nodes, k);
        ReachIsResolvable(b, nodes, i);
        ResolvedReach(b, nodes, i, k);
        assert FirstOutOfReach(b, nodes, i, error.bb);
    }
  }

  /** When the first k relocations are resolvable, so is every branch before node n: relocation k, if
      there is one, is node n's. */
  lemma ResolvedReach(b: Backend, nodes: seq<IrNode>, n: nat, k: nat)
    requires n <= |nodes| && k <= |EmitAll(b, nodes).relocs|
    requires AllResolvable(b, EmitAll(b, nodes).relocs[..k], EmitAll(b, nodes).labels)
    requires k == |EmitAll(b, nodes).relocs| ||
             (n < |nodes| && Branching(nodes[n]) && EmitAll(b, nodes).relocs[k] == RelocFor(b, nodes, n))
    ensures AllReach(b, nodes, n)
  {
    hide EmitAll, RelocFor, Resolvable, BranchReaches, Offset;
    forall j: nat | j < n && Branching(nodes[j])
      ensures BranchReaches(b, nodes, j)
    {
      var l := RelocPresent(b, nodes, j);
      if k < |EmitAll(b, nodes).relocs| {
        RelocOrder(b, nodes, n, j, k, l);
      }
      assert EmitAll(b, nodes).relocs[..k][l] == RelocFor(b, nodes, j);
      ReachIsResolvable(b, nodes, j);
    }
  }
}
