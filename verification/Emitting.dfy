/** What both code emitters record — words, labels and pending branches — and how finalizing
    resolves the pending branches. */
module Emitting {
  import opened Ir
  import A64Words
  import RvWords

  datatype Backend = AArch64 | RiscV64

  /** Worst-case words per node, for the dry run. */
  function MaxExpansion(b: Backend): nat { if b == AArch64 then 8 else 10 }

  function NodeWords(b: Backend, node: IrNode): seq<bv32> {
    match b
    case AArch64 => A64Words.A64NodeWords(node)
    case RiscV64 => RvWords.RvNodeWords(node)
  }

  lemma Twice(start: seq<bv32>, a: bv32, b: bv32)
    ensures start + [a] + [b] == start + [a, b] && start + [a] + [b] == start + ([a] + [b])
  {}

  lemma Five(start: seq<bv32>, a: bv32, b: bv32, c: bv32, d: bv32, e: bv32)
    ensures start + [a] + [b] + [c] + [d] + [e] == start + [a, b, c, d, e]
  {}

  lemma Joined(start: seq<bv32>, a: seq<bv32>, b: seq<bv32>)
    ensures start + a + b == start + (a + b)
  {}

  // ---------- what has been emitted so far ----------

  /** A branch whose offset is pending: where it is, in bytes, and where it goes. */
  datatype Relocation = Relocation(offset: nat, target: nat, isConditional: bool)

  datatype Emission = Emission(words: seq<bv32>, labels: map<nat, nat>, relocs: seq<Relocation>)

  const EMPTY := Emission([], map[], [])

  predicate AccessesMemory(n: IrNode) {
    n.IrLoad? || n.IrStore? || n.IrStoreImm? || n.IrSpill? || n.IrFill? || n.IrAtomic?
  }

  predicate Branching(n: IrNode) { n.IrBranch? || n.IrJump? }

  function TargetOf(n: IrNode): nat
    requires Branching(n)
  {
    n.target
  }

  lemma NodeBranches(n: IrNode)
    requires n.IrBranch? || n.IrJump?
    ensures Branching(n) && TargetOf(n) == n.target
  {}

  lemma BranchingWords(b: Backend, n: IrNode)
    requires Branching(n)
    ensures |NodeWords(b, n)| >= 1
  {}

  /** A branching node leaves its last word pending; a label records the current offset. */
  function EmitOne(b: Backend, e: Emission, node: IrNode): Emission {
    var words := e.words + NodeWords(b, node);
    if Branching(node) then
      BranchingWords(b, node);
      Emission(words, e.labels, e.relocs + [Relocation(4 * (|words| - 1), TargetOf(node), node.IrBranch?)])
    else if node.IrLabel? then e.(words := words, labels := e.labels[node.bb := 4 * |e.words|])
    else e.(words := words)
  }

  lemma EmitOnePlain(b: Backend, e: Emission, node: IrNode)
    requires !Branching(node) && !node.IrLabel?
    ensures EmitOne(b, e, node) == e.(words := e.words + NodeWords(b, node))
  {}

  function EmitAll(b: Backend, nodes: seq<IrNode>): Emission {
    if nodes == [] then EMPTY else EmitOne(b, EmitAll(b, nodes[..|nodes| - 1]), nodes[|nodes| - 1])
  }

  lemma EmitAllSnoc(b: Backend, nodes: seq<IrNode>, node: IrNode)
    ensures EmitAll(b, nodes + [node]) == EmitOne(b, EmitAll(b, nodes), node)
  {
    assert (nodes + [node])[..|nodes|] == nodes;
  }

  lemma FlattenSnoc(blocks: seq<IrBasicBlock>, k: nat)
    requires k < |blocks|
    ensures Flatten(blocks[..k + 1]) == Flatten(blocks[..k]) + ([IrLabel(blocks[k].id)] + blocks[k].nodes)
  {
    assert blocks[..k + 1][..k] == blocks[..k];
  }

  // ---------- resolving relocations ----------

  datatype EmitError = RelocationOutOfRange(bb: nat)

  datatype LinkResult = Linked(words: seq<bv32>) | LinkError(error: EmitError)

  /** The displacement, in bytes, that a relocation needs. */
  function Displacement(r: Relocation, labels: map<nat, nat>): int
    requires r.target in labels
  {
    labels[r.target] - r.offset
  }

  predicate InReach(b: Backend, isConditional: bool, displacement: int) {
    if b == AArch64 then A64Words.A64InReach(isConditional, displacement)
       else RvWords.RvInReach(isConditional, displacement)
  }

  predicate Resolvable(b: Backend, r: Relocation, labels: map<nat, nat>) {
    r.target in labels && InReach(b, r.isConditional, Displacement(r, labels))
  }

  /** A pending branch with its displacement filled in. */
  function Patch(b: Backend, existing: bv32, isConditional: bool, displacement: int): bv32 {
    if b == AArch64 then A64Words.A64Patch(existing, isConditional, displacement)
    else RvWords.RvPatch(existing, isConditional, displacement)
  }

  function PatchedWord(b: Backend, existing: bv32, r: Relocation, labels: map<nat, nat>): bv32
    requires r.target in labels
  {
    Patch(b, existing, r.isConditional, Displacement(r, labels))
  }

  predicate InBounds(r: Relocation, size: nat) {
    r.offset % 4 == 0 && r.offset / 4 < size
  }

  ghost predicate LinkReady(words: seq<bv32>, relocs: seq<Relocation>) {
    forall i :: 0 <= i < |relocs| ==> InBounds(relocs[i], |words|)
  }

  /** The words after resolving relocations in order, up to the first that cannot be resolved. */
  function Link(b: Backend, words: seq<bv32>, labels: map<nat, nat>, relocs: seq<Relocation>): LinkResult
    requires LinkReady(words, relocs)
    decreases |relocs|
  {
    if relocs == [] then Linked(words)
    else if !Resolvable(b, relocs[0], labels) then LinkError(RelocationOutOfRange(relocs[0].target))
    else
      assert InBounds(relocs[0], |words|);
      var at := relocs[0].offset / 4;
      Link(b, words[at := PatchedWord(b, words[at], relocs[0], labels)], labels, relocs[1..])
  }

  // ---------- dry run ----------

  /** The size estimate, in words, for the first k blocks: one for each label and the worst case
      for each node. */
  function EstimatedWords(b: Backend, blocks: seq<IrBasicBlock>, k: nat): nat
    requires k <= |blocks|
  {
    if k == 0 then 0 else EstimatedWords(b, blocks, k - 1) + 1 + |blocks[k - 1].nodes| * MaxExpansion(b)
  }
}
