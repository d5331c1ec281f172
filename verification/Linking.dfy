/** Finalizing, for either backend: every pending branch is patched once, no other word changes,
    the order of relocations does not matter, and finalizing again changes nothing. */
module Linking {
  import opened Casts
  import opened Emitting
  import A64Words
  import RvWords
  import opened RvEncode

  lemma A64FieldsTwice(w: bv32, field: bv32)
    ensures var p := (w & 0xFF00001F) | ((field & 0x7FFFF) << 5);
            (p & 0xFF00001F) | ((field & 0x7FFFF) << 5) == p
  {}

  lemma A64PatchTwice(w: bv32, isConditional: bool, d: int)
    ensures A64Words.A64Patch(A64Words.A64Patch(w, isConditional, d), isConditional, d)
         == A64Words.A64Patch(w, isConditional, d)
  {
    A64FieldsTwice(w, AsU32(TruncDiv(d, 4)));
    hide AsU32, TruncDiv;
  }

  lemma BranchFieldsTwice(w: bv32, imm: bv32)
    ensures var p := BImmBits(imm) | (w & 0x01FFF07F);
            BImmBits(imm) | (p & 0x01FFF07F) == p
  {}

  lemma JumpFieldsTwice(w: bv32, imm: bv32)
    ensures var p := JImmBits(imm) | 0x6F | (w & 0xF80);
            JImmBits(imm) | 0x6F | (p & 0xF80) == p
  {}

  lemma RvPatchTwice(w: bv32, isConditional: bool, d: int)
    ensures RvWords.RvPatch(RvWords.RvPatch(w, isConditional, d), isConditional, d)
         == RvWords.RvPatch(w, isConditional, d)
  {
    if isConditional {
      BranchFieldsTwice(w, AsU32(d) & 0x1FFE);
    } else {
      JumpFieldsTwice(w, AsU32(d));
    }
    hide AsU32, BImmBits, JImmBits;
  }

  /** Patching a patched word changes nothing. */
  lemma PatchTwice(b: Backend, w: bv32, r: Relocation, labels: map<nat, nat>)
    requires r.target in labels
    ensures PatchedWord(b, PatchedWord(b, w, r, labels), r, labels) == PatchedWord(b, w, r, labels)
  {
    hide A64Words.A64Patch, RvWords.RvPatch;
    A64PatchTwice(w, r.isConditional, Displacement(r, labels));
    RvPatchTwice(w, r.isConditional, Displacement(r, labels));
  }

  // ---------- linking ----------

  predicate Separate(relocs: seq<Relocation>) {
    forall i, j :: 0 <= i < j < |relocs| ==> relocs[i].offset != relocs[j].offset
  }

  predicate AllResolvable(b: Backend, relocs: seq<Relocation>, labels: map<nat, nat>) {
    forall i :: 0 <= i < |relocs| ==> Resolvable(b, relocs[i], labels)
  }

  lemma HasLabel(b: Backend, r: Relocation, labels: map<nat, nat>)
    requires Resolvable(b, r, labels)
    ensures r.target in labels
  {}

  /** Linking succeeds exactly when every relocation is resolvable, and keeps the length. */
  lemma {:induction false} LinkSucceeds(b: Backend, words: seq<bv32>, labels: map<nat, nat>, relocs: seq<Relocation>)
    requires LinkReady(words, relocs)
    ensures Link(b, words, labels, relocs).Linked? <==> AllResolvable(b, relocs, labels)
    ensures Link(b, words, labels, relocs).Linked? ==> |Link(b, words, labels, relocs).words| == |words|
    decreases |relocs|
  {
    hide Resolvable, PatchedWord;
    if relocs != [] && Resolvable(b, relocs[0], labels) {
      HasLabel(b, relocs[0], labels);
      var at := relocs[0].offset / 4;
      LinkSucceeds(b, words[at := PatchedWord(b, words[at], relocs[0], labels)], labels, relocs[1..]);
      assert AllResolvable(b, relocs, labels) <==> AllResolvable(b, relocs[1..], labels) by {
        assert forall i :: 0 < i < |relocs| ==> relocs[i] == relocs[1..][i - 1];
      }
    }
  }

  /** A failed link names the target of its first relocation that cannot be resolved. */
  lemma {:induction false} LinkFails(b: Backend, words: seq<bv32>, labels: map<nat, nat>, relocs: seq<Relocation>)
    returns (k: nat)
    requires LinkReady(words, relocs) && Link(b, words, labels, relocs).LinkError?
    ensures k < |relocs| && !Resolvable(b, relocs[k], labels) && AllResolvable(b, relocs[..k], labels)
    ensures Link(b, words, labels, relocs).error == RelocationOutOfRange(relocs[k].target)
    decreases |relocs|
  {
    hide Resolvable, PatchedWord;
    if !Resolvable(b, relocs[0], labels) {
      k := 0;
    } else {
      HasLabel(b, relocs[0], labels);
      var at := relocs[0].offset / 4;
      var j := LinkFails(b, words[at := PatchedWord(b, words[at], relocs[0], labels)], labels, relocs[1..]);
      k := j + 1;
      forall i | 0 <= i < k
        ensures Resolvable(b, relocs[i], labels)
      {
        assert i > 0 ==> relocs[i] == relocs[1..][..j][i - 1];
      }
    }
  }

  /** The word at i after linking. */
  function LinkedWord(b: Backend, words: seq<bv32>, labels: map<nat, nat>, relocs: seq<Relocation>, i: nat): bv32
    requires LinkReady(words, relocs) && Link(b, words, labels, relocs).Linked? && i < |words|
  {
    LinkSucceeds(b, words, labels, relocs);
    Link(b, words, labels, relocs).words[i]
  }

  predicate Untouched(relocs: seq<Relocation>, i: nat) {
    forall k :: 0 <= k < |relocs| ==> relocs[k].offset / 4 != i
  }

  /** Words without a relocation stay as they were. */
  lemma {:induction false} LinkKeeps(b: Backend, words: seq<bv32>, labels: map<nat, nat>, relocs: seq<Relocation>,
          i: nat)
    requires LinkReady(words, relocs) && Link(b, words, labels, relocs).Linked? && i < |words| && Untouched(relocs, i)
    ensures LinkedWord(b, words, labels, relocs, i) == words[i]
    decreases |relocs|
  {
    hide Resolvable, PatchedWord;
    if relocs != [] {
      HasLabel(b, relocs[0], labels);
      var at := relocs[0].offset / 4;
      LinkKeeps(b, words[at := PatchedWord(b, words[at], relocs[0], labels)], labels, relocs[1..], i);
    }
  }

  /** A relocated word is patched once, from the word that was there. */
  lemma {:induction false} LinkPatches(b: Backend, words: seq<bv32>, labels: map<nat, nat>, relocs: seq<Relocation>,
          k: nat)
    requires LinkReady(words, relocs) && Link(b, words, labels, relocs).Linked? && k < |relocs| && Separate(relocs)
    ensures AllResolvable(b, relocs, labels) && InBounds(relocs[k], |words|)
    ensures LinkedWord(b, words, labels, relocs, relocs[k].offset / 4)
         == PatchedWord(b, words[relocs[k].offset / 4], relocs[k], labels)
    decreases |relocs|
  {
    LinkSucceeds(b, words, labels, relocs);
    hide Resolvable, PatchedWord;
    HasLabel(b, relocs[0], labels);
    var at := relocs[0].offset / 4;
    var after := words[at := PatchedWord(b, words[at], relocs[0], labels)];
    if k == 0 {
      assert Untouched(relocs[1..], at) by {
        forall j | 0 <= j < |relocs| - 1
          ensures relocs[1..][j].offset / 4 != at
        {
          assert InBounds(relocs[j + 1], |words|) && InBounds(relocs[0], |words|);
        }
      }
      LinkKeeps(b, after, labels, relocs[1..], at);
    } else {
      LinkPatches(b, after, labels, relocs[1..], k - 1);
      assert InBounds(relocs[k], |words|) && InBounds(relocs[0], |words|);
    }
  }

  /** Two lists of the same relocations. */
  ghost predicate SameRelocs(a: seq<Relocation>, b: seq<Relocation>) {
    forall r :: r in a <==> r in b
  }

  lemma SameWord(b: Backend, words: seq<bv32>, labels: map<nat, nat>, xs: seq<Relocation>, ys: seq<Relocation>, i: nat)
    requires LinkReady(words, xs) && LinkReady(words, ys) && Separate(xs) && Separate(ys) && SameRelocs(xs, ys)
    requires Link(b, words, labels, xs).Linked? && Link(b, words, labels, ys).Linked? && i < |words|
    ensures LinkedWord(b, words, labels, xs, i) == LinkedWord(b, words, labels, ys, i)
  {
    hide Link, LinkedWord, PatchedWord;
    if k :| 0 <= k < |xs| && xs[k].offset / 4 == i {
      LinkPatches(b, words, labels, xs, k);
      assert xs[k] in xs;
      var l :| 0 <= l < |ys| && ys[l] == xs[k];
      LinkPatches(b, words, labels, ys, l);
    } else {
      assert Untouched(ys, i) by {
        forall l | 0 <= l < |ys|
          ensures ys[l].offset / 4 != i
        {
          assert ys[l] in ys;
        }
      }
      LinkKeeps(b, words, labels, xs, i);
      LinkKeeps(b, words, labels, ys, i);
    }
  }

  /** The order of relocations does not matter. */
  lemma OrderIrrelevant(b: Backend, words: seq<bv32>, labels: map<nat, nat>, xs: seq<Relocation>, ys: seq<Relocation>)
    requires LinkReady(words, xs) && LinkReady(words, ys) && Separate(xs) && Separate(ys) && SameRelocs(xs, ys)
    ensures Link(b, words, labels, xs).Linked? == Link(b, words, labels, ys).Linked?
    ensures Link(b, words, labels, xs).Linked? ==> Link(b, words, labels, xs) == Link(b, words, labels, ys)
  {
    LinkSucceeds(b, words, labels, xs);
    LinkSucceeds(b, words, labels, ys);
    hide Link, Resolvable;
    assert forall k :: 0 <= k < |xs| ==> xs[k] in xs && xs[k] in ys;
    assert forall k :: 0 <= k < |ys| ==> ys[k] in ys && ys[k] in xs;
    assert AllResolvable(b, xs, labels) == AllResolvable(b, ys, labels);
    if Link(b, words, labels, xs).Linked? {
      forall i: nat | i < |words|
        ensures Link(b, words, labels, xs).words[i] == Link(b, words, labels, ys).words[i]
      {
        SameWord(b, words, labels, xs, ys, i);
      }
    }
  }

  lemma WordTwice(b: Backend, words: seq<bv32>, labels: map<nat, nat>, relocs: seq<Relocation>, i: nat,
          again: seq<bv32>)
    requires LinkReady(words, relocs) && Separate(relocs) && Link(b, words, labels, relocs) == Linked(again)
    requires LinkReady(again, relocs) && Link(b, again, labels, relocs).Linked? && i < |words| == |again|
    ensures LinkedWord(b, again, labels, relocs, i) == again[i]
  {
    hide Link, PatchedWord, Resolvable;
    if k :| 0 <= k < |relocs| && relocs[k].offset / 4 == i {
      LinkPatches(b, words, labels, relocs, k);
      LinkPatches(b, again, labels, relocs, k);
      HasLabel(b, relocs[k], labels);
      PatchTwice(b, words[i], relocs[k], labels);
    } else {
      LinkKeeps(b, again, labels, relocs, i);
    }
  }

  /** Finalizing again changes nothing. */
  lemma LinkIdempotent(b: Backend, words: seq<bv32>, labels: map<nat, nat>, relocs: seq<Relocation>)
    requires LinkReady(words, relocs) && Separate(relocs) && Link(b, words, labels, relocs).Linked?
    ensures |Link(b, words, labels, relocs).words| == |words|
    ensures Link(b, Link(b, words, labels, relocs).words, labels, relocs) == Link(b, words, labels, relocs)
  {
    LinkSucceeds(b, words, labels, relocs);
    var again := Link(b, words, labels, relocs).words;
    LinkSucceeds(b, again, labels, relocs);
    hide Link, Resolvable;
    forall i: nat | i < |words|
      ensures Link(b, again, labels, relocs).words[i] == again[i]
    {
      WordTwice(b, words, labels, relocs, i, again);
    }
    assert Link(b, again, labels, relocs).words == again;
  }
}
