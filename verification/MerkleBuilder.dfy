/**
  The loops of api/merkle_tree.py over Python lists.

  `build_tree` keeps two names for one list: after the first round `current` is the level it has
  just stored, so the padding `append` of the next round also pads that stored level. Only level 0,
  of which `current` is a separate copy, and the root level stay as they were.
 */
module MerkleBuilder {
  import opened Common
  import opened MerkleTree

  /** A Python list: an object that `append` changes for everyone who holds it. */
  class PyList {
    var items: seq<Digest>

    constructor (items: seq<Digest>)
      ensures this.items == items
    {
      this.items := items;
    }

    method Append(x: Digest)
      modifies this
      ensures items == old(items) + [x]
    {
      items := items + [x];
    }
  }

  /** What build_tree leaves in the list it stored for level k of a tree of the given depth. */
  function StoredLevel(h: PairHash, leaves: seq<Digest>, k: nat): seq<Digest> {
    if k == 0 || |LevelAt(h, leaves, k)| == 1 then LevelAt(h, leaves, k) else PadOdd(LevelAt(h, leaves, k))
  }

  /** One round of the loop, as far as the level functions are concerned. */
  lemma LevelStep(h: PairHash, leaves: seq<Digest>, k: nat)
    requires |LevelAt(h, leaves, k)| > 1
    ensures var level := LevelAt(h, leaves, k);
            && LevelAt(h, leaves, k + 1) == Above(h, level)
            && 0 < |Above(h, level)| < |level|
            && Root(h, level) == Root(h, Above(h, level))
            && Depth(|level|) == 1 + Depth(|Above(h, level)|)
            && StoredLevel(h, leaves, k) == (if k == 0 then leaves else PadOdd(level))
            && PadOdd(StoredLevel(h, leaves, k)) == PadOdd(level)
  {
    hide Above, PadOdd, Root, Depth;
    PadTwice(LevelAt(h, leaves, k));
    LevelUp(h, LevelAt(h, leaves, k));
  }

  lemma PadTwice(level: seq<Digest>)
    ensures PadOdd(PadOdd(level)) == PadOdd(level)
  {
  }

  lemma LevelUp(h: PairHash, level: seq<Digest>)
    requires |level| > 1
    ensures 0 < |Above(h, level)| < |level|
    ensures Root(h, level) == Root(h, Above(h, level))
    ensures Depth(|level|) == 1 + Depth(|Above(h, level)|)
  {
    hide Above, PadOdd;
  }

  /** The inner loop of build_tree: hash the pairs of an even level into a new list. */
  method HashPairs(h: PairHash, current: PyList) returns (next: PyList)
    requires |current.items| % 2 == 0
    ensures fresh(next) && next.items == Above(h, current.items)
  {
    next := new PyList([]);
    var i := 0;
    while i < |current.items|
      invariant 0 <= i <= |current.items| && i % 2 == 0
      invariant fresh(next) && |next.items| == i / 2
      invariant forall k :: 0 <= k < i / 2 ==> next.items[k] == h(current.items[2 * k], current.items[2 * k + 1])
    {
      next.Append(h(current.items[i], current.items[i + 1]));
      i := i + 2;
    }
    assert PadOdd(current.items) == current.items;
  }

  ghost predicate AllDifferent(levels: seq<PyList>) {
    forall j, k :: 0 <= j < k < |levels| ==> levels[j] != levels[k]
  }

  /** The first n stored lists are as build_tree will leave them. */
  ghost predicate Stored(h: PairHash, leaves: seq<Digest>, levels: seq<PyList>, n: nat)
    reads levels
  {
    n <= |levels| && forall k :: 0 <= k < n ==> levels[k].items == StoredLevel(h, leaves, k)
  }

  /** `current` is the list stored last, except in the first round, where it is a copy of it. */
  ghost predicate Aliased(levels: seq<PyList>, current: PyList, leaves: seq<Digest>)
    reads levels
  {
    && 0 < |levels|
    && AllDifferent(levels)
    && (if |levels| == 1 then current != levels[0] && levels[0].items == leaves else current == levels[|levels| - 1])
  }

  /** "If odd, duplicate last": the append of build_tree and generate_proof. */
  method PadInPlace(current: PyList)
    modifies current
    ensures current.items == PadOdd(old(current.items))
  {
    if |current.items| % 2 == 1 {
      current.Append(current.items[|current.items| - 1]);
    }
  }

  lemma AboveOfPadded(h: PairHash, level: seq<Digest>)
    ensures |PadOdd(level)| % 2 == 0 && Above(h, PadOdd(level)) == Above(h, level)
  {
  }

  /** The invariant of the loop in build_tree. */
  ghost predicate Building(h: PairHash, leaves: seq<Digest>, levels: seq<PyList>, current: PyList)
    requires leaves != []
    reads levels, current
  {
    && Aliased(levels, current, leaves)
    && Stored(h, leaves, levels, |levels| - 1)
    && current.items == LevelAt(h, leaves, |levels| - 1) && current.items != []
    && Root(h, current.items) == Root(h, leaves)
    && |levels| - 1 + Depth(|current.items|) == Depth(|leaves|)
  }

  /** When the loop ends every stored list is as announced, and the last one holds the root. */
  lemma BuildingDone(h: PairHash, leaves: seq<Digest>, levels: seq<PyList>, current: PyList)
    requires leaves != [] && |levels| > 1 && Building(h, leaves, levels, current) && |current.items| == 1
    ensures Stored(h, leaves, levels, |levels|)
    ensures current.items[0] == Root(h, leaves) && |levels| == Depth(|leaves|) + 1
  {
    hide LevelAt, Above, PadOdd;
  }

  /** The body of the loop in build_tree. */
  method BuildRound(h: PairHash, ghost leaves: seq<Digest>, levels: seq<PyList>, current: PyList)
    returns (next: PyList)
    requires leaves != [] && Building(h, leaves, levels, current) && |current.items| > 1
    modifies current
    ensures fresh(next) && Building(h, leaves, levels + [next], next)
    ensures |next.items| < |old(current.items)|
  {
    hide LevelAt, Above, PadOdd, Root, Depth, StoredLevel;
    LevelStep(h, leaves, |levels| - 1);
    ghost var level := current.items;
    PadInPlace(current);
    assert Stored(h, leaves, levels, |levels|);
    AboveOfPadded(h, level);
    next := HashPairs(h, current);
  }

  /** build_tree; None stands for the ValueError on an empty list. */
  method BuildTree(h: PairHash, leafHashes: PyList) returns (result: Option<(Digest, seq<PyList>)>)
    ensures result.None? <==> leafHashes.items == []
    ensures result.Some? ==> result.value.0 == Root(h, leafHashes.items)
    ensures result.Some? ==> |result.value.1| == Depth(|leafHashes.items|) + 1
    ensures result.Some? ==> Stored(h, leafHashes.items, result.value.1, |result.value.1|)
    ensures |leafHashes.items| == 1 ==> result.value.1 == [leafHashes]
    ensures |leafHashes.items| > 1 ==> fresh(result.value.1)
  {
    ghost var leaves := leafHashes.items;
    if leafHashes.items == [] {
      return None;
    }
    if |leafHashes.items| == 1 {
      return Some((leafHashes.items[0], [leafHashes]));
    }
    var bottom := new PyList(leafHashes.items);
    var levels := [bottom];
    var current := new PyList(leafHashes.items);
    assert Building(h, leaves, levels, current);
    hide Building, Stored, Root, Depth;
    while |current.items| > 1
      invariant fresh(current) && fresh(levels)
      invariant Building(h, leaves, levels, current)
      invariant |levels| == 1 ==> current.items == leaves
      decreases |current.items|
    {
      var next := BuildRound(h, leaves, levels, current);
      levels := levels + [next];
      current := next;
    }
    BuildingDone(h, leaves, levels, current);
    return Some((current.items[0], levels));
  }

  /** compute_root; None stands for the ValueError on an empty list. */
  method ComputeRoot(h: PairHash, leafHashes: PyList) returns (root: Option<Digest>)
    ensures root == if leafHashes.items == [] then None else Some(Root(h, leafHashes.items))
  {
    var built := BuildTree(h, leafHashes);
    match built
    case None => root := None;
    case Some((r, _)) => root := Some(r);
  }

  lemma DepthOfOne(n: nat)
    requires n > 0
    ensures Depth(n) == 0 <==> n == 1
  {
  }

  /** Path so far plus what remains is the whole proof: the invariant of the loop in generate_proof. */
  ghost predicate Proving(h: PairHash, leaves: seq<Digest>, leafIndex: nat, k: nat, idx: nat, path: seq<Step>)
    requires leafIndex < |leaves|
  {
    && idx < |LevelAt(h, leaves, k)|
    && k + Depth(|LevelAt(h, leaves, k)|) == Depth(|leaves|)
    && path + ProofOf(h, LevelAt(h, leaves, k), idx) == ProofOf(h, leaves, leafIndex)
  }

  lemma ProofUnfolds(h: PairHash, level: seq<Digest>, i: nat, path: seq<Step>)
    requires i < |level| && |level| > 1
    ensures path + ProofOf(h, level, i) == (path + [SiblingStep(level, i)]) + ProofOf(h, Above(h, level), i / 2)
  {
    hide Above, SiblingStep;
    assert ProofOf(h, level, i) == [SiblingStep(level, i)] + ProofOf(h, Above(h, level), i / 2);
  }

  lemma SiblingOfStored(level: seq<Digest>, stored: seq<Digest>, i: nat)
    requires i < |level| && (stored == level || stored == PadOdd(level))
    ensures i < |stored| && SiblingStep(stored, i) == SiblingStep(level, i)
  {
    PadTwice(level);
  }

  lemma ProofComplete(h: PairHash, leaves: seq<Digest>, leafIndex: nat, idx: nat, path: seq<Step>)
    requires leafIndex < |leaves| && Proving(h, leaves, leafIndex, Depth(|leaves|), idx, path)
    ensures path == ProofOf(h, leaves, leafIndex)
  {
    var level := LevelAt(h, leaves, Depth(|leaves|));
    hide LevelAt;
    assert ProofOf(h, level, idx) == [];
    assert path + [] == path;
  }

  lemma ProofRound(h: PairHash, leaves: seq<Digest>, leafIndex: nat, k: nat, idx: nat, path: seq<Step>)
    requires leafIndex < |leaves| && Proving(h, leaves, leafIndex, k, idx, path) && k < Depth(|leaves|)
    ensures var stored := StoredLevel(h, leaves, k);
            idx < |stored| && Proving(h, leaves, leafIndex, k + 1, idx / 2, path + [SiblingStep(stored, idx)])
  {
    var level := LevelAt(h, leaves, k);
    hide LevelAt, Above, PadOdd, Root, Depth, ProofOf, SiblingStep;
    DepthOfOne(|level|);
    LevelStep(h, leaves, k);
    ProofUnfolds(h, level, idx, path);
    SiblingOfStored(level, StoredLevel(h, leaves, k), idx);
  }

  /** The proof entry for node idx of a stored level: the level is padded on a copy. */
  method ProofEntry(level: PyList, idx: nat) returns (step: Step)
    requires idx < |level.items|
    ensures step == SiblingStep(level.items, idx)
  {
    var padded := new PyList(level.items);
    PadInPlace(padded);
    if idx % 2 == 0 {
      step := Step(padded.items[idx + 1], "right");
    } else {
      step := Step(padded.items[idx - 1], "left");
    }
  }

  /** The loop of generate_proof over all stored levels but the root. */
  method ProofFromLevels(h: PairHash, ghost leaves: seq<Digest>, levels: seq<PyList>, leafIndex: nat)
    returns (path: seq<Step>)
    requires leafIndex < |leaves| && |levels| == Depth(|leaves|) + 1 && Stored(h, leaves, levels, |levels|)
    ensures path == ProofOf(h, leaves, leafIndex)
  {
    var idx: nat := leafIndex;
    path := [];
    assert Proving(h, leaves, leafIndex, 0, idx, path) by {
      assert [] + ProofOf(h, leaves, idx) == ProofOf(h, leaves, leafIndex);
    }
    hide Proving, StoredLevel, SiblingStep, ProofOf, Depth;
    for k := 0 to |levels| - 1
      invariant Stored(h, leaves, levels, |levels|)
      invariant Proving(h, leaves, leafIndex, k, idx, path)
    {
      ProofRound(h, leaves, leafIndex, k, idx, path);
      var step := ProofEntry(levels[k], idx);
      path := path + [step];
      idx := idx / 2;
    }
    ProofComplete(h, leaves, leafIndex, idx, path);
  }

  /** generate_proof; None stands for the IndexError. */
  method GenerateProof(h: PairHash, leafHashes: PyList, leafIndex: int) returns (proof: Option<seq<Step>>)
    ensures proof == if 0 <= leafIndex < |leafHashes.items| then Some(ProofOf(h, leafHashes.items, leafIndex)) else None
  {
    hide Depth, ProofOf, Stored, StoredLevel;
    if leafIndex < 0 || leafIndex >= |leafHashes.items| {
      return None;
    }
    var built := BuildTree(h, leafHashes);
    var path := ProofFromLevels(h, leafHashes.items, built.value.1, leafIndex);
    return Some(path);
  }

  /** verify_proof */
  method VerifyProof(h: PairHash, leafHash: Digest, proofPath: seq<Step>, expectedRoot: Digest) returns (ok: bool)
    ensures ok <==> Fold(h, leafHash, proofPath) == expectedRoot
  {
    var current := leafHash;
    for k := 0 to |proofPath|
      invariant Fold(h, current, proofPath[k..]) == Fold(h, leafHash, proofPath)
    {
      var step := proofPath[k];
      if step.position == "left" {
        current := h(step.hash, current);
      } else {
        current := h(current, step.hash);
      }
      assert proofPath[k..][1..] == proofPath[k + 1..];
    }
    assert proofPath[|proofPath|..] == [];
    return current == expectedRoot;
  }

  /** The three operations together: whatever is generated verifies against the computed root. */
  method ProveAndVerify(h: PairHash, leafHashes: PyList, leafIndex: nat) returns (ok: bool)
    requires leafIndex < |leafHashes.items|
    ensures ok
  {
    var proof := GenerateProof(h, leafHashes, leafIndex);
    var root := ComputeRoot(h, leafHashes);
    ok := VerifyProof(h, leafHashes.items[leafIndex], proof.value, root.value);
    ProofReproducesRoot(h, leafHashes.items, leafIndex);
  }
}
