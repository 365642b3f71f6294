/**
  The Merkle tree of api/merkle_tree.py as a function of its leaves, and what its proofs prove.

  Nodes are hex digests. The pair hash is any function; where binding depends on collisions, the
  alternative names the two pairs that collide. MerkleHash says what that means for the hash of the
  code.
 */
module MerkleTree {
  import opened Common
  import opened NumberTheory

  type Digest = string
  type PairHash = (Digest, Digest) -> Digest

  /** One entry of a proof path. */
  datatype Step = Step(hash: Digest, position: string)

  // ----- Levels

  /** A level as it is hashed: a level of odd length has its last node repeated. */
  function PadOdd(level: seq<Digest>): (padded: seq<Digest>)
    ensures |padded| % 2 == 0 && |padded| / 2 == (|level| + 1) / 2 && level <= padded
    ensures |level| % 2 == 1 ==> padded[|level|] == level[|level| - 1]
  {
    if |level| % 2 == 1 then level + [level[|level| - 1]] else level
  }

  /** The level above. */
  function Above(h: PairHash, level: seq<Digest>): (up: seq<Digest>)
    ensures |up| == (|level| + 1) / 2
  {
    var padded := PadOdd(level);
    seq(|padded| / 2, i requires 0 <= i < |padded| / 2 => h(padded[2 * i], padded[2 * i + 1]))
  }

  function Root(h: PairHash, level: seq<Digest>): Digest
    requires level != []
    decreases |level|
  {
    if |level| == 1 then level[0] else Root(h, Above(h, level))
  }

  function LevelAt(h: PairHash, leaves: seq<Digest>, k: nat): (level: seq<Digest>)
    ensures leaves != [] ==> level != []
  {
    if k == 0 then leaves else Above(h, LevelAt(h, leaves, k - 1))
  }

  /** The number of levels above n leaves. */
  function Depth(n: nat): nat
    requires n > 0
  {
    if n == 1 then 0 else 1 + Depth((n + 1) / 2)
  }

  /** Depth is the ceiling of the binary logarithm. */
  lemma {:induction false} DepthIsCeilLog2(n: nat)
    requires n > 0
    ensures n <= Pow(2, Depth(n))
    ensures Depth(n) > 0 ==> Pow(2, Depth(n) - 1) < n
  {
    if n > 1 {
      DepthIsCeilLog2((n + 1) / 2);
    }
  }

  // ----- Proofs

  function Combine(h: PairHash, current: Digest, step: Step): Digest {
    if step.position == "left" then h(step.hash, current) else h(current, step.hash)
  }

  /** The root that a proof path computes for a leaf. */
  function Fold(h: PairHash, leaf: Digest, path: seq<Step>): Digest
    decreases path
  {
    if path == [] then leaf else Fold(h, Combine(h, leaf, path[0]), path[1..])
  }

  function SiblingStep(level: seq<Digest>, i: nat): Step
    requires i < |level|
  {
    var padded := PadOdd(level);
    if i % 2 == 0 then Step(padded[i + 1], "right") else Step(padded[i - 1], "left")
  }

  function ProofOf(h: PairHash, level: seq<Digest>, i: nat): (path: seq<Step>)
    requires i < |level|
    ensures |path| == Depth(|level|)
    decreases |level|
  {
    if |level| == 1 then [] else [SiblingStep(level, i)] + ProofOf(h, Above(h, level), i / 2)
  }

  lemma SiblingCombines(h: PairHash, level: seq<Digest>, i: nat)
    requires i < |level|
    ensures Combine(h, level[i], SiblingStep(level, i)) == Above(h, level)[i / 2]
  {
    var m := i / 2;
    assert Above(h, level)[m] == h(PadOdd(level)[2 * m], PadOdd(level)[2 * m + 1]);
    assert i == 2 * m || i == 2 * m + 1;
  }

  /** Completeness: every generated proof reproduces the root and is as long as the tree is deep. */
  lemma {:induction false} ProofReproducesRoot(h: PairHash, level: seq<Digest>, i: nat)
    requires i < |level|
    ensures Fold(h, level[i], ProofOf(h, level, i)) == Root(h, level)
    ensures |ProofOf(h, level, i)| == Depth(|level|)
    decreases |level|
  {
    if |level| > 1 {
      ProofReproducesRoot(h, Above(h, level), i / 2);
      SiblingCombines(h, level, i);
      hide Above, Combine, SiblingStep;
      var rest := ProofOf(h, Above(h, level), i / 2);
      assert ProofOf(h, level, i) == [SiblingStep(level, i)] + rest;
      assert ([SiblingStep(level, i)] + rest)[1..] == rest;
    }
  }

  lemma AboveThree(h: PairHash, a: Digest, b: Digest, c: Digest)
    ensures Above(h, [a, b]) == [h(a, b)]
    ensures Above(h, [a, b, c]) == [h(a, b), h(c, c)]
  {
    assert PadOdd([a, b, c]) == [a, b, c, c];
  }

  /** The order of hashing on the smallest trees: left before right, an odd last node with itself. */
  lemma HashingOrder(h: PairHash, a: Digest, b: Digest, c: Digest)
    ensures Root(h, [a]) == a
    ensures Root(h, [a, b]) == h(a, b)
    ensures Root(h, [a, b, c]) == h(h(a, b), h(c, c))
  {
    AboveThree(h, a, b, c);
    AboveThree(h, h(a, b), h(c, c), a);
    hide Above;
    assert Root(h, [h(a, b), h(c, c)]) == h(h(a, b), h(c, c)) by {
      assert Root(h, [h(h(a, b), h(c, c))]) == h(h(a, b), h(c, c));
    }
  }

  /** A step of a path: its sibling stands on the left for the position "left" and on the right for any other. */
  lemma FoldingOrder(h: PairHash, a: Digest, step: Step, path: seq<Step>)
    ensures Fold(h, a, []) == a
    ensures Fold(h, a, [step] + path)
         == Fold(h, if step.position == "left" then h(step.hash, a) else h(a, step.hash), path)
  {
    assert ([step] + path)[1..] == path;
  }

  // ----- Which leaf a path leads to

  /** The left/right choices of a path as a number: bit k is set when the node is a right child at level k. */
  function Bits(path: seq<Step>): nat {
    if path == [] then 0 else (if path[0].position == "left" then 1 else 0) + 2 * Bits(path[1..])
  }

  /** The leaf that stands at position j of the bottom level once every level is padded. */
  function LeafAt(n: nat, j: nat): (i: nat)
    requires n > 0
    ensures i < n
    decreases n
  {
    if n == 1 then 0
    else
      var child := 2 * LeafAt((n + 1) / 2, j / 2) + j % 2;
      if child < n then child else n - 1
  }

  /** Positions below n are the leaves themselves. */
  lemma {:induction false} LeafAtOwnIndex(n: nat, j: nat)
    requires j < n
    ensures LeafAt(n, j) == j
    decreases n
  {
    if n > 1 {
      LeafAtOwnIndex((n + 1) / 2, j / 2);
    }
  }

  /** A generated proof descends to the leaf it was generated for. */
  lemma {:induction false} ProofBits(h: PairHash, level: seq<Digest>, i: nat)
    requires i < |level|
    ensures Bits(ProofOf(h, level, i)) == i
    decreases |level|
  {
    if |level| > 1 {
      ProofBits(h, Above(h, level), i / 2);
      assert ProofOf(h, level, i)[1..] == ProofOf(h, Above(h, level), i / 2);
    }
  }

  /** A node of the level above hashes the two leaf positions below it. */
  lemma AboveHashesPair(h: PairHash, level: seq<Digest>, j: nat)
    requires |level| > 1
    ensures Above(h, level)[LeafAt((|level| + 1) / 2, j)]
         == h(level[LeafAt(|level|, 2 * j)], level[LeafAt(|level|, 2 * j + 1)])
  {
    var m := LeafAt((|level| + 1) / 2, j);
    assert (2 * j) / 2 == j && (2 * j + 1) / 2 == j;
    assert Above(h, level)[m] == h(PadOdd(level)[2 * m], PadOdd(level)[2 * m + 1]);
  }

  // ----- Binding

  /** What one call of the pair hash is given. */
  datatype Pair = Pair(left: Digest, right: Digest)

  function HashOf(h: PairHash, pair: Pair): Digest {
    h(pair.left, pair.right)
  }

  /** Two pairs that show that the hash is not injective. */
  predicate Collide(h: PairHash, a: Pair, b: Pair) {
    a != b && HashOf(h, a) == HashOf(h, b)
  }

  /** The pair that verification hashes in one step. */
  function VerifiedPair(x: Digest, step: Step): Pair {
    if step.position == "left" then Pair(step.hash, x) else Pair(x, step.hash)
  }

  /** The pair that the builder hashes for node m of the level above. */
  function BuiltPair(level: seq<Digest>, m: nat): Pair
    requires m < (|level| + 1) / 2
  {
    Pair(PadOdd(level)[2 * m], PadOdd(level)[2 * m + 1])
  }

  /**
    The first step of a path at which verification hashes another pair than the builder did for the
    node that the rest of the path descends to, with the same result: the two pairs, if any.
   */
  function PathClash(h: PairHash, level: seq<Digest>, x: Digest, path: seq<Step>): (clash: Option<(Pair, Pair)>)
    requires level != [] && |path| == Depth(|level|)
    ensures clash.Some? ==> Collide(h, clash.value.0, clash.value.1)
    decreases |level|
  {
    if |level| == 1 then None
    else
      var up := Above(h, level);
      var verified, built := VerifiedPair(x, path[0]), BuiltPair(level, LeafAt(|up|, Bits(path[1..])));
      if Collide(h, verified, built) then Some((verified, built))
      else PathClash(h, up, Combine(h, x, path[0]), path[1..])
  }

  predicate SameHashes(path: seq<Step>, proof: seq<Step>) {
    |path| == |proof| && forall k :: 0 <= k < |path| ==> path[k].hash == proof[k].hash
  }

  lemma SameHashesStep(path: seq<Step>, first: Step, rest: seq<Step>)
    requires path != []
    ensures SameHashes(path, [first] + rest) <==> path[0].hash == first.hash && SameHashes(path[1..], rest)
  {
    var proof := [first] + rest;
    assert forall k :: 0 <= k < |path| - 1 ==> path[1..][k] == path[k + 1];
    assert forall k :: 0 <= k < |rest| ==> proof[k + 1] == rest[k];
    if path[0].hash == first.hash && SameHashes(path[1..], rest) {
      forall k | 0 <= k < |path| ensures path[k].hash == proof[k].hash {
        if k > 0 { assert path[1..][k - 1].hash == rest[k - 1].hash; }
      }
    }
  }

  /** x is the node that the path's left/right choices descend to, and the path carries that node's own proof. */
  predicate Bound(h: PairHash, level: seq<Digest>, x: Digest, path: seq<Step>)
    requires level != [] && |path| == Depth(|level|)
  {
    var i := LeafAt(|level|, Bits(path));
    x == level[i] && SameHashes(path, ProofOf(h, level, i))
  }

  /** A step hashes the pair the builder hashed exactly when its node and its sibling are the two of the tree. */
  lemma PairDecides(level: seq<Digest>, x: Digest, step: Step, m: nat)
    requires m < (|level| + 1) / 2
    ensures var child := 2 * m + if step.position == "left" then 1 else 0;
            var i := if child < |level| then child else |level| - 1;
            && i / 2 == m
            && (VerifiedPair(x, step) == BuiltPair(level, m) <==>
                  x == level[i] && step.hash == SiblingStep(level, i).hash)
  {
  }

  lemma LeafAtHalves(n: nat, bits: nat, rest: nat)
    requires n > 1 && (bits == 2 * rest || bits == 2 * rest + 1)
    ensures var child := 2 * LeafAt((n + 1) / 2, rest) + (bits - 2 * rest);
            LeafAt(n, bits) == if child < n then child else n - 1
  {
    assert bits / 2 == rest;
  }

  lemma PairHashes(h: PairHash, level: seq<Digest>, x: Digest, step: Step, m: nat)
    requires m < (|level| + 1) / 2
    ensures HashOf(h, VerifiedPair(x, step)) == Combine(h, x, step)
    ensures HashOf(h, BuiltPair(level, m)) == Above(h, level)[m]
  {
  }

  lemma ProofStep(h: PairHash, level: seq<Digest>, i: nat)
    requires i < |level| && |level| > 1
    ensures ProofOf(h, level, i) == [SiblingStep(level, i)] + ProofOf(h, Above(h, level), i / 2)
  {
    hide Above, SiblingStep;
  }

  /** Being bound, one step at a time. */
  lemma BoundStep(h: PairHash, level: seq<Digest>, x: Digest, path: seq<Step>)
    requires |level| > 1 && |path| == Depth(|level|)
    ensures var up := Above(h, level);
            var m := LeafAt(|up|, Bits(path[1..]));
            Bound(h, level, x, path) <==>
              VerifiedPair(x, path[0]) == BuiltPair(level, m) && up[m] == HashOf(h, VerifiedPair(x, path[0])) &&
              SameHashes(path[1..], ProofOf(h, up, m))
  {
    hide Above, LeafAt, SiblingStep, ProofOf, SameHashes, VerifiedPair, BuiltPair, HashOf, Combine;
    var up := Above(h, level);
    var m, i := LeafAt(|up|, Bits(path[1..])), LeafAt(|level|, Bits(path));
    LeafAtHalves(|level|, Bits(path), Bits(path[1..]));
    PairDecides(level, x, path[0], m);
    PairHashes(h, level, x, path[0], m);
    SameHashesStep(path, SiblingStep(level, i), ProofOf(h, up, m));
    ProofStep(h, level, i);
  }

  /**
    Binding: a path of the tree's depth that leads to the root is bound to the leaf its left/right
    choices descend to, exactly unless it names two colliding pairs. A bound path leads to the root.
   */
  lemma {:induction false} PathBindsLeaf(h: PairHash, level: seq<Digest>, x: Digest, path: seq<Step>)
    requires level != [] && |path| == Depth(|level|)
    ensures Fold(h, x, path) == Root(h, level) ==> (Bound(h, level, x, path) <==> PathClash(h, level, x, path).None?)
    ensures Bound(h, level, x, path) ==> Fold(h, x, path) == Root(h, level)
    decreases |level|
  {
    if |level| > 1 {
      var up := Above(h, level);
      BoundStep(h, level, x, path);
      PairHashes(h, level, x, path[0], LeafAt(|up|, Bits(path[1..])));
      PathBindsLeaf(h, up, Combine(h, x, path[0]), path[1..]);
      hide Above, Combine, VerifiedPair, BuiltPair, LeafAt, Bits, HashOf, ProofOf, SameHashes;
    }
  }

  // ----- Paths of other lengths

  lemma AboveKeeps(h: PairHash, level: seq<Digest>)
    requires |level| > 1
    ensures Root(h, Above(h, level)) == Root(h, level) && 1 + Depth(|Above(h, level)|) == Depth(|level|)
  {
    hide Above;
  }

  lemma DepthOfOne(n: nat)
    requires n > 0
    ensures n == 1 <==> Depth(n) == 0
  {
  }

  /** The k-th level of a tree has its root, and k levels less above it. */
  lemma {:induction false} LevelAtKeeps(h: PairHash, leaves: seq<Digest>, k: nat)
    requires leaves != [] && k <= Depth(|leaves|)
    ensures Depth(|LevelAt(h, leaves, k)|) == Depth(|leaves|) - k
    ensures Root(h, LevelAt(h, leaves, k)) == Root(h, leaves)
  {
    hide Above, Root, Depth;
    if k > 0 {
      LevelAtKeeps(h, leaves, k - 1);
      DepthOfOne(|LevelAt(h, leaves, k - 1)|);
      AboveKeeps(h, LevelAt(h, leaves, k - 1));
    }
  }

  lemma {:induction false} FoldSplits(h: PairHash, x: Digest, path: seq<Step>, split: nat)
    requires split <= |path|
    ensures Fold(h, x, path) == Fold(h, Fold(h, x, path[..split]), path[split..])
    decreases split
  {
    if split > 0 {
      FoldSplits(h, Combine(h, x, path[0]), path[1..], split - 1);
      assert path[..split][1..] == path[1..][..split - 1] && path[1..][split - 1..] == path[split..];
    }
  }

  /**
    What acceptance means for a path of any length, for verification does not look at the length: a
    path shorter than the tree is deep is bound to a node of the level that is as high as the path is
    short; a longer one hashes up to a leaf first, and its last steps are bound to that leaf. The
    alternative is in each case a named collision.
   */
  lemma AcceptedPathMeans(h: PairHash, leaves: seq<Digest>, x: Digest, path: seq<Step>)
    requires leaves != [] && Fold(h, x, path) == Root(h, leaves)
    ensures var depth := Depth(|leaves|);
            if |path| <= depth then
              var level := LevelAt(h, leaves, depth - |path|);
              && Depth(|level|) == |path|
              && (Bound(h, level, x, path) <==> PathClash(h, level, x, path).None?)
            else
              var split := |path| - depth;
              var y := Fold(h, x, path[..split]);
              Bound(h, leaves, y, path[split..]) <==> PathClash(h, leaves, y, path[split..]).None?
  {
    hide Bound, PathClash, Root, LevelAt, Fold, Depth, Collide, Bits;
    var depth := Depth(|leaves|);
    if |path| <= depth {
      LevelAtKeeps(h, leaves, depth - |path|);
      PathBindsLeaf(h, LevelAt(h, leaves, depth - |path|), x, path);
    } else {
      var split := |path| - depth;
      FoldSplits(h, x, path, split);
      PathBindsLeaf(h, leaves, Fold(h, x, path[..split]), path[split..]);
    }
  }

  /** Every node of every level has such a path: its proof in the tree above it. */
  lemma ShorterPathsReachInnerNodes(h: PairHash, leaves: seq<Digest>, k: nat, m: nat)
    requires leaves != [] && k <= Depth(|leaves|) && m < |LevelAt(h, leaves, k)|
    ensures var level := LevelAt(h, leaves, k);
            Fold(h, level[m], ProofOf(h, level, m)) == Root(h, leaves) &&
            |ProofOf(h, level, m)| + k == Depth(|leaves|)
  {
    LevelAtKeeps(h, leaves, k);
    ProofReproducesRoot(h, LevelAt(h, leaves, k), m);
  }

  // ----- Two trees

  /** Two leaf lists agree at every position of their padded bottom levels. */
  ghost predicate SameBottom(s: seq<Digest>, t: seq<Digest>)
    requires s != [] && t != []
  {
    forall j: nat :: s[LeafAt(|s|, j)] == t[LeafAt(|t|, j)]
  }

  /** The pair hashed at position j of the padded level above. */
  function PairAt(level: seq<Digest>, j: nat): Pair
    requires level != []
  {
    Pair(level[LeafAt(|level|, 2 * j)], level[LeafAt(|level|, 2 * j + 1)])
  }

  ghost predicate CollideAt(h: PairHash, s: seq<Digest>, t: seq<Digest>, j: nat)
    requires s != [] && t != []
  {
    Collide(h, PairAt(s, j), PairAt(t, j))
  }

  /** The pairs at the lowest position where the two trees hash different pairs to one digest, if any. */
  ghost function TreeClash(h: PairHash, s: seq<Digest>, t: seq<Digest>): (clash: Option<(Pair, Pair)>)
    requires s != [] && t != [] && Depth(|s|) == Depth(|t|)
    ensures clash.Some? ==> Collide(h, clash.value.0, clash.value.1)
    decreases |s|
  {
    if |s| == 1 then None
    else if exists j: nat :: CollideAt(h, s, t, j) then
      var j: nat :| CollideAt(h, s, t, j);
      Some((PairAt(s, j), PairAt(t, j)))
    else TreeClash(h, Above(h, s), Above(h, t))
  }

  lemma SameBottomRises(h: PairHash, s: seq<Digest>, t: seq<Digest>)
    requires |s| > 1 && |t| > 1 && SameBottom(s, t)
    ensures SameBottom(Above(h, s), Above(h, t)) && forall j: nat :: !CollideAt(h, s, t, j)
  {
    var up, vp := Above(h, s), Above(h, t);
    hide Above, LeafAt;
    forall j: nat ensures up[LeafAt(|up|, j)] == vp[LeafAt(|vp|, j)] && PairAt(s, j) == PairAt(t, j) {
      AboveHashesPair(h, s, j);
      AboveHashesPair(h, t, j);
    }
  }

  lemma SameBottomBelow(h: PairHash, s: seq<Digest>, t: seq<Digest>)
    requires |s| > 1 && |t| > 1
    requires SameBottom(Above(h, s), Above(h, t)) && forall j: nat :: !CollideAt(h, s, t, j)
    ensures SameBottom(s, t)
  {
    var up, vp := Above(h, s), Above(h, t);
    hide Above, LeafAt;
    forall j: nat ensures s[LeafAt(|s|, j)] == t[LeafAt(|t|, j)] {
      AboveHashesPair(h, s, j / 2);
      AboveHashesPair(h, t, j / 2);
      assert up[LeafAt(|up|, j / 2)] == vp[LeafAt(|vp|, j / 2)];
      assert !CollideAt(h, s, t, j / 2);
      assert PairAt(s, j / 2) == PairAt(t, j / 2);
      assert j == 2 * (j / 2) || j == 2 * (j / 2) + 1;
    }
  }

  /**
    What a root says about the leaves, for trees of equal depth: lists with the same padded bottom
    have the same root, whatever the hash; lists with the same root have the same padded bottom,
    exactly unless the two trees name a collision.
   */
  lemma {:induction false} RootsEqualIff(h: PairHash, s: seq<Digest>, t: seq<Digest>)
    requires s != [] && t != [] && Depth(|s|) == Depth(|t|)
    ensures SameBottom(s, t) ==> Root(h, s) == Root(h, t)
    ensures Root(h, s) == Root(h, t) ==> (SameBottom(s, t) <==> TreeClash(h, s, t).None?)
    decreases |s|
  {
    if |s| > 1 {
      var up, vp := Above(h, s), Above(h, t);
      RootsEqualIff(h, up, vp);
      if SameBottom(s, t) {
        SameBottomRises(h, s, t);
      } else if SameBottom(up, vp) && forall j: nat :: !CollideAt(h, s, t, j) {
        SameBottomBelow(h, s, t);
      }
      hide Above, SameBottom, CollideAt;
    } else {
      assert s[LeafAt(|s|, 0)] == s[0] && t[LeafAt(|t|, 0)] == t[0];
    }
  }

  /** Leaf lists of equal length with equal roots are equal, exactly unless their trees name a collision. */
  lemma RootDeterminesLeaves(h: PairHash, s: seq<Digest>, t: seq<Digest>)
    requires |s| == |t| > 0 && Root(h, s) == Root(h, t)
    ensures s == t <==> TreeClash(h, s, t).None?
  {
    RootsEqualIff(h, s, t);
    if SameBottom(s, t) {
      forall i | 0 <= i < |s| ensures s[i] == t[i] {
        LeafAtOwnIndex(|s|, i);
      }
    }
  }

  /** The length matters: repeating the last leaf of an odd list of three or more keeps the root. */
  lemma RepeatedLastLeaf(h: PairHash, s: seq<Digest>)
    requires |s| >= 3 && |s| % 2 == 1
    ensures Root(h, s + [s[|s| - 1]]) == Root(h, s)
  {
    assert PadOdd(s + [s[|s| - 1]]) == PadOdd(s);
  }
}
