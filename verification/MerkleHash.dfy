/**
  The pair hash of api/merkle_tree.py: SHA-256 over the bytes of two hex texts, as a hex digest.

  SHA-256 is any function from byte strings to 256-bit numbers. What MerkleTree proves for any pair
  hash becomes here a statement about SHA-256 itself, for texts that have the form of a digest.
 */
module MerkleHash {
  import opened Common
  import opened Hex
  import opened MerkleTree

  type Word256 = x: int | 0 <= x < TWO_256

  type Sha = seq<Byte> -> Word256

  /** The form of hexdigest(): 64 lower-case hex digits. */
  ghost predicate IsDigest(d: Digest) {
    exists x: Word256 :: d == Hex64(x)
  }

  ghost predicate AllDigests(ds: seq<Digest>) {
    forall i :: 0 <= i < |ds| ==> IsDigest(ds[i])
  }

  ghost predicate PathOfDigests(path: seq<Step>) {
    forall i :: 0 <= i < |path| ==> IsDigest(path[i].hash)
  }

  /** bytes.fromhex; the code raises on text that is no hex, which is not part of this model. */
  function Bytes(text: string): seq<Byte> {
    var bytes := FromHex(text);
    if bytes.Some? then bytes.value else []
  }

  /** What is hashed for a pair: the two byte strings, one after the other. */
  function Message(pair: Pair): seq<Byte> {
    Bytes(pair.left) + Bytes(pair.right)
  }

  /** _hash_pair */
  function HashPair(sha: Sha): PairHash {
    (left: Digest, right: Digest) => Hex64(sha(Message(Pair(left, right))))
  }

  // ----- Digests

  lemma DigestBytes(d: Digest, e: Digest)
    requires IsDigest(d) && IsDigest(e)
    ensures |Bytes(d)| == |Bytes(e)| == 32
    ensures Bytes(d) == Bytes(e) ==> d == e
  {
    var x: Word256 :| d == Hex64(x);
    var y: Word256 :| e == Hex64(y);
    Hex64RoundTrip(x);
    Hex64RoundTrip(y);
    hide Hex64, FromHex, FromBigEndian;
  }

  /** Pairs of digests are hashed alike only if SHA-256 maps two different 64-byte strings to one number. */
  lemma CollisionIsOfSha(sha: Sha, a: Pair, b: Pair)
    requires IsDigest(a.left) && IsDigest(a.right) && IsDigest(b.left) && IsDigest(b.right)
    ensures Collide(HashPair(sha), a, b) <==> ShaCollision(sha, a, b)
  {
    DigestBytes(a.left, b.left);
    DigestBytes(a.right, b.right);
    Hex64RoundTrip(sha(Message(a)));
    Hex64RoundTrip(sha(Message(b)));
    hide Hex64, Bytes, FromBigEndian, FromHex, IsDigest;
    assert Message(a)[..32] == Bytes(a.left) && Message(a)[32..] == Bytes(a.right);
    assert Message(b)[..32] == Bytes(b.left) && Message(b)[32..] == Bytes(b.right);
  }

  /** Two different strings of 64 bytes with the same SHA-256. */
  predicate ShaCollision(sha: Sha, a: Pair, b: Pair) {
    |Message(a)| == 64 && |Message(b)| == 64 && Message(a) != Message(b) && sha(Message(a)) == sha(Message(b))
  }

  lemma HashIsDigest(sha: Sha, left: Digest, right: Digest)
    ensures IsDigest(HashPair(sha)(left, right))
  {
    assert HashPair(sha)(left, right) == Hex64(sha(Message(Pair(left, right))));
  }

  lemma AboveIsDigests(sha: Sha, level: seq<Digest>)
    ensures AllDigests(Above(HashPair(sha), level))
  {
    var h, padded := HashPair(sha), PadOdd(level);
    forall i | 0 <= i < |padded| / 2 ensures IsDigest(Above(h, level)[i]) {
      HashIsDigest(sha, padded[2 * i], padded[2 * i + 1]);
      assert Above(h, level)[i] == h(padded[2 * i], padded[2 * i + 1]);
    }
  }

  /** What is hashed for two digests: the 32 bytes of the left one and then those of the right one. */
  lemma MessageOfDigests(sha: Sha, x: Word256, y: Word256)
    ensures var message := Message(Pair(Hex64(x), Hex64(y)));
            && |message| == 64 && FromBigEndian(message[..32]) == x && FromBigEndian(message[32..]) == y
            && HashPair(sha)(Hex64(x), Hex64(y)) == Hex64(sha(message))
  {
    Hex64RoundTrip(x);
    Hex64RoundTrip(y);
    hide Hex64, FromHex, FromBigEndian;
    var xs, ys := Bytes(Hex64(x)), Bytes(Hex64(y));
    assert (xs + ys)[..32] == xs && (xs + ys)[32..] == ys;
  }

  // ----- Binding

  /** The collision that a path of digests names is one of SHA-256. */
  lemma {:induction false} PathClashIsOfSha(sha: Sha, level: seq<Digest>, x: Digest, path: seq<Step>)
    requires level != [] && |path| == Depth(|level|)
    requires AllDigests(level) && PathOfDigests(path) && IsDigest(x)
    ensures var clash := PathClash(HashPair(sha), level, x, path);
            clash.Some? ==> ShaCollision(sha, clash.value.0, clash.value.1)
    decreases |level|
  {
    hide IsDigest, ShaCollision, Collide, HashPair;
    if |level| > 1 {
      var h := HashPair(sha);
      var up := Above(h, level);
      var m := LeafAt(|up|, Bits(path[1..]));
      CollisionIsOfSha(sha, VerifiedPair(x, path[0]), BuiltPair(level, m));
      AboveIsDigests(sha, level);
      HashIsDigest(sha, VerifiedPair(x, path[0]).left, VerifiedPair(x, path[0]).right);
      PathClashIsOfSha(sha, up, Combine(h, x, path[0]), path[1..]);
    }
  }

  lemma {:induction false} LevelsAreDigests(sha: Sha, leaves: seq<Digest>, k: nat)
    requires AllDigests(leaves)
    ensures AllDigests(LevelAt(HashPair(sha), leaves, k))
  {
    if k > 0 {
      AboveIsDigests(sha, LevelAt(HashPair(sha), leaves, k - 1));
    }
  }

  /**
    Binding for the hash of the code: a path of digests, no longer than the tree is deep, that is
    accepted for a digest proves the node of the tree that it descends to, exactly unless it names
    two different 64-byte strings with one SHA-256.
   */
  lemma DigestPathBinds(sha: Sha, leaves: seq<Digest>, x: Digest, path: seq<Step>)
    requires leaves != [] && |path| <= Depth(|leaves|) && Fold(HashPair(sha), x, path) == Root(HashPair(sha), leaves)
    requires AllDigests(leaves) && PathOfDigests(path) && IsDigest(x)
    ensures var h := HashPair(sha);
            var level := LevelAt(h, leaves, Depth(|leaves|) - |path|);
            && Depth(|level|) == |path|
            && match PathClash(h, level, x, path)
               case None => Bound(h, level, x, path)
               case Some((a, b)) => !Bound(h, level, x, path) && ShaCollision(sha, a, b)
  {
    hide HashPair, IsDigest, AllDigests, PathOfDigests, ShaCollision, Fold, Root, PathClash, Bound, LevelAt;
    AcceptedPathMeans(HashPair(sha), leaves, x, path);
    LevelsAreDigests(sha, leaves, Depth(|leaves|) - |path|);
    PathClashIsOfSha(sha, LevelAt(HashPair(sha), leaves, Depth(|leaves|) - |path|), x, path);
  }

  /** The collision that two trees over digests name is one of SHA-256. */
  lemma {:induction false} TreeClashIsOfSha(sha: Sha, s: seq<Digest>, t: seq<Digest>)
    requires s != [] && t != [] && Depth(|s|) == Depth(|t|) && AllDigests(s) && AllDigests(t)
    ensures var clash := TreeClash(HashPair(sha), s, t);
            clash.Some? ==> ShaCollision(sha, clash.value.0, clash.value.1)
    decreases |s|
  {
    hide IsDigest, ShaCollision, Collide, HashPair;
    if |s| > 1 {
      var h := HashPair(sha);
      if exists j: nat :: CollideAt(h, s, t, j) {
        forall j: nat ensures CollideAt(h, s, t, j) <==> ShaCollision(sha, PairAt(s, j), PairAt(t, j)) {
          CollisionIsOfSha(sha, PairAt(s, j), PairAt(t, j));
        }
      } else {
        AboveIsDigests(sha, s);
        AboveIsDigests(sha, t);
        TreeClashIsOfSha(sha, Above(h, s), Above(h, t));
      }
    }
  }

  /** Digest lists of equal length with equal roots are equal, exactly unless they name such a pair of strings. */
  lemma DigestRootDeterminesLeaves(sha: Sha, s: seq<Digest>, t: seq<Digest>)
    requires |s| == |t| > 0 && Root(HashPair(sha), s) == Root(HashPair(sha), t) && AllDigests(s) && AllDigests(t)
    ensures match TreeClash(HashPair(sha), s, t)
            case None => s == t
            case Some((a, b)) => s != t && ShaCollision(sha, a, b)
  {
    hide HashPair, AllDigests, ShaCollision, Root, TreeClash;
    RootDeterminesLeaves(HashPair(sha), s, t);
    TreeClashIsOfSha(sha, s, t);
  }

  // ----- The form of a digest matters

  /** Hex digits read two by two: a text may be cut after any byte. */
  lemma BytesCut(text: string, more: string, cut: nat)
    requires AllHex(text) && |text| % 2 == 0 && AllHex(more) && |more| % 2 == 0 && cut % 2 == 0 && cut <= |text|
    ensures Message(Pair(text[..cut], text[cut..] + more)) == Message(Pair(text, more))
  {
    assert text[..cut] + text[cut..] == text;
    FromHexConcat(text[..cut], text[cut..]);
    FromHexConcat(text[cut..], more);
    FromHexConcat(more, "");
    FromHexConcat(text[cut..], "");
    assert more + "" == more && text[cut..] + "" == text[cut..];
    hide FromHex;
    var a, b, c := Bytes(text[..cut]), Bytes(text[cut..]), Bytes(more);
    assert a + (b + c) == (a + b) + c;
  }

  /**
    Verification does not check the form, so the restriction to digests is needed: in every tree of
    two digests or more, the first 62 digits of the first leaf are accepted in its place when the
    two digits that are missing move to the front of its sibling.
   */
  lemma FormIsNotChecked(sha: Sha, leaves: seq<Digest>)
    requires |leaves| > 1 && AllDigests(leaves)
    ensures var h, proof := HashPair(sha), ProofOf(HashPair(sha), leaves, 0);
            && proof != [] && |leaves[0]| == 64
            && var path := [Step(leaves[0][62..] + proof[0].hash, "right")] + proof[1..];
            && Fold(h, leaves[0][..62], path) == Root(h, leaves)
            && |path| == Depth(|leaves|) && leaves[0][..62] !in leaves
  {
    var h, proof := HashPair(sha), ProofOf(HashPair(sha), leaves, 0);
    var leaf, sibling := leaves[0], leaves[1];
    assert proof[0] == Step(sibling, "right");
    DigestText(leaf);
    DigestText(sibling);
    hide IsDigest, Bytes, FromHex, Root;
    BytesCut(leaf, sibling, 62);
    ProofReproducesRoot(h, leaves, 0);
    var step := Step(leaf[62..] + sibling, "right");
    assert Combine(h, leaf[..62], step) == Combine(h, leaf, proof[0]);
    assert ([step] + proof[1..])[1..] == proof[1..];
    forall i | 0 <= i < |leaves| ensures leaves[i] != leaf[..62] {
      DigestText(leaves[i]);
    }
  }

  lemma DigestText(d: Digest)
    requires IsDigest(d)
    ensures |d| == 64 && AllHex(d)
  {
    var x: Word256 :| d == Hex64(x);
    Hex64RoundTrip(x);
  }
}
