/** The streaming-egress root: the same log tree built level by level from tagged leaves. */
module StreamingMerkle {
  import opened Hashing
  import opened SplitPoints
  import opened MerkleLog
  import opened Hex
  import opened Sequences

  function LeafHash(H: Sha512, leaf: Digest): Digest {
    H([NUL] + leaf.bytes)
  }

  function LeafHashes(H: Sha512, leaves: seq<Digest>): (hashes: seq<Digest>)
    ensures |hashes| == |leaves|
  {
    if leaves == [] then [] else [LeafHash(H, leaves[0])] + LeafHashes(H, leaves[1..])
  }

  /** The level above: adjacent nodes paired, an odd tail promoted unchanged. */
  function PairUp(H: Sha512, level: seq<Digest>): (next: seq<Digest>)
    ensures 2 * |next| - 1 <= |level| <= 2 * |next|
  {
    if |level| <= 1 then level
    else [NodeHash(H, level[0], level[1])] + PairUp(H, level[2..])
  }

  lemma {:induction false} PairUpSplit(H: Sha512, level: seq<Digest>, k: nat)
    requires 2 * k <= |level|
    ensures PairUp(H, level[..2 * k]) == PairUp(H, level)[..k]
    ensures PairUp(H, level[2 * k..]) == PairUp(H, level)[k..]
  {
    if k > 0 {
      PairUpSplit(H, level[2..], k - 1);
      assert level[..2 * k][2..] == level[2..][..2 * (k - 1)];
      assert level[2 * k..] == level[2..][2 * (k - 1)..];
    } else {
      assert level[2 * k..] == level;
    }
  }

  /** Pairing up a level does not change the head of the tree above it. */
  lemma {:induction false} RootOneLevelUp(H: Sha512, level: seq<Digest>)
    requires |level| >= 1
    ensures MerkleRoot(H, level) == MerkleRoot(H, PairUp(H, level))
    decreases |level|, 1
  {
    if |level| == 2 {
      assert level[..1] == [level[0]] && level[1..] == [level[1]];
    } else if |level| > 2 {
      HalvesOneLevelUp(H, level, PairUp(H, level), SplitPoint(|PairUp(H, level)|));
    }
  }

  /** The split points of a level and of the level above separate the same subtrees. */
  lemma {:induction false} HalvesOneLevelUp(H: Sha512, level: seq<Digest>, next: seq<Digest>, k: nat)
    requires |level| > 2 && next == PairUp(H, level) && k == SplitPoint(|next|)
    ensures SplitPoint(|level|) == 2 * k
    ensures MerkleRoot(H, level[..2 * k]) == MerkleRoot(H, next[..k])
    ensures MerkleRoot(H, level[2 * k..]) == MerkleRoot(H, next[k..])
    decreases |level|, 0
  {
    SplitPointHalves(|level|, |next|);
    PairUpSplit(H, level, k);
    RootOneLevelUp(H, level[..2 * k]);
    RootOneLevelUp(H, level[2 * k..]);
  }

  method NextLevel(H: Sha512, level: seq<Digest>) returns (next: seq<Digest>)
    ensures next == PairUp(H, level)
  {
    next := [];
    var i := 0;
    while i + 1 < |level|
      invariant 0 <= i <= |level|
      invariant next + PairUp(H, level[i..]) == PairUp(H, level)
    {
      next := next + [NodeHash(H, level[i], level[i + 1])];
      i := i + 2;
    }
    if i < |level| {
      next := next + [level[i]];
    }
  }

  /** The root built level by level is the head of the recursive tree over the leaf hashes. */
  method MerkleRootFromLeaves(H: Sha512, leaves: seq<Digest>) returns (root: Bytes)
    ensures root == HexOf(MerkleRoot(H, LeafHashes(H, leaves)))
  {
    if leaves == [] {
      return HexOf(H([]));
    }
    var level := LeafHashes(H, leaves);
    while |level| > 1
      invariant |level| >= 1 && MerkleRoot(H, level) == MerkleRoot(H, LeafHashes(H, leaves))
      decreases |level|
    {
      RootOneLevelUp(H, level);
      level := NextLevel(H, level);
    }
    root := HexOf(level[0]);
  }

  // ----- what a root says ---------------------------------------------------------------

  lemma {:induction false} LeafHashesSplit(H: Sha512, leaves: seq<Digest>, k: nat)
    requires k <= |leaves|
    ensures LeafHashes(H, leaves)[..k] == LeafHashes(H, leaves[..k])
    ensures LeafHashes(H, leaves)[k..] == LeafHashes(H, leaves[k..])
  {
    if k > 0 {
      LeafHashesSplit(H, leaves[1..], k - 1);
      assert leaves[..k][1..] == leaves[1..][..k - 1] && leaves[k..] == leaves[1..][k - 1..];
    } else {
      assert leaves[k..] == leaves;
    }
  }

  ghost function RootOf(H: Sha512, leaves: seq<Digest>): Digest {
    MerkleRoot(H, LeafHashes(H, leaves))
  }

  /** The bytes a root is the hash of: nothing, a tagged leaf, or two tagged halves. */
  ghost function RootPreimage(H: Sha512, leaves: seq<Digest>): Bytes {
    if leaves == [] then []
    else if |leaves| == 1 then [NUL] + leaves[0].bytes
    else
      var k := SplitPoint(|leaves|);
      NodePreimage(RootOf(H, leaves[..k]), RootOf(H, leaves[k..]))
  }

  ghost function StreamQueries(H: Sha512, leaves: seq<Digest>): set<Bytes>
    decreases |leaves|
  {
    {RootPreimage(H, leaves)} +
    if |leaves| <= 1 then {}
    else
      var k := SplitPoint(|leaves|);
      StreamQueries(H, leaves[..k]) + StreamQueries(H, leaves[k..])
  }

  lemma RootIsHashed(H: Sha512, leaves: seq<Digest>)
    ensures RootOf(H, leaves) == H(RootPreimage(H, leaves))
  {
    if |leaves| == 1 {
      assert LeafHashes(H, leaves) == [LeafHash(H, leaves[0])];
    } else if |leaves| > 1 {
      LeafHashesSplit(H, leaves, SplitPoint(|leaves|));
    }
  }

  /** Nothing, a leaf and a node are never hashed from the same bytes. */
  lemma PreimageKinds(H: Sha512, a: seq<Digest>, b: seq<Digest>)
    requires RootPreimage(H, a) == RootPreimage(H, b)
    ensures a == [] <==> b == []
    ensures |a| == 1 <==> |b| == 1
    ensures |a| == 1 ==> a == b
  {
    var p, r := RootPreimage(H, a), RootPreimage(H, b);
    assert |a| == 1 ==> p[0] == NUL && p[1..] == a[0].bytes;
    assert |b| == 1 ==> r[0] == NUL && r[1..] == b[0].bytes;
    assert |a| > 1 ==> p[0] != NUL;
    assert |b| > 1 ==> r[0] != NUL;
  }

  /** A streaming root binds its leaf list, between lists of any lengths. */
  lemma {:induction false} RootBindsLeaves(H: Sha512, q: set<Bytes>, a: seq<Digest>, b: seq<Digest>)
    requires InjectiveOn(H, q) && StreamQueries(H, a) <= q && StreamQueries(H, b) <= q
    requires RootOf(H, a) == RootOf(H, b)
    ensures a == b
    decreases |a|
  {
    RootIsHashed(H, a);
    RootIsHashed(H, b);
    Collide(H, q, RootPreimage(H, a), RootPreimage(H, b));
    PreimageKinds(H, a, b);
    if |a| > 1 {
      var k, l := SplitPoint(|a|), SplitPoint(|b|);
      NodePreimageBinds(RootOf(H, a[..k]), RootOf(H, a[k..]), RootOf(H, b[..l]), RootOf(H, b[l..]));
      RootBindsLeaves(H, q, a[..k], b[..l]);
      RootBindsLeaves(H, q, a[k..], b[l..]);
      SplitInTwo(a, k);
      SplitInTwo(b, l);
    }
  }
}
