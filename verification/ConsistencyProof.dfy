/** Consistency proofs between two sizes of the log: the recursive subproof, and the iterative
    verifier that rebuilds the old and the new head from the same siblings. */
module ConsistencyProof {
  import opened Wrappers
  import opened Hashing
  import opened Sequences
  import opened SplitPoints
  import opened MerkleLog
  import opened InclusionProof

  function ConsistencyProof(H: Sha512, leaves: seq<Digest>, oldSize: nat): Option<seq<Digest>> {
    if oldSize == 0 || oldSize > |leaves| then None else Some(Subproof(H, leaves, oldSize, true))
  }

  // ----- two heads from one proof -------------------------------------------------------

  /** The old head: a right sibling lies outside the old tree. */
  function FoldOld(H: Sha512, sides: seq<Side>, r: Digest, proof: seq<Digest>): (head: Option<Digest>)
    ensures head.Some? <==> |sides| == |proof|
    decreases |sides|
  {
    if |sides| != |proof| then None
    else if sides == [] then Some(r)
    else
      var top := |sides| - 1;
      var below := FoldOld(H, sides[..top], r, proof[..top]);
      if sides[top].Left? then Some(NodeHash(H, proof[top], below.value)) else below
  }

  ghost function FoldOldQueries(H: Sha512, sides: seq<Side>, r: Digest, proof: seq<Digest>): set<Bytes>
    decreases |sides|
  {
    if |sides| != |proof| || sides == [] then {}
    else
      var top := |sides| - 1;
      var below := FoldOld(H, sides[..top], r, proof[..top]);
      FoldOldQueries(H, sides[..top], r, proof[..top]) +
      if sides[top].Left? then {NodePreimage(proof[top], below.value)} else {}
  }

  lemma {:induction false} FoldOldFront(
    H: Sha512, side: Side, sides: seq<Side>, r: Digest, p: Digest, proof: seq<Digest>)
    ensures FoldOld(H, [side] + sides, r, [p] + proof) ==
            FoldOld(H, sides, if side.Left? then NodeHash(H, p, r) else r, proof)
    decreases |sides|
  {
    if |sides| == |proof| {
      if sides == [] {
        assert [side] + sides == [side] && [p] + proof == [p];
        assert FoldOld(H, [side][..0], r, [p][..0]) == Some(r);
      } else {
        var top := |sides| - 1;
        FoldOldFront(H, side, sides[..top], r, p, proof[..top]);
        assert ([side] + sides)[..top + 1] == [side] + sides[..top];
        assert ([p] + proof)[..top + 1] == [p] + proof[..top];
      }
    }
  }

  ghost function Heads(
    H: Sha512, sides: seq<Side>, fr: Digest, sr: Digest, proof: seq<Digest>): (Option<Digest>, Option<Digest>)
  {
    (FoldOld(H, sides, fr, proof), Fold(H, sides, sr, proof))
  }

  lemma HeadsFront(H: Sha512, side: Side, sides: seq<Side>, fr: Digest, sr: Digest, p: Digest, proof: seq<Digest>)
    ensures Heads(H, [side] + sides, fr, sr, [p] + proof) ==
            if side.Left? then Heads(H, sides, NodeHash(H, p, fr), NodeHash(H, p, sr), proof)
            else Heads(H, sides, fr, NodeHash(H, sr, p), proof)
  {
    FoldOldFront(H, side, sides, fr, p, proof);
    FoldFront(H, side, sides, sr, p, proof);
  }

  // ----- the verifier -------------------------------------------------------------------

  /** The node both climbs start from and the siblings that remain: the old head itself when
      the old tree is complete, otherwise the first element of the proof. */
  function Seed(oldSize: nat, oldRoot: Digest, proof: seq<Digest>): Option<(Digest, seq<Digest>)> {
    if IsPowerOfTwo(oldSize) then Some((oldRoot, proof))
    else if proof == [] then None
    else Some((proof[0], proof[1..]))
  }

  predicate Consistent(H: Sha512, oldSize: nat, newSize: nat, oldRoot: Digest, newRoot: Digest, proof: seq<Digest>) {
    && 0 < oldSize <= newSize
    && if oldSize == newSize then proof == [] && oldRoot == newRoot
       else
         var sides, start := OldRoute(oldSize, newSize), Seed(oldSize, oldRoot, proof);
         && start.Some?
         && FoldOld(H, sides, start.value.0, start.value.1) == Some(oldRoot)
         && Fold(H, sides, start.value.0, start.value.1) == Some(newRoot)
  }

  /** Every byte string the verifier hashes. */
  ghost function ConsistencyQueries(
    H: Sha512, oldSize: nat, newSize: nat, oldRoot: Digest, proof: seq<Digest>): set<Bytes>
    requires 0 < oldSize <= newSize
  {
    var sides, start := OldRoute(oldSize, newSize), Seed(oldSize, oldRoot, proof);
    if start.None? then {}
    else FoldOldQueries(H, sides, start.value.0, start.value.1) + FoldQueries(H, sides, start.value.0, start.value.1)
  }

  method VerifyConsistency(H: Sha512, oldSize: nat, newSize: nat, oldRoot: Digest, newRoot: Digest, proof: seq<Digest>)
    returns (ok: bool)
    ensures ok <==> Consistent(H, oldSize, newSize, oldRoot, newRoot, proof)
  {
    if oldSize == 0 || oldSize > newSize {
      return false;
    }
    if oldSize == newSize {
      return proof == [] && oldRoot == newRoot;
    }
    var fr, sr, first := oldRoot, oldRoot, 0;
    if !IsPowerOfTwo(oldSize) {
      if proof == [] {
        return false;
      }
      fr, sr, first := proof[0], proof[0], 1;
    }
    OldBitsAreOldRoute(oldSize, newSize);
    var fnode: nat, snode: nat := oldSize - 1, newSize - 1;
    while fnode % 2 == 1
      invariant fnode <= snode && Skip(fnode, snode) == Skip(oldSize - 1, newSize - 1)
      decreases fnode
    {
      fnode := fnode / 2;
      snode := snode / 2;
    }
    ghost var heads := Heads(H, OldRoute(oldSize, newSize), fr, sr, proof[first..]);
    for i := first to |proof|
      invariant fnode <= snode
      invariant Heads(H, Bits(fnode, snode), fr, sr, proof[i..]) == heads
    {
      var p := proof[i];
      assert proof[i..] == [p] + proof[i + 1..];
      if snode == 0 {
        return false;
      }
      if fnode % 2 == 1 || fnode == snode {
        ghost var fr0, sr0 := fr, sr;
        fr := NodeHash(H, p, fr);
        sr := NodeHash(H, p, sr);
        if fnode % 2 == 0 {
          while fnode % 2 == 0 && fnode != 0
            invariant 0 < fnode == snode
            invariant Heads(H, Bits(fnode, snode), fr0, sr0, [p] + proof[i + 1..]) == heads
            decreases fnode
          {
            fnode := fnode / 2;
            snode := snode / 2;
          }
        }
        HeadsFront(H, Left, Bits(fnode / 2, snode / 2), fr0, sr0, p, proof[i + 1..]);
      } else {
        HeadsFront(H, Right, Bits(fnode / 2, snode / 2), fr, sr, p, proof[i + 1..]);
        sr := NodeHash(H, sr, p);
      }
      fnode := fnode / 2;
      snode := snode / 2;
    }
    LoneNodes(fnode, snode);
    ok := snode == 0 && fr == oldRoot && sr == newRoot;
  }

  // ----- the subproof as a seed and its siblings ----------------------------------------

  /** The last subtree the trees of the first `m` and of all leaves have in common. */
  function SharedNode(H: Sha512, leaves: seq<Digest>, m: nat): Digest
    requires 0 < m <= |leaves|
    decreases |leaves|
  {
    if m == |leaves| then MerkleRoot(H, leaves)
    else
      var k := SplitPoint(|leaves|);
      if m <= k then SharedNode(H, leaves[..k], m) else SharedNode(H, leaves[k..], m - k)
  }

  function SharedPath(H: Sha512, leaves: seq<Digest>, m: nat): seq<Digest>
    requires 0 < m <= |leaves|
    decreases |leaves|
  {
    if m == |leaves| then []
    else
      var k := SplitPoint(|leaves|);
      if m <= k then SharedPath(H, leaves[..k], m) + [MerkleRoot(H, leaves[k..])]
      else SharedPath(H, leaves[k..], m - k) + [MerkleRoot(H, leaves[..k])]
  }

  lemma SharedGoesRight(H: Sha512, leaves: seq<Digest>, k: nat, j: nat)
    requires |leaves| > 1 && k == SplitPoint(|leaves|) && 0 < j && k + j < |leaves|
    ensures OldRoute(k + j, |leaves|) == OldRoute(j, |leaves[k..]|) + [Left]
    ensures SharedNode(H, leaves, k + j) == SharedNode(H, leaves[k..], j)
    ensures SharedPath(H, leaves, k + j) == SharedPath(H, leaves[k..], j) + [MerkleRoot(H, leaves[..k])]
  {
  }

  lemma {:induction false} IncompleteSubproof(H: Sha512, leaves: seq<Digest>, m: nat)
    requires 0 < m <= |leaves|
    ensures Subproof(H, leaves, m, false) == [SharedNode(H, leaves, m)] + SharedPath(H, leaves, m)
    decreases |leaves|
  {
    if m < |leaves| {
      var k := SplitPoint(|leaves|);
      if m <= k {
        IncompleteSubproof(H, leaves[..k], m);
      } else {
        assert k + (m - k) == m;
        IncompleteSubproof(H, leaves[k..], m - k);
      }
    }
  }

  /** The node is sent unless it is the whole old tree. */
  lemma {:induction false} CompleteSubproof(H: Sha512, leaves: seq<Digest>, m: nat)
    requires 0 < m < |leaves|
    ensures Subproof(H, leaves, m, true) ==
            (if IsPowerOfTwo(m) then [] else [SharedNode(H, leaves, m)]) + SharedPath(H, leaves, m)
    ensures IsPowerOfTwo(m) ==> SharedNode(H, leaves, m) == MerkleRoot(H, leaves[..m])
    decreases |leaves|
  {
    var k := SplitPoint(|leaves|);
    SplitPointExact(|leaves|, k);
    if m < k {
      assert leaves[..k][..m] == leaves[..m];
      CompleteSubproof(H, leaves[..k], m);
    } else if m > k {
      SplitPointExact(|leaves|, m);
      assert k + (m - k) == m;
      IncompleteSubproof(H, leaves[k..], m - k);
    }
  }

  // ----- completeness and exactness -----------------------------------------------------

  /** The tree of a prefix longer than the split point splits there as well. */
  lemma DropThenTake<T>(s: seq<T>, k: nat, j: nat)
    requires k + j <= |s|
    ensures s[..k + j][..k] == s[..k] && s[..k + j][k..] == s[k..][..j]
  {
  }

  lemma PrefixSplit(H: Sha512, leaves: seq<Digest>, k: nat, j: nat)
    requires 0 < j && k + j <= |leaves| && |leaves| > 1 && k == SplitPoint(|leaves|)
    ensures MerkleRoot(H, leaves[..k + j]) == NodeHash(H, MerkleRoot(H, leaves[..k]), MerkleRoot(H, leaves[k..][..j]))
  {
    SplitPointSame(k + j, |leaves|);
    DropThenTake(leaves, k, j);
  }

  lemma {:induction false} SharedPathReachesHeads(H: Sha512, leaves: seq<Digest>, m: nat)
    requires 0 < m <= |leaves|
    ensures Heads(H, OldRoute(m, |leaves|), SharedNode(H, leaves, m), SharedNode(H, leaves, m),
                  SharedPath(H, leaves, m)) ==
            (Some(MerkleRoot(H, leaves[..m])), Some(MerkleRoot(H, leaves)))
    decreases |leaves|, 1
  {
    if m == |leaves| {
      assert leaves[..m] == leaves;
    } else {
      var k := SplitPoint(|leaves|);
      if m <= k {
        SharedPathLeft(H, leaves, m);
      } else {
        assert k + (m - k) == m;
        SharedPathRight(H, leaves, k, m - k);
      }
    }
  }

  lemma {:induction false} SharedPathLeft(H: Sha512, leaves: seq<Digest>, m: nat)
    requires |leaves| > 1 && 0 < m <= SplitPoint(|leaves|)
    ensures Heads(H, OldRoute(m, |leaves|), SharedNode(H, leaves, m), SharedNode(H, leaves, m),
                  SharedPath(H, leaves, m)) ==
            (Some(MerkleRoot(H, leaves[..m])), Some(MerkleRoot(H, leaves)))
    decreases |leaves|, 0
  {
    var k := SplitPoint(|leaves|);
    var left, right, r := leaves[..k], leaves[k..], SharedNode(H, leaves, m);
    SharedPathReachesHeads(H, left, m);
    assert left[..m] == leaves[..m];
  }

  lemma {:induction false} SharedPathRight(H: Sha512, leaves: seq<Digest>, k: nat, j: nat)
    requires |leaves| > 1 && k == SplitPoint(|leaves|) && 0 < j && k + j < |leaves|
    ensures Heads(H, OldRoute(k + j, |leaves|), SharedNode(H, leaves, k + j), SharedNode(H, leaves, k + j),
                  SharedPath(H, leaves, k + j)) ==
            (Some(MerkleRoot(H, leaves[..k + j])), Some(MerkleRoot(H, leaves)))
    decreases |leaves|, 0
  {
    var left, right, r := leaves[..k], leaves[k..], SharedNode(H, leaves, k + j);
    SharedGoesRight(H, leaves, k, j);
    SharedPathReachesHeads(H, right, j);
    PrefixSplit(H, leaves, k, j);
  }

  /** The new head is reached from `r` along the route of the first `m` leaves. */
  ghost predicate EndsAtHead(
    H: Sha512, leaves: seq<Digest>, m: nat, r: Digest, proof: seq<Digest>, queries: set<Bytes>)
  {
    && 0 < m <= |leaves| && InjectiveOn(H, queries) && TreeQueries(H, leaves) <= queries
    && FoldQueries(H, OldRoute(m, |leaves|), r, proof) <= queries
    && Fold(H, OldRoute(m, |leaves|), r, proof) == Some(MerkleRoot(H, leaves))
  }

  /** The new head alone fixes where the climb began and what it met. */
  lemma {:induction false} OnlySharedPath(
    H: Sha512, leaves: seq<Digest>, m: nat, r: Digest, proof: seq<Digest>, queries: set<Bytes>)
    requires EndsAtHead(H, leaves, m, r, proof, queries)
    ensures r == SharedNode(H, leaves, m) && proof == SharedPath(H, leaves, m)
    decreases |leaves|, 1
  {
    if m < |leaves| {
      var k := SplitPoint(|leaves|);
      if m <= k {
        OnlySharedPathLeft(H, leaves, m, r, proof, queries);
      } else {
        assert k + (m - k) == m;
        OnlySharedPathRight(H, leaves, k, m - k, r, proof, queries);
      }
    }
  }

  lemma {:induction false} OnlySharedPathLeft(
    H: Sha512, leaves: seq<Digest>, m: nat, r: Digest, proof: seq<Digest>, queries: set<Bytes>)
    requires EndsAtHead(H, leaves, m, r, proof, queries) && |leaves| > 1 && m <= SplitPoint(|leaves|)
    ensures r == SharedNode(H, leaves, m) && proof == SharedPath(H, leaves, m)
    decreases |leaves|, 0
  {
    var k := SplitPoint(|leaves|);
    var left, right := leaves[..k], leaves[k..];
    var rest := FoldTopExact(H, OldRoute(m, k), Right, r, proof, MerkleRoot(H, left), MerkleRoot(H, right), queries);
    OnlySharedPath(H, left, m, r, rest, queries);
  }

  lemma {:induction false} OnlySharedPathRight(
    H: Sha512, leaves: seq<Digest>, k: nat, j: nat, r: Digest, proof: seq<Digest>, queries: set<Bytes>)
    requires EndsAtHead(H, leaves, k + j, r, proof, queries)
    requires 0 < j && k + j < |leaves| && k == SplitPoint(|leaves|)
    ensures r == SharedNode(H, leaves, k + j) && proof == SharedPath(H, leaves, k + j)
    decreases |leaves|, 0
  {
    var left, right := leaves[..k], leaves[k..];
    SharedGoesRight(H, leaves, k, j);
    var rest :=
      FoldTopExact(H, OldRoute(j, |right|), Left, r, proof, MerkleRoot(H, left), MerkleRoot(H, right), queries);
    OnlySharedPath(H, right, j, r, rest, queries);
  }

  ghost function OldHeadQueries(H: Sha512, leaves: seq<Digest>, m: nat): set<Bytes>
    requires 0 < m <= |leaves|
  {
    FoldOldQueries(H, OldRoute(m, |leaves|), SharedNode(H, leaves, m), SharedPath(H, leaves, m))
  }

  predicate Covered<T>(part: set<T>, all: set<T>, onPath: set<T>) {
    part <= all + onPath
  }

  /** `all` is made of two parts and one element more. */
  predicate MadeOf<T>(all: set<T>, left: set<T>, right: set<T>, x: T) {
    all == left + right + {x}
  }

  /** What the tree of a prefix hashes is hashed by the tree or on the way to the old head. */
  ghost predicate PrefixHashed(H: Sha512, leaves: seq<Digest>, m: nat)
    requires 0 < m <= |leaves|
  {
    Covered(TreeQueries(H, leaves[..m]), TreeQueries(H, leaves), OldHeadQueries(H, leaves, m))
  }

  lemma {:induction false} PrefixQueries(H: Sha512, leaves: seq<Digest>, m: nat)
    requires 0 < m <= |leaves|
    ensures PrefixHashed(H, leaves, m)
    decreases |leaves|, 1
  {
    if m == |leaves| {
      WholeHashed(H, leaves);
    } else {
      SplitInTwo(leaves, SplitPoint(|leaves|));
      PrefixQueriesOfHalf(H, leaves[..SplitPoint(|leaves|)], leaves[SplitPoint(|leaves|)..], m);
    }
  }

  lemma {:induction false} PrefixQueriesOfHalf(H: Sha512, left: seq<Digest>, right: seq<Digest>, m: nat)
    requires AreHalves(left, right) && 0 < m < |left| + |right|
    ensures PrefixHashed(H, left + right, m)
    decreases |left| + |right|, 0
  {
    if m <= |left| {
      PrefixQueries(H, left, m);
      PrefixHashedLeft(H, left, right, m);
    } else {
      var j := m - |left|;
      PrefixQueries(H, right, j);
      PrefixHashedRight(H, left, right, m, j);
    }
  }

  lemma WholeHashed(H: Sha512, leaves: seq<Digest>)
    requires leaves != []
    ensures PrefixHashed(H, leaves, |leaves|)
  {
    assert leaves[..|leaves|] == leaves;
  }

  /** Two trees make the tree over both. */
  predicate AreHalves(left: seq<Digest>, right: seq<Digest>) {
    right != [] && left != [] && |left| == SplitPoint(|left| + |right|)
  }

  lemma JoinedTreeQueries(H: Sha512, leaves: seq<Digest>, left: seq<Digest>, right: seq<Digest>)
    requires |leaves| > 1 && |left| == SplitPoint(|leaves|) && leaves == left + right
    ensures MadeOf(TreeQueries(H, leaves), TreeQueries(H, left), TreeQueries(H, right),
                   NodePreimage(MerkleRoot(H, left), MerkleRoot(H, right)))
  {
    DropFront(left, right);
  }

  lemma HalvesQueries(H: Sha512, left: seq<Digest>, right: seq<Digest>)
    requires AreHalves(left, right)
    ensures MadeOf(TreeQueries(H, left + right), TreeQueries(H, left), TreeQueries(H, right),
                   NodePreimage(MerkleRoot(H, left), MerkleRoot(H, right)))
  {
    JoinedTreeQueries(H, left + right, left, right);
  }

  lemma PrefixHashedLeft(H: Sha512, left: seq<Digest>, right: seq<Digest>, m: nat)
    requires AreHalves(left, right) && 0 < m <= |left| && PrefixHashed(H, left, m)
    ensures PrefixHashed(H, left + right, m)
  {
    assert (left + right)[..m] == left[..m];
    HalvesQueries(H, left, right);
    OldHeadQueriesLeft(H, left, right, m);
  }

  lemma {:induction false} OldHeadQueriesLeft(H: Sha512, left: seq<Digest>, right: seq<Digest>, m: nat)
    requires AreHalves(left, right) && 0 < m <= |left|
    ensures OldHeadQueries(H, left + right, m) == OldHeadQueries(H, left, m)
  {
    DropFront(left, right);
    SharedPathReachesHeads(H, left, m);
    FoldOldQueriesSnoc(H, OldRoute(m, |left|), Right, SharedNode(H, left, m), SharedPath(H, left, m),
                       MerkleRoot(H, right));
  }

  lemma PrefixHashedRight(H: Sha512, left: seq<Digest>, right: seq<Digest>, m: nat, j: nat)
    requires AreHalves(left, right) && 0 < j < |right| && m == |left| + j && PrefixHashed(H, right, j)
    ensures PrefixHashed(H, left + right, m)
  {
    PrefixTreeQueries(H, left, right, m, j);
    HalvesQueries(H, left, right);
    OldHeadQueriesRight(H, left, right, m, j);
    OneMoreQuery(
      TreeQueries(H, (left + right)[..m]), TreeQueries(H, left + right), OldHeadQueries(H, left + right, m),
      TreeQueries(H, left), TreeQueries(H, right[..j]), TreeQueries(H, right), OldHeadQueries(H, right, j),
      NodePreimage(MerkleRoot(H, left), MerkleRoot(H, right[..j])),
      NodePreimage(MerkleRoot(H, left), MerkleRoot(H, right)));
  }

  lemma OneMoreQuery<T>(prefix: set<T>, all: set<T>, onPath: set<T>,
                        left: set<T>, inner: set<T>, right: set<T>, below: set<T>, x: T, y: T)
    requires MadeOf(prefix, left, inner, x) && MadeOf(all, left, right, y) && MadeOf(onPath, {}, below, x)
    requires Covered(inner, right, below)
    ensures Covered(prefix, all, onPath)
  {
  }

  lemma PrefixTreeQueries(H: Sha512, left: seq<Digest>, right: seq<Digest>, m: nat, j: nat)
    requires AreHalves(left, right) && 0 < j < |right| && m == |left| + j
    ensures MadeOf(TreeQueries(H, (left + right)[..m]), TreeQueries(H, left), TreeQueries(H, right[..j]),
                   NodePreimage(MerkleRoot(H, left), MerkleRoot(H, right[..j])))
  {
    assert (left + right)[..m] == left + right[..j];
    SplitPointSame(m, |left| + |right|);
    JoinedTreeQueries(H, (left + right)[..m], left, right[..j]);
  }

  lemma OldHeadQueriesRight(H: Sha512, left: seq<Digest>, right: seq<Digest>, m: nat, j: nat)
    requires AreHalves(left, right) && 0 < j < |right| && m == |left| + j
    ensures MadeOf(OldHeadQueries(H, left + right, m), {}, OldHeadQueries(H, right, j),
                   NodePreimage(MerkleRoot(H, left), MerkleRoot(H, right[..j])))
  {
    DropFront(left, right);
    SharedGoesRight(H, left + right, |left|, j);
    SharedPathReachesHeads(H, right, j);
    FoldOldQueriesSnoc(H, OldRoute(j, |right|), Left, SharedNode(H, right, j), SharedPath(H, right, j),
                       MerkleRoot(H, left));
  }

  lemma FoldOldQueriesSnoc(H: Sha512, sides: seq<Side>, side: Side, r: Digest, proof: seq<Digest>, p: Digest)
    requires |sides| == |proof|
    ensures FoldOldQueries(H, sides + [side], r, proof + [p]) == FoldOldQueries(H, sides, r, proof) +
            if side.Left? then {NodePreimage(p, FoldOld(H, sides, r, proof).value)} else {}
  {
    assert (sides + [side])[..|sides|] == sides && (proof + [p])[..|sides|] == proof;
  }

  /** Every generated proof is accepted, whatever the hash function. */
  lemma ConsistencyComplete(H: Sha512, leaves: seq<Digest>, oldSize: nat)
    requires 0 < oldSize <= |leaves|
    ensures Consistent(H, oldSize, |leaves|, MerkleRoot(H, leaves[..oldSize]), MerkleRoot(H, leaves),
                       ConsistencyProof(H, leaves, oldSize).value)
  {
    if oldSize < |leaves| {
      CompleteSubproof(H, leaves, oldSize);
      SharedPathReachesHeads(H, leaves, oldSize);
      SeedOfSubproof(H, leaves, oldSize);
    } else {
      assert leaves[..oldSize] == leaves;
    }
  }

  lemma {:induction false} SeedOfSubproof(H: Sha512, leaves: seq<Digest>, m: nat)
    requires 0 < m < |leaves|
    ensures Seed(m, MerkleRoot(H, leaves[..m]), Subproof(H, leaves, m, true)) ==
            Some((SharedNode(H, leaves, m), SharedPath(H, leaves, m)))
  {
    CompleteSubproof(H, leaves, m);
    assert [] + SharedPath(H, leaves, m) == SharedPath(H, leaves, m);
  }

  /** Only the new tree has to be known: against its head, whatever is claimed as the old head
      is accepted exactly if it is the head of the prefix and the proof is the generated one. */
  lemma {:induction false} OldHeadExact(H: Sha512, newer: seq<Digest>, m: nat, oldRoot: Digest, proof: seq<Digest>)
    requires 0 < m <= |newer| ==>
      InjectiveOn(H, TreeQueries(H, newer) + ConsistencyQueries(H, m, |newer|, oldRoot, proof))
    ensures Consistent(H, m, |newer|, oldRoot, MerkleRoot(H, newer), proof) <==>
            0 < m <= |newer| && oldRoot == MerkleRoot(H, newer[..m]) && Some(proof) == ConsistencyProof(H, newer, m)
  {
    if 0 < m <= |newer| {
      ConsistencyComplete(H, newer, m);
    }
    if Consistent(H, m, |newer|, oldRoot, MerkleRoot(H, newer), proof) {
      OnlyPrefixAccepted(H, newer, m, oldRoot, proof);
    }
  }

  lemma {:induction false} OnlyPrefixAccepted(
    H: Sha512, newer: seq<Digest>, m: nat, oldRoot: Digest, proof: seq<Digest>)
    requires Consistent(H, m, |newer|, oldRoot, MerkleRoot(H, newer), proof)
    requires InjectiveOn(H, TreeQueries(H, newer) + ConsistencyQueries(H, m, |newer|, oldRoot, proof))
    ensures oldRoot == MerkleRoot(H, newer[..m]) && proof == Subproof(H, newer, m, true)
  {
    if m == |newer| {
      assert newer[..m] == newer;
    } else {
      var (r, rest) := Seed(m, oldRoot, proof).value;
      OnlySharedPath(H, newer, m, r, rest, TreeQueries(H, newer) + ConsistencyQueries(H, m, |newer|, oldRoot, proof));
      SharedPathReachesHeads(H, newer, m);
      CompleteSubproof(H, newer, m);
      assert proof == if IsPowerOfTwo(m) then [] + rest else [r] + rest;
    }
  }

  /** Append-only: between the heads of two leaf lists exactly one proof is ever accepted, and
      only when the older list is a prefix of the newer one. */
  lemma {:induction false} ConsistencyExact(H: Sha512, older: seq<Digest>, newer: seq<Digest>, proof: seq<Digest>)
    requires 0 < |older| <= |newer| ==>
      InjectiveOn(H, TreeQueries(H, older) + TreeQueries(H, newer) +
                     ConsistencyQueries(H, |older|, |newer|, MerkleRoot(H, older), proof))
    ensures Consistent(H, |older|, |newer|, MerkleRoot(H, older), MerkleRoot(H, newer), proof) <==>
            0 < |older| && older <= newer && Some(proof) == ConsistencyProof(H, newer, |older|)
  {
    if 0 < |older| && older <= newer {
      assert newer[..|older|] == older;
    }
    if 0 < |older| <= |newer| {
      OldHeadExact(H, newer, |older|, MerkleRoot(H, older), proof);
      if Consistent(H, |older|, |newer|, MerkleRoot(H, older), MerkleRoot(H, newer), proof) {
        OneHeadOnePrefix(H, older, newer, proof);
      }
    }
  }

  /** The head of a prefix names the prefix. */
  lemma {:induction false} OneHeadOnePrefix(H: Sha512, older: seq<Digest>, newer: seq<Digest>, proof: seq<Digest>)
    requires 0 < |older| <= |newer| && MerkleRoot(H, older) == MerkleRoot(H, newer[..|older|])
    requires proof == Subproof(H, newer, |older|, true)
    requires InjectiveOn(H, TreeQueries(H, older) + TreeQueries(H, newer) +
                            ConsistencyQueries(H, |older|, |newer|, MerkleRoot(H, older), proof))
    ensures older == newer[..|older|]
  {
    var m := |older|;
    var queries := TreeQueries(H, older) + TreeQueries(H, newer) +
                   ConsistencyQueries(H, m, |newer|, MerkleRoot(H, older), proof);
    if m == |newer| {
      assert newer[..m] == newer;
    } else {
      SeedOfSubproof(H, newer, m);
      PrefixQueries(H, newer, m);
    }
    MerkleRootInjective(H, older, newer[..m], queries);
  }
}
