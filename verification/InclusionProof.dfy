/** Inclusion proofs: the recursive audit path, and the iterative verifier that shifts the
    node numbers `fnode` and `snode` up one level per round. */
module InclusionProof {
  import opened Wrappers
  import opened Hashing
  import opened SplitPoints
  import opened MerkleLog

  function InclusionProof(H: Sha512, leaves: seq<Digest>, index: nat): Option<seq<Digest>> {
    if index >= |leaves| then None else Some(Path(H, leaves, index))
  }

  // ----- folding a proof along a route --------------------------------------------------

  function JoinPreimage(side: Side, r: Digest, p: Digest): Bytes {
    match side
    case Left => NodePreimage(p, r)
    case Right => NodePreimage(r, p)
  }

  /** The head reached from `r` when the siblings in `proof` stand on the given sides; `None`
      when there are too few or too many of them. */
  function Fold(H: Sha512, sides: seq<Side>, r: Digest, proof: seq<Digest>): (head: Option<Digest>)
    ensures head.Some? <==> |sides| == |proof|
    decreases |sides|
  {
    if |sides| != |proof| then None
    else if sides == [] then Some(r)
    else
      var top := |sides| - 1;
      Some(H(JoinPreimage(sides[top], Fold(H, sides[..top], r, proof[..top]).value, proof[top])))
  }

  /** Every byte string `Fold` hashes. */
  ghost function FoldQueries(H: Sha512, sides: seq<Side>, r: Digest, proof: seq<Digest>): set<Bytes>
    decreases |sides|
  {
    if |sides| != |proof| || sides == [] then {}
    else
      var top := |sides| - 1;
      FoldQueries(H, sides[..top], r, proof[..top]) +
      {JoinPreimage(sides[top], Fold(H, sides[..top], r, proof[..top]).value, proof[top])}
  }

  lemma {:induction false} FoldFront(H: Sha512, side: Side, sides: seq<Side>, r: Digest, p: Digest, proof: seq<Digest>)
    ensures Fold(H, [side] + sides, r, [p] + proof) == Fold(H, sides, H(JoinPreimage(side, r, p)), proof)
    decreases |sides|
  {
    if |sides| == |proof| {
      if sides == [] {
        assert [side] + sides == [side] && [p] + proof == [p];
        assert Fold(H, [side][..0], r, [p][..0]) == Some(r);
      } else {
        var top := |sides| - 1;
        FoldFront(H, side, sides[..top], r, p, proof[..top]);
        assert ([side] + sides)[..top + 1] == [side] + sides[..top];
        assert ([p] + proof)[..top + 1] == [p] + proof[..top];
      }
    }
  }

  lemma FoldSnoc(H: Sha512, sides: seq<Side>, side: Side, r: Digest, proof: seq<Digest>, p: Digest)
    requires |sides| == |proof|
    ensures Fold(H, sides + [side], r, proof + [p]) == Some(H(JoinPreimage(side, Fold(H, sides, r, proof).value, p)))
    ensures FoldQueries(H, sides + [side], r, proof + [p]) ==
            FoldQueries(H, sides, r, proof) + {JoinPreimage(side, Fold(H, sides, r, proof).value, p)}
  {
    assert (sides + [side])[..|sides|] == sides && (proof + [p])[..|sides|] == proof;
  }

  // ----- the verifier -------------------------------------------------------------------

  predicate Included(H: Sha512, leaf: Digest, index: nat, size: nat, proof: seq<Digest>, root: Digest) {
    index < size && Fold(H, Route(index, size), leaf, proof) == Some(root)
  }

  method VerifyInclusion(H: Sha512, leaf: Digest, index: nat, treeSize: nat, proof: seq<Digest>, root: Digest)
    returns (ok: bool)
    ensures ok <==> Included(H, leaf, index, treeSize, proof, root)
  {
    if index >= treeSize {
      return false;
    }
    BitsAreRoute(index, treeSize - 1);
    var fnode: nat, snode: nat, r := index, treeSize - 1, leaf;
    for i := 0 to |proof|
      invariant fnode <= snode
      invariant Fold(H, Bits(fnode, snode), r, proof[i..]) == Fold(H, Route(index, treeSize), leaf, proof)
    {
      var p := proof[i];
      assert proof[i..] == [p] + proof[i + 1..];
      if snode == 0 {
        return false;
      }
      ghost var sides := Bits(fnode / 2, snode / 2);
      if fnode % 2 == 1 || fnode == snode {
        ghost var r0 := r;
        r := NodeHash(H, p, r);
        if fnode % 2 == 0 {
          while fnode % 2 == 0 && fnode != 0
            invariant 0 < fnode == snode
            invariant Fold(H, Bits(fnode, snode), r0, [p] + proof[i + 1..]) ==
                      Fold(H, Route(index, treeSize), leaf, proof)
            decreases fnode
          {
            fnode := fnode / 2;
            snode := snode / 2;
          }
        }
        FoldFront(H, Left, Bits(fnode / 2, snode / 2), r0, p, proof[i + 1..]);
      } else {
        FoldFront(H, Right, Bits(fnode / 2, snode / 2), r, p, proof[i + 1..]);
        r := NodeHash(H, r, p);
      }
      fnode := fnode / 2;
      snode := snode / 2;
    }
    LoneNodes(fnode, snode);
    ok := snode == 0 && r == root;
  }

  /** Below the head a climb always has a sibling ahead. */
  lemma {:induction false} LoneNodes(f: nat, s: nat)
    requires f <= s
    ensures Bits(f, s) == [] <==> s == 0
    decreases s
  {
    if s > 0 {
      LoneNodes(f / 2, s / 2);
    }
  }

  // ----- completeness and exactness -----------------------------------------------------

  lemma {:induction false} PathReachesRoot(H: Sha512, leaves: seq<Digest>, m: nat)
    requires m < |leaves|
    ensures Fold(H, Route(m, |leaves|), leaves[m], Path(H, leaves, m)) == Some(MerkleRoot(H, leaves))
    decreases |leaves|
  {
    if |leaves| > 1 {
      var k := SplitPoint(|leaves|);
      var left, right := leaves[..k], leaves[k..];
      if m < k {
        PathReachesRoot(H, left, m);
        FoldSnoc(H, Route(m, k), Right, leaves[m], Path(H, left, m), MerkleRoot(H, right));
      } else {
        PathReachesRoot(H, right, m - k);
        FoldSnoc(H, Route(m - k, |right|), Left, leaves[m], Path(H, right, m - k), MerkleRoot(H, left));
      }
    }
  }

  /** When a fold ends in a known node, its last step joins that node's two children. */
  lemma FoldTopExact(H: Sha512, sides: seq<Side>, side: Side, r: Digest, proof: seq<Digest>,
                     left: Digest, right: Digest, queries: set<Bytes>)
      returns (rest: seq<Digest>)
    requires InjectiveOn(H, queries) && NodePreimage(left, right) in queries
    requires FoldQueries(H, sides + [side], r, proof) <= queries
    requires Fold(H, sides + [side], r, proof) == Some(NodeHash(H, left, right))
    ensures proof == rest + [if side.Left? then left else right]
    ensures Fold(H, sides, r, rest) == Some(if side.Left? then right else left)
    ensures FoldQueries(H, sides, r, rest) <= queries
  {
    rest := proof[..|sides|];
    var p := proof[|sides|];
    assert proof == rest + [p];
    FoldSnoc(H, sides, side, r, rest, p);
    var below := Fold(H, sides, r, rest).value;
    if side.Left? {
      NodeHashInjective(H, queries, p, below, left, right);
    } else {
      NodeHashInjective(H, queries, below, p, left, right);
    }
  }

  lemma {:induction false} OnlyPathReachesRoot(
    H: Sha512, leaves: seq<Digest>, m: nat, r: Digest, proof: seq<Digest>, queries: set<Bytes>)
    requires m < |leaves| && InjectiveOn(H, queries)
    requires TreeQueries(H, leaves) <= queries && FoldQueries(H, Route(m, |leaves|), r, proof) <= queries
    requires Fold(H, Route(m, |leaves|), r, proof) == Some(MerkleRoot(H, leaves))
    ensures r == leaves[m] && proof == Path(H, leaves, m)
    decreases |leaves|, 1
  {
    if |leaves| > 1 {
      var k := SplitPoint(|leaves|);
      if m < k {
        OnlyPathLeft(H, leaves, m, r, proof, queries);
      } else {
        assert k + (m - k) == m;
        OnlyPathRight(H, leaves, k, m - k, r, proof, queries);
      }
    }
  }

  lemma {:induction false} OnlyPathLeft(
    H: Sha512, leaves: seq<Digest>, m: nat, r: Digest, proof: seq<Digest>, queries: set<Bytes>)
    requires |leaves| > 1 && m < SplitPoint(|leaves|) && InjectiveOn(H, queries)
    requires TreeQueries(H, leaves) <= queries && FoldQueries(H, Route(m, |leaves|), r, proof) <= queries
    requires Fold(H, Route(m, |leaves|), r, proof) == Some(MerkleRoot(H, leaves))
    ensures r == leaves[m] && proof == Path(H, leaves, m)
    decreases |leaves|, 0
  {
    var k := SplitPoint(|leaves|);
    var left, right := leaves[..k], leaves[k..];
    var rest := FoldTopExact(H, Route(m, k), Right, r, proof, MerkleRoot(H, left), MerkleRoot(H, right), queries);
    OnlyPathReachesRoot(H, left, m, r, rest, queries);
  }

  lemma {:induction false} OnlyPathRight(
    H: Sha512, leaves: seq<Digest>, k: nat, m: nat, r: Digest, proof: seq<Digest>, queries: set<Bytes>)
    requires |leaves| > 1 && k == SplitPoint(|leaves|) && k + m < |leaves| && InjectiveOn(H, queries)
    requires TreeQueries(H, leaves) <= queries && FoldQueries(H, Route(k + m, |leaves|), r, proof) <= queries
    requires Fold(H, Route(k + m, |leaves|), r, proof) == Some(MerkleRoot(H, leaves))
    ensures r == leaves[k + m] && proof == Path(H, leaves, k + m)
    decreases |leaves|, 0
  {
    var left, right := leaves[..k], leaves[k..];
    RouteGoesRight(k, m, |leaves|);
    var rest := FoldTopExact(H, Route(m, |right|), Left, r, proof, MerkleRoot(H, left), MerkleRoot(H, right), queries);
    OnlyPathReachesRoot(H, right, m, r, rest, queries);
  }

  /** Every generated proof is accepted, whatever the hash function. */
  lemma {:induction false} InclusionComplete(H: Sha512, leaves: seq<Digest>, index: nat)
    requires index < |leaves|
    ensures Included(H, leaves[index], index, |leaves|, InclusionProof(H, leaves, index).value, MerkleRoot(H, leaves))
  {
    PathReachesRoot(H, leaves, index);
  }

  /** Against the head of `leaves`, the leaf at `index` with its generated proof is the only
      leaf and the only proof that is accepted. */
  lemma InclusionExact(H: Sha512, leaves: seq<Digest>, leaf: Digest, index: nat, proof: seq<Digest>)
    requires index < |leaves| ==>
      InjectiveOn(H, TreeQueries(H, leaves) + FoldQueries(H, Route(index, |leaves|), leaf, proof))
    ensures Included(H, leaf, index, |leaves|, proof, MerkleRoot(H, leaves)) <==>
            index < |leaves| && leaf == leaves[index] && Some(proof) == InclusionProof(H, leaves, index)
  {
    if index < |leaves| {
      PathReachesRoot(H, leaves, index);
      if Included(H, leaf, index, |leaves|, proof, MerkleRoot(H, leaves)) {
        OnlyPathReachesRoot(H, leaves, index, leaf, proof,
          TreeQueries(H, leaves) + FoldQueries(H, Route(index, |leaves|), leaf, proof));
      }
    }
  }
}
