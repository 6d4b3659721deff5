/** The append-only log tree: tree heads and proofs by structural recursion at the largest
    power of two below the size, and what its leaves and published checkpoints commit to. */
module MerkleLog {
  import opened Hashing
  import opened Sequences
  import opened SplitPoints
  import opened Wrappers
  import opened Hex
  import opened Encoding
  import opened Json
  import opened NulText

  // ----- hashing ------------------------------------------------------------------------

  function NodePreimage(left: Digest, right: Digest): Bytes {
    ['\U{01}'] + left.bytes + right.bytes
  }

  function NodeHash(H: Sha512, left: Digest, right: Digest): Digest {
    H(NodePreimage(left, right))
  }

  lemma NodePreimageBinds(a: Digest, b: Digest, c: Digest, d: Digest)
    requires NodePreimage(a, b) == NodePreimage(c, d)
    ensures a == c && b == d
  {
    assert NodePreimage(a, b)[1..65] == a.bytes && NodePreimage(c, d)[1..65] == c.bytes;
    assert NodePreimage(a, b)[65..] == b.bytes && NodePreimage(c, d)[65..] == d.bytes;
  }

  /** A node's bytes by place: the tag, the left child, the right child. */
  lemma NodeByPlace(left: Digest, right: Digest)
    ensures var node := NodePreimage(left, right);
            |node| == 129 && node[0] == '\U{01}' && node[1..65] == left.bytes && node[65..] == right.bytes
  {
  }

  lemma NodeHashInjective(H: Sha512, queries: set<Bytes>, a: Digest, b: Digest, c: Digest, d: Digest)
    requires InjectiveOn(H, queries)
    requires NodePreimage(a, b) in queries && NodePreimage(c, d) in queries
    requires NodeHash(H, a, b) == NodeHash(H, c, d)
    ensures a == c && b == d
  {
    Collide(H, queries, NodePreimage(a, b), NodePreimage(c, d));
    NodePreimageBinds(a, b, c, d);
  }

  // ----- tree heads and proofs by recursion ---------------------------------------------

  function MerkleRoot(H: Sha512, leaves: seq<Digest>): Digest
    decreases |leaves|
  {
    if |leaves| == 0 then H([])
    else if |leaves| == 1 then leaves[0]
    else
      var k := SplitPoint(|leaves|);
      NodeHash(H, MerkleRoot(H, leaves[..k]), MerkleRoot(H, leaves[k..]))
  }

  /** Every byte string `MerkleRoot` hashes over a non-empty leaf list. */
  ghost function TreeQueries(H: Sha512, leaves: seq<Digest>): set<Bytes>
    decreases |leaves|
  {
    if |leaves| <= 1 then {}
    else
      var k := SplitPoint(|leaves|);
      TreeQueries(H, leaves[..k]) + TreeQueries(H, leaves[k..]) +
      {NodePreimage(MerkleRoot(H, leaves[..k]), MerkleRoot(H, leaves[k..]))}
  }

  /** The audit path of leaf `m`, bottom sibling first. */
  function Path(H: Sha512, leaves: seq<Digest>, m: nat): seq<Digest>
    requires m < |leaves|
    decreases |leaves|
  {
    if |leaves| <= 1 then []
    else
      var k := SplitPoint(|leaves|);
      if m < k then Path(H, leaves[..k], m) + [MerkleRoot(H, leaves[k..])]
      else Path(H, leaves[k..], m - k) + [MerkleRoot(H, leaves[..k])]
  }

  /** The consistency proof from the first `m` leaves; `complete` while the walk has only
      gone left, so that the old root itself need not be sent. */
  function Subproof(H: Sha512, leaves: seq<Digest>, m: nat, complete: bool): seq<Digest>
    requires 0 < m <= |leaves|
    decreases |leaves|
  {
    if m == |leaves| then
      if complete then [] else [MerkleRoot(H, leaves)]
    else
      var k := SplitPoint(|leaves|);
      if m <= k then Subproof(H, leaves[..k], m, complete) + [MerkleRoot(H, leaves[k..])]
      else Subproof(H, leaves[k..], m - k, false) + [MerkleRoot(H, leaves[..k])]
  }

  /** The head over two leaves, and over none. */
  lemma HeadOfTwo(H: Sha512, a: Digest, b: Digest)
    ensures MerkleRoot(H, [a, b]) == H(['\U{01}'] + a.bytes + b.bytes) && MerkleRoot(H, []) == H([])
  {
    assert [a, b][..1] == [a] && [a, b][1..] == [b];
  }

  /** Lists of one length with one head are the same list. */
  lemma {:induction false} MerkleRootInjective(H: Sha512, a: seq<Digest>, b: seq<Digest>, queries: set<Bytes>)
    requires |a| == |b|
    requires InjectiveOn(H, queries) && TreeQueries(H, a) + TreeQueries(H, b) <= queries
    requires MerkleRoot(H, a) == MerkleRoot(H, b)
    ensures a == b
    decreases |a|
  {
    if |a| > 1 {
      var k := SplitPoint(|a|);
      NodeHashInjective(H, queries, MerkleRoot(H, a[..k]), MerkleRoot(H, a[k..]),
                        MerkleRoot(H, b[..k]), MerkleRoot(H, b[k..]));
      MerkleRootInjective(H, a[..k], b[..k], queries);
      MerkleRootInjective(H, a[k..], b[k..], queries);
      SplitInTwo(a, k);
      SplitInTwo(b, k);
    }
  }

  // ----- leaves -------------------------------------------------------------------------

  /** The parts of a signature block a leaf binds. */
  datatype Envelope = Envelope(algorithm: Bytes, keyId: Bytes, publicKey: Bytes, signature: Bytes, pqc: Option<Bytes>)
  {
    function Parts(): seq<Bytes> {
      [algorithm, keyId, publicKey, signature, StrOr(pqc, [])]
    }
  }

  datatype Entry = Entry(finalHash: Bytes, envelope: Envelope)

  predicate IsEntry(e: Entry) {
    AllNulFree(e.envelope.Parts())
  }

  /** Parts fed to a hash one by one, a separator before each but the first. */
  method JoinParts(parts: seq<Bytes>) returns (data: Bytes)
    requires parts != []
    ensures data == Join(parts)
  {
    data := parts[0];
    for i := 1 to |parts|
      invariant data == Join(parts[..i])
    {
      JoinSnoc(parts[..i], parts[i]);
      assert parts[..i + 1] == parts[..i] + [parts[i]];
      data := data + [NUL] + parts[i];
    }
    assert parts[..|parts|] == parts;
  }

  function EnvelopeDigest(H: Sha512, e: Envelope): (h: Bytes)
    ensures |h| == 128
  {
    HashHex(H, Join(e.Parts()))
  }

  function LeafPreimage(H: Sha512, e: Entry): Bytes {
    [NUL] + Pair(e.finalHash, EnvelopeDigest(H, e.envelope))
  }

  function EntryHash(H: Sha512, e: Entry): Digest {
    H(LeafPreimage(H, e))
  }

  method LeafHash(H: Sha512, e: Entry) returns (d: Digest)
    ensures d == EntryHash(H, e)
  {
    var joined := JoinParts(e.envelope.Parts());
    d := H([NUL] + e.finalHash + [NUL] + HashHex(H, joined));
    assert [NUL] + e.finalHash + [NUL] + HashHex(H, joined) == LeafPreimage(H, e);
  }

  /** A leaf's bytes by place: the tag, the final hash, a separator, and the hash of the block's
      five texts in their order. */
  lemma LeafByPlace(H: Sha512, e: Entry)
    ensures
      var leaf, n, block := LeafPreimage(H, e), |e.finalHash|, e.envelope;
      |leaf| == n + 130 && leaf[0] == '\0' && leaf[1..n + 1] == e.finalHash && leaf[n + 1] == '\0' &&
      leaf[n + 2..] == HashHex(H, block.algorithm + [NUL] + block.keyId + [NUL] + block.publicKey + [NUL] +
                                  block.signature + [NUL] + if block.pqc.Some? then block.pqc.value else [])
  {
    var block := e.envelope;
    BlockText(block, if block.pqc.Some? then block.pqc.value else []);
    PlacesOfLeaf(e.finalHash, EnvelopeDigest(H, block));
  }

  lemma PlacesOfLeaf(a: Bytes, b: Bytes)
    ensures var leaf := [NUL] + Pair(a, b);
            |leaf| == |a| + |b| + 2 && leaf[0] == NUL && leaf[1..|a| + 1] == a && leaf[|a| + 1] == NUL &&
            leaf[|a| + 2..] == b
  {
    var leaf := [NUL] + Pair(a, b);
    assert leaf == [NUL] + a + [NUL] + b;
    assert forall i | 0 <= i < |a| :: leaf[i + 1] == a[i];
  }

  lemma BlockText(block: Envelope, pqc: Bytes)
    requires pqc == if block.pqc.Some? then block.pqc.value else []
    ensures Join(block.Parts()) ==
            block.algorithm + [NUL] + block.keyId + [NUL] + block.publicKey + [NUL] + block.signature + [NUL] + pqc
  {
    var one := [block.algorithm];
    JoinSnoc(one, block.keyId);
    JoinSnoc(one + [block.keyId], block.publicKey);
    JoinSnoc(one + [block.keyId] + [block.publicKey], block.signature);
    JoinSnoc(one + [block.keyId] + [block.publicKey] + [block.signature], pqc);
    assert block.Parts() == one + [block.keyId] + [block.publicKey] + [block.signature] + [pqc];
  }

  /** A leaf is never hashed from the bytes a node is hashed from. */
  lemma LeafIsNotNode(H: Sha512, e: Entry, left: Digest, right: Digest)
    ensures LeafPreimage(H, e) != NodePreimage(left, right)
  {
    assert LeafPreimage(H, e)[0] == NUL && NodePreimage(left, right)[0] != NUL;
  }

  ghost function EntryQueries(H: Sha512, e: Entry): set<Bytes> {
    {LeafPreimage(H, e), Join(e.envelope.Parts())}
  }

  /** An absent post-quantum signature and an empty one are not told apart. */
  function Settled(e: Entry): Entry {
    e.(envelope := e.envelope.(pqc := Some(StrOr(e.envelope.pqc, []))))
  }

  /** A second part of known length ends a first part that may hold separators. */
  lemma FixedTail(a: Bytes, b: Bytes, c: Bytes, d: Bytes)
    requires |b| == |d| && Pair(a, b) == Pair(c, d)
    ensures a == c && b == d
  {
    var s, t := Pair(a, b), Pair(c, d);
    assert |a| == |c|;
    assert a == s[..|a|] == t[..|c|] == c;
    assert b == s[|a| + 1..] == t[|c| + 1..] == d;
  }

  /** A leaf binds the final hash and the whole signature block. */
  lemma LeafBinds(H: Sha512, q: set<Bytes>, a: Entry, b: Entry)
    requires IsEntry(a) && IsEntry(b) && InjectiveOn(H, q) && EntryQueries(H, a) <= q && EntryQueries(H, b) <= q
    ensures EntryHash(H, a) == EntryHash(H, b) <==> Settled(a) == Settled(b)
  {
    assert a.envelope.Parts() == Settled(a).envelope.Parts() && b.envelope.Parts() == Settled(b).envelope.Parts();
    if EntryHash(H, a) == EntryHash(H, b) {
      Collide(H, q, LeafPreimage(H, a), LeafPreimage(H, b));
      assert LeafPreimage(H, a)[1..] == LeafPreimage(H, b)[1..];
      FixedTail(a.finalHash, EnvelopeDigest(H, a.envelope), b.finalHash, EnvelopeDigest(H, b.envelope));
      HashHexInjective(H, q, Join(a.envelope.Parts()), Join(b.envelope.Parts()));
      JoinInjective(a.envelope.Parts(), b.envelope.Parts());
    }
  }

  // ----- checkpoints --------------------------------------------------------------------

  datatype Checkpoint = Checkpoint(
    version: Bytes, algorithm: Bytes, treeSize: nat, rootHash: Bytes, prevRootHash: Bytes, issuedAt: Bytes)
  {
    function Parts(): seq<Bytes> {
      [version, algorithm, Decimal(treeSize), rootHash, prevRootHash, issuedAt]
    }
  }

  function Assemble(H: Sha512, leaves: seq<Digest>, prevRootHash: Bytes, issuedAt: Bytes): Checkpoint {
    Checkpoint("1", "sha512", |leaves|, PREFIX + HexOf(MerkleRoot(H, leaves)), prevRootHash, issuedAt)
  }

  method SignedPayload(c: Checkpoint) returns (payload: Bytes)
    ensures payload == Join(c.Parts())
  {
    payload := JoinParts(c.Parts());
  }

  /** What an assembled checkpoint signs, part by part. */
  lemma AssembledParts(H: Sha512, leaves: seq<Digest>, prevRootHash: Bytes, issuedAt: Bytes)
    ensures Assemble(H, leaves, prevRootHash, issuedAt).Parts() ==
            ["1", "sha512", Decimal(|leaves|), "sha512:" + HexOf(MerkleRoot(H, leaves)), prevRootHash, issuedAt]
  {
  }

  /** Signed bytes name one checkpoint. */
  lemma PayloadBinds(a: Checkpoint, b: Checkpoint)
    requires AllNulFree(a.Parts()) && AllNulFree(b.Parts())
    ensures Join(a.Parts()) == Join(b.Parts()) <==> a == b
  {
    var p, q := a.Parts(), b.Parts();
    if Join(p) == Join(q) {
      JoinInjective(p, q);
      assert p[0] == q[0] && p[1] == q[1] && p[2] == q[2] && p[3] == q[3] && p[4] == q[4] && p[5] == q[5];
      DecimalInjective(a.treeSize, b.treeSize);
    }
  }

  /** The signed bytes of a checkpoint name one log. */
  lemma CheckpointBindsLog(
    H: Sha512, a: seq<Digest>, prevA: Bytes, atA: Bytes, b: seq<Digest>, prevB: Bytes, atB: Bytes)
    requires AllNulFree(Assemble(H, a, prevA, atA).Parts()) && AllNulFree(Assemble(H, b, prevB, atB).Parts())
    requires InjectiveOn(H, TreeQueries(H, a) + TreeQueries(H, b))
    requires Join(Assemble(H, a, prevA, atA).Parts()) == Join(Assemble(H, b, prevB, atB).Parts())
    ensures a == b && prevA == prevB && atA == atB
  {
    var c, d := Assemble(H, a, prevA, atA), Assemble(H, b, prevB, atB);
    PayloadBinds(c, d);
    StripPrefixed(HexOf(MerkleRoot(H, a)));
    StripPrefixed(HexOf(MerkleRoot(H, b)));
    HexOfInjective(MerkleRoot(H, a), MerkleRoot(H, b));
    MerkleRootInjective(H, a, b, TreeQueries(H, a) + TreeQueries(H, b));
  }
}
