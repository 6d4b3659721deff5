/** The tree over receipts, parents and activity lines: pairs joined by a NUL, an odd last node
    paired with itself, no leaf tag. Hashes travel as lower-case hex text. */
module ReceiptTree {
  import opened Wrappers
  import opened Hashing
  import opened Hex
  import opened NulText
  import opened Sequences

  function PairPreimage(left: Bytes, right: Bytes): Bytes {
    Pair(Strip(left), Strip(right))
  }

  function PairHash(H: Sha512, left: Bytes, right: Bytes): (h: Bytes)
    ensures |h| == 128 && IsLowerHex(h)
  {
    HashHex(H, PairPreimage(left, right))
  }

  // ----- the tree -----------------------------------------------------------------------

  /** Half of `n`, rounded up. */
  function Half(n: nat): (h: nat)
    ensures 2 * h - 1 <= n <= 2 * h
  {
    (n + 1) / 2
  }

  /** What pair `up` of a level hashes; an odd last node is paired with itself. */
  function PairOf(level: seq<Bytes>, up: nat): Bytes
    requires 2 * up < |level|
  {
    PairPreimage(level[2 * up], if 2 * up + 1 < |level| then level[2 * up + 1] else level[2 * up])
  }

  /** The level above. */
  function Above(H: Sha512, level: seq<Bytes>): (next: seq<Bytes>)
    ensures 2 * |next| - 1 <= |level| <= 2 * |next|
    ensures forall up | 0 <= up < |next| :: next[up] == HashHex(H, PairOf(level, up))
  {
    seq(Half(|level|), up requires 0 <= up < Half(|level|) => HashHex(H, PairOf(level, up)))
  }

  function Top(H: Sha512, level: seq<Bytes>): Bytes
    requires level != []
    decreases |level|
  {
    if |level| == 1 then level[0] else Top(H, Above(H, level))
  }

  function StripAll(leaves: seq<Bytes>): (level: seq<Bytes>)
    ensures |level| == |leaves| && forall i | 0 <= i < |leaves| :: level[i] == Strip(leaves[i])
  {
    seq(|leaves|, i requires 0 <= i < |leaves| => Strip(leaves[i]))
  }

  /** The root of a leaf list; a single leaf is its own root. */
  function Root(H: Sha512, leaves: seq<Bytes>): Option<Bytes> {
    if leaves == [] then None else Some(Top(H, StripAll(leaves)))
  }

  /** The root over two leaves: the first, a separator, the second, each without its prefix. */
  lemma RootOfTwo(H: Sha512, a: Bytes, b: Bytes)
    requires !(PREFIX <= Strip(a)) && !(PREFIX <= Strip(b))
    ensures Root(H, [a, b]) == Some(HashHex(H, Strip(a) + ['\0'] + Strip(b)))
  {
    var level := StripAll([a, b]);
    var next := Above(H, level);
    assert PairOf(level, 0) == Strip(a) + [NUL] + Strip(b);
    assert |next| == 1 && next[0] == HashHex(H, PairOf(level, 0));
    assert Top(H, level) == Top(H, next) == next[0];
  }

  predicate PairsHashed(H: Sha512, level: seq<Bytes>, next: seq<Bytes>) {
    2 * |next| <= |level| + 1 && forall up: nat | up < |next| :: next[up] == HashHex(H, PairOf(level, up))
  }

  lemma OneMorePair(H: Sha512, level: seq<Bytes>, next: seq<Bytes>, right: nat)
    requires PairsHashed(H, level, next) && 2 * |next| < |level|
    requires right == if 2 * |next| + 1 < |level| then 2 * |next| + 1 else 2 * |next|
    ensures PairsHashed(H, level, next + [PairHash(H, level[2 * |next|], level[right])])
  {
    var n, longer := |next|, next + [PairHash(H, level[2 * |next|], level[right])];
    assert PairOf(level, n) == PairPreimage(level[2 * n], level[right]);
    forall up: nat | up < |longer| ensures longer[up] == HashHex(H, PairOf(level, up)) {
      assert up < n ==> longer[up] == next[up];
    }
  }

  lemma AllPairsHashed(H: Sha512, level: seq<Bytes>, next: seq<Bytes>)
    requires PairsHashed(H, level, next) && |level| <= 2 * |next|
    ensures next == Above(H, level)
  {
  }

  method NextLevel(H: Sha512, level: seq<Bytes>) returns (next: seq<Bytes>)
    ensures next == Above(H, level)
  {
    next := [];
    var i := 0;
    while i < |level|
      invariant i == if 2 * |next| <= |level| then 2 * |next| else |level|
      invariant PairsHashed(H, level, next)
    {
      if i + 1 < |level| {
        OneMorePair(H, level, next, i + 1);
        next := next + [PairHash(H, level[i], level[i + 1])];
        i := i + 2;
      } else {
        OneMorePair(H, level, next, i);
        next := next + [PairHash(H, level[i], level[i])];
        i := i + 1;
      }
    }
    AllPairsHashed(H, level, next);
  }

  method MerkleRoot(H: Sha512, leaves: seq<Bytes>) returns (root: Option<Bytes>)
    ensures root == Root(H, leaves)
  {
    if |leaves| == 0 {
      return None;
    }
    if |leaves| == 1 {
      return Some(Strip(leaves[0]));
    }
    var level := StripAll(leaves);
    while |level| > 1
      invariant level != [] && Top(H, level) == Top(H, StripAll(leaves))
      decreases |level|
    {
      level := NextLevel(H, level);
    }
    root := Some(level[0]);
  }

  // ----- inclusion proofs ---------------------------------------------------------------

  /** The node paired with node `i`; the odd last node is its own sibling. */
  function SiblingAt(level: seq<Bytes>, i: nat): Bytes
    requires i < |level|
  {
    if i % 2 == 1 then level[i - 1] else if i + 1 < |level| then level[i + 1] else level[i]
  }

  function Siblings(H: Sha512, level: seq<Bytes>, i: nat): seq<Bytes>
    requires i < |level|
    decreases |level|
  {
    if |level| == 1 then [] else [SiblingAt(level, i)] + Siblings(H, Above(H, level), i / 2)
  }

  function Climb(H: Sha512, current: Bytes, i: nat, proof: seq<Bytes>): Bytes
    decreases |proof|
  {
    if proof == [] then current
    else
      var joined := if i % 2 == 0 then PairHash(H, current, proof[0]) else PairHash(H, proof[0], current);
      Climb(H, joined, i / 2, proof[1..])
  }

  /** The sibling the search for it finds. */
  method FindSibling(level: seq<Bytes>, idx: nat) returns (sibling: Bytes)
    requires idx < |level|
    ensures sibling == SiblingAt(level, idx)
  {
    var siblingIdx := idx;
    if idx % 2 == 0 {
      if idx + 1 < |level| {
        siblingIdx := idx + 1;
      }
    } else {
      siblingIdx := idx - 1;
    }
    sibling := level[siblingIdx];
  }

  lemma OneUp(H: Sha512, level: seq<Bytes>, i: nat, below: seq<Bytes>)
    requires i < |level| && |level| > 1
    ensures i / 2 < |Above(H, level)|
    ensures below + Siblings(H, level, i) == below + [SiblingAt(level, i)] + Siblings(H, Above(H, level), i / 2)
  {
    var rest := Siblings(H, Above(H, level), i / 2);
    Assoc(below, [SiblingAt(level, i)], rest);
  }

  method BuildInclusionProof(H: Sha512, leaves: seq<Bytes>, leafIndex: int) returns (proof: Option<seq<Bytes>>)
    ensures proof == if 0 <= leafIndex < |leaves| then Some(Siblings(H, StripAll(leaves), leafIndex)) else None
  {
    if |leaves| == 0 || leafIndex < 0 || leafIndex >= |leaves| {
      return None;
    }
    if |leaves| == 1 {
      assert Siblings(H, StripAll(leaves), leafIndex) == [];
      return Some([]);
    }
    var idx: nat, level, siblings := leafIndex, StripAll(leaves), [];
    while |level| > 1
      invariant idx < |level|
      invariant siblings + Siblings(H, level, idx) == Siblings(H, StripAll(leaves), leafIndex)
      decreases |level|
    {
      var sibling := FindSibling(level, idx);
      OneUp(H, level, idx, siblings);
      siblings := siblings + [sibling];
      level := NextLevel(H, level);
      idx := idx / 2;
    }
    assert siblings == siblings + Siblings(H, level, idx);
    return Some(siblings);
  }

  function Magnitude(i: int): nat {
    if i < 0 then -i else i
  }

  /** Division that drops the fraction towards zero. */
  function TruncatedHalf(i: int): (h: int)
    ensures Magnitude(h) == Magnitude(i) / 2
  {
    if i < 0 then -(-i / 2) else i / 2
  }

  /** A negative index climbs like its magnitude, since truncation keeps both parity and halves. */
  method VerifyInclusionProof(
    H: Sha512, leaf: Bytes, leafIndex: int, proof: seq<Bytes>, claimedRoot: Bytes) returns (ok: bool)
    ensures ok <==> Climb(H, Strip(leaf), Magnitude(leafIndex), proof) == Strip(claimedRoot)
  {
    if proof == [] {
      return Strip(leaf) == Strip(claimedRoot);
    }
    var current, idx := Strip(leaf), leafIndex;
    for i := 0 to |proof|
      invariant Climb(H, current, Magnitude(idx), proof[i..]) == Climb(H, Strip(leaf), Magnitude(leafIndex), proof)
    {
      assert proof[i..][1..] == proof[i + 1..];
      SameParity(idx);
      if idx % 2 == 0 {
        current := PairHash(H, current, proof[i]);
      } else {
        current := PairHash(H, proof[i], current);
      }
      idx := TruncatedHalf(idx);
    }
    ok := current == Strip(claimedRoot);
  }

  lemma SameParity(i: int)
    ensures i % 2 == 0 <==> Magnitude(i) % 2 == 0
  {
  }

  // ----- round trip ---------------------------------------------------------------------

  lemma HalvesOfIndex(up: nat)
    ensures 2 * up / 2 == up && 2 * up % 2 == 0 && (2 * up + 1) / 2 == up && (2 * up + 1) % 2 == 1
  {
  }

  lemma LeftOrRight(i: nat) returns (up: nat)
    ensures i == 2 * up || i == 2 * up + 1
  {
    up := i / 2;
  }

  lemma SiblingsLeft(H: Sha512, level: seq<Bytes>, up: nat)
    requires |level| > 1 && 2 * up < |level|
    ensures up < |Above(H, level)| && Siblings(H, level, 2 * up) ==
            [if 2 * up + 1 < |level| then level[2 * up + 1] else level[2 * up]] + Siblings(H, Above(H, level), up)
  {
    HalvesOfIndex(up);
    OneUp(H, level, 2 * up, []);
  }

  lemma SiblingsRight(H: Sha512, level: seq<Bytes>, up: nat)
    requires 2 * up + 1 < |level|
    ensures up < |Above(H, level)| &&
            Siblings(H, level, 2 * up + 1) == [level[2 * up]] + Siblings(H, Above(H, level), up)
  {
    HalvesOfIndex(up);
    OneUp(H, level, 2 * up + 1, []);
  }

  lemma ClimbLeft(H: Sha512, current: Bytes, up: nat, sibling: Bytes, rest: seq<Bytes>)
    ensures Climb(H, current, 2 * up, [sibling] + rest) == Climb(H, PairHash(H, current, sibling), up, rest)
  {
    HalvesOfIndex(up);
    DropFront([sibling], rest);
  }

  lemma ClimbRight(H: Sha512, current: Bytes, up: nat, sibling: Bytes, rest: seq<Bytes>)
    ensures Climb(H, current, 2 * up + 1, [sibling] + rest) == Climb(H, PairHash(H, sibling, current), up, rest)
  {
    HalvesOfIndex(up);
    DropFront([sibling], rest);
  }

  lemma {:induction false} SiblingsReachTop(H: Sha512, level: seq<Bytes>, i: nat)
    requires i < |level|
    ensures Climb(H, level[i], i, Siblings(H, level, i)) == Top(H, level)
    decreases |level|, 1
  {
    if |level| > 1 {
      var up := LeftOrRight(i);
      if i == 2 * up {
        SiblingsReachTopLeft(H, level, up);
      } else {
        SiblingsReachTopRight(H, level, up);
      }
    }
  }

  lemma {:induction false} SiblingsReachTopLeft(H: Sha512, level: seq<Bytes>, up: nat)
    requires |level| > 1 && 2 * up < |level|
    ensures Climb(H, level[2 * up], 2 * up, Siblings(H, level, 2 * up)) == Top(H, level)
    decreases |level|, 0
  {
    var next := Above(H, level);
    SiblingsReachTop(H, next, up);
    SiblingsLeft(H, level, up);
    var sibling := if 2 * up + 1 < |level| then level[2 * up + 1] else level[2 * up];
    ClimbLeft(H, level[2 * up], up, sibling, Siblings(H, next, up));
  }

  lemma {:induction false} SiblingsReachTopRight(H: Sha512, level: seq<Bytes>, up: nat)
    requires 2 * up + 1 < |level|
    ensures Climb(H, level[2 * up + 1], 2 * up + 1, Siblings(H, level, 2 * up + 1)) == Top(H, level)
    decreases |level|, 0
  {
    var next := Above(H, level);
    SiblingsReachTop(H, next, up);
    SiblingsRight(H, level, up);
    ClimbRight(H, level[2 * up + 1], up, level[2 * up], Siblings(H, next, up));
  }

  function Pow2(e: nat): nat {
    if e == 0 then 1 else 2 * Pow2(e - 1)
  }

  /** How many levels stand above `n` leaves. */
  function Levels(n: nat): nat {
    if n <= 1 then 0 else 1 + Levels(Half(n))
  }

  lemma {:induction false} LevelsAreLog(n: nat)
    requires n > 0
    ensures n <= Pow2(Levels(n)) && (n > 1 ==> Pow2(Levels(n) - 1) < n)
  {
    if n > 1 {
      LevelsAreLog(Half(n));
    }
  }

  lemma {:induction false} SiblingsPerLevel(H: Sha512, level: seq<Bytes>, i: nat)
    requires i < |level|
    ensures |Siblings(H, level, i)| == Levels(|level|)
    decreases |level|
  {
    if |level| > 1 {
      SiblingsPerLevel(H, Above(H, level), i / 2);
    }
  }

  /** A proof has as many siblings as the tree has levels: `ceil(log2 n)`. */
  lemma ProofLength(H: Sha512, level: seq<Bytes>, i: nat)
    requires i < |level|
    ensures var e := |Siblings(H, level, i)|; |level| <= Pow2(e) && (|level| > 1 ==> e > 0 && Pow2(e - 1) < |level|)
  {
    SiblingsPerLevel(H, level, i);
    LevelsAreLog(|level|);
  }

  /** Every leaf's generated proof is accepted against any spelling of the root. */
  lemma InclusionRoundTrip(H: Sha512, leaves: seq<Bytes>, i: nat, claimedRoot: Bytes)
    requires i < |leaves| && Some(Strip(claimedRoot)) == Root(H, leaves)
    ensures Climb(H, Strip(leaves[i]), i, Siblings(H, StripAll(leaves), i)) == Strip(claimedRoot)
  {
    SiblingsReachTop(H, StripAll(leaves), i);
  }

  /** The prefixed root always names the root; the bare one does unless the only leaf carries
      the prefix twice. */
  lemma RootSpellings(H: Sha512, leaves: seq<Bytes>)
    requires leaves != []
    ensures var root := Root(H, leaves).value;
            Strip(PREFIX + root) == root &&
            (Strip(root) == root <==> !(|leaves| == 1 && PREFIX <= Strip(leaves[0])))
  {
    var root := Root(H, leaves).value;
    StripPrefixed(root);
    if |leaves| > 1 {
      TopIsHash(H, StripAll(leaves));
      StripBareHex(root);
    }
  }

  lemma {:induction false} TopIsHash(H: Sha512, level: seq<Bytes>)
    requires |level| > 1
    ensures |Top(H, level)| == 128 && IsLowerHex(Top(H, level))
    decreases |level|
  {
    if |level| == 2 {
      assert Above(H, level)[0] == HashHex(H, PairOf(level, 0));
    } else {
      TopIsHash(H, Above(H, level));
    }
  }
}
