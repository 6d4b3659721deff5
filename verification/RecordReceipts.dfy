/** Record receipts: what a record's chain hash commits to, and why a proof of any length
    that climbs to the root starts at one of the tree's own records. */
module RecordReceipts {
  import opened Wrappers
  import opened Hashing
  import opened Hex
  import opened NulText
  import opened Encoding
  import opened Sequences
  import opened ReceiptTree

  /** The primitives a chain hash is computed from, as a receipt carries them. */
  datatype Record = Record(
    capsuleId: Bytes, index: nat, id: Bytes, input: Bytes, output: Bytes, activity: Bytes, tag: Option<Bytes>)
  {
    function Parts(): (parts: seq<Bytes>)
      ensures |parts| >= 6
    {
      [capsuleId, Decimal(index), id, Strip(input), Strip(output), Strip(activity)] +
      if tag.Some? then [tag.value] else []
    }

    function Stripped(): Record {
      this.(input := Strip(input), output := Strip(output), activity := Strip(activity))
    }
  }

  method RecordPreimage(r: Record) returns (data: Bytes)
    ensures data == Join(r.Parts())
  {
    data := r.capsuleId + [NUL] + Decimal(r.index) + [NUL] + r.id + [NUL] + Strip(r.input) + [NUL]
            + Strip(r.output) + [NUL] + Strip(r.activity);
    if r.tag.Some? {
      data := data + [NUL] + r.tag.value;
    }
    PreimageIsJoin(r, data);
  }

  lemma PreimageIsJoin(r: Record, data: Bytes)
    requires data == r.capsuleId + [NUL] + Decimal(r.index) + [NUL] + r.id + [NUL] + Strip(r.input) + [NUL]
                     + Strip(r.output) + [NUL] + Strip(r.activity) + if r.tag.Some? then [NUL] + r.tag.value else []
    ensures data == Join(r.Parts())
  {
    var head := [r.capsuleId];
    JoinSnoc(head, Decimal(r.index));
    JoinSnoc(head + [Decimal(r.index)], r.id);
    JoinSnoc(head + [Decimal(r.index)] + [r.id], Strip(r.input));
    JoinSnoc(head + [Decimal(r.index)] + [r.id] + [Strip(r.input)], Strip(r.output));
    var five := head + [Decimal(r.index)] + [r.id] + [Strip(r.input)] + [Strip(r.output)];
    JoinSnoc(five, Strip(r.activity));
    var six := five + [Strip(r.activity)];
    if r.tag.Some? {
      JoinSnoc(six, r.tag.value);
      assert r.Parts() == six + [r.tag.value];
    } else {
      assert r.Parts() == six;
    }
  }

  function ChainHash(H: Sha512, r: Record): Bytes {
    HashHex(H, Join(r.Parts()))
  }

  function ChainHashes(H: Sha512, records: seq<Record>): seq<Bytes> {
    seq(|records|, i requires 0 <= i < |records| => ChainHash(H, records[i]))
  }

  /** Two records hashed from the same bytes are the same record, up to the hash prefixes. */
  lemma RecordBound(H: Sha512, a: Record, b: Record)
    requires AllNulFree(a.Parts()) && AllNulFree(b.Parts())
    requires InjectiveOn(H, {Join(a.Parts()), Join(b.Parts())})
    ensures ChainHash(H, a) == ChainHash(H, b) <==> a.Stripped() == b.Stripped()
  {
    var p, q := a.Parts(), b.Parts();
    if ChainHash(H, a) == ChainHash(H, b) {
      HashHexInjective(H, {Join(p), Join(q)}, Join(p), Join(q));
      JoinInjective(p, q);
      assert p[0] == q[0] && p[1] == q[1] && p[2] == q[2] && p[3] == q[3] && p[4] == q[4] && p[5] == q[5];
      DecimalInjective(a.index, b.index);
      if a.tag.Some? {
        assert p[6] == q[6];
      }
    }
  }

  // ----- no leaf tag is needed ----------------------------------------------------------

  ghost predicate IsNode(H: Sha512, level: seq<Bytes>, x: Bytes)
    decreases |level|
  {
    x in level || (|level| > 1 && IsNode(H, Above(H, level), x))
  }

  /** What a level hashes into the next one. */
  ghost function LevelQueries(level: seq<Bytes>): set<Bytes> {
    set up | 0 <= up < Half(|level|) :: PairOf(level, up)
  }

  ghost function TreeQueries(H: Sha512, level: seq<Bytes>): set<Bytes>
    decreases |level|
  {
    if |level| <= 1 then {} else LevelQueries(level) + TreeQueries(H, Above(H, level))
  }

  ghost function ClimbQueries(H: Sha512, current: Bytes, i: nat, proof: seq<Bytes>): set<Bytes>
    decreases |proof|
  {
    if proof == [] then {}
    else if i % 2 == 0 then
      {PairPreimage(current, proof[0])} + ClimbQueries(H, PairHash(H, current, proof[0]), i / 2, proof[1..])
    else
      {PairPreimage(proof[0], current)} + ClimbQueries(H, PairHash(H, proof[0], current), i / 2, proof[1..])
  }

  ghost predicate IsPairOf(H: Sha512, level: seq<Bytes>, x: Bytes, left: Bytes, right: Bytes) {
    IsNode(H, level, left) && IsNode(H, level, right) && x == PairHash(H, left, right) &&
    PairPreimage(left, right) in TreeQueries(H, level)
  }

  lemma AboveIsPairs(H: Sha512, level: seq<Bytes>, x: Bytes) returns (left: Bytes, right: Bytes)
    requires x in Above(H, level)
    ensures left in level && right in level && x == PairHash(H, left, right)
    ensures PairPreimage(left, right) in LevelQueries(level)
  {
    var next := Above(H, level);
    var up :| 0 <= up < |next| && next[up] == x;
    left, right := level[2 * up], if 2 * up + 1 < |level| then level[2 * up + 1] else level[2 * up];
    assert PairPreimage(left, right) == PairOf(level, up);
  }

  /** A node that is not a leaf was hashed from two nodes. */
  lemma {:induction false} NodeOrigin(H: Sha512, level: seq<Bytes>, x: Bytes) returns (left: Bytes, right: Bytes)
    requires IsNode(H, level, x) && x !in level
    ensures IsPairOf(H, level, x, left, right)
    decreases |level|
  {
    var next := Above(H, level);
    if x in next {
      left, right := AboveIsPairs(H, level, x);
    } else {
      left, right := NodeOrigin(H, next, x);
    }
  }

  lemma {:induction false} TopIsNode(H: Sha512, level: seq<Bytes>)
    requires level != []
    ensures IsNode(H, level, Top(H, level))
    decreases |level|
  {
    if |level| > 1 {
      TopIsNode(H, Above(H, level));
    }
  }

  predicate IsHash(x: Bytes) {
    |x| == 128 && IsLowerHex(x)
  }

  lemma {:induction false} NodeIsHash(H: Sha512, level: seq<Bytes>, x: Bytes)
    requires (forall y | y in level :: IsHash(y)) && IsNode(H, level, x)
    ensures IsHash(x)
    decreases |level|
  {
    if x !in level {
      var next := Above(H, level);
      forall y | y in next ensures IsHash(y) {
        var left, right := AboveIsPairs(H, level, y);
      }
      NodeIsHash(H, next, x);
    }
  }

  ghost function RecordQueries(records: seq<Record>): set<Bytes> {
    set i | 0 <= i < |records| :: Join(records[i].Parts())
  }

  /** Everything hashed to build the tree over `records`. */
  ghost function BuildQueries(H: Sha512, records: seq<Record>): set<Bytes> {
    RecordQueries(records) + TreeQueries(H, ChainHashes(H, records))
  }

  /** Everything hashed to check one receipt. */
  ghost function CheckQueries(H: Sha512, r: Record, i: nat, proof: seq<Bytes>): set<Bytes> {
    {Join(r.Parts())} + ClimbQueries(H, ChainHash(H, r), i, proof)
  }

  /** No sibling holds as many separators as a record's tail does. */
  predicate FewSeparators(proof: seq<Bytes>) {
    forall k | 0 <= k < |proof| :: CountNul(Strip(proof[k])) < 4
  }

  /** A record preimage holds at least five separators, so a pair with fewer is none. */
  lemma RecordIsNotPair(r: Record, left: Bytes, right: Bytes)
    requires CountNul(left) + CountNul(right) < 4
    ensures Join(r.Parts()) != Pair(left, right)
  {
    CountNulJoin(r.Parts());
    CountNulPair(left, right);
  }

  /** A leaf of the tree is no pair hash. */
  lemma LeafIsNotPair(H: Sha512, records: seq<Record>, q: set<Bytes>, left: Bytes, right: Bytes)
    requires InjectiveOn(H, q) && RecordQueries(records) <= q && PairPreimage(left, right) in q
    requires CountNul(Strip(left)) + CountNul(Strip(right)) < 4
    ensures PairHash(H, left, right) !in ChainHashes(H, records)
  {
    var hashes, x := ChainHashes(H, records), PairPreimage(left, right);
    forall j | 0 <= j < |hashes| ensures hashes[j] != PairHash(H, left, right) {
      var y := Join(records[j].Parts());
      assert y in RecordQueries(records);
      RecordIsNotPair(records[j], Strip(left), Strip(right));
      if HashHex(H, y) == HashHex(H, x) {
        HashHexInjective(H, q, y, x);
      }
    }
  }

  /** What spells a pair of NUL-free parts has NUL-free parts itself. */
  lemma LonePairIsNulFree(a: Bytes, b: Bytes, c: Bytes, d: Bytes)
    requires NulFree(a) && NulFree(b) && Pair(a, b) == Pair(c, d)
    ensures NulFree(c) && NulFree(d)
  {
    CountNulPair(a, b);
    CountNulPair(c, d);
    NulFreeCount(a);
    NulFreeCount(b);
    NulFreeCount(c);
    NulFreeCount(d);
  }

  /** A pair hash found in the tree was hashed from two of its nodes. */
  lemma PairInTree(H: Sha512, records: seq<Record>, q: set<Bytes>, left: Bytes, right: Bytes)
    requires InjectiveOn(H, q) && BuildQueries(H, records) <= q && PairPreimage(left, right) in q
    requires CountNul(Strip(left)) + CountNul(Strip(right)) < 4
    requires IsNode(H, ChainHashes(H, records), PairHash(H, left, right))
    ensures IsNode(H, ChainHashes(H, records), Strip(left)) && IsNode(H, ChainHashes(H, records), Strip(right))
  {
    var level := ChainHashes(H, records);
    LeafIsNotPair(H, records, q, left, right);
    var a, b := NodeOrigin(H, level, PairHash(H, left, right));
    TreeNodeIsHash(H, records, a);
    TreeNodeIsHash(H, records, b);
    HexIsNulFree(a);
    HexIsNulFree(b);
    HashHexInjective(H, q, PairPreimage(a, b), PairPreimage(left, right));
    LonePairIsNulFree(a, b, Strip(left), Strip(right));
    PairInjective(a, b, Strip(left), Strip(right));
  }

  /** A climb that ends inside the tree began inside it. */
  lemma {:induction false} ClimbStartsAtNode(
    H: Sha512, records: seq<Record>, q: set<Bytes>, current: Bytes, i: nat, proof: seq<Bytes>)
    requires InjectiveOn(H, q) && BuildQueries(H, records) <= q && ClimbQueries(H, current, i, proof) <= q
    requires IsHash(current) && FewSeparators(proof)
    requires IsNode(H, ChainHashes(H, records), Climb(H, current, i, proof))
    ensures IsNode(H, ChainHashes(H, records), current)
    decreases |proof|
  {
    if proof != [] {
      var left, right := if i % 2 == 0 then current else proof[0], if i % 2 == 0 then proof[0] else current;
      HexIsNulFree(current);
      NulFreeCount(current);
      assert FewSeparators(proof[1..]);
      ClimbStartsAtNode(H, records, q, PairHash(H, left, right), i / 2, proof[1..]);
      PairInTree(H, records, q, left, right);
    }
  }

  /** No record's hash is the hash of a pair of hashes. */
  lemma RecordHashIsNoPair(H: Sha512, q: set<Bytes>, r: Record, a: Bytes, b: Bytes)
    requires IsHash(a) && IsHash(b) && InjectiveOn(H, q) && Join(r.Parts()) in q && PairPreimage(a, b) in q
    ensures ChainHash(H, r) != PairHash(H, a, b)
  {
    HexIsNulFree(a);
    HexIsNulFree(b);
    NulFreeCount(a);
    NulFreeCount(b);
    RecordIsNotPair(r, a, b);
    if ChainHash(H, r) == PairHash(H, a, b) {
      HashHexInjective(H, q, Join(r.Parts()), PairPreimage(a, b));
    }
  }

  lemma TreeNodeIsHash(H: Sha512, records: seq<Record>, x: Bytes)
    requires IsNode(H, ChainHashes(H, records), x)
    ensures IsHash(x)
  {
    NodeIsHash(H, ChainHashes(H, records), x);
  }

  /** A record's hash is a node of the tree only as one of its leaves. */
  lemma {:induction false} RecordNodeIsLeaf(H: Sha512, records: seq<Record>, q: set<Bytes>, r: Record)
    requires InjectiveOn(H, q) && BuildQueries(H, records) <= q && Join(r.Parts()) in q
    requires IsNode(H, ChainHashes(H, records), ChainHash(H, r))
    ensures ChainHash(H, r) in ChainHashes(H, records)
  {
    var level := ChainHashes(H, records);
    if ChainHash(H, r) !in level {
      var a, b := NodeOrigin(H, level, ChainHash(H, r));
      TreeNodeIsHash(H, records, a);
      TreeNodeIsHash(H, records, b);
      RecordHashIsNoPair(H, q, r, a, b);
    }
  }

  /** A leaf that is a record's hash is that record, up to the hash prefixes. */
  lemma LeafIsRecord(H: Sha512, records: seq<Record>, q: set<Bytes>, r: Record) returns (j: nat)
    requires InjectiveOn(H, q) && RecordQueries(records) <= q && Join(r.Parts()) in q
    requires ChainHash(H, r) in ChainHashes(H, records)
    requires AllNulFree(r.Parts()) && forall s | s in records :: AllNulFree(s.Parts())
    ensures j < |records| && records[j].Stripped() == r.Stripped()
  {
    j :| 0 <= j < |records| && ChainHash(H, records[j]) == ChainHash(H, r);
    assert Join(records[j].Parts()) in RecordQueries(records);
    assert InjectiveOn(H, {Join(records[j].Parts()), Join(r.Parts())});
    RecordBound(H, records[j], r);
  }

  /** An accepted record hash is one of the tree's leaves, whatever the length of the proof
      and whatever the index. */
  lemma AcceptedRecordIsInTree(H: Sha512, records: seq<Record>, r: Record, i: nat, proof: seq<Bytes>)
    requires records != [] && FewSeparators(proof)
    requires InjectiveOn(H, BuildQueries(H, records) + CheckQueries(H, r, i, proof))
    requires Climb(H, ChainHash(H, r), i, proof) == Top(H, ChainHashes(H, records))
    ensures ChainHash(H, r) in ChainHashes(H, records)
  {
    var q := BuildQueries(H, records) + CheckQueries(H, r, i, proof);
    TopIsNode(H, ChainHashes(H, records));
    ClimbStartsAtNode(H, records, q, ChainHash(H, r), i, proof);
    RecordNodeIsLeaf(H, records, q, r);
  }

  // ----- one root, two trees ------------------------------------------------------------

  lemma ClimbQueriesLeft(H: Sha512, current: Bytes, up: nat, sibling: Bytes, rest: seq<Bytes>)
    ensures ClimbQueries(H, current, 2 * up, [sibling] + rest) ==
            {PairPreimage(current, sibling)} + ClimbQueries(H, PairHash(H, current, sibling), up, rest)
  {
    HalvesOfIndex(up);
    DropFront([sibling], rest);
  }

  lemma ClimbQueriesRight(H: Sha512, current: Bytes, up: nat, sibling: Bytes, rest: seq<Bytes>)
    ensures ClimbQueries(H, current, 2 * up + 1, [sibling] + rest) ==
            {PairPreimage(sibling, current)} + ClimbQueries(H, PairHash(H, sibling, current), up, rest)
  {
    HalvesOfIndex(up);
    DropFront([sibling], rest);
  }

  ghost predicate ClimbsInside(H: Sha512, level: seq<Bytes>, i: nat)
    requires i < |level|
  {
    ClimbQueries(H, level[i], i, Siblings(H, level, i)) <= TreeQueries(H, level)
  }

  /** Checking a built proof hashes nothing that building the tree did not. */
  lemma {:induction false} ClimbQueriesInTree(H: Sha512, level: seq<Bytes>, i: nat)
    requires i < |level|
    ensures ClimbsInside(H, level, i)
    decreases |level|, 1
  {
    if |level| == 1 {
      LoneLeafClimbs(H, level);
    } else {
      var up := LeftOrRight(i);
      if i == 2 * up {
        ClimbQueriesInTreeLeft(H, level, up);
      } else {
        ClimbQueriesInTreeRight(H, level, up);
      }
    }
  }

  lemma LoneLeafClimbs(H: Sha512, level: seq<Bytes>)
    requires |level| == 1
    ensures ClimbsInside(H, level, 0)
  {
  }

  lemma {:induction false} ClimbQueriesInTreeLeft(H: Sha512, level: seq<Bytes>, up: nat)
    requires |level| > 1 && 2 * up < |level|
    ensures ClimbsInside(H, level, 2 * up)
    decreases |level|, 0
  {
    var next, sibling := Above(H, level), if 2 * up + 1 < |level| then level[2 * up + 1] else level[2 * up];
    SiblingsLeft(H, level, up);
    ClimbQueriesLeft(H, level[2 * up], up, sibling, Siblings(H, next, up));
    assert PairOf(level, up) in LevelQueries(level);
    ClimbQueriesInTree(H, next, up);
  }

  lemma {:induction false} ClimbQueriesInTreeRight(H: Sha512, level: seq<Bytes>, up: nat)
    requires 2 * up + 1 < |level|
    ensures ClimbsInside(H, level, 2 * up + 1)
    decreases |level|, 0
  {
    var next := Above(H, level);
    SiblingsRight(H, level, up);
    ClimbQueriesRight(H, level[2 * up + 1], up, level[2 * up], Siblings(H, next, up));
    assert PairOf(level, up) in LevelQueries(level);
    ClimbQueriesInTree(H, next, up);
  }

  lemma {:induction false} BuiltProofsAreBare(H: Sha512, level: seq<Bytes>, i: nat)
    requires i < |level| && forall y | y in level :: IsHash(y)
    ensures FewSeparators(Siblings(H, level, i))
    decreases |level|
  {
    if |level| > 1 {
      var next, sibling := Above(H, level), SiblingAt(level, i);
      forall y | y in next ensures IsHash(y) {
        var left, right := AboveIsPairs(H, level, y);
      }
      BuiltProofsAreBare(H, next, i / 2);
      assert sibling in level;
      HexIsNulFree(sibling);
      NulFreeCount(sibling);
    }
  }

  /** Trees with one root hold the same record hashes, whatever their sizes. */
  lemma SharedRootSharesRecord(H: Sha512, q: set<Bytes>, a: seq<Record>, b: seq<Record>, i: nat)
    requires i < |a| && b != [] && Top(H, ChainHashes(H, a)) == Top(H, ChainHashes(H, b))
    requires InjectiveOn(H, q) && BuildQueries(H, a) <= q && BuildQueries(H, b) <= q
    ensures ChainHash(H, a[i]) in ChainHashes(H, b)
  {
    var level := ChainHashes(H, a);
    SiblingsReachTop(H, level, i);
    ClimbQueriesInTree(H, level, i);
    BuiltProofsAreBare(H, level, i);
    TopIsNode(H, ChainHashes(H, b));
    ClimbStartsAtNode(H, b, q, level[i], i, Siblings(H, level, i));
    assert Join(a[i].Parts()) in RecordQueries(a);
    RecordNodeIsLeaf(H, b, q, a[i]);
  }

  // ----- where separators must not stand ------------------------------------------------

  /** Four separators are the first number too many: the tail of an untagged record holds
      exactly four, and as a sibling it lets a climb from an unrelated hash spell the record. */
  lemma NulInSibling(H: Sha512, start: Bytes, r: Record)
    requires IsHash(start) && r.capsuleId == start && r.tag.None? && AllNulFree(r.Parts())
    ensures var sibling := Join(r.Parts()[1..]);
            Climb(H, start, 0, [sibling]) == Top(H, ChainHashes(H, [r])) && CountNul(Strip(sibling)) == 4
  {
    var parts := r.Parts();
    var sibling := Join(parts[1..]);
    HexIsNulFree(start);
    assert sibling[0] == Decimal(r.index)[0];
    CountNulJoin(parts[1..]);
    assert Strip(sibling) == sibling by { assert PREFIX[0] == 's'; }
  }

  /** Without NUL-free fields a tag is not told from what stands before it: an activity root
      moved into the output hash leaves its place to the tag. */
  lemma TagCollision(r: Record, first: Bytes, second: Bytes)
    requires IsHash(first) && IsHash(second) && !(PREFIX <= r.output)
    ensures var untagged := r.(output := r.output + [NUL] + first, activity := second, tag := None);
            var tagged := r.(activity := first, tag := Some(second));
            Join(untagged.Parts()) == Join(tagged.Parts()) && untagged.Stripped() != tagged.Stripped()
  {
    var untagged := r.(output := r.output + [NUL] + first, activity := second, tag := None);
    var tagged := r.(activity := first, tag := Some(second));
    HexIsNulFree(first);
    HexIsNulFree(second);
    var head := r.capsuleId + [NUL] + Decimal(r.index) + [NUL] + r.id + [NUL] + Strip(r.input) + [NUL];
    OutputStaysBare(r.output, first);
    PreimageIsJoin(untagged, head + (r.output + [NUL] + first) + [NUL] + second);
    PreimageIsJoin(tagged, head + r.output + [NUL] + first + [NUL] + second);
    MovedSeparator(head, r.output, first, second);
  }

  lemma MovedSeparator(head: Bytes, output: Bytes, first: Bytes, second: Bytes)
    ensures head + (output + [NUL] + first) + [NUL] + second == head + output + [NUL] + first + [NUL] + second
  {
  }

  lemma OutputStaysBare(output: Bytes, first: Bytes)
    requires !(PREFIX <= output) && IsHash(first)
    ensures Strip(output + [NUL] + first) == output + [NUL] + first && Strip(output) == output
  {
    assert (output + [NUL] + first)[|output|] == NUL;
  }
}
