/** The receipts a proof carries: every chain hash is recomputed and the tree over them must
    have the claimed root. */
module ReceiptSet {
  import opened Wrappers
  import opened Hashing
  import opened Encoding
  import opened Hex
  import opened Json
  import opened NulText
  import opened ReceiptTree
  import opened RecordReceipts
  import opened CanonicalJson
  import opened Sequences
  import opened CanonicalParser
  import Activity = ActivityRecord

  /** A receipt as it is read: what is missing or of the wrong type is `None`. */
  datatype Receipt = Receipt(
    index: Option<nat>, id: Option<Bytes>, input: Option<Bytes>, output: Option<Bytes>, chainHash: Option<Bytes>,
    trail: Option<seq<Json>>, tag: Option<Bytes>, proof: seq<Bytes>)
  {
    function Trail(): seq<Json> {
      if trail.Some? then trail.value else []
    }
  }

  /** The texts of an array, other values skipped. */
  function Texts(items: seq<Json>): seq<Bytes> {
    if items == [] then []
    else (if items[0].Str? then [Utf8(items[0].s)] else []) + Texts(items[1..])
  }

  function ReadReceipt(v: Json): Receipt {
    var index, proof := AsU64(Get(v, "record_index")), AsArray(Get(v, "merkle_inclusion_proof"));
    Receipt(
      if index.Some? then Some(index.value % 0x1_0000_0000) else None,
      StrField(v, "record_id"), StrField(v, "record_input_hash"), StrField(v, "record_output_hash"),
      StrField(v, "record_chain_hash"), AsArray(Get(v, "record_activity_trail")), StrField(v, "pattern_tag"),
      if proof.Some? then Texts(proof.value) else [])
  }

  // ----- a record's own activity --------------------------------------------------------

  ghost function EventLink(H: Sha512, prev: Bytes, event: Json): Bytes
    requires IsDocument(event)
  {
    Pair(prev, HashHex(H, CanonicalBytes(event, false)))
  }

  /** The chain over a trail's canonical events, from the hash of nothing. */
  ghost function TrailRoot(H: Sha512, trail: seq<Json>): (h: Bytes)
    requires AreDocuments(trail)
    ensures IsHash(h)
  {
    if trail == [] then HashHex(H, [])
    else HashHex(H, EventLink(H, TrailRoot(H, trail[..|trail| - 1]), trail[|trail| - 1]))
  }

  method ComputeActivityRoot(H: Sha512, trail: seq<Json>) returns (root: Bytes)
    requires AreDocuments(trail)
    ensures root == TrailRoot(H, trail)
  {
    root := HashHex(H, []);
    for i := 0 to |trail|
      invariant root == TrailRoot(H, trail[..i])
    {
      var buf := new Buffer();
      WriteValue(buf, trail[i], false);
      assert [] + Emit(trail[i], false) == Emit(trail[i], false);
      root := HashHex(H, root + [NUL] + HashHex(H, Utf8(buf.text)));
      assert trail[..i + 1][..i] == trail[..i];
    }
    assert trail[..|trail|] == trail;
  }

  ghost function TrailQueries(H: Sha512, trail: seq<Json>): set<Bytes>
    requires AreDocuments(trail)
  {
    if trail == [] then {[]}
    else
      var init, last := trail[..|trail| - 1], trail[|trail| - 1];
      TrailQueries(H, init) + {EventLink(H, TrailRoot(H, init), last), CanonicalBytes(last, false)}
  }

  lemma {:induction false} EmptyTrailDiffers(H: Sha512, q: set<Bytes>, init: seq<Json>, last: Json)
    requires AreDocuments(init) && IsDocument(last) && AreDocuments(init + [last])
    requires InjectiveOn(H, q) && TrailQueries(H, init + [last]) <= q && [] in q
    ensures TrailRoot(H, init + [last]) != TrailRoot(H, [])
  {
    var link := EventLink(H, TrailRoot(H, init), last);
    if HashHex(H, link) == HashHex(H, []) {
      HashHexInjective(H, q, link, []);
    }
  }

  lemma TrailStepBinds(H: Sha512, q: set<Bytes>, i: seq<Json>, x: Json, j: seq<Json>, y: Json)
    requires AreDocuments(i) && AreDocuments(j) && IsDocument(x) && IsDocument(y)
    requires AreDocuments(i + [x]) && AreDocuments(j + [y]) && InjectiveOn(H, q)
    requires TrailQueries(H, i + [x]) <= q && TrailQueries(H, j + [y]) <= q
    requires TrailRoot(H, i + [x]) == TrailRoot(H, j + [y])
    ensures x == y && TrailRoot(H, i) == TrailRoot(H, j) && TrailQueries(H, i) <= q && TrailQueries(H, j) <= q
  {
    HashHexInjective(H, q, EventLink(H, TrailRoot(H, i), x), EventLink(H, TrailRoot(H, j), y));
    LinkBinds(H, q, TrailRoot(H, i), x, TrailRoot(H, j), y);
  }

  /** The activity root binds the whole trail, its length included. */
  lemma {:induction false} TrailRootBinds(H: Sha512, q: set<Bytes>, a: seq<Json>, b: seq<Json>)
    requires AreDocuments(a) && AreDocuments(b) && InjectiveOn(H, q) && [] in q
    requires TrailQueries(H, a) <= q && TrailQueries(H, b) <= q && TrailRoot(H, a) == TrailRoot(H, b)
    ensures a == b
    decreases |a|
  {
    var m, n := |a| - 1, |b| - 1;
    if a != [] {
      SplitLast(a);
    }
    if b != [] {
      SplitLast(b);
    }
    if a != [] && b != [] {
      TrailStepBinds(H, q, a[..m], a[m], b[..n], b[n]);
      TrailRootBinds(H, q, a[..m], b[..n]);
    } else if a != [] {
      EmptyTrailDiffers(H, q, a[..m], a[m]);
    } else if b != [] {
      EmptyTrailDiffers(H, q, b[..n], b[n]);
    }
  }

  lemma LinkBinds(H: Sha512, q: set<Bytes>, p: Bytes, x: Json, r: Bytes, y: Json)
    requires IsDocument(x) && IsDocument(y) && IsHash(p) && IsHash(r)
    requires InjectiveOn(H, q) && CanonicalBytes(x, false) in q && CanonicalBytes(y, false) in q
    requires EventLink(H, p, x) == EventLink(H, r, y)
    ensures p == r && x == y
  {
    HexIsNulFree(p);
    HexIsNulFree(r);
    PairInjective(p, HashHex(H, CanonicalBytes(x, false)), r, HashHex(H, CanonicalBytes(y, false)));
    HashHexInjective(H, q, CanonicalBytes(x, false), CanonicalBytes(y, false));
    CanonicalHashBinds(H, x, y, false);
  }

  // ----- the receipt set ----------------------------------------------------------------

  ghost predicate IsReceipt(r: Receipt) {
    AreDocuments(r.Trail())
  }

  ghost predicate AreReceipts(receipts: seq<Receipt>) {
    forall i | 0 <= i < |receipts| :: IsReceipt(receipts[i])
  }

  /** The record a receipt is recomputed from, with the defaults for what is missing. */
  ghost function RecordOf(H: Sha512, capsuleId: Bytes, r: Receipt): Record
    requires IsReceipt(r)
  {
    Record(capsuleId, if r.index.Some? then r.index.value else 0, StrOr(r.id, []), StrOr(r.input, []),
           StrOr(r.output, []), TrailRoot(H, r.Trail()), r.tag)
  }

  ghost function RecordsOf(H: Sha512, capsuleId: Bytes, receipts: seq<Receipt>): (records: seq<Record>)
    requires AreReceipts(receipts)
    ensures |records| == |receipts|
    ensures forall i | 0 <= i < |receipts| :: records[i] == RecordOf(H, capsuleId, receipts[i])
  {
    seq(|receipts|, i requires 0 <= i < |receipts| => RecordOf(H, capsuleId, receipts[i]))
  }

  ghost predicate ReceiptSound(H: Sha512, capsuleId: Bytes, r: Receipt)
    requires IsReceipt(r)
  {
    ChainHash(H, RecordOf(H, capsuleId, r)) == Strip(StrOr(r.chainHash, []))
  }

  datatype ReceiptsFault = RootMissing | RecordHash(idx: nat) | RootMismatch

  /** The root the receipts must have; no receipts have the empty one. */
  ghost function SetRoot(H: Sha512, capsuleId: Bytes, receipts: seq<Receipt>): Bytes
    requires AreReceipts(receipts)
  {
    if receipts == [] then [] else Top(H, ChainHashes(H, RecordsOf(H, capsuleId, receipts)))
  }

  ghost predicate AllSound(H: Sha512, capsuleId: Bytes, receipts: seq<Receipt>)
    requires AreReceipts(receipts)
  {
    forall i | 0 <= i < |receipts| :: ReceiptSound(H, capsuleId, receipts[i])
  }

  ghost predicate Accepted(H: Sha512, capsuleId: Bytes, receipts: seq<Receipt>, root: Option<Bytes>)
    requires AreReceipts(receipts)
  {
    if root.None? then receipts == []
    else AllSound(H, capsuleId, receipts) && SetRoot(H, capsuleId, receipts) == Strip(root.value)
  }

  /** What a reported fault says; the first receipt that does not recompute is the one named. */
  ghost predicate Explains(
    H: Sha512, capsuleId: Bytes, receipts: seq<Receipt>, root: Option<Bytes>, fault: ReceiptsFault)
    requires AreReceipts(receipts)
  {
    match fault
    case RootMissing => root.None? && receipts != []
    case RecordHash(idx) =>
      root.Some? && idx < |receipts| && !ReceiptSound(H, capsuleId, receipts[idx]) &&
      AllSound(H, capsuleId, receipts[..idx])
    case RootMismatch =>
      root.Some? && AllSound(H, capsuleId, receipts) && SetRoot(H, capsuleId, receipts) != Strip(root.value)
  }

  method VerifyRecordReceipts(H: Sha512, capsuleId: Bytes, receipts: seq<Receipt>, root: Option<Bytes>)
    returns (fault: Option<ReceiptsFault>)
    requires AreReceipts(receipts)
    ensures fault.None? <==> Accepted(H, capsuleId, receipts, root)
    ensures fault.Some? ==> Explains(H, capsuleId, receipts, root, fault.value)
  {
    if root.None? {
      return if receipts == [] then None else Some(RootMissing);
    }
    var leaves, bad := RecomputeAll(H, capsuleId, receipts);
    if bad.Some? {
      return Some(RecordHash(bad.value));
    }
    var top := RootOfLeaves(H, leaves);
    fault := if top != Strip(root.value) then Some(RootMismatch) else None;
  }

  /** The root of bare hashes, empty text for none. */
  method RootOfLeaves(H: Sha512, leaves: seq<Bytes>) returns (top: Bytes)
    requires forall i | 0 <= i < |leaves| :: IsHash(leaves[i])
    ensures top == if leaves == [] then [] else Top(H, leaves)
  {
    HashesStripToThemselves(leaves);
    var root := MerkleRoot(H, leaves);
    top := if root.Some? then root.value else [];
  }

  ghost predicate SoundBefore(H: Sha512, capsuleId: Bytes, receipts: seq<Receipt>, n: nat)
    requires AreReceipts(receipts) && n <= |receipts|
  {
    forall j | 0 <= j < n :: ReceiptSound(H, capsuleId, receipts[j])
  }

  ghost predicate HashesBefore(H: Sha512, capsuleId: Bytes, receipts: seq<Receipt>, leaves: seq<Bytes>, n: nat)
    requires AreReceipts(receipts) && n <= |receipts|
  {
    |leaves| == n && forall j | 0 <= j < n :: leaves[j] == ChainHash(H, RecordOf(H, capsuleId, receipts[j]))
  }

  /** The first `n` receipts are sound and `leaves` are their hashes. */
  ghost predicate RecomputedUpTo(H: Sha512, capsuleId: Bytes, receipts: seq<Receipt>, leaves: seq<Bytes>, n: nat)
    requires AreReceipts(receipts) && n <= |receipts|
  {
    SoundBefore(H, capsuleId, receipts, n) && HashesBefore(H, capsuleId, receipts, leaves, n)
  }

  lemma OneMoreSound(H: Sha512, capsuleId: Bytes, receipts: seq<Receipt>, n: nat)
    requires AreReceipts(receipts) && n < |receipts| && SoundBefore(H, capsuleId, receipts, n)
    requires ReceiptSound(H, capsuleId, receipts[n])
    ensures SoundBefore(H, capsuleId, receipts, n + 1)
  {
  }

  /** All receipts are sound and `leaves` are their hashes, or `bad` is the first that is not. */
  ghost predicate Recomputed(H: Sha512, capsuleId: Bytes, receipts: seq<Receipt>, leaves: seq<Bytes>, bad: Option<nat>)
    requires AreReceipts(receipts)
  {
    match bad
    case None => AllSound(H, capsuleId, receipts) && leaves == ChainHashes(H, RecordsOf(H, capsuleId, receipts))
    case Some(i) => i < |receipts| && AllSound(H, capsuleId, receipts[..i]) && !ReceiptSound(H, capsuleId, receipts[i])
  }

  /** The recomputed hashes, up to the first receipt that claims another one. */
  method RecomputeAll(
    H: Sha512, capsuleId: Bytes, receipts: seq<Receipt>) returns (leaves: seq<Bytes>, bad: Option<nat>)
    requires AreReceipts(receipts)
    ensures Recomputed(H, capsuleId, receipts, leaves, bad)
  {
    leaves := [];
    for i := 0 to |receipts|
      invariant RecomputedUpTo(H, capsuleId, receipts, leaves, i)
    {
      var recomputed := RecomputeChainHash(H, capsuleId, receipts[i]);
      if recomputed != Strip(StrOr(receipts[i].chainHash, [])) {
        return leaves, Some(i);
      }
      OneMoreSound(H, capsuleId, receipts, i);
      leaves := leaves + [recomputed];
    }
    assert receipts[..|receipts|] == receipts;
    bad := None;
  }

  lemma HashesStripToThemselves(leaves: seq<Bytes>)
    requires forall i | 0 <= i < |leaves| :: IsHash(leaves[i])
    ensures StripAll(leaves) == leaves
  {
    forall i | 0 <= i < |leaves| ensures Strip(leaves[i]) == leaves[i] {
      HexIsNulFree(leaves[i]);
    }
  }

  method RecomputeChainHash(H: Sha512, capsuleId: Bytes, r: Receipt) returns (h: Bytes)
    requires IsReceipt(r)
    ensures h == ChainHash(H, RecordOf(H, capsuleId, r))
  {
    var activity := ComputeActivityRoot(H, r.Trail());
    var record := Record(capsuleId, if r.index.Some? then r.index.value else 0, StrOr(r.id, []), StrOr(r.input, []),
                         StrOr(r.output, []), activity, r.tag);
    var data := RecordPreimage(record);
    h := HashHex(H, data);
  }

  // ----- what the root says about the set -----------------------------------------------

  ghost function SetQueries(H: Sha512, capsuleId: Bytes, receipts: seq<Receipt>): set<Bytes>
    requires AreReceipts(receipts)
  {
    BuildQueries(H, RecordsOf(H, capsuleId, receipts))
  }

  lemma AcceptedRoot(H: Sha512, capsuleId: Bytes, receipts: seq<Receipt>, root: Bytes)
    requires AreReceipts(receipts) && Accepted(H, capsuleId, receipts, Some(root))
    ensures receipts == [] <==> Strip(root) == []
    ensures receipts != [] ==> Top(H, ChainHashes(H, RecordsOf(H, capsuleId, receipts))) == Strip(root)
  {
    if receipts != [] {
      Activity.TopOfHashes(H, ChainHashes(H, RecordsOf(H, capsuleId, receipts)));
    }
  }

  /** Two accepted sets under one root hold the same record hashes, up to order and number. */
  lemma OneRootOneSet(H: Sha512, q: set<Bytes>, capA: Bytes, a: seq<Receipt>, capB: Bytes, b: seq<Receipt>, root: Bytes)
    requires AreReceipts(a) && AreReceipts(b)
    requires InjectiveOn(H, q) && SetQueries(H, capA, a) <= q && SetQueries(H, capB, b) <= q
    requires Accepted(H, capA, a, Some(root)) && Accepted(H, capB, b, Some(root))
    ensures forall i | 0 <= i < |a| :: ChainHash(H, RecordOf(H, capA, a[i])) in ChainHashes(H, RecordsOf(H, capB, b))
    ensures forall i | 0 <= i < |b| :: ChainHash(H, RecordOf(H, capB, b[i])) in ChainHashes(H, RecordsOf(H, capA, a))
  {
    AcceptedRoot(H, capA, a, root);
    AcceptedRoot(H, capB, b, root);
    var p, r := RecordsOf(H, capA, a), RecordsOf(H, capB, b);
    forall i | 0 <= i < |a| ensures ChainHash(H, RecordOf(H, capA, a[i])) in ChainHashes(H, r) {
      SharedRootSharesRecord(H, q, p, r, i);
    }
    forall i | 0 <= i < |b| ensures ChainHash(H, RecordOf(H, capB, b[i])) in ChainHashes(H, p) {
      SharedRootSharesRecord(H, q, r, p, i);
    }
  }

  /** And if they are equally many they are the same receipts in the same order. */
  lemma {:induction false} OneRootOneList(
    H: Sha512, q: set<Bytes>, capA: Bytes, a: seq<Receipt>, capB: Bytes, b: seq<Receipt>, root: Bytes)
    requires AreReceipts(a) && AreReceipts(b) && |a| == |b|
    requires InjectiveOn(H, q) && SetQueries(H, capA, a) <= q && SetQueries(H, capB, b) <= q
    requires Accepted(H, capA, a, Some(root)) && Accepted(H, capB, b, Some(root))
    ensures ChainHashes(H, RecordsOf(H, capA, a)) == ChainHashes(H, RecordsOf(H, capB, b))
    ensures forall i | 0 <= i < |a| :: Join(RecordOf(H, capA, a[i]).Parts()) == Join(RecordOf(H, capB, b[i]).Parts())
  {
    var p, r := RecordsOf(H, capA, a), RecordsOf(H, capB, b);
    if a != [] {
      AcceptedRoot(H, capA, a, root);
      AcceptedRoot(H, capB, b, root);
      Activity.TopInjective(H, q, ChainHashes(H, p), ChainHashes(H, r));
    }
    forall i | 0 <= i < |a| ensures Join(p[i].Parts()) == Join(r[i].Parts()) {
      assert ChainHashes(H, p)[i] == ChainHashes(H, r)[i];
      assert Join(p[i].Parts()) in RecordQueries(p) && Join(r[i].Parts()) in RecordQueries(r);
      HashHexInjective(H, q, Join(p[i].Parts()), Join(r[i].Parts()));
    }
  }

  lemma HashesOfJoined(H: Sha512, capsuleId: Bytes, a: seq<Receipt>, b: seq<Receipt>)
    requires AreReceipts(a) && AreReceipts(b)
    ensures AreReceipts(a + b)
    ensures ChainHashes(H, RecordsOf(H, capsuleId, a + b)) ==
            ChainHashes(H, RecordsOf(H, capsuleId, a)) + ChainHashes(H, RecordsOf(H, capsuleId, b))
  {
  }

  lemma HashesOfTail(H: Sha512, capsuleId: Bytes, a: seq<Receipt>, k: nat)
    requires AreReceipts(a) && k <= |a|
    ensures AreReceipts(a[k..])
    ensures ChainHashes(H, RecordsOf(H, capsuleId, a[k..])) == ChainHashes(H, RecordsOf(H, capsuleId, a))[k..]
  {
  }

  lemma SoundWithTail(H: Sha512, capsuleId: Bytes, a: seq<Receipt>, k: nat)
    requires AreReceipts(a) && k <= |a| && AllSound(H, capsuleId, a) && AreReceipts(a + a[k..])
    ensures AllSound(H, capsuleId, a + a[k..])
  {
    var longer := a + a[k..];
    forall i | 0 <= i < |longer| ensures ReceiptSound(H, capsuleId, longer[i]) {
      assert longer[i] == if i < |a| then a[i] else a[k + (i - |a|)];
    }
  }

  /** The number itself is not bound: with the last complete subtree repeated, for an odd number
      the last receipt, a set is accepted under the same root. */
  lemma RepeatedReceipts(H: Sha512, capsuleId: Bytes, receipts: seq<Receipt>, root: Bytes)
    requires AreReceipts(receipts) && receipts != [] && Activity.LowBit(|receipts|) < |receipts|
    requires Accepted(H, capsuleId, receipts, Some(root))
    ensures var longer := receipts + receipts[|receipts| - Activity.LowBit(|receipts|)..];
            AreReceipts(longer) && Accepted(H, capsuleId, longer, Some(root))
  {
    var k := |receipts| - Activity.LowBit(|receipts|);
    HashesOfTail(H, capsuleId, receipts, k);
    HashesOfJoined(H, capsuleId, receipts, receipts[k..]);
    SoundWithTail(H, capsuleId, receipts, k);
    Activity.RepeatedTail(H, ChainHashes(H, RecordsOf(H, capsuleId, receipts)));
  }
}
