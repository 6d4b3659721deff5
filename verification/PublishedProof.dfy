/** A proof that passes, told of the document itself: what each field must state for every check
    short of the signature to pass, and what must be signed by whom. Nothing here is read the
    way the stages read it; that the two accounts agree is what is proved. */
module PublishedProof {
  import opened Wrappers
  import opened Hashing
  import opened Hex
  import opened Encoding
  import opened Json
  import opened NulText
  import opened CanonicalJson
  import opened ProofSignature
  import opened ProofVerifier
  import opened Lineage
  import Chain = DestructionChain
  import ReceiptTree
  import Records = RecordReceipts
  import Receipts = ReceiptSet
  import Streams = StreamTrail
  import Activity = ActivityRecord
  import KeyTimestamp

  // ----- fields -------------------------------------------------------------------------

  predicate Says(doc: Json, key: string, text: Bytes) {
    StrField(doc, key) == Some(text)
  }

  /** The text under a key, empty if there is none. */
  function TextOf(doc: Json, key: string): Bytes {
    if StrField(doc, key).Some? then StrField(doc, key).value else []
  }

  predicate IsEmptySlot(doc: Json, key: string) {
    Get(doc, key).None? || Get(doc, key) == Some(Null)
  }

  function Block(doc: Json): Option<Json> {
    Get(doc, "attestation")
  }

  // ----- gates --------------------------------------------------------------------------

  predicate StatesVersion(doc: Json) {
    Says(doc, "cdp_version", "1.0") || Says(doc, "cdp_version", "2.0") || SignsDocument(doc)
  }

  /** The versions whose signature covers the document. */
  predicate SignsDocument(doc: Json) {
    Says(doc, "cdp_version", "2.1") || Says(doc, "cdp_version", "2.2")
  }

  predicate SlotsEmpty(doc: Json) {
    && IsEmptySlot(doc, "customer_attestation") && IsEmptySlot(doc, "policy_attestation")
    && IsEmptySlot(doc, "third_party_attestation") && IsEmptySlot(doc, "retention_policy_attestation")
    && IsEmptySlot(doc, "witness_signatures") && IsEmptySlot(doc, "pqc_attestation")
    && IsEmptySlot(doc, "customer_pqc_attestation")
  }

  /** A root of the customer's own record is a hash, and there only where it is signed. */
  predicate StatesRecordRoot(doc: Json) {
    var root := "customer_declared_activity_root";
    IsEmptySlot(doc, root) ||
    (SignsDocument(doc) && StrField(doc, root).Some? && Records.IsHash(Strip(StrField(doc, root).value)))
  }

  predicate AuthorityAsked(policy: Policy, doc: Json) {
    policy.authority.None? ||
    (Get(doc, "signing_authority").Some? &&
     Says(Get(doc, "signing_authority").value, "authority_id", policy.authority.value))
  }

  predicate Starts(event: Json) {
    Says(event, "event", "capsule_started")
  }

  /** The first start event names the region; without one there is none. */
  predicate NamesRegion(events: seq<Json>, region: Bytes) {
    if exists i :: 0 <= i < |events| && Starts(events[i]) then
      exists i | 0 <= i < |events| ::
        Starts(events[i]) && (forall j | 0 <= j < i :: !Starts(events[j])) && TextOf(events[i], "region") == region
    else region == []
  }

  predicate RegionAsked(policy: Policy, doc: Json) {
    var activity := AsArray(Get(doc, "activity"));
    policy.region.None? || NamesRegion(if activity.Some? then activity.value else [], policy.region.value)
  }

  predicate GatesStated(policy: Policy, doc: Json) {
    StatesVersion(doc) && SlotsEmpty(doc) && StatesRecordRoot(doc) && AuthorityAsked(policy, doc) &&
    RegionAsked(policy, doc)
  }

  // ----- structures ---------------------------------------------------------------------

  /** The roots present, receipts before parents. */
  function RootsStated(doc: Json): seq<Bytes> {
    (if StrField(doc, "record_receipts_merkle_root").Some? then [Strip(TextOf(doc, "record_receipts_merkle_root"))]
     else []) +
    if StrField(doc, "parent_proofs_merkle_root").Some? then [Strip(TextOf(doc, "parent_proofs_merkle_root"))] else []
  }

  /** The declared time, else the one the key id carries, else none. */
  function TimeStated(doc: Json): Bytes {
    if TextOf(doc, "destroyed_at") != [] then TextOf(doc, "destroyed_at")
    else if Block(doc).None? || StrField(Block(doc).value, "key_id").None? then []
    else
      var carried := KeyTimestamp.Recover(TextOf(Block(doc).value, "key_id"));
      if carried.Some? then carried.value else []
  }

  /** What one step hashes. */
  function StepText(prev: Bytes, name: Chain.Identity, ts: Bytes): Bytes {
    Join([prev, name.subsystem, "destroy", name.verification, ts])
  }

  /** `hashes` are the eight step hashes: each over the one before, the first over the hash of
      nothing, the last hashed once more with the roots if there are any. */
  predicate AreStepHashes(H: Sha512, names: Chain.Names, ts: Bytes, roots: seq<Bytes>, hashes: seq<Bytes>) {
    && |hashes| == 8 && (forall i: nat | i < 7 :: hashes[i] == HashOver(H, names, ts, hashes, i))
    && hashes[7] == LastHash(H, HashOver(H, names, ts, hashes, 7), roots)
  }

  function HashOver(H: Sha512, names: Chain.Names, ts: Bytes, hashes: seq<Bytes>, i: nat): Bytes
    requires i < 8 == |hashes|
  {
    HashHex(H, StepText(if i == 0 then HashHex(H, []) else hashes[i - 1], names[i], ts))
  }

  function LastHash(H: Sha512, last: Bytes, roots: seq<Bytes>): Bytes {
    if roots == [] then last else HashHex(H, Join([last] + roots))
  }

  predicate EntriesMatch(names: Chain.Names, entries: seq<Json>, hashes: seq<Bytes>)
    requires |entries| == 8 == |hashes|
  {
    forall i | 0 <= i < 8 ::
      TextOf(entries[i], "subsystem") == names[i].subsystem && Strip(TextOf(entries[i], "chain_hash")) == hashes[i]
  }

  /** Eight entries, each with the canonical name and the hash of its step. */
  ghost predicate ChainStated(H: Sha512, names: Chain.Names, doc: Json) {
    var chain := AsArray(Get(doc, "chain"));
    chain.Some? && |chain.value| == 8 &&
    exists hashes ::
      AreStepHashes(H, names, TimeStated(doc), RootsStated(doc), hashes) && EntriesMatch(names, chain.value, hashes)
  }

  function ItemsOf(doc: Json, key: string): seq<Json> {
    if AsArray(Get(doc, key)).Some? then AsArray(Get(doc, key)).value else []
  }

  /** What a receipt's chain hash is the hash of. */
  ghost function RecordText(H: Sha512, capsuleId: Bytes, receipt: Json): Bytes
    requires AreDocuments(ItemsOf(receipt, "record_activity_trail"))
  {
    var index := AsU64(Get(receipt, "record_index"));
    Join([capsuleId, Decimal(if index.Some? then index.value % 0x1_0000_0000 else 0), TextOf(receipt, "record_id"),
          Strip(TextOf(receipt, "record_input_hash")), Strip(TextOf(receipt, "record_output_hash")),
          Receipts.TrailRoot(H, ItemsOf(receipt, "record_activity_trail"))]
         + if StrField(receipt, "pattern_tag").Some? then [TextOf(receipt, "pattern_tag")] else [])
  }

  function TextsOf(items: seq<Json>, key: string): (texts: seq<Bytes>)
    ensures |texts| == |items| && forall i | 0 <= i < |items| :: texts[i] == TextOf(items[i], key)
  {
    seq(|items|, i requires 0 <= i < |items| => TextOf(items[i], key))
  }

  ghost predicate ReceiptStated(H: Sha512, capsuleId: Bytes, receipt: Json)
    requires IsDocument(receipt)
  {
    ItemsAreDocuments(receipt, "record_activity_trail");
    Strip(TextOf(receipt, "record_chain_hash")) == HashHex(H, RecordText(H, capsuleId, receipt))
  }

  lemma ItemsAreDocuments(doc: Json, key: string)
    requires IsDocument(doc)
    ensures AreDocuments(ItemsOf(doc, key))
  {
  }

  /** Every receipt recomputes, and their chain hashes are listed under the receipts root. */
  ghost predicate ReceiptsStated(H: Sha512, doc: Json)
    requires IsDocument(doc)
  {
    var items, root := ItemsOf(doc, "record_receipts"), StrField(doc, "record_receipts_merkle_root");
    ItemsAreDocuments(doc, "record_receipts");
    AsArray(Get(doc, "record_receipts")).Some? ==>
      ListedUnder(H, TextsOf(items, "record_chain_hash"), root) &&
      forall i | 0 <= i < |items| :: ReceiptStated(H, TextOf(doc, "capsule_id"), items[i])
  }

  predicate ParentsStated(H: Sha512, doc: Json) {
    AsArray(Get(doc, "parent_proof_hashes")).Some? ==>
      ListedUnder(H, TextsOf(ItemsOf(doc, "parent_proof_hashes"), "parent_chain_hash"),
                  StrField(doc, "parent_proofs_merkle_root"))
  }

  /** No stream of the trail fails. */
  ghost predicate StreamsStated(H: Sha512, doc: Json) {
    var events := ItemsOf(doc, "activity");
    forall c | 0 <= c < |events| :: !Streams.Fails(H, Streams.ReadEvents(events), c)
  }

  /** The record at hand is the one whose signed root the document states. */
  predicate RecordStated(H: Sha512, record: Bytes, doc: Json) {
    var root, lines := StrField(doc, "customer_declared_activity_root"), Activity.SplitLines(record);
    SignsDocument(doc) && root.Some? && Records.IsHash(Strip(root.value)) &&
    Strip(root.value) == HashHex(H, Join([Activity.TreeOf(H, lines), Decimal(|lines|)]))
  }

  ghost predicate StructuresStated(s: Setting, doc: Json)
    requires IsDocument(doc)
  {
    ChainStated(s.H, s.names, doc) && ReceiptsStated(s.H, doc) && ParentsStated(s.H, doc) &&
    StreamsStated(s.H, doc) && (s.policy.record.Some? ==> RecordStated(s.H, s.policy.record.value, doc))
  }

  /** The final hash is that of the last entry. */
  predicate FinalHashStated(doc: Json) {
    var chain := ItemsOf(doc, "chain");
    chain != [] && Strip(TextOf(doc, "final_hash")) == Strip(TextOf(chain[|chain| - 1], "chain_hash"))
  }

  predicate AlgorithmsStated(doc: Json) {
    && (Block(doc).Some? && StrField(Block(doc).value, "algorithm").Some? ==>
          Says(Block(doc).value, "algorithm", "Ed25519"))
    && (StrField(doc, "signature_algorithm").Some? ==> Says(doc, "signature_algorithm", "Ed25519"))
  }

  // ----- the gates, one by one ----------------------------------------------------------

  lemma VersionRead(doc: Json)
    ensures ReadSigned(doc).version.Some? <==> StatesVersion(doc)
    ensures SignsView(ReadSigned(doc)) <==> SignsDocument(doc)
    ensures ReadSigned(doc).version == Some(V10) <==> Says(doc, "cdp_version", "1.0")
    ensures ReadSigned(doc).version == Some(V20) <==> Says(doc, "cdp_version", "2.0")
  {
    VersionTexts();
  }

  lemma VersionTexts()
    ensures "1.0" != "2.0" && "1.0" != "2.1" && "1.0" != "2.2"
    ensures "2.0" != "2.1" && "2.0" != "2.2" && "2.1" != "2.2"
  {
    assert "1.0"[0] != "2.0"[0] && "1.0"[0] != "2.1"[0] && "1.0"[0] != "2.2"[0];
    assert "2.0"[2] != "2.1"[2] && "2.0"[2] != "2.2"[2] && "2.1"[2] != "2.2"[2];
  }

  lemma SlotsRead(doc: Json)
    ensures FirstPopulated(doc, SLOTS).None? <==> SlotsEmpty(doc)
  {
    var t := SLOTS;
    assert |t| == 7 && t[0] == "customer_attestation" && t[1] == "policy_attestation" &&
           t[2] == "third_party_attestation" && t[3] == "retention_policy_attestation" &&
           t[4] == "witness_signatures" && t[5] == "pqc_attestation" && t[6] == "customer_pqc_attestation";
  }

  lemma {:induction false} RecordRootRead(doc: Json)
    ensures RootReadable(ReadProof(doc)) <==> StatesRecordRoot(doc)
  {
    VersionRead(doc);
    RecordRootField(doc);
    GateRead(Get(doc, "customer_declared_activity_root"), SignsDocument(doc));
  }

  lemma GateRead(root: Option<Json>, signed: bool)
    ensures Activity.Gate(root, signed).None? <==>
            root.None? || root == Some(Null) ||
            (signed && AsStr(root).Some? && Records.IsHash(Strip(AsStr(root).value)))
  {
  }

  lemma RecordRootField(doc: Json)
    ensures ReadProof(doc).declaredRoot == Get(doc, "customer_declared_activity_root")
    ensures ReadProof(doc).signed == ReadSigned(doc)
  {
  }

  lemma AuthorityRead(s: Setting, doc: Json)
    ensures AuthorityPinned(s, ReadProof(doc)) <==> AuthorityAsked(s.policy, doc)
  {
  }

  lemma {:induction false} RegionNamed(events: seq<Json>)
    ensures NamesRegion(events, RegionOf(events))
  {
    if events != [] {
      var rest := events[1..];
      assert forall i | 1 <= i < |events| :: events[i] == rest[i - 1];
      if !Starts(events[0]) {
        RegionNamed(rest);
        if i :| 0 <= i < |rest| && Starts(rest[i]) && (forall j | 0 <= j < i :: !Starts(rest[j])) &&
                TextOf(rest[i], "region") == RegionOf(rest) {
          assert Starts(events[i + 1]) && forall j | 0 <= j < i + 1 :: !Starts(events[j]);
        }
      }
    }
  }

  lemma OneRegion(events: seq<Json>, a: Bytes, b: Bytes)
    requires NamesRegion(events, a) && NamesRegion(events, b)
    ensures a == b
  {
  }

  lemma RegionRead(s: Setting, doc: Json)
    ensures RegionPinned(s, ReadProof(doc)) <==> RegionAsked(s.policy, doc)
  {
    var activity := AsArray(Get(doc, "activity"));
    var events := if activity.Some? then activity.value else [];
    RegionNamed(events);
    if RegionAsked(s.policy, doc) && s.policy.region.Some? {
      OneRegion(events, RegionOf(events), s.policy.region.value);
    }
  }

  lemma GatesExactly(s: Setting, doc: Json)
    ensures GatesPass(s, ReadProof(doc)) <==> GatesStated(s.policy, doc)
  {
    VersionRead(doc);
    SlotsRead(doc);
    RecordRootRead(doc);
    AuthorityRead(s, doc);
    RegionRead(s, doc);
  }

  // ----- the structures, one by one -----------------------------------------------------

  lemma TimeRead(doc: Json)
    ensures KeyTimestamp.Resolve(doc).0 == TimeStated(doc)
  {
  }

  lemma RootsRead(doc: Json)
    ensures ReadRoots(doc).Present() == RootsStated(doc)
  {
  }

  lemma StepTextIs(prev: Bytes, name: Chain.Identity, ts: Bytes)
    ensures Chain.StepPreimage(prev, name, ts) == StepText(prev, name, ts)
  {
    JoinFive(prev, name.subsystem, "destroy", name.verification, ts);
  }

  lemma StepIs(H: Sha512, prev: Bytes, name: Chain.Identity, ts: Bytes)
    ensures Chain.StepHash(H, prev, name, ts) == HashHex(H, StepText(prev, name, ts))
  {
    StepTextIs(prev, name, ts);
  }

  function Hashes(H: Sha512, names: Chain.Names, ts: Bytes, roots: Chain.Roots): (hashes: seq<Bytes>)
    ensures |hashes| == 8 && forall i | 0 <= i < 8 :: hashes[i] == Chain.HashAt(H, names, ts, roots, i)
  {
    seq(8, i requires 0 <= i < 8 => Chain.HashAt(H, names, ts, roots, i))
  }

  lemma {:induction false} EarlierStepIs(H: Sha512, names: Chain.Names, ts: Bytes, roots: Chain.Roots, i: nat)
    requires i < 7
    ensures Chain.HashAt(H, names, ts, roots, i) == HashOver(H, names, ts, Hashes(H, names, ts, roots), i)
  {
    StepIs(H, Chain.PrevAt(H, names, ts, roots, i), names[i], ts);
  }

  lemma {:induction false} LastStepIs(H: Sha512, names: Chain.Names, ts: Bytes, roots: Chain.Roots)
    ensures Chain.HashAt(H, names, ts, roots, 7) ==
            LastHash(H, HashOver(H, names, ts, Hashes(H, names, ts, roots), 7), roots.Present())
  {
    var prev := Chain.PrevAt(H, names, ts, roots, 7);
    StepIs(H, prev, names[7], ts);
    Chain.LastStepForms(H, names[7], prev, ts, roots);
  }

  lemma {:induction false} HashesAreSteps(H: Sha512, names: Chain.Names, ts: Bytes, roots: Chain.Roots)
    ensures AreStepHashes(H, names, ts, roots.Present(), Hashes(H, names, ts, roots))
  {
    var hashes := Hashes(H, names, ts, roots);
    forall i: nat | i < 7 ensures hashes[i] == HashOver(H, names, ts, hashes, i) {
      EarlierStepIs(H, names, ts, roots, i);
    }
    LastStepIs(H, names, ts, roots);
  }

  lemma {:induction false} SameStep(
    H: Sha512, names: Chain.Names, ts: Bytes, roots: seq<Bytes>, a: seq<Bytes>, b: seq<Bytes>, i: nat)
    requires AreStepHashes(H, names, ts, roots, a) && AreStepHashes(H, names, ts, roots, b) && i < 8
    ensures a[i] == b[i]
  {
    if i > 0 {
      SameStep(H, names, ts, roots, a, b, i - 1);
    }
    assert HashOver(H, names, ts, a, i) == HashOver(H, names, ts, b, i);
  }

  /** The step hashes are the ones the chain is walked against, and no others. */
  lemma {:induction false} StepsAreHashes(
    H: Sha512, names: Chain.Names, ts: Bytes, roots: Chain.Roots, hashes: seq<Bytes>)
    ensures AreStepHashes(H, names, ts, roots.Present(), hashes) <==> hashes == Hashes(H, names, ts, roots)
  {
    HashesAreSteps(H, names, ts, roots);
    if AreStepHashes(H, names, ts, roots.Present(), hashes) {
      SameSteps(H, names, ts, roots.Present(), hashes, Hashes(H, names, ts, roots));
    }
  }

  lemma {:induction false} SameSteps(
    H: Sha512, names: Chain.Names, ts: Bytes, roots: seq<Bytes>, a: seq<Bytes>, b: seq<Bytes>)
    requires AreStepHashes(H, names, ts, roots, a) && AreStepHashes(H, names, ts, roots, b)
    ensures a == b
  {
    forall i | 0 <= i < 8 ensures a[i] == b[i] {
      SameStep(H, names, ts, roots, a, b, i);
    }
  }

  lemma {:induction false} EntriesExactly(s: Setting, doc: Json, entries: seq<Json>)
    requires AsArray(Get(doc, "chain")) == Some(entries) && |entries| == 8
    ensures ChainPasses(s, ReadProof(doc)) <==>
            EntriesMatch(s.names, entries, Hashes(s.H, s.names, TimeStated(doc), ReadRoots(doc)))
  {
    TimeRead(doc);
    var p, hashes := ReadProof(doc), Hashes(s.H, s.names, TimeStated(doc), ReadRoots(doc));
    assert |p.chain.value| == 8;
    forall i: nat | i < 8
      ensures Chain.Sound(s.H, s.names, p.timestamp, p.roots, p.chain.value, i) <==>
              TextOf(entries[i], "subsystem") == s.names[i].subsystem &&
              Strip(TextOf(entries[i], "chain_hash")) == hashes[i]
    {
      assert p.chain.value[i] == ReadStep(entries[i]);
    }
  }

  lemma {:induction false} ChainExactly(s: Setting, doc: Json)
    ensures ChainPasses(s, ReadProof(doc)) <==> ChainStated(s.H, s.names, doc)
  {
    var chain := AsArray(Get(doc, "chain"));
    if chain.Some? && |chain.value| == 8 {
      EntriesExactly(s, doc, chain.value);
      RootsRead(doc);
      MatchExactly(s.H, s.names, TimeStated(doc), ReadRoots(doc), chain.value);
    }
  }

  /** Some step hashes match the entries exactly if the ones walked against do. */
  lemma {:induction false} MatchExactly(
    H: Sha512, names: Chain.Names, ts: Bytes, roots: Chain.Roots, entries: seq<Json>)
    requires |entries| == 8
    ensures EntriesMatch(names, entries, Hashes(H, names, ts, roots)) <==>
            exists hashes ::
              AreStepHashes(H, names, ts, roots.Present(), hashes) && EntriesMatch(names, entries, hashes)
  {
    StepsAreHashes(H, names, ts, roots, Hashes(H, names, ts, roots));
    if hashes :| AreStepHashes(H, names, ts, roots.Present(), hashes) && EntriesMatch(names, entries, hashes) {
      StepsAreHashes(H, names, ts, roots, hashes);
    }
  }

  /** A record's text, part by part. */
  lemma RecordTextIs(H: Sha512, capsuleId: Bytes, receipt: Json)
    requires IsDocument(receipt)
    ensures AreDocuments(ItemsOf(receipt, "record_activity_trail"))
    ensures Receipts.IsReceipt(Receipts.ReadReceipt(receipt))
    ensures Join(Receipts.RecordOf(H, capsuleId, Receipts.ReadReceipt(receipt)).Parts()) ==
            RecordText(H, capsuleId, receipt)
  {
    ItemsAreDocuments(receipt, "record_activity_trail");
    var r := Receipts.ReadReceipt(receipt);
    var record := Receipts.RecordOf(H, capsuleId, r);
    assert r.Trail() == ItemsOf(receipt, "record_activity_trail");
    assert record.tag.Some? ==> record.tag.value == TextOf(receipt, "pattern_tag");
    HexIsNulFree(record.activity);
  }

  lemma ReceiptExactly(H: Sha512, capsuleId: Bytes, receipt: Json)
    requires IsDocument(receipt)
    ensures Receipts.IsReceipt(Receipts.ReadReceipt(receipt))
    ensures Receipts.ReceiptSound(H, capsuleId, Receipts.ReadReceipt(receipt)) <==>
            ReceiptStated(H, capsuleId, receipt)
    ensures StrOr(Receipts.ReadReceipt(receipt).chainHash, []) == TextOf(receipt, "record_chain_hash")
  {
    RecordTextIs(H, capsuleId, receipt);
  }

  lemma {:induction false} ReceiptsRead(H: Sha512, capsuleId: Bytes, items: seq<Json>, receipts: seq<Receipts.Receipt>)
    requires AreDocuments(items) && |receipts| == |items|
    requires forall i | 0 <= i < |items| :: receipts[i] == Receipts.ReadReceipt(items[i])
    ensures Receipts.AreReceipts(receipts)
    ensures Receipts.AllSound(H, capsuleId, receipts) <==>
            forall i | 0 <= i < |items| :: ReceiptStated(H, capsuleId, items[i])
    ensures forall i | 0 <= i < |items| :: StrOr(receipts[i].chainHash, []) == TextOf(items[i], "record_chain_hash")
  {
    forall i | 0 <= i < |items|
      ensures Receipts.IsReceipt(receipts[i])
      ensures Receipts.ReceiptSound(H, capsuleId, receipts[i]) <==> ReceiptStated(H, capsuleId, items[i])
      ensures StrOr(receipts[i].chainHash, []) == TextOf(items[i], "record_chain_hash")
    {
      ReceiptExactly(H, capsuleId, items[i]);
    }
  }

  /** In a set that recomputes, the tree over the hashes claimed is the tree over those computed. */
  lemma ClaimedTree(H: Sha512, capsuleId: Bytes, receipts: seq<Receipts.Receipt>, texts: seq<Bytes>)
    requires Receipts.AreReceipts(receipts) && Receipts.AllSound(H, capsuleId, receipts) && receipts != []
    requires |texts| == |receipts| && forall i | 0 <= i < |texts| :: texts[i] == StrOr(receipts[i].chainHash, [])
    ensures ReceiptTree.Root(H, texts) == Some(Receipts.SetRoot(H, capsuleId, receipts))
  {
    var computed := Records.ChainHashes(H, Receipts.RecordsOf(H, capsuleId, receipts));
    forall i | 0 <= i < |texts| ensures Strip(texts[i]) == computed[i] {
      assert Receipts.ReceiptSound(H, capsuleId, receipts[i]);
    }
    assert ReceiptTree.StripAll(texts) == computed;
  }

  lemma {:induction false} SetExactly(
    H: Sha512, capsuleId: Bytes, receipts: seq<Receipts.Receipt>, texts: seq<Bytes>, root: Option<Bytes>)
    requires Receipts.AreReceipts(receipts)
    requires |texts| == |receipts| && forall i | 0 <= i < |texts| :: texts[i] == StrOr(receipts[i].chainHash, [])
    ensures Receipts.Accepted(H, capsuleId, receipts, root) <==>
            ListedUnder(H, texts, root) && Receipts.AllSound(H, capsuleId, receipts)
  {
    if root.Some? {
      ListedExactly(H, texts, root.value);
      if receipts != [] && Receipts.AllSound(H, capsuleId, receipts) {
        ClaimedTree(H, capsuleId, receipts, texts);
      }
    }
  }

  lemma ReceiptFields(doc: Json)
    ensures ReadProof(doc).receipts == Each(Get(doc, "record_receipts"), Receipts.ReadReceipt)
    ensures ReadProof(doc).roots.receipts == StrField(doc, "record_receipts_merkle_root")
    ensures StrOr(ReadProof(doc).capsuleId, []) == TextOf(doc, "capsule_id")
  {
  }

  lemma {:induction false} ReceiptsExactly(s: Setting, doc: Json)
    requires WellFormed(s, ReadProof(doc)) && IsDocument(doc)
    ensures ReceiptsPass(s, ReadProof(doc)) <==> ReceiptsStated(s.H, doc)
  {
    ItemsAreDocuments(doc, "record_receipts");
    ReceiptFields(doc);
    if AsArray(Get(doc, "record_receipts")).Some? {
      var items, root := ItemsOf(doc, "record_receipts"), StrField(doc, "record_receipts_merkle_root");
      SetStated(s.H, TextOf(doc, "capsule_id"), items, ReadProof(doc).receipts.value, root);
    }
  }

  lemma {:induction false} SetStated(
    H: Sha512, capsuleId: Bytes, items: seq<Json>, receipts: seq<Receipts.Receipt>, root: Option<Bytes>)
    requires AreDocuments(items) && |receipts| == |items|
    requires forall i | 0 <= i < |items| :: receipts[i] == Receipts.ReadReceipt(items[i])
    ensures Receipts.AreReceipts(receipts)
    ensures Receipts.Accepted(H, capsuleId, receipts, root) <==>
            ListedUnder(H, TextsOf(items, "record_chain_hash"), root) &&
            forall i | 0 <= i < |items| :: ReceiptStated(H, capsuleId, items[i])
  {
    ReceiptsRead(H, capsuleId, items, receipts);
    SetExactly(H, capsuleId, receipts, TextsOf(items, "record_chain_hash"), root);
  }

  lemma {:induction false} ParentsRead(s: Setting, doc: Json)
    ensures ParentsPass(s, ReadProof(doc)) <==> ParentsStated(s.H, doc)
  {
    var items, p := ItemsOf(doc, "parent_proof_hashes"), ReadProof(doc);
    ParentsExactly(s, p);
    if p.parents.Some? {
      assert p.parents.value == TextsOf(items, "parent_chain_hash");
    }
  }

  lemma StreamsRead(s: Setting, doc: Json)
    ensures StreamsPass(s, ReadProof(doc)) <==> StreamsStated(s.H, doc)
  {
  }

  lemma RecordRead(s: Setting, doc: Json)
    requires s.policy.record.Some?
    ensures RecordPasses(s, ReadProof(doc)) <==> RecordStated(s.H, s.policy.record.value, doc)
  {
    var lines := Activity.SplitLines(s.policy.record.value);
    VersionRead(doc);
    JoinFront(Activity.TreeOf(s.H, lines), [Decimal(|lines|)]);
    StripPrefixed(HashHex(s.H, Activity.BoundPreimage(s.H, lines)));
    assert [Activity.TreeOf(s.H, lines)] + [Decimal(|lines|)] == [Activity.TreeOf(s.H, lines), Decimal(|lines|)];
  }

  lemma {:induction false} StructuresExactly(s: Setting, doc: Json)
    requires WellFormed(s, ReadProof(doc)) && IsDocument(doc)
    ensures StructuresPass(s, ReadProof(doc)) <==> StructuresStated(s, doc)
  {
    ChainExactly(s, doc);
    ReceiptsExactly(s, doc);
    ParentsRead(s, doc);
    StreamsRead(s, doc);
    if s.policy.record.Some? {
      RecordRead(s, doc);
    }
  }

  lemma {:induction false} FinalHashRead(doc: Json)
    ensures FinalHashBound(ReadProof(doc)) <==> FinalHashStated(doc)
  {
    ChainField(doc);
    if AsArray(Get(doc, "chain")).Some? {
      LastEntry(TextOf(doc, "final_hash"), ItemsOf(doc, "chain"), ReadProof(doc).chain.value);
    }
  }

  lemma ChainField(doc: Json)
    ensures ReadProof(doc).chain == Each(Get(doc, "chain"), ReadStep)
    ensures ReadProof(doc).signed.finalHash == TextOf(doc, "final_hash")
  {
  }

  lemma LastEntry(claimed: Bytes, entries: seq<Json>, steps: seq<Chain.Step>)
    requires |steps| == |entries| && forall i | 0 <= i < |entries| :: steps[i] == ReadStep(entries[i])
    ensures (steps != [] && Strip(claimed) == Strip(steps[|steps| - 1].chainHash)) <==>
            (entries != [] && Strip(claimed) == Strip(TextOf(entries[|entries| - 1], "chain_hash")))
  {
  }

  lemma AlgorithmsRead(doc: Json)
    ensures AlgorithmsKnown(ReadProof(doc)) <==> AlgorithmsStated(doc)
  {
    var p := ReadProof(doc);
    var first, second := AsStr(Under(Block(doc), "algorithm")), StrField(doc, "signature_algorithm");
    assert p.algorithms == Texts(first, second);
    TextsKnown(first, second);
  }

  lemma TextsKnown(first: Option<Bytes>, second: Option<Bytes>)
    ensures (forall i | 0 <= i < |Texts(first, second)| :: Texts(first, second)[i] == ED25519) <==>
            (first.Some? ==> first.value == "Ed25519") && (second.Some? ==> second.value == "Ed25519")
  {
    var texts := Texts(first, second);
    assert first.Some? ==> texts[0] == first.value;
    assert second.Some? ==> texts[|texts| - 1] == second.value;
  }

  /** Everything short of the signature, as the document states it. */
  ghost predicate SoundlyStated(s: Setting, doc: Json)
    requires IsDocument(doc)
  {
    GatesStated(s.policy, doc) && StructuresStated(s, doc) && FinalHashStated(doc) && AlgorithmsStated(doc)
  }

  /** The checks short of the signature pass exactly on the documents that state what they must. */
  lemma {:induction false} SoundExactly(s: Setting, doc: Json)
    requires WellFormed(s, ReadProof(doc)) && IsDocument(doc)
    ensures Sound(s, ReadProof(doc)) <==> SoundlyStated(s, doc)
  {
    GatesExactly(s, doc);
    StructuresExactly(s, doc);
    FinalHashRead(doc);
    AlgorithmsRead(doc);
  }
}
