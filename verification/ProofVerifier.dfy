/** The stages a proof passes on its way to a verified signature, and what a proof that passes
    them all commits its signer to. */
module ProofVerifier {
  import opened Wrappers
  import opened Hashing
  import opened Hex
  import opened Encoding
  import opened Json
  import opened NulText
  import opened CanonicalJson
  import opened SignedView
  import opened ProofSignature
  import Chain = DestructionChain
  import ReceiptTree
  import Receipts = ReceiptSet
  import Streams = StreamTrail
  import Activity = ActivityRecord
  import KeyTimestamp

  /** A proof as the stages read it. */
  datatype Proof = Proof(
    versionFound: bool, signed: Signed, slot: Option<string>, declaredRoot: Option<Json>,
    signingAuthority: Option<Bytes>, region: Bytes, chain: Option<seq<Chain.Step>>, timestamp: Bytes,
    roots: Chain.Roots, capsuleId: Option<Bytes>, receipts: Option<seq<Receipts.Receipt>>,
    parents: Option<seq<Bytes>>, activity: Option<seq<Json>>, algorithms: seq<Bytes>,
    authorityId: Bytes, keyVersion: Bytes)

  datatype Fault =
    | VersionMissing
    | VersionUnsupported
    | SlotPopulated(slot: string)
    | DeclaredRoot(root: Activity.RootFault)
    | AuthorityMismatch(claimed: Option<Bytes>)
    | RegionMismatch(actual: Bytes)
    | ChainMissing
    | BadChain(chain: Chain.ChainFault)
    | BadReceipts(receipts: Receipts.ReceiptsFault)
    | ParentRootMissing
    | ParentRootMismatch
    | BadStream(stream: Streams.StreamFailure)
    | BadRecord(record: Activity.RootFault)
    | FinalHashMismatch
    | AlgorithmUnsupported
    | ModeUnsupported(mode: Bytes)
    | KeyVersionUnknown(version: Bytes)
    | BadSignature(reason: Failure)
    | AuthorityRevoked

  datatype Outcome = Valid(stage: nat) | Rejected(stage: nat, fault: Fault)

  const ED25519: Bytes := "Ed25519"

  /** A published key and whether its authority has been revoked. */
  datatype TrustedKey = TrustedKey(key: Bytes, revoked: bool)

  /** What the reader of a proof asks for: pins, the customer's own record, and the published
      keys by authority and version. */
  datatype Policy = Policy(
    authority: Option<Bytes>, region: Option<Bytes>, record: Option<Bytes>,
    trust: Option<(Bytes, Bytes) -> Option<TrustedKey>>)

  /** Everything a verifier goes by: the hash, the signature scheme, the names of the steps, the
      signed fields and the policy. */
  datatype Setting = Setting(H: Sha512, crypto: Crypto, names: Chain.Names, rules: seq<Rule>, policy: Policy)

  /** The published setting. */
  function Published(H: Sha512, crypto: Crypto, policy: Policy): (s: Setting)
    ensures SoundRules(s.rules) && |s.names| == Chain.STEPS
  {
    RulesSound();
    Setting(H, crypto, Chain.CANONICAL, RULES, policy)
  }

  ghost predicate WellFormed(s: Setting, p: Proof) {
    IsDocument(p.signed.doc) && SoundRules(s.rules) && (p.receipts.Some? ==> Receipts.AreReceipts(p.receipts.value))
  }

  // ----- reading ------------------------------------------------------------------------

  /** Slots of a proof that no signer fills. */
  const SLOTS: seq<string> := [
    "customer_attestation", "policy_attestation", "third_party_attestation", "retention_policy_attestation",
    "witness_signatures", "pqc_attestation", "customer_pqc_attestation"
  ]

  /** The first slot that holds anything but null. */
  function FirstPopulated(doc: Json, slots: seq<string>): (slot: Option<string>)
    ensures slot.None? <==> forall i | 0 <= i < |slots| :: IsBlank(Get(doc, slots[i]))
  {
    if slots == [] then None
    else if !IsBlank(Get(doc, slots[0])) then Some(slots[0])
    else
      var rest := FirstPopulated(doc, slots[1..]);
      assert forall i | 1 <= i < |slots| :: slots[i] == slots[1..][i - 1];
      rest
  }

  /** The region of the first start event of a trail. */
  function RegionOf(events: seq<Json>): Bytes {
    if events == [] then []
    else if StrField(events[0], "event") == Some("capsule_started") then StrOr(StrField(events[0], "region"), [])
    else RegionOf(events[1..])
  }

  const DEFAULT_AUTHORITY: Bytes := "us-kms-nanorix-v1"

  function Under(v: Option<Json>, key: string): Option<Json> {
    if v.Some? then Get(v.value, key) else None
  }

  function ReadSigned(doc: Json): Signed {
    var attestation, version := Get(doc, "attestation"), StrField(doc, "cdp_version");
    Signed(
      doc, if version.Some? then ReadVersion(version.value) else None, StrField(doc, "signing_mode"),
      StrOr(StrField(doc, "final_hash"), []), StrOr(StrField(doc, "document_hash"), []),
      Under(attestation, "public_key"), Under(attestation, "verification_key"), Under(attestation, "signature"))
  }

  function ReadStep(v: Json): Chain.Step {
    Chain.Step(StrOr(StrField(v, "subsystem"), []), StrOr(StrField(v, "chain_hash"), []))
  }

  function Each<T>(v: Option<Json>, read: Json -> T): Option<seq<T>> {
    if AsArray(v).Some? then
      var items := AsArray(v).value;
      Some(seq(|items|, i requires 0 <= i < |items| => read(items[i])))
    else None
  }

  function Texts(first: Option<Bytes>, second: Option<Bytes>): seq<Bytes> {
    (if first.Some? then [first.value] else []) + if second.Some? then [second.value] else []
  }

  function ReadProof(doc: Json): Proof {
    var attestation, activity := Get(doc, "attestation"), AsArray(Get(doc, "activity"));
    Proof(
      StrField(doc, "cdp_version").Some?, ReadSigned(doc), FirstPopulated(doc, SLOTS),
      Get(doc, "customer_declared_activity_root"), AsStr(Under(Get(doc, "signing_authority"), "authority_id")),
      if activity.Some? then RegionOf(activity.value) else [], Each(Get(doc, "chain"), ReadStep),
      KeyTimestamp.Resolve(doc).0, ReadRoots(doc), StrField(doc, "capsule_id"),
      Each(Get(doc, "record_receipts"), Receipts.ReadReceipt),
      Each(Get(doc, "parent_proof_hashes"), v => StrOr(StrField(v, "parent_chain_hash"), [])), activity,
      Texts(AsStr(Under(attestation, "algorithm")), StrField(doc, "signature_algorithm")),
      StrOr(StrField(doc, "authority_id"), DEFAULT_AUTHORITY),
      StrOr(AsStr(OrElse(Under(attestation, "signing_key_version"), Get(doc, "signing_key_version"))), []))
  }

  function ReadRoots(doc: Json): Chain.Roots {
    Chain.Roots(StrField(doc, "record_receipts_merkle_root"), StrField(doc, "parent_proofs_merkle_root"))
  }

  // ----- the checks ---------------------------------------------------------------------

  predicate AuthorityPinned(s: Setting, p: Proof) {
    s.policy.authority.Some? ==> p.signingAuthority == s.policy.authority
  }

  predicate RegionPinned(s: Setting, p: Proof) {
    s.policy.region.Some? ==> p.region == s.policy.region.value
  }

  /** Stages 1 and 2. */
  predicate GatesPass(s: Setting, p: Proof) {
    p.signed.version.Some? && p.slot.None? && RootReadable(p) && AuthorityPinned(s, p) && RegionPinned(s, p)
  }

  predicate RootReadable(p: Proof) {
    Activity.Gate(p.declaredRoot, SignsView(p.signed)).None?
  }

  predicate ChainPasses(s: Setting, p: Proof) {
    p.chain.Some? && Chain.Passes(s.H, s.names, p.timestamp, p.roots, p.chain.value)
  }

  ghost predicate ReceiptsPass(s: Setting, p: Proof)
    requires WellFormed(s, p)
  {
    p.receipts.None? || Receipts.Accepted(s.H, StrOr(p.capsuleId, []), p.receipts.value, p.roots.receipts)
  }

  predicate ParentsPass(s: Setting, p: Proof) {
    match p.parents
    case None => true
    case Some(parents) =>
      if p.roots.parents.None? then parents == []
      else StrOr(ReceiptTree.Root(s.H, parents), []) == Strip(p.roots.parents.value)
  }

  ghost predicate StreamsPass(s: Setting, p: Proof) {
    p.activity.None? ||
    forall c | 0 <= c < |p.activity.value| :: !Streams.Fails(s.H, Streams.ReadEvents(p.activity.value), c)
  }

  /** The record offered, if any, is the one whose root the proof declares. */
  predicate RecordPasses(s: Setting, p: Proof) {
    s.policy.record.Some? ==>
      Activity.Verifies(s.H, p.declaredRoot, SignsView(p.signed), s.policy.record.value)
  }

  predicate FinalHashBound(p: Proof) {
    p.chain.Some? && p.chain.value != [] &&
    Strip(p.signed.finalHash) == Strip(p.chain.value[|p.chain.value| - 1].chainHash)
  }

  predicate AlgorithmsKnown(p: Proof) {
    forall i | 0 <= i < |p.algorithms| :: p.algorithms[i] == ED25519
  }

  ghost predicate StructuresPass(s: Setting, p: Proof)
    requires WellFormed(s, p)
  {
    ChainPasses(s, p) && ReceiptsPass(s, p) && ParentsPass(s, p) && StreamsPass(s, p) && RecordPasses(s, p)
  }

  /** Every check short of the signature. */
  ghost predicate Sound(s: Setting, p: Proof)
    requires WellFormed(s, p)
  {
    GatesPass(s, p) && StructuresPass(s, p) && FinalHashBound(p) && AlgorithmsKnown(p)
  }

  ghost function SignatureOf(s: Setting, p: Proof): Check
    requires WellFormed(s, p)
  {
    VerifySignature(s.H, s.crypto, s.rules, p.signed)
  }

  function Lookup(s: Setting, p: Proof): Option<TrustedKey> {
    if s.policy.trust.Some? then s.policy.trust.value(p.authorityId, p.keyVersion) else None
  }

  /** The signature checked against the published key. */
  ghost function TrustedCheck(s: Setting, p: Proof): Check
    requires WellFormed(s, p) && Lookup(s, p).Some?
  {
    CheckAgainst(s.H, s.crypto, s.rules, p.signed, Some(Lookup(s, p).value.key))
  }

  // ----- the verdict --------------------------------------------------------------------

  /** What a fault found before the chain says; a gate is blamed only when those before it pass. */
  ghost predicate IsGateFault(s: Setting, p: Proof, fault: Fault) {
    match fault
    case VersionUnsupported => p.signed.version.None? && p.versionFound
    case SlotPopulated(slot) => p.signed.version.Some? && p.slot == Some(slot)
    case DeclaredRoot(f) =>
      p.signed.version.Some? && p.slot.None? && Activity.Gate(p.declaredRoot, SignsView(p.signed)) == Some(f)
    case AuthorityMismatch(claimed) =>
      p.signed.version.Some? && p.slot.None? && RootReadable(p) && !AuthorityPinned(s, p) &&
      claimed == p.signingAuthority
    case RegionMismatch(actual) =>
      p.signed.version.Some? && p.slot.None? && RootReadable(p) && AuthorityPinned(s, p) && !RegionPinned(s, p) &&
      actual == p.region
    case _ => false
  }

  /** What a fault found at stage 3 says; an earlier structure is always blamed first. */
  ghost predicate IsStructureFault(s: Setting, p: Proof, fault: Fault)
    requires WellFormed(s, p)
  {
    match fault
    case ChainMissing => p.chain.None?
    case BadChain(f) => p.chain.Some? && Chain.Explains(s.H, s.names, p.timestamp, p.roots, p.chain.value, f)
    case BadReceipts(f) =>
      ChainPasses(s, p) && p.receipts.Some? &&
      Receipts.Explains(s.H, StrOr(p.capsuleId, []), p.receipts.value, p.roots.receipts, f)
    case ParentRootMissing => ChainPasses(s, p) && ReceiptsPass(s, p) && p.roots.parents.None? && !ParentsPass(s, p)
    case ParentRootMismatch => ChainPasses(s, p) && ReceiptsPass(s, p) && p.roots.parents.Some? && !ParentsPass(s, p)
    case BadStream(f) =>
      ChainPasses(s, p) && ReceiptsPass(s, p) && ParentsPass(s, p) && p.activity.Some? &&
      exists c | 0 <= c < |p.activity.value| ::
        Streams.FirstFailure(s.H, Streams.ReadEvents(p.activity.value), c) &&
        Some(f) == Streams.Verdict(s.H, Streams.ReadEvents(p.activity.value), c)
    case BadRecord(f) =>
      ChainPasses(s, p) && ReceiptsPass(s, p) && ParentsPass(s, p) && StreamsPass(s, p) && s.policy.record.Some? &&
      Activity.Objects(s.H, p.declaredRoot, SignsView(p.signed), s.policy.record.value, f)
    case _ => false
  }

  /** What a fault found by the signature stages says. */
  ghost predicate IsSignatureFault(s: Setting, p: Proof, stage: nat, fault: Fault)
    requires WellFormed(s, p) && Sound(s, p)
  {
    match fault
    case ModeUnsupported(mode) => stage == 4 && SignatureOf(s, p) == Unsupported(mode)
    case KeyVersionUnknown(version) =>
      stage == 6 && SignatureOf(s, p) == Verified && s.policy.trust.Some? && Lookup(s, p).None? &&
      version == p.keyVersion
    case BadSignature(reason) =>
      stage == 7 &&
      (SignatureOf(s, p) == Failed(reason) ||
       (SignatureOf(s, p) == Verified && Lookup(s, p).Some? && TrustedCheck(s, p) == Failed(reason)))
    case AuthorityRevoked =>
      stage == 8 && SignatureOf(s, p) == Verified && Lookup(s, p).Some? && TrustedCheck(s, p) == Verified &&
      Lookup(s, p).value.revoked
    case _ => false
  }

  /** A verdict that fits the proof: eight when the signature also verifies under a published,
      unrevoked key, seven when no published keys are at hand, four when there is no signature
      to check, and otherwise the first objection. */
  ghost predicate Agrees(s: Setting, p: Proof, outcome: Outcome)
    requires WellFormed(s, p)
  {
    match outcome
    case Valid(stage) =>
      Sound(s, p) &&
      if SignatureOf(s, p) == Absent then stage == 4
      else
        SignatureOf(s, p) == Verified &&
        if s.policy.trust.None? then stage == 7
        else stage == 8 && Lookup(s, p).Some? && TrustedCheck(s, p) == Verified && !Lookup(s, p).value.revoked
    case Rejected(stage, fault) =>
      if p.signed.version.None? && !p.versionFound then stage == 1 && fault == VersionMissing
      else if !GatesPass(s, p) then stage == 2 && IsGateFault(s, p, fault)
      else if !StructuresPass(s, p) then stage == 3 && IsStructureFault(s, p, fault)
      else if !FinalHashBound(p) then stage == 4 && fault == FinalHashMismatch
      else if !AlgorithmsKnown(p) then stage == 4 && fault == AlgorithmUnsupported
      else IsSignatureFault(s, p, stage, fault)
  }

  /** A proof has one verdict for being valid: at stage 8 exactly when it is sound and the scheme
      accepts its signature over its message under the published key as well as its own. */
  lemma ValidMeansSound(s: Setting, p: Proof, outcome: Outcome)
    requires WellFormed(s, p) && Agrees(s, p, outcome)
    ensures outcome == Valid(8) <==>
            Sound(s, p) && SignatureOf(s, p) == Verified && Lookup(s, p).Some? && !Lookup(s, p).value.revoked &&
            SignedMessage(s.H, s.rules, p.signed).Some? && NonEmpty(p.signed.signature).Some? &&
            Holds(s.crypto, SignedMessage(s.H, s.rules, p.signed).value, NonEmpty(p.signed.signature).value,
                  Lookup(s, p).value.key)
    ensures outcome == Valid(7) <==> Sound(s, p) && SignatureOf(s, p) == Verified && s.policy.trust.None?
    ensures outcome == Valid(4) <==> Sound(s, p) && SignatureOf(s, p) == Absent
  {
    VerifiedMeans(s.H, s.crypto, s.rules, p.signed, EmbeddedKey(p.signed));
    if Lookup(s, p).Some? {
      VerifiedMeans(s.H, s.crypto, s.rules, p.signed, Some(Lookup(s, p).value.key));
    }
  }

  // ----- the ladder ---------------------------------------------------------------------

  /** Stage 2 and what comes before it. */
  method CheckGates(s: Setting, p: Proof) returns (fault: Option<Fault>)
    requires p.signed.version.Some?
    ensures fault.None? <==> GatesPass(s, p)
    ensures fault.Some? ==> IsGateFault(s, p, fault.value)
  {
    if p.slot.Some? {
      return Some(SlotPopulated(p.slot.value));
    }
    var gate := Activity.Gate(p.declaredRoot, SignsView(p.signed));
    if gate.Some? {
      return Some(DeclaredRoot(gate.value));
    }
    if s.policy.authority.Some? && p.signingAuthority != s.policy.authority {
      return Some(AuthorityMismatch(p.signingAuthority));
    }
    if s.policy.region.Some? && p.region != s.policy.region.value {
      return Some(RegionMismatch(p.region));
    }
    fault := None;
  }

  method CheckParents(s: Setting, p: Proof) returns (fault: Option<Fault>)
    ensures fault.None? <==> ParentsPass(s, p)
    ensures fault.Some? ==> fault.value == if p.roots.parents.None? then ParentRootMissing else ParentRootMismatch
  {
    if p.parents.None? {
      return None;
    }
    if p.roots.parents.None? {
      return if p.parents.value == [] then None else Some(ParentRootMissing);
    }
    var root := ReceiptTree.MerkleRoot(s.H, p.parents.value);
    fault := if StrOr(root, []) != Strip(p.roots.parents.value) then Some(ParentRootMismatch) else None;
  }

  /** Stage 3: the chain and everything hung on it. */
  method CheckStructures(s: Setting, p: Proof) returns (fault: Option<Fault>)
    requires WellFormed(s, p)
    ensures fault.None? <==> StructuresPass(s, p)
    ensures fault.Some? ==> IsStructureFault(s, p, fault.value)
  {
    if p.chain.None? {
      return Some(ChainMissing);
    }
    var chain := Chain.WalkChain(s.H, s.names, p.timestamp, p.roots, p.chain.value);
    if chain.Some? {
      return Some(BadChain(chain.value));
    }
    if p.receipts.Some? {
      var bad := Receipts.VerifyRecordReceipts(s.H, StrOr(p.capsuleId, []), p.receipts.value, p.roots.receipts);
      if bad.Some? {
        return Some(BadReceipts(bad.value));
      }
    }
    fault := CheckParents(s, p);
    if fault.Some? {
      return;
    }
    if p.activity.Some? {
      var stream := Streams.VerifyStreamingMerkleRoots(s.H, p.activity.value);
      if stream.Some? {
        return Some(BadStream(stream.value));
      }
    }
    if s.policy.record.Some? {
      var record := Activity.VerifyDeclaredActivity(s.H, p.declaredRoot, SignsView(p.signed), s.policy.record.value);
      if record.Err? {
        return Some(BadRecord(record.error));
      }
    }
  }

  method RecomputeCanonicalHash(s: Setting, doc: Json) returns (h: Bytes)
    requires IsDocument(doc) && SoundRules(s.rules)
    ensures h == RecomputedHash(s.H, s.rules, doc)
  {
    var view := BuildView(s.rules, doc);
    ViewIsDocument(s.rules, doc);
    var buf := new Buffer();
    WriteValue(buf, Obj(view), false);
    assert buf.text == Emit(Obj(view), false);
    h := HashHex(s.H, Utf8(buf.text));
  }

  method CheckSignature(s: Setting, p: Signed, key: Option<Bytes>) returns (check: Check)
    requires IsDocument(p.doc) && SoundRules(s.rules)
    ensures check == CheckAgainst(s.H, s.crypto, s.rules, p, key)
  {
    var sig := NonEmpty(p.signature);
    if sig.None? || key.None? || p.version.None? {
      return Absent;
    }
    var message;
    match p.version.value {
      case V10 => message := Strip(p.finalHash);
      case V20 => message := Strip(p.documentHash);
      case _ =>
        var mode := StrOr(p.mode, NANORIX_ONLY);
        if mode == NANORIX_ONLY {
          message := RecomputeCanonicalHash(s, p.doc);
        } else {
          message := SENTINEL + mode;
        }
    }
    check := if SENTINEL <= message then Unsupported(message[|SENTINEL|..])
             else VerifyMessage(s.crypto, message, sig.value, key.value);
  }

  /** Stages 6 to 8 for a proof whose own key verified. */
  method Anchor(s: Setting, p: Proof) returns (outcome: Outcome)
    requires WellFormed(s, p) && Sound(s, p) && SignatureOf(s, p) == Verified
    ensures Agrees(s, p, outcome)
  {
    if s.policy.trust.None? {
      return Valid(7);
    }
    var lookup := s.policy.trust.value(p.authorityId, p.keyVersion);
    if lookup.None? {
      return Rejected(6, KeyVersionUnknown(p.keyVersion));
    }
    var check := CheckSignature(s, p.signed, Some(lookup.value.key));
    if check.Failed? {
      return Rejected(7, BadSignature(check.reason));
    }
    outcome := if lookup.value.revoked then Rejected(8, AuthorityRevoked) else Valid(8);
  }

  method VerifyAuditProof(s: Setting, p: Proof) returns (outcome: Outcome)
    requires WellFormed(s, p)
    ensures Agrees(s, p, outcome)
  {
    if p.signed.version.None? {
      return if p.versionFound then Rejected(2, VersionUnsupported) else Rejected(1, VersionMissing);
    }
    var gate := CheckGates(s, p);
    if gate.Some? {
      return Rejected(2, gate.value);
    }
    var fault := CheckStructures(s, p);
    if fault.Some? {
      return Rejected(3, fault.value);
    }
    if Strip(p.signed.finalHash) != Strip(p.chain.value[|p.chain.value| - 1].chainHash) {
      return Rejected(4, FinalHashMismatch);
    }
    if exists i :: 0 <= i < |p.algorithms| && p.algorithms[i] != ED25519 {
      return Rejected(4, AlgorithmUnsupported);
    }
    var check := CheckSignature(s, p.signed, EmbeddedKey(p.signed));
    match check {
      case Verified => outcome := Anchor(s, p);
      case Absent => outcome := Valid(4);
      case Unsupported(mode) => outcome := Rejected(4, ModeUnsupported(mode));
      case Failed(reason) => outcome := Rejected(7, BadSignature(reason));
    }
  }

  // ----- what a verified proof commits to -----------------------------------------------

  /** In version 1.0 the signed text is the final hash, and a proof that passes the chain walk
      has one timestamp and one list of roots behind it. */
  lemma FinalHashSigned(s: Setting, p: Proof, q: Proof)
    requires WellFormed(s, p) && WellFormed(s, q) && Sound(s, p) && Sound(s, q)
    requires p.signed.version == Some(V10) && q.signed.version == Some(V10)
    requires AllNulFree(p.roots.Present()) && AllNulFree(q.roots.Present())
    requires InjectiveOn(s.H, Chain.FinalQueries(s.H, s.names, p.timestamp, p.roots)
                              + Chain.FinalQueries(s.H, s.names, q.timestamp, q.roots))
    ensures SignedMessage(s.H, s.rules, p.signed) == SignedMessage(s.H, s.rules, q.signed) <==>
            p.timestamp == q.timestamp && p.roots.Present() == q.roots.Present()
  {
    var n := Chain.STEPS - 1;
    assert Chain.Sound(s.H, s.names, p.timestamp, p.roots, p.chain.value, n);
    assert Chain.Sound(s.H, s.names, q.timestamp, q.roots, q.chain.value, n);
    Chain.FinalHashBinds(s.H, s.names, p.timestamp, p.roots, q.timestamp, q.roots);
  }
}
