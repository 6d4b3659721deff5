/** The verdict on a proof, told of the document: which stage it reaches, which check it is blamed
    on, and that it has one verdict. */
module PublishedVerdict {
  import opened Wrappers
  import opened Hashing
  import opened Hex
  import opened Json
  import opened CanonicalJson
  import opened SignedView
  import opened ProofSignature
  import opened ProofVerifier
  import opened PublishedProof
  import Chain = DestructionChain
  import Receipts = ReceiptSet
  import Streams = StreamTrail
  import Activity = ActivityRecord

  // ----- who signed what ----------------------------------------------------------------

  /** A text of the signature block, if it is there and not empty. */
  function BlockText(doc: Json, key: string): Option<Bytes> {
    if Block(doc).Some? && TextOf(Block(doc).value, key) != [] then Some(TextOf(Block(doc).value, key)) else None
  }

  /** The key the proof carries: the public key if the field is there at all, else the
      verification key. */
  function OwnKey(doc: Json): Option<Bytes> {
    if Block(doc).Some? && Get(Block(doc).value, "public_key").Some? then BlockText(doc, "public_key")
    else BlockText(doc, "verification_key")
  }

  predicate KnownMode(doc: Json) {
    StrField(doc, "signing_mode").None? || Says(doc, "signing_mode", "nanorix_only")
  }

  /** What must have been signed: the final hash, the document hash or the canonical hash of the
      signed fields, as the version says; nothing in a mode that is not known. */
  ghost function Signable(H: Sha512, rules: seq<Rule>, doc: Json): Option<Bytes>
    requires IsDocument(doc) && SoundRules(rules)
  {
    if Says(doc, "cdp_version", "1.0") then Some(Strip(TextOf(doc, "final_hash")))
    else if Says(doc, "cdp_version", "2.0") then Some(Strip(TextOf(doc, "document_hash")))
    else if SignsDocument(doc) && KnownMode(doc) then Some(RecomputedHash(H, rules, doc))
    else None
  }

  /** The mark of a mode that cannot be checked, which no hash bears. */
  predicate IsMarked(message: Bytes) {
    SENTINEL <= message
  }

  /** The scheme accepts the proof's signature over what must have been signed under some key. */
  ghost predicate Accepts(s: Setting, doc: Json, key: Bytes)
    requires IsDocument(doc) && SoundRules(s.rules)
  {
    BlockText(doc, "signature").Some? && Signable(s.H, s.rules, doc).Some? &&
    !IsMarked(Signable(s.H, s.rules, doc).value) &&
    Holds(s.crypto, Signable(s.H, s.rules, doc).value, BlockText(doc, "signature").value, key)
  }

  ghost predicate OwnKeyAccepts(s: Setting, doc: Json)
    requires IsDocument(doc) && SoundRules(s.rules)
  {
    OwnKey(doc).Some? && Accepts(s, doc, OwnKey(doc).value)
  }

  /** The version of the signing key: the signature block's if it names one, else the proof's. */
  function KeyVersionStated(doc: Json): Bytes {
    if Block(doc).Some? && Get(Block(doc).value, "signing_key_version").Some?
    then TextOf(Block(doc).value, "signing_key_version")
    else TextOf(doc, "signing_key_version")
  }

  function PublishedKey(s: Setting, doc: Json): Option<TrustedKey> {
    if s.policy.trust.None? then None
    else
      var authority := if StrField(doc, "authority_id").Some? then TextOf(doc, "authority_id") else "us-kms-nanorix-v1";
      s.policy.trust.value(authority, KeyVersionStated(doc))
  }

  ghost predicate PublishedKeyAccepts(s: Setting, doc: Json)
    requires IsDocument(doc) && SoundRules(s.rules)
  {
    PublishedKey(s, doc).Some? && !PublishedKey(s, doc).value.revoked && Accepts(s, doc, PublishedKey(s, doc).value.key)
  }

  lemma SignatureRead(doc: Json)
    ensures NonEmpty(ReadSigned(doc).signature) == BlockText(doc, "signature")
    ensures EmbeddedKey(ReadSigned(doc)) == OwnKey(doc)
  {
  }

  lemma AuthorityField(doc: Json)
    ensures ReadProof(doc).authorityId ==
            if StrField(doc, "authority_id").Some? then TextOf(doc, "authority_id") else "us-kms-nanorix-v1"
  {
  }

  lemma KeyVersionField(doc: Json)
    ensures ReadProof(doc).keyVersion == KeyVersionStated(doc)
  {
  }

  lemma KeyRead(s: Setting, doc: Json)
    ensures Lookup(s, ReadProof(doc)) == PublishedKey(s, doc)
  {
    AuthorityField(doc);
    KeyVersionField(doc);
  }

  lemma ModeRead(doc: Json)
    ensures ReadSigned(doc).mode == StrField(doc, "signing_mode")
    ensures KnownMode(doc) <==> StrOr(ReadSigned(doc).mode, NANORIX_ONLY) == NANORIX_ONLY
  {
  }

  /** The message of the stages is what must have been signed, or bears the mark. */
  lemma {:induction false} MessageRead(H: Sha512, rules: seq<Rule>, doc: Json)
    requires IsDocument(doc) && SoundRules(rules)
    ensures StatesVersion(doc) <==> SignedMessage(H, rules, ReadSigned(doc)).Some?
    ensures Signable(H, rules, doc).Some? ==> SignedMessage(H, rules, ReadSigned(doc)) == Signable(H, rules, doc)
    ensures StatesVersion(doc) && Signable(H, rules, doc).None? ==>
            IsMarked(SignedMessage(H, rules, ReadSigned(doc)).value)
  {
    VersionRead(doc);
    ModeRead(doc);
  }

  lemma {:induction false} CheckRead(s: Setting, doc: Json, key: Option<Bytes>)
    requires IsDocument(doc) && SoundRules(s.rules) && StatesVersion(doc)
    ensures CheckAgainst(s.H, s.crypto, s.rules, ReadSigned(doc), key) == Verified <==>
            key.Some? && Accepts(s, doc, key.value)
    ensures CheckAgainst(s.H, s.crypto, s.rules, ReadSigned(doc), key) == Absent <==>
            key.None? || BlockText(doc, "signature").None?
  {
    VerifiedMeans(s.H, s.crypto, s.rules, ReadSigned(doc), key);
    SignatureRead(doc);
    MessageRead(s.H, s.rules, doc);
  }

  // ----- the stage reached --------------------------------------------------------------

  predicate Unsigned(doc: Json) {
    BlockText(doc, "signature").None? || OwnKey(doc).None?
  }

  lemma SignatureExactly(s: Setting, doc: Json)
    requires WellFormed(s, ReadProof(doc)) && IsDocument(doc) && StatesVersion(doc)
    ensures SignatureOf(s, ReadProof(doc)) == Verified <==> OwnKeyAccepts(s, doc)
    ensures SignatureOf(s, ReadProof(doc)) == Absent <==> Unsigned(doc)
  {
    SignatureRead(doc);
    CheckRead(s, doc, OwnKey(doc));
  }

  lemma {:induction false} PublishedExactly(s: Setting, doc: Json)
    requires WellFormed(s, ReadProof(doc)) && IsDocument(doc) && StatesVersion(doc)
    ensures PublishedKeyAccepts(s, doc) <==>
            Lookup(s, ReadProof(doc)).Some? && !Lookup(s, ReadProof(doc)).value.revoked &&
            TrustedCheck(s, ReadProof(doc)) == Verified
  {
    KeyRead(s, doc);
    if PublishedKey(s, doc).Some? {
      CheckRead(s, doc, Some(PublishedKey(s, doc).value.key));
    }
  }

  lemma ValidStages(s: Setting, p: Proof, outcome: Outcome)
    requires WellFormed(s, p) && Agrees(s, p, outcome)
    ensures outcome == Valid(8) <==>
            Sound(s, p) && SignatureOf(s, p) == Verified && Lookup(s, p).Some? && !Lookup(s, p).value.revoked &&
            TrustedCheck(s, p) == Verified
    ensures outcome == Valid(7) <==> Sound(s, p) && SignatureOf(s, p) == Verified && s.policy.trust.None?
    ensures outcome == Valid(4) <==> Sound(s, p) && SignatureOf(s, p) == Absent
    ensures outcome.Valid? ==> outcome.stage in {4, 7, 8}
  {
  }

  lemma RejectedStages(s: Setting, p: Proof, outcome: Outcome)
    requires WellFormed(s, p) && Agrees(s, p, outcome)
    ensures outcome.Rejected? && outcome.stage == 1 <==> p.signed.version.None? && !p.versionFound
    ensures outcome.Rejected? && outcome.stage == 2 <==>
            (p.signed.version.Some? || p.versionFound) && !GatesPass(s, p)
    ensures outcome.Rejected? && outcome.stage == 3 <==> GatesPass(s, p) && !StructuresPass(s, p)
  {
  }

  lemma SoundStatesVersion(s: Setting, doc: Json)
    requires WellFormed(s, ReadProof(doc)) && IsDocument(doc)
    ensures Sound(s, ReadProof(doc)) ==> StatesVersion(doc)
  {
    VersionRead(doc);
  }

  /** Stage 8, 7 and 4 of a document. */
  lemma {:induction false} ValidExactly(s: Setting, doc: Json, outcome: Outcome)
    requires WellFormed(s, ReadProof(doc)) && IsDocument(doc) && Agrees(s, ReadProof(doc), outcome)
    ensures outcome == Valid(8) <==>
            SoundlyStated(s, doc) && OwnKeyAccepts(s, doc) && PublishedKeyAccepts(s, doc)
    ensures outcome == Valid(7) <==> SoundlyStated(s, doc) && OwnKeyAccepts(s, doc) && s.policy.trust.None?
    ensures outcome == Valid(4) <==> SoundlyStated(s, doc) && Unsigned(doc)
    ensures outcome.Valid? ==> outcome.stage in {4, 7, 8}
  {
    ValidStages(s, ReadProof(doc), outcome);
    SoundExactly(s, doc);
    SoundStatesVersion(s, doc);
    if Sound(s, ReadProof(doc)) {
      SignatureExactly(s, doc);
      PublishedExactly(s, doc);
    }
  }

  /** And the stage a document is rejected at before its signature is looked at. */
  lemma {:induction false} RejectedExactly(s: Setting, doc: Json, outcome: Outcome)
    requires WellFormed(s, ReadProof(doc)) && IsDocument(doc) && Agrees(s, ReadProof(doc), outcome)
    ensures outcome.Rejected? && outcome.stage == 1 <==> StrField(doc, "cdp_version").None?
    ensures outcome.Rejected? && outcome.stage == 2 <==>
            StrField(doc, "cdp_version").Some? && !GatesStated(s.policy, doc)
    ensures outcome.Rejected? && outcome.stage == 3 <==> GatesStated(s.policy, doc) && !StructuresStated(s, doc)
  {
    RejectedStages(s, ReadProof(doc), outcome);
    GatesExactly(s, doc);
    StructuresExactly(s, doc);
    VersionRead(doc);
  }

  // ----- the check to blame -------------------------------------------------------------

  /** At stage 2 the first gate is blamed, with what was found there. */
  lemma {:induction false} GateBlamed(s: Setting, doc: Json, fault: Fault)
    requires IsDocument(doc) && IsGateFault(s, ReadProof(doc), fault)
    ensures fault.VersionUnsupported? <==> !StatesVersion(doc)
    ensures fault.SlotPopulated? <==> StatesVersion(doc) && !SlotsEmpty(doc)
    ensures fault.DeclaredRoot? <==> StatesVersion(doc) && SlotsEmpty(doc) && !StatesRecordRoot(doc)
    ensures fault.AuthorityMismatch? <==>
            StatesVersion(doc) && SlotsEmpty(doc) && StatesRecordRoot(doc) && !AuthorityAsked(s.policy, doc)
    ensures fault.RegionMismatch? ==>
            StatesVersion(doc) && SlotsEmpty(doc) && StatesRecordRoot(doc) && AuthorityAsked(s.policy, doc) &&
            !RegionAsked(s.policy, doc) && NamesRegion(ItemsOf(doc, "activity"), fault.actual)
  {
    VersionRead(doc);
    SlotsRead(doc);
    RecordRootRead(doc);
    AuthorityRead(s, doc);
    RegionRead(s, doc);
    RegionNamed(ItemsOf(doc, "activity"));
  }

  lemma ChainBlamed(s: Setting, p: Proof, f: Chain.ChainFault)
    requires p.chain.Some? && Chain.Explains(s.H, s.names, p.timestamp, p.roots, p.chain.value, f)
    ensures !ChainPasses(s, p)
  {
    if f.HashMismatch? || f.IdentityMismatch? {
      assert !Chain.Sound(s.H, s.names, p.timestamp, p.roots, p.chain.value, f.idx);
    }
  }

  lemma ReceiptsBlamed(s: Setting, p: Proof, f: Receipts.ReceiptsFault)
    requires WellFormed(s, p) && p.receipts.Some?
    requires Receipts.Explains(s.H, StrOr(p.capsuleId, []), p.receipts.value, p.roots.receipts, f)
    ensures !ReceiptsPass(s, p)
  {
    if f.RecordHash? {
      assert !Receipts.ReceiptSound(s.H, StrOr(p.capsuleId, []), p.receipts.value[f.idx]);
    }
  }

  lemma StreamBlamed(s: Setting, p: Proof, c: nat)
    requires p.activity.Some? && c < |p.activity.value|
    requires Streams.FirstFailure(s.H, Streams.ReadEvents(p.activity.value), c)
    ensures !StreamsPass(s, p)
  {
  }

  lemma RecordBlamed(s: Setting, p: Proof, f: Activity.RootFault)
    requires s.policy.record.Some?
    requires Activity.Objects(s.H, p.declaredRoot, SignsView(p.signed), s.policy.record.value, f)
    ensures !RecordPasses(s, p)
  {
  }

  /** The structures in the order they are looked at. */
  datatype Structure = TheChain | TheReceipts | TheParents | TheStreams | TheRecord

  function Blamed(fault: Fault): Option<Structure> {
    match fault
    case ChainMissing => Some(TheChain)
    case BadChain(_) => Some(TheChain)
    case BadReceipts(_) => Some(TheReceipts)
    case ParentRootMissing => Some(TheParents)
    case ParentRootMismatch => Some(TheParents)
    case BadStream(_) => Some(TheStreams)
    case BadRecord(_) => Some(TheRecord)
    case _ => None
  }

  ghost function FirstFailing(s: Setting, p: Proof): Structure
    requires WellFormed(s, p)
  {
    if !ChainPasses(s, p) then TheChain
    else if !ReceiptsPass(s, p) then TheReceipts
    else if !ParentsPass(s, p) then TheParents
    else if !StreamsPass(s, p) then TheStreams
    else TheRecord
  }

  lemma FirstStructure(s: Setting, p: Proof, fault: Fault)
    requires WellFormed(s, p) && IsStructureFault(s, p, fault)
    ensures Blamed(fault) == Some(FirstFailing(s, p)) && !StructuresPass(s, p)
  {
    match fault {
      case BadChain(f) => ChainBlamed(s, p, f);
      case BadReceipts(f) => ReceiptsBlamed(s, p, f);
      case BadStream(f) =>
        var c :| 0 <= c < |p.activity.value| &&
          Streams.FirstFailure(s.H, Streams.ReadEvents(p.activity.value), c) &&
          Some(f) == Streams.Verdict(s.H, Streams.ReadEvents(p.activity.value), c);
        StreamBlamed(s, p, c);
      case BadRecord(f) => RecordBlamed(s, p, f);
      case _ =>
    }
  }

  ghost function FirstUnstated(s: Setting, doc: Json): Structure
    requires IsDocument(doc)
  {
    if !ChainStated(s.H, s.names, doc) then TheChain
    else if !ReceiptsStated(s.H, doc) then TheReceipts
    else if !ParentsStated(s.H, doc) then TheParents
    else if !StreamsStated(s.H, doc) then TheStreams
    else TheRecord
  }

  /** At stage 3 the first structure is, in the order chain, receipts, parents, streams, record. */
  lemma {:induction false} StructureBlamed(s: Setting, doc: Json, fault: Fault)
    requires WellFormed(s, ReadProof(doc)) && IsDocument(doc) && IsStructureFault(s, ReadProof(doc), fault)
    ensures Blamed(fault) == Some(FirstUnstated(s, doc))
  {
    FirstStructure(s, ReadProof(doc), fault);
    ChainExactly(s, doc);
    ReceiptsExactly(s, doc);
    ParentsRead(s, doc);
    StreamsRead(s, doc);
  }

  // ----- one verdict --------------------------------------------------------------------

  lemma OneChainFault(s: Setting, p: Proof, f: Chain.ChainFault, g: Chain.ChainFault)
    requires p.chain.Some?
    requires Chain.Explains(s.H, s.names, p.timestamp, p.roots, p.chain.value, f)
    requires Chain.Explains(s.H, s.names, p.timestamp, p.roots, p.chain.value, g)
    ensures f == g
  {
    if !f.StepCount? && !g.StepCount? {
      assert !Chain.Sound(s.H, s.names, p.timestamp, p.roots, p.chain.value, f.idx);
      assert !Chain.Sound(s.H, s.names, p.timestamp, p.roots, p.chain.value, g.idx);
    }
  }

  lemma SoundBefore(H: Sha512, capsuleId: Bytes, receipts: seq<Receipts.Receipt>, idx: nat, i: nat)
    requires Receipts.AreReceipts(receipts) && i < idx <= |receipts|
    requires Receipts.AllSound(H, capsuleId, receipts[..idx])
    ensures Receipts.ReceiptSound(H, capsuleId, receipts[i])
  {
    assert receipts[..idx][i] == receipts[i];
  }

  lemma OneReceiptsFault(s: Setting, p: Proof, f: Receipts.ReceiptsFault, g: Receipts.ReceiptsFault)
    requires WellFormed(s, p) && p.receipts.Some?
    requires Receipts.Explains(s.H, StrOr(p.capsuleId, []), p.receipts.value, p.roots.receipts, f)
    requires Receipts.Explains(s.H, StrOr(p.capsuleId, []), p.receipts.value, p.roots.receipts, g)
    ensures f == g
  {
    var receipts, capsuleId := p.receipts.value, StrOr(p.capsuleId, []);
    if f.RecordHash? && g.RecordHash? {
      if f.idx < g.idx {
        SoundBefore(s.H, capsuleId, receipts, g.idx, f.idx);
      } else if g.idx < f.idx {
        SoundBefore(s.H, capsuleId, receipts, f.idx, g.idx);
      }
    }
  }

  lemma OneStreamFault(H: Sha512, events: seq<Streams.Event>, b: nat, c: nat)
    requires b < |events| && c < |events| && Streams.FirstFailure(H, events, b) && Streams.FirstFailure(H, events, c)
    ensures b == c
  {
  }

  lemma OneRecordFault(s: Setting, p: Proof, f: Activity.RootFault, g: Activity.RootFault)
    requires s.policy.record.Some?
    requires Activity.Objects(s.H, p.declaredRoot, SignsView(p.signed), s.policy.record.value, f)
    requires Activity.Objects(s.H, p.declaredRoot, SignsView(p.signed), s.policy.record.value, g)
    ensures f == g
  {
  }

  lemma OneParentFault(s: Setting, p: Proof, f: Fault, g: Fault)
    requires WellFormed(s, p) && IsStructureFault(s, p, f) && IsStructureFault(s, p, g)
    requires f.ParentRootMissing? || f.ParentRootMismatch?
    requires g.ParentRootMissing? || g.ParentRootMismatch?
    ensures f == g
  {
  }

  lemma OneLinkFault(s: Setting, p: Proof, f: Fault, g: Fault)
    requires WellFormed(s, p) && IsStructureFault(s, p, f) && IsStructureFault(s, p, g)
    requires f.ChainMissing? || f.BadChain?
    requires g.ChainMissing? || g.BadChain?
    ensures f == g
  {
    if f.BadChain? && g.BadChain? {
      OneChainFault(s, p, f.chain, g.chain);
    }
  }

  lemma SameReceiptsFault(s: Setting, p: Proof, f: Receipts.ReceiptsFault, g: Receipts.ReceiptsFault)
    requires WellFormed(s, p) && IsStructureFault(s, p, BadReceipts(f)) && IsStructureFault(s, p, BadReceipts(g))
    ensures f == g
  {
    OneReceiptsFault(s, p, f, g);
  }

  lemma SameRecordFault(s: Setting, p: Proof, f: Activity.RootFault, g: Activity.RootFault)
    requires WellFormed(s, p) && IsStructureFault(s, p, BadRecord(f)) && IsStructureFault(s, p, BadRecord(g))
    ensures f == g
  {
    OneRecordFault(s, p, f, g);
  }

  lemma {:induction false} OneStructureFault(s: Setting, p: Proof, f: Fault, g: Fault)
    requires WellFormed(s, p) && IsStructureFault(s, p, f) && IsStructureFault(s, p, g)
    ensures f == g
  {
    FirstStructure(s, p, f);
    FirstStructure(s, p, g);
    SameBlame(f, g);
    match f {
      case BadReceipts(x) => SameReceiptsFault(s, p, x, g.receipts);
      case BadStream(x) => SameStreamFault(s, p, x, g.stream);
      case BadRecord(x) => SameRecordFault(s, p, x, g.record);
      case ChainMissing => OneLinkFault(s, p, f, g);
      case BadChain(_) => OneLinkFault(s, p, f, g);
      case _ => OneParentFault(s, p, f, g);
    }
  }

  lemma SameBlame(f: Fault, g: Fault)
    requires Blamed(f) == Blamed(g) && Blamed(f).Some?
    ensures f.BadReceipts? <==> g.BadReceipts?
    ensures f.BadStream? <==> g.BadStream?
    ensures f.BadRecord? <==> g.BadRecord?
    ensures f.ChainMissing? || f.BadChain? <==> g.ChainMissing? || g.BadChain?
    ensures f.ParentRootMissing? || f.ParentRootMismatch? <==> g.ParentRootMissing? || g.ParentRootMismatch?
  {
  }

  lemma SameStreamFault(s: Setting, p: Proof, f: Streams.StreamFailure, g: Streams.StreamFailure)
    requires WellFormed(s, p) && IsStructureFault(s, p, BadStream(f)) && IsStructureFault(s, p, BadStream(g))
    ensures f == g
  {
    var events := Streams.ReadEvents(p.activity.value);
    var b :| 0 <= b < |events| && Streams.FirstFailure(s.H, events, b) && Some(f) == Streams.Verdict(s.H, events, b);
    var c :| 0 <= c < |events| && Streams.FirstFailure(s.H, events, c) && Some(g) == Streams.Verdict(s.H, events, c);
    OneStreamFault(s.H, events, b, c);
  }

  lemma OneGateFault(s: Setting, p: Proof, f: Fault, g: Fault)
    requires IsGateFault(s, p, f) && IsGateFault(s, p, g)
    ensures f == g
  {
  }

  lemma OneSignatureFault(s: Setting, p: Proof, i: nat, f: Fault, j: nat, g: Fault)
    requires WellFormed(s, p) && Sound(s, p) && IsSignatureFault(s, p, i, f) && IsSignatureFault(s, p, j, g)
    ensures i == j && f == g
  {
  }

  lemma SignatureOrValid(s: Setting, p: Proof, stage: nat, f: Fault, valid: nat)
    requires WellFormed(s, p) && Sound(s, p) && IsSignatureFault(s, p, stage, f)
    ensures !Agrees(s, p, Valid(valid))
  {
  }

  /** A proof has one verdict: stage, fault and all. */
  lemma {:induction false} OneVerdict(s: Setting, p: Proof, a: Outcome, b: Outcome)
    requires WellFormed(s, p) && Agrees(s, p, a) && Agrees(s, p, b)
    ensures a == b
  {
    if p.signed.version.None? && !p.versionFound {
    } else if !GatesPass(s, p) {
      OneGateFault(s, p, a.fault, b.fault);
    } else if !StructuresPass(s, p) {
      OneStructureFault(s, p, a.fault, b.fault);
    } else if FinalHashBound(p) && AlgorithmsKnown(p) {
      OneSoundVerdict(s, p, a, b);
    }
  }

  lemma {:induction false} OneSoundVerdict(s: Setting, p: Proof, a: Outcome, b: Outcome)
    requires WellFormed(s, p) && Sound(s, p) && Agrees(s, p, a) && Agrees(s, p, b)
    ensures a == b
  {
    if a.Rejected? && b.Rejected? {
      OneSignatureFault(s, p, a.stage, a.fault, b.stage, b.fault);
    } else if a.Rejected? {
      SignatureOrValid(s, p, a.stage, a.fault, b.stage);
    } else if b.Rejected? {
      SignatureOrValid(s, p, b.stage, b.fault, a.stage);
    }
  }
}
