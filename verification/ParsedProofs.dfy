/** From a parsed document to what its signature commits to: reading discharges what the stages
    take for granted, and one signed view means one chain and one timestamp. */
module ParsedProofs {
  import opened Wrappers
  import opened Hashing
  import opened Json
  import opened CanonicalJson
  import opened SignedView
  import opened ProofSignature
  import opened ProofVerifier
  import Chain = DestructionChain
  import Receipts = ReceiptSet
  import Bundle = PortableBundle
  import Lineage
  import Boundary = BoundaryDocument
  import Chains = BoundaryChain

  // ----- reading is sound ---------------------------------------------------------------

  lemma ReadReceiptIsReceipt(v: Json)
    requires IsDocument(v)
    ensures Receipts.IsReceipt(Receipts.ReadReceipt(v))
  {
  }

  lemma EachReceipt(items: seq<Json>)
    requires AreDocuments(items)
    ensures Each(Some(Arr(items)), Receipts.ReadReceipt).Some?
    ensures Receipts.AreReceipts(Each(Some(Arr(items)), Receipts.ReadReceipt).value)
  {
    forall i | 0 <= i < |items| ensures Receipts.IsReceipt(Receipts.ReadReceipt(items[i])) {
      ReadReceiptIsReceipt(items[i]);
    }
  }

  /** Every document that decodes is one the stages can be run on. */
  lemma ParsedIsWellFormed(H: Sha512, crypto: Crypto, policy: Policy, doc: Json)
    requires IsDocument(doc)
    ensures WellFormed(Published(H, crypto, policy), ReadProof(doc))
  {
    var receipts := Get(doc, "record_receipts");
    if AsArray(receipts).Some? {
      EachReceipt(AsArray(receipts).value);
    }
  }

  function ReadDocs(docs: seq<Json>): (r: seq<Boundary.Doc>)
    ensures |r| == |docs| && forall i | 0 <= i < |docs| :: r[i] == Boundary.ReadDoc(docs[i])
  {
    seq(|docs|, i requires 0 <= i < |docs| => Boundary.ReadDoc(docs[i]))
  }

  /** The same for boundary documents. */
  lemma ParsedAreDocs(docs: seq<Json>)
    requires AreDocuments(docs)
    ensures Chains.AreDocs(ReadDocs(docs)) && Chains.AreRead(ReadDocs(docs))
  {
  }

  // ----- from document to bundle --------------------------------------------------------

  /** A document that is sound, whose own signature verifies and whose receipt at `index` is as
      its issuer wrote it. */
  ghost predicate Exports(s: Setting, doc: Json, index: nat)
    requires IsDocument(doc)
  {
    var src := Bundle.ReadSource(doc);
    && WellFormed(s, src.proof) && Sound(s, src.proof) && SignatureOf(s, src.proof) == Verified
    && Bundle.OneKey(src) && src.proof.capsuleId.Some? && src.proof.receipts.Some?
    && Bundle.IssuedAt(s.H, src.proof.capsuleId.value, src.proof.receipts.value, index)
  }

  /** Of such a document extraction misses nothing but a time of destruction or a key id. */
  lemma {:induction false} ExtractsExactly(s: Setting, doc: Json, index: nat)
    requires IsDocument(doc) && Exports(s, doc, index)
    ensures SoundRules(s.rules) &&
            (Bundle.Extract(s.H, s.rules, Bundle.ReadSource(doc), index).Ok? <==>
             Bundle.ReadSource(doc).destroyedAt.Some? && Bundle.ReadSource(doc).keyId.Some?)
  {
    var src := Bundle.ReadSource(doc);
    VerifiedMeans(s.H, s.crypto, s.rules, src.proof.signed, EmbeddedKey(src.proof.signed));
    KeyIsTaken(src);
    SignatureIsTaken(src);
    SoundIsAnchored(s, src, index);
    ExtractsWhenAnchored(s, src, index);
  }

  lemma ExtractsWhenAnchored(s: Setting, src: Bundle.Source, index: nat)
    requires IsDocument(src.proof.signed.doc) && SoundRules(s.rules)
    requires src.proof.receipts.Some? && index < |src.proof.receipts.value| && src.proof.capsuleId.Some?
    requires Bundle.KeyAnchor(src).Some? && Bundle.SignatureAnchor(src).Some?
    requires src.proof.roots.receipts.Some? && Bundle.Step8Anchor(src).Some?
    ensures Bundle.Extract(s.H, s.rules, src, index).Ok? <==> src.destroyedAt.Some? && src.keyId.Some?
  {
  }

  lemma SignatureIsTaken(src: Bundle.Source)
    requires NonEmpty(src.proof.signed.signature).Some?
    ensures Bundle.SignatureAnchor(src).Some?
  {
  }

  /** A sound proof with receipts carries their root and a chain. */
  lemma SoundIsAnchored(s: Setting, src: Bundle.Source, index: nat)
    requires WellFormed(s, src.proof) && Sound(s, src.proof)
    requires src.proof.receipts.Some? && index < |src.proof.receipts.value|
    ensures src.proof.roots.receipts.Some? && Bundle.Step8Anchor(src).Some?
  {
  }

  lemma KeyIsTaken(src: Bundle.Source)
    requires Bundle.OneKey(src) && EmbeddedKey(src.proof.signed).Some?
    ensures Bundle.KeyAnchor(src).Some?
  {
  }

  /** From the document to a bundle that verifies; version 2.0 apart. */
  lemma ParsedBundleVerifies(s: Setting, doc: Json, index: nat)
    requires IsDocument(doc) && Exports(s, doc, index) && ReadSigned(doc).version != Some(V20)
    requires StrField(doc, "destroyed_at").Some? && Bundle.ReadSource(doc).keyId.Some?
    ensures SoundRules(s.rules) && Bundle.Extract(s.H, s.rules, Bundle.ReadSource(doc), index).Ok?
    ensures var b := Bundle.Extract(s.H, s.rules, Bundle.ReadSource(doc), index).value;
            Receipts.IsReceipt(b.receipt) && Bundle.VerifyBundle(s.H, s.crypto, b).None?
  {
    ExtractsExactly(s, doc, index);
    var src := Bundle.ReadSource(doc);
    Bundle.BundleRoundTrip(s, src, index, Bundle.Extract(s.H, s.rules, src, index).value);
  }

  // ----- one signed view, one chain, one timestamp --------------------------------------

  const CHAIN_RULE: nat := 10
  const PARENTS_RULE: nat := 17
  const RECEIPTS_RULE: nat := 18

  lemma RulesByPlace()
    ensures |RULES| == 20
    ensures RULES[CHAIN_RULE].source == CarriedOr("chain", Arr([]))
    ensures RULES[PARENTS_RULE].source == IfPresent("parent_proofs_merkle_root")
    ensures RULES[RECEIPTS_RULE].source == IfPresent("record_receipts_merkle_root")
  {
  }

  lemma SameRoots(d: Json, e: Json)
    requires forall i | 0 <= i < |RULES| :: Agree(RULES[i].source, d, e)
    ensures ReadRoots(d) == ReadRoots(e)
  {
    RulesByPlace();
    assert Agree(RULES[PARENTS_RULE].source, d, e) && Agree(RULES[RECEIPTS_RULE].source, d, e);
  }

  function ReadChain(doc: Json): Option<seq<Chain.Step>> {
    Each(Get(doc, "chain"), ReadStep)
  }

  lemma SameChain(d: Json, e: Json)
    requires forall i | 0 <= i < |RULES| :: Agree(RULES[i].source, d, e)
    requires ReadChain(d).Some? && ReadChain(e).Some?
    ensures ReadChain(d) == ReadChain(e)
  {
    RulesByPlace();
    assert Agree(RULES[CHAIN_RULE].source, d, e);
  }

  /** Proofs that sign their view and pass have, with one signed message, one chain and one
      timestamp, although what a timestamp is recovered from is itself unsigned. */
  lemma SignedViewBindsWalk(s: Setting, d: Json, e: Json, chain: seq<Chain.Step>, ts: Bytes, us: Bytes)
    requires IsDocument(d) && IsDocument(e) && s.rules == RULES && SoundRules(RULES)
    requires SignsView(ReadSigned(d)) && SignsView(ReadSigned(e))
    requires StrOr(ReadSigned(d).mode, NANORIX_ONLY) == NANORIX_ONLY == StrOr(ReadSigned(e).mode, NANORIX_ONLY)
    requires SignedMessage(s.H, RULES, ReadSigned(d)) == SignedMessage(s.H, RULES, ReadSigned(e))
    requires InjectiveOn(s.H, HashQueries(RULES, d) + HashQueries(RULES, e))
    requires ReadChain(d) == Some(chain) && Chain.Passes(s.H, s.names, ts, ReadRoots(d), chain)
    requires ReadChain(e).Some? && Chain.Passes(s.H, s.names, us, ReadRoots(e), ReadChain(e).value)
    requires InjectiveOn(s.H, Chain.FinalQueries(s.H, s.names, ts, ReadRoots(d))
                              + Chain.FinalQueries(s.H, s.names, us, ReadRoots(e)))
    ensures ReadChain(e) == Some(chain) && ReadRoots(d) == ReadRoots(e) && ts == us
  {
    OneMessage(s.H, RULES, ReadSigned(d), ReadSigned(e));
    SameRoots(d, e);
    SameChain(d, e);
    Chain.OneTimestampSameRoots(s.H, s.names, chain, ts, us, ReadRoots(d));
  }

  /** For two sound documents of version 2.1 or 2.2: one signed message, one chain, one list of
      roots and one timestamp. */
  lemma SignedProofsAgree(s: Setting, d: Json, e: Json)
    requires IsDocument(d) && IsDocument(e) && s.rules == RULES && SoundRules(RULES)
    requires WellFormed(s, ReadProof(d)) && WellFormed(s, ReadProof(e))
    requires Sound(s, ReadProof(d)) && Sound(s, ReadProof(e))
    requires SignsView(ReadSigned(d)) && SignsView(ReadSigned(e))
    requires StrOr(ReadSigned(d).mode, NANORIX_ONLY) == NANORIX_ONLY == StrOr(ReadSigned(e).mode, NANORIX_ONLY)
    requires SignedMessage(s.H, RULES, ReadSigned(d)) == SignedMessage(s.H, RULES, ReadSigned(e))
    requires InjectiveOn(s.H, HashQueries(RULES, d) + HashQueries(RULES, e))
    requires InjectiveOn(s.H, Chain.FinalQueries(s.H, s.names, ReadProof(d).timestamp, ReadRoots(d))
                              + Chain.FinalQueries(s.H, s.names, ReadProof(e).timestamp, ReadRoots(e)))
    ensures ReadProof(d).chain == ReadProof(e).chain && ReadProof(d).roots == ReadProof(e).roots
    ensures ReadProof(d).timestamp == ReadProof(e).timestamp
  {
    SignedViewBindsWalk(s, d, e, ReadChain(d).value, ReadProof(d).timestamp, ReadProof(e).timestamp);
  }

  /** And, if they list as many NUL-free parents, one lineage. */
  lemma {:induction false} SignedLineage(s: Setting, q: set<Bytes>, d: Json, e: Json)
    requires IsDocument(d) && IsDocument(e) && s.rules == RULES && SoundRules(RULES)
    requires WellFormed(s, ReadProof(d)) && WellFormed(s, ReadProof(e))
    requires Sound(s, ReadProof(d)) && Sound(s, ReadProof(e))
    requires SignsView(ReadSigned(d)) && SignsView(ReadSigned(e))
    requires StrOr(ReadSigned(d).mode, NANORIX_ONLY) == NANORIX_ONLY == StrOr(ReadSigned(e).mode, NANORIX_ONLY)
    requires SignedMessage(s.H, RULES, ReadSigned(d)) == SignedMessage(s.H, RULES, ReadSigned(e))
    requires InjectiveOn(s.H, HashQueries(RULES, d) + HashQueries(RULES, e)) && InjectiveOn(s.H, q)
    requires Lineage.PlainParents(ReadProof(d)) && Lineage.PlainParents(ReadProof(e))
    requires |ReadProof(d).parents.value| == |ReadProof(e).parents.value|
    requires Lineage.ParentQueries(s.H, ReadProof(d)) <= q && Lineage.ParentQueries(s.H, ReadProof(e)) <= q
    ensures Lineage.SameParents(ReadProof(d), ReadProof(e))
  {
    OneMessage(s.H, RULES, ReadSigned(d), ReadSigned(e));
    SameRoots(d, e);
    Lineage.OneLineage(s, q, ReadProof(d), ReadProof(e));
  }
}
