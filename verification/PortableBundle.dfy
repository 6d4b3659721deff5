/** A receipt taken out of a proof with just enough around it to be checked alone. */
module PortableBundle {
  import opened Wrappers
  import opened Hashing
  import opened Hex
  import opened Json
  import opened NulText
  import opened ReceiptTree
  import opened RecordReceipts
  import opened CanonicalJson
  import opened SignedView
  import opened ProofSignature
  import opened ReceiptSet
  import Chain = DestructionChain
  import Verifier = ProofVerifier

  /** Where extraction looks, beyond what verification reads. */
  datatype Source = Source(
    proof: Verifier.Proof, destroyedAt: Option<Bytes>, keyId: Option<Bytes>,
    outerKey: Option<Json>, outerSignature: Option<Json>)

  function ReadSource(doc: Json): Source {
    var attestation := Get(doc, "attestation");
    Source(
      Verifier.ReadProof(doc), StrField(doc, "destroyed_at"),
      AsStr(OrElse(Verifier.Under(attestation, "key_id"), Get(doc, "key_id"))),
      Get(doc, "verification_key"), Get(doc, "signature"))
  }

  datatype Target = Step8 | DocumentHash | UnknownTarget(name: Bytes)

  datatype Anchors = Anchors(
    capsuleId: Bytes, keyId: Bytes, verificationKey: Bytes, step8: Bytes, signature: Bytes, root: Bytes,
    timestamp: Bytes, target: Option<Target>, documentHash: Option<Bytes>)

  datatype Bundle = Bundle(isVersionOne: bool, isReceipt: bool, receipt: Receipt, anchors: Anchors)

  datatype Field = CapsuleId | DestroyedAt | KeyId | VerificationKey | Signature | ReceiptsRoot | LastChainHash

  datatype BundleFault =
    | NoReceipts
    | IndexOutOfBounds(index: nat, count: nat)
    | MissingField(field: Field)
    | Shape
    | RecordChainHashMismatch
    | MerkleInclusionFailed
    | MissingCanonicalHashAnchor
    | UnknownSignatureTarget(name: Bytes)
    | BadBase64
    | SignatureFailed

  function KeyAnchor(s: Source): Option<Bytes> {
    AsStr(OrElse(s.proof.signed.verificationKey, OrElse(s.proof.signed.publicKey, s.outerKey)))
  }

  function SignatureAnchor(s: Source): Option<Bytes> {
    AsStr(OrElse(s.proof.signed.signature, s.outerSignature))
  }

  /** The hash the last chain entry claims. An entry without one reads as empty text here and
      in the chain walk alike, so only a missing or empty chain counts as missing. */
  function Step8Anchor(s: Source): Option<Bytes> {
    if s.proof.chain.Some? && s.proof.chain.value != []
    then Some(s.proof.chain.value[|s.proof.chain.value| - 1].chainHash)
    else None
  }

  ghost function Extract(H: Sha512, rules: seq<Rule>, s: Source, index: nat): Result<Bundle, BundleFault>
    requires IsDocument(s.proof.signed.doc) && SoundRules(rules)
  {
    var p := s.proof;
    if p.receipts.None? then Err(NoReceipts)
    else if index >= |p.receipts.value| then Err(IndexOutOfBounds(index, |p.receipts.value|))
    else if p.capsuleId.None? then Err(MissingField(CapsuleId))
    else if s.destroyedAt.None? then Err(MissingField(DestroyedAt))
    else if s.keyId.None? then Err(MissingField(KeyId))
    else if KeyAnchor(s).None? then Err(MissingField(VerificationKey))
    else if SignatureAnchor(s).None? then Err(MissingField(Signature))
    else if p.roots.receipts.None? then Err(MissingField(ReceiptsRoot))
    else if Step8Anchor(s).None? then Err(MissingField(LastChainHash))
    else
      var signsView := SignsView(p.signed);
      Ok(Bundle(true, true, p.receipts.value[index], Anchors(
        p.capsuleId.value, s.keyId.value, KeyAnchor(s).value, Step8Anchor(s).value, SignatureAnchor(s).value,
        p.roots.receipts.value, s.destroyedAt.value,
        if signsView then Some(DocumentHash) else None,
        if signsView then Some(RecomputedHash(H, rules, p.signed.doc)) else None)))
  }

  /** What the bundle's signature is checked over. */
  function BundleMessage(a: Anchors): Result<Bytes, BundleFault> {
    match a.target
    case None => Ok(Strip(a.step8))
    case Some(Step8) => Ok(Strip(a.step8))
    case Some(DocumentHash) =>
      if a.documentHash.Some? then Ok(Strip(a.documentHash.value)) else Err(MissingCanonicalHashAnchor)
    case Some(UnknownTarget(name)) => Err(UnknownSignatureTarget(name))
  }

  function CheckBundleSignature(crypto: Crypto, a: Anchors): Option<BundleFault> {
    var message := BundleMessage(a);
    if message.Err? then Some(message.error)
    else
      var sig, pub := crypto.decode(StripBase64(a.signature)), crypto.decode(StripBase64(a.verificationKey));
      if sig.None? || pub.None? then Some(BadBase64)
      else if |sig.value| != 64 || |pub.value| != 32 || !crypto.validKey(pub.value)
           || !crypto.verifies(pub.value, message.value, sig.value) then Some(SignatureFailed)
      else None
  }

  /** Every field a standalone check insists on is there. */
  predicate Complete(r: Receipt) {
    r.index.Some? && r.id.Some? && r.input.Some? && r.output.Some? && r.chainHash.Some?
  }

  ghost function VerifyBundle(H: Sha512, crypto: Crypto, b: Bundle): Option<BundleFault>
    requires IsReceipt(b.receipt)
  {
    var r, a := b.receipt, b.anchors;
    if !b.isVersionOne || !b.isReceipt || !Complete(r) then Some(Shape)
    else if !ReceiptSound(H, a.capsuleId, r) then Some(RecordChainHashMismatch)
    else if Climb(H, Strip(r.chainHash.value), r.index.value, r.proof) != Strip(a.root) then Some(MerkleInclusionFailed)
    else CheckBundleSignature(crypto, a)
  }

  method VerifyReceiptBundle(H: Sha512, crypto: Crypto, b: Bundle) returns (fault: Option<BundleFault>)
    requires IsReceipt(b.receipt)
    ensures fault == VerifyBundle(H, crypto, b)
  {
    var r, a := b.receipt, b.anchors;
    if !b.isVersionOne || !b.isReceipt || !Complete(r) {
      return Some(Shape);
    }
    var recomputed := RecomputeChainHash(H, a.capsuleId, r);
    if recomputed != Strip(r.chainHash.value) {
      return Some(RecordChainHashMismatch);
    }
    var included := VerifyInclusionProof(H, r.chainHash.value, r.index.value, r.proof, a.root);
    if !included {
      return Some(MerkleInclusionFailed);
    }
    fault := CheckBundleSignature(crypto, a);
  }

  /** The receipt climbs to the root the bundle carries. */
  predicate Included(H: Sha512, b: Bundle)
    requires Complete(b.receipt)
  {
    Climb(H, Strip(b.receipt.chainHash.value), b.receipt.index.value, b.receipt.proof) == Strip(b.anchors.root)
  }

  /** The verdict told by conditions instead of by the order they are looked at. */
  lemma BundleAccepted(H: Sha512, crypto: Crypto, b: Bundle)
    requires IsReceipt(b.receipt)
    ensures VerifyBundle(H, crypto, b).None? <==>
            b.isVersionOne && b.isReceipt && Complete(b.receipt) && ReceiptSound(H, b.anchors.capsuleId, b.receipt) &&
            Included(H, b) && BundleMessage(b.anchors).Ok? &&
            Holds(crypto, BundleMessage(b.anchors).value, b.anchors.signature, b.anchors.verificationKey)
    ensures VerifyBundle(H, crypto, b) == Some(Shape) <==> !b.isVersionOne || !b.isReceipt || !Complete(b.receipt)
    ensures VerifyBundle(H, crypto, b) == Some(RecordChainHashMismatch) <==>
            b.isVersionOne && b.isReceipt && Complete(b.receipt) && !ReceiptSound(H, b.anchors.capsuleId, b.receipt)
    ensures VerifyBundle(H, crypto, b) == Some(MerkleInclusionFailed) <==>
            b.isVersionOne && b.isReceipt && Complete(b.receipt) && ReceiptSound(H, b.anchors.capsuleId, b.receipt) &&
            !Included(H, b)
  {
  }

  // ----- round trip ---------------------------------------------------------------------

  /** The receipt at `index` as an issuer writes it: complete, numbered by its position and
      carrying the tree's own proof. */
  ghost predicate IssuedAt(H: Sha512, capsuleId: Bytes, receipts: seq<Receipt>, index: nat)
    requires AreReceipts(receipts)
  {
    && index < |receipts| && Complete(receipts[index]) && receipts[index].index == Some(index)
    && receipts[index].proof == Siblings(H, ChainHashes(H, RecordsOf(H, capsuleId, receipts)), index)
  }

  /** The key and signature verification uses are the ones extraction takes along. */
  predicate OneKey(s: Source) {
    s.proof.signed.publicKey.None? || s.proof.signed.verificationKey.None?
    || s.proof.signed.publicKey == s.proof.signed.verificationKey
  }

  /** An issued receipt of an accepted set is included under the claimed root. */
  lemma IssuedIsIncluded(H: Sha512, capsuleId: Bytes, receipts: seq<Receipt>, root: Bytes, index: nat)
    requires AreReceipts(receipts) && Accepted(H, capsuleId, receipts, Some(root))
    requires IssuedAt(H, capsuleId, receipts, index)
    ensures ReceiptSound(H, capsuleId, receipts[index])
    ensures Climb(H, Strip(receipts[index].chainHash.value), index, receipts[index].proof) == Strip(root)
  {
    var leaves := ChainHashes(H, RecordsOf(H, capsuleId, receipts));
    assert ReceiptSound(H, capsuleId, receipts[index]);
    SiblingsReachTop(H, leaves, index);
  }

  /** The proof's signature verified over its message with the key and the signature that the
      bundle takes along. */
  lemma SignatureCarries(H: Sha512, crypto: Crypto, rules: seq<Rule>, s: Source, index: nat)
    requires IsDocument(s.proof.signed.doc) && SoundRules(rules) && OneKey(s)
    requires VerifySignature(H, crypto, rules, s.proof.signed) == Verified
    requires Extract(H, rules, s, index).Ok?
    ensures SignedMessage(H, rules, s.proof.signed).Some? &&
            BundleMessage(Extract(H, rules, s, index).value.anchors).Ok?
    ensures var a := Extract(H, rules, s, index).value.anchors;
            VerifyMessage(crypto, SignedMessage(H, rules, s.proof.signed).value, a.signature, a.verificationKey) ==
            Verified
  {
  }

  /** Once a signature verifies over one text, it is left to the scheme whether it does over
      another. */
  lemma OtherMessage(crypto: Crypto, a: Anchors, message: Bytes)
    requires VerifyMessage(crypto, message, a.signature, a.verificationKey) == Verified && BundleMessage(a).Ok?
    ensures var sig, key := crypto.decode(StripBase64(a.signature)), crypto.decode(StripBase64(a.verificationKey));
            sig.Some? && key.Some? && crypto.verifies(key.value, message, sig.value) &&
            (CheckBundleSignature(crypto, a).None? <==> crypto.verifies(key.value, BundleMessage(a).value, sig.value))
  {
  }

  /** Which message the bundle is checked over: the proof's own, except in version 2.0. */
  lemma MessageCarries(H: Sha512, rules: seq<Rule>, s: Source, index: nat)
    requires IsDocument(s.proof.signed.doc) && SoundRules(rules) && Extract(H, rules, s, index).Ok?
    requires Verifier.FinalHashBound(s.proof) && s.proof.signed.version.Some?
    requires SignsView(s.proof.signed) ==> StrOr(s.proof.signed.mode, NANORIX_ONLY) == NANORIX_ONLY
    ensures var message := BundleMessage(Extract(H, rules, s, index).value.anchors);
            message.Ok? && SignedMessage(H, rules, s.proof.signed) ==
              Some(if s.proof.signed.version == Some(V20) then Strip(s.proof.signed.documentHash) else message.value)
  {
    if SignsView(s.proof.signed) {
      HexIsNulFree(RecomputedHash(H, rules, s.proof.signed.doc));
    }
  }

  /** `b` is extracted from a proof accepted at stage 7, at a receipt its issuer wrote. */
  ghost predicate RoundTripInput(s: Verifier.Setting, src: Source, index: nat, b: Bundle) {
    && Verifier.WellFormed(s, src.proof) && Verifier.Sound(s, src.proof)
    && Verifier.SignatureOf(s, src.proof) == Verified
    && OneKey(src) && Extract(s.H, s.rules, src, index) == Ok(b)
    && IssuedAt(s.H, src.proof.capsuleId.value, src.proof.receipts.value, index)
  }

  /** The bundle's verdict is its signature's. */
  lemma {:induction false} OnlySignatureLeft(s: Verifier.Setting, src: Source, index: nat, b: Bundle)
    requires RoundTripInput(s, src, index, b)
    ensures IsReceipt(b.receipt) && VerifyBundle(s.H, s.crypto, b) == CheckBundleSignature(s.crypto, b.anchors)
  {
    var p := src.proof;
    IssuedIsIncluded(s.H, p.capsuleId.value, p.receipts.value, p.roots.receipts.value, index);
    Extracted(s.H, s.rules, src, index, b);
    IncludedIsSigned(s.H, s.crypto, b);
  }

  lemma Extracted(H: Sha512, rules: seq<Rule>, s: Source, index: nat, b: Bundle)
    requires IsDocument(s.proof.signed.doc) && SoundRules(rules) && Extract(H, rules, s, index) == Ok(b)
    ensures b.isVersionOne && b.isReceipt && s.proof.receipts.Some? && index < |s.proof.receipts.value|
    ensures b.receipt == s.proof.receipts.value[index]
    ensures Some(b.anchors.capsuleId) == s.proof.capsuleId && Some(b.anchors.root) == s.proof.roots.receipts
  {
  }

  lemma IncludedIsSigned(H: Sha512, crypto: Crypto, b: Bundle)
    requires IsReceipt(b.receipt) && b.isVersionOne && b.isReceipt && Complete(b.receipt)
    requires ReceiptSound(H, b.anchors.capsuleId, b.receipt) && Included(H, b)
    ensures VerifyBundle(H, crypto, b) == CheckBundleSignature(crypto, b.anchors)
  {
  }

  /** Every receipt of a proof accepted at stage 7 extracts to a bundle that verifies; version
      2.0 apart, whose signed text is not the one a bundle is checked over. */
  lemma BundleRoundTrip(s: Verifier.Setting, src: Source, index: nat, b: Bundle)
    requires RoundTripInput(s, src, index, b) && src.proof.signed.version != Some(V20)
    ensures IsReceipt(b.receipt) && VerifyBundle(s.H, s.crypto, b).None?
  {
    OnlySignatureLeft(s, src, index, b);
    SignatureCarries(s.H, s.crypto, s.rules, src, index);
    OtherMessage(s.crypto, b.anchors, SignedMessage(s.H, s.rules, src.proof.signed).value);
    if SignsView(src.proof.signed) {
      ViewMessage(s.H, s.rules, src.proof.signed);
    }
    MessageCarries(s.H, s.rules, src, index);
  }

  lemma VersionTwoMessages(H: Sha512, rules: seq<Rule>, s: Source, index: nat)
    requires IsDocument(s.proof.signed.doc) && SoundRules(rules) && Extract(H, rules, s, index).Ok?
    requires s.proof.signed.version == Some(V20)
    ensures SignedMessage(H, rules, s.proof.signed) == Some(Strip(s.proof.signed.documentHash))
    ensures var a := Extract(H, rules, s, index).value.anchors;
            BundleMessage(a) == Ok(Strip(a.step8))
  {
  }

  /** In version 2.0 the bundle verifies exactly when the signature, made over the document
      hash, also holds over the last step's hash. */
  lemma VersionTwoBundle(s: Verifier.Setting, src: Source, index: nat, b: Bundle, sig: Bytes, key: Bytes)
    requires RoundTripInput(s, src, index, b) && src.proof.signed.version == Some(V20)
    requires s.crypto.decode(StripBase64(b.anchors.signature)) == Some(sig)
    requires s.crypto.decode(StripBase64(b.anchors.verificationKey)) == Some(key)
    ensures s.crypto.verifies(key, Strip(src.proof.signed.documentHash), sig)
    ensures IsReceipt(b.receipt)
    ensures VerifyBundle(s.H, s.crypto, b).None? <==> s.crypto.verifies(key, Strip(b.anchors.step8), sig)
  {
    OnlySignatureLeft(s, src, index, b);
    SignatureCarries(s.H, s.crypto, s.rules, src, index);
    VersionTwoMessages(s.H, s.rules, src, index);
    OtherMessage(s.crypto, b.anchors, SignedMessage(s.H, s.rules, src.proof.signed).value);
  }

  /** A bundle that verifies under the root of an accepted set carries one of the set's records. */
  lemma BundleRecordIsInSet(H: Sha512, crypto: Crypto, b: Bundle, capsuleId: Bytes, receipts: seq<Receipt>)
    requires IsReceipt(b.receipt) && VerifyBundle(H, crypto, b).None?
    requires AreReceipts(receipts) && receipts != [] && Accepted(H, capsuleId, receipts, Some(b.anchors.root))
    requires FewSeparators(b.receipt.proof)
    requires InjectiveOn(H, BuildQueries(H, RecordsOf(H, capsuleId, receipts))
                            + CheckQueries(H, RecordOf(H, b.anchors.capsuleId, b.receipt), b.receipt.index.value,
                                           b.receipt.proof))
    ensures ChainHash(H, RecordOf(H, b.anchors.capsuleId, b.receipt)) in
            ChainHashes(H, RecordsOf(H, capsuleId, receipts))
  {
    var record := RecordOf(H, b.anchors.capsuleId, b.receipt);
    AcceptedRecordIsInTree(H, RecordsOf(H, capsuleId, receipts), record, b.receipt.index.value, b.receipt.proof);
  }

  // ----- what binds the root ------------------------------------------------------------

  /** The signature does not bind the root a bundle carries: any bundle that verifies still does
      with any receipt of its capsule alone under its own hash as root. */
  lemma RootIsUnbound(H: Sha512, crypto: Crypto, b: Bundle, r: Receipt)
    requires IsReceipt(b.receipt) && VerifyBundle(H, crypto, b).None?
    requires IsReceipt(r) && Complete(r) && ReceiptSound(H, b.anchors.capsuleId, r) && r.proof == []
    ensures VerifyBundle(H, crypto, b.(receipt := r, anchors := b.anchors.(root := r.chainHash.value))).None?
  {
  }

  /** The last step's hash the bundle carries is recomputed from the root it carries. */
  predicate Recomputes(H: Sha512, names: Chain.Names, a: Anchors, ts: Bytes, parents: Option<Bytes>) {
    Strip(a.step8) == Chain.HashAt(H, names, ts, Chain.Roots(Some(a.root), parents), Chain.STEPS - 1)
  }

  /** What binds it is the last step: carried beside the last hash of a chain that passed with
      some root and timestamp, a root recomputes that hash if and only if it, with the timestamp
      and the parents' root, is the one of the chain. */
  lemma RootRecomputes(
    H: Sha512, names: Chain.Names, a: Anchors, chain: seq<Chain.Step>, ts: Bytes, roots: Chain.Roots,
    us: Bytes, parents: Option<Bytes>)
    requires Chain.Passes(H, names, ts, roots, chain) && Strip(a.step8) == Strip(chain[Chain.STEPS - 1].chainHash)
    requires AllNulFree(roots.Present()) && AllNulFree(Chain.Roots(Some(a.root), parents).Present())
    requires InjectiveOn(H, Chain.FinalQueries(H, names, ts, roots)
                            + Chain.FinalQueries(H, names, us, Chain.Roots(Some(a.root), parents)))
    ensures Recomputes(H, names, a, us, parents) <==>
            us == ts && Chain.Roots(Some(a.root), parents).Present() == roots.Present()
  {
    assert Chain.Sound(H, names, ts, roots, chain, Chain.STEPS - 1);
    Chain.FinalHashBinds(H, names, ts, roots, us, Chain.Roots(Some(a.root), parents));
  }

  /** So a verifying bundle whose last hash is that of a passing chain and recomputes from the
      bundle's root carries a record of the set accepted with the chain. */
  lemma {:induction false} BoundRecordIsInSet(
    H: Sha512, crypto: Crypto, b: Bundle, names: Chain.Names, chain: seq<Chain.Step>, ts: Bytes, roots: Chain.Roots,
    us: Bytes, parents: Option<Bytes>, capsuleId: Bytes, receipts: seq<Receipt>)
    requires IsReceipt(b.receipt) && VerifyBundle(H, crypto, b).None? && Recomputes(H, names, b.anchors, us, parents)
    requires Chain.Passes(H, names, ts, roots, chain)
    requires Strip(b.anchors.step8) == Strip(chain[Chain.STEPS - 1].chainHash)
    requires AllNulFree(roots.Present()) && AllNulFree(Chain.Roots(Some(b.anchors.root), parents).Present())
    requires InjectiveOn(H, Chain.FinalQueries(H, names, ts, roots)
                            + Chain.FinalQueries(H, names, us, Chain.Roots(Some(b.anchors.root), parents)))
    requires AreReceipts(receipts) && receipts != [] && roots.receipts.Some?
    requires Accepted(H, capsuleId, receipts, roots.receipts) && FewSeparators(b.receipt.proof)
    requires InjectiveOn(H, BuildQueries(H, RecordsOf(H, capsuleId, receipts))
                            + CheckQueries(H, RecordOf(H, b.anchors.capsuleId, b.receipt), b.receipt.index.value,
                                           b.receipt.proof))
    ensures ChainHash(H, RecordOf(H, b.anchors.capsuleId, b.receipt)) in
            ChainHashes(H, RecordsOf(H, capsuleId, receipts))
  {
    RootRecomputes(H, names, b.anchors, chain, ts, roots, us, parents);
    SameFirstRoot(b.anchors.root, parents, roots);
    BundleRecordIsInSet(H, crypto, b, capsuleId, receipts);
  }

  lemma SameFirstRoot(root: Bytes, parents: Option<Bytes>, roots: Chain.Roots)
    requires roots.receipts.Some? && Chain.Roots(Some(root), parents).Present() == roots.Present()
    ensures Strip(root) == Strip(roots.receipts.value)
  {
    assert Chain.Roots(Some(root), parents).Present()[0] == roots.Present()[0];
  }
}
