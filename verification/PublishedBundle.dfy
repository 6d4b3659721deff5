/** Extraction of a receipt, told of the document it is taken from: which fields the bundle takes
    along, and which one is found missing first. */
module PublishedBundle {
  import opened Wrappers
  import opened Hashing
  import opened Json
  import opened CanonicalJson
  import opened SignedView
  import opened PublishedProof
  import opened PortableBundle
  import Chain = DestructionChain
  import Receipts = ReceiptSet
  import Verifier = ProofVerifier

  // ----- what the document holds --------------------------------------------------------

  /** A value of the signature block, or failing that of the document. A value found in the block
      ends the search, whatever it is. */
  function Found(doc: Json, key: string): Option<Json> {
    if Block(doc).Some? && Get(Block(doc).value, key).Some? then Get(Block(doc).value, key) else Get(doc, key)
  }

  /** The key to take along: the block's verification key, else its public key, else the
      document's verification key. */
  function KeyFound(doc: Json): Option<Json> {
    if Block(doc).Some? && Get(Block(doc).value, "verification_key").Some?
    then Get(Block(doc).value, "verification_key")
    else if Block(doc).Some? && Get(Block(doc).value, "public_key").Some? then Get(Block(doc).value, "public_key")
    else Get(doc, "verification_key")
  }

  function LastEntryHash(doc: Json): Option<Bytes> {
    var entries := ItemsOf(doc, "chain");
    if entries == [] then None else Some(TextOf(entries[|entries| - 1], "chain_hash"))
  }

  /** What a bundle of the receipt at `index` holds. */
  ghost predicate TakenFrom(H: Sha512, rules: seq<Rule>, doc: Json, index: nat, b: Bundle)
    requires IsDocument(doc) && SoundRules(rules)
  {
    var a := b.anchors;
    && b.isVersionOne && b.isReceipt
    && index < |ItemsOf(doc, "record_receipts")|
    && b.receipt == Receipts.ReadReceipt(ItemsOf(doc, "record_receipts")[index])
    && StrField(doc, "capsule_id") == Some(a.capsuleId) && StrField(doc, "destroyed_at") == Some(a.timestamp)
    && AsStr(Found(doc, "key_id")) == Some(a.keyId) && AsStr(KeyFound(doc)) == Some(a.verificationKey)
    && AsStr(Found(doc, "signature")) == Some(a.signature)
    && StrField(doc, "record_receipts_merkle_root") == Some(a.root) && LastEntryHash(doc) == Some(a.step8)
    && a.target == (if SignsDocument(doc) then Some(DocumentHash) else None)
    && a.documentHash == (if SignsDocument(doc) then Some(RecomputedHash(H, rules, doc)) else None)
  }

  lemma SourceRead(doc: Json)
    ensures ReadSource(doc).destroyedAt == StrField(doc, "destroyed_at")
    ensures ReadSource(doc).keyId == AsStr(Found(doc, "key_id"))
    ensures KeyAnchor(ReadSource(doc)) == AsStr(KeyFound(doc))
    ensures SignatureAnchor(ReadSource(doc)) == AsStr(Found(doc, "signature"))
  {
    SignatureFound(doc);
    OwnKeyFound(doc);
  }

  lemma SignatureFound(doc: Json)
    ensures SignatureAnchor(ReadSource(doc)) == AsStr(Found(doc, "signature"))
  {
  }

  lemma OwnKeyFound(doc: Json)
    ensures KeyAnchor(ReadSource(doc)) == AsStr(KeyFound(doc))
  {
  }

  lemma {:induction false} LastHashRead(doc: Json)
    ensures Step8Anchor(ReadSource(doc)) == LastEntryHash(doc)
  {
    ChainTaken(doc);
    if AsArray(Get(doc, "chain")).Some? && ItemsOf(doc, "chain") != [] {
      LastStep(ItemsOf(doc, "chain"), ReadSource(doc).proof.chain.value);
    }
  }

  lemma ChainTaken(doc: Json)
    ensures ReadSource(doc).proof.chain == Verifier.Each(Get(doc, "chain"), Verifier.ReadStep)
  {
    ChainField(doc);
  }

  lemma LastStep(entries: seq<Json>, steps: seq<Chain.Step>)
    requires entries != [] && |steps| == |entries|
    requires forall i | 0 <= i < |entries| :: steps[i] == Verifier.ReadStep(entries[i])
    ensures steps[|steps| - 1].chainHash == TextOf(entries[|entries| - 1], "chain_hash")
  {
  }

  lemma ReceiptTaken(doc: Json, index: nat)
    ensures var receipts := ReadSource(doc).proof.receipts;
            (receipts.Some? && index < |receipts.value| <==> index < |ItemsOf(doc, "record_receipts")|) &&
            (index < |ItemsOf(doc, "record_receipts")| ==>
               receipts.value[index] == Receipts.ReadReceipt(ItemsOf(doc, "record_receipts")[index]))
  {
    ReceiptFields(doc);
  }

  lemma ProofFields(doc: Json)
    ensures var p := ReadSource(doc).proof;
            p.capsuleId == StrField(doc, "capsule_id") && p.signed.doc == doc && p.signed == Verifier.ReadSigned(doc) &&
            p.roots.receipts == StrField(doc, "record_receipts_merkle_root")
  {
  }

  /** Extraction yields exactly the bundle that holds these fields. */
  lemma {:induction false} ExtractExactly(H: Sha512, rules: seq<Rule>, doc: Json, index: nat, b: Bundle)
    requires IsDocument(doc) && SoundRules(rules)
    ensures ReadSource(doc).proof.signed.doc == doc
    ensures Extract(H, rules, ReadSource(doc), index) == Ok(b) <==> TakenFrom(H, rules, doc, index, b)
  {
    SourceRead(doc);
    LastHashRead(doc);
    ReceiptTaken(doc, index);
    ProofFields(doc);
    VersionRead(doc);
  }

  /** And else names what is missing: the receipts, the one at that place, or the first field. */
  lemma {:induction false} MissingExactly(H: Sha512, rules: seq<Rule>, doc: Json, index: nat)
    requires IsDocument(doc) && SoundRules(rules)
    ensures ReadSource(doc).proof.signed.doc == doc
    ensures var r, items := Extract(H, rules, ReadSource(doc), index), ItemsOf(doc, "record_receipts");
            (r == Err(NoReceipts) <==> AsArray(Get(doc, "record_receipts")).None?) &&
            (r == Err(IndexOutOfBounds(index, |items|)) <==>
               AsArray(Get(doc, "record_receipts")).Some? && index >= |items|) &&
            (r == Err(MissingField(CapsuleId)) <==> index < |items| && StrField(doc, "capsule_id").None?) &&
            (r == Err(MissingField(DestroyedAt)) <==>
               index < |items| && StrField(doc, "capsule_id").Some? && StrField(doc, "destroyed_at").None?)
  {
    SourceRead(doc);
    ReceiptTaken(doc, index);
    ProofFields(doc);
    ReceiptFields(doc);
  }

  /** What a standalone check insists on: an index and four texts. */
  lemma CompleteExactly(receipt: Json)
    ensures Complete(Receipts.ReadReceipt(receipt)) <==>
            AsU64(Get(receipt, "record_index")).Some? && StrField(receipt, "record_id").Some? &&
            StrField(receipt, "record_input_hash").Some? && StrField(receipt, "record_output_hash").Some? &&
            StrField(receipt, "record_chain_hash").Some?
  {
  }
}
