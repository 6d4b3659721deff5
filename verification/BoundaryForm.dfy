/** Boundary attestations of the published format, told of the document itself: what it must
    state, what its hash covers, and whose signature it carries. */
module BoundaryForm {
  import opened Wrappers
  import opened Hashing
  import opened Hex
  import opened Json
  import opened CanonicalJson
  import opened ProofSignature
  import opened BoundaryDocument
  import Verifier = ProofVerifier

  // ----- stage 1 ------------------------------------------------------------------------

  predicate Says(doc: Json, key: string, text: Bytes) {
    StrField(doc, key) == Some(text)
  }

  predicate HasText(doc: Json, key: string) {
    StrField(doc, key).Some?
  }

  predicate HasCount(doc: Json, key: string) {
    AsU64(Get(doc, key)).Some?
  }

  /** Every piece of evidence names one of the three ways of observing. */
  predicate EvidenceObserved(doc: Json) {
    var evidence := AsArray(Get(doc, "boundary_evidence"));
    evidence.Some? &&
    forall i | 0 <= i < |evidence.value| ::
      Says(evidence.value[i], "method", "procfs_observation") ||
      Says(evidence.value[i], "method", "mountinfo_observation") ||
      Says(evidence.value[i], "method", "cgroup_v2_observation")
  }

  predicate TextsThere(doc: Json) {
    HasText(doc, "capsule_id") && HasText(doc, "cutoff_ts") && HasText(doc, "activity_commitment") &&
    HasText(doc, "prev_attestation_hash") && HasText(doc, "canonical_hash")
  }

  predicate CountsThere(doc: Json) {
    HasCount(doc, "attestation_index") && HasCount(doc, "activity_event_count")
  }

  predicate PinsHold(doc: Json) {
    Says(doc, "hash_algorithm", "sha512") && Says(doc, "signature_algorithm", "Ed25519")
  }

  const CONTINUATION: Bytes := REMAINED + RECORDS + UP_TO + NO_CLAIM

  /** A document of the published format. */
  predicate IsPublished(doc: Json) {
    Says(doc, "kind", "boundary_attestation") && Says(doc, "version", "1.0") && TextsThere(doc) && CountsThere(doc) &&
    PinsHold(doc) && Says(doc, "continuation", CONTINUATION) && EvidenceObserved(doc)
  }

  lemma SchemaTexts(doc: Json)
    ensures TextsThere(doc) <==> forall i | 0 <= i < |SCHEMA.texts| :: StrField(doc, SCHEMA.texts[i]).Some?
  {
    var t := SCHEMA.texts;
    assert |t| == 5 && t[0] == "capsule_id" && t[1] == "cutoff_ts" && t[2] == "activity_commitment" &&
           t[3] == "prev_attestation_hash" && t[4] == "canonical_hash";
  }

  lemma SchemaCounts(doc: Json)
    ensures CountsThere(doc) <==> forall i | 0 <= i < |SCHEMA.counts| :: AsU64(Get(doc, SCHEMA.counts[i])).Some?
  {
    var c := SCHEMA.counts;
    assert |c| == 2 && c[0] == "attestation_index" && c[1] == "activity_event_count";
  }

  lemma SchemaPins(doc: Json)
    ensures PinsHold(doc) <==>
            forall i | 0 <= i < |SCHEMA.pins| :: StrOr(StrField(doc, SCHEMA.pins[i].0), []) == SCHEMA.pins[i].1
  {
    var p := SCHEMA.pins;
    assert |p| == 2 && p[0] == ("hash_algorithm", "sha512") && p[1] == ("signature_algorithm", "Ed25519");
  }

  lemma SchemaMethods(observation: Json)
    ensures IsMethod(SCHEMA, observation) <==>
            Says(observation, "method", "procfs_observation") || Says(observation, "method", "mountinfo_observation") ||
            Says(observation, "method", "cgroup_v2_observation")
  {
    var m, named := SCHEMA.methods, StrOr(StrField(observation, "method"), []);
    assert |m| == 3 && m[0] == "procfs_observation" && m[1] == "mountinfo_observation" &&
           m[2] == "cgroup_v2_observation";
    assert named in m <==> named == m[0] || named == m[1] || named == m[2];
  }

  lemma SchemaEvidence(doc: Json)
    ensures EvidenceObserved(doc) <==>
            AsArray(Get(doc, "boundary_evidence")).Some? &&
            forall i | 0 <= i < |AsArray(Get(doc, "boundary_evidence")).value| ::
              IsMethod(SCHEMA, AsArray(Get(doc, "boundary_evidence")).value[i])
  {
    var evidence := AsArray(Get(doc, "boundary_evidence"));
    if evidence.Some? {
      forall i | 0 <= i < |evidence.value|
        ensures IsMethod(SCHEMA, evidence.value[i]) <==>
                Says(evidence.value[i], "method", "procfs_observation") ||
                Says(evidence.value[i], "method", "mountinfo_observation") ||
                Says(evidence.value[i], "method", "cgroup_v2_observation")
      {
        SchemaMethods(evidence.value[i]);
      }
    }
  }

  lemma SchemaNames(doc: Json)
    ensures Says(doc, "kind", "boundary_attestation") <==> StrOr(StrField(doc, "kind"), []) == SCHEMA.kind
    ensures Says(doc, "version", "1.0") <==>
            StrField(doc, "version").Some? && StrField(doc, "version").value in SCHEMA.versions
    ensures Says(doc, "continuation", CONTINUATION) <==> StrField(doc, "continuation") == Some(SCHEMA.continuation)
  {
    assert SCHEMA.versions == ["1.0"] && SCHEMA.kind == "boundary_attestation";
  }

  /** Stage 1 lets through exactly the documents of the published format. */
  lemma {:induction false} ShapeExactly(doc: Json)
    ensures CheckShape(SCHEMA, doc).None? <==> IsPublished(doc)
  {
    SchemaNames(doc);
    SchemaTexts(doc);
    SchemaCounts(doc);
    SchemaPins(doc);
    SchemaEvidence(doc);
  }

  /** And blames the first thing that is not as published. */
  lemma {:induction false} ShapeBlames(doc: Json)
    ensures CheckShape(SCHEMA, doc) == Some(KindMismatch) <==> !Says(doc, "kind", "boundary_attestation")
    ensures CheckShape(SCHEMA, doc) == Some(VersionUnsupported) <==>
            Says(doc, "kind", "boundary_attestation") && HasText(doc, "version") && !Says(doc, "version", "1.0")
    ensures CheckShape(SCHEMA, doc) == Some(AlgorithmUnsupported) <==>
            Says(doc, "kind", "boundary_attestation") && Says(doc, "version", "1.0") && TextsThere(doc) &&
            CountsThere(doc) && !PinsHold(doc)
  {
    SchemaNames(doc);
    SchemaTexts(doc);
    SchemaCounts(doc);
    SchemaPins(doc);
  }

  /** The last two things looked at are the continuation statement and the evidence. */
  lemma {:induction false} ShapeBlamesLast(doc: Json)
    requires Says(doc, "kind", "boundary_attestation") && Says(doc, "version", "1.0") && TextsThere(doc)
    requires CountsThere(doc) && PinsHold(doc)
    ensures CheckShape(SCHEMA, doc) == Some(ContinuationMismatch) <==> !Says(doc, "continuation", CONTINUATION)
    ensures CheckShape(SCHEMA, doc) == Some(MethodVocabularyViolation) <==>
            Says(doc, "continuation", CONTINUATION) && AsArray(Get(doc, "boundary_evidence")).Some? &&
            !EvidenceObserved(doc)
  {
    SchemaNames(doc);
    SchemaTexts(doc);
    SchemaCounts(doc);
    SchemaPins(doc);
    SchemaEvidence(doc);
  }

  // ----- stages 2 and 3 -----------------------------------------------------------------

  /** The hash covers every field but the signature block and the hash itself. */
  lemma ContentFields(doc: Json, key: string)
    requires doc.Obj?
    ensures Content(doc).Obj?
    ensures Get(Content(doc), key) == if key == "attestation" || key == "canonical_hash" then None else Get(doc, key)
  {
  }

  /** A part of the signature block, if it is a text and not empty. */
  function Signing(doc: Json, key: string): Option<Bytes> {
    var block := Get(doc, "attestation");
    if block.Some? && StrField(block.value, key).Some? && StrField(block.value, key).value != []
    then StrField(block.value, key)
    else None
  }

  predicate Signs(doc: Json) {
    Signing(doc, "signature").Some? && Signing(doc, "public_key").Some?
  }

  /** The published key of a document's authority and version. */
  function PublishedKey(s: Setting, doc: Json): Option<Verifier.TrustedKey> {
    if s.trust.None? then None
    else s.trust.value(StrOr(StrField(doc, "authority_id"), "us-kms-nanorix-v1"),
                       StrOr(StrField(doc, "signing_key_version"), []))
  }

  ghost predicate ClaimsItsHash(s: Setting, doc: Json)
    requires IsDocument(doc)
  {
    doc.Obj? && ContentHash(s.H, doc) == Strip(StrOr(StrField(doc, "canonical_hash"), []))
  }

  lemma DocRead(s: Setting, doc: Json)
    ensures var d := ReadDoc(doc);
            d.json == doc && d.signature == Signing(doc, "signature") && d.key == Signing(doc, "public_key") &&
            d.claimedHash == StrOr(StrField(doc, "canonical_hash"), []) && Lookup(s, d) == PublishedKey(s, doc)
  {
  }

  ghost predicate OwnKeyAccepts(s: Setting, doc: Json)
    requires IsDocument(doc)
  {
    Signs(doc) &&
    Holds(s.crypto, ContentHash(s.H, doc), Signing(doc, "signature").value, Signing(doc, "public_key").value)
  }

  ghost predicate PublishedKeyAccepts(s: Setting, doc: Json)
    requires IsDocument(doc)
  {
    Signs(doc) && PublishedKey(s, doc).Some? && !PublishedKey(s, doc).value.revoked &&
    Holds(s.crypto, ContentHash(s.H, doc), Signing(doc, "signature").value, PublishedKey(s, doc).value.key)
  }

  /** Of the published format, with its own hash and, where it is signed, accepted by its own key
      and by the published one. */
  ghost predicate IsAccepted(s: Setting, doc: Json)
    requires IsDocument(doc)
  {
    IsPublished(doc) && ClaimsItsHash(s, doc) &&
    (Signs(doc) ==> OwnKeyAccepts(s, doc) && (s.trust.Some? ==> PublishedKeyAccepts(s, doc)))
  }

  /** Nothing is wrong with a document exactly when it is accepted so. */
  lemma {:induction false} AcceptedExactly(s: Setting, doc: Json)
    requires IsDocument(doc) && s == VersionOne(s.H, s.crypto, s.instant, s.trust)
    ensures DocFault(s, ReadDoc(doc)).None? <==> IsAccepted(s, doc)
  {
    DocRead(s, doc);
    ShapeExactly(doc);
    DocumentAccepted(s, ReadDoc(doc));
    assert s.shape(doc) == CheckShape(SCHEMA, doc);
  }

  /** The two flags of an accepted document: whether its own key accepted its signature, and
      whether a published, unrevoked key did so too. A rejected document has neither. */
  lemma {:induction false} FlagsMean(s: Setting, doc: Json)
    requires IsDocument(doc) && s == VersionOne(s.H, s.crypto, s.instant, s.trust)
    ensures var v := VerdictOf(s, ReadDoc(doc));
            if DocFault(s, ReadDoc(doc)).None? then
              (v.signed <==> OwnKeyAccepts(s, doc)) && (v.anchored <==> PublishedKeyAccepts(s, doc))
            else v == DocVerdict(DocFault(s, ReadDoc(doc)), false, false)
  {
    DocRead(s, doc);
    AcceptedExactly(s, doc);
  }
}
