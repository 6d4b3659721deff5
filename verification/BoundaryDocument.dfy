/** Boundary attestations one by one: a snapshot of a live capsule, checked by itself. */
module BoundaryDocument {
  import opened Wrappers
  import opened Hashing
  import opened Hex
  import opened Encoding
  import opened Json
  import opened CanonicalJson
  import opened CanonicalParser
  import opened ProofSignature
  import Verifier = ProofVerifier

  // ----- shape --------------------------------------------------------------------------

  /** What a document must look like before anything is hashed. */
  datatype Schema = Schema(
    kind: Bytes, versions: seq<Bytes>, texts: seq<string>, counts: seq<string>, pins: seq<(string, Bytes)>,
    continuation: Bytes, methods: seq<Bytes>)

  const KIND: Bytes := "boundary_attestation"
  const REMAINED: Bytes := "The capsule remained live at cutoff_ts; "
  const RECORDS: Bytes := "this attestation records observations "
  const UP_TO: Bytes := "up to that instant "
  const NO_CLAIM: Bytes := "and is NOT a destruction claim."
  const PINS: seq<(string, Bytes)> := [("hash_algorithm", "sha512"), ("signature_algorithm", "Ed25519")]
  const METHODS: seq<Bytes> := ["procfs_observation", "mountinfo_observation", "cgroup_v2_observation"]

  const SCHEMA: Schema := Schema(
    KIND, ["1.0"],
    ["capsule_id", "cutoff_ts", "activity_commitment", "prev_attestation_hash", "canonical_hash"],
    ["attestation_index", "activity_event_count"], PINS, REMAINED + RECORDS + UP_TO + NO_CLAIM, METHODS)

  datatype Fault =
    | KindMismatch
    | VersionUnsupported
    | RequiredFieldMissing
    | AlgorithmUnsupported
    | ContinuationMismatch
    | MethodVocabularyViolation
    | CanonicalHashMismatch
    | SignatureMismatch(reason: Failure)
    | KeyVersionUnknown(version: Bytes)
    | AuthorityRevoked
    | CapsuleIdMismatch(expected: Bytes, found: Bytes)
    | IndexNotStrictlyIncremented(prev: nat, index: nat)
    | PrevAttestationHashMismatch(index: nat)
    | GenesisPrevHashMismatch
    | CutoffUnparseable(found: Bytes)
    | CutoffNotIncreasing(prevCutoff: Bytes, cutoff: Bytes)

  predicate IsMethod(schema: Schema, observation: Json) {
    StrOr(StrField(observation, "method"), []) in schema.methods
  }

  /** Stage 1. */
  function CheckShape(schema: Schema, doc: Json): Option<Fault> {
    if StrOr(StrField(doc, "kind"), []) != schema.kind then Some(KindMismatch)
    else if StrField(doc, "version").None? then Some(RequiredFieldMissing)
    else if StrField(doc, "version").value !in schema.versions then Some(VersionUnsupported)
    else if exists i :: 0 <= i < |schema.texts| && StrField(doc, schema.texts[i]).None? then Some(RequiredFieldMissing)
    else if exists i :: 0 <= i < |schema.counts| && AsU64(Get(doc, schema.counts[i])).None? then
      Some(RequiredFieldMissing)
    else if exists i :: 0 <= i < |schema.pins| && StrOr(StrField(doc, schema.pins[i].0), []) != schema.pins[i].1 then
      Some(AlgorithmUnsupported)
    else if StrField(doc, "continuation") != Some(schema.continuation) then Some(ContinuationMismatch)
    else
      var evidence := AsArray(Get(doc, "boundary_evidence"));
      if evidence.None? then Some(RequiredFieldMissing)
      else if exists i :: 0 <= i < |evidence.value| && !IsMethod(schema, evidence.value[i]) then
        Some(MethodVocabularyViolation)
      else None
  }

  // ----- content ------------------------------------------------------------------------

  /** A document as the later stages read it, empty for what is missing. */
  datatype Doc = Doc(
    json: Json, capsuleId: Bytes, declaredIndex: Option<nat>, cutoff: Bytes, prevHash: Bytes, claimedHash: Bytes,
    signature: Option<Bytes>, key: Option<Bytes>, authorityId: Bytes, keyVersion: Bytes)
  {
    const index: nat := if declaredIndex.Some? then declaredIndex.value else 0
  }

  const PREV_HASH := "prev_attestation_hash"
  const ATTESTATION := "attestation"
  const CANONICAL_HASH := "canonical_hash"

  function ReadDoc(json: Json): Doc {
    var attestation := Get(json, ATTESTATION);
    Doc(
      json, StrOr(StrField(json, "capsule_id"), []), AsU64(Get(json, "attestation_index")),
      StrOr(StrField(json, "cutoff_ts"), []), PrevHashOf(json), StrOr(StrField(json, CANONICAL_HASH), []),
      NonEmpty(Verifier.Under(attestation, "signature")), NonEmpty(Verifier.Under(attestation, "public_key")),
      StrOr(StrField(json, "authority_id"), Verifier.DEFAULT_AUTHORITY),
      StrOr(StrField(json, "signing_key_version"), []))
  }

  function PrevHashOf(json: Json): Bytes {
    StrOr(StrField(json, PREV_HASH), [])
  }

  /** The signed content: everything but the signature block and the hash itself. */
  function Content(json: Json): Json {
    if json.Obj? then Obj(json.fields - {ATTESTATION, CANONICAL_HASH}) else Null
  }

  lemma ContentIsDocument(json: Json)
    requires IsDocument(json)
    ensures IsDocument(Content(json))
  {
  }

  /** The canonical hash of a document, empty text for what is no object. */
  ghost function ContentHash(H: Sha512, json: Json): Bytes
    requires IsDocument(json)
  {
    ContentIsDocument(json);
    if json.Obj? then CanonicalHash(H, Content(json), false) else []
  }

  method RecomputeContentHash(H: Sha512, json: Json) returns (h: Bytes)
    requires IsDocument(json)
    ensures h == ContentHash(H, json)
  {
    if !json.Obj? {
      return [];
    }
    ContentIsDocument(json);
    var buf := new Buffer();
    WriteValue(buf, Content(json), false);
    assert buf.text == Emit(Content(json), false);
    h := HashHex(H, Utf8(buf.text));
  }

  // ----- the verdict --------------------------------------------------------------------

  /** Everything a verifier goes by; `shape` is stage 1, `trust` the published keys. */
  datatype Setting = Setting(
    H: Sha512, crypto: Crypto, shape: Json -> Option<Fault>, instant: Bytes -> Option<int>,
    trust: Option<(Bytes, Bytes) -> Option<Verifier.TrustedKey>>)

  function VersionOne(
    H: Sha512, crypto: Crypto, instant: Bytes -> Option<int>,
    trust: Option<(Bytes, Bytes) -> Option<Verifier.TrustedKey>>): Setting
  {
    Setting(H, crypto, doc => CheckShape(SCHEMA, doc), instant, trust)
  }

  predicate IsSigned(d: Doc) {
    d.signature.Some? && d.key.Some?
  }

  function Lookup(s: Setting, d: Doc): Option<Verifier.TrustedKey> {
    if s.trust.Some? then s.trust.value(d.authorityId, d.keyVersion) else None
  }

  /** What is wrong with the signature of a document whose hash is `hash`, if anything. */
  function SignatureFault(s: Setting, d: Doc, hash: Bytes): Option<Fault> {
    if !IsSigned(d) then None
    else
      var own := VerifyMessage(s.crypto, hash, d.signature.value, d.key.value);
      if own.Failed? then Some(SignatureMismatch(own.reason))
      else if s.trust.None? then None
      else if Lookup(s, d).None? then Some(KeyVersionUnknown(d.keyVersion))
      else if VerifyMessage(s.crypto, hash, d.signature.value, Lookup(s, d).value.key) != Verified then
        Some(SignatureMismatch(DoesNotVerify))
      else if Lookup(s, d).value.revoked then Some(AuthorityRevoked)
      else None
  }

  /** Stages 1 to 3: what is wrong with a document, if anything. */
  ghost function DocFault(s: Setting, d: Doc): Option<Fault>
    requires IsDocument(d.json)
  {
    var hash := ContentHash(s.H, d.json);
    if s.shape(d.json).Some? then s.shape(d.json)
    else if hash == [] || hash != Strip(d.claimedHash) then Some(CanonicalHashMismatch)
    else SignatureFault(s, d, hash)
  }

  /** What is reported of one document. */
  datatype DocVerdict = DocVerdict(fault: Option<Fault>, signed: bool, anchored: bool)

  ghost function VerdictOf(s: Setting, d: Doc): DocVerdict
    requires IsDocument(d.json)
  {
    var fault := DocFault(s, d);
    DocVerdict(fault, fault.None? && IsSigned(d), fault.None? && IsSigned(d) && s.trust.Some?)
  }

  method VerifyDocument(s: Setting, d: Doc) returns (v: DocVerdict)
    requires IsDocument(d.json)
    ensures v == VerdictOf(s, d)
  {
    var shape := s.shape(d.json);
    if shape.Some? {
      return DocVerdict(shape, false, false);
    }
    var hash := RecomputeContentHash(s.H, d.json);
    if hash == [] || hash != Strip(d.claimedHash) {
      return DocVerdict(Some(CanonicalHashMismatch), false, false);
    }
    if d.signature.None? || d.key.None? {
      return DocVerdict(None, false, false);
    }
    var own := VerifyMessage(s.crypto, hash, d.signature.value, d.key.value);
    if own.Failed? {
      return DocVerdict(Some(SignatureMismatch(own.reason)), false, false);
    }
    if s.trust.None? {
      return DocVerdict(None, true, false);
    }
    var lookup := s.trust.value(d.authorityId, d.keyVersion);
    if lookup.None? {
      return DocVerdict(Some(KeyVersionUnknown(d.keyVersion)), false, false);
    }
    if VerifyMessage(s.crypto, hash, d.signature.value, lookup.value.key) != Verified {
      return DocVerdict(Some(SignatureMismatch(DoesNotVerify)), false, false);
    }
    if lookup.value.revoked {
      return DocVerdict(Some(AuthorityRevoked), false, false);
    }
    v := DocVerdict(None, true, true);
  }

  /** A document has the hash it claims. */
  ghost predicate HashHolds(s: Setting, d: Doc)
    requires IsDocument(d.json)
  {
    d.json.Obj? && ContentHash(s.H, d.json) == Strip(d.claimedHash)
  }

  /** The verdict told by conditions instead of by the order they are looked at: nothing is wrong
      with a document exactly when its shape and hash are right and, if it is signed, the scheme
      accepts the hash under its own key and under the published one, where published keys are
      at hand. */
  lemma DocumentAccepted(s: Setting, d: Doc)
    requires IsDocument(d.json)
    ensures DocFault(s, d).None? <==>
            s.shape(d.json).None? && HashHolds(s, d) &&
            (IsSigned(d) ==> Holds(s.crypto, ContentHash(s.H, d.json), d.signature.value, d.key.value)) &&
            (IsSigned(d) && s.trust.Some? ==>
               Lookup(s, d).Some? && !Lookup(s, d).value.revoked &&
               Holds(s.crypto, ContentHash(s.H, d.json), d.signature.value, Lookup(s, d).value.key))
    ensures s.shape(d.json).None? ==> (DocFault(s, d) == Some(CanonicalHashMismatch) <==> !HashHolds(s, d))
    ensures s.shape(d.json).Some? ==> DocFault(s, d) == s.shape(d.json)
  {
  }
}
