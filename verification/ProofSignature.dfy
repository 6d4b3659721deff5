/** Which message a proof's signature covers, and when the signature counts as verified.
    Base64, key validity and Ed25519 are parameters. */
module ProofSignature {
  import opened Wrappers
  import opened Hashing
  import opened Hex
  import opened Json
  import opened CanonicalJson
  import opened SignedView

  datatype Crypto = Crypto(
    decode: Bytes -> Option<Bytes>, validKey: Bytes -> bool, verifies: (Bytes, Bytes, Bytes) -> bool)

  const BASE64_PREFIX: Bytes := "base64:"

  function StripBase64(s: Bytes): Bytes {
    if BASE64_PREFIX <= s then s[|BASE64_PREFIX|..] else s
  }

  datatype Failure = Malformed | PublicKeyMalformed | DoesNotVerify

  datatype Check = Verified | Absent | Unsupported(mode: Bytes) | Failed(reason: Failure)

  /** The versions a verifier knows. */
  datatype Version = V10 | V20 | V21 | V22

  function ReadVersion(text: Bytes): Option<Version> {
    if text == "1.0" then Some(V10)
    else if text == "2.0" then Some(V20)
    else if text == "2.1" then Some(V21)
    else if text == "2.2" then Some(V22)
    else None
  }

  /** What the signature stages read from a proof. A key or signature is kept as the value
      found, since finding one of the wrong type still stops the search for another. */
  datatype Signed = Signed(
    doc: Json, version: Option<Version>, mode: Option<Bytes>, finalHash: Bytes, documentHash: Bytes,
    publicKey: Option<Json>, verificationKey: Option<Json>, signature: Option<Json>)

  const NANORIX_ONLY: Bytes := "nanorix_only"
  const SENTINEL: Bytes := [NUL] + "unsupported-signing-mode:"

  /** The signed text, or a marked text for a mode this verifier cannot check. */
  ghost function SignedMessage(H: Sha512, rules: seq<Rule>, p: Signed): Option<Bytes>
    requires IsDocument(p.doc) && SoundRules(rules)
  {
    match p.version
    case None => None
    case Some(V10) => Some(Strip(p.finalHash))
    case Some(V20) => Some(Strip(p.documentHash))
    case Some(_) =>
      var mode := StrOr(p.mode, NANORIX_ONLY);
      Some(if mode == NANORIX_ONLY then RecomputedHash(H, rules, p.doc) else SENTINEL + mode)
  }

  /** A text value that is there and not empty. */
  function NonEmpty(v: Option<Json>): Option<Bytes> {
    if AsStr(v).Some? && AsStr(v).value != [] then AsStr(v) else None
  }

  function OrElse<T>(first: Option<T>, second: Option<T>): Option<T> {
    if first.Some? then first else second
  }

  function VerifyMessage(crypto: Crypto, message: Bytes, signature: Bytes, key: Bytes): Check {
    var sig, pub := crypto.decode(StripBase64(signature)), crypto.decode(StripBase64(key));
    if sig.None? || |sig.value| != 64 then Failed(Malformed)
    else if pub.None? || |pub.value| != 32 || !crypto.validKey(pub.value) then Failed(PublicKeyMalformed)
    else if crypto.verifies(pub.value, message, sig.value) then Verified
    else Failed(DoesNotVerify)
  }

  /** The check of a proof's own signature against some key. */
  ghost function CheckAgainst(H: Sha512, crypto: Crypto, rules: seq<Rule>, p: Signed, key: Option<Bytes>): Check
    requires IsDocument(p.doc) && SoundRules(rules)
  {
    var sig := NonEmpty(p.signature);
    if sig.None? || key.None? then Absent
    else
      var message := SignedMessage(H, rules, p);
      if message.None? then Absent
      else if SENTINEL <= message.value then Unsupported(message.value[|SENTINEL|..])
      else VerifyMessage(crypto, message.value, sig.value, key.value)
  }

  function EmbeddedKey(p: Signed): Option<Bytes> {
    NonEmpty(OrElse(p.publicKey, p.verificationKey))
  }

  /** The check against the key the proof carries itself. */
  ghost function VerifySignature(H: Sha512, crypto: Crypto, rules: seq<Rule>, p: Signed): Check
    requires IsDocument(p.doc) && SoundRules(rules)
  {
    CheckAgainst(H, crypto, rules, p, EmbeddedKey(p))
  }

  /** What stands behind a verified message: both texts decode to the right lengths and the
      scheme accepts. */
  predicate Holds(crypto: Crypto, message: Bytes, signature: Bytes, key: Bytes) {
    var sig, pub := crypto.decode(StripBase64(signature)), crypto.decode(StripBase64(key));
    sig.Some? && |sig.value| == 64 && pub.Some? && |pub.value| == 32 && crypto.validKey(pub.value) &&
    crypto.verifies(pub.value, message, sig.value)
  }

  /** The verdict told by conditions instead of by the order they are looked at. */
  lemma VerifiedMeans(H: Sha512, crypto: Crypto, rules: seq<Rule>, p: Signed, key: Option<Bytes>)
    requires IsDocument(p.doc) && SoundRules(rules)
    ensures CheckAgainst(H, crypto, rules, p, key) == Verified <==>
            NonEmpty(p.signature).Some? && key.Some? && SignedMessage(H, rules, p).Some? &&
            !(SENTINEL <= SignedMessage(H, rules, p).value) &&
            Holds(crypto, SignedMessage(H, rules, p).value, NonEmpty(p.signature).value, key.value)
    ensures CheckAgainst(H, crypto, rules, p, key) == Absent <==>
            NonEmpty(p.signature).None? || key.None? || SignedMessage(H, rules, p).None?
    ensures CheckAgainst(H, crypto, rules, p, key).Failed? ==>
            !Holds(crypto, SignedMessage(H, rules, p).value, NonEmpty(p.signature).value, key.value)
  {
  }

  predicate SignsView(p: Signed) {
    p.version == Some(V21) || p.version == Some(V22)
  }

  lemma SentinelIsNotHex(s: Bytes)
    requires IsLowerHex(s)
    ensures !(SENTINEL <= s)
  {
    assert SENTINEL[0] == NUL;
  }

  /** A canonical hash is never mistaken for an unsupported mode. */
  lemma ViewMessage(H: Sha512, rules: seq<Rule>, p: Signed)
    requires IsDocument(p.doc) && SoundRules(rules) && SignsView(p)
    ensures var message := SignedMessage(H, rules, p);
            message.Some? && (SENTINEL <= message.value <==> StrOr(p.mode, NANORIX_ONLY) != NANORIX_ONLY)
  {
    SentinelIsNotHex(RecomputedHash(H, rules, p.doc));
  }

  /** Changing the mode of a signed proof never turns a rejection into a milder verdict: a mode
      that cannot be checked is reported as such whenever a signature and a key are there. */
  lemma NoDowngrade(H: Sha512, crypto: Crypto, rules: seq<Rule>, p: Signed)
    requires IsDocument(p.doc) && SoundRules(rules) && SignsView(p)
    requires NonEmpty(p.signature).Some? && EmbeddedKey(p).Some?
    ensures VerifySignature(H, crypto, rules, p) != Absent
    ensures VerifySignature(H, crypto, rules, p).Unsupported? <==> StrOr(p.mode, NANORIX_ONLY) != NANORIX_ONLY
    ensures StrOr(p.mode, NANORIX_ONLY) != NANORIX_ONLY ==>
              VerifySignature(H, crypto, rules, p) == Unsupported(p.mode.value)
  {
    ViewMessage(H, rules, p);
    if StrOr(p.mode, NANORIX_ONLY) != NANORIX_ONLY {
      assert (SENTINEL + p.mode.value)[|SENTINEL|..] == p.mode.value;
    }
  }

  /** Two proofs that sign their view have one signed message exactly when they agree on every
      signed field. */
  lemma OneMessage(H: Sha512, rules: seq<Rule>, p: Signed, q: Signed)
    requires IsDocument(p.doc) && IsDocument(q.doc) && SoundRules(rules) && SignsView(p) && SignsView(q)
    requires StrOr(p.mode, NANORIX_ONLY) == NANORIX_ONLY && StrOr(q.mode, NANORIX_ONLY) == NANORIX_ONLY
    requires InjectiveOn(H, HashQueries(rules, p.doc) + HashQueries(rules, q.doc))
    ensures SignedMessage(H, rules, p) == SignedMessage(H, rules, q) <==>
            forall i | 0 <= i < |rules| :: Agree(rules[i].source, p.doc, q.doc)
  {
    SignatureBinds(H, rules, p.doc, q.doc);
  }
}
