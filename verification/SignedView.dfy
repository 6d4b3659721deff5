/** The view of a proof that its signature covers, and exactly what that view determines. */
module SignedView {
  import opened Wrappers
  import opened Hashing
  import opened Encoding
  import opened Json
  import opened NumberText
  import opened CanonicalJson
  import opened CanonicalParser

  /** How one entry of the view is read from the proof. */
  datatype Source =
    | Carried(from: string)
    | CarriedOr(from: string, default: Json)
    | IfPresent(from: string)
    | KeyVersion(from: string)
    | AttestationSubset(timestamp: string, fingerprint: string)

  datatype Rule = Rule(key: string, source: Source)

  /** The entries of the view. Their order is free since the keys are distinct; this one makes
      that easy to see. */
  const RULES: seq<Rule> := [
    Rule("org_id", CarriedOr("org_id", Str(""))),
    Rule("version", Carried("cdp_version")),
    Rule("cdp_kind", IfPresent("cdp_kind")),
    Rule("capsule_id", Carried("capsule_id")),
    Rule("attestation", AttestationSubset("timestamp_attestation", "attestation_chain_fingerprint")),
    Rule("authority_id", Carried("authority_id")),
    Rule("jurisdiction", Carried("jurisdiction")),
    Rule("signing_mode", Carried("signing_mode")),
    Rule("hash_algorithm", Carried("hash_algorithm")),
    Rule("activity_trail", CarriedOr("activity", Arr([]))),
    Rule("destruction_chain", CarriedOr("chain", Arr([]))),
    Rule("destruction_state", Carried("destruction_state")),
    Rule("signature_algorithm", Carried("signature_algorithm")),
    Rule("runtime_attestation", Carried("runtime_attestation")),
    Rule("signing_key_version", KeyVersion("signing_key_version")),
    Rule("parent_audit_proof_id", IfPresent("parent_audit_proof_id")),
    Rule("destruction_failure_step", Carried("destruction_failure_step")),
    Rule("parent_proofs_merkle_root", IfPresent("parent_proofs_merkle_root")),
    Rule("record_receipts_merkle_root", IfPresent("record_receipts_merkle_root")),
    Rule("customer_declared_activity_root", IfPresent("customer_declared_activity_root"))
  ]

  /** A 64-bit integer literal: an optional sign and digits. */
  function ParseInt64(s: Bytes): Option<int> {
    var neg := s != [] && s[0] == '-';
    var body := if neg || (s != [] && s[0] == '+') then s[1..] else s;
    if body != [] && AllDigits(body) && InInt64(Negate(neg, Numeral(body))) then Some(Negate(neg, Numeral(body)))
    else None
  }

  function OrNull(v: Option<Json>): Json {
    if v.Some? then v.value else Null
  }

  /** A fingerprint that is missing, empty or not text counts as null. */
  function Fingerprint(v: Option<Json>): Json {
    if v.Some? && v.value.Str? && v.value.s != [] then v.value else Null
  }

  function VersionNumber(v: Option<Json>): int {
    var text := AsStr(v);
    if text.Some? && ParseInt64(text.value).Some? then ParseInt64(text.value).value else 0
  }

  /** The entry a source contributes, if any. */
  function Entry(source: Source, proof: Json): Option<Json> {
    match source
    case Carried(from) => Some(OrNull(Get(proof, from)))
    case CarriedOr(from, default) => Some(if Get(proof, from).Some? then Get(proof, from).value else default)
    case IfPresent(from) => if OrNull(Get(proof, from)) == Null then None else Get(proof, from)
    case KeyVersion(from) => Some(Num(Int(VersionNumber(Get(proof, from)))))
    case AttestationSubset(timestamp, fingerprint) =>
      Some(Obj(map[timestamp := OrNull(Get(proof, timestamp))][fingerprint := Fingerprint(Get(proof, fingerprint))]))
  }

  /** The view after the first rules have been applied, later rules last. */
  function View(rules: seq<Rule>, proof: Json): map<string, Json> {
    if rules == [] then map[]
    else
      var last := rules[|rules| - 1];
      var before := View(rules[..|rules| - 1], proof);
      var entry := Entry(last.source, proof);
      if entry.Some? then before[last.key := entry.value] else before
  }

  /** Filling a mutable map rule by rule. */
  method BuildView(rules: seq<Rule>, proof: Json) returns (view: map<string, Json>)
    ensures view == View(rules, proof)
  {
    view := map[];
    for i := 0 to |rules|
      invariant view == View(rules[..i], proof)
    {
      var entry := Entry(rules[i].source, proof);
      assert rules[..i + 1][..i] == rules[..i];
      if entry.Some? {
        view := view[rules[i].key := entry.value];
      }
    }
    assert rules[..|rules|] == rules;
  }

  // ----- what the view determines -------------------------------------------------------

  predicate DistinctKeys(rules: seq<Rule>) {
    forall i, j | 0 <= i < j < |rules| :: rules[i].key != rules[j].key
  }

  lemma {:induction false} ViewLacks(rules: seq<Rule>, proof: Json, k: string)
    requires forall i | 0 <= i < |rules| :: rules[i].key != k
    ensures k !in View(rules, proof)
  {
    if rules != [] {
      ViewLacks(rules[..|rules| - 1], proof, k);
    }
  }

  /** Each rule's entry stands under its key, or the key is missing. */
  lemma {:induction false} ViewLookup(rules: seq<Rule>, proof: Json, i: nat)
    requires DistinctKeys(rules) && i < |rules|
    ensures Get(Obj(View(rules, proof)), rules[i].key) == Entry(rules[i].source, proof)
  {
    var n := |rules| - 1;
    var before := rules[..n];
    if i < n {
      ViewLookup(before, proof, i);
    } else {
      ViewLacks(before, proof, rules[n].key);
    }
  }

  ghost predicate SameEntries(rules: seq<Rule>, p: Json, q: Json) {
    forall i | 0 <= i < |rules| :: Entry(rules[i].source, p) == Entry(rules[i].source, q)
  }

  /** Views are equal exactly when every entry is. */
  lemma {:induction false} ViewBinds(rules: seq<Rule>, p: Json, q: Json)
    requires DistinctKeys(rules)
    ensures View(rules, p) == View(rules, q) <==> SameEntries(rules, p, q)
  {
    var v, w := View(rules, p), View(rules, q);
    if v == w {
      forall i | 0 <= i < |rules| ensures Entry(rules[i].source, p) == Entry(rules[i].source, q) {
        ViewLookup(rules, p, i);
        ViewLookup(rules, q, i);
      }
    } else if SameEntries(rules, p, q) {
      SameEntriesSameView(rules, p, q);
    }
  }

  lemma {:induction false} SameEntriesSameView(rules: seq<Rule>, p: Json, q: Json)
    requires SameEntries(rules, p, q)
    ensures View(rules, p) == View(rules, q)
  {
    if rules != [] {
      var n := |rules| - 1;
      assert forall i | 0 <= i < n :: rules[..n][i] == rules[i];
      SameEntriesSameView(rules[..n], p, q);
    }
  }

  /** A key that tells the twenty view keys apart in ascending order. */
  function Mark(key: string): int {
    if key == [] then 0
    else 0x20_0000 * |key| + if |key| > 12 then key[12] as int else key[0] as int
  }

  lemma {:induction false} AscendingMarks(rules: seq<Rule>, i: nat, j: nat)
    requires forall k | 0 < k < |rules| :: Mark(rules[k - 1].key) < Mark(rules[k].key)
    requires i < j < |rules|
    ensures Mark(rules[i].key) < Mark(rules[j].key)
  {
    if i + 1 < j {
      AscendingMarks(rules, i, j - 1);
    }
    assert Mark(rules[j - 1].key) < Mark(rules[j].key);
  }

  lemma RulesDistinct()
    ensures DistinctKeys(RULES)
  {
    RulesAscend();
    forall i, j | 0 <= i < j < |RULES| ensures RULES[i].key != RULES[j].key {
      AscendingMarks(RULES, i, j);
    }
  }

  lemma RulesAscendFirst()
    ensures forall k | 0 < k < 7 :: Mark(RULES[k - 1].key) < Mark(RULES[k].key)
  {
  }

  lemma RulesAscendNext()
    ensures forall k | 7 <= k < 14 :: Mark(RULES[k - 1].key) < Mark(RULES[k].key)
  {
  }

  lemma RulesAscendLast()
    ensures forall k | 14 <= k < 20 :: Mark(RULES[k - 1].key) < Mark(RULES[k].key)
  {
  }

  lemma RulesAscend()
    ensures |RULES| == 20 && forall k | 0 < k < |RULES| :: Mark(RULES[k - 1].key) < Mark(RULES[k].key)
  {
    RulesAscendFirst();
    RulesAscendNext();
    RulesAscendLast();
  }

  predicate IsBlank(v: Option<Json>) {
    v.None? || v.value == Null
  }

  /** What two proofs must share for a source to read alike. */
  predicate Agree(source: Source, p: Json, q: Json) {
    match source
    case Carried(from) => Get(p, from) == Get(q, from) || (IsBlank(Get(p, from)) && IsBlank(Get(q, from)))
    case CarriedOr(from, default) =>
      Get(p, from) == Get(q, from) || (Get(p, from).None? && Get(q, from) == Some(default)) ||
      (Get(p, from) == Some(default) && Get(q, from).None?)
    case IfPresent(from) => Get(p, from) == Get(q, from) || (IsBlank(Get(p, from)) && IsBlank(Get(q, from)))
    case KeyVersion(from) => VersionNumber(Get(p, from)) == VersionNumber(Get(q, from))
    case AttestationSubset(timestamp, fingerprint) =>
      (Get(p, timestamp) == Get(q, timestamp) || (IsBlank(Get(p, timestamp)) && IsBlank(Get(q, timestamp)))) &&
      (Get(p, fingerprint) == Get(q, fingerprint) ||
       (Fingerprint(Get(p, fingerprint)) == Null && Fingerprint(Get(q, fingerprint)) == Null))
  }

  lemma AgreeExactly(source: Source, p: Json, q: Json)
    requires source.AttestationSubset? ==> source.timestamp != source.fingerprint
    ensures Entry(source, p) == Entry(source, q) <==> Agree(source, p, q)
  {
    if source.AttestationSubset? {
      SubsetExactly(source.timestamp, source.fingerprint,
                    OrNull(Get(p, source.timestamp)), Fingerprint(Get(p, source.fingerprint)),
                    OrNull(Get(q, source.timestamp)), Fingerprint(Get(q, source.fingerprint)));
    }
  }

  lemma SubsetExactly(k: string, l: string, a: Json, b: Json, c: Json, d: Json)
    requires k != l
    ensures Obj(map[k := a][l := b]) == Obj(map[k := c][l := d]) <==> a == c && b == d
  {
    var v, w := map[k := a][l := b], map[k := c][l := d];
    assert v[k] == a && v[l] == b && w[k] == c && w[l] == d;
  }

  // ----- the hash -----------------------------------------------------------------------

  predicate SoundSource(source: Source) {
    match source
    case CarriedOr(_, default) => default == Str([]) || default == Arr([])
    case AttestationSubset(timestamp, fingerprint) => timestamp != fingerprint
    case _ => true
  }

  predicate SoundRules(rules: seq<Rule>) {
    DistinctKeys(rules) && forall i | 0 <= i < |rules| :: SoundSource(rules[i].source)
  }

  lemma RulesSound()
    ensures SoundRules(RULES)
  {
    RulesDistinct();
  }

  lemma {:induction false} ViewIsDocument(rules: seq<Rule>, proof: Json)
    requires IsDocument(proof) && forall i | 0 <= i < |rules| :: SoundSource(rules[i].source)
    ensures IsDocument(Obj(View(rules, proof)))
  {
    if rules != [] {
      var n := |rules| - 1;
      assert forall i | 0 <= i < n :: rules[..n][i] == rules[i];
      ViewIsDocument(rules[..n], proof);
    }
  }

  /** The canonical hash of a proof: upper-plane runes are written as they are. */
  ghost function RecomputedHash(H: Sha512, rules: seq<Rule>, proof: Json): Bytes
    requires IsDocument(proof) && SoundRules(rules)
  {
    ViewIsDocument(rules, proof);
    CanonicalHash(H, Obj(View(rules, proof)), false)
  }

  ghost function HashQueries(rules: seq<Rule>, proof: Json): set<Bytes>
    requires IsDocument(proof) && SoundRules(rules)
  {
    ViewIsDocument(rules, proof);
    {CanonicalBytes(Obj(View(rules, proof)), false)}
  }

  /** Equal canonical hashes mean agreement on every signed field, and nothing more. */
  lemma SignatureBinds(H: Sha512, rules: seq<Rule>, p: Json, q: Json)
    requires IsDocument(p) && IsDocument(q) && SoundRules(rules)
    requires InjectiveOn(H, HashQueries(rules, p) + HashQueries(rules, q))
    ensures RecomputedHash(H, rules, p) == RecomputedHash(H, rules, q) <==>
            forall i | 0 <= i < |rules| :: Agree(rules[i].source, p, q)
  {
    var v, w := Obj(View(rules, p)), Obj(View(rules, q));
    ViewIsDocument(rules, p);
    ViewIsDocument(rules, q);
    assert HashQueries(rules, p) + HashQueries(rules, q) == {CanonicalBytes(v, false), CanonicalBytes(w, false)};
    CanonicalHashBinds(H, v, w, false);
    ViewBinds(rules, p, q);
    forall i | 0 <= i < |rules|
      ensures Entry(rules[i].source, p) == Entry(rules[i].source, q) <==> Agree(rules[i].source, p, q)
    {
      AgreeExactly(rules[i].source, p, q);
    }
  }
}
