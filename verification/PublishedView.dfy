/** What stands in the signed view of the published format, field by field: the key version as
    the integer its text spells, everything else as the proof carries it. */
module PublishedView {
  import opened Wrappers
  import opened Hashing
  import opened Encoding
  import opened Json
  import opened NumberText
  import opened Sequences
  import opened SignedView

  // ----- integers as text ---------------------------------------------------------------

  function Size(n: int): nat {
    if n < 0 then -n else n
  }

  /** `s` is `n` in decimal digits behind `sign` and any number of zeros. */
  predicate SpelledBy(s: Bytes, n: int, sign: Bytes, zeros: nat) {
    && s == sign + (Zeros(zeros) + Decimal(Size(n)))
    && if n < 0 then sign == ['-'] else if n > 0 then sign == [] || sign == ['+']
       else sign == [] || sign == ['+'] || sign == ['-']
  }

  ghost predicate SpellsInteger(s: Bytes, n: int) {
    exists sign, zeros :: SpelledBy(s, n, sign, zeros)
  }

  lemma {:induction false} DigitsSpell(d: Bytes) returns (zeros: nat)
    requires d != [] && AllDigits(d)
    ensures d == Zeros(zeros) + Decimal(Numeral(d))
  {
    if d[0] != '0' {
      zeros := 0;
      DecimalOfNumeral(d);
      assert Zeros(0) + d == d;
    } else if |d| == 1 {
      zeros := 0;
      assert d == ['0'] && Numeral(['0'][..0]) == 0 && Decimal(0) == ['0'];
      assert Zeros(0) + d == d;
    } else {
      zeros := DigitsSpell(d[1..]);
      NumeralLeading(1, d[1..]);
      assert d == Zeros(1) + d[1..];
      zeros := zeros + 1;
      assert Zeros(1) + Zeros(zeros - 1) == Zeros(zeros);
      assert d == Zeros(1) + (Zeros(zeros - 1) + Decimal(Numeral(d)));
      assert d == Zeros(1) + Zeros(zeros - 1) + Decimal(Numeral(d));
    }
  }

  lemma BodyReads(n: nat, zeros: nat)
    ensures var body := Zeros(zeros) + Decimal(n);
            body != [] && IsDigit(body[0]) && AllDigits(body) && Numeral(body) == n
  {
    NumeralLeading(zeros, Decimal(n));
    NumeralOfDecimal(n);
  }

  lemma UnsignedReads(body: Bytes)
    requires body != [] && IsDigit(body[0]) && AllDigits(body) && InInt64(Numeral(body))
    ensures ParseInt64(body) == Some(Numeral(body))
  {
  }

  lemma SignedReads(sign: Byte, body: Bytes)
    requires (sign == '+' || sign == '-') && body != [] && AllDigits(body)
    requires InInt64(Negate(sign == '-', Numeral(body)))
    ensures ParseInt64([sign] + body) == Some(Negate(sign == '-', Numeral(body)))
  {
    DropFront([sign], body);
  }

  lemma {:induction false} ReadsSpelled(s: Bytes, n: int, sign: Bytes, zeros: nat)
    requires InInt64(n) && SpelledBy(s, n, sign, zeros)
    ensures ParseInt64(s) == Some(n)
  {
    var body := Zeros(zeros) + Decimal(Size(n));
    BodyReads(Size(n), zeros);
    if sign == [] {
      assert s == body;
      UnsignedReads(body);
    } else {
      SignedReads(sign[0], body);
      assert sign == [sign[0]];
    }
  }

  lemma {:induction false} ReadIsSpelled(s: Bytes)
    requires ParseInt64(s).Some?
    ensures SpellsInteger(s, ParseInt64(s).value) && InInt64(ParseInt64(s).value)
  {
    var n := ParseInt64(s).value;
    var signed := s[0] == '-' || s[0] == '+';
    var body := if signed then s[1..] else s;
    var zeros := DigitsSpell(body);
    assert Size(n) == Numeral(body);
    var sign := if signed then [s[0]] else [];
    assert s == sign + body;
    assert SpelledBy(s, n, sign, zeros);
  }

  /** The integer read from a text is the one the text spells, and every spelling is read. */
  lemma {:induction false} ReadsExactly(s: Bytes, n: int)
    ensures ParseInt64(s) == Some(n) <==> InInt64(n) && SpellsInteger(s, n)
  {
    if ParseInt64(s) == Some(n) {
      ReadIsSpelled(s);
    } else if InInt64(n) && SpellsInteger(s, n) {
      var sign, zeros :| SpelledBy(s, n, sign, zeros);
      ReadsSpelled(s, n, sign, zeros);
    }
  }

  /** A key version other than zero is the integer its text spells; whatever spells no 64-bit
      integer counts as zero. */
  lemma {:induction false} VersionNumberExactly(v: Option<Json>, n: int)
    ensures n != 0 ==>
              (VersionNumber(v) == n <==> AsStr(v).Some? && InInt64(n) && SpellsInteger(AsStr(v).value, n))
    ensures AsStr(v).Some? && InInt64(n) && SpellsInteger(AsStr(v).value, n) ==> VersionNumber(v) == n
  {
    if AsStr(v).Some? {
      ReadsExactly(AsStr(v).value, n);
      if ParseInt64(AsStr(v).value).Some? {
        ReadIsSpelled(AsStr(v).value);
      }
    }
  }

  // ----- field by field -----------------------------------------------------------------

  function ViewOf(proof: Json): Json {
    Obj(View(RULES, proof))
  }

  lemma RuleStands(proof: Json, i: nat)
    requires i < |RULES|
    ensures Get(ViewOf(proof), RULES[i].key) == Entry(RULES[i].source, proof)
  {
    RulesSound();
    ViewLookup(RULES, proof, i);
  }

  /** The view holds `key` as the proof holds `from`, null if it does not. */
  predicate Carries(proof: Json, key: string, from: string) {
    Get(ViewOf(proof), key) == Some(if Get(proof, from).Some? then Get(proof, from).value else Null)
  }

  /** The view holds `key` as the proof holds `from`, the default if it does not. */
  predicate CarriesOr(proof: Json, key: string, from: string, default: Json) {
    Get(ViewOf(proof), key) == Some(if Get(proof, from).Some? then Get(proof, from).value else default)
  }

  /** The view holds `key` exactly if the proof does and it is not null. */
  predicate CarriesIfThere(proof: Json, key: string) {
    Get(ViewOf(proof), key) == if Get(proof, key) == Some(Null) then None else Get(proof, key)
  }

  lemma NamesCarried(proof: Json)
    ensures Carries(proof, "version", "cdp_version") && Carries(proof, "capsule_id", "capsule_id")
    ensures Carries(proof, "authority_id", "authority_id") && Carries(proof, "jurisdiction", "jurisdiction")
    ensures Carries(proof, "signing_mode", "signing_mode") && CarriesOr(proof, "org_id", "org_id", Str(""))
  {
    RuleStands(proof, 0);
    RuleStands(proof, 1);
    RuleStands(proof, 3);
    RuleStands(proof, 5);
    RuleStands(proof, 6);
    RuleStands(proof, 7);
  }

  lemma RecordsCarried(proof: Json)
    ensures CarriesOr(proof, "activity_trail", "activity", Arr([]))
    ensures CarriesOr(proof, "destruction_chain", "chain", Arr([]))
    ensures Carries(proof, "runtime_attestation", "runtime_attestation")
    ensures Carries(proof, "destruction_state", "destruction_state")
    ensures Carries(proof, "destruction_failure_step", "destruction_failure_step")
  {
    RuleStands(proof, 9);
    RuleStands(proof, 10);
    RuleStands(proof, 11);
    RuleStands(proof, 13);
    RuleStands(proof, 16);
  }

  lemma AlgorithmsCarried(proof: Json)
    ensures Carries(proof, "hash_algorithm", "hash_algorithm")
    ensures Carries(proof, "signature_algorithm", "signature_algorithm")
  {
    RuleStands(proof, 8);
    RuleStands(proof, 12);
  }

  lemma RootsCarried(proof: Json)
    ensures CarriesIfThere(proof, "cdp_kind") && CarriesIfThere(proof, "parent_audit_proof_id")
    ensures CarriesIfThere(proof, "parent_proofs_merkle_root")
    ensures CarriesIfThere(proof, "record_receipts_merkle_root")
    ensures CarriesIfThere(proof, "customer_declared_activity_root")
  {
    RuleStands(proof, 2);
    RuleStands(proof, 15);
    RuleStands(proof, 17);
    RuleStands(proof, 18);
    RuleStands(proof, 19);
  }

  /** The key version stands as the integer its text spells, and as zero if it spells none. */
  lemma {:induction false} KeyVersionStands(proof: Json, n: int)
    requires n == 0 || InInt64(n)
    ensures SpellsField(proof, n) ==> Get(ViewOf(proof), "signing_key_version") == Some(Num(Int(n)))
    ensures Get(ViewOf(proof), "signing_key_version") == Some(Num(Int(n))) && n != 0 ==> SpellsField(proof, n)
  {
    RuleStands(proof, 14);
    VersionNumberExactly(Get(proof, "signing_key_version"), n);
  }

  /** The proof's key version is a text that spells `n`. */
  ghost predicate SpellsField(proof: Json, n: int) {
    StrField(proof, "signing_key_version").Some? && SpellsInteger(StrField(proof, "signing_key_version").value, n)
  }

  /** The attestation of the view: the timestamp's, and the fingerprint if it is a non-empty
      text. */
  lemma AttestationStands(proof: Json)
    ensures
      var v := Get(ViewOf(proof), "attestation");
      var stamp, mark := Get(proof, "timestamp_attestation"), Get(proof, "attestation_chain_fingerprint");
      v.Some? && Get(v.value, "timestamp_attestation") == Some(if stamp.Some? then stamp.value else Null) &&
      Get(v.value, "attestation_chain_fingerprint") ==
        Some(if mark.Some? && mark.value.Str? && mark.value.s != [] then mark.value else Null)
  {
    RuleStands(proof, 4);
  }
}
