/** The chain timestamp carried inside an attestation key id. */
module KeyTimestamp {
  import opened Wrappers
  import opened Hashing
  import opened Json
  import opened Sequences

  const KEY_PREFIX: Bytes := "nrx-verify-"

  predicate IsDigitAt(s: Bytes, i: nat) {
    i < |s| && '0' <= s[i] <= '9'
  }

  // ----- recovery -----------------------------------------------------------------------

  predicate IsDate(d: Bytes) {
    |d| == 10 && d[4] == '-' && d[7] == '-' &&
    IsDigitAt(d, 0) && IsDigitAt(d, 1) && IsDigitAt(d, 2) && IsDigitAt(d, 3) &&
    IsDigitAt(d, 5) && IsDigitAt(d, 6) && IsDigitAt(d, 8) && IsDigitAt(d, 9)
  }

  predicate IsTime(t: Bytes) {
    |t| >= 8 && t[2] == ':' && t[5] == ':' &&
    IsDigitAt(t, 0) && IsDigitAt(t, 1) && IsDigitAt(t, 3) && IsDigitAt(t, 4) && IsDigitAt(t, 6) && IsDigitAt(t, 7)
  }

  /** `YYYY-MM-DDTHH:MM:SS` and a free tail. */
  predicate IsTimestamp(ts: Bytes) {
    |ts| >= 19 && ts[10] == 'T' && IsDate(ts[..10]) && IsTime(ts[11..])
  }

  function Stamp(date: Bytes, time: Bytes): Bytes {
    date + ['T'] + time
  }

  /** The shape check on what stands before the last dash. */
  function Decode(encoded: Bytes): Option<Bytes> {
    var t := First(encoded, 'T');
    if t == |encoded| then None
    else
      var date, time := encoded[..t], Replace(encoded[t + 1..], '-', ':');
      if IsDate(date) && IsTime(time) then Some(Stamp(date, time)) else None
  }

  function Recover(keyId: Bytes): Option<Bytes> {
    if !(KEY_PREFIX <= keyId) then None
    else
      var rest := keyId[|KEY_PREFIX|..];
      var dash := Last(rest, '-');
      if dash < 0 || dash == |rest| - 1 then None else Decode(rest[..dash])
  }

  /** The byte loops that search from either end and rewrite the time in a fresh buffer. */
  method RecoverTimestampFromKeyId(keyId: Bytes) returns (ts: Option<Bytes>)
    ensures ts == Recover(keyId)
  {
    if |keyId| < |KEY_PREFIX| || keyId[..|KEY_PREFIX|] != KEY_PREFIX {
      return None;
    }
    var rest := keyId[|KEY_PREFIX|..];
    var lastDash, i := -1, |rest| - 1;
    while i >= 0
      invariant -1 <= i < |rest| && lastDash == -1
      invariant forall k | i < k < |rest| :: rest[k] != '-'
    {
      if rest[i] == '-' {
        lastDash := i;
        break;
      }
      i := i - 1;
    }
    assert lastDash == Last(rest, '-');
    if lastDash < 0 {
      return None;
    }
    var encoded, fragment := rest[..lastDash], rest[lastDash + 1..];
    if fragment == [] {
      return None;
    }
    ts := DecodeLoops(encoded);
  }

  method DecodeLoops(encoded: Bytes) returns (ts: Option<Bytes>)
    ensures ts == Decode(encoded)
  {
    var tIdx := -1;
    for i := 0 to |encoded|
      invariant tIdx == -1 && forall k | 0 <= k < i :: encoded[k] != 'T'
    {
      if encoded[i] == 'T' {
        tIdx := i;
        break;
      }
    }
    assert tIdx == if First(encoded, 'T') == |encoded| then -1 else First(encoded, 'T');
    if tIdx < 0 {
      return None;
    }
    var date, encodedTime := encoded[..tIdx], encoded[tIdx + 1..];
    var timePart := new Byte[|encodedTime|](_ => NUL);
    for i := 0 to |encodedTime|
      invariant timePart[..i] == Replace(encodedTime[..i], '-', ':')
    {
      timePart[i] := if encodedTime[i] == '-' then ':' else encodedTime[i];
    }
    var time := timePart[..];
    assert time == Replace(encodedTime, '-', ':');
    ts := if IsDate(date) && IsTime(time) then Some(Stamp(date, time)) else None;
  }

  /** How a signer spells the key id. */
  function EncodeKeyId(ts: Bytes, fragment: Bytes): Bytes {
    KEY_PREFIX + (Replace(ts, ':', '-') + ['-'] + fragment)
  }

  /** Whatever is recovered has the shape of a timestamp. */
  lemma RecoveredShape(keyId: Bytes)
    requires Recover(keyId).Some?
    ensures IsTimestamp(Recover(keyId).value)
  {
  }

  /** Decoding inverts the encoding of a shaped timestamp up to dashes in its time part. */
  lemma DecodeOfEncoded(ts: Bytes)
    requires IsTimestamp(ts)
    ensures Decode(Replace(ts, ':', '-')) == Some(Stamp(ts[..10], Replace(ts[11..], '-', ':')))
  {
    var e := Replace(ts, ':', '-');
    assert forall k | 0 <= k < 10 :: ts[k] == ts[..10][k];
    assert First(e, 'T') == 10;
    assert e[..10] == ts[..10];
    assert Replace(e[11..], '-', ':') == Replace(ts[11..], '-', ':');
    var t, u := ts[11..], Replace(ts[11..], '-', ':');
    assert IsTime(t) ==> IsTime(u);
  }

  lemma RecoverOfEncoded(ts: Bytes, fragment: Bytes)
    requires fragment != [] && Lacks(fragment, '-')
    ensures Recover(EncodeKeyId(ts, fragment)) == Decode(Replace(ts, ':', '-'))
  {
    var e := Replace(ts, ':', '-');
    var rest := e + ['-'] + fragment;
    assert EncodeKeyId(ts, fragment)[|KEY_PREFIX|..] == rest;
    assert forall k | |e| < k < |rest| :: rest[k] == fragment[k - |e| - 1];
    assert rest[|e|] == '-';
    assert Last(rest, '-') == |e|;
    assert rest[..|e|] == e;
  }

  lemma RecoverTooLong(ts: Bytes, fragment: Bytes)
    requires fragment == [] || !Lacks(fragment, '-')
    ensures Recover(EncodeKeyId(ts, fragment)) != Some(ts)
  {
    var e := Replace(ts, ':', '-');
    var rest := e + ['-'] + fragment;
    assert EncodeKeyId(ts, fragment)[|KEY_PREFIX|..] == rest;
    var dash := Last(rest, '-');
    if fragment == [] {
      assert rest[|e|] == '-';
    } else {
      var j :| 0 <= j < |fragment| && fragment[j] == '-';
      assert rest[|e| + 1 + j] == '-';
      assert dash > |e|;
    }
  }

  /** Recovery inverts the encoding exactly for a shaped timestamp whose time part has no dash
      and a non-empty fragment without one. */
  lemma RecoverInverts(ts: Bytes, fragment: Bytes)
    ensures Recover(EncodeKeyId(ts, fragment)) == Some(ts) <==>
            IsTimestamp(ts) && Lacks(ts[11..], '-') && fragment != [] && Lacks(fragment, '-')
  {
    if fragment == [] || !Lacks(fragment, '-') {
      RecoverTooLong(ts, fragment);
    } else {
      RecoverOfEncoded(ts, fragment);
      if IsTimestamp(ts) {
        DecodeOfEncoded(ts);
        var time, plain := ts[11..], Replace(ts[11..], '-', ':');
        assert ts == Stamp(ts[..10], time);
        assert Stamp(ts[..10], plain)[11..] == plain;
        if time == plain {
          assert Lacks(time, '-');
        } else {
          assert !Lacks(time, '-');
        }
      }
    }
  }

  // ----- which timestamp a document's chain hashes ---------------------------------------

  /** The declared timestamp, else the recovered one (which is also disclosed), else nothing. */
  function Resolve(doc: Json): (Bytes, Option<Bytes>) {
    var declared := StrOr(StrField(doc, "destroyed_at"), []);
    if declared != [] then (declared, None)
    else
      var keyId := KeyIdOf(doc);
      if keyId.Some? && Recover(keyId.value).Some? then (Recover(keyId.value).value, Recover(keyId.value))
      else ([], None)
  }

  function KeyIdOf(doc: Json): Option<Bytes> {
    var attestation := Get(doc, "attestation");
    if attestation.Some? then StrField(attestation.value, "key_id") else None
  }

  /** A timestamp is disclosed as recovered exactly when the document declares none and its key
      id yields one; that one is then the timestamp used, and it is shaped. */
  lemma ResolveDiscloses(doc: Json)
    ensures var (used, recovered) := Resolve(doc);
            var declared := StrOr(StrField(doc, "destroyed_at"), []);
            (recovered.Some? <==> declared == [] && KeyIdOf(doc).Some? && Recover(KeyIdOf(doc).value).Some?) &&
            (recovered.Some? ==> used == recovered.value && IsTimestamp(used)) && (recovered.None? ==> used == declared)
  {
    if KeyIdOf(doc).Some? && Recover(KeyIdOf(doc).value).Some? {
      RecoveredShape(KeyIdOf(doc).value);
    }
  }

  /** A document that declares no timestamp still yields the one its key id was made from,
      exactly when recovery can invert the spelling. */
  lemma ResolveFindsTimestamp(doc: Json, ts: Bytes, fragment: Bytes)
    requires StrOr(StrField(doc, "destroyed_at"), []) == [] && KeyIdOf(doc) == Some(EncodeKeyId(ts, fragment))
    ensures Resolve(doc) == (ts, Some(ts)) <==>
            IsTimestamp(ts) && Lacks(ts[11..], '-') && fragment != [] && Lacks(fragment, '-')
  {
    RecoverInverts(ts, fragment);
  }
}
