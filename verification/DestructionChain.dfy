/** The eight-step destruction chain: every step hashes its predecessor, its canonical identity
    and one timestamp; the last step also takes in the receipt and parent roots present. */
module DestructionChain {
  import opened Wrappers
  import opened Hashing
  import opened Hex
  import opened NulText

  const STEPS: nat := 8

  datatype Identity = Identity(subsystem: Bytes, verification: Bytes)

  /** Who performs each step and how; everything below holds for any eight identities. */
  type Names = s: seq<Identity> | |s| == STEPS witness seq(STEPS, _ => Identity([], []))

  const CANONICAL: Names := [
    Identity("eee_namespace", "procfs_verification"),
    Identity("eee_tmpfs", "mountinfo_verification"),
    Identity("eee_memory", "dod_5220_multipass_wipe"),
    Identity("dire_keys", "ed25519_key_destruction"),
    Identity("dire_identity", "credential_incineration"),
    Identity("fgx_forensic", "merkle_tree_verification"),
    Identity("rzl_audit", "hash_chain_validation"),
    Identity("capsule_destroy", "capsule_lifecycle_verification")
  ]

  const ACTION: Bytes := "destroy"

  function StepPreimage(prev: Bytes, id: Identity, ts: Bytes): Bytes
  {
    Pair(prev, Pair(id.subsystem, Pair(ACTION, Pair(id.verification, ts))))
  }

  function StepHash(H: Sha512, prev: Bytes, id: Identity, ts: Bytes): (h: Bytes)
    ensures |h| == 128 && IsLowerHex(h)
  {
    HashHex(H, StepPreimage(prev, id, ts))
  }

  /** The receipt and parent roots a proof carries. */
  datatype Roots = Roots(receipts: Option<Bytes>, parents: Option<Bytes>)
  {
    function Present(): seq<Bytes> {
      (if receipts.Some? then [Strip(receipts.value)] else []) + (if parents.Some? then [Strip(parents.value)] else [])
    }
  }

  /** The last step's hash, in its four forms. */
  function LastStepHash(H: Sha512, id: Identity, prev: Bytes, ts: Bytes, roots: Roots): (h: Bytes)
    ensures |h| == 128 && IsLowerHex(h)
  {
    var base := StepHash(H, prev, id, ts);
    match roots
    case Roots(None, None) => base
    case Roots(Some(rr), None) => HashHex(H, base + [NUL] + Strip(rr))
    case Roots(None, Some(pp)) => HashHex(H, base + [NUL] + Strip(pp))
    case Roots(Some(rr), Some(pp)) => HashHex(H, base + [NUL] + Strip(rr) + [NUL] + Strip(pp))
  }

  function OneStep(H: Sha512, names: Names, prev: Bytes, ts: Bytes, roots: Roots, idx: nat): (h: Bytes)
    requires idx < STEPS
    ensures |h| == 128 && IsLowerHex(h)
  {
    if idx == STEPS - 1 then LastStepHash(H, names[idx], prev, ts, roots) else StepHash(H, prev, names[idx], ts)
  }

  function PrevAt(H: Sha512, names: Names, ts: Bytes, roots: Roots, idx: nat): (h: Bytes)
    requires idx < STEPS
    ensures |h| == 128 && IsLowerHex(h)
    decreases idx, 0
  {
    if idx == 0 then HashHex(H, []) else HashAt(H, names, ts, roots, idx - 1)
  }

  /** The hash step `idx` must carry. */
  function HashAt(H: Sha512, names: Names, ts: Bytes, roots: Roots, idx: nat): (h: Bytes)
    requires idx < STEPS
    ensures |h| == 128 && IsLowerHex(h)
    decreases idx, 1
  {
    OneStep(H, names, PrevAt(H, names, ts, roots, idx), ts, roots, idx)
  }

  // ----- the walk -----------------------------------------------------------------------

  /** A chain entry as the walk reads it, empty text for a field that is missing or not text. */
  datatype Step = Step(subsystem: Bytes, chainHash: Bytes)

  datatype ChainFault = StepCount(found: nat) | HashMismatch(idx: nat) | IdentityMismatch(idx: nat)

  predicate Reproduces(H: Sha512, names: Names, ts: Bytes, roots: Roots, chain: seq<Step>, idx: nat)
    requires idx < |chain| && idx < STEPS
  {
    Strip(chain[idx].chainHash) == HashAt(H, names, ts, roots, idx)
  }

  predicate Sound(H: Sha512, names: Names, ts: Bytes, roots: Roots, chain: seq<Step>, idx: nat)
    requires idx < |chain| && idx < STEPS
  {
    Reproduces(H, names, ts, roots, chain, idx) && chain[idx].subsystem == names[idx].subsystem
  }

  /** A chain passes when it has eight steps and each carries its hash and its name. */
  predicate Passes(H: Sha512, names: Names, ts: Bytes, roots: Roots, chain: seq<Step>) {
    |chain| == STEPS && forall i: nat | i < STEPS :: Sound(H, names, ts, roots, chain, i)
  }

  /** What a reported fault says: the steps before it are sound and it is the first that is not;
      a wrong hash is reported before a wrong name. */
  predicate Explains(H: Sha512, names: Names, ts: Bytes, roots: Roots, chain: seq<Step>, fault: ChainFault) {
    match fault
    case StepCount(found) => found == |chain| != STEPS
    case HashMismatch(idx) =>
      |chain| == STEPS && idx < STEPS && !Reproduces(H, names, ts, roots, chain, idx) &&
      (forall i: nat | i < idx :: Sound(H, names, ts, roots, chain, i))
    case IdentityMismatch(idx) =>
      |chain| == STEPS && idx < STEPS && Reproduces(H, names, ts, roots, chain, idx) &&
      chain[idx].subsystem != names[idx].subsystem && (forall i: nat | i < idx :: Sound(H, names, ts, roots, chain, i))
  }

  predicate SoundBefore(H: Sha512, names: Names, ts: Bytes, roots: Roots, chain: seq<Step>, idx: nat)
    requires idx <= STEPS == |chain|
  {
    forall i: nat | i < idx :: Sound(H, names, ts, roots, chain, i)
  }

  lemma OneMoreSound(H: Sha512, names: Names, ts: Bytes, roots: Roots, chain: seq<Step>, idx: nat)
    requires idx < STEPS == |chain| && SoundBefore(H, names, ts, roots, chain, idx)
    ensures SoundBefore(H, names, ts, roots, chain, idx + 1) <==> Sound(H, names, ts, roots, chain, idx)
  {
  }

  /** The check of one entry against the hash of the one before. */
  method CheckStep(H: Sha512, names: Names, ts: Bytes, roots: Roots, chain: seq<Step>, idx: nat, prev: Bytes)
    returns (recomputed: Bytes, fault: Option<ChainFault>)
    requires idx < STEPS == |chain| && prev == PrevAt(H, names, ts, roots, idx)
    requires SoundBefore(H, names, ts, roots, chain, idx)
    ensures recomputed == HashAt(H, names, ts, roots, idx)
    ensures fault.None? <==> Sound(H, names, ts, roots, chain, idx)
    ensures fault.Some? ==> Explains(H, names, ts, roots, chain, fault.value)
  {
    recomputed := OneStep(H, names, prev, ts, roots, idx);
    fault := if recomputed != Strip(chain[idx].chainHash) then Some(HashMismatch(idx))
             else if chain[idx].subsystem != names[idx].subsystem then Some(IdentityMismatch(idx))
             else None;
  }

  method WalkChain(
    H: Sha512, names: Names, ts: Bytes, roots: Roots, chain: seq<Step>) returns (fault: Option<ChainFault>)
    ensures fault.None? <==> Passes(H, names, ts, roots, chain)
    ensures fault.Some? ==> Explains(H, names, ts, roots, chain, fault.value)
  {
    if |chain| != STEPS {
      return Some(StepCount(|chain|));
    }
    var prev := HashHex(H, []);
    for idx := 0 to STEPS
      invariant SoundBefore(H, names, ts, roots, chain, idx)
      invariant idx < STEPS ==> prev == PrevAt(H, names, ts, roots, idx)
    {
      prev, fault := CheckStep(H, names, ts, roots, chain, idx, prev);
      OneMoreSound(H, names, ts, roots, chain, idx);
      if fault.Some? {
        return;
      }
    }
    fault := None;
  }

  // ----- what the last hash binds -------------------------------------------------------

  /** What the last step hashes on top of its base, when a root is present. */
  function AmendedPreimage(base: Bytes, present: seq<Bytes>): Bytes {
    Join([base] + present)
  }

  ghost function LastQueries(H: Sha512, id: Identity, prev: Bytes, ts: Bytes, roots: Roots): set<Bytes> {
    {StepPreimage(prev, id, ts), AmendedPreimage(StepHash(H, prev, id, ts), roots.Present())}
  }

  /** The four forms are two: the base, or the base joined with the roots present. */
  lemma LastStepForms(H: Sha512, id: Identity, prev: Bytes, ts: Bytes, roots: Roots)
    ensures LastStepHash(H, id, prev, ts, roots) ==
            if roots.Present() == [] then StepHash(H, prev, id, ts)
            else HashHex(H, AmendedPreimage(StepHash(H, prev, id, ts), roots.Present()))
  {
    var base, present := StepHash(H, prev, id, ts), roots.Present();
    if |present| == 1 {
      JoinSnoc([base], present[0]);
      assert present == [present[0]];
    } else if |present| == 2 {
      JoinSnoc([base], present[0]);
      JoinSnoc([base] + [present[0]], present[1]);
      assert [base] + present == [base] + [present[0]] + [present[1]];
    }
  }

  lemma StepPreimageInjective(a: Bytes, b: Bytes, id: Identity, ts: Bytes, us: Bytes)
    requires IsLowerHex(a) && IsLowerHex(b) && StepPreimage(a, id, ts) == StepPreimage(b, id, us)
    ensures a == b && ts == us
  {
    HexIsNulFree(a);
    HexIsNulFree(b);
    var s, v := id.subsystem, id.verification;
    PairInjective(a, Pair(s, Pair(ACTION, Pair(v, ts))), b, Pair(s, Pair(ACTION, Pair(v, us))));
    SamePrefix(s, Pair(ACTION, Pair(v, ts)), Pair(ACTION, Pair(v, us)));
    SamePrefix(ACTION, Pair(v, ts), Pair(v, us));
    SamePrefix(v, ts, us);
  }

  lemma SamePrefix(p: Bytes, x: Bytes, y: Bytes)
    requires Pair(p, x) == Pair(p, y)
    ensures x == y
  {
    assert x == Pair(p, x)[|p| + 1..] == Pair(p, y)[|p| + 1..] == y;
  }

  /** A step preimage has more separators than any amended one. */
  lemma StepIsNotAmended(prev: Bytes, id: Identity, ts: Bytes, base: Bytes, roots: Roots)
    requires IsLowerHex(base) && AllNulFree(roots.Present())
    ensures StepPreimage(prev, id, ts) != AmendedPreimage(base, roots.Present())
  {
    HexIsNulFree(base);
    var parts, v := [base] + roots.Present(), id.verification;
    CountNulJoin(parts);
    CountNulPair(prev, Pair(id.subsystem, Pair(ACTION, Pair(v, ts))));
    CountNulPair(id.subsystem, Pair(ACTION, Pair(v, ts)));
    CountNulPair(ACTION, Pair(v, ts));
    CountNulPair(v, ts);
  }

  lemma AmendedInjective(H: Sha512, a: Bytes, r: Roots, b: Bytes, s: Roots)
    requires IsLowerHex(a) && IsLowerHex(b) && AllNulFree(r.Present()) && AllNulFree(s.Present())
    requires AmendedPreimage(a, r.Present()) == AmendedPreimage(b, s.Present())
    ensures a == b && r.Present() == s.Present()
  {
    HexIsNulFree(a);
    HexIsNulFree(b);
    var p, q := [a] + r.Present(), [b] + s.Present();
    JoinInjective(p, q);
    assert p[1..] == r.Present() && q[1..] == s.Present() && p[0] == q[0];
  }

  /** The last hash binds the hash before it, the timestamp and the roots present. */
  lemma LastStepBinds(H: Sha512, id: Identity, a: Bytes, ts: Bytes, r: Roots, b: Bytes, us: Bytes, s: Roots)
    requires IsLowerHex(a) && IsLowerHex(b) && AllNulFree(r.Present()) && AllNulFree(s.Present())
    requires InjectiveOn(H, LastQueries(H, id, a, ts, r) + LastQueries(H, id, b, us, s))
    requires LastStepHash(H, id, a, ts, r) == LastStepHash(H, id, b, us, s)
    ensures a == b && ts == us && r.Present() == s.Present()
  {
    var q := LastQueries(H, id, a, ts, r) + LastQueries(H, id, b, us, s);
    var x, y := StepPreimage(a, id, ts), StepPreimage(b, id, us);
    var v, w := AmendedPreimage(HashHex(H, x), r.Present()), AmendedPreimage(HashHex(H, y), s.Present());
    LastStepForms(H, id, a, ts, r);
    LastStepForms(H, id, b, us, s);
    HashHexInjective(H, q, if r.Present() == [] then x else v, if s.Present() == [] then y else w);
    StepIsNotAmended(a, id, ts, HashHex(H, y), s);
    StepIsNotAmended(b, id, us, HashHex(H, x), r);
    if r.Present() != [] {
      AmendedInjective(H, HashHex(H, x), r, HashHex(H, y), s);
      HashHexInjective(H, q, x, y);
    }
    StepPreimageInjective(a, b, id, ts, us);
  }

  ghost function FinalQueries(H: Sha512, names: Names, ts: Bytes, roots: Roots): set<Bytes> {
    LastQueries(H, names[STEPS - 1], PrevAt(H, names, ts, roots, STEPS - 1), ts, roots)
  }

  lemma {:induction false} EarlierStepsIgnoreRoots(H: Sha512, names: Names, ts: Bytes, r: Roots, s: Roots, idx: nat)
    requires idx < STEPS - 1
    ensures HashAt(H, names, ts, r, idx) == HashAt(H, names, ts, s, idx)
  {
    if idx > 0 {
      EarlierStepsIgnoreRoots(H, names, ts, r, s, idx - 1);
    }
  }

  /** The final hash names the timestamp and the roots present, and nothing else decides it. */
  lemma FinalHashBinds(H: Sha512, names: Names, ts: Bytes, r: Roots, us: Bytes, s: Roots)
    requires AllNulFree(r.Present()) && AllNulFree(s.Present())
    requires InjectiveOn(H, FinalQueries(H, names, ts, r) + FinalQueries(H, names, us, s))
    ensures HashAt(H, names, ts, r, STEPS - 1) == HashAt(H, names, us, s, STEPS - 1) <==>
            ts == us && r.Present() == s.Present()
  {
    var id, a, b := names[STEPS - 1], PrevAt(H, names, ts, r, STEPS - 1), PrevAt(H, names, us, s, STEPS - 1);
    if ts == us && r.Present() == s.Present() {
      EarlierStepsIgnoreRoots(H, names, ts, r, s, STEPS - 2);
      LastStepForms(H, id, a, ts, r);
      LastStepForms(H, id, b, us, s);
    } else if LastStepHash(H, id, a, ts, r) == LastStepHash(H, id, b, us, s) {
      LastStepBinds(H, id, a, ts, r, b, us, s);
    }
  }

  /** At most one timestamp, beside at most one list of roots, lets a given chain pass. */
  lemma OneTimestampPasses(H: Sha512, names: Names, chain: seq<Step>, ts: Bytes, r: Roots, us: Bytes, s: Roots)
    requires AllNulFree(r.Present()) && AllNulFree(s.Present())
    requires InjectiveOn(H, FinalQueries(H, names, ts, r) + FinalQueries(H, names, us, s))
    requires Passes(H, names, ts, r, chain) && Passes(H, names, us, s, chain)
    ensures ts == us && r.Present() == s.Present()
  {
    assert Sound(H, names, ts, r, chain, STEPS - 1) && Sound(H, names, us, s, chain, STEPS - 1);
    FinalHashBinds(H, names, ts, r, us, s);
  }

  // ----- one document -------------------------------------------------------------------

  /** With the same roots present, whatever they hold, equal last hashes have equal bases. */
  lemma AmendedBaseBinds(a: Bytes, b: Bytes, present: seq<Bytes>)
    requires IsLowerHex(a) && IsLowerHex(b) && AmendedPreimage(a, present) == AmendedPreimage(b, present)
    ensures a == b
  {
    HexIsNulFree(a);
    HexIsNulFree(b);
    if present != [] {
      assert ([a] + present)[1..] == present && ([b] + present)[1..] == present;
      PairInjective(a, Join(present), b, Join(present));
    }
  }

  lemma LastStepSameRoots(H: Sha512, id: Identity, a: Bytes, ts: Bytes, b: Bytes, us: Bytes, roots: Roots)
    requires IsLowerHex(a) && IsLowerHex(b)
    requires InjectiveOn(H, LastQueries(H, id, a, ts, roots) + LastQueries(H, id, b, us, roots))
    requires LastStepHash(H, id, a, ts, roots) == LastStepHash(H, id, b, us, roots)
    ensures a == b && ts == us
  {
    var q := LastQueries(H, id, a, ts, roots) + LastQueries(H, id, b, us, roots);
    var x, y, present := StepPreimage(a, id, ts), StepPreimage(b, id, us), roots.Present();
    LastStepForms(H, id, a, ts, roots);
    LastStepForms(H, id, b, us, roots);
    if present != [] {
      HashHexInjective(H, q, AmendedPreimage(HashHex(H, x), present), AmendedPreimage(HashHex(H, y), present));
      AmendedBaseBinds(HashHex(H, x), HashHex(H, y), present);
    }
    HashHexInjective(H, q, x, y);
    StepPreimageInjective(a, b, id, ts, us);
  }

  /** At most one timestamp lets a given chain pass beside given roots, whatever the roots hold. */
  lemma OneTimestampSameRoots(H: Sha512, names: Names, chain: seq<Step>, ts: Bytes, us: Bytes, roots: Roots)
    requires InjectiveOn(H, FinalQueries(H, names, ts, roots) + FinalQueries(H, names, us, roots))
    requires Passes(H, names, ts, roots, chain) && Passes(H, names, us, roots, chain)
    ensures ts == us
  {
    assert Sound(H, names, ts, roots, chain, STEPS - 1) && Sound(H, names, us, roots, chain, STEPS - 1);
    LastStepSameRoots(H, names[STEPS - 1], PrevAt(H, names, ts, roots, STEPS - 1), ts,
                      PrevAt(H, names, us, roots, STEPS - 1), us, roots);
  }

  /** A lone receipts root and a lone parents root are told apart by their text only, never by
      which of the two they are. */
  lemma LoneRootsAlike(H: Sha512, id: Identity, prev: Bytes, ts: Bytes, a: Bytes, b: Bytes)
    requires InjectiveOn(H, LastQueries(H, id, prev, ts, Roots(Some(a), None))
                            + LastQueries(H, id, prev, ts, Roots(None, Some(b))))
    ensures LastStepHash(H, id, prev, ts, Roots(Some(a), None)) ==
            LastStepHash(H, id, prev, ts, Roots(None, Some(b))) <==>
            Strip(a) == Strip(b)
  {
    var r, s, base := Roots(Some(a), None), Roots(None, Some(b)), StepHash(H, prev, id, ts);
    LastStepForms(H, id, prev, ts, r);
    LastStepForms(H, id, prev, ts, s);
    assert r.Present() == [Strip(a)] && s.Present() == [Strip(b)];
    if LastStepHash(H, id, prev, ts, r) == LastStepHash(H, id, prev, ts, s) {
      var q := LastQueries(H, id, prev, ts, r) + LastQueries(H, id, prev, ts, s);
      HashHexInjective(H, q, AmendedPreimage(base, [Strip(a)]), AmendedPreimage(base, [Strip(b)]));
      JoinSnoc([base], Strip(a));
      JoinSnoc([base], Strip(b));
      SamePrefix(base, Strip(a), Strip(b));
    }
  }
}
