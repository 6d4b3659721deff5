/** What a list of hashes under a root says: each of them climbs to it, and lists of one length
    under one root are one list. A proof's parents are such a list. */
module Lineage {
  import opened Wrappers
  import opened Hashing
  import opened Hex
  import opened NulText
  import opened ReceiptTree
  import opened RecordReceipts
  import opened ProofVerifier
  import Activity = ActivityRecord

  // ----- a list under a root ------------------------------------------------------------

  /** Without a root nothing may be listed; under the empty root nothing is; under any other
      each text, stripped, climbs to it with its own built proof. */
  predicate ListedUnder(H: Sha512, texts: seq<Bytes>, root: Option<Bytes>) {
    if texts == [] then root.None? || Strip(root.value) == []
    else
      root.Some? &&
      forall i | 0 <= i < |texts| :: Climb(H, Strip(texts[i]), i, Siblings(H, StripAll(texts), i)) == Strip(root.value)
  }

  lemma {:induction false} ListedExactly(H: Sha512, texts: seq<Bytes>, root: Bytes)
    ensures ListedUnder(H, texts, Some(root)) <==>
            if texts == [] then Strip(root) == [] else Root(H, texts) == Some(Strip(root))
  {
    if texts != [] {
      var level := StripAll(texts);
      forall i | 0 <= i < |texts|
        ensures Climb(H, Strip(texts[i]), i, Siblings(H, level, i)) == Top(H, level)
      {
        SiblingsReachTop(H, level, i);
      }
      assert Climb(H, Strip(texts[0]), 0, Siblings(H, level, 0)) == Top(H, level);
    }
  }

  lemma OnePair(H: Sha512, q: set<Bytes>, a: Bytes, b: Bytes, c: Bytes, d: Bytes)
    requires NulFree(Strip(a)) && NulFree(Strip(c)) && InjectiveOn(H, q)
    requires PairPreimage(a, b) in q && PairPreimage(c, d) in q && PairHash(H, a, b) == PairHash(H, c, d)
    ensures Strip(a) == Strip(c) && Strip(b) == Strip(d)
  {
    HashHexInjective(H, q, PairPreimage(a, b), PairPreimage(c, d));
    PairInjective(Strip(a), Strip(b), Strip(c), Strip(d));
  }

  predicate AllPlain(texts: seq<Bytes>) {
    forall i | 0 <= i < |texts| :: NulFree(texts[i])
  }

  lemma PlainStrips(s: Bytes)
    requires NulFree(s)
    ensures NulFree(Strip(s))
  {
  }

  lemma OnePairAt(H: Sha512, q: set<Bytes>, a: seq<Bytes>, b: seq<Bytes>, up: nat)
    requires |a| == |b| && 2 * up < |a| && AllPlain(a) && AllPlain(b)
    requires InjectiveOn(H, q) && LevelQueries(a) <= q && LevelQueries(b) <= q
    requires Above(H, a)[up] == Above(H, b)[up]
    ensures Strip(a[2 * up]) == Strip(b[2 * up])
    ensures 2 * up + 1 < |a| ==> Strip(a[2 * up + 1]) == Strip(b[2 * up + 1])
  {
    var t, s := 2 * up, if 2 * up + 1 < |a| then 2 * up + 1 else 2 * up;
    PairAsked(a, up, s);
    PairAsked(b, up, s);
    PlainStrips(a[t]);
    PlainStrips(b[t]);
    OnePair(H, q, a[t], a[s], b[t], b[s]);
  }

  lemma PairAsked(level: seq<Bytes>, up: nat, s: nat)
    requires 2 * up < |level| && s == if 2 * up + 1 < |level| then 2 * up + 1 else 2 * up
    ensures PairOf(level, up) == PairPreimage(level[2 * up], level[s]) && PairOf(level, up) in LevelQueries(level)
  {
  }

  lemma AboveAreHashes(H: Sha512, level: seq<Bytes>)
    ensures Activity.AllHashes(Above(H, level))
  {
  }

  /** Lists of one length under one root are one list, up to a second prefix, if they hold no
      separator. */
  lemma {:induction false} TopOfPlain(H: Sha512, q: set<Bytes>, a: seq<Bytes>, b: seq<Bytes>)
    requires |a| == |b| > 0 && AllPlain(a) && AllPlain(b) && InjectiveOn(H, q)
    requires TreeQueries(H, a) <= q && TreeQueries(H, b) <= q && Top(H, a) == Top(H, b)
    ensures forall k | 0 <= k < |a| :: Strip(a[k]) == Strip(b[k])
  {
    if |a| > 1 {
      AboveAreHashes(H, a);
      AboveAreHashes(H, b);
      Activity.TopInjective(H, q, Above(H, a), Above(H, b));
      AboveOfPlain(H, q, a, b);
    }
  }

  lemma {:induction false} AboveOfPlain(H: Sha512, q: set<Bytes>, a: seq<Bytes>, b: seq<Bytes>)
    requires |a| == |b| && AllPlain(a) && AllPlain(b) && InjectiveOn(H, q)
    requires LevelQueries(a) <= q && LevelQueries(b) <= q && Above(H, a) == Above(H, b)
    ensures forall k | 0 <= k < |a| :: Strip(a[k]) == Strip(b[k])
  {
    forall k | 0 <= k < |a| ensures Strip(a[k]) == Strip(b[k]) {
      var up := LeftOrRight(k);
      OnePairAt(H, q, a, b, up);
    }
  }

  // ----- a proof's parents --------------------------------------------------------------

  /** The parents of a proof pass exactly when they are listed under its parents root. */
  lemma ParentsExactly(s: Setting, p: Proof)
    ensures ParentsPass(s, p) <==> p.parents.None? || ListedUnder(s.H, p.parents.value, p.roots.parents)
  {
    if p.parents.Some? && p.roots.parents.Some? {
      ListedExactly(s.H, p.parents.value, p.roots.parents.value);
    }
  }

  predicate PlainParents(p: Proof) {
    p.parents.Some? && p.parents.value != [] && AllPlain(StripAll(p.parents.value))
  }

  ghost function ParentQueries(H: Sha512, p: Proof): set<Bytes> {
    if p.parents.Some? then TreeQueries(H, StripAll(p.parents.value)) else {}
  }

  /** The same parents in the same order, up to a second prefix; a hash is listed as itself. */
  predicate SameParents(p: Proof, r: Proof) {
    && p.parents.Some? && r.parents.Some? && |p.parents.value| == |r.parents.value|
    && forall k | 0 <= k < |p.parents.value| :: SameParent(Strip(p.parents.value[k]), Strip(r.parents.value[k]))
  }

  predicate SameParent(a: Bytes, b: Bytes) {
    Strip(a) == Strip(b) && (IsHash(a) && IsHash(b) ==> a == b)
  }

  /** Two proofs that pass with one parents root, and as many NUL-free parents, list the same
      parents in the same order. */
  lemma {:induction false} OneLineage(s: Setting, q: set<Bytes>, p: Proof, r: Proof)
    requires ParentsPass(s, p) && ParentsPass(s, r) && PlainParents(p) && PlainParents(r)
    requires |p.parents.value| == |r.parents.value| && p.roots.parents == r.roots.parents && InjectiveOn(s.H, q)
    requires ParentQueries(s.H, p) <= q && ParentQueries(s.H, r) <= q
    ensures SameParents(p, r)
  {
    var a, b := StripAll(p.parents.value), StripAll(r.parents.value);
    TopOfPlain(s.H, q, a, b);
    forall k | 0 <= k < |a| ensures SameParent(a[k], b[k]) {
      OneParent(a[k], b[k]);
    }
  }

  lemma OneParent(a: Bytes, b: Bytes)
    requires Strip(a) == Strip(b)
    ensures SameParent(a, b)
  {
    if IsHash(a) && IsHash(b) {
      HexIsNulFree(a);
      HexIsNulFree(b);
    }
  }
}
