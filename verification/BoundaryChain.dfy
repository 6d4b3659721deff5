/** A capsule's boundary attestations as a chain. */
module BoundaryChain {
  import opened Wrappers
  import opened Hashing
  import opened Hex
  import opened Json
  import opened StableSort
  import opened CanonicalJson
  import opened CanonicalParser
  import opened ReceiptSet
  import opened BoundaryDocument

  // ----- links --------------------------------------------------------------------------

  function IndexOf(d: Doc): nat {
    d.index
  }

  ghost predicate AreDocs(docs: seq<Doc>) {
    forall i | 0 <= i < |docs| :: IsDocument(docs[i].json)
  }

  /** What is wrong with the link into document `i` of an ordered chain, if anything. */
  ghost function LinkFault(s: Setting, docs: seq<Doc>, i: nat): Option<Fault>
    requires AreDocs(docs) && i < |docs|
  {
    var d := docs[i];
    if d.capsuleId != docs[0].capsuleId then Some(CapsuleIdMismatch(docs[0].capsuleId, d.capsuleId))
    else if i > 0 && d.index != docs[i - 1].index + 1 then Some(IndexNotStrictlyIncremented(docs[i - 1].index, d.index))
    else if i > 0 && Strip(d.prevHash) != ContentHash(s.H, docs[i - 1].json) then
      Some(PrevAttestationHashMismatch(d.index))
    else if i == 0 && d.index == 1 && Strip(d.prevHash) != HashHex(s.H, []) then Some(GenesisPrevHashMismatch)
    else if s.instant(d.cutoff).None? then Some(CutoffUnparseable(d.cutoff))
    else if i > 0 && s.instant(docs[i - 1].cutoff).Some? &&
      s.instant(d.cutoff).value <= s.instant(docs[i - 1].cutoff).value
    then Some(CutoffNotIncreasing(docs[i - 1].cutoff, d.cutoff))
    else None
  }

  ghost predicate AllVerify(s: Setting, docs: seq<Doc>)
    requires AreDocs(docs)
  {
    forall i | 0 <= i < |docs| :: DocFault(s, docs[i]).None?
  }

  ghost predicate AllLinked(s: Setting, docs: seq<Doc>)
    requires AreDocs(docs)
  {
    forall i | 0 <= i < |docs| :: LinkFault(s, docs, i).None?
  }

  datatype ChainResult = ChainResult(
    fault: Option<Fault>, failedAt: Option<nat>, perDocument: seq<DocVerdict>, span: Option<(nat, nat)>,
    genesisAnchored: bool, allSigned: bool)

  lemma SortedDocs(docs: seq<Doc>)
    requires AreDocs(docs)
    ensures AreDocs(SortBy(IndexOf, docs))
  {
    forall i | 0 <= i < |docs| ensures IsDocument(SortBy(IndexOf, docs)[i].json) {
      assert SortBy(IndexOf, docs)[i] in multiset(docs);
    }
  }

  // ----- results ------------------------------------------------------------------------

  /** The verdicts on the first `n` documents. */
  ghost predicate AreVerdicts(s: Setting, docs: seq<Doc>, verdicts: seq<DocVerdict>, n: nat)
    requires AreDocs(docs) && n <= |docs|
  {
    |verdicts| == n && forall i | 0 <= i < n :: verdicts[i] == VerdictOf(s, docs[i])
  }

  predicate SignedUpTo(docs: seq<Doc>, n: nat)
    requires n <= |docs|
  {
    forall i | 0 <= i < n :: IsSigned(docs[i])
  }

  /** A valid verdict on an ordered chain. */
  ghost predicate ValidResult(s: Setting, docs: seq<Doc>, r: ChainResult)
    requires AreDocs(docs)
  {
    && r.fault.None? && r.failedAt.None? && AreVerdicts(s, docs, r.perDocument, |docs|)
    && r.span == SpanOf(docs)
    && (r.genesisAnchored <==> docs != [] && docs[0].index == 1)
    && (r.allSigned <==> SignedUpTo(docs, |docs|))
  }

  /** The lowest and the highest index, where both are declared. */
  function SpanOf(docs: seq<Doc>): Option<(nat, nat)> {
    if docs != [] && docs[0].declaredIndex.Some? && docs[|docs| - 1].declaredIndex.Some?
    then Some((docs[0].index, docs[|docs| - 1].index))
    else None
  }

  ghost predicate VerifyUpTo(s: Setting, docs: seq<Doc>, n: nat)
    requires AreDocs(docs) && n <= |docs|
  {
    forall i | 0 <= i < n :: DocFault(s, docs[i]).None?
  }

  /** Document `i` is the first that does not verify, and nothing after it was looked at. */
  ghost predicate FailsAtDoc(s: Setting, docs: seq<Doc>, r: ChainResult, i: nat)
    requires AreDocs(docs) && i < |docs|
  {
    && VerifyUpTo(s, docs, i) && DocFault(s, docs[i]).Some?
    && r == ChainResult(DocFault(s, docs[i]), docs[i].declaredIndex, r.perDocument, None, false, false)
    && AreVerdicts(s, docs, r.perDocument, i + 1)
  }

  /** Every document verifies and the link into document `i` is the first that does not hold. */
  ghost predicate FailsAtLink(s: Setting, docs: seq<Doc>, r: ChainResult, i: nat)
    requires AreDocs(docs) && i < |docs|
  {
    && AllVerify(s, docs) && LinkFault(s, docs, i).Some? && LinkedUpTo(s, docs, i)
    && r.fault == LinkFault(s, docs, i) && r.failedAt == Some(docs[i].index) && r.span.None? && !r.genesisAnchored
    && (r.allSigned <==> SignedUpTo(docs, |docs|))
    && AreVerdicts(s, docs, r.perDocument, |docs|)
  }

  ghost predicate LinkedUpTo(s: Setting, docs: seq<Doc>, n: nat)
    requires AreDocs(docs) && n <= |docs|
  {
    forall i | 0 <= i < n :: LinkFault(s, docs, i).None?
  }

  lemma OneMoreVerdict(s: Setting, docs: seq<Doc>, verdicts: seq<DocVerdict>, i: nat)
    requires AreDocs(docs) && i < |docs| && AreVerdicts(s, docs, verdicts, i)
    ensures AreVerdicts(s, docs, verdicts + [VerdictOf(s, docs[i])], i + 1)
  {
  }

  lemma OneMoreVerifies(s: Setting, docs: seq<Doc>, i: nat)
    requires AreDocs(docs) && i < |docs| && VerifyUpTo(s, docs, i) && DocFault(s, docs[i]).None?
    ensures VerifyUpTo(s, docs, i + 1)
  {
  }

  lemma OneMoreSigned(docs: seq<Doc>, i: nat)
    requires i < |docs|
    ensures SignedUpTo(docs, i + 1) <==> SignedUpTo(docs, i) && IsSigned(docs[i])
  {
  }

  lemma NotAllVerify(s: Setting, docs: seq<Doc>, i: nat)
    requires AreDocs(docs) && i < |docs| && DocFault(s, docs[i]).Some?
    ensures !AllVerify(s, docs)
  {
  }

  lemma AllUpTo(s: Setting, docs: seq<Doc>)
    requires AreDocs(docs) && VerifyUpTo(s, docs, |docs|)
    ensures AllVerify(s, docs)
  {
  }

  /** The first stage of a chain result: each document alone. */
  method VerifyEach(s: Setting, docs: seq<Doc>) returns (r: ChainResult)
    requires AreDocs(docs)
    ensures r.fault.None? <==> AllVerify(s, docs)
    ensures r.fault.None? ==> AreVerdicts(s, docs, r.perDocument, |docs|) && (r.allSigned <==> SignedUpTo(docs, |docs|))
    ensures r.fault.Some? ==> exists i | 0 <= i < |docs| :: FailsAtDoc(s, docs, r, i)
  {
    var allSigned, verdicts := true, [];
    for i := 0 to |docs|
      invariant VerifyUpTo(s, docs, i) && AreVerdicts(s, docs, verdicts, i)
      invariant allSigned <==> SignedUpTo(docs, i)
    {
      var v := VerifyDocument(s, docs[i]);
      OneMoreVerdict(s, docs, verdicts, i);
      verdicts := verdicts + [v];
      if v.fault.Some? {
        NotAllVerify(s, docs, i);
        r := ChainResult(v.fault, docs[i].declaredIndex, verdicts, None, false, false);
        assert FailsAtDoc(s, docs, r, i);
        return;
      }
      OneMoreVerifies(s, docs, i);
      OneMoreSigned(docs, i);
      allSigned := allSigned && v.signed;
    }
    AllUpTo(s, docs);
    r := ChainResult(None, None, verdicts, None, false, allSigned);
  }

  /** What the walk remembers of the document before. */
  datatype Previous = Previous(canonical: Bytes, index: nat, cutoff: int, cutoffRaw: Bytes)

  ghost predicate Remembers(s: Setting, docs: seq<Doc>, i: nat, prev: Option<Previous>)
    requires AreDocs(docs) && i <= |docs|
  {
    if i == 0 then prev.None?
    else
      var d := docs[i - 1];
      prev.Some? && s.instant(d.cutoff).Some? &&
      prev.value == Previous(ContentHash(s.H, d.json), d.index, s.instant(d.cutoff).value, d.cutoff)
  }

  /** The link into one document, from what is remembered of the one before. */
  method CheckLink(s: Setting, docs: seq<Doc>, i: nat, prev: Option<Previous>)
    returns (fault: Option<Fault>, cutoff: Option<int>)
    requires AreDocs(docs) && i < |docs| && Remembers(s, docs, i, prev)
    ensures fault == LinkFault(s, docs, i)
    ensures fault.None? ==> cutoff.Some? && cutoff == s.instant(docs[i].cutoff)
  {
    var d := docs[i];
    cutoff := None;
    if d.capsuleId != docs[0].capsuleId {
      return Some(CapsuleIdMismatch(docs[0].capsuleId, d.capsuleId)), None;
    }
    if prev.Some? {
      if d.index != prev.value.index + 1 {
        return Some(IndexNotStrictlyIncremented(prev.value.index, d.index)), None;
      }
      if Strip(d.prevHash) != prev.value.canonical {
        return Some(PrevAttestationHashMismatch(d.index)), None;
      }
    } else if d.index == 1 && Strip(d.prevHash) != HashHex(s.H, []) {
      return Some(GenesisPrevHashMismatch), None;
    }
    cutoff := s.instant(d.cutoff);
    if cutoff.None? {
      return Some(CutoffUnparseable(d.cutoff)), None;
    }
    if prev.Some? && cutoff.value <= prev.value.cutoff {
      return Some(CutoffNotIncreasing(prev.value.cutoffRaw, d.cutoff)), None;
    }
    fault := None;
  }

  /** Where the linkage walk ended. */
  datatype LinkResult = LinkResult(fault: Option<Fault>, at: nat, genesisAnchored: bool)

  ghost predicate FitsLinks(s: Setting, docs: seq<Doc>, r: LinkResult)
    requires AreDocs(docs)
  {
    if r.fault.None? then AllLinked(s, docs) && (r.genesisAnchored <==> docs != [] && docs[0].index == 1)
    else r.at < |docs| && LinkFault(s, docs, r.at) == r.fault && LinkedUpTo(s, docs, r.at)
  }

  /** The linkage walk over ordered documents. */
  method WalkLinks(s: Setting, docs: seq<Doc>) returns (r: LinkResult)
    requires AreDocs(docs)
    ensures FitsLinks(s, docs, r)
    ensures r.fault.None? <==> AllLinked(s, docs)
  {
    var genesisAnchored, prev := false, None;
    for i := 0 to |docs|
      invariant LinkedUpTo(s, docs, i)
      invariant Remembers(s, docs, i, prev)
      invariant genesisAnchored <==> i > 0 && docs[0].index == 1
    {
      var fault, cutoff := CheckLink(s, docs, i, prev);
      if fault.Some? {
        assert !AllLinked(s, docs);
        return LinkResult(fault, i, false);
      }
      genesisAnchored := genesisAnchored || (prev.None? && docs[i].index == 1);
      var canonical := RecomputeContentHash(s.H, docs[i].json);
      prev := Some(Previous(canonical, docs[i].index, cutoff.value, docs[i].cutoff));
    }
    r := LinkResult(None, |docs|, genesisAnchored);
  }

  method VerifyBoundaryChain(s: Setting, docs: seq<Doc>) returns (r: ChainResult)
    requires AreDocs(docs)
    ensures AreDocs(SortBy(IndexOf, docs))
    ensures r.fault.None? <==> AllVerify(s, SortBy(IndexOf, docs)) && AllLinked(s, SortBy(IndexOf, docs))
    ensures r.fault.None? ==> ValidResult(s, SortBy(IndexOf, docs), r)
    ensures r.fault.Some? && !AllVerify(s, SortBy(IndexOf, docs)) ==>
              exists i | 0 <= i < |SortBy(IndexOf, docs)| :: FailsAtDoc(s, SortBy(IndexOf, docs), r, i)
    ensures r.fault.Some? && AllVerify(s, SortBy(IndexOf, docs)) ==>
              exists i | 0 <= i < |SortBy(IndexOf, docs)| :: FailsAtLink(s, SortBy(IndexOf, docs), r, i)
  {
    SortedDocs(docs);
    r := VerifyOrdered(s, SortBy(IndexOf, docs));
  }

  method VerifyOrdered(s: Setting, docs: seq<Doc>) returns (r: ChainResult)
    requires AreDocs(docs)
    ensures r.fault.None? <==> AllVerify(s, docs) && AllLinked(s, docs)
    ensures r.fault.None? ==> ValidResult(s, docs, r)
    ensures r.fault.Some? && !AllVerify(s, docs) ==> exists i | 0 <= i < |docs| :: FailsAtDoc(s, docs, r, i)
    ensures r.fault.Some? && AllVerify(s, docs) ==> exists i | 0 <= i < |docs| :: FailsAtLink(s, docs, r, i)
  {
    r := VerifyEach(s, docs);
    if r.fault.Some? {
      return;
    }
    var links := WalkLinks(s, docs);
    if links.fault.Some? {
      r := ChainResult(links.fault, Some(docs[links.at].index), r.perDocument, None, false, r.allSigned);
      assert FailsAtLink(s, docs, r, links.at);
      return;
    }
    r := ChainResult(None, None, r.perDocument, SpanOf(docs), links.genesisAnchored, r.allSigned);
  }

  // ----- what a valid chain says --------------------------------------------------------

  ghost predicate IsValid(s: Setting, docs: seq<Doc>)
    requires AreDocs(docs)
  {
    SortedDocs(docs);
    AllVerify(s, SortBy(IndexOf, docs)) && AllLinked(s, SortBy(IndexOf, docs))
  }

  lemma {:induction false} LinkedAt(s: Setting, docs: seq<Doc>, i: nat)
    requires AreDocs(docs) && AllLinked(s, docs) && i < |docs|
    ensures docs[i].capsuleId == docs[0].capsuleId && docs[i].index == docs[0].index + i
    ensures s.instant(docs[i].cutoff).Some?
    decreases i
  {
    assert LinkFault(s, docs, i).None?;
    if i > 0 {
      LinkedAt(s, docs, i - 1);
    }
  }

  lemma {:induction false} CutoffsIncrease(s: Setting, docs: seq<Doc>, i: nat, j: nat)
    requires AreDocs(docs) && AllLinked(s, docs) && i < j < |docs|
    requires forall k | 0 <= k < |docs| :: s.instant(docs[k].cutoff).Some?
    ensures s.instant(docs[i].cutoff).value < s.instant(docs[j].cutoff).value
    decreases j
  {
    assert LinkFault(s, docs, j).None?;
    if i < j - 1 {
      CutoffsIncrease(s, docs, i, j - 1);
    }
  }

  /** A document carries the hash of the one before it, or of nothing if it is number one. */
  ghost predicate HashLinked(s: Setting, docs: seq<Doc>, i: nat)
    requires AreDocs(docs) && i < |docs|
  {
    if i > 0 then Strip(docs[i].prevHash) == ContentHash(s.H, docs[i - 1].json)
    else docs[0].index == 1 ==> Strip(docs[0].prevHash) == HashHex(s.H, [])
  }

  /** An ordered chain links exactly when it is one capsule's run of consecutive indices, hashes
      chained and cutoffs strictly increasing, with the genesis hash before index one. */
  lemma LinkedMeans(s: Setting, docs: seq<Doc>)
    requires AreDocs(docs)
    ensures AllLinked(s, docs) <==>
            && (forall i | 0 <= i < |docs| :: docs[i].capsuleId == docs[0].capsuleId)
            && (forall i | 0 <= i < |docs| :: docs[i].index == docs[0].index + i)
            && (forall i | 0 <= i < |docs| :: s.instant(docs[i].cutoff).Some?)
            && (forall i, j | 0 <= i < j < |docs| :: s.instant(docs[i].cutoff).value < s.instant(docs[j].cutoff).value)
            && (forall i | 0 <= i < |docs| :: HashLinked(s, docs, i))
  {
    if AllLinked(s, docs) {
      forall i | 0 <= i < |docs|
        ensures docs[i].capsuleId == docs[0].capsuleId && docs[i].index == docs[0].index + i &&
                s.instant(docs[i].cutoff).Some?
      {
        LinkedAt(s, docs, i);
      }
      forall i, j | 0 <= i < j < |docs| ensures s.instant(docs[i].cutoff).value < s.instant(docs[j].cutoff).value {
        CutoffsIncrease(s, docs, i, j);
      }
      forall i | 0 <= i < |docs| ensures HashLinked(s, docs, i) {
        assert LinkFault(s, docs, i).None?;
      }
    } else if forall i | 0 <= i < |docs| :: HashLinked(s, docs, i) {
      var i :| 0 <= i < |docs| && LinkFault(s, docs, i).Some?;
      assert HashLinked(s, docs, i);
    }
  }

  lemma LinkedHasNoTies(s: Setting, docs: seq<Doc>)
    requires AreDocs(docs) && AllLinked(s, docs)
    ensures NoTies(IndexOf, multiset(docs))
  {
    forall x, y | x in multiset(docs) && y in multiset(docs) && IndexOf(x) == IndexOf(y) ensures x == y {
      var i :| 0 <= i < |docs| && docs[i] == x;
      var j :| 0 <= j < |docs| && docs[j] == y;
      LinkedAt(s, docs, i);
      LinkedAt(s, docs, j);
    }
  }

  /** The order documents are supplied in does not matter to a valid verdict. */
  lemma OrderDoesNotMatter(s: Setting, a: seq<Doc>, b: seq<Doc>)
    requires AreDocs(a) && AreDocs(b) && multiset(a) == multiset(b)
    ensures IsValid(s, a) <==> IsValid(s, b)
    ensures IsValid(s, a) ==> SortBy(IndexOf, a) == SortBy(IndexOf, b)
  {
    SortedDocs(a);
    SortedDocs(b);
    if IsValid(s, a) {
      LinkedHasNoTies(s, SortBy(IndexOf, a));
      SortIgnoresOrder(IndexOf, a, b);
    } else if IsValid(s, b) {
      LinkedHasNoTies(s, SortBy(IndexOf, b));
      SortIgnoresOrder(IndexOf, b, a);
    }
  }

  // ----- what the last hash binds -------------------------------------------------------

  /** The previous hash is part of the signed content. */
  lemma ContentHoldsPrevHash(x: Json, y: Json)
    requires x.Obj? && y.Obj? && Content(x) == Content(y)
    ensures PrevHashOf(x) == PrevHashOf(y)
  {
    assert PREV_HASH != ATTESTATION && PREV_HASH != CANONICAL_HASH;
    assert Get(Content(x), PREV_HASH) == Get(x, PREV_HASH) && Get(Content(y), PREV_HASH) == Get(y, PREV_HASH);
  }

  ghost function ContentQueries(docs: seq<Doc>): set<Bytes>
    requires AreDocs(docs)
  {
    set i | 0 <= i < |docs| :: ContentBytes(docs[i].json)
  }

  ghost function ContentBytes(json: Json): Bytes
    requires IsDocument(json)
  {
    ContentIsDocument(json);
    CanonicalBytes(Content(json), false)
  }

  lemma ContentHashBinds(H: Sha512, x: Json, y: Json)
    requires IsDocument(x) && IsDocument(y) && x.Obj? && y.Obj?
    requires InjectiveOn(H, {ContentBytes(x), ContentBytes(y)})
    ensures ContentHash(H, x) == ContentHash(H, y) <==> Content(x) == Content(y)
  {
    ContentIsDocument(x);
    ContentIsDocument(y);
    CanonicalHashBinds(H, Content(x), Content(y), false);
  }

  /** A document that verifies is an object. */
  lemma VerifiedIsObject(s: Setting, d: Doc)
    requires IsDocument(d.json) && DocFault(s, d).None?
    ensures d.json.Obj?
  {
  }

  /** Documents as they are read: the previous hash is the one the text carries. */
  predicate AreRead(docs: seq<Doc>) {
    forall i | 0 <= i < |docs| :: docs[i].prevHash == PrevHashOf(docs[i].json)
  }

  ghost predicate AllObjects(docs: seq<Doc>) {
    forall i | 0 <= i < |docs| :: docs[i].json.Obj?
  }

  lemma SameContentAt(s: Setting, q: set<Bytes>, a: seq<Doc>, b: seq<Doc>, i: nat)
    requires AreDocs(a) && AreDocs(b) && i < |a| && i < |b| && AllObjects(a) && AllObjects(b)
    requires InjectiveOn(s.H, q) && ContentQueries(a) <= q && ContentQueries(b) <= q
    requires ContentHash(s.H, a[i].json) == ContentHash(s.H, b[i].json)
    ensures Content(a[i].json) == Content(b[i].json)
  {
    assert ContentBytes(a[i].json) in ContentQueries(a) && ContentBytes(b[i].json) in ContentQueries(b);
    ContentHashBinds(s.H, a[i].json, b[i].json);
  }

  ghost function Hashes(H: Sha512, docs: seq<Doc>): (h: seq<Bytes>)
    requires AreDocs(docs)
    ensures |h| == |docs| && forall i | 0 <= i < |docs| :: h[i] == ContentHash(H, docs[i].json)
  {
    seq(|docs|, i requires 0 <= i < |docs| => ContentHash(H, docs[i].json))
  }

  ghost function Contents(docs: seq<Doc>): (c: seq<Json>)
    ensures |c| == |docs| && forall i | 0 <= i < |docs| :: c[i] == Content(docs[i].json)
  {
    seq(|docs|, i requires 0 <= i < |docs| => Content(docs[i].json))
  }

  function Prevs(docs: seq<Doc>): (p: seq<Bytes>)
    ensures |p| == |docs| && forall i | 0 <= i < |docs| :: p[i] == Strip(docs[i].prevHash)
  {
    seq(|docs|, i requires 0 <= i < |docs| => Strip(docs[i].prevHash))
  }

  lemma PrevsAreHashes(s: Setting, docs: seq<Doc>, i: nat)
    requires AreDocs(docs) && AllLinked(s, docs) && 0 < i < |docs|
    ensures Prevs(docs)[i] == Hashes(s.H, docs)[i - 1]
  {
    assert LinkFault(s, docs, i).None?;
  }

  lemma SamePrevAt(a: seq<Doc>, b: seq<Doc>, i: nat)
    requires AreRead(a) && AreRead(b) && AllObjects(a) && AllObjects(b) && i < |a| && i < |b|
    requires Contents(a)[i] == Contents(b)[i]
    ensures Prevs(a)[i] == Prevs(b)[i]
  {
    ContentHoldsPrevHash(a[i].json, b[i].json);
  }

  /** Where the first two agree, so do the second. */
  predicate Follows<A(==), B(==)>(a: seq<A>, b: seq<A>, c: seq<B>, d: seq<B>)
    requires |a| == |b| == |c| == |d|
  {
    forall k | 0 <= k < |a| :: a[k] == b[k] ==> c[k] == d[k]
  }

  predicate OneBehind(p: seq<Bytes>, h: seq<Bytes>)
    requires |p| == |h|
  {
    forall k | 0 <= k < |h| - 1 :: p[k + 1] == h[k]
  }

  /** Backwards along two chains: equal hashes, equal contents, equal hashes before. */
  lemma {:induction false} Backwards(
    ha: seq<Bytes>, ca: seq<Json>, pa: seq<Bytes>, hb: seq<Bytes>, cb: seq<Json>, pb: seq<Bytes>, i: nat)
    requires i < |ha| == |ca| == |pa| == |hb| == |cb| == |pb|
    requires Follows(ha, hb, ca, cb) && Follows(ca, cb, pa, pb) && OneBehind(pa, ha) && OneBehind(pb, hb)
    requires ha[|ha| - 1] == hb[|ha| - 1]
    ensures ha[i] == hb[i] && ca[i] == cb[i]
    decreases |ha| - i
  {
    if i + 1 < |ha| {
      Backwards(ha, ca, pa, hb, cb, pb, i + 1);
    }
  }

  /** Linked chains of one length that end in one hash have one signed content throughout. */
  lemma LastHashBinds(H: Sha512, a: seq<Doc>, b: seq<Doc>, i: nat)
    requires AreDocs(a) && AreDocs(b) && |a| == |b| && i < |a|
    requires Follows(Hashes(H, a), Hashes(H, b), Contents(a), Contents(b))
    requires Follows(Contents(a), Contents(b), Prevs(a), Prevs(b))
    requires OneBehind(Prevs(a), Hashes(H, a)) && OneBehind(Prevs(b), Hashes(H, b))
    requires Hashes(H, a)[|a| - 1] == Hashes(H, b)[|b| - 1]
    ensures Contents(a)[i] == Contents(b)[i]
  {
    Backwards(Hashes(H, a), Contents(a), Prevs(a), Hashes(H, b), Contents(b), Prevs(b), i);
  }

  lemma ContentsFollow(s: Setting, q: set<Bytes>, a: seq<Doc>, b: seq<Doc>)
    requires AreDocs(a) && AreDocs(b) && |a| == |b| && AllObjects(a) && AllObjects(b)
    requires InjectiveOn(s.H, q) && ContentQueries(a) <= q && ContentQueries(b) <= q
    ensures Follows(Hashes(s.H, a), Hashes(s.H, b), Contents(a), Contents(b))
  {
    forall k | 0 <= k < |a| && Hashes(s.H, a)[k] == Hashes(s.H, b)[k] ensures Contents(a)[k] == Contents(b)[k] {
      SameContentAt(s, q, a, b, k);
    }
  }

  lemma PrevsFollow(a: seq<Doc>, b: seq<Doc>)
    requires AreRead(a) && AreRead(b) && |a| == |b| && AllObjects(a) && AllObjects(b)
    ensures Follows(Contents(a), Contents(b), Prevs(a), Prevs(b))
  {
    forall k | 0 <= k < |a| && Contents(a)[k] == Contents(b)[k] ensures Prevs(a)[k] == Prevs(b)[k] {
      SamePrevAt(a, b, k);
    }
  }

  lemma PrevsAreOneBehind(s: Setting, docs: seq<Doc>)
    requires AreDocs(docs) && AllLinked(s, docs)
    ensures OneBehind(Prevs(docs), Hashes(s.H, docs))
  {
    forall k | 0 <= k < |docs| - 1 ensures Prevs(docs)[k + 1] == Hashes(s.H, docs)[k] {
      PrevsAreHashes(s, docs, k + 1);
    }
  }

  lemma SameLength(s: Setting, a: seq<Doc>, b: seq<Doc>)
    requires AreDocs(a) && AreDocs(b) && a != [] && b != [] && AllLinked(s, a) && AllLinked(s, b)
    requires a[0].index == b[0].index && a[|a| - 1].index == b[|b| - 1].index
    ensures |a| == |b|
  {
    LinkedAt(s, a, |a| - 1);
    LinkedAt(s, b, |b| - 1);
  }

  /** Two valid chains, in index order, over one span whose last documents have one canonical
      hash have equal signed content at every index. */
  lemma ChainsAgree(s: Setting, a: seq<Doc>, b: seq<Doc>, i: nat)
    requires AreDocs(a) && AreDocs(b) && AreRead(a) && AreRead(b) && i < |a| && b != []
    requires AllVerify(s, a) && AllVerify(s, b) && AllLinked(s, a) && AllLinked(s, b)
    requires a[0].index == b[0].index && a[|a| - 1].index == b[|b| - 1].index
    requires InjectiveOn(s.H, ContentQueries(a) + ContentQueries(b))
    requires Hashes(s.H, a)[|a| - 1] == Hashes(s.H, b)[|b| - 1]
    ensures |a| == |b| && a[i].index == b[i].index && Contents(a)[i] == Contents(b)[i]
  {
    SameLength(s, a, b);
    LinkedAt(s, a, i);
    LinkedAt(s, b, i);
    VerifiedAreObjects(s, a);
    VerifiedAreObjects(s, b);
    ContentsFollow(s, ContentQueries(a) + ContentQueries(b), a, b);
    PrevsFollow(a, b);
    PrevsAreOneBehind(s, a);
    PrevsAreOneBehind(s, b);
    LastHashBinds(s.H, a, b, i);
  }

  lemma VerifiedAreObjects(s: Setting, docs: seq<Doc>)
    requires AreDocs(docs) && AllVerify(s, docs)
    ensures AllObjects(docs)
  {
    forall i | 0 <= i < |docs| ensures docs[i].json.Obj? {
      VerifiedIsObject(s, docs[i]);
    }
  }

  // ----- a disclosed trail --------------------------------------------------------------

  datatype TrailFault = CountMismatch | CommitmentMismatch

  method VerifyDisclosedTrail(
    H: Sha512, count: nat, commitment: Bytes, events: seq<Json>) returns (fault: Option<TrailFault>)
    requires AreDocuments(events)
    ensures fault.None? <==> count == |events| && Strip(commitment) == TrailRoot(H, events)
    ensures fault == Some(CountMismatch) <==> count != |events|
  {
    if count != |events| {
      return Some(CountMismatch);
    }
    var computed := ComputeActivityRoot(H, events);
    fault := if Strip(commitment) != computed then Some(CommitmentMismatch) else None;
  }

  /** A commitment opens to one trail only. */
  lemma OneTrailOpens(H: Sha512, commitment: Bytes, a: seq<Json>, b: seq<Json>)
    requires AreDocuments(a) && AreDocuments(b) && InjectiveOn(H, TrailQueries(H, a) + TrailQueries(H, b) + {[]})
    requires Strip(commitment) == TrailRoot(H, a) == TrailRoot(H, b)
    ensures a == b
  {
    TrailRootBinds(H, TrailQueries(H, a) + TrailQueries(H, b) + {[]}, a, b);
  }
}
