/** A set of boundary attestations, told of the documents themselves: in which order they are
    walked, what makes them a chain, and what is reported. */
module PublishedChain {
  import opened Wrappers
  import opened Hashing
  import opened Hex
  import opened Json
  import opened StableSort
  import opened CanonicalJson
  import opened BoundaryDocument
  import opened BoundaryChain
  import opened BoundaryForm
  import opened ParsedProofs

  // ----- the order ----------------------------------------------------------------------

  function TextOf(doc: Json, key: string): Bytes {
    if StrField(doc, key).Some? then StrField(doc, key).value else []
  }

  /** The index a document states, zero if it states none. */
  function IndexStated(doc: Json): nat {
    if AsU64(Get(doc, "attestation_index")).Some? then AsU64(Get(doc, "attestation_index")).value else 0
  }

  /** `ordered` are the documents by index, those of one index as they came. */
  ghost predicate InIndexOrder(ordered: seq<Json>, docs: seq<Json>) {
    Sorted(IndexStated, ordered) && forall n :: WithKey(IndexStated, ordered, n) == WithKey(IndexStated, docs, n)
  }

  lemma ReadFields(doc: Json)
    ensures var d := ReadDoc(doc);
            d.json == doc && IndexOf(d) == IndexStated(doc) &&
            d.declaredIndex == AsU64(Get(doc, "attestation_index")) &&
            d.capsuleId == TextOf(doc, "capsule_id") && d.cutoff == TextOf(doc, "cutoff_ts") &&
            d.prevHash == TextOf(doc, "prev_attestation_hash")
  {
  }

  lemma ReadTail(docs: seq<Json>)
    requires docs != []
    ensures ReadDocs(docs)[0] == ReadDoc(docs[0]) && ReadDocs(docs)[1..] == ReadDocs(docs[1..])
  {
  }

  lemma {:induction false} SortedRead(docs: seq<Json>)
    requires Sorted(IndexStated, docs)
    ensures Sorted(IndexOf, ReadDocs(docs))
  {
    if docs != [] {
      ReadTail(docs);
      SortedRead(docs[1..]);
      ReadFields(docs[0]);
      forall d | d in ReadDocs(docs)[1..] ensures IndexOf(ReadDocs(docs)[0]) <= IndexOf(d) {
        var i :| 0 <= i < |docs| - 1 && ReadDocs(docs[1..])[i] == d;
        ReadFields(docs[1..][i]);
        assert docs[1..][i] in docs[1..];
      }
    }
  }

  lemma {:induction false} WithKeyRead(docs: seq<Json>, n: nat)
    ensures WithKey(IndexOf, ReadDocs(docs), n) == ReadDocs(WithKey(IndexStated, docs, n))
  {
    if docs != [] {
      ReadTail(docs);
      WithKeyRead(docs[1..], n);
      ReadFields(docs[0]);
      IfKeyRead(docs[0], WithKey(IndexStated, docs[1..], n), n);
    }
  }

  lemma IfKeyRead(doc: Json, rest: seq<Json>, n: nat)
    requires IndexOf(ReadDoc(doc)) == IndexStated(doc)
    ensures IfKey(IndexOf, ReadDoc(doc), n) + ReadDocs(rest) == ReadDocs(IfKey(IndexStated, doc, n) + rest)
  {
  }

  lemma {:induction false} OrderedRead(ordered: seq<Json>, docs: seq<Json>)
    requires InIndexOrder(ordered, docs)
    ensures SortBy(IndexOf, ReadDocs(docs)) == ReadDocs(ordered)
  {
    var sorted := SortBy(IndexOf, ReadDocs(docs));
    forall n ensures WithKey(IndexOf, sorted, n) == WithKey(IndexOf, ReadDocs(ordered), n) {
      SortByCorrect(IndexOf, ReadDocs(docs), n);
      WithKeyRead(docs, n);
      WithKeyRead(ordered, n);
    }
    SortByCorrect(IndexOf, ReadDocs(docs), 0);
    SortedRead(ordered);
    StableUnique(IndexOf, sorted, ReadDocs(ordered));
  }

  // ----- links --------------------------------------------------------------------------

  predicate SameCapsule(docs: seq<Json>, i: nat)
    requires i < |docs|
  {
    TextOf(docs[i], "capsule_id") == TextOf(docs[0], "capsule_id")
  }

  predicate NextIndex(docs: seq<Json>, i: nat)
    requires i < |docs|
  {
    i > 0 ==> IndexStated(docs[i]) == IndexStated(docs[i - 1]) + 1
  }

  /** A document states the hash of the one before, the first of all that of nothing. */
  ghost predicate HashBefore(s: Setting, docs: seq<Json>, i: nat)
    requires AreDocuments(docs) && i < |docs|
  {
    if i > 0 then Strip(TextOf(docs[i], "prev_attestation_hash")) == ContentHash(s.H, docs[i - 1])
    else IndexStated(docs[0]) == 1 ==> Strip(TextOf(docs[0], "prev_attestation_hash")) == HashHex(s.H, [])
  }

  function Cutoff(s: Setting, doc: Json): Option<int> {
    s.instant(TextOf(doc, "cutoff_ts"))
  }

  predicate Later(s: Setting, docs: seq<Json>, i: nat)
    requires i < |docs|
  {
    i > 0 && Cutoff(s, docs[i]).Some? && Cutoff(s, docs[i - 1]).Some? ==>
      Cutoff(s, docs[i - 1]).value < Cutoff(s, docs[i]).value
  }

  ghost predicate Links(s: Setting, docs: seq<Json>, i: nat)
    requires AreDocuments(docs) && i < |docs|
  {
    SameCapsule(docs, i) && NextIndex(docs, i) && HashBefore(s, docs, i) && Cutoff(s, docs[i]).Some? &&
    Later(s, docs, i)
  }

  /** The link into a document is good exactly under these conditions, and else the first that
      does not hold is blamed. */
  lemma {:induction false} LinkExactly(s: Setting, docs: seq<Json>, i: nat)
    requires AreDocuments(docs) && i < |docs|
    ensures AreDocs(ReadDocs(docs))
    ensures LinkFault(s, ReadDocs(docs), i).None? <==> Links(s, docs, i)
    ensures LinkFault(s, ReadDocs(docs), i).Some? ==> FirstBroken(s, docs, i, LinkFault(s, ReadDocs(docs), i).value)
  {
    ParsedAreDocs(docs);
    ReadFields(docs[i]);
    if i == 0 {
      FirstLink(s, docs);
    } else {
      ReadFields(docs[0]);
      ReadFields(docs[i - 1]);
      LaterLink(s, docs, i);
    }
  }

  predicate IsRead(d: Doc, doc: Json) {
    d.json == doc && d.index == IndexStated(doc) && d.capsuleId == TextOf(doc, "capsule_id") &&
    d.cutoff == TextOf(doc, "cutoff_ts") && d.prevHash == TextOf(doc, "prev_attestation_hash")
  }

  lemma FirstLink(s: Setting, docs: seq<Json>)
    requires AreDocuments(docs) && docs != [] && AreDocs(ReadDocs(docs)) && IsRead(ReadDocs(docs)[0], docs[0])
    ensures LinkFault(s, ReadDocs(docs), 0).None? <==> Links(s, docs, 0)
    ensures LinkFault(s, ReadDocs(docs), 0).Some? ==> FirstBroken(s, docs, 0, LinkFault(s, ReadDocs(docs), 0).value)
  {
  }

  lemma LaterLink(s: Setting, docs: seq<Json>, i: nat)
    requires AreDocuments(docs) && 0 < i < |docs| && AreDocs(ReadDocs(docs)) && IsRead(ReadDocs(docs)[0], docs[0])
    requires IsRead(ReadDocs(docs)[i], docs[i]) && IsRead(ReadDocs(docs)[i - 1], docs[i - 1])
    ensures LinkFault(s, ReadDocs(docs), i).None? <==> Links(s, docs, i)
    ensures LinkFault(s, ReadDocs(docs), i).Some? ==> FirstBroken(s, docs, i, LinkFault(s, ReadDocs(docs), i).value)
  {
  }

  /** The fault names the first condition that does not hold, with what was found. */
  ghost predicate FirstBroken(s: Setting, docs: seq<Json>, i: nat, fault: Fault)
    requires AreDocuments(docs) && i < |docs|
  {
    if !SameCapsule(docs, i) then
      fault == CapsuleIdMismatch(TextOf(docs[0], "capsule_id"), TextOf(docs[i], "capsule_id"))
    else if !NextIndex(docs, i) then
      fault == IndexNotStrictlyIncremented(IndexStated(docs[i - 1]), IndexStated(docs[i]))
    else if !HashBefore(s, docs, i) then
      fault == if i > 0 then PrevAttestationHashMismatch(IndexStated(docs[i])) else GenesisPrevHashMismatch
    else if Cutoff(s, docs[i]).None? then fault == CutoffUnparseable(TextOf(docs[i], "cutoff_ts"))
    else
      !Later(s, docs, i) && i > 0 &&
      fault == CutoffNotIncreasing(TextOf(docs[i - 1], "cutoff_ts"), TextOf(docs[i], "cutoff_ts"))
  }

  // ----- the result ---------------------------------------------------------------------

  ghost predicate AllAccepted(s: Setting, docs: seq<Json>, n: nat)
    requires AreDocuments(docs) && n <= |docs|
  {
    forall i | 0 <= i < n :: IsAccepted(s, docs[i])
  }

  ghost predicate AllLink(s: Setting, docs: seq<Json>, n: nat)
    requires AreDocuments(docs) && n <= |docs|
  {
    forall i | 0 <= i < n :: Links(s, docs, i)
  }

  predicate AllSigned(docs: seq<Json>) {
    forall i | 0 <= i < |docs| :: Signs(docs[i])
  }

  /** The verdict on an accepted document: signed if it signs, anchored if its key is published. */
  ghost predicate Approves(s: Setting, doc: Json, v: DocVerdict)
    requires IsDocument(doc)
  {
    v.fault.None? && (v.signed <==> Signs(doc)) && (v.anchored <==> Signs(doc) && s.trust.Some?)
  }

  ghost predicate ApprovesAll(s: Setting, docs: seq<Json>, verdicts: seq<DocVerdict>, n: nat)
    requires AreDocuments(docs) && n <= |docs|
  {
    |verdicts| >= n && forall i | 0 <= i < n :: Approves(s, docs[i], verdicts[i])
  }

  /** What is reported of documents that are a chain: every verdict, the first and the last
      index, which count the documents, whether it reaches back to number one, whether every document is signed. */
  ghost predicate ReportsChain(s: Setting, docs: seq<Json>, r: ChainResult)
    requires AreDocuments(docs)
  {
    && r.fault.None? && r.failedAt.None? && |r.perDocument| == |docs| && ApprovesAll(s, docs, r.perDocument, |docs|)
    && (docs == [] ==> r.span == None)
    && (docs != [] ==>
          r.span == Some((IndexStated(docs[0]), IndexStated(docs[|docs| - 1]))) &&
          |docs| == IndexStated(docs[|docs| - 1]) - IndexStated(docs[0]) + 1)
    && (r.genesisAnchored <==> docs != [] && IndexStated(docs[0]) == 1)
    && (r.allSigned <==> AllSigned(docs))
  }

  /** What is reported when document `i` is the first not accepted. */
  ghost predicate ReportsDocument(s: Setting, docs: seq<Json>, r: ChainResult, i: nat)
    requires AreDocuments(docs) && i < |docs|
  {
    && AllAccepted(s, docs, i) && !IsAccepted(s, docs[i])
    && |r.perDocument| == i + 1 && ApprovesAll(s, docs, r.perDocument, i)
    && r.fault.Some? && r.perDocument[i] == DocVerdict(r.fault, false, false)
    && r.failedAt == AsU64(Get(docs[i], "attestation_index"))
    && r.span.None? && !r.genesisAnchored && !r.allSigned
  }

  /** What is reported when all are accepted and the link into document `i` is the first broken. */
  ghost predicate ReportsLink(s: Setting, docs: seq<Json>, r: ChainResult, i: nat)
    requires AreDocuments(docs) && i < |docs|
  {
    && AllAccepted(s, docs, |docs|) && AllLink(s, docs, i) && !Links(s, docs, i)
    && |r.perDocument| == |docs| && ApprovesAll(s, docs, r.perDocument, |docs|)
    && r.fault.Some? && FirstBroken(s, docs, i, r.fault.value) && r.failedAt == Some(IndexStated(docs[i]))
    && r.span.None? && !r.genesisAnchored && (r.allSigned <==> AllSigned(docs))
  }

  ghost predicate IsPublishedSetting(s: Setting) {
    s == VersionOne(s.H, s.crypto, s.instant, s.trust)
  }

  lemma {:induction false} VerdictRead(s: Setting, doc: Json)
    requires IsDocument(doc) && IsPublishedSetting(s)
    ensures DocFault(s, ReadDoc(doc)).None? <==> IsAccepted(s, doc)
    ensures IsAccepted(s, doc) ==> Approves(s, doc, VerdictOf(s, ReadDoc(doc)))
    ensures !IsAccepted(s, doc) ==> VerdictOf(s, ReadDoc(doc)) == DocVerdict(DocFault(s, ReadDoc(doc)), false, false)
    ensures IsSigned(ReadDoc(doc)) <==> Signs(doc)
    ensures IsAccepted(s, doc) ==> AsU64(Get(doc, "attestation_index")).Some?
  {
    AcceptedExactly(s, doc);
    FlagsMean(s, doc);
    DocRead(s, doc);
  }

  lemma {:induction false} VerdictsRead(s: Setting, docs: seq<Json>, verdicts: seq<DocVerdict>, n: nat)
    requires AreDocuments(docs) && IsPublishedSetting(s) && n <= |docs|
    requires AreDocs(ReadDocs(docs)) && n <= |verdicts| && AllAccepted(s, docs, n)
    requires forall i | 0 <= i < n :: verdicts[i] == VerdictOf(s, ReadDocs(docs)[i])
    ensures ApprovesAll(s, docs, verdicts, n)
  {
    forall i | 0 <= i < n ensures Approves(s, docs[i], verdicts[i]) {
      VerdictRead(s, docs[i]);
    }
  }

  lemma {:induction false} AcceptedRead(s: Setting, docs: seq<Json>, n: nat)
    requires AreDocuments(docs) && IsPublishedSetting(s) && n <= |docs|
    ensures AreDocs(ReadDocs(docs)) && (VerifyUpTo(s, ReadDocs(docs), n) <==> AllAccepted(s, docs, n))
  {
    ParsedAreDocs(docs);
    forall i | 0 <= i < n ensures DocFault(s, ReadDocs(docs)[i]).None? <==> IsAccepted(s, docs[i]) {
      VerdictRead(s, docs[i]);
    }
    if VerifyUpTo(s, ReadDocs(docs), n) {
      forall i | 0 <= i < n ensures IsAccepted(s, docs[i]) {
        assert DocFault(s, ReadDocs(docs)[i]).None?;
      }
    }
  }

  lemma {:induction false} LinksRead(s: Setting, docs: seq<Json>, n: nat)
    requires AreDocuments(docs) && n <= |docs|
    ensures AreDocs(ReadDocs(docs)) && (LinkedUpTo(s, ReadDocs(docs), n) <==> AllLink(s, docs, n))
  {
    ParsedAreDocs(docs);
    forall i | 0 <= i < n ensures LinkFault(s, ReadDocs(docs), i).None? <==> Links(s, docs, i) {
      LinkExactly(s, docs, i);
    }
    if LinkedUpTo(s, ReadDocs(docs), n) {
      forall i | 0 <= i < n ensures Links(s, docs, i) {
        assert LinkFault(s, ReadDocs(docs), i).None?;
      }
    }
  }

  lemma {:induction false} SignedRead(s: Setting, docs: seq<Json>)
    requires AreDocuments(docs) && IsPublishedSetting(s)
    ensures SignedUpTo(ReadDocs(docs), |docs|) <==> AllSigned(docs)
  {
    forall i | 0 <= i < |docs| ensures IsSigned(ReadDocs(docs)[i]) <==> Signs(docs[i]) {
      VerdictRead(s, docs[i]);
    }
    if SignedUpTo(ReadDocs(docs), |docs|) {
      forall i | 0 <= i < |docs| ensures Signs(docs[i]) {
        assert IsSigned(ReadDocs(docs)[i]);
      }
    }
  }

  lemma {:induction false} IndexRead(doc: Json)
    requires IsPublished(doc)
    ensures ReadDoc(doc).declaredIndex.Some? && ReadDoc(doc).index == IndexStated(doc)
  {
    ReadFields(doc);
  }

  lemma {:induction false} EndsRead(s: Setting, docs: seq<Json>)
    requires AreDocuments(docs) && docs != [] && AllAccepted(s, docs, |docs|)
    ensures var first, last := ReadDocs(docs)[0], ReadDocs(docs)[|docs| - 1];
            first.declaredIndex.Some? && last.declaredIndex.Some? &&
            first.index == IndexStated(docs[0]) && last.index == IndexStated(docs[|docs| - 1])
  {
    assert IsAccepted(s, docs[0]) && IsAccepted(s, docs[|docs| - 1]);
    IndexRead(docs[0]);
    IndexRead(docs[|docs| - 1]);
  }

  lemma {:induction false} IndicesRun(docs: seq<Json>, i: nat)
    requires i < |docs| && forall k | 0 <= k < |docs| :: NextIndex(docs, k)
    ensures IndexStated(docs[i]) == IndexStated(docs[0]) + i
  {
    if i > 0 {
      IndicesRun(docs, i - 1);
      assert NextIndex(docs, i);
    }
  }

  lemma NextIndices(s: Setting, docs: seq<Json>)
    requires AreDocuments(docs) && AllLink(s, docs, |docs|)
    ensures forall k | 0 <= k < |docs| :: NextIndex(docs, k)
  {
    forall k | 0 <= k < |docs| ensures NextIndex(docs, k) {
      assert Links(s, docs, k);
    }
  }

  lemma LastIndex(s: Setting, docs: seq<Json>)
    requires AreDocuments(docs) && docs != [] && AllLink(s, docs, |docs|)
    ensures IndexStated(docs[|docs| - 1]) == IndexStated(docs[0]) + |docs| - 1
  {
    NextIndices(s, docs);
    IndicesRun(docs, |docs| - 1);
  }

  lemma {:induction false} SpanRead(s: Setting, docs: seq<Json>)
    requires AreDocuments(docs) && docs != []
    requires AllAccepted(s, docs, |docs|) && AllLink(s, docs, |docs|)
    ensures SpanOf(ReadDocs(docs)) == Some((IndexStated(docs[0]), IndexStated(docs[|docs| - 1])))
    ensures |docs| == IndexStated(docs[|docs| - 1]) - IndexStated(docs[0]) + 1
    ensures ReadDocs(docs)[0].index == IndexStated(docs[0])
  {
    EndsRead(s, docs);
    LastIndex(s, docs);
  }

  lemma {:induction false} ChainRead(s: Setting, docs: seq<Json>, r: ChainResult)
    requires AreDocuments(docs) && IsPublishedSetting(s) && AreDocs(ReadDocs(docs))
    requires AllVerify(s, ReadDocs(docs)) && AllLinked(s, ReadDocs(docs)) && ValidResult(s, ReadDocs(docs), r)
    ensures AllAccepted(s, docs, |docs|) && AllLink(s, docs, |docs|) && ReportsChain(s, docs, r)
  {
    AcceptedRead(s, docs, |docs|);
    LinksRead(s, docs, |docs|);
    VerdictsRead(s, docs, r.perDocument, |docs|);
    SignedRead(s, docs);
    if docs != [] {
      SpanRead(s, docs);
    }
  }

  lemma {:induction false} DocumentFailureRead(s: Setting, docs: seq<Json>, r: ChainResult, i: nat)
    requires AreDocuments(docs) && IsPublishedSetting(s) && AreDocs(ReadDocs(docs)) && i < |docs|
    requires FailsAtDoc(s, ReadDocs(docs), r, i)
    ensures ReportsDocument(s, docs, r, i)
  {
    AcceptedRead(s, docs, i);
    VerdictRead(s, docs[i]);
    ReadFields(docs[i]);
    VerdictsRead(s, docs, r.perDocument, i);
  }

  lemma {:induction false} LinkFailureRead(s: Setting, docs: seq<Json>, r: ChainResult, i: nat)
    requires AreDocuments(docs) && IsPublishedSetting(s) && AreDocs(ReadDocs(docs)) && i < |docs|
    requires FailsAtLink(s, ReadDocs(docs), r, i)
    ensures ReportsLink(s, docs, r, i)
  {
    AcceptedRead(s, docs, |docs|);
    LinksRead(s, docs, i);
    LinkExactly(s, docs, i);
    ReadFields(docs[i]);
    VerdictsRead(s, docs, r.perDocument, |docs|);
    SignedRead(s, docs);
  }

  /** Documents of the published format in any order: the chain is reported exactly if, by index,
      they are all accepted and all link, and else the first that is not accepted or, failing
      that, the first broken link. */
  method VerifyPublishedChain(s: Setting, docs: seq<Json>, ghost ordered: seq<Json>) returns (r: ChainResult)
    requires AreDocuments(docs) && AreDocuments(ordered) && IsPublishedSetting(s) && InIndexOrder(ordered, docs)
    ensures r.fault.None? <==> AllAccepted(s, ordered, |ordered|) && AllLink(s, ordered, |ordered|)
    ensures r.fault.None? ==> ReportsChain(s, ordered, r)
    ensures r.fault.Some? && !AllAccepted(s, ordered, |ordered|) ==>
              exists i | 0 <= i < |ordered| :: ReportsDocument(s, ordered, r, i)
    ensures r.fault.Some? && AllAccepted(s, ordered, |ordered|) ==>
              exists i | 0 <= i < |ordered| :: ReportsLink(s, ordered, r, i)
  {
    ParsedAreDocs(docs);
    OrderedRead(ordered, docs);
    AcceptedRead(s, ordered, |ordered|);
    LinksRead(s, ordered, |ordered|);
    r := VerifyBoundaryChain(s, ReadDocs(docs));
    if r.fault.None? {
      ChainRead(s, ordered, r);
    } else if !AllVerify(s, ReadDocs(ordered)) {
      ghost var i :| 0 <= i < |ordered| && FailsAtDoc(s, ReadDocs(ordered), r, i);
      DocumentFailureRead(s, ordered, r, i);
    } else {
      ghost var i :| 0 <= i < |ordered| && FailsAtLink(s, ReadDocs(ordered), r, i);
      LinkFailureRead(s, ordered, r, i);
    }
  }
}
