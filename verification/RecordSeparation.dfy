/** When a tagged and an untagged record are hashed from the same bytes. The tag is appended
    behind one more separator, and only where the separators stand tells it from what stands
    before it. */
module RecordSeparation {
  import opened Wrappers
  import opened Hashing
  import opened Hex
  import opened NulText
  import opened Encoding
  import opened Sequences
  import opened RecordReceipts

  const INDICES := 0x1_0000_0000

  /** `t` carries a tag and is hashed from the bytes of `u`. */
  predicate TaggedTwin(t: Record, u: Record) {
    t.tag.Some? && t.index < INDICES && Join(t.Parts()) == Join(u.Parts())
  }

  /** The same for an untagged `u`, seen from the tagged side. */
  predicate UntaggedTwin(u: Record, t: Record) {
    u.tag.None? && u.index < INDICES && Join(u.Parts()) == Join(t.Parts())
  }

  /** Every trail's root is a hash, and so is what stands for no trail. */
  predicate HashedActivity(r: Record) {
    IsHash(Strip(r.activity))
  }

  // ----- preimages as pairs -------------------------------------------------------------

  function Front(r: Record): Bytes {
    Pair(r.capsuleId, Decimal(r.index))
  }

  function Body(r: Record): Bytes {
    Pair(Pair(r.id, Strip(r.input)), Strip(r.output))
  }

  function Untagged(r: Record): Bytes {
    Pair(Pair(Front(r), Body(r)), Strip(r.activity))
  }

  lemma PairAssoc(a: Bytes, b: Bytes, c: Bytes)
    ensures Pair(Pair(a, b), c) == Pair(a, Pair(b, c))
  {
  }

  lemma PairsOfFive(front: Bytes, id: Bytes, input: Bytes, output: Bytes, activity: Bytes)
    ensures Pair(Pair(Pair(Pair(front, id), input), output), activity) ==
            Pair(Pair(front, Pair(Pair(id, input), output)), activity)
  {
    PairAssoc(front, id, input);
    PairAssoc(front, Pair(id, input), output);
  }

  lemma Preimages(r: Record)
    ensures Join(r.Parts()) == if r.tag.Some? then Pair(Untagged(r), r.tag.value) else Untagged(r)
  {
    var input, output, activity := Strip(r.input), Strip(r.output), Strip(r.activity);
    PairsOfFive(Front(r), r.id, input, output, activity);
    if r.tag.Some? {
      PreimageIsJoin(r, Pair(Pair(Pair(Pair(Pair(Front(r), r.id), input), output), activity), r.tag.value));
    } else {
      PreimageIsJoin(r, Pair(Pair(Pair(Pair(Front(r), r.id), input), output), activity));
    }
  }

  /** Any texts are the stripped parts of some tagged record. */
  function Tagged(capsuleId: Bytes, index: nat, id: Bytes, input: Bytes, output: Bytes, activity: Bytes, tag: Bytes)
    : Record
  {
    Record(capsuleId, index, id, PREFIX + input, PREFIX + output, PREFIX + activity, Some(tag))
  }

  lemma TaggedPreimage(
    capsuleId: Bytes, index: nat, id: Bytes, input: Bytes, output: Bytes, activity: Bytes, tag: Bytes)
    ensures Join(Tagged(capsuleId, index, id, input, output, activity, tag).Parts()) ==
            Pair(Pair(Pair(Pair(capsuleId, Decimal(index)), Pair(Pair(id, input), output)), activity), tag)
  {
    Preimages(Tagged(capsuleId, index, id, input, output, activity, tag));
  }

  // ----- cuts ---------------------------------------------------------------------------

  function Before(s: Bytes): Bytes {
    s[..First(s, NUL)]
  }

  function After(s: Bytes): Bytes {
    if First(s, NUL) < |s| then s[First(s, NUL) + 1..] else []
  }

  lemma CutAtFirst(s: Bytes)
    requires !NulFree(s)
    ensures s == Pair(Before(s), After(s)) && CountNul(After(s)) == CountNul(s) - 1
  {
    var k := First(s, NUL);
    assert s == s[..k] + [s[k]] + s[k + 1..];
    CountNulPair(Before(s), After(s));
    NulFreeCount(Before(s));
  }

  /** The rest with no fewer separators begins no later. */
  lemma {:induction false} LongerRest(a: Bytes, b: Bytes, c: Bytes, d: Bytes)
    requires Pair(a, b) == Pair(c, d) && CountNul(b) >= CountNul(d)
    ensures a + [NUL] <= c + [NUL]
  {
    var s := Pair(a, b);
    assert s[..|a| + 1] == a + [NUL] && s[..|c| + 1] == c + [NUL];
    if |a| > |c| {
      var between := s[|c| + 1..|a|];
      assert s == c + [NUL] + between + [NUL] + b;
      assert d == s[|c| + 1..] == Pair(between, b);
      CountNulPair(between, b);
      assert false;
    }
    assert a + [NUL] == (c + [NUL])[..|a| + 1];
  }

  /** Whatever follows a prefix that ends in a separator. */
  lemma RestOf(a: Bytes, c: Bytes, w: Bytes, d: Bytes)
    requires c + [NUL] == a + [NUL] + w
    ensures Pair(c, d) == Pair(a, w + d)
  {
    assert c + [NUL] + d == a + [NUL] + w + d;
  }

  // ----- twins of an untagged record ----------------------------------------------------

  /** The part after some separator of `s` is a record index. */
  ghost predicate HidesIndex(s: Bytes) {
    exists c: Bytes, n: nat :: IndexAfter(c, n, s)
  }

  predicate IndexAfter(c: Bytes, n: nat, s: Bytes) {
    n < INDICES && Pair(c, Decimal(n)) + [NUL] <= s + [NUL]
  }

  predicate PlainTail(u: Record) {
    NulFree(u.id) && NulFree(Strip(u.input)) && NulFree(Strip(u.output)) && NulFree(Strip(u.activity))
  }

  lemma PlainHidesNoTag(u: Record, t: Record)
    requires u.tag.None? && PlainTail(u) && TaggedTwin(t, u)
    ensures HidesIndex(u.capsuleId)
  {
    var p, q := u.Parts(), t.Parts();
    PartsFromFront(t);
    CountNulJoin(q[2..]);
    HeadDecimal(u);
    CountNulJoin(p[1..]);
    LongerRest(Front(t), Join(q[2..]), u.capsuleId, Join(p[1..]));
    assert IndexAfter(t.capsuleId, t.index, u.capsuleId);
  }

  lemma PartsFromFront(r: Record)
    ensures Join(r.Parts()) == Pair(Front(r), Join(r.Parts()[2..]))
  {
    var p := r.Parts();
    assert p[1..][1..] == p[2..];
    PairAssoc(r.capsuleId, Decimal(r.index), Join(p[2..]));
  }

  lemma HeadDecimal(u: Record)
    requires u.tag.None? && PlainTail(u)
    ensures Join(u.Parts()) == Pair(u.capsuleId, Join(u.Parts()[1..])) && AllNulFree(u.Parts()[1..])
  {
  }

  lemma TwinOfActivity(u: Record)
    requires u.tag.None? && u.index < INDICES && !NulFree(Strip(u.activity))
    ensures exists t :: TaggedTwin(t, u)
  {
    var a := Strip(u.activity);
    CutAtFirst(a);
    Preimages(u);
    PairAssoc(Pair(Front(u), Body(u)), Before(a), After(a));
    TaggedPreimage(u.capsuleId, u.index, u.id, Strip(u.input), Strip(u.output), Before(a), After(a));
    assert TaggedTwin(Tagged(u.capsuleId, u.index, u.id, Strip(u.input), Strip(u.output), Before(a), After(a)), u);
  }

  lemma TwinOfOutput(u: Record)
    requires u.tag.None? && u.index < INDICES && !NulFree(Strip(u.output))
    ensures exists t :: TaggedTwin(t, u)
  {
    var input, o, activity := Strip(u.input), Strip(u.output), Strip(u.activity);
    CutAtFirst(o);
    Preimages(u);
    PairAssoc(Pair(u.id, input), Before(o), After(o));
    PairAssoc(Front(u), Pair(Pair(u.id, input), Before(o)), After(o));
    TaggedPreimage(u.capsuleId, u.index, u.id, input, Before(o), After(o), activity);
    assert TaggedTwin(Tagged(u.capsuleId, u.index, u.id, input, Before(o), After(o), activity), u);
  }

  /** The tagged record that starts with the front `c`, `n` and puts the output where its
      activity belongs. */
  function Shifted(u: Record, c: Bytes, n: nat, first: Bytes, second: Bytes): Record {
    Tagged(c, n, first, second, Strip(u.input), Strip(u.output), Strip(u.activity))
  }

  lemma ShiftedIsTwin(u: Record, c: Bytes, n: nat, first: Bytes, second: Bytes)
    requires u.tag.None? && n < INDICES
    requires Pair(Front(u), u.id) == Pair(Pair(Pair(c, Decimal(n)), first), second)
    ensures TaggedTwin(Shifted(u, c, n, first, second), u)
  {
    var front, input, output, activity := Pair(c, Decimal(n)), Strip(u.input), Strip(u.output), Strip(u.activity);
    Preimages(u);
    PairsOfFive(Front(u), u.id, input, output, activity);
    PairsOfFive(front, first, second, input, output);
    TaggedPreimage(c, n, first, second, input, output, activity);
  }

  lemma TwinOfInput(u: Record)
    requires u.tag.None? && u.index < INDICES && !NulFree(Strip(u.input))
    ensures exists t :: TaggedTwin(t, u)
  {
    var i, output, activity := Strip(u.input), Strip(u.output), Strip(u.activity);
    CutAtFirst(i);
    Preimages(u);
    PairAssoc(u.id, Before(i), After(i));
    PairAssoc(Front(u), Pair(Pair(u.id, Before(i)), After(i)), output);
    TaggedPreimage(u.capsuleId, u.index, u.id, Before(i), After(i), output, activity);
    assert TaggedTwin(Tagged(u.capsuleId, u.index, u.id, Before(i), After(i), output, activity), u);
  }

  lemma TwinOfId(u: Record)
    requires u.tag.None? && u.index < INDICES && !NulFree(u.id)
    ensures TaggedTwin(Shifted(u, u.capsuleId, u.index, Before(u.id), After(u.id)), u)
  {
    CutAtFirst(u.id);
    PairAssoc(Front(u), Before(u.id), After(u.id));
    ShiftedIsTwin(u, u.capsuleId, u.index, Before(u.id), After(u.id));
  }

  lemma TwinOfCapsule(u: Record, c: Bytes, n: nat)
    requires u.tag.None? && IndexAfter(c, n, u.capsuleId)
    ensures exists first :: TaggedTwin(Shifted(u, c, n, first, u.id), u)
  {
    var front := Pair(c, Decimal(n));
    var w := (u.capsuleId + [NUL])[|front| + 1..];
    SplitInTwo(u.capsuleId + [NUL], |front| + 1);
    RestOf(front, u.capsuleId, w, Decimal(u.index));
    ShiftedIsTwin(u, c, n, w + Decimal(u.index), u.id);
  }

  /** An untagged record shares its bytes with some tagged one if and only if one of its texts
      holds a separator, for the capsule's name only if an index stands behind it. */
  lemma {:induction false} SeparateExactly(u: Record)
    requires u.tag.None? && u.index < INDICES
    ensures (exists t :: TaggedTwin(t, u)) <==> !PlainTail(u) || HidesIndex(u.capsuleId)
  {
    if !PlainTail(u) {
      TwinOfTail(u);
    } else if t :| TaggedTwin(t, u) {
      PlainHidesNoTag(u, t);
    }
    if c, n :| IndexAfter(c, n, u.capsuleId) {
      TwinOfCapsule(u, c, n);
    }
  }

  lemma {:induction false} TwinOfTail(u: Record)
    requires u.tag.None? && u.index < INDICES && !PlainTail(u)
    ensures exists t :: TaggedTwin(t, u)
  {
    if !NulFree(u.id) {
      TwinOfId(u);
    } else if !NulFree(Strip(u.input)) {
      TwinOfInput(u);
    } else if !NulFree(Strip(u.output)) {
      TwinOfOutput(u);
    } else {
      TwinOfActivity(u);
    }
  }

  // ----- with activity roots that are hashes --------------------------------------------

  /** Between two records with hashes where the issuer writes hashes, the separator that
      matters is one in the record's id. */
  lemma {:induction false} HashedSeparateExactly(u: Record)
    requires u.tag.None? && u.index < INDICES
    requires IsHash(Strip(u.input)) && IsHash(Strip(u.output)) && HashedActivity(u)
    ensures (exists t :: TaggedTwin(t, u) && HashedActivity(t)) <==> !NulFree(u.id) || HidesIndex(u.capsuleId)
  {
    HexIsNulFree(Strip(u.input));
    HexIsNulFree(Strip(u.output));
    HexIsNulFree(Strip(u.activity));
    if !NulFree(u.id) {
      TwinOfId(u);
      assert HashedActivity(Shifted(u, u.capsuleId, u.index, Before(u.id), After(u.id)));
    } else if t :| TaggedTwin(t, u) {
      PlainHidesNoTag(u, t);
    }
    if c, n :| IndexAfter(c, n, u.capsuleId) {
      TwinOfCapsule(u, c, n);
      var first :| TaggedTwin(Shifted(u, c, n, first, u.id), u);
      assert HashedActivity(Shifted(u, c, n, first, u.id));
    }
  }

  /** `s` begins with a front, a body of three parts or more, and a hash. */
  predicate ReadsAsRecord(c: Bytes, n: nat, body: Bytes, hash: Bytes, s: Bytes) {
    n < INDICES && CountNul(body) >= 2 && IsHash(hash) &&
    Pair(Pair(Pair(c, Decimal(n)), body), hash) + [NUL] <= s + [NUL]
  }

  lemma {:induction false} TwinReadsAsRecord(u: Record, t: Record)
    requires u.tag.None? && HashedActivity(u) && TaggedTwin(t, u) && HashedActivity(t)
    ensures ReadsAsRecord(t.capsuleId, t.index, Body(t), Strip(t.activity), Pair(Front(u), Body(u)))
  {
    HexIsNulFree(Strip(u.activity));
    NulFreeCount(Strip(u.activity));
    Preimages(u);
    Preimages(t);
    LongerRest(Untagged(t), t.tag.value, Pair(Front(u), Body(u)), Strip(u.activity));
    CountNulPair(Pair(t.id, Strip(t.input)), Strip(t.output));
    CountNulPair(t.id, Strip(t.input));
  }

  lemma {:induction false} RecordReadIsTwin(u: Record, c: Bytes, n: nat, body: Bytes, hash: Bytes)
    requires u.tag.None? && ReadsAsRecord(c, n, body, hash, Pair(Front(u), Body(u)))
    ensures exists t :: TaggedTwin(t, u) && HashedActivity(t)
  {
    var front, all := Pair(Pair(Pair(c, Decimal(n)), body), hash), Pair(Front(u), Body(u)) + [NUL];
    var w := all[|front| + 1..];
    SplitInTwo(all, |front| + 1);
    RestOf(front, Pair(Front(u), Body(u)), w, Strip(u.activity));
    Preimages(u);
    NulFreeCount(body);
    CutAtFirst(body);
    var rest := After(body);
    NulFreeCount(rest);
    CutAtFirst(rest);
    PairAssoc(Before(body), Before(rest), After(rest));
    TaggedPreimage(c, n, Before(body), Before(rest), After(rest), hash, w + Strip(u.activity));
    var t := Tagged(c, n, Before(body), Before(rest), After(rest), hash, w + Strip(u.activity));
    assert TaggedTwin(t, u) && HashedActivity(t);
  }

  /** Whatever the other fields hold: a record whose activity is a hash shares its bytes with a
      tagged one of that kind if and only if what stands before its activity already reads as
      a record up to its activity. */
  lemma {:induction false} ActivitySeparatesExactly(u: Record)
    requires u.tag.None? && HashedActivity(u)
    ensures (exists t :: TaggedTwin(t, u) && HashedActivity(t)) <==>
            exists c, n, body, hash :: ReadsAsRecord(c, n, body, hash, Pair(Front(u), Body(u)))
  {
    if t :| TaggedTwin(t, u) && HashedActivity(t) {
      TwinReadsAsRecord(u, t);
    }
    if c, n, body, hash :| ReadsAsRecord(c, n, body, hash, Pair(Front(u), Body(u))) {
      RecordReadIsTwin(u, c, n, body, hash);
    }
  }

  // ----- twins of a tagged record -------------------------------------------------------

  /** The last part of `s` is a hash. */
  ghost predicate EndsInHash(s: Bytes) {
    IsHash(s) || exists v, hash :: IsHash(hash) && s == Pair(v, hash)
  }

  /** A tagged record shares its bytes with an untagged one whose activity is a hash if and
      only if its tag ends in a hash; no tag that names a pattern does. */
  lemma {:induction false} TagSeparatesExactly(t: Record)
    requires t.tag.Some? && t.index < INDICES
    ensures (exists u :: UntaggedTwin(u, t) && HashedActivity(u)) <==> EndsInHash(t.tag.value)
  {
    if u :| UntaggedTwin(u, t) && HashedActivity(u) {
      TwinEndsTag(u, t);
    }
    if EndsInHash(t.tag.value) {
      TwinOfTag(t);
    }
  }

  lemma {:induction false} TwinEndsTag(u: Record, t: Record)
    requires t.tag.Some? && UntaggedTwin(u, t) && HashedActivity(u)
    ensures EndsInHash(t.tag.value)
  {
    var front, activity, tag := Pair(Front(u), Body(u)), Strip(u.activity), t.tag.value;
    HexIsNulFree(activity);
    NulFreeCount(activity);
    Preimages(u);
    Preimages(t);
    LongerRest(Untagged(t), tag, front, activity);
    TailEndsInHash(Untagged(t), tag, front, activity);
  }

  lemma TailEndsInHash(a: Bytes, tag: Bytes, front: Bytes, hash: Bytes)
    requires Pair(a, tag) == Pair(front, hash) && a + [NUL] <= front + [NUL] && IsHash(hash)
    ensures EndsInHash(tag)
  {
    var s := Pair(a, tag);
    assert tag == s[|a| + 1..] && hash == s[|front| + 1..];
    if |a| < |front| {
      assert tag == Pair(s[|a| + 1..|front|], hash);
    }
  }

  /** The untagged record with the activity and what follows it in its output. */
  lemma {:induction false} TwinOfTag(t: Record)
    requires t.tag.Some? && t.index < INDICES && EndsInHash(t.tag.value)
    ensures exists u :: UntaggedTwin(u, t) && HashedActivity(u)
  {
    if IsHash(t.tag.value) {
      TwinOfLoneHash(t);
    } else {
      var v, hash :| IsHash(hash) && t.tag.value == Pair(v, hash);
      TwinOfLastHash(t, v, hash);
    }
  }

  /** An activity may be counted to the output. */
  lemma ActivityInOutput(t: Record)
    ensures Untagged(t) ==
            Pair(Front(t), Pair(Pair(t.id, Strip(t.input)), Pair(Strip(t.output), Strip(t.activity))))
  {
    PairAssoc(Front(t), Body(t), Strip(t.activity));
    PairAssoc(Pair(t.id, Strip(t.input)), Strip(t.output), Strip(t.activity));
  }

  lemma {:induction false} TwinOfLoneHash(t: Record)
    requires t.tag.Some? && t.index < INDICES && IsHash(t.tag.value)
    ensures exists u :: UntaggedTwin(u, t) && HashedActivity(u)
  {
    Preimages(t);
    ActivityInOutput(t);
    MovedActivity(t, Pair(Strip(t.output), Strip(t.activity)), t.tag.value);
  }

  lemma {:induction false} TwinOfLastHash(t: Record, v: Bytes, hash: Bytes)
    requires t.tag.Some? && t.index < INDICES && t.tag.value == Pair(v, hash) && IsHash(hash)
    ensures exists u :: UntaggedTwin(u, t) && HashedActivity(u)
  {
    var front, names, output := Front(t), Pair(t.id, Strip(t.input)), Pair(Strip(t.output), Strip(t.activity));
    Preimages(t);
    ActivityInOutput(t);
    PairAssoc(Untagged(t), v, hash);
    PairAssoc(front, Pair(names, output), v);
    PairAssoc(names, output, v);
    MovedActivity(t, Pair(output, v), hash);
  }

  lemma {:induction false} MovedActivity(t: Record, output: Bytes, hash: Bytes)
    requires t.tag.Some? && t.index < INDICES && IsHash(hash)
    requires Join(t.Parts()) == Pair(Pair(Front(t), Pair(Pair(t.id, Strip(t.input)), output)), hash)
    ensures exists u :: UntaggedTwin(u, t) && HashedActivity(u)
  {
    var u := t.(output := PREFIX + output, activity := PREFIX + hash, tag := None);
    Preimages(u);
    assert UntaggedTwin(u, t) && HashedActivity(u);
  }
}
