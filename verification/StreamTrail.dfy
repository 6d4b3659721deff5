/** The walk over an activity trail that checks every streaming root whose leaves are all there. */
module StreamTrail {
  import opened Wrappers
  import opened Hashing
  import opened MerkleLog
  import opened Hex
  import opened Json
  import opened StreamingMerkle
  import opened StableSort

  datatype StreamFailure = ChunkHashMissing | RootMismatch(claimed: Bytes, computed: Bytes)

  /** A trail event as the walk reads it: a chunk carries its sequence number and hash text when
      both are usable, a completed stream its root and declared size when they are of the right type. */
  datatype Event =
    | Started
    | Chunk(leaf: Option<(nat, Bytes)>)
    | Completed(root: Option<Bytes>, total: Option<nat>)
    | Other

  function ReadEvent(event: Json): Event {
    match StrField(event, "event")
    case None => Other
    case Some(name) =>
      if name == "streaming_egress_started" then Started
      else if name == "streaming_egress_chunk" then Chunk(UsableChunk(event))
      else if name == "streaming_egress_completed" then
        Completed(StrField(event, "streaming_merkle_root"), AsU64(Get(event, "total_chunks")))
      else Other
  }

  function ReadEvents(activity: seq<Json>): (events: seq<Event>)
    ensures |events| == |activity| && forall i | 0 <= i < |activity| :: events[i] == ReadEvent(activity[i])
  {
    seq(|activity|, i requires 0 <= i < |activity| => ReadEvent(activity[i]))
  }

  /** A chunk hash as a tree leaf: 64 bytes of hex with or without the prefix. */
  function LeafBytes(chunkHash: Bytes): Option<Digest> {
    var raw := DecodeHex(Strip(chunkHash));
    if raw.Some? && |raw.value| == 64 then Some(Digest(raw.value)) else None
  }

  /** The sequence number and hash text of a chunk event; `None` when either is unusable. */
  function UsableChunk(event: Json): Option<(nat, Bytes)> {
    var n, hash := AsU64(Get(event, "seq")), StrField(event, "chunk_hash");
    if n.Some? && hash.Some? && LeafBytes(hash.value).Some? then Some((n.value, hash.value)) else None
  }

  // ----- leaves in sequence order -------------------------------------------------------

  type Chunks = seq<(nat, Bytes)>

  /** Where a chunk belongs. */
  function Place(c: (nat, Bytes)): nat {
    c.0
  }

  // ----- one stream ---------------------------------------------------------------------

  /** The leaves of a chunk list; a hash that does not parse is dropped. */
  function Leaves(chunks: Chunks): seq<Digest> {
    if chunks == [] then []
    else (if LeafBytes(chunks[0].1).Some? then [LeafBytes(chunks[0].1).value] else []) + Leaves(chunks[1..])
  }

  ghost function StreamRoot(H: Sha512, chunks: Chunks): Bytes {
    HexOf(MerkleRoot(H, LeafHashes(H, Leaves(SortBy(Place, chunks)))))
  }

  /** What closing a stream with the given chunks reports. */
  ghost function Close(
    H: Sha512, chunks: Chunks, malformed: bool, root: Option<Bytes>, total: Option<nat>): Option<StreamFailure>
  {
    if root.None? then None
    else if malformed then Some(ChunkHashMissing)
    else if total.Some? && total.value != |chunks| then None
    else if Strip(root.value) != StreamRoot(H, chunks) then
      Some(RootMismatch(root.value, PREFIX + StreamRoot(H, chunks)))
    else None
  }

  class StreamAccumulator {
    var chunks: Chunks
    var malformed: bool

    constructor ()
      ensures chunks == [] && !malformed
    {
      chunks, malformed := [], false;
    }

    method Add(leaf: Option<(nat, Bytes)>)
      modifies this
      ensures chunks == old(chunks) + if leaf.Some? then [leaf.value] else []
      ensures malformed == (old(malformed) || leaf.None?)
    {
      if leaf.Some? {
        chunks := chunks + [leaf.value];
      } else {
        malformed := true;
      }
    }

    method CloseStream(H: Sha512, root: Option<Bytes>, total: Option<nat>) returns (failure: Option<StreamFailure>)
      ensures failure == Close(H, chunks, malformed, root, total)
    {
      if root.None? {
        return None;
      }
      if malformed {
        return Some(ChunkHashMissing);
      }
      if total.Some? && total.value != |chunks| {
        return None;
      }
      var computed := MerkleRootFromLeaves(H, Leaves(SortBy(Place, chunks)));
      if Strip(root.value) != computed {
        return Some(RootMismatch(root.value, PREFIX + computed));
      }
      return None;
    }
  }

  // ----- the trail ----------------------------------------------------------------------

  /** Events that end whatever stream was open before them. */
  predicate IsBoundary(event: Event) {
    event.Started? || event.Completed?
  }

  /** Where the stream that is open just before position `c` began. */
  function Open(events: seq<Event>, c: nat): (o: nat)
    requires c <= |events|
    ensures o <= c && (o > 0 ==> IsBoundary(events[o - 1]))
  {
    if c == 0 || IsBoundary(events[c - 1]) then c else Open(events, c - 1)
  }

  /** The usable chunks of a stretch of the trail, in document order. */
  function ChunksOf(window: seq<Event>): Chunks {
    if window == [] then []
    else
      var last := window[|window| - 1];
      ChunksOf(window[..|window| - 1]) + UsableLeaf(last)
  }

  function UsableLeaf(event: Event): Chunks {
    if event.Chunk? && event.leaf.Some? then [event.leaf.value] else []
  }

  predicate Malformed(window: seq<Event>) {
    Chunk(None) in window
  }

  ghost function Verdict(H: Sha512, events: seq<Event>, c: nat): Option<StreamFailure>
    requires c < |events| && events[c].Completed?
  {
    var window := events[Open(events, c)..c];
    Close(H, ChunksOf(window), Malformed(window), events[c].root, events[c].total)
  }

  /** Position `c` closes a stream and finds something to report. */
  ghost predicate Fails(H: Sha512, events: seq<Event>, c: nat)
    requires c < |events|
  {
    events[c].Completed? && Verdict(H, events, c).Some?
  }

  ghost predicate FirstFailure(H: Sha512, events: seq<Event>, c: nat)
    requires c < |events|
  {
    Fails(H, events, c) && forall b | 0 <= b < c :: !Fails(H, events, b)
  }

  ghost predicate Tracks(chunks: Chunks, malformed: bool, events: seq<Event>, c: nat)
    requires c <= |events|
  {
    var window := events[Open(events, c)..c];
    chunks == ChunksOf(window) && malformed == Malformed(window)
  }

  /** What the accumulator must hold after one more event. */
  lemma TracksNext(chunks: Chunks, malformed: bool, events: seq<Event>, c: nat)
    requires c < |events| && Tracks(chunks, malformed, events, c)
    ensures match events[c]
            case Chunk(leaf) =>
              Tracks(chunks + (if leaf.Some? then [leaf.value] else []), malformed || leaf.None?, events, c + 1)
            case Other => Tracks(chunks, malformed, events, c + 1)
            case _ => Tracks([], false, events, c + 1)
  {
    if !IsBoundary(events[c]) {
      var o := Open(events, c);
      var window, wider := events[o..c], events[o..c + 1];
      assert wider[..|window|] == window && wider[|window|] == events[c];
      assert wider == window + [events[c]];
    }
  }

  method Walk(H: Sha512, events: seq<Event>) returns (failure: Option<StreamFailure>)
    ensures failure.None? <==> forall c | 0 <= c < |events| :: !Fails(H, events, c)
    ensures failure.Some? ==>
      exists c | 0 <= c < |events| :: FirstFailure(H, events, c) && failure == Verdict(H, events, c)
  {
    var acc := new StreamAccumulator();
    for i := 0 to |events|
      invariant Tracks(acc.chunks, acc.malformed, events, i)
      invariant forall c | 0 <= c < i :: !Fails(H, events, c)
      invariant fresh(acc)
    {
      TracksNext(acc.chunks, acc.malformed, events, i);
      match events[i] {
        case Started =>
          acc := new StreamAccumulator();
        case Chunk(leaf) =>
          acc.Add(leaf);
        case Completed(root, total) =>
          failure := acc.CloseStream(H, root, total);
          if failure.Some? {
            assert FirstFailure(H, events, i);
            return;
          }
          acc := new StreamAccumulator();
        case Other =>
      }
    }
    failure := None;
  }

  /** The walk reports the first stream that fails, and nothing exactly when none fails. */
  method VerifyStreamingMerkleRoots(H: Sha512, activity: seq<Json>) returns (failure: Option<StreamFailure>)
    ensures failure.None? <==> forall c | 0 <= c < |activity| :: !Fails(H, ReadEvents(activity), c)
    ensures failure.Some? ==>
      exists c | 0 <= c < |activity| ::
        FirstFailure(H, ReadEvents(activity), c) && failure == Verdict(H, ReadEvents(activity), c)
  {
    failure := Walk(H, ReadEvents(activity));
  }

  // ----- the order of one stream's chunks -----------------------------------------------

  lemma {:induction false} ChunksOfConcat(a: seq<Event>, b: seq<Event>)
    ensures ChunksOf(a + b) == ChunksOf(a) + ChunksOf(b)
    decreases |b|
  {
    if b == [] {
      assert a + b == a;
    } else {
      ChunksOfConcat(a, b[..|b| - 1]);
      assert (a + b)[..|a + b| - 1] == a + b[..|b| - 1];
    }
  }

  /** Taking one event out of a stretch takes its leaf out of the chunks. */
  lemma ChunksAround(a: seq<Event>, x: Event, b: seq<Event>)
    ensures ChunksOf(a + [x] + b) == ChunksOf(a) + UsableLeaf(x) + ChunksOf(b)
    ensures ChunksOf(a + b) == ChunksOf(a) + ChunksOf(b)
  {
    ChunksOfConcat(a + [x], b);
    ChunksOfConcat(a, b);
    assert (a + [x])[..|a|] == a;
  }

  lemma BagAround<T>(a: seq<T>, x: T, b: seq<T>)
    ensures multiset(a + [x] + b) == multiset(a + b) + multiset{x}
  {
  }

  /** Two stretches with one bag of events, the first event of one taken out of both. */
  lemma TakeFromBag(a: seq<Event>, b: seq<Event>) returns (left: seq<Event>, right: seq<Event>)
    requires a != [] && multiset(a) == multiset(b)
    ensures b == left + [a[0]] + right && multiset(a[1..]) == multiset(left + right)
  {
    assert a[0] in multiset(a);
    var j :| 0 <= j < |b| && b[j] == a[0];
    left, right := b[..j], b[j + 1..];
    assert b == left + [a[0]] + right;
    HeadBag(a);
    BagAround(left, a[0], right);
    BagCancel(multiset(a[1..]), multiset(left + right), a[0]);
  }

  lemma ChunksOfOne(x: Event)
    ensures ChunksOf([x]) == UsableLeaf(x)
  {
    assert [x][..0] == [];
  }

  lemma ChunksOfFront(a: seq<Event>)
    requires a != []
    ensures ChunksOf(a) == UsableLeaf(a[0]) + ChunksOf(a[1..])
  {
    assert a == [a[0]] + a[1..];
    ChunksOfConcat([a[0]], a[1..]);
    ChunksOfOne(a[0]);
  }

  lemma {:induction false} ChunksOfBag(a: seq<Event>, b: seq<Event>)
    requires multiset(a) == multiset(b)
    ensures multiset(ChunksOf(a)) == multiset(ChunksOf(b))
    decreases |a|
  {
    if a == [] {
      assert |multiset(b)| == 0;
    } else {
      var left, right := TakeFromBag(a, b);
      ChunksOfBag(a[1..], left + right);
      ChunksOfFront(a);
      ChunksAround(left, a[0], right);
    }
  }

  lemma {:induction false} OpenSame(a: seq<Event>, b: seq<Event>, c: nat)
    requires |a| == |b| && c <= |a|
    requires forall i | 0 <= i < c :: IsBoundary(a[i]) == IsBoundary(b[i])
    ensures Open(a, c) == Open(b, c)
  {
    if c > 0 && !IsBoundary(a[c - 1]) {
      OpenSame(a, b, c - 1);
    }
  }

  /** `b` is `a` with the events of a stretch that closes no stream in some other order. */
  ghost predicate Reordered(a: seq<Event>, b: seq<Event>, lo: nat, hi: nat) {
    && lo <= hi <= |a| == |b|
    && a[..lo] == b[..lo] && a[hi..] == b[hi..] && multiset(a[lo..hi]) == multiset(b[lo..hi])
    && forall i | lo <= i < hi :: !IsBoundary(a[i])
  }

  lemma ReorderedBoundaries(a: seq<Event>, b: seq<Event>, lo: nat, hi: nat, i: nat)
    requires Reordered(a, b, lo, hi) && i < |a|
    ensures IsBoundary(a[i]) == IsBoundary(b[i]) && (i < lo || hi <= i ==> a[i] == b[i])
  {
    if i < lo {
      assert a[i] == a[..lo][i] == b[..lo][i];
    } else if hi <= i {
      assert a[i] == a[hi..][i - hi] == b[hi..][i - hi];
    } else {
      assert b[lo..hi][i - lo] in multiset(b[lo..hi]);
      assert b[i] in multiset(a[lo..hi]);
    }
  }

  /** Both trails have the same events, up to order, in the stream closed at `c`. */
  lemma {:induction false} ReorderedWindow(a: seq<Event>, b: seq<Event>, lo: nat, hi: nat, c: nat)
    requires Reordered(a, b, lo, hi) && c < |a| && IsBoundary(a[c])
    ensures Open(a, c) == Open(b, c) && a[c] == b[c]
    ensures multiset(a[Open(a, c)..c]) == multiset(b[Open(a, c)..c])
  {
    forall i | 0 <= i <= c ensures IsBoundary(a[i]) == IsBoundary(b[i]) && (i < lo || hi <= i ==> a[i] == b[i]) {
      ReorderedBoundaries(a, b, lo, hi, i);
    }
    OpenSame(a, b, c);
    var o := Open(a, c);
    if o <= lo && hi <= c {
      SliceBags(a, b, o, lo, hi, c);
    } else {
      assert a[o..c] == b[o..c];
    }
  }

  lemma SliceBags(a: seq<Event>, b: seq<Event>, o: nat, lo: nat, hi: nat, c: nat)
    requires o <= lo <= hi <= c <= |a| == |b| && multiset(a[lo..hi]) == multiset(b[lo..hi])
    requires forall i | o <= i < c && (i < lo || hi <= i) :: a[i] == b[i]
    ensures multiset(a[o..c]) == multiset(b[o..c])
  {
    assert a[o..c] == a[o..lo] + a[lo..hi] + a[hi..c];
    assert b[o..c] == a[o..lo] + b[lo..hi] + a[hi..c];
  }

  lemma SameBagSameLength<T>(a: seq<T>, b: seq<T>)
    requires multiset(a) == multiset(b)
    ensures |a| == |b|
  {
    assert |multiset(a)| == |a| && |multiset(b)| == |b|;
  }

  lemma SameBagMalformed(a: seq<Event>, b: seq<Event>)
    requires multiset(a) == multiset(b)
    ensures Malformed(a) <==> Malformed(b)
  {
    assert Malformed(a) == (Chunk(None) in multiset(a)) == Malformed(b);
  }

  lemma {:induction false} SameBagSameClose(
    H: Sha512, a: seq<Event>, b: seq<Event>, root: Option<Bytes>, total: Option<nat>)
    requires multiset(a) == multiset(b) && NoTies(Place, multiset(ChunksOf(a)))
    ensures Close(H, ChunksOf(a), Malformed(a), root, total) == Close(H, ChunksOf(b), Malformed(b), root, total)
  {
    ChunksOfBag(a, b);
    SortIgnoresOrder(Place, ChunksOf(a), ChunksOf(b));
    SameBagSameLength(ChunksOf(a), ChunksOf(b));
    SameBagMalformed(a, b);
  }

  /** Unless two chunks of one stream claim one place, the verdict on every stream is unchanged
      when chunk events are put in another order. */
  lemma ReorderingKeepsVerdicts(H: Sha512, a: seq<Event>, b: seq<Event>, lo: nat, hi: nat, c: nat)
    requires Reordered(a, b, lo, hi) && c < |a|
    requires a[c].Completed? ==> NoTies(Place, multiset(ChunksOf(a[Open(a, c)..c])))
    ensures Fails(H, a, c) <==> Fails(H, b, c)
    ensures Fails(H, a, c) ==> Verdict(H, a, c) == Verdict(H, b, c)
  {
    ReorderedBoundaries(a, b, lo, hi, c);
    if IsBoundary(a[c]) {
      ReorderedWindow(a, b, lo, hi, c);
      if a[c].Completed? {
        SameBagSameClose(H, a[Open(a, c)..c], b[Open(a, c)..c], a[c].root, a[c].total);
      }
    }
  }
}
