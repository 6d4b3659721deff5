/** What closing a stream decides, told of the events themselves: which streams are checked,
    against which tree, and what passing under one root means. */
module StreamLaw {
  import opened Wrappers
  import opened Hashing
  import opened Hex
  import opened Json
  import opened StreamingMerkle
  import opened StableSort
  import opened StreamTrail

  // ----- leaves by position -------------------------------------------------------------

  /** `leaves` are the chunk hashes decoded, one for one. */
  predicate Decodes(chunks: Chunks, leaves: seq<Digest>) {
    |leaves| == |chunks| && forall i | 0 <= i < |chunks| :: DecodeHex(Strip(chunks[i].1)) == Some(leaves[i].bytes)
  }

  predicate AllDecode(chunks: Chunks) {
    forall i | 0 <= i < |chunks| :: LeafBytes(chunks[i].1).Some?
  }

  lemma DecodesFront(chunk: (nat, Bytes), leaf: Digest, rest: Chunks, leaves: seq<Digest>)
    requires DecodeHex(Strip(chunk.1)) == Some(leaf.bytes) && Decodes(rest, leaves)
    ensures Decodes([chunk] + rest, [leaf] + leaves)
  {
  }

  lemma {:induction false} LeavesDecode(chunks: Chunks)
    requires AllDecode(chunks)
    ensures Decodes(chunks, Leaves(chunks))
  {
    if chunks != [] {
      LeavesDecode(chunks[1..]);
      DecodesFront(chunks[0], LeafBytes(chunks[0].1).value, chunks[1..], Leaves(chunks[1..]));
      assert chunks == [chunks[0]] + chunks[1..];
    }
  }

  lemma DecodedOnce(chunks: Chunks, a: seq<Digest>, b: seq<Digest>)
    requires Decodes(chunks, a) && Decodes(chunks, b)
    ensures a == b
  {
    assert forall i | 0 <= i < |a| :: a[i].bytes == b[i].bytes;
  }

  lemma DecodesAll(chunks: Chunks, leaves: seq<Digest>)
    requires Decodes(chunks, leaves)
    ensures AllDecode(chunks) && Leaves(chunks) == leaves
  {
    forall i | 0 <= i < |chunks| ensures LeafBytes(chunks[i].1).Some? {
      assert |leaves[i].bytes| == 64;
    }
    LeavesDecode(chunks);
    DecodedOnce(chunks, leaves, Leaves(chunks));
  }

  /** `ordered` are the chunks in the order of their places, those of one place as they came. */
  ghost predicate InSequence(ordered: Chunks, chunks: Chunks) {
    Sorted(Place, ordered) && forall n :: WithKey(Place, ordered, n) == WithKey(Place, chunks, n)
  }

  lemma SequenceIsSorted(ordered: Chunks, chunks: Chunks)
    requires InSequence(ordered, chunks)
    ensures ordered == SortBy(Place, chunks)
  {
    forall n ensures WithKey(Place, SortBy(Place, chunks), n) == WithKey(Place, chunks, n) {
      SortByCorrect(Place, chunks, n);
    }
    SortByCorrect(Place, chunks, 0);
    StableUnique(Place, ordered, SortBy(Place, chunks));
  }

  // ----- one stream ---------------------------------------------------------------------

  /** A stream whose chunks are all usable passes, with a root of text, if and only if it is
      disclosed in part or its root is that of the leaves in sequence. */
  lemma ClosePasses(
    H: Sha512, chunks: Chunks, ordered: Chunks, leaves: seq<Digest>, root: Bytes, total: Option<nat>)
    requires InSequence(ordered, chunks) && Decodes(ordered, leaves)
    ensures Close(H, chunks, false, Some(root), total).None? <==>
            (total.Some? && total.value != |chunks|) || Strip(root) == HexOf(RootOf(H, leaves))
    ensures Close(H, chunks, false, Some(root), total).Some? ==>
            Close(H, chunks, false, Some(root), total) == Some(RootMismatch(root, PREFIX + HexOf(RootOf(H, leaves))))
  {
    SequenceIsSorted(ordered, chunks);
    DecodesAll(ordered, leaves);
  }

  /** A stream without a root of text always passes, one with a malformed chunk never does. */
  lemma CloseOtherwise(H: Sha512, chunks: Chunks, malformed: bool, root: Option<Bytes>, total: Option<nat>)
    ensures root.None? ==> Close(H, chunks, malformed, root, total).None?
    ensures root.Some? && malformed ==> Close(H, chunks, malformed, root, total) == Some(ChunkHashMissing)
  {
  }

  ghost predicate FullyDisclosed(chunks: Chunks, total: Option<nat>) {
    total == None || total == Some(|chunks|)
  }

  /** Two fully disclosed streams that pass under one root have the same leaves in sequence. */
  lemma {:induction false} OneRootOneStream(
    H: Sha512, q: set<Bytes>, a: Chunks, orderedA: Chunks, leavesA: seq<Digest>, totalA: Option<nat>, rootA: Bytes,
    b: Chunks, orderedB: Chunks, leavesB: seq<Digest>, totalB: Option<nat>, rootB: Bytes)
    requires InSequence(orderedA, a) && Decodes(orderedA, leavesA) && FullyDisclosed(a, totalA)
    requires InSequence(orderedB, b) && Decodes(orderedB, leavesB) && FullyDisclosed(b, totalB)
    requires Strip(rootA) == Strip(rootB)
    requires Close(H, a, false, Some(rootA), totalA).None? && Close(H, b, false, Some(rootB), totalB).None?
    requires InjectiveOn(H, q) && StreamQueries(H, leavesA) <= q && StreamQueries(H, leavesB) <= q
    ensures leavesA == leavesB
  {
    ClosePasses(H, a, orderedA, leavesA, rootA, totalA);
    ClosePasses(H, b, orderedB, leavesB, rootB, totalB);
    HexOfInjective(RootOf(H, leavesA), RootOf(H, leavesB));
    RootBindsLeaves(H, q, leavesA, leavesB);
  }

  // ----- the events themselves ----------------------------------------------------------

  const STARTED: Bytes := "streaming_egress_started"
  const CHUNK: Bytes := "streaming_egress_chunk"
  const COMPLETED: Bytes := "streaming_egress_completed"

  predicate IsKind(event: Json, kind: Bytes) {
    StrField(event, "event") == Some(kind)
  }

  /** An event that begins a new stretch of the trail. */
  predicate EndsStretch(event: Json) {
    IsKind(event, STARTED) || IsKind(event, COMPLETED)
  }

  /** A chunk event with its sequence number and a hash that decodes to 64 bytes. */
  predicate Announces(event: Json, chunk: (nat, Bytes)) {
    && IsKind(event, CHUNK)
    && AsU64(Get(event, "seq")) == Some(chunk.0) && StrField(event, "chunk_hash") == Some(chunk.1)
    && DecodeHex(Strip(chunk.1)).Some? && |DecodeHex(Strip(chunk.1)).value| == 64
  }

  /** The chunks of a stretch in which every chunk event is usable; other events do not count. */
  ghost predicate Discloses(stretch: seq<Json>, chunks: Chunks)
    decreases |stretch|
  {
    if stretch == [] then chunks == []
    else
      var n := |stretch| - 1;
      if IsKind(stretch[n], CHUNK) then
        chunks != [] && Announces(stretch[n], chunks[|chunks| - 1]) &&
        Discloses(stretch[..n], chunks[..|chunks| - 1])
      else !EndsStretch(stretch[n]) && Discloses(stretch[..n], chunks)
  }

  lemma KindsDiffer()
    ensures STARTED != CHUNK && STARTED != COMPLETED && CHUNK != COMPLETED
  {
    assert |STARTED| == 24 && |CHUNK| == 22 && |COMPLETED| == 26;
  }

  /** How an event of each kind is read. */
  lemma EventRead(event: Json)
    ensures ReadEvent(event).Started? <==> IsKind(event, STARTED)
    ensures ReadEvent(event).Chunk? <==> IsKind(event, CHUNK)
    ensures ReadEvent(event).Completed? <==> IsKind(event, COMPLETED)
    ensures IsKind(event, COMPLETED) ==>
            ReadEvent(event) == Completed(StrField(event, "streaming_merkle_root"), AsU64(Get(event, "total_chunks")))
  {
    KindsDiffer();
  }

  lemma ChunkRead(event: Json, chunk: (nat, Bytes))
    requires Announces(event, chunk)
    ensures ReadEvent(event) == Chunk(Some(chunk))
  {
    EventRead(event);
  }

  ghost predicate IsRead(stretch: seq<Json>, chunks: Chunks) {
    var events := ReadEvents(stretch);
    ChunksOf(events) == chunks && !Malformed(events) && forall i | 0 <= i < |events| :: !IsBoundary(events[i])
  }

  lemma ReadFront(stretch: seq<Json>)
    requires stretch != []
    ensures var n := |stretch| - 1;
            ReadEvents(stretch) == ReadEvents(stretch[..n]) + [ReadEvent(stretch[n])]
  {
  }

  lemma ReadOneMore(events: seq<Event>, last: Event, chunks: Chunks)
    requires ChunksOf(events) == chunks && !Malformed(events) && !IsBoundary(last) && last != Chunk(None)
    requires forall i | 0 <= i < |events| :: !IsBoundary(events[i])
    ensures var longer := events + [last];
            ChunksOf(longer) == chunks + UsableLeaf(last) && !Malformed(longer) &&
            forall i | 0 <= i < |longer| :: !IsBoundary(longer[i])
  {
    assert (events + [last])[..|events|] == events;
  }

  lemma {:induction false} StretchRead(stretch: seq<Json>, chunks: Chunks)
    requires Discloses(stretch, chunks)
    ensures IsRead(stretch, chunks)
    decreases |stretch|
  {
    if stretch != [] {
      var n, m := |stretch| - 1, |chunks| - 1;
      EventRead(stretch[n]);
      if IsKind(stretch[n], CHUNK) {
        ChunkRead(stretch[n], chunks[m]);
        StretchRead(stretch[..n], chunks[..m]);
        ReadGrows(stretch, chunks[..m], Chunk(Some(chunks[m])));
        LastChunk(chunks);
      } else {
        StretchRead(stretch[..n], chunks);
        ReadGrows(stretch, chunks, ReadEvent(stretch[n]));
        assert chunks + [] == chunks;
      }
    }
  }

  lemma ReadGrows(stretch: seq<Json>, front: Chunks, last: Event)
    requires stretch != [] && IsRead(stretch[..|stretch| - 1], front) && ReadEvent(stretch[|stretch| - 1]) == last
    requires !IsBoundary(last) && last != Chunk(None)
    ensures IsRead(stretch, front + UsableLeaf(last))
  {
    ReadFront(stretch);
    ReadOneMore(ReadEvents(stretch[..|stretch| - 1]), last, front);
  }

  lemma LastChunk(chunks: Chunks)
    requires chunks != []
    ensures chunks == chunks[..|chunks| - 1] + UsableLeaf(Chunk(Some(chunks[|chunks| - 1])))
  {
  }

  lemma {:induction false} OpenAt(events: seq<Event>, o: nat, c: nat)
    requires o <= c <= |events| && (o > 0 ==> IsBoundary(events[o - 1]))
    requires forall i | o <= i < c :: !IsBoundary(events[i])
    ensures Open(events, c) == o
    decreases c
  {
    if o < c {
      OpenAt(events, o, c - 1);
    }
  }

  /** The stream that ends at `c` began at `o` and disclosed `chunks`. */
  ghost predicate StreamAt(activity: seq<Json>, o: nat, c: nat, chunks: Chunks) {
    && o <= c < |activity| && IsKind(activity[c], COMPLETED)
    && (o > 0 ==> EndsStretch(activity[o - 1])) && Discloses(activity[o..c], chunks)
  }

  lemma {:induction false} WindowRead(activity: seq<Json>, o: nat, c: nat, chunks: Chunks)
    requires StreamAt(activity, o, c, chunks)
    ensures var events := ReadEvents(activity);
            events[c].Completed? && Open(events, c) == o && events[o..c] == ReadEvents(activity[o..c])
  {
    var events := ReadEvents(activity);
    EventRead(activity[c]);
    if o > 0 {
      EventRead(activity[o - 1]);
    }
    StretchRead(activity[o..c], chunks);
    assert events[o..c] == ReadEvents(activity[o..c]);
    forall i | o <= i < c ensures !IsBoundary(events[i]) {
      assert events[i] == ReadEvents(activity[o..c])[i - o];
    }
    OpenAt(events, o, c);
  }

  /** A stream of a trail, its chunks all usable and its root of text, fails the walk if and
      only if it is disclosed in full and its root is not that of its leaves in sequence. */
  lemma {:induction false} StreamFails(
    H: Sha512, activity: seq<Json>, o: nat, c: nat, chunks: Chunks, ordered: Chunks, leaves: seq<Digest>)
    requires StreamAt(activity, o, c, chunks) && InSequence(ordered, chunks) && Decodes(ordered, leaves)
    requires StrField(activity[c], "streaming_merkle_root").Some?
    ensures Fails(H, ReadEvents(activity), c) <==>
            FullyDisclosed(chunks, AsU64(Get(activity[c], "total_chunks"))) &&
            Strip(StrField(activity[c], "streaming_merkle_root").value) != HexOf(RootOf(H, leaves))
  {
    WindowRead(activity, o, c, chunks);
    EventRead(activity[c]);
    StretchRead(activity[o..c], chunks);
    ClosePasses(H, chunks, ordered, leaves, StrField(activity[c], "streaming_merkle_root").value,
                AsU64(Get(activity[c], "total_chunks")));
  }

  /** A chunk event no chunk can be read from. */
  ghost predicate IsUnusable(event: Json) {
    IsKind(event, CHUNK) && forall chunk :: !Announces(event, chunk)
  }

  lemma UnusableRead(event: Json)
    requires IsUnusable(event)
    ensures ReadEvent(event) == Chunk(None)
  {
    EventRead(event);
    if UsableChunk(event).Some? {
      assert Announces(event, UsableChunk(event).value);
    }
  }

  /** A stream with an unusable chunk fails the walk whatever its root, as soon as it has one. */
  lemma {:induction false} UnusableChunkFails(H: Sha512, activity: seq<Json>, o: nat, c: nat, bad: nat)
    requires o <= bad < c < |activity| && IsUnusable(activity[bad]) && IsKind(activity[c], COMPLETED)
    requires (o > 0 ==> EndsStretch(activity[o - 1])) && forall i | o <= i < c :: !EndsStretch(activity[i])
    ensures Fails(H, ReadEvents(activity), c) <==> StrField(activity[c], "streaming_merkle_root").Some?
  {
    var events := ReadEvents(activity);
    StretchOpens(activity, o, c);
    EventRead(activity[c]);
    UnusableRead(activity[bad]);
    assert events[o..c][bad - o] == Chunk(None);
    CloseOtherwise(H, ChunksOf(events[o..c]), true, events[c].root, events[c].total);
  }

  lemma {:induction false} StretchOpens(activity: seq<Json>, o: nat, c: nat)
    requires o <= c < |activity|
    requires (o > 0 ==> EndsStretch(activity[o - 1])) && forall i | o <= i < c :: !EndsStretch(activity[i])
    ensures Open(ReadEvents(activity), c) == o
  {
    var events := ReadEvents(activity);
    if o > 0 {
      EventRead(activity[o - 1]);
    }
    forall i | o <= i < c ensures !IsBoundary(events[i]) {
      EventRead(activity[i]);
    }
    OpenAt(events, o, c);
  }
}
