# Verified model of the Nanorix proof verifiers

Nanorix issues signed destruction proofs and ships verifiers for them in Rust, Go and TypeScript.
This project models what those verifiers compute and proves what an accepted proof means: which
data a root, a chain or a signature binds, which proofs are accepted, and where two differently
written algorithms compute the same thing.

| part | modules |
|---|---|
| append-only log (RFC 6962 / RFC 9162 trees, inclusion and consistency proofs, checkpoints) | `SplitPoints`, `MerkleLog`, `InclusionProof`, `ConsistencyProof` |
| streaming-egress roots in an activity trail | `StreamingMerkle`, `StreamTrail`, `StreamLaw`, `StableSort` |
| NUL-separated receipt tree, record receipts, activity records | `NulText`, `ReceiptTree`, `RecordReceipts`, `RecordSeparation`, `ReceiptSet`, `ActivityRecord` |
| canonical JSON, two emitters and a parser | `Json`, `KeyOrder`, `NumberText`, `StringText`, `CanonicalJson`, `CanonicalParser`, `EscapeStyles`, `DoubleText`, `UniqueDigits`, `UnitEmitter` |
| what a signature covers and the stages of verification | `SignedView`, `PublishedView`, `ProofSignature`, `ProofVerifier`, `Lineage`, `PortableBundle`, `ParsedProofs` |
| the same told of the documents themselves, field by field | `PublishedProof`, `PublishedVerdict`, `PublishedBundle`, `BoundaryForm`, `PublishedChain` |
| the eight-step chain and its timestamp | `DestructionChain`, `KeyTimestamp` |
| walks over histories | `ParentWalk`, `BoundaryDocument`, `BoundaryChain` |
| bytes, hex, decimals, UTF-8, small facts | `Hashing`, `Hex`, `Encoding`, `Sequences`, `Wrappers` |

## Conventions

- SHA-512 is a parameter `H` from byte strings to 64-byte digests, so every statement holds for every
  such function. Completeness statements assume nothing about `H`. Soundness statements assume that
  `H` is injective on an explicit set of preimages, given by ghost functions (`TreeQueries`,
  `ClimbQueries`, `FinalQueries`, ...), which lists what the compared computations hash.
- Ed25519, base64 decoding and key validity are the fields of `ProofSignature.Crypto`, left arbitrary.
- `Bytes` are sequences of characters below 256. JSON strings are sequences of Unicode scalar values
  and are hashed through `Encoding.Utf8`. The genesis constant is written as the hash of nothing,
  which is the value it holds.
- Numbers of a document are 64-bit integers or shortest-digit floats; the digit search is not modelled.
  The TypeScript emitter has read every number as a double: integers are rounded to 53 bits, and the
  digits of the result are any choice that section 6.1.6.1.20 of ECMA-262 allows, nearest first
  (`DoubleText.IsEcma`; such choices exist, `DoubleText.EcmaExists`, and for integers there is only one,
  `UniqueDigits.OneBest`).
- A flag `pairs` of the emitter says whether runes beyond U+FFFF are written as surrogate-pair
  escapes (the Go and TypeScript emitters) or as they are (RFC 8785, section 3.2.2.2, and the Rust
  side). Round trip and injectivity are proved for both, and across both; the two texts, and hashes,
  are one exactly for documents whose strings and keys stay below U+10000 (`EscapeStyles`).
- `PublishedView`, `PublishedProof`, `PublishedVerdict`, `PublishedBundle`, `BoundaryForm` and `PublishedChain`
  tell the verdicts a second time, as conditions on the fields of JSON documents, without the functions
  by which the stages read them; the two accounts are proved to agree.
- Tables of names (`DestructionChain.CANONICAL`, `SignedView.RULES`, `BoundaryDocument.SCHEMA`) are
  parameters of the theorems and constants of the model.

## Where code and comments disagree

- `tools/auditproof-verifier-go/canonical.go:217-219` cites RFC 8785 for escaping upper-plane runes as
  surrogate pairs; that section writes them unescaped. The model follows the code;
  `EscapeStyles.UpperPlaneDiffers` is the first rune that tells them apart.
- `sdk/typescript/src/_jcs.ts:15-17` claims byte equivalence with the Rust and Python emitters. It holds
  exactly when every integer's own digits are the best for its double (`UnitEmitter.EmittersAgreeExactly`),
  so for integers up to two to the 53rd in magnitude; it fails at the next one
  (`DoubleText.FirstUnsafeInteger`) and at two to the 60th (`UnitEmitter.TwoToThe60Differs`).
- `tools/auditproof-verifier-go/wave_n.go:322-325` argues that a tagged record preimage cannot collide
  with an untagged one because the activity root has a fixed length, and
  `tools/nanorix-verify/src/lib.rs:1231-1233` repeats it. With NULs inside the other fields length does
  not separate them; `RecordReceipts.TagCollision` gives a tagged and an untagged record with one preimage.
  When it does is exact on either side. An untagged record is separate from every tagged one if and
  only if its other fields are NUL-free and no index stands behind a NUL in the capsule's name
  (`RecordSeparation.SeparateExactly`); if its three hashes are hashes, the record's id and the capsule's
  name are all that is left to look at (`RecordSeparation.HashedSeparateExactly`); for activity roots
  that are hashes and anything else, `RecordSeparation.ActivitySeparatesExactly`. A tagged record is
  separate from every untagged one with a hash as activity root if and only if its tag does not end in
  one (`RecordSeparation.TagSeparatesExactly`).
- `tools/nanorix-verify/src/bundle.rs:388-393` says the signature over the last step binds the receipt set. It
  does for the proof; the bundle's verifier never recomputes the step from the root the bundle carries, so that
  root is free (`PortableBundle.RootIsUnbound`) and bound exactly by the recomputation
  (`PortableBundle.RootRecomputes`).
- `governance/verify-types/src/chain.rs:286-288` says each child's customer is compared with its parent's.
  The code compares the customer a child's own check reports; all proofs of a path belong to one customer
  if and only if those reports are what the proofs carry (`ParentWalk.WalkedPath`).
- `tools/nanorix-verify/src/lib.rs:1131-1146` hashes a lone receipts root and a lone parents root alike
  when their texts are (`DestructionChain.LoneRootsAlike`), so every binding statement about the last step is about the
  list of roots present, not about which was which.

## Model

| member | source | states |
|---|---|---|
| `SplitPoints.FindSplitPoint` | tools/nanorix-verify/src/checkpoint.rs:97-103 | the doubling loop returns the split point |
| `SplitPoints.SplitPointExact` | tools/nanorix-verify/src/checkpoint.rs:96-103 | the split point is the only power of two below `n` whose double is not |
| `SplitPoints.BitsAreRoute` | tools/nanorix-verify/src/checkpoint.rs:143-175 | for every index and size, the left/right decisions of the `fnode`/`snode` bit loop are the sides taken by the recursion at split points |
| `SplitPoints.OldBitsAreOldRoute` | tools/nanorix-verify/src/checkpoint.rs:207-256 | the same for the consistency loop, including the initial shift past trailing ones |
| `MerkleLog.MerkleRootInjective` | tools/nanorix-verify/src/checkpoint.rs:107-116 | leaf lists of one length with one tree head are equal |
| `MerkleLog.NodeHashInjective` | tools/nanorix-verify/src/checkpoint.rs:88-94 | a tagged node hash binds both children |
| `MerkleLog.NodeByPlace` | tools/nanorix-verify/src/checkpoint.rs:88-94 | the 129 bytes of a node: the tag, the left child, the right child |
| `MerkleLog.HeadOfTwo` | tools/nanorix-verify/src/checkpoint.rs:105-116 | the head over two leaves hashes the tag, the first and the second; over none it hashes nothing |
| `InclusionProof.VerifyInclusion` | tools/nanorix-verify/src/checkpoint.rs:143-175 | the shifting loop accepts exactly when folding the siblings along its bit decisions gives the root, with exactly as many siblings as the loop consumes |
| `InclusionProof.InclusionComplete` | tools/nanorix-verify/src/checkpoint.rs:119-175 | every generated inclusion proof is accepted; no assumption on the hash |
| `InclusionProof.InclusionExact` | tools/nanorix-verify/src/checkpoint.rs:119-175 | against a tree head, a leaf and proof are accepted at an index if and only if the leaf is the one at that index and the proof the generated one |
| `ConsistencyProof.VerifyConsistency` | tools/nanorix-verify/src/checkpoint.rs:207-256 | the two-root loop accepts exactly when both heads it folds, along its bit decisions, are the claimed ones |
| `ConsistencyProof.ConsistencyComplete` | tools/nanorix-verify/src/checkpoint.rs:179-256 | the recursively generated consistency proof from any size to any larger one is accepted; no assumption on the hash |
| `ConsistencyProof.ConsistencyExact` | tools/nanorix-verify/src/checkpoint.rs:207-256 | append-only: between the heads of two logs a proof is accepted if and only if the old log is a prefix of the new one and the proof is the generated one |
| `ConsistencyProof.OldHeadExact` | tools/nanorix-verify/src/checkpoint.rs:207-256 | only the new log need be known: whatever is claimed as old head is accepted against its head if and only if it is the head of the prefix and the proof is the generated one |
| `MerkleLog.LeafHash` | tools/nanorix-verify/src/checkpoint.rs:54-86 | a leaf hashes the tag, the final hash and the digest of the joined signature-block fields |
| `MerkleLog.LeafByPlace` | tools/nanorix-verify/src/checkpoint.rs:54-86 | the bytes of a leaf by place: the tag, the final hash, a NUL, and the hash of the block's five texts in their order |
| `MerkleLog.LeafIsNotNode` | tools/nanorix-verify/src/checkpoint.rs:79-94 | no leaf preimage is a node preimage |
| `MerkleLog.LeafBinds` | tools/nanorix-verify/src/checkpoint.rs:41-86 | equal leaves mean equal final hash, whatever it holds, and equal signature block, up to an absent post-quantum signature being an empty one |
| `MerkleLog.SignedPayload` | tools/nanorix-verify/src/checkpoint.rs:309-329 | the signing payload is the six stable fields joined by NULs |
| `MerkleLog.AssembledParts` | tools/nanorix-verify/src/checkpoint.rs:292-329 | what an assembled checkpoint signs, part by part: format and algorithm, the decimal size, the prefixed head, the previous root, the date |
| `MerkleLog.PayloadBinds` | tools/nanorix-verify/src/checkpoint.rs:305-329 | signed bytes name exactly one checkpoint |
| `MerkleLog.CheckpointBindsLog` | tools/nanorix-verify/src/checkpoint.rs:292-329 | two assembled checkpoints with one payload were assembled from one log, one previous root and one date |
| `StreamingMerkle.NextLevel` | tools/nanorix-verify/src/streaming_merkle.rs:70-87 | one pass pairs adjacent nodes and promotes an odd tail |
| `StreamingMerkle.RootOneLevelUp` | tools/nanorix-verify/src/streaming_merkle.rs:70-87 | pairing one level keeps the recursive tree head, for every number of nodes |
| `StreamingMerkle.MerkleRootFromLeaves` | tools/nanorix-verify/src/streaming_merkle.rs:53-90 | the level-by-level root is the recursive largest-power-of-two tree head over the tagged leaves |
| `StreamingMerkle.RootBindsLeaves` | tools/nanorix-verify/src/streaming_merkle.rs:53-90 | a streaming root binds its leaf list, between lists of any two lengths, the empty one included |
| `StableSort.SortByCorrect` | tools/nanorix-verify/src/streaming_merkle.rs:140-141 | sorting by a key orders, permutes and is stable |
| `StableSort.SortedByPlace` | tools/nanorix-verify/src/streaming_merkle.rs:140-141 | ordered means that no element stands after one with a higher key |
| `StableSort.StableUnique` | tools/nanorix-verify/src/streaming_merkle.rs:140-141 | an ordered list that keeps the elements of every key in their order is the sorted one, whatever algorithm made it |
| `StableSort.SortIgnoresOrder` | tools/nanorix-verify/src/streaming_merkle.rs:140-141 | without ties the sorted list does not depend on the order supplied |
| `StreamTrail.StreamAccumulator.CloseStream` | tools/nanorix-verify/src/streaming_merkle.rs:114-157 | closing a stream computes the verdict that `ClosePasses` and `CloseOtherwise` state by conditions |
| `StreamLaw.ClosePasses` | tools/nanorix-verify/src/streaming_merkle.rs:114-157 | a stream of usable chunks with a root passes if and only if the declared number differs from the number disclosed or the root is the head over the chunk hashes, decoded one for one, in sequence order; else the two roots are named |
| `StreamLaw.CloseOtherwise` | tools/nanorix-verify/src/streaming_merkle.rs:114-128 | without a root every stream passes, with a root none that has an unusable chunk |
| `StreamLaw.StreamFails` | tools/nanorix-verify/src/streaming_merkle.rs:95-208 | the same of a trail's JSON events: the stream between its boundary events fails the walk if and only if it is disclosed in full and its root is not that of its chunks |
| `Hex.DecodeByPlace` | tools/nanorix-verify/src/streaming_merkle.rs:92-99 | a text decodes to the bytes its pairs of hexadecimal digits, of either case, spell, and to nothing else |
| `StreamLaw.UnusableChunkFails` | tools/nanorix-verify/src/streaming_merkle.rs:181-197 | a stream with a chunk event that lacks its number or a 64-byte hash fails as soon as it has a root |
| `StreamLaw.OneRootOneStream` | tools/nanorix-verify/src/streaming_merkle.rs:114-157 | two fully disclosed streams that pass under one root have the same leaves in sequence |
| `StreamTrail.Walk` | tools/nanorix-verify/src/streaming_merkle.rs:170-208 | the event loop reports nothing if and only if no closed stream, found by segmenting the trail at its boundaries, has a failing verdict; otherwise it reports the first one's |
| `StreamTrail.VerifyStreamingMerkleRoots` | tools/nanorix-verify/src/streaming_merkle.rs:170-208 | the same over the JSON trail |
| `StreamTrail.TracksNext` | tools/nanorix-verify/src/streaming_merkle.rs:173-203 | each event keeps the accumulator equal to the chunks since the last boundary |
| `StreamTrail.ReorderingKeepsVerdicts` | tools/nanorix-verify/src/streaming_merkle.rs:140-141 | permuting the chunks of a stream without sequence ties changes no verdict |
| `ReceiptTree.NextLevel` | tools/auditproof-verifier-go/wave_n.go:140-152 | one pass pairs adjacent nodes and pairs an odd last node with itself |
| `ReceiptTree.MerkleRoot` | tools/auditproof-verifier-go/wave_n.go:129-155 | the loop over levels computes the top of the tree; none for no leaves, the leaf itself for one |
| `ReceiptTree.RootOfTwo` | tools/auditproof-verifier-go/wave_n.go:129-155 | the root over two leaves hashes the first, a NUL and the second, each without its prefix |
| `ReceiptTree.BuildInclusionProof` | tools/auditproof-verifier-go/wave_n.go:199-240 | the loop collects the sibling of the leaf's ancestor at every level, a right-edge node being its own; out-of-range indices are refused |
| `ReceiptTree.VerifyInclusionProof` | tools/auditproof-verifier-go/wave_n.go:245-266 | the loop accepts exactly when climbing from the stripped leaf along the bits of the index reaches the stripped root; a negative index, which truncating division admits, climbs like its magnitude |
| `ReceiptTree.InclusionRoundTrip` | tools/auditproof-verifier-go/wave_n.go:199-266 | every leaf's built proof is accepted under any spelling of the root; no assumption on the hash |
| `ReceiptTree.ProofLength` | tools/auditproof-verifier-go/wave_n.go:199-240 | a built proof has `ceil(log2 N)` siblings |
| `ReceiptTree.RootSpellings` | tools/auditproof-verifier-go/wave_n.go:163-174 | the prefixed root always strips to the root, and exactly when the bare one does |
| `RecordReceipts.RecordPreimage` | tools/auditproof-verifier-go/wave_n.go:330-369 | the appended buffer is the record's parts joined by NULs, the tag only when present |
| `RecordReceipts.RecordBound` | tools/nanorix-verify/src/lib.rs:1204-1240 | NUL-free records have one chain hash if and only if they are equal up to hash prefixes |
| `RecordReceipts.RecordIsNotPair` | tools/nanorix-verify/src/bundle.rs:492-550 | a record preimage holds at least five separators, so no pair whose parts hold fewer than four spells one |
| `RecordReceipts.NodeOrigin` | tools/nanorix-verify/src/lib.rs:1174-1200 | every tree node that is not a leaf was hashed from two nodes of the tree |
| `RecordReceipts.ClimbStartsAtNode` | tools/nanorix-verify/src/bundle.rs:552-576 | a climb over siblings of fewer than four separators each that ends at a node of the tree began at one |
| `RecordReceipts.AcceptedRecordIsInTree` | tools/nanorix-verify/src/bundle.rs:492-576 | without a leaf tag, for a proof of any length and any index: an accepted record hash is one of the tree's leaves |
| `RecordReceipts.LeafIsRecord` | tools/nanorix-verify/src/bundle.rs:492-524 | and then the record is one of the tree's records, up to hash prefixes |
| `RecordReceipts.NulInSibling` | tools/nanorix-verify/src/bundle.rs:552-576 | four separators in a sibling are the first number too many: with the tail of an untagged record as sibling an unrelated hash climbs to the root |
| `RecordReceipts.TagCollision` | tools/nanorix-verify/src/bundle.rs:492-524 | the instance with both activity roots hashes: a root moved into the output hash leaves its place to the tag |
| `RecordSeparation.SeparateExactly` | tools/nanorix-verify/src/lib.rs:1204-1240 | an untagged record shares its preimage with some tagged one if and only if its id or one of its stripped hashes holds a NUL, or a record index stands as a part behind a NUL in the capsule's name |
| `RecordSeparation.HashedSeparateExactly` | tools/auditproof-verifier-go/wave_n.go:318-369 | if its three hashes are hashes, it shares it with a tagged record whose activity root is a hash if and only if its id holds a NUL or the capsule's name hides an index |
| `RecordSeparation.ActivitySeparatesExactly` | tools/auditproof-verifier-go/wave_n.go:318-369 | whatever its other fields hold: if and only if what stands before its activity root already reads as a record up to a hash in that place |
| `RecordSeparation.TagSeparatesExactly` | tools/auditproof-verifier-go/wave_n.go:318-369 | a tagged record shares its preimage with an untagged one whose activity root is a hash if and only if the last part of its tag is a hash |
| `RecordReceipts.SharedRootSharesRecord` | tools/nanorix-verify/src/lib.rs:1174-1240 | trees of any sizes with one root hold the same record hashes |
| `ReceiptSet.ComputeActivityRoot` | tools/nanorix-verify/src/bundle.rs:526-540 | the loop computes the hash chain over the trail's canonical events, from the hash of nothing |
| `ReceiptSet.TrailRootBinds` | tools/nanorix-verify/src/bundle.rs:526-540 | one activity root, one trail, its length included |
| `ReceiptSet.RecomputeAll` | tools/nanorix-verify/src/lib.rs:1267-1323 | every receipt is recomputed in order, up to the first that claims another hash |
| `ReceiptSet.VerifyRecordReceipts` | tools/nanorix-verify/src/lib.rs:1245-1340 | the set is accepted exactly when every receipt recomputes and the tree over them has the claimed root (no receipts need no root); otherwise the fault reported is the first |
| `PublishedProof.RecordTextIs` | tools/nanorix-verify/src/lib.rs:1204-1310 | what a receipt's chain hash is the hash of, from the receipt's own fields: capsule, decimal index, id, stripped input and output hashes, activity root, tag if there |
| `ReceiptSet.OneRootOneSet` | tools/nanorix-verify/src/lib.rs:1245-1340 | two accepted sets under one root have the same record hashes, up to order and number |
| `ReceiptSet.OneRootOneList` | tools/nanorix-verify/src/lib.rs:1245-1340 | and if equally many, the same records hashed in the same order |
| `ReceiptSet.RepeatedReceipts` | tools/nanorix-verify/src/lib.rs:1245-1340 | the number is not bound: an accepted set with its last complete subtree repeated, for an odd number the last receipt, is accepted under the same root |
| `ActivityRecord.ScanLines` | sdk/typescript/src/verifier/customer_activity.ts:95-111 | the index scan computes the same lines as splitting and dropping a trailing empty segment |
| `ActivityRecord.SplitKeepsRecord` | tools/nanorix-verify/src/customer_activity.rs:161-167 | joining the lines back, each with its newline, gives the record closed by a newline |
| `ActivityRecord.SameLines` | tools/nanorix-verify/src/customer_activity.rs:161-167 | records have the same lines if and only if they are equal up to one newline ending a non-empty unterminated record |
| `ActivityRecord.RepeatedTail` | tools/nanorix-verify/src/lib.rs:1174-1200 | the tree alone: unless the number of leaves is a power of two, repeating its last complete subtree (the last leaf, if the number is odd) keeps the root |
| `ActivityRecord.RepeatedWhole` | tools/nanorix-verify/src/lib.rs:1178-1200 | for a power of two, one leaf included, repeating all leaves instead hashes the root with itself |
| `ActivityRecord.TopInjective` | tools/nanorix-verify/src/lib.rs:1174-1200 | among leaf lists of one length the tree binds the leaves |
| `ActivityRecord.ComputeActivityRoot` | tools/nanorix-verify/src/customer_activity.rs:170-187 | the computed root is the prefixed hash of tree and decimal line count |
| `ActivityRecord.RootBindsLines` | tools/nanorix-verify/src/customer_activity.rs:180-187 | binding the count repairs the tree: equal roots if and only if equal line sequences |
| `ActivityRecord.RootBindsRecord` | tools/nanorix-verify/src/customer_activity.rs:161-187 | equal roots if and only if the records are equal up to that final newline |
| `ActivityRecord.VerifyDeclaredActivity` | tools/nanorix-verify/src/customer_activity.rs:115-229 | a record verifies exactly when the root is signed, well-shaped and the record's; every refusal says why: nothing declared (null included), unsigned before shape, malformed, or both roots that differ |
| `ActivityRecord.OneRecordVerifies` | tools/nanorix-verify/src/customer_activity.rs:206-229 | one declared root verifies one record only, up to the final newline |
| `KeyOrder.CompareKeys` | tools/auditproof-verifier-go/canonical.go:230-245 | the comparison loop decides UTF-16 lexicographic order |
| `KeyOrder.LessByPosition` | tools/auditproof-verifier-go/canonical.go:230-245 | a key is less if and only if, where the two part, it ends or has the lower UTF-16 unit |
| `KeyOrder.PrefixIsLess` | tools/auditproof-verifier-go/canonical.go:230-245 | a key is less than every longer key it begins |
| `KeyOrder.RuneDecides` | tools/auditproof-verifier-go/canonical.go:230-245 | keys that part at runes of the basic plane are ordered by those runes |
| `KeyOrder.LessIsTotal` | tools/auditproof-verifier-go/canonical.go:227-245 | of two keys exactly one is less, or they are equal |
| `KeyOrder.LessIsTransitive` | tools/auditproof-verifier-go/canonical.go:227-245 | the order is transitive |
| `KeyOrder.SortedUnique` | tools/auditproof-verifier-go/canonical.go:80-86 | a set of keys has one ascending enumeration |
| `KeyOrder.SortKeys` | tools/auditproof-verifier-go/canonical.go:230-245 | sorting distinct keys by the comparison enumerates the same keys in ascending order |
| `NumberText.LayoutRoundTrip` | tools/auditproof-verifier-go/canonical.go:151-188 | each layout reads back to its digits and point, so the layout is injective |
| `NumberText.LayoutDenotes` | tools/auditproof-verifier-go/canonical.go:165-182 | the unsigned text denotes the digit string scaled by `10^(n-k)` |
| `NumberText.FloatDenotes` | tools/auditproof-verifier-go/canonical.go:151-188 | the whole text denotes sign times digit string scaled by `10^(n-k)` |
| `NumberText.LayoutShape` | tools/auditproof-verifier-go/canonical.go:165-182 | an exponent is written exactly outside `-6 < n <= 21`, a point exactly where ECMA-262 section 6.1.6.1.20 has one |
| `NumberText.NumberRoundTrip` | tools/auditproof-verifier-go/canonical.go:116-188 | every 64-bit integer and every float that does not spell one reads back from its text |
| `StringText.StringRoundTrip` | tools/auditproof-verifier-go/canonical.go:193-223 | a string reads back from its escaped text, whatever follows |
| `StringText.LetterEscapes` | tools/auditproof-verifier-go/canonical.go:190-225 | quote, backslash and five controls are escaped by a letter |
| `StringText.ControlEscapes` | tools/auditproof-verifier-go/canonical.go:190-225 | the other controls by four digits |
| `StringText.PlainRunes` | tools/auditproof-verifier-go/canonical.go:190-225 | nothing else of the basic plane is escaped, nor anything beyond it in the unescaped style |
| `StringText.EscapeOfPair` | tools/auditproof-verifier-go/canonical.go:211-219 | in the other style a rune beyond it is escaped as the two surrogates that stand for it |
| `StringText.SerializeString` | sdk/typescript/src/_jcs.ts:56-87 | the loop over code units emits each unit's escape between quotes |
| `StringText.EmittersAgree` | sdk/typescript/src/_jcs.ts:56-87 | escaping per rune and per code unit give the same units for every string |
| `CanonicalJson.WriteString` | tools/auditproof-verifier-go/canonical.go:193-223 | the buffer grows by exactly the string's text |
| `CanonicalJson.AnyOrder` | tools/auditproof-verifier-go/canonical.go:80-85 | the map yields each key once, in any order |
| `CanonicalJson.WriteObject` | tools/auditproof-verifier-go/canonical.go:80-103 | whatever order the map yields, the buffer grows by the members in ascending key order |
| `CanonicalJson.WriteItems` | tools/auditproof-verifier-go/canonical.go:68-79 | the buffer grows by the items separated by commas |
| `CanonicalJson.WriteValue` | tools/auditproof-verifier-go/canonical.go:53-110 | the buffer grows by exactly the document's canonical text |
| `CanonicalJson.TwoMembers` | tools/auditproof-verifier-go/canonical.go:78-110 | of two members the one with the lesser key is written first |
| `CanonicalJson.EmitForms` | tools/auditproof-verifier-go/canonical.go:53-77 | the words, the brackets and the commas of an array |
| `CanonicalJson.MemberForm` | tools/auditproof-verifier-go/canonical.go:78-110 | a member is its quoted key, a colon and its value |
| `CanonicalParser.ValueParses` | tools/auditproof-verifier-go/canonical.go:53-110 | for every document and either escape style, the parser recovers it from its text followed by anything that does not extend a number |
| `CanonicalParser.EmitInjective` | tools/auditproof-verifier-go/canonical.go:53-110 | canonical text determines the document |
| `CanonicalParser.CanonicalHashBinds` | tools/nanorix-verify/src/canonical_recompute.rs:162-173 | canonical hashes are equal if and only if the documents are |
| `EscapeStyles.StringStylesAgree` | tools/auditproof-verifier-go/canonical.go:211-219 | a string is written alike with pairs escaped and unescaped if and only if every rune is below U+10000 |
| `EscapeStyles.StylesAgree` | tools/auditproof-verifier-go/canonical.go:53-110 | so is a document, if and only if every string and key of it is |
| `EscapeStyles.HashesAgree` | tools/nanorix-verify/src/canonical_recompute.rs:162-173 | and then, and only then, the text with pairs escaped has the canonical hash of the text without |
| `EscapeStyles.UpperPlaneDiffers` | tools/auditproof-verifier-go/canonical.go:217-219 | U+10000 is written as twelve characters in one style and as itself in the other |
| `DoubleText.IntegersAgree` | sdk/typescript/src/_jcs.ts:47-54 | an integer read as a double keeps its text if and only if the digits chosen for that double spell the integer |
| `DoubleText.SafeIntegersAgree` | sdk/typescript/src/_jcs.ts:47-54 | every integer up to two to the 53rd in magnitude keeps its text, whatever allowed digits are chosen |
| `DoubleText.FirstUnsafeInteger` | sdk/typescript/src/_jcs.ts:47-54 | the next integer does not |
| `DoubleText.TwoToThe60` | sdk/typescript/src/_jcs.ts:47-54 | two to the 60th is a double and still written with other digits |
| `UnitEmitter.ValueAgrees` | sdk/typescript/src/_jcs.ts:34-101 | the map-and-join emitter's code units are those of the buffer emitter's text of the document as read into doubles |
| `UniqueDigits.OneBest` | sdk/typescript/src/_jcs.ts:47-54 | the shortest digits that read as a double integers read as, and the nearest of them, are unique: there are no ties |
| `UniqueDigits.EnginesAgree` | sdk/typescript/src/_jcs.ts:47-54 | any two engines write an integer alike |
| `UniqueDigits.KeepsTextExactly` | sdk/typescript/src/_jcs.ts:47-54 | in any engine an integer keeps its text if and only if its own digits without the zeros that end them are the best for its double |
| `UnitEmitter.EmittersAgreeExactly` | sdk/typescript/src/_jcs.ts:34-101 | both emitters write one text of a document if and only if the own digits of every integer of it are the best for its double, a condition on the document alone |
| `UnitEmitter.EnginesWriteAlike` | sdk/typescript/src/_jcs.ts:34-101 | any two engines write one text of a document |
| `UnitEmitter.SafeDocumentsAgree` | sdk/typescript/src/_jcs.ts:34-101 | so they do when no integer exceeds two to the 53rd in magnitude |
| `UnitEmitter.TwoToThe60Differs` | sdk/typescript/src/_jcs.ts:34-101 | and they do not for the document that is two to the 60th |
| `SignedView.BuildView` | tools/nanorix-verify/src/canonical_recompute.rs:77-160 | inserting entries rule by rule builds the view |
| `SignedView.ViewLookup` | tools/nanorix-verify/src/canonical_recompute.rs:77-182 | the view holds each rule's entry under its key, or lacks the key |
| `PublishedView.ReadsExactly` | tools/nanorix-verify/src/canonical_recompute.rs:84-93 | a text is read as a 64-bit integer if and only if it spells it: sign, zeros, decimal digits |
| `PublishedView.VersionNumberExactly` | tools/nanorix-verify/src/canonical_recompute.rs:84-93 | a key version other than zero is the integer its text spells |
| `PublishedView.KeyVersionStands` | tools/nanorix-verify/src/canonical_recompute.rs:84-93 | the view holds the key version as the integer the field spells; a non-zero integer there is spelled by the field |
| `PublishedView.NamesCarried` | tools/nanorix-verify/src/canonical_recompute.rs:75-105 | version, capsule, authority, jurisdiction, mode and organisation stand in the view as the proof holds them, null or empty text if it does not |
| `PublishedView.RecordsCarried` | tools/nanorix-verify/src/canonical_recompute.rs:111-140 | so do trail, chain, destruction state, failure step and runtime attestation |
| `PublishedView.RootsCarried` | tools/nanorix-verify/src/canonical_recompute.rs:107-134 | kind, parent and the three roots stand there exactly if the proof has them and they are not null |
| `PublishedView.AlgorithmsCarried` | tools/nanorix-verify/src/canonical_recompute.rs:159-163 | and the two algorithms as the proof holds them |
| `PublishedView.AttestationStands` | tools/nanorix-verify/src/canonical_recompute.rs:142-157 | the attestation of the view: the timestamp's, and the fingerprint if it is a non-empty text |
| `SignedView.ViewBinds` | tools/nanorix-verify/src/canonical_recompute.rs:77-182 | views are equal if and only if every entry is |
| `SignedView.RulesSound` | tools/nanorix-verify/src/canonical_recompute.rs:82-160 | the twenty view keys are distinct |
| `SignedView.AgreeExactly` | tools/nanorix-verify/src/canonical_recompute.rs:77-182 | entries agree exactly when the fields do, up to absent being null, the stated default, the parsed key version, an empty fingerprint |
| `SignedView.SignatureBinds` | tools/nanorix-verify/src/canonical_recompute.rs:77-182 | two proofs have one canonical hash if and only if they agree, so normalised, on every signed field |
| `ProofSignature.NoDowngrade` | tools/nanorix-verify/src/canonical_recompute.rs:194-295 | with a signature and a key present, a mode that cannot be checked is reported as such and never as an absent signature |
| `ProofSignature.VerifiedMeans` | tools/nanorix-verify/src/canonical_recompute.rs:229-312 | told by conditions: verified if and only if a signature, a key and a supported message are there and the scheme accepts them; absent if and only if one of them is missing |
| `ProofSignature.OneMessage` | tools/nanorix-verify/src/canonical_recompute.rs:194-224 | proofs that sign their view have one signed message if and only if they agree on every signed field |
| `DestructionChain.WalkChain` | tools/nanorix-verify/src/lib.rs:534-648 | the walk passes exactly eight steps that each carry the recomputed hash and the canonical name; otherwise it names the first bad step, a wrong hash before a wrong name |
| `DestructionChain.LastStepForms` | tools/nanorix-verify/src/lib.rs:1115-1158 | the four forms are the base, or the base joined with the roots present |
| `PublishedProof.StepTextIs` | tools/nanorix-verify/src/lib.rs:962-980 | a step hashes the hash before it, the name, the word `destroy`, the method and the timestamp, in this order, joined by NULs |
| `PublishedProof.StepsAreHashes` | tools/nanorix-verify/src/lib.rs:591-648 | eight hashes, each over the one before, the first over that of nothing, the last with the roots, are exactly those the chain is walked against |
| `DestructionChain.LoneRootsAlike` | tools/nanorix-verify/src/lib.rs:1131-1146 | a lone receipts root and a lone parents root give one hash if and only if their stripped texts are equal |
| `DestructionChain.StepIsNotAmended` | tools/auditproof-verifier-go/wave_n.go:378-441 | no step preimage is an amended preimage |
| `DestructionChain.LastStepBinds` | tools/nanorix-verify/src/lib.rs:1115-1158 | the last hash binds the hash before it, the timestamp and the roots present |
| `DestructionChain.FinalHashBinds` | tools/nanorix-verify/src/lib.rs:591-648 | final hashes are equal if and only if timestamp and present roots are |
| `DestructionChain.OneTimestampPasses` | tools/nanorix-verify/src/lib.rs:982-998 | at most one timestamp, beside one list of NUL-free roots, lets a given chain pass |
| `DestructionChain.OneTimestampSameRoots` | tools/nanorix-verify/src/lib.rs:982-998 | with the roots of one document, whatever they hold, at most one timestamp lets its chain pass |
| `KeyTimestamp.RecoverTimestampFromKeyId` | tools/auditproof-verifier-go/canonical_recompute.go:344-394 | the byte loops compute the same function as prefix, last dash, first `T` and replacement |
| `KeyTimestamp.RecoveredShape` | tools/nanorix-verify/src/lib.rs:1010-1042 | every recovered value is ISO-8601 shaped |
| `KeyTimestamp.RecoverInverts` | tools/nanorix-verify/fixtures/generator.rs:271-282 | recovery inverts the key-id encoding if and only if the timestamp is shaped, its time part has no dash and the fragment is non-empty without one |
| `KeyTimestamp.ResolveDiscloses` | tools/nanorix-verify/src/lib.rs:1048-1066 | a value is disclosed as recovered if and only if none is declared and the key id yields one, and is then the shaped one used; otherwise the declared one is used |
| `KeyTimestamp.ResolveFindsTimestamp` | tools/nanorix-verify/src/lib.rs:1010-1066 | a document that declares none resolves to the timestamp its key id was made from if and only if recovery inverts the spelling |
| `ProofVerifier.CheckGates` | tools/nanorix-verify/src/lib.rs:379-526 | stage 2 passes exactly when no reserved slot is filled, the declared root is readable and both pins are met, and else names the first gate that does not |
| `ProofVerifier.CheckStructures` | tools/nanorix-verify/src/lib.rs:524-739 | stage 3 passes exactly when chain, receipts, parents, streams and the customer's record, if one is offered, do, and else names the first of them that does not |
| `Lineage.ParentsExactly` | tools/nanorix-verify/src/lib.rs:1342-1380 | the parents of a proof pass if and only if they are listed under its parents root: every one climbs to it with its own built proof, and none are listed without a root |
| `Lineage.OneLineage` | tools/nanorix-verify/src/lib.rs:1342-1380 | two proofs that pass with one parents root and equally many NUL-free parents list the same parents in the same order |
| `ParsedProofs.SignedLineage` | tools/nanorix-verify/src/lib.rs:1342-1380 | so do two sound version 2.1 or 2.2 proofs with one signed message |
| `PublishedProof.GatesExactly` | tools/nanorix-verify/src/lib.rs:344-526 | stage 2 told of the document: a known version, seven empty slots, a record root only where it is signed, the authority and the region asked for |
| `PublishedProof.ChainExactly` | tools/nanorix-verify/src/lib.rs:534-648 | the chain told of the document: eight entries, each with its canonical name and its step hash over the stated or recovered time and the stated roots |
| `PublishedProof.ReceiptsExactly` | tools/nanorix-verify/src/lib.rs:1245-1340 | the receipts told of the document: each recomputes, and the hashes they claim are listed under the receipts root |
| `PublishedProof.SoundExactly` | tools/nanorix-verify/src/lib.rs:325-739 | every check short of the signature passes if and only if the document states, field by field, what it must |
| `ProofVerifier.RecomputeCanonicalHash` | tools/nanorix-verify/src/canonical_recompute.rs:77-173 | building the view, writing it and hashing computes the canonical hash |
| `ProofVerifier.CheckSignature` | tools/nanorix-verify/src/canonical_recompute.rs:229-312 | the check computes the verdict over the message of the version and mode, against the embedded or a published key |
| `ProofVerifier.Anchor` | tools/nanorix-verify/src/lib.rs:856-957 | after the embedded key: stage 7 without published keys, stage 8 exactly when the published, unrevoked key also verifies, and otherwise the stage and reason of the objection |
| `ProofVerifier.VerifyAuditProof` | tools/nanorix-verify/src/lib.rs:325-957 | the verdict is stage 8, 7 or 4 exactly for sound proofs with a signature verified under a published key, verified, or absent, and otherwise the first stage that objects with its reason |
| `ProofVerifier.ValidMeansSound` | tools/nanorix-verify/src/lib.rs:325-957 | stage 8 if and only if the proof is sound, its own key verified and the scheme accepts the signature over the message under the published, unrevoked key |
| `PublishedVerdict.ValidExactly` | tools/nanorix-verify/src/lib.rs:325-957 | stages 8, 7 and 4 told of the document: what it states, which text its own key and the published, unrevoked key of its authority and version accept, or that it is unsigned |
| `PublishedVerdict.RejectedExactly` | tools/nanorix-verify/src/lib.rs:325-739 | and stages 1 to 3 of a rejection |
| `PublishedVerdict.GateBlamed` | tools/nanorix-verify/src/lib.rs:362-526 | at stage 2 the first gate that is not as it must be is blamed |
| `PublishedVerdict.StructureBlamed` | tools/nanorix-verify/src/lib.rs:524-739 | at stage 3 the first structure is, in the order chain, receipts, parents, streams, record |
| `PublishedVerdict.OneVerdict` | tools/nanorix-verify/src/lib.rs:325-957 | a proof has one verdict: stage, fault and all that the fault names |
| `ProofVerifier.FinalHashSigned` | tools/nanorix-verify/src/canonical_recompute.rs:194-213 | sound version 1.0 proofs have one signed message if and only if they share timestamp and present roots |
| `PortableBundle.VerifyReceiptBundle` | tools/nanorix-verify/src/bundle.rs:285-457 | the early-return checks compute the bundle's verdict |
| `PortableBundle.BundleAccepted` | tools/nanorix-verify/src/bundle.rs:285-457 | told by conditions: a bundle verifies if and only if it is complete, its record recomputes, climbs to the carried root and the scheme accepts; each earlier fault if and only if its condition is the first to fail |
| `PublishedBundle.ExtractExactly` | tools/nanorix-verify/src/bundle.rs:148-269 | extraction yields exactly the bundle that holds the document's fields, each named, the last entry's hash and the target of the version |
| `PublishedBundle.MissingExactly` | tools/nanorix-verify/src/bundle.rs:148-190 | and else says what is missing: the receipts, the one at that place, or a field, in order |
| `PublishedBundle.CompleteExactly` | tools/nanorix-verify/src/bundle.rs:299-330 | a standalone check insists on an index and four texts |
| `PortableBundle.BundleRoundTrip` | tools/nanorix-verify/src/bundle.rs:148-457 | any issued receipt of a proof accepted at stage 7, version 2.0 apart, extracts to a bundle that verifies |
| `PortableBundle.VersionTwoBundle` | tools/nanorix-verify/src/bundle.rs:226-254 | in version 2.0 the bundle verifies if and only if the signature, made over the document hash, also holds over the last step's hash |
| `PortableBundle.BundleRecordIsInSet` | tools/nanorix-verify/src/bundle.rs:285-382 | if the carried root is that of an accepted set, a bundle that verifies carries one of the set's records |
| `PortableBundle.RootIsUnbound` | tools/nanorix-verify/src/bundle.rs:285-457 | the signature alone does not make it that: any bundle that verifies still does with any complete, recomputing receipt without a proof in place of its own and that receipt's hash as root |
| `PortableBundle.RootRecomputes` | tools/nanorix-verify/src/bundle.rs:388-393 | beside the last hash of a passing chain, the last step recomputes from the carried root if and only if that root, with timestamp and parents' root, is the chain's |
| `PortableBundle.BoundRecordIsInSet` | tools/nanorix-verify/src/bundle.rs:285-457 | and then a bundle that verifies carries a record of the set accepted with that chain, nothing being assumed of its root |
| `ParsedProofs.ParsedIsWellFormed` | tools/nanorix-verify/src/lib.rs:325-360 | every document that decodes is one the stages can be run on |
| `ParsedProofs.ParsedAreDocs` | tools/nanorix-verify/src/boundary.rs:494-500 | the same for boundary documents |
| `ParsedProofs.ExtractsExactly` | tools/nanorix-verify/src/bundle.rs:148-269 | from a sound document of a named capsule, with one key, a verified signature and an issued receipt, extraction succeeds if and only if the document has a time of destruction and a key id |
| `ParsedProofs.ParsedBundleVerifies` | tools/nanorix-verify/src/bundle.rs:148-457 | and the bundle then verifies, version 2.0 apart |
| `ParsedProofs.SignedProofsAgree` | tools/nanorix-verify/src/lib.rs:982-998 | sound version 2.1 and 2.2 proofs with one signed message have one chain, one list of roots and one walk timestamp, though a key id is unsigned |
| `ParentWalk.ChainVerification.Flatten` | governance/verify-types/src/chain.rs:200-216 | the cursor loop lists the path leaf first |
| `ParentWalk.ViewsAgree` | governance/verify-types/src/chain.rs:177-217 | depth is the length of the path and the leaf its first element |
| `ParentWalk.Walk.Down` | governance/verify-types/src/chain.rs:325-428 | one descent either completes a path from the node or stops at a node for the reason reported; the cache is never hit because its keys stay inside the visited set |
| `ParentWalk.VerifyChain` | governance/verify-types/src/chain.rs:295-428 | for any, even stateful, fetcher: success if and only if some path of at most `max(1, max_depth)` nodes reaches a proof without a parent; the result is that path and each parent was asked for once, in order |
| `ParentWalk.CompleteMeans` | governance/verify-types/src/chain.rs:325-428 | a path is complete exactly when it ends at a verified proof without a parent and every step holds by position |
| `ParentWalk.WalkedPath` | governance/verify-types/src/chain.rs:273-294 | along a success every proof verifies, names the next, by its own check belongs to the customer of the next, and is met once; all belong to one customer if and only if each check but the last proof's reports the customer its proof carries |
| `ParentWalk.WalkFailsFor` | governance/verify-types/src/chain.rs:325-428 | a failed walk names what is wrong at the last node it reached: a bad proof, too many nodes, one met before, a refused or wrong answer, another customer, in this order |
| `BoundaryDocument.RecomputeContentHash` | tools/nanorix-verify/src/boundary.rs:172-185 | the recomputed hash is the canonical hash of the document without its signature block and hash field |
| `BoundaryDocument.VerifyDocument` | tools/nanorix-verify/src/boundary.rs:232-488 | a document's first fault in stage order, published keys included, and whether its signature was checked and anchored |
| `BoundaryDocument.DocumentAccepted` | tools/nanorix-verify/src/boundary.rs:232-488 | told by conditions: nothing is wrong if and only if shape and hash are right and a signature, if there, is accepted under the own key and, where published keys are at hand, under an unrevoked one |
| `BoundaryForm.ShapeExactly` | tools/nanorix-verify/src/boundary.rs:245-371 | stage 1 passes if and only if kind, version, both algorithms and the continuation statement are the stated texts, five texts and two counts are there, and every piece of evidence names one of the three methods |
| `BoundaryForm.ShapeBlames` | tools/nanorix-verify/src/boundary.rs:245-333 | and blames the first of kind, version and algorithms that is not |
| `BoundaryForm.ShapeBlamesLast` | tools/nanorix-verify/src/boundary.rs:335-371 | then the statement, then the evidence |
| `BoundaryForm.ContentFields` | tools/nanorix-verify/src/boundary.rs:172-185 | the hash covers every field but the signature block and the hash |
| `BoundaryForm.AcceptedExactly` | tools/nanorix-verify/src/boundary.rs:232-488 | a document is accepted if and only if it is of the published format, claims its own hash and, where it is signed, its own key and the published one accept |
| `BoundaryForm.FlagsMean` | tools/nanorix-verify/src/boundary.rs:386-488 | the flags of an accepted document: signed if its own key accepted it, anchored if a published, unrevoked key did; a rejected one has neither |
| `BoundaryChain.VerifyEach` | tools/nanorix-verify/src/boundary.rs:502-525 | every document verifies, or the result names the first that does not, its declared index and the verdicts up to it |
| `BoundaryChain.WalkLinks` | tools/nanorix-verify/src/boundary.rs:542-651 | the linkage loop passes exactly chains without a link fault and otherwise reports the first; anchored exactly when the first index is one |
| `BoundaryChain.VerifyBoundaryChain` | tools/nanorix-verify/src/boundary.rs:494-672 | over the documents in index order: valid exactly when every document verifies and links, with verdicts, span, anchoring and signature flag; otherwise the first failing document or link with its index, verdicts and flag |
| `PublishedChain.LinkExactly` | tools/nanorix-verify/src/boundary.rs:542-651 | a link told of the documents: one capsule, the next index, the hash before, a readable and later cutoff; the first that does not hold is blamed with what was found |
| `PublishedChain.VerifyPublishedChain` | tools/nanorix-verify/src/boundary.rs:494-672 | parsed documents in any order, walked by index: reported as a chain exactly if all are accepted and link, with every verdict, the span that counts them, anchoring and signing; else the first not accepted or the first broken link |
| `BoundaryChain.LinkedMeans` | tools/nanorix-verify/src/boundary.rs:542-651 | a chain links if and only if it is one capsule's run of consecutive indices, hashes chained, cutoffs strictly increasing, genesis hash before index one |
| `BoundaryChain.OrderDoesNotMatter` | tools/nanorix-verify/src/boundary.rs:490-500 | supplying the documents in another order changes no valid verdict |
| `BoundaryChain.ChainsAgree` | tools/nanorix-verify/src/boundary.rs:542-651 | two valid chains over one span ending in one canonical hash have equal signed content at every index |
| `BoundaryChain.VerifyDisclosedTrail` | tools/nanorix-verify/src/boundary.rs:677-705 | a disclosed trail is accepted exactly when count and commitment are its own; the count is checked first |
| `BoundaryChain.OneTrailOpens` | tools/nanorix-verify/src/boundary.rs:191-204 | a commitment opens to one trail only |

## Left out

- SHA-512, Ed25519, base64 and the Rust JCS library: foreign code, present as parameters or, for the library, as the canonical text it promises.
- JSON decoding, RFC 3339 parsing and the shortest-digit float search: documents are parsed trees, `cutoff_ts` parsing is a partial function into a total order, float digits are given.
- Command line, batch mode, printing, exit codes, file reading, fixtures other than the key-id encoding: I/O and test plumbing.
- Metadata and human-readable texts of verdicts, including the disclosed counts: copied and never checked.
- `trust_chain.rs`, `pubkey_bundle`, `chain_walk.rs`, `output_bundle.rs`: list lookups and single checks that would only add easy members; a manifest is a function from authority and version to a key and its revocation.
- Equality of the stage ladders across languages: the ports differ in gates and in explicit nulls; the Rust code is the reference.
- The sorting algorithms of the standard libraries: a stable insertion sort stands in for them, and keys are sorted into a new sequence rather than in place.
- Time of extraction, disclaimer and framework version of a bundle: copied and never checked.
- NumberText.LayoutShape: states when a point and an exponent are written, not the text again; the text itself is fixed by the round trip.
- RecordReceipts.TagCollision: one family of colliding records; when records collide is stated exactly in `RecordSeparation`.
- PortableBundle.BundleRecordIsInSet: takes the carried root as the set's, because the bundle's verifier never establishes it; `BoundRecordIsInSet` does without.
- RecordReceipts.AcceptedRecordIsInTree: states membership among the leaves, not the position, because equal records or repeated leaves stand at several positions.
- BoundaryChain.ChainsAgree: stated for chains in index order, which is the order every supplied set is walked in.
