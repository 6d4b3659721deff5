/** A customer's activity record: its lines, the tree over them, and the root that binds the
    line count to the tree. */
module ActivityRecord {
  import opened Wrappers
  import opened Hashing
  import opened Hex
  import opened Sequences
  import opened NulText
  import opened Encoding
  import opened Json
  import opened ReceiptTree
  import opened RecordReceipts

  const NEWLINE: Byte := '\n'

  // ----- lines --------------------------------------------------------------------------

  predicate IsLine(s: Bytes) {
    forall i | 0 <= i < |s| :: s[i] != NEWLINE
  }

  /** What lies between the separators; one segment more than there are separators. */
  function Segments(s: Bytes): (segments: seq<Bytes>)
    ensures segments != []
  {
    if s == [] then [[]]
    else
      var rest := Segments(s[1..]);
      if s[0] == NEWLINE then [[]] + rest else [[s[0]] + rest[0]] + rest[1..]
  }

  /** The segments without a trailing empty one. */
  function SplitLines(record: Bytes): seq<Bytes> {
    var segments := Segments(record);
    if segments[|segments| - 1] == [] then segments[..|segments| - 1] else segments
  }

  lemma {:induction false} SegmentsFront(line: Bytes, rest: Bytes)
    requires IsLine(line)
    ensures Segments(line + [NEWLINE] + rest) == [line] + Segments(rest)
  {
    var s := line + [NEWLINE] + rest;
    if line == [] {
      assert s[1..] == rest;
    } else {
      SegmentsFront(line[1..], rest);
      assert s[1..] == line[1..] + [NEWLINE] + rest;
      assert [s[0]] + line[1..] == line;
    }
  }

  lemma {:induction false} SegmentsOfLine(line: Bytes)
    requires IsLine(line)
    ensures Segments(line) == [line]
  {
    if line != [] {
      SegmentsOfLine(line[1..]);
      assert [line[0]] + line[1..] == line;
    }
  }

  lemma SplitFront(line: Bytes, rest: Bytes)
    requires IsLine(line)
    ensures SplitLines(line + [NEWLINE] + rest) == [line] + SplitLines(rest)
  {
    SegmentsFront(line, rest);
    var tail := Segments(rest);
    assert ([line] + tail)[..|tail|] == [line] + tail[..|tail| - 1];
  }

  /** `lines` and the lines of what follows `start` make up the whole. */
  ghost predicate Scanned(lines: seq<Bytes>, data: Bytes, start: nat) {
    start <= |data| && lines + SplitLines(data[start..]) == SplitLines(data)
  }

  lemma ScanStep(lines: seq<Bytes>, data: Bytes, start: nat, i: nat)
    requires Scanned(lines, data, start)
    requires start <= i < |data| && data[i] == NEWLINE && forall k | start <= k < i :: data[k] != NEWLINE
    ensures Scanned(lines + [data[start..i]], data, i + 1)
  {
    var line, rest := data[start..i], data[i + 1..];
    assert data[start..] == line + [NEWLINE] + rest;
    SplitFront(line, rest);
    Assoc(lines, [line], SplitLines(rest));
  }

  lemma ScanEnd(lines: seq<Bytes>, data: Bytes, start: nat)
    requires Scanned(lines, data, start) && forall k | start <= k < |data| :: data[k] != NEWLINE
    ensures SplitLines(data) == if start < |data| then lines + [data[start..]] else lines
  {
    SegmentsOfLine(data[start..]);
  }

  /** The index scan: a line ends at each separator, and at the end if anything is left. */
  method ScanLines(data: Bytes) returns (lines: seq<Bytes>)
    ensures lines == SplitLines(data)
  {
    lines := [];
    var start := 0;
    assert data[0..] == data;
    for i := 0 to |data|
      invariant start <= i && forall k | start <= k < i :: data[k] != NEWLINE
      invariant Scanned(lines, data, start)
    {
      if data[i] == NEWLINE {
        ScanStep(lines, data, start, i);
        lines := lines + [data[start..i]];
        start := i + 1;
      }
    }
    ScanEnd(lines, data, start);
    if start < |data| {
      lines := lines + [data[start..]];
    }
  }

  /** Every line followed by its separator. */
  function Terminate(lines: seq<Bytes>): Bytes {
    if lines == [] then [] else lines[0] + [NEWLINE] + Terminate(lines[1..])
  }

  /** The record with a final newline: unchanged if it is empty or already ends in one. */
  function Closed(record: Bytes): Bytes {
    if record == [] || record[|record| - 1] == NEWLINE then record else record + [NEWLINE]
  }

  lemma {:induction false} SplitOfTerminate(lines: seq<Bytes>)
    requires forall i | 0 <= i < |lines| :: IsLine(lines[i])
    ensures SplitLines(Terminate(lines)) == lines
  {
    if lines != [] {
      SplitOfTerminate(lines[1..]);
      SplitFront(lines[0], Terminate(lines[1..]));
      assert [lines[0]] + lines[1..] == lines;
    }
  }

  lemma {:induction false} TerminateOfSegments(s: Bytes)
    ensures Terminate(Segments(s)) == s + [NEWLINE]
  {
    if s != [] {
      TerminateOfSegments(s[1..]);
      var rest := Segments(s[1..]);
      assert [s[0]] + (s[1..] + [NEWLINE]) == s + [NEWLINE];
      if s[0] == NEWLINE {
        assert ([[]] + rest)[1..] == rest;
        assert Terminate([[]] + rest) == [NEWLINE] + Terminate(rest);
      } else {
        var longer := [[s[0]] + rest[0]] + rest[1..];
        assert longer[1..] == rest[1..];
        assert [s[0]] + (rest[0] + [NEWLINE] + Terminate(rest[1..])) ==
          [s[0]] + rest[0] + [NEWLINE] + Terminate(rest[1..]);
      }
    }
  }

  lemma {:induction false} TerminateSnoc(lines: seq<Bytes>, last: Bytes)
    ensures Terminate(lines + [last]) == Terminate(lines) + last + [NEWLINE]
  {
    if lines == [] {
      assert lines + [last] == [last];
      assert Terminate([last]) == last + [NEWLINE] + [];
    } else {
      TerminateSnoc(lines[1..], last);
      assert (lines + [last])[1..] == lines[1..] + [last];
      assert lines[0] + [NEWLINE] + (Terminate(lines[1..]) + last + [NEWLINE])
             == lines[0] + [NEWLINE] + Terminate(lines[1..]) + last + [NEWLINE];
    }
  }

  lemma {:induction false} LastSegment(s: Bytes)
    ensures var segments := Segments(s);
            segments[|segments| - 1] == [] <==> s == [] || s[|s| - 1] == NEWLINE
    ensures forall i | 0 <= i < |Segments(s)| :: IsLine(Segments(s)[i])
  {
    if s != [] {
      LastSegment(s[1..]);
    }
  }

  /** Splitting loses exactly whether a non-empty record ended in a newline. */
  lemma SplitKeepsRecord(record: Bytes)
    ensures Terminate(SplitLines(record)) == Closed(record)
    ensures forall i | 0 <= i < |SplitLines(record)| :: IsLine(SplitLines(record)[i])
  {
    var segments := Segments(record);
    var n := |segments| - 1;
    TerminateOfSegments(record);
    LastSegment(record);
    if segments[n] == [] {
      assert segments == segments[..n] + [segments[n]];
      TerminateSnoc(segments[..n], []);
      assert Terminate(segments[..n]) + [] + [NEWLINE] == Terminate(segments[..n]) + [NEWLINE];
      assert (record + [NEWLINE])[..|record|] == record;
      assert (Terminate(segments[..n]) + [NEWLINE])[..|Terminate(segments[..n])|] == Terminate(segments[..n]);
    }
  }

  /** Records split into the same lines exactly when they differ by at most one newline at
      the end of a non-empty, unterminated record. */
  lemma SameLines(a: Bytes, b: Bytes)
    ensures SplitLines(a) == SplitLines(b) <==> Closed(a) == Closed(b)
  {
    SplitKeepsRecord(a);
    SplitKeepsRecord(b);
    if Closed(a) == Closed(b) {
      SplitOfTerminate(SplitLines(a));
      SplitOfTerminate(SplitLines(b));
    }
  }

  // ----- the tree alone -----------------------------------------------------------------

  lemma AboveConcat(H: Sha512, a: seq<Bytes>, pairs: nat, b: seq<Bytes>)
    requires |a| == 2 * pairs
    ensures Above(H, a + b) == Above(H, a) + Above(H, b)
  {
    assert forall up: nat | up < pairs :: Above(H, a + b)[up] == Above(H, a)[up];
    forall up: nat | up < |Above(H, b)| ensures Above(H, a + b)[pairs + up] == Above(H, b)[up] {
      AboveRight(H, a, pairs, b, up);
    }
    ByParts(Above(H, a + b), Above(H, a), pairs, Above(H, b));
  }

  lemma AboveRight(H: Sha512, a: seq<Bytes>, pairs: nat, b: seq<Bytes>, up: nat)
    requires |a| == 2 * pairs && up < |Above(H, b)|
    ensures pairs + up < |Above(H, a + b)| && Above(H, a + b)[pairs + up] == Above(H, b)[up]
  {
    PairRight(a, pairs, b, up);
  }

  lemma PairRight(a: seq<Bytes>, pairs: nat, b: seq<Bytes>, up: nat)
    requires |a| == 2 * pairs && 2 * up < |b|
    ensures PairOf(a + b, pairs + up) == PairOf(b, up)
  {
    assert (a + b)[2 * (pairs + up)] == b[2 * up];
    assert 2 * up + 1 < |b| ==> (a + b)[2 * (pairs + up) + 1] == b[2 * up + 1];
  }

  /** How many leaves the last complete, unpaired subtree of `n` leaves holds. */
  function LowBit(n: nat): (k: nat)
    requires n > 0
    ensures 0 < k <= n
  {
    if n % 2 == 1 then 1 else 2 * LowBit(n / 2)
  }

  /** Unless the number of leaves is a power of two, repeating the last complete subtree
      keeps the tree's root; for an odd number that subtree is the last leaf. */
  lemma {:induction false} RepeatedTail(H: Sha512, level: seq<Bytes>)
    requires level != [] && LowBit(|level|) < |level|
    ensures Top(H, level + level[|level| - LowBit(|level|)..]) == Top(H, level)
    decreases |level|
  {
    var m := |level| / 2;
    if |level| == 2 * m {
      RepeatedTailEven(H, level, m);
    } else {
      assert |level| == 2 * m + 1;
      RepeatedLast(H, level, m);
    }
  }

  lemma AboveLone(H: Sha512, x: Bytes)
    ensures Above(H, [x, x]) == Above(H, [x])
  {
    assert PairOf([x, x], 0) == PairOf([x], 0);
  }

  lemma LastTwiceParts<T>(s: seq<T>, n: nat)
    requires |s| == n + 1
    ensures s == s[..n] + [s[n]] && s + s[n..] == s[..n] + [s[n], s[n]]
  {
  }

  lemma LastTwice(H: Sha512, front: seq<Bytes>, m: nat, x: Bytes)
    requires |front| == 2 * m && m > 0
    ensures Top(H, front + [x, x]) == Top(H, front + [x])
  {
    AboveConcat(H, front, m, [x]);
    AboveConcat(H, front, m, [x, x]);
    AboveLone(H, x);
  }

  lemma RepeatedLast(H: Sha512, level: seq<Bytes>, m: nat)
    requires |level| == 2 * m + 1 && m > 0
    ensures Top(H, level + level[2 * m..]) == Top(H, level)
  {
    LastTwice(H, level[..2 * m], m, level[2 * m]);
    LastTwiceParts(level, 2 * m);
  }

  lemma AboveOfRepeated(H: Sha512, front: seq<Bytes>, i: nat, tail: seq<Bytes>, k: nat)
    requires |front| == 2 * i && |tail| == 2 * k
    ensures Above(H, front + tail + tail) == Above(H, front + tail) + Above(H, front + tail)[i..]
  {
    AboveConcat(H, front + tail, i + k, tail);
    AboveConcat(H, front, i, tail);
    assert (Above(H, front) + Above(H, tail))[i..] == Above(H, tail);
  }

  lemma {:induction false} RepeatedTailEven(H: Sha512, level: seq<Bytes>, m: nat)
    requires |level| == 2 * m && m > 0 && LowBit(m) < m
    ensures Top(H, level + level[|level| - 2 * LowBit(m)..]) == Top(H, level)
    decreases |level|, 0
  {
    var i := m - LowBit(m);
    AboveOfRepeated(H, level[..2 * i], i, level[2 * i..], LowBit(m));
    SplitInTwo(level, 2 * i);
    RepeatedTail(H, Above(H, level));
  }

  /** For a power of two the last complete subtree is the whole tree, and repeating it puts one
      more level on top instead. */
  lemma {:induction false} RepeatedWhole(H: Sha512, level: seq<Bytes>)
    requires level != [] && LowBit(|level|) == |level|
    ensures Top(H, level + level) == PairHash(H, Top(H, level), Top(H, level))
    decreases |level|
  {
    if |level| == 1 {
      assert level + level == [level[0], level[0]];
      assert PairOf([level[0], level[0]], 0) == PairPreimage(level[0], level[0]);
      assert Above(H, level + level) == [PairHash(H, level[0], level[0])];
    } else {
      var m := |level| / 2;
      assert |level| == 2 * m;
      AboveConcat(H, level, m, level);
      RepeatedWhole(H, Above(H, level));
    }
  }

  predicate AllHashes(level: seq<Bytes>) {
    forall i | 0 <= i < |level| :: IsHash(level[i])
  }

  lemma FirstPairInjective(H: Sha512, q: set<Bytes>, a: Bytes, b: Bytes, c: Bytes, d: Bytes)
    requires IsHash(a) && IsHash(b) && IsHash(c) && IsHash(d) && InjectiveOn(H, q)
    requires PairPreimage(a, b) in q && PairPreimage(c, d) in q && PairHash(H, a, b) == PairHash(H, c, d)
    ensures a == c && b == d
  {
    HexIsNulFree(a);
    HexIsNulFree(b);
    HexIsNulFree(c);
    HexIsNulFree(d);
    HashHexInjective(H, q, PairPreimage(a, b), PairPreimage(c, d));
    PairInjective(a, b, c, d);
  }

  lemma PairInjectiveAt(H: Sha512, q: set<Bytes>, a: seq<Bytes>, b: seq<Bytes>, up: nat)
    requires |a| == |b| && 2 * up < |a| && AllHashes(a) && AllHashes(b)
    requires InjectiveOn(H, q) && LevelQueries(a) <= q && LevelQueries(b) <= q
    requires Above(H, a)[up] == Above(H, b)[up]
    ensures a[2 * up] == b[2 * up] && (2 * up + 1 < |a| ==> a[2 * up + 1] == b[2 * up + 1])
  {
    assert PairOf(a, up) in LevelQueries(a) && PairOf(b, up) in LevelQueries(b);
    var s, t := if 2 * up + 1 < |a| then 2 * up + 1 else 2 * up, 2 * up;
    FirstPairInjective(H, q, a[t], a[s], b[t], b[s]);
  }

  /** Between levels of one length the tree does bind its leaves. */
  lemma AboveInjective(H: Sha512, q: set<Bytes>, a: seq<Bytes>, b: seq<Bytes>)
    requires |a| == |b| && AllHashes(a) && AllHashes(b)
    requires InjectiveOn(H, q) && LevelQueries(a) <= q && LevelQueries(b) <= q
    requires Above(H, a) == Above(H, b)
    ensures a == b
  {
    forall k | 0 <= k < |a| ensures a[k] == b[k] {
      var up := k / 2;
      PairInjectiveAt(H, q, a, b, up);
      assert k == 2 * up || k == 2 * up + 1;
    }
  }

  lemma {:induction false} TopInjective(H: Sha512, q: set<Bytes>, a: seq<Bytes>, b: seq<Bytes>)
    requires |a| == |b| > 0 && AllHashes(a) && AllHashes(b)
    requires InjectiveOn(H, q) && TreeQueries(H, a) <= q && TreeQueries(H, b) <= q
    requires Top(H, a) == Top(H, b)
    ensures a == b
    decreases |a|
  {
    if |a| > 1 {
      var c, d := Above(H, a), Above(H, b);
      TopInjective(H, q, c, d);
      AboveInjective(H, q, a, b);
    }
  }

  // ----- the root -----------------------------------------------------------------------

  function Leaves(H: Sha512, lines: seq<Bytes>): (leaves: seq<Bytes>)
    ensures |leaves| == |lines|
    ensures forall i | 0 <= i < |lines| :: leaves[i] == HashHex(H, lines[i])
  {
    seq(|lines|, i requires 0 <= i < |lines| => HashHex(H, lines[i]))
  }

  /** The tree over the lines; the hash of nothing stands in for a tree without leaves. */
  function TreeOf(H: Sha512, lines: seq<Bytes>): (top: Bytes)
    ensures IsHash(top)
  {
    if lines == [] then HashHex(H, [])
    else
      TopOfHashes(H, Leaves(H, lines));
      Top(H, Leaves(H, lines))
  }

  lemma TopOfHashes(H: Sha512, level: seq<Bytes>)
    requires level != [] && AllHashes(level)
    ensures IsHash(Top(H, level))
  {
    if |level| > 1 {
      TopIsHash(H, level);
    }
  }

  function BoundPreimage(H: Sha512, lines: seq<Bytes>): Bytes {
    Pair(TreeOf(H, lines), Decimal(|lines|))
  }

  /** The root of a line sequence in its prefixed form. */
  function RootOfLines(H: Sha512, lines: seq<Bytes>): Bytes {
    PREFIX + HashHex(H, BoundPreimage(H, lines))
  }

  method ComputeActivityRoot(H: Sha512, record: Bytes) returns (root: Bytes)
    ensures root == RootOfLines(H, SplitLines(record))
  {
    ghost var all := SplitLines(record);
    var lines := ScanLines(record);
    var leaves := [];
    for i := 0 to |lines|
      invariant leaves == Leaves(H, lines[..i])
    {
      leaves := leaves + [HashHex(H, lines[i])];
    }
    assert lines[..|lines|] == lines;
    forall i | 0 <= i < |leaves| ensures Strip(leaves[i]) == leaves[i] { HexIsNulFree(leaves[i]); }
    assert StripAll(leaves) == leaves;
    var merkle := MerkleRoot(H, leaves);
    var data := (if merkle.None? then HashHex(H, []) else merkle.value) + [NUL] + Decimal(|leaves|);
    root := PREFIX + HashHex(H, data);
  }

  ghost function RootQueries(H: Sha512, lines: seq<Bytes>): set<Bytes> {
    (set i | 0 <= i < |lines| :: lines[i]) + TreeQueries(H, Leaves(H, lines)) + {BoundPreimage(H, lines)}
  }

  lemma LeavesInjective(H: Sha512, q: set<Bytes>, a: seq<Bytes>, b: seq<Bytes>)
    requires InjectiveOn(H, q) && (forall x | x in a :: x in q) && (forall x | x in b :: x in q)
    requires Leaves(H, a) == Leaves(H, b)
    ensures a == b
  {
    forall i | 0 <= i < |a| ensures a[i] == b[i] {
      assert Leaves(H, a)[i] == Leaves(H, b)[i];
      HashHexInjective(H, q, a[i], b[i]);
    }
  }

  /** Line sequences with one root are equal. */
  lemma RootBindsLines(H: Sha512, a: seq<Bytes>, b: seq<Bytes>)
    requires InjectiveOn(H, RootQueries(H, a) + RootQueries(H, b))
    ensures RootOfLines(H, a) == RootOfLines(H, b) <==> a == b
  {
    if RootOfLines(H, a) == RootOfLines(H, b) {
      var q := RootQueries(H, a) + RootQueries(H, b);
      StripPrefixed(HashHex(H, BoundPreimage(H, a)));
      StripPrefixed(HashHex(H, BoundPreimage(H, b)));
      HashHexInjective(H, q, BoundPreimage(H, a), BoundPreimage(H, b));
      HexIsNulFree(TreeOf(H, a));
      HexIsNulFree(TreeOf(H, b));
      PairInjective(TreeOf(H, a), Decimal(|a|), TreeOf(H, b), Decimal(|b|));
      DecimalInjective(|a|, |b|);
      if a != [] {
        TopInjective(H, q, Leaves(H, a), Leaves(H, b));
        LeavesInjective(H, q, a, b);
      }
    }
  }

  /** Records have one root exactly when they are equal up to a newline at the end of a
      non-empty, unterminated one. */
  lemma RootBindsRecord(H: Sha512, a: Bytes, b: Bytes)
    requires InjectiveOn(H, RootQueries(H, SplitLines(a)) + RootQueries(H, SplitLines(b)))
    ensures RootOfLines(H, SplitLines(a)) == RootOfLines(H, SplitLines(b)) <==> Closed(a) == Closed(b)
  {
    RootBindsLines(H, SplitLines(a), SplitLines(b));
    SameLines(a, b);
  }

  // ----- the check against a declared root ----------------------------------------------

  datatype RootFault = UnsignedField | Malformed | NotDeclared | Mismatch(claimed: Bytes, computed: Bytes)

  /** A root as signers write it: 128 lower-case hex digits, with or without the prefix. */
  predicate IsRootText(claimed: Bytes) {
    IsHash(Strip(claimed))
  }

  /** What stands in the way of reading the declared root, if anything: null counts as no root,
      and an unsigned root is refused before its shape is looked at. */
  function Gate(declared: Option<Json>, signed: bool): Option<RootFault> {
    if declared.None? || declared.value.Null? then None
    else if !signed then Some(UnsignedField)
    else if declared.value.Str? && IsRootText(Utf8(declared.value.s)) then None
    else Some(Malformed)
  }

  /** The record has the declared root, which is signed and well-shaped. */
  predicate Verifies(H: Sha512, declared: Option<Json>, signed: bool, record: Bytes) {
    signed && AsStr(declared).Some? && IsRootText(AsStr(declared).value) &&
    Strip(AsStr(declared).value) == Strip(RootOfLines(H, SplitLines(record)))
  }

  /** What each refusal says. */
  predicate Objects(H: Sha512, declared: Option<Json>, signed: bool, record: Bytes, fault: RootFault) {
    var found := declared.Some? && !declared.value.Null?;
    var readable := AsStr(declared).Some? && IsRootText(AsStr(declared).value);
    match fault
    case NotDeclared => !found
    case UnsignedField => found && !signed
    case Malformed => found && signed && !readable
    case Mismatch(claimed, computed) =>
      found && signed && readable && claimed == AsStr(declared).value &&
      computed == RootOfLines(H, SplitLines(record)) && Strip(claimed) != Strip(computed)
  }

  method VerifyDeclaredActivity(H: Sha512, declared: Option<Json>, signed: bool, record: Bytes)
    returns (r: Result<Bytes, RootFault>)
    ensures r.Ok? <==> Verifies(H, declared, signed, record)
    ensures r.Ok? ==> r.value == RootOfLines(H, SplitLines(record))
    ensures r.Err? ==> Objects(H, declared, signed, record, r.error)
  {
    var gate := Gate(declared, signed);
    if gate.Some? {
      return Err(gate.value);
    }
    var claimed := AsStr(declared);
    if claimed.None? {
      return Err(NotDeclared);
    }
    var computed := ComputeActivityRoot(H, record);
    if Strip(claimed.value) != Strip(computed) {
      return Err(Mismatch(claimed.value, computed));
    }
    r := Ok(computed);
  }

  /** A declared root verifies one record only, up to its final newline. */
  lemma OneRecordVerifies(H: Sha512, claimed: Bytes, a: Bytes, b: Bytes)
    requires InjectiveOn(H, RootQueries(H, SplitLines(a)) + RootQueries(H, SplitLines(b)))
    requires Strip(claimed) == Strip(RootOfLines(H, SplitLines(a)))
    ensures Strip(claimed) == Strip(RootOfLines(H, SplitLines(b))) <==> Closed(a) == Closed(b)
  {
    StripPrefixed(HashHex(H, BoundPreimage(H, SplitLines(a))));
    StripPrefixed(HashHex(H, BoundPreimage(H, SplitLines(b))));
    RootBindsRecord(H, a, b);
  }
}
