/** NUL-separated byte strings: where the separators stand decides what the parts are. */
module NulText {
  import opened Hashing
  import opened Hex

  predicate NulFree(s: Bytes) {
    forall i | 0 <= i < |s| :: s[i] != NUL
  }

  function CountNul(s: Bytes): nat {
    if s == [] then 0 else (if s[0] == NUL then 1 else 0) + CountNul(s[1..])
  }

  lemma {:induction false} CountNulConcat(a: Bytes, b: Bytes)
    ensures CountNul(a + b) == CountNul(a) + CountNul(b)
  {
    if a == [] {
      assert a + b == b;
    } else {
      CountNulConcat(a[1..], b);
      assert (a + b)[1..] == a[1..] + b;
    }
  }

  lemma {:induction false} NulFreeCount(s: Bytes)
    ensures NulFree(s) <==> CountNul(s) == 0
  {
    if s != [] {
      NulFreeCount(s[1..]);
      assert s == [s[0]] + s[1..];
      assert NulFree(s) <==> s[0] != NUL && NulFree(s[1..]);
    }
  }

  /** `left` and `right` with one separator between them. */
  function Pair(left: Bytes, right: Bytes): Bytes {
    left + [NUL] + right
  }

  lemma CountNulPair(left: Bytes, right: Bytes)
    ensures CountNul(Pair(left, right)) == CountNul(left) + 1 + CountNul(right)
  {
    CountNulConcat(left + [NUL], right);
    CountNulConcat(left, [NUL]);
    assert [NUL][1..] == [];
  }

  /** The first separator ends a NUL-free left part. */
  lemma PairInjective(a: Bytes, b: Bytes, c: Bytes, d: Bytes)
    requires NulFree(a) && NulFree(c) && Pair(a, b) == Pair(c, d)
    ensures a == c && b == d
  {
    var s, t := Pair(a, b), Pair(c, d);
    assert s[|a|] == NUL && t[|c|] == NUL;
    assert forall i | 0 <= i < |a| :: s[i] == a[i];
    assert forall i | 0 <= i < |c| :: t[i] == c[i];
    assert a == s[..|a|] == t[..|c|] == c;
    assert b == s[|a| + 1..] == t[|c| + 1..] == d;
  }

  lemma HexIsNulFree(s: Bytes)
    requires IsLowerHex(s)
    ensures NulFree(s) && Strip(s) == s
  {
    StripBareHex(s);
  }

  /** The parts in order, one separator between neighbours. */
  function Join(parts: seq<Bytes>): Bytes
    requires parts != []
  {
    if |parts| == 1 then parts[0] else Pair(parts[0], Join(parts[1..]))
  }

  predicate AllNulFree(parts: seq<Bytes>) {
    forall i | 0 <= i < |parts| :: NulFree(parts[i])
  }

  lemma {:induction false} JoinInjective(a: seq<Bytes>, b: seq<Bytes>)
    requires a != [] && b != [] && AllNulFree(a) && AllNulFree(b) && Join(a) == Join(b)
    ensures a == b
  {
    CountNulJoin(a);
    CountNulJoin(b);
    if |a| > 1 {
      PairInjective(a[0], Join(a[1..]), b[0], Join(b[1..]));
      JoinInjective(a[1..], b[1..]);
      assert a == [a[0]] + a[1..] && b == [b[0]] + b[1..];
    } else {
      assert a == [a[0]] && b == [b[0]];
    }
  }

  lemma {:induction false} CountNulJoin(parts: seq<Bytes>)
    requires parts != []
    ensures CountNul(Join(parts)) >= |parts| - 1
    ensures AllNulFree(parts) ==> CountNul(Join(parts)) == |parts| - 1
  {
    NulFreeCount(parts[0]);
    if |parts| > 1 {
      CountNulPair(parts[0], Join(parts[1..]));
      CountNulJoin(parts[1..]);
    }
  }

  lemma {:induction false} JoinSnoc(parts: seq<Bytes>, last: Bytes)
    requires parts != []
    ensures Join(parts + [last]) == Join(parts) + [NUL] + last
  {
    var all := parts + [last];
    if |parts| == 1 {
      assert all[1..] == [last];
    } else {
      JoinSnoc(parts[1..], last);
      assert all[1..] == parts[1..] + [last];
      assert parts[0] + [NUL] + (Join(parts[1..]) + [NUL] + last) == parts[0] + [NUL] + Join(parts[1..]) + [NUL] + last;
    }
  }

  lemma JoinFront(first: Bytes, rest: seq<Bytes>)
    requires rest != []
    ensures Join([first] + rest) == Pair(first, Join(rest))
  {
    assert ([first] + rest)[1..] == rest;
  }

  lemma JoinFive(a: Bytes, b: Bytes, c: Bytes, d: Bytes, e: Bytes)
    ensures Join([a, b, c, d, e]) == Pair(a, Pair(b, Pair(c, Pair(d, e))))
  {
    JoinFront(d, [e]);
    JoinFront(c, [d] + [e]);
    JoinFront(b, [c] + ([d] + [e]));
    JoinFront(a, [b] + ([c] + ([d] + [e])));
    assert [a, b, c, d, e] == [a] + ([b] + ([c] + ([d] + [e])));
  }
}
