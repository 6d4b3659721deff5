/** Facts about concatenation, stated once and away from everything else, and searching and
    rewriting byte strings. */
module Sequences {
  import opened Hashing

  lemma Assoc<T>(a: seq<T>, b: seq<T>, c: seq<T>)
    ensures a + (b + c) == a + b + c
  {
  }

  /** A sequence is `a + b` when its parts are. */
  lemma ByParts<T>(s: seq<T>, a: seq<T>, n: nat, b: seq<T>)
    requires |a| == n && |s| == n + |b|
    requires forall i: nat | i < n :: s[i] == a[i]
    requires forall i: nat | i < |b| :: s[n + i] == b[i]
    ensures s == a + b
  {
  }

  lemma SplitInTwo<T>(s: seq<T>, n: nat)
    requires n <= |s|
    ensures s == s[..n] + s[n..]
  {
  }

  lemma Head<T>(s: seq<T>)
    requires s != []
    ensures s == [s[0]] + s[1..]
  {
  }

  lemma SplitLast<T>(s: seq<T>)
    requires s != []
    ensures s == s[..|s| - 1] + [s[|s| - 1]]
  {
  }

  lemma DropTwice<T>(s: seq<T>, i: nat)
    requires i < |s|
    ensures s[i..] == [s[i]] + s[i + 1..] && s[i..][1..] == s[i + 1..]
  {
  }

  lemma DropFront<T>(a: seq<T>, b: seq<T>)
    ensures (a + b)[|a|..] == b && (a + b)[..|a|] == a
  {
  }

  // ----- searching ----------------------------------------------------------------------

  predicate Lacks(s: Bytes, c: Byte) {
    forall i | 0 <= i < |s| :: s[i] != c
  }

  /** The first position of `c`, or the length. */
  function First(s: Bytes, c: Byte): (i: nat)
    ensures i <= |s| && (forall k | 0 <= k < i :: s[k] != c) && (i < |s| ==> s[i] == c)
  {
    if s == [] || s[0] == c then 0 else 1 + First(s[1..], c)
  }

  /** The last position of `c`, or -1. */
  function Last(s: Bytes, c: Byte): (i: int)
    ensures -1 <= i < |s| && (forall k | i < k < |s| :: s[k] != c) && (i >= 0 ==> s[i] == c)
  {
    if s == [] then -1 else if s[|s| - 1] == c then |s| - 1 else Last(s[..|s| - 1], c)
  }

  function Replace(s: Bytes, from: Byte, to: Byte): (r: Bytes)
    ensures |r| == |s| && forall i | 0 <= i < |s| :: r[i] == if s[i] == from then to else s[i]
  {
    seq(|s|, i requires 0 <= i < |s| => if s[i] == from then to else s[i])
  }
}
