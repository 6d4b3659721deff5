/** Object keys in the order of their UTF-16 code units. */
module KeyOrder {
  import opened Sequences

  // ----- UTF-16 -------------------------------------------------------------------------

  function Units(s: string): seq<int> {
    if s == [] then [] else UnitsOf(s[0]) + Units(s[1..])
  }

  function Lead(c: char): int {
    0xD800 + (c as int - 0x1_0000) / 0x400
  }

  function Trail(c: char): int {
    0xDC00 + (c as int - 0x1_0000) % 0x400
  }

  function UnitsOf(c: char): (u: seq<int>)
    ensures u != []
  {
    if c as int < 0x1_0000 then [c as int] else [Lead(c), Trail(c)]
  }

  predicate IsLead(u: int) {
    0xD800 <= u < 0xDC00
  }

  predicate IsTrail(u: int) {
    0xDC00 <= u < 0xE000
  }

  /** The rune a surrogate pair stands for. */
  function Rune(lead: int, trail: int): char
    requires IsLead(lead) && IsTrail(trail)
  {
    (0x1_0000 + (lead - 0xD800) * 0x400 + (trail - 0xDC00)) as char
  }

  lemma RuneOfPair(c: char)
    requires c as int >= 0x1_0000
    ensures IsLead(Lead(c)) && IsTrail(Trail(c)) && Rune(Lead(c), Trail(c)) == c
  {
  }

  lemma UnitsOfBasic(c: char)
    requires c as int < 0x1_0000
    ensures !IsLead(c as int) && !IsTrail(c as int)
  {
  }

  lemma {:induction false} UnitsInjective(s: string, t: string)
    requires Units(s) == Units(t)
    ensures s == t
  {
    if s != [] && t != [] {
      var a, b := s[0], t[0];
      var u, v := UnitsOf(a) + Units(s[1..]), UnitsOf(b) + Units(t[1..]);
      assert u == v && u[0] == v[0];
      SameFirstRune(a, Units(s[1..]), b, Units(t[1..]));
      UnitsInjective(s[1..], t[1..]);
      assert s == [a] + s[1..] && t == [b] + t[1..];
    }
  }

  lemma SameFirstRune(a: char, p: seq<int>, b: char, q: seq<int>)
    requires UnitsOf(a) + p == UnitsOf(b) + q
    ensures a == b && p == q
  {
    var u, v := UnitsOf(a) + p, UnitsOf(b) + q;
    assert u[0] == UnitsOf(a)[0] && v[0] == UnitsOf(b)[0];
    if a as int < 0x1_0000 {
      UnitsOfBasic(a);
    } else {
      RuneOfPair(a);
    }
    if b as int < 0x1_0000 {
      UnitsOfBasic(b);
    } else {
      RuneOfPair(b);
    }
    if a as int >= 0x1_0000 && b as int >= 0x1_0000 {
      assert u[1] == Trail(a) && v[1] == Trail(b);
    }
    assert u[|UnitsOf(a)|..] == p && v[|UnitsOf(b)|..] == q;
  }

  // ----- the order ----------------------------------------------------------------------

  predicate UnitsLess(a: seq<int>, b: seq<int>) {
    b != [] && (a == [] || a[0] < b[0] || (a[0] == b[0] && UnitsLess(a[1..], b[1..])))
  }

  predicate Less(s: string, t: string) {
    UnitsLess(Units(s), Units(t))
  }

  /** The comparison as it is made: the first differing unit decides, then the length. */
  method CompareKeys(s: string, t: string) returns (less: bool)
    ensures less == Less(s, t)
  {
    var a, b := Units(s), Units(t);
    var n := if |b| < |a| then |b| else |a|;
    for k := 0 to n
      invariant UnitsLess(a, b) == UnitsLess(a[k..], b[k..])
    {
      if a[k] != b[k] {
        return a[k] < b[k];
      }
      assert a[k..][1..] == a[k + 1..] && b[k..][1..] == b[k + 1..];
    }
    less := |a| < |b|;
  }

  lemma {:induction false} UnitsTrichotomy(a: seq<int>, b: seq<int>)
    ensures !(UnitsLess(a, b) && UnitsLess(b, a))
    ensures UnitsLess(a, b) || a == b || UnitsLess(b, a)
    ensures a == b ==> !UnitsLess(a, b)
  {
    if a != [] && b != [] {
      UnitsTrichotomy(a[1..], b[1..]);
      assert a == [a[0]] + a[1..] && b == [b[0]] + b[1..];
    }
  }

  lemma {:induction false} UnitsTransitive(a: seq<int>, b: seq<int>, c: seq<int>)
    requires UnitsLess(a, b) && UnitsLess(b, c)
    ensures UnitsLess(a, c)
  {
    if a != [] && a[0] == b[0] == c[0] {
      UnitsTransitive(a[1..], b[1..], c[1..]);
    }
  }

  /** A strict total order: of two keys exactly one of less, equal and greater holds. */
  lemma LessIsTotal(s: string, t: string)
    ensures !(Less(s, t) && Less(t, s)) && !Less(s, s)
    ensures Less(s, t) || s == t || Less(t, s)
  {
    UnitsTrichotomy(Units(s), Units(t));
    UnitsTrichotomy(Units(s), Units(s));
    if Units(s) == Units(t) {
      UnitsInjective(s, t);
    }
  }

  lemma LessIsTransitive(s: string, t: string, u: string)
    requires Less(s, t) && Less(t, u)
    ensures Less(s, u)
  {
    UnitsTransitive(Units(s), Units(t), Units(u));
  }

  // ----- the order by position ----------------------------------------------------------

  /** The first `k` units agree and the next one decides: `a` ends there or has the lower unit. */
  predicate LowerAt(a: seq<int>, b: seq<int>, k: nat) {
    k <= |a| && k < |b| && a[..k] == b[..k] && (k == |a| || a[k] < b[k])
  }

  lemma {:induction false} LowerAtLater(a: seq<int>, b: seq<int>, k: nat)
    requires a != [] && b != [] && k > 0
    ensures LowerAt(a, b, k) <==> a[0] == b[0] && LowerAt(a[1..], b[1..], k - 1)
  {
    if k <= |a| && k <= |b| {
      assert a[..k] == [a[0]] + a[1..][..k - 1] && b[..k] == [b[0]] + b[1..][..k - 1];
      assert a[..k][1..] == a[1..][..k - 1] && b[..k][1..] == b[1..][..k - 1];
    }
  }

  lemma {:induction false} LowerIsLess(a: seq<int>, b: seq<int>, k: nat)
    requires LowerAt(a, b, k)
    ensures UnitsLess(a, b)
  {
    if k > 0 {
      LowerAtLater(a, b, k);
      LowerIsLess(a[1..], b[1..], k - 1);
    }
  }

  lemma {:induction false} LessIsLower(a: seq<int>, b: seq<int>) returns (k: nat)
    requires UnitsLess(a, b)
    ensures LowerAt(a, b, k)
  {
    if a == [] || a[0] < b[0] {
      k := 0;
    } else {
      k := LessIsLower(a[1..], b[1..]);
      k := k + 1;
      LowerAtLater(a, b, k);
    }
  }

  /** Which of two keys comes first: the one that ends, or has the lower unit, where they part. */
  lemma {:induction false} LessByPosition(s: string, t: string, a: seq<int>, b: seq<int>)
    requires a == Units(s) && b == Units(t)
    ensures Less(s, t) <==> exists k: nat :: LowerAt(a, b, k)
  {
    UnitsLessByPosition(a, b);
  }

  lemma {:induction false} UnitsLessByPosition(a: seq<int>, b: seq<int>)
    ensures UnitsLess(a, b) <==> exists k: nat :: LowerAt(a, b, k)
  {
    if UnitsLess(a, b) {
      var k := LessIsLower(a, b);
    } else if k: nat :| LowerAt(a, b, k) {
      LowerIsLess(a, b, k);
    }
  }

  lemma {:induction false} UnitsConcat(s: string, t: string)
    ensures Units(s + t) == Units(s) + Units(t)
  {
    if s == [] {
      assert s + t == t;
    } else {
      UnitsConcat(s[1..], t);
      Head(s);
      Assoc([s[0]], s[1..], t);
      Assoc(UnitsOf(s[0]), Units(s[1..]), Units(t));
    }
  }

  /** A key comes before every longer key that it begins. */
  lemma PrefixIsLess(s: string, rest: string)
    requires rest != []
    ensures Less(s, s + rest)
  {
    UnitsConcat(s, rest);
    LowerIsLess(Units(s), Units(s + rest), |Units(s)|);
  }

  /** Keys that part at a rune of the basic plane are ordered by that rune. */
  lemma RuneDecides(s: string, c: char, d: char, rest: string, other: string)
    requires c as int < d as int < 0x1_0000
    ensures Less(s + [c] + rest, s + [d] + other)
  {
    UnitsConcat(s + [c], rest);
    UnitsConcat(s, [c]);
    UnitsConcat(s + [d], other);
    UnitsConcat(s, [d]);
    assert [c][1..] == [] && [d][1..] == [];
    LowerIsLess(Units(s + [c] + rest), Units(s + [d] + other), |Units(s)|);
  }

  // ----- sorted keys --------------------------------------------------------------------

  ghost predicate Sorted(keys: seq<string>) {
    forall i, j | 0 <= i < j < |keys| :: Less(keys[i], keys[j])
  }

  ghost function Elements(keys: seq<string>): set<string> {
    set i | 0 <= i < |keys| :: keys[i]
  }

  ghost predicate Enumerates(keys: seq<string>, s: set<string>) {
    (forall i | 0 <= i < |keys| :: keys[i] in s) && (forall k | k in s :: k in keys)
  }

  /** Ascending enumerations of one set are equal. */
  lemma {:induction false} SortedUnique(a: seq<string>, b: seq<string>, s: set<string>)
    requires Sorted(a) && Sorted(b) && Enumerates(a, s) && Enumerates(b, s)
    ensures a == b
    decreases |a|
  {
    assert a != [] ==> a[0] in s;
    assert b != [] ==> b[0] in s;
    if a != [] {
      LessIsTotal(a[0], b[0]);
      RestEnumerates(a, s);
      RestEnumerates(b, s);
      SortedUnique(a[1..], b[1..], s - {a[0]});
      assert a == [a[0]] + a[1..] && b == [b[0]] + b[1..];
    }
  }

  lemma RestEnumerates(a: seq<string>, s: set<string>)
    requires a != [] && Sorted(a) && Enumerates(a, s)
    ensures Sorted(a[1..]) && Enumerates(a[1..], s - {a[0]})
  {
    LessIsTotal(a[0], a[0]);
    var rest := a[1..];
    forall i | 0 <= i < |rest| ensures rest[i] in s - {a[0]} {
      assert rest[i] == a[i + 1] && Less(a[0], a[i + 1]);
    }
    forall k | k in s - {a[0]} ensures k in rest {
      var i :| 0 <= i < |a| && a[i] == k;
      assert rest[i - 1] == k;
    }
  }

  /** Where `k` goes in an ascending list that lacks it. */
  lemma InsertSorted(a: seq<string>, k: string, at: nat)
    requires Sorted(a) && at <= |a|
    requires (forall i | 0 <= i < at :: Less(a[i], k)) && (forall i | at <= i < |a| :: Less(k, a[i]))
    ensures Sorted(a[..at] + [k] + a[at..])
  {
  }

  lemma InsertKey(a: seq<string>, s: set<string>, k: string, at: nat)
    requires Sorted(a) && Enumerates(a, s) && k !in s && at <= |a|
    requires (forall i | 0 <= i < at :: Less(a[i], k)) && (forall i | at <= i < |a| :: Less(k, a[i]))
    ensures Sorted(a[..at] + [k] + a[at..]) && Enumerates(a[..at] + [k] + a[at..], s + {k})
  {
    InsertSorted(a, k, at);
    var r := a[..at] + [k] + a[at..];
    forall x | x in s + {k} ensures x in r {
      if x != k {
        var i :| 0 <= i < |a| && a[i] == x;
        assert x == if i < at then r[i] else r[i + 1];
      } else {
        assert r[at] == k;
      }
    }
  }

  /** The search for a key's place from the end. */
  method FindPlace(sorted: seq<string>, key: string) returns (at: nat)
    ensures at <= |sorted| && (at > 0 ==> !Less(key, sorted[at - 1]))
    ensures forall i | at <= i < |sorted| :: Less(key, sorted[i])
  {
    at := |sorted|;
    while at > 0
      invariant 0 <= at <= |sorted|
      invariant forall i | at <= i < |sorted| :: Less(key, sorted[i])
    {
      var before := CompareKeys(key, sorted[at - 1]);
      if !before {
        return;
      }
      at := at - 1;
    }
  }

  /** Sorting by insertion with the comparison above. */
  method SortKeys(keys: seq<string>, ghost s: set<string>) returns (sorted: seq<string>)
    requires Enumerates(keys, s) && forall i, j | 0 <= i < j < |keys| :: keys[i] != keys[j]
    ensures Sorted(sorted) && Enumerates(sorted, s)
  {
    sorted := [];
    ghost var seen: set<string> := {};
    for n := 0 to |keys|
      invariant seen == Elements(keys[..n])
      invariant Sorted(sorted) && Enumerates(sorted, seen)
    {
      var key := keys[n];
      assert key !in seen;
      var at := FindPlace(sorted, key);
      PlaceIsFound(sorted, seen, key, at);
      InsertKey(sorted, seen, key, at);
      sorted := sorted[..at] + [key] + sorted[at..];
      seen := seen + {key};
      assert keys[..n + 1] == keys[..n] + [key];
    }
    assert keys[..|keys|] == keys;
    assert seen == s;
  }

  lemma PlaceIsFound(a: seq<string>, s: set<string>, key: string, at: nat)
    requires Sorted(a) && Enumerates(a, s) && key !in s && at <= |a| && (at > 0 ==> !Less(key, a[at - 1]))
    ensures forall i | 0 <= i < at :: Less(a[i], key)
  {
    if at > 0 {
      LessIsTotal(key, a[at - 1]);
      forall i | 0 <= i < at ensures Less(a[i], key) {
        if i < at - 1 {
          LessIsTransitive(a[i], a[at - 1], key);
        }
      }
    }
  }

  lemma {:induction false} SortedExists(s: set<string>) returns (a: seq<string>)
    ensures Sorted(a) && Enumerates(a, s)
    decreases |s|
  {
    if s == {} {
      a := [];
    } else {
      var k :| k in s;
      var b := SortedExists(s - {k});
      var at := 0;
      while at < |b| && Less(b[at], k)
        invariant at <= |b| && forall i | 0 <= i < at :: Less(b[i], k)
      {
        at := at + 1;
      }
      forall i | at <= i < |b| ensures Less(k, b[i]) {
        LessIsTotal(b[at], k);
        if i > at {
          LessIsTransitive(k, b[at], b[i]);
        }
      }
      InsertKey(b, s - {k}, k, at);
      a := b[..at] + [k] + b[at..];
      assert s - {k} + {k} == s;
    }
  }

  lemma SortedKeysExist(s: set<string>)
    ensures exists a :: Sorted(a) && Enumerates(a, s)
  {
    var a := SortedExists(s);
  }

  /** The keys of an object in ascending order. */
  ghost function SortedKeys(s: set<string>): (a: seq<string>)
    ensures Sorted(a) && Enumerates(a, s)
  {
    SortedKeysExist(s);
    var a :| Sorted(a) && Enumerates(a, s);
    a
  }
}
