/** A stable sort by a numeric key. */
module StableSort {
  function Insert<T(==)>(key: T -> nat, x: T, s: seq<T>): (r: seq<T>)
    ensures |r| == |s| + 1 && multiset(r) == multiset(s) + multiset{x}
  {
    if s == [] || key(x) <= key(s[0]) then [x] + s
    else
      assert s == [s[0]] + s[1..];
      [s[0]] + Insert(key, x, s[1..])
  }

  function SortBy<T(==)>(key: T -> nat, s: seq<T>): (r: seq<T>)
    ensures |r| == |s| && multiset(r) == multiset(s)
  {
    if s == [] then []
    else
      assert s == [s[0]] + s[1..];
      Insert(key, s[0], SortBy(key, s[1..]))
  }

  ghost predicate Sorted<T>(key: T -> nat, s: seq<T>) {
    s == [] || ((forall x | x in s[1..] :: key(s[0]) <= key(x)) && Sorted(key, s[1..]))
  }

  /** No two different elements have one key. */
  ghost predicate NoTies<T(!new)>(key: T -> nat, s: multiset<T>) {
    forall x, y | x in s && y in s && key(x) == key(y) :: x == y
  }

  function IfKey<T>(key: T -> nat, x: T, n: nat): seq<T> {
    if key(x) == n then [x] else []
  }

  /** The elements with key `n`, in order. */
  function WithKey<T>(key: T -> nat, s: seq<T>, n: nat): seq<T> {
    if s == [] then [] else IfKey(key, s[0], n) + WithKey(key, s[1..], n)
  }

  lemma {:induction false} InsertSorted<T>(key: T -> nat, x: T, s: seq<T>)
    requires Sorted(key, s)
    ensures Sorted(key, Insert(key, x, s))
  {
    if s == [] || key(x) <= key(s[0]) {
      assert ([x] + s)[1..] == s;
    } else {
      InsertSorted(key, x, s[1..]);
      var tail := Insert(key, x, s[1..]);
      assert ([s[0]] + tail)[1..] == tail;
      forall d | d in tail ensures key(s[0]) <= key(d) {
        assert d in multiset(tail);
      }
    }
  }

  lemma WithKeyFront<T>(key: T -> nat, x: T, rest: seq<T>, n: nat)
    ensures WithKey(key, [x] + rest, n) == IfKey(key, x, n) + WithKey(key, rest, n)
  {
    assert ([x] + rest)[1..] == rest;
  }

  /** Two parts of which one is empty stand in either order. */
  lemma OneIsEmpty<T>(a: seq<T>, b: seq<T>, c: seq<T>)
    requires a == [] || b == []
    ensures a + (b + c) == b + (a + c)
  {
  }

  lemma {:induction false} InsertStable<T>(key: T -> nat, x: T, s: seq<T>, n: nat)
    ensures WithKey(key, Insert(key, x, s), n) == IfKey(key, x, n) + WithKey(key, s, n)
  {
    if s == [] || key(x) <= key(s[0]) {
      WithKeyFront(key, x, s, n);
    } else {
      var head, rest := s[0], s[1..];
      InsertStable(key, x, rest, n);
      WithKeyFront(key, head, Insert(key, x, rest), n);
      OneIsEmpty(IfKey(key, head, n), IfKey(key, x, n), WithKey(key, rest, n));
    }
  }

  /** The sort orders the elements and keeps those with one key in their order. */
  lemma {:induction false} SortByCorrect<T>(key: T -> nat, s: seq<T>, n: nat)
    ensures Sorted(key, SortBy(key, s)) && multiset(SortBy(key, s)) == multiset(s)
    ensures WithKey(key, SortBy(key, s), n) == WithKey(key, s, n)
  {
    if s != [] {
      SortByCorrect(key, s[1..], n);
      InsertSorted(key, s[0], SortBy(key, s[1..]));
      InsertStable(key, s[0], SortBy(key, s[1..]), n);
    }
  }

  /** Ordered means that no element stands after one with a higher key. */
  lemma {:induction false} SortedByPlace<T>(key: T -> nat, s: seq<T>)
    ensures Sorted(key, s) <==> forall i, j | 0 <= i < j < |s| :: key(s[i]) <= key(s[j])
  {
    if Sorted(key, s) {
      forall i, j | 0 <= i < j < |s| ensures key(s[i]) <= key(s[j]) {
        SortedAt(key, s, i, j);
      }
    }
    if forall i, j | 0 <= i < j < |s| :: key(s[i]) <= key(s[j]) {
      PlacesSorted(key, s);
    }
  }

  lemma {:induction false} SortedAt<T>(key: T -> nat, s: seq<T>, i: nat, j: nat)
    requires Sorted(key, s) && i < j < |s|
    ensures key(s[i]) <= key(s[j])
  {
    assert s[j] == s[1..][j - 1];
    if i > 0 {
      assert s[i] == s[1..][i - 1];
      SortedAt(key, s[1..], i - 1, j - 1);
    }
  }

  lemma {:induction false} PlacesSorted<T>(key: T -> nat, s: seq<T>)
    requires forall i, j | 0 <= i < j < |s| :: key(s[i]) <= key(s[j])
    ensures Sorted(key, s)
  {
    if s != [] {
      var rest := s[1..];
      forall i, j | 0 <= i < j < |rest| ensures key(rest[i]) <= key(rest[j]) {
        assert rest[i] == s[i + 1] && rest[j] == s[j + 1];
      }
      PlacesSorted(key, rest);
      forall x | x in rest ensures key(s[0]) <= key(x) {
        var j :| 0 <= j < |rest| && rest[j] == x;
        assert s[j + 1] == x;
      }
    }
  }

  lemma BagCancel<T>(a: multiset<T>, b: multiset<T>, x: T)
    requires a + multiset{x} == b + multiset{x}
    ensures a == b
  {
    assert a == a + multiset{x} - multiset{x} && b == b + multiset{x} - multiset{x};
  }

  lemma HeadBag<T>(s: seq<T>)
    requires s != []
    ensures multiset(s) == multiset(s[1..]) + multiset{s[0]}
  {
    assert s == [s[0]] + s[1..];
  }

  lemma HeadIsLeast<T>(key: T -> nat, s: seq<T>, x: T)
    requires Sorted(key, s) && x in multiset(s)
    ensures s != [] && key(s[0]) <= key(x) && s[0] in multiset(s)
  {
    assert s == [s[0]] + s[1..];
  }

  lemma HeadsAgree<T(!new)>(key: T -> nat, a: seq<T>, b: seq<T>)
    requires Sorted(key, a) && Sorted(key, b) && multiset(a) == multiset(b) && NoTies(key, multiset(a)) && a != []
    ensures b != [] && a[0] == b[0]
  {
    assert a[0] in multiset(a);
    HeadIsLeast(key, b, a[0]);
    HeadIsLeast(key, a, b[0]);
  }

  lemma {:induction false} SortedUnique<T(!new)>(key: T -> nat, a: seq<T>, b: seq<T>)
    requires Sorted(key, a) && Sorted(key, b) && multiset(a) == multiset(b) && NoTies(key, multiset(a))
    ensures a == b
  {
    if a == [] {
      assert |multiset(b)| == 0;
    } else {
      HeadsAgree(key, a, b);
      HeadBag(a);
      HeadBag(b);
      BagCancel(multiset(a[1..]), multiset(b[1..]), a[0]);
      SortedUnique(key, a[1..], b[1..]);
      assert a == [a[0]] + a[1..] && b == [b[0]] + b[1..];
    }
  }

  /** Without ties the order the elements came in does not matter. */
  lemma SortIgnoresOrder<T(!new)>(key: T -> nat, a: seq<T>, b: seq<T>)
    requires multiset(a) == multiset(b) && NoTies(key, multiset(a))
    ensures SortBy(key, a) == SortBy(key, b)
  {
    SortByCorrect(key, a, 0);
    SortByCorrect(key, b, 0);
    SortedUnique(key, SortBy(key, a), SortBy(key, b));
  }

  // ----- the sort named by what it keeps ------------------------------------------------

  lemma FirstWithKey<T>(key: T -> nat, s: seq<T>, n: nat)
    requires s != []
    ensures WithKey(key, s, n) == IfKey(key, s[0], n) + WithKey(key, s[1..], n)
  {
  }

  lemma {:induction false} KeyPresent<T>(key: T -> nat, s: seq<T>, n: nat) returns (x: T)
    requires WithKey(key, s, n) != []
    ensures x in s && key(x) == n
  {
    if key(s[0]) == n {
      x := s[0];
    } else {
      x := KeyPresent(key, s[1..], n);
    }
  }

  lemma HeadKeys<T>(key: T -> nat, a: seq<T>, b: seq<T>)
    requires Sorted(key, a) && Sorted(key, b) && a != []
    requires WithKey(key, a, key(a[0])) == WithKey(key, b, key(a[0]))
    ensures b != [] && key(b[0]) <= key(a[0])
  {
    var x := KeyPresent(key, b, key(a[0]));
    HeadIsLeast(key, b, x);
  }

  lemma CancelFront<T>(p: seq<T>, x: seq<T>, y: seq<T>)
    requires p + x == p + y
    ensures x == y
  {
    assert x == (p + x)[|p|..] && y == (p + y)[|p|..];
  }

  /** Ordered lists that keep the elements of every key in one order are equal. */
  lemma {:induction false} StableUnique<T>(key: T -> nat, a: seq<T>, b: seq<T>)
    requires Sorted(key, a) && Sorted(key, b) && forall n :: WithKey(key, a, n) == WithKey(key, b, n)
    ensures a == b
  {
    if a == [] {
      if b != [] {
        HeadKeys(key, b, a);
      }
    } else {
      HeadKeys(key, a, b);
      HeadKeys(key, b, a);
      var n := key(a[0]);
      assert WithKey(key, a, n)[0] == a[0] && WithKey(key, b, n)[0] == b[0];
      forall m ensures WithKey(key, a[1..], m) == WithKey(key, b[1..], m) {
        FirstWithKey(key, a, m);
        FirstWithKey(key, b, m);
        CancelFront(IfKey(key, a[0], m), WithKey(key, a[1..], m), WithKey(key, b[1..], m));
      }
      StableUnique(key, a[1..], b[1..]);
      assert a == [a[0]] + a[1..] && b == [b[0]] + b[1..];
    }
  }
}
