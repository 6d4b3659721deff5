/** The arithmetic of the log tree: split points, the route from a leaf to the head, and the
    route the verifiers find by shifting node numbers. No hashing takes place here. */
module SplitPoints {

  predicate IsPowerOfTwo(n: nat) {
    n == 1 || (n > 1 && n % 2 == 0 && IsPowerOfTwo(n / 2))
  }

  /** Doubling `k` while its double stays below `n`. */
  function DoubleBelow(k: nat, n: nat): (r: nat)
    requires 1 <= k < n
    ensures k <= r < n <= 2 * r
    decreases n - k
  {
    if 2 * k < n then DoubleBelow(2 * k, n) else k
  }

  function SplitPoint(n: nat): (k: nat)
    requires n >= 2
    ensures 1 <= k < n <= 2 * k
  {
    DoubleBelow(1, n)
  }

  method FindSplitPoint(n: nat) returns (k: nat)
    requires n >= 2
    ensures IsPowerOfTwo(k) && k < n <= 2 * k
    ensures k == SplitPoint(n)
  {
    k := 1;
    while k * 2 < n
      invariant 1 <= k < n && DoubleBelow(k, n) == SplitPoint(n)
      decreases n - k
    {
      k := k * 2;
    }
    SplitPointExact(n, k);
  }

  /** Halving a size, rounding up, halves its split point. */
  lemma {:induction false} SplitPointHalves(n: nat, up: nat)
    requires n > 2 && 2 * up - 1 <= n <= 2 * up
    ensures SplitPoint(n) == 2 * SplitPoint(up)
  {
    DoubleBelowHalves(1, n, up);
  }

  lemma {:induction false} DoubleBelowHalves(k: nat, n: nat, up: nat)
    requires 1 <= k < up && n > 2 && 2 * up - 1 <= n <= 2 * up
    ensures 2 * k < n && DoubleBelow(2 * k, n) == 2 * DoubleBelow(k, up)
    decreases up - k
  {
    if 2 * k < up {
      DoubleBelowHalves(2 * k, n, up);
    }
  }

  /** The split point is the one power of two `k` with `k < n <= 2 * k`. */
  lemma {:induction false} SplitPointExact(n: nat, k: nat)
    requires n >= 2
    ensures k == SplitPoint(n) <==> IsPowerOfTwo(k) && k < n <= 2 * k
  {
    if n > 2 {
      var up := (n + 1) / 2;
      SplitPointHalves(n, up);
      if k % 2 == 0 {
        SplitPointExact(up, k / 2);
      }
    }
  }

  /** Sizes between two consecutive powers of two split at the same point. */
  lemma {:induction false} SplitPointSame(m: nat, n: nat)
    requires 2 <= n && SplitPoint(n) < m <= n
    ensures SplitPoint(m) == SplitPoint(n)
  {
    DoubleBelowSame(1, m, n);
  }

  lemma {:induction false} DoubleBelowSame(k: nat, m: nat, n: nat)
    requires 1 <= k < n && DoubleBelow(k, n) < m <= n
    ensures DoubleBelow(k, m) == DoubleBelow(k, n)
    decreases n - k
  {
    if 2 * k < n {
      DoubleBelowSame(2 * k, m, n);
    }
  }

  // ----- routes -------------------------------------------------------------------------

  /** On which side of the path a sibling stands. */
  datatype Side = Left | Right

  /** The sides of the siblings on the way from leaf `m` to the head of an `n`-leaf tree. */
  function Route(m: nat, n: nat): seq<Side>
    requires m < n
    decreases n
  {
    if n == 1 then []
    else
      var k := SplitPoint(n);
      if m < k then Route(m, k) + [Right] else Route(m - k, n - k) + [Left]
  }

  /** The same for the last subtree shared by the trees of the first `m` and of all `n` leaves. */
  function OldRoute(m: nat, n: nat): seq<Side>
    requires 0 < m <= n
    decreases n
  {
    if m == n then []
    else
      var k := SplitPoint(n);
      if m <= k then OldRoute(m, k) + [Right] else OldRoute(m - k, n - k) + [Left]
  }

  /** The sides in the order the verifiers meet them, from node `f` of a level whose last node
      is `s`. A lone last node has no sibling on its level. */
  function Bits(f: nat, s: nat): seq<Side>
    requires f <= s
    decreases s
  {
    if s == 0 then []
    else if f % 2 == 1 then [Left] + Bits(f / 2, s / 2)
    else if f < s then [Right] + Bits(f / 2, s / 2)
    else Bits(f / 2, s / 2)
  }

  /** The levels on which the old tree is made of complete pairs are skipped. */
  function Skip(f: nat, s: nat): (r: (nat, nat))
    requires f <= s
    ensures r.0 <= r.1
  {
    if f % 2 == 1 then Skip(f / 2, s / 2) else (f, s)
  }

  function SideAt(odd: nat, last: bool): seq<Side> {
    if odd == 1 then [Left] else if last then [] else [Right]
  }

  lemma RouteGoesRight(k: nat, m: nat, n: nat)
    requires n >= 2 && k == SplitPoint(n) && m < n - k
    ensures Route(k + m, n) == Route(m, n - k) + [Left]
  {
  }

  lemma {:induction false} RouteOneLevelUp(m: nat, odd: nat, n: nat, up: nat)
    requires odd < 2 && 2 * m + odd < n && n >= 2 && 2 * up - 1 <= n <= 2 * up
    ensures Route(2 * m + odd, n) == SideAt(odd, 2 * m + 1 == n) + Route(m, up)
    decreases n, 1
  {
    if n > 2 {
      var k := SplitPoint(up);
      if m < k {
        SplitPointHalves(n, up);
        RouteOneLevelUp(m, odd, 2 * k, k);
      } else {
        RouteRightUp(k, m - k, odd, n, up);
      }
    }
  }

  lemma {:induction false} RouteRightUp(k: nat, m: nat, odd: nat, n: nat, up: nat)
    requires odd < 2 && 2 * k + 2 * m + odd < n && n > 2 && 2 * up - 1 <= n <= 2 * up && k == SplitPoint(up)
    ensures Route(2 * k + 2 * m + odd, n) == SideAt(odd, 2 * k + 2 * m + 1 == n) + Route(k + m, up)
    decreases n, 0
  {
    SplitPointHalves(n, up);
    RouteGoesRight(2 * k, 2 * m + odd, n);
    RouteGoesRight(k, m, up);
    if n - 2 * k >= 2 {
      RouteOneLevelUp(m, odd, n - 2 * k, up - k);
    }
  }

  lemma {:induction false} BitsAreRoute(f: nat, s: nat)
    requires f <= s
    ensures Bits(f, s) == Route(f, s + 1)
    decreases s
  {
    if s > 0 {
      RouteOneLevelUp(f / 2, f % 2, s + 1, s / 2 + 1);
      BitsAreRoute(f / 2, s / 2);
    }
  }

  lemma {:induction false} OldRouteOneLevelUp(m: nat, n: nat, up: nat)
    requires 0 < 2 * m <= n && 2 * up - 1 <= n <= 2 * up
    ensures OldRoute(2 * m, n) == OldRoute(m, up)
    decreases n
  {
    if 2 * m < n {
      var k := SplitPoint(up);
      SplitPointHalves(n, up);
      if m <= k {
        OldRouteOneLevelUp(m, 2 * k, k);
      } else {
        OldRouteOneLevelUp(m - k, n - 2 * k, up - k);
      }
    }
  }

  lemma {:induction false} OldRouteAtOddSize(j: nat, n: nat, up: nat)
    requires 2 * j + 1 < n && 2 * up - 1 <= n <= 2 * up
    ensures OldRoute(2 * j + 1, n) == Route(2 * j, n)
    decreases n
  {
    if n > 2 {
      var k := SplitPoint(up);
      SplitPointHalves(n, up);
      if j < k {
        OldRouteAtOddSize(j, 2 * k, k);
      } else {
        OldRouteAtOddSize(j - k, n - 2 * k, up - k);
      }
    }
  }

  /** The sides the consistency verifier meets after skipping. */
  function OldBits(m: nat, n: nat): seq<Side>
    requires 0 < m <= n
  {
    var (f, s) := Skip(m - 1, n - 1);
    Bits(f, s)
  }

  lemma {:induction false} OldBitsAreOldRoute(m: nat, n: nat)
    requires 0 < m < n
    ensures OldBits(m, n) == OldRoute(m, n)
    decreases n
  {
    var j, up := Halves(m, n);
    if m == 2 * j {
      OldRouteOneLevelUp(j, n, up);
      OldBitsAreOldRoute(j, up);
    } else {
      OldBitsAtOddSize(j, n);
      OldRouteAtOddSize(j, n, up);
    }
  }

  lemma Halves(m: nat, n: nat) returns (j: nat, up: nat)
    ensures m == 2 * j || m == 2 * j + 1
    ensures 2 * up - 1 <= n <= 2 * up
  {
    j, up := m / 2, (n + 1) / 2;
  }

  lemma OldBitsAtOddSize(j: nat, n: nat)
    requires 2 * j + 1 < n
    ensures OldBits(2 * j + 1, n) == Route(2 * j, n)
  {
    BitsAreRoute(2 * j, n - 1);
  }
}
