/** The shortest and nearest digits of a double that integers read as are unique: two choices as
    short and as near would lie on either side of it, and then a third is better. So every
    engine writes an integer alike, and keeps it exactly when the integer's own digits are the
    best for its double. */
module UniqueDigits {
  import opened Hashing
  import opened Encoding
  import opened Json
  import opened NumberText
  import opened Sequences
  import opened DoubleText

  // ----- powers -------------------------------------------------------------------------

  function Two(k: nat): (t: nat)
    ensures t > 0
  {
    if k == 0 then 1 else 2 * Two(k - 1)
  }

  function Five(k: nat): (t: nat)
    ensures t > 0 && t % 2 == 1
  {
    if k == 0 then 1 else 5 * Five(k - 1)
  }

  lemma {:induction false} TwoSum(a: nat, b: nat)
    ensures Two(a + b) == Two(a) * Two(b)
  {
    if a > 0 {
      TwoSum(a - 1, b);
      assert Two(a + b) == 2 * Two(a - 1 + b);
    }
  }

  lemma {:induction false} TenSum(a: nat, b: nat)
    ensures Ten(a + b) == Ten(a) * Ten(b)
  {
    if a > 0 {
      TenSum(a - 1, b);
      assert Ten(a + b) == 10 * Ten(a - 1 + b);
    }
  }

  lemma {:induction false} TenFactors(k: nat)
    ensures Ten(k) == Two(k) * Five(k) >= Two(k)
  {
    if k > 0 {
      TenFactors(k - 1);
    }
  }

  lemma {:induction false} TwoOrder(a: nat, b: nat)
    requires a < b
    ensures Two(a) < Two(b)
  {
    if a > 0 {
      TwoOrder(a - 1, b - 1);
    } else if b > 1 {
      TwoOrder(0, b - 1);
    }
  }

  // ----- rounding -----------------------------------------------------------------------

  function Exponent(m: nat): nat {
    if m < SAFE then 0 else 1 + Exponent(m / 2)
  }

  lemma {:induction false} UlpRange(m: nat)
    ensures Ulp(m) == Two(Exponent(m)) && m < SAFE * Ulp(m)
    ensures m >= SAFE ==> SAFE / 2 * Ulp(m) <= m
  {
    if m >= SAFE {
      UlpRange(m / 2);
    }
  }

  lemma {:induction false} ExponentOrder(m: nat, n: nat)
    requires m <= n
    ensures Exponent(m) <= Exponent(n)
  {
    if m >= SAFE {
      ExponentOrder(m / 2, n / 2);
    }
  }

  /** The multiple of `u` nearest to `q` of them and `over` more. */
  function Nearest(q: nat, over: nat, u: nat): nat {
    if 2 * over < u || (2 * over == u && q % 2 == 0) then q else q + 1
  }

  function Multiple(m: nat): nat {
    Nearest(m / Ulp(m), m % Ulp(m), Ulp(m))
  }

  /** A double is a multiple of its unit, no further than half of it. */
  lemma {:induction false} DoubleIsMultiple(m: nat)
    ensures Double(m) == Multiple(m) * Ulp(m)
    ensures 2 * (m - Double(m)) <= Ulp(m) && 2 * (Double(m) - m) <= Ulp(m)
  {
    RoundedIsMultiple(m, Ulp(m), m / Ulp(m), m % Ulp(m));
  }

  lemma RoundedIsMultiple(m: nat, u: nat, q: nat, over: nat)
    requires u > 0 && q == m / u && over == m % u
    ensures (if Nearest(q, over, u) == q then m - over else m - over + u) == Nearest(q, over, u) * u
    ensures if Nearest(q, over, u) == q then 2 * over <= u else u <= 2 * over
  {
    Divide(m, u);
    NextMultiple(q, u);
  }

  lemma Divide(m: nat, u: nat)
    requires u > 0
    ensures m == m / u * u + m % u && m % u < u
  {
  }

  lemma NextMultiple(q: nat, u: nat)
    ensures (q + 1) * u == q * u + u
  {
  }

  lemma Scaled(a: nat, b: nat, u: nat)
    requires a <= b
    ensures a * u <= b * u
  {
  }

  lemma NearestAtMost(q: nat, over: nat, c: nat, u: nat)
    requires over < u && q * u + over <= c * u
    ensures Nearest(q, over, u) <= c
  {
    if c < q {
      NextMultiple(c, u);
      Scaled(c + 1, q, u);
    }
  }

  lemma NearestAtLeast(q: nat, over: nat, c: nat, u: nat)
    requires over < u && c * u <= q * u + over
    ensures c <= Nearest(q, over, u)
  {
    if q + 1 <= c {
      NextMultiple(q, u);
      Scaled(q + 1, c, u);
    }
  }

  /** Rounding does not pass a multiple of the unit. */
  lemma {:induction false} RoundsUpTo(m: nat, c: nat)
    requires m <= c * Ulp(m)
    ensures Double(m) <= c * Ulp(m)
  {
    DoubleIsMultiple(m);
    Divide(m, Ulp(m));
    NearestAtMost(m / Ulp(m), m % Ulp(m), c, Ulp(m));
    Scaled(Multiple(m), c, Ulp(m));
  }

  lemma {:induction false} RoundsDownTo(m: nat, c: nat)
    requires c * Ulp(m) <= m
    ensures c * Ulp(m) <= Double(m)
  {
    DoubleIsMultiple(m);
    Divide(m, Ulp(m));
    NearestAtLeast(m / Ulp(m), m % Ulp(m), c, Ulp(m));
    Scaled(c, Multiple(m), Ulp(m));
  }

  lemma {:induction false} MonotoneInside(m: nat, n: nat)
    requires m <= n && Ulp(m) == Ulp(n)
    ensures Double(m) <= Double(n)
  {
    var u := Ulp(m);
    DoubleIsMultiple(m);
    DoubleIsMultiple(n);
    QuotientsAscend(m, n, u, m / u, m % u, n / u, n % u);
    NearestAscends(m / u, m % u, n / u, n % u, u);
    Scaled(Multiple(m), Multiple(n), u);
  }

  lemma QuotientsAscend(m: nat, n: nat, u: nat, q: nat, over: nat, p: nat, rest: nat)
    requires u > 0 && m <= n && q == m / u && over == m % u && p == n / u && rest == n % u
    ensures over < u && rest < u && q <= p && (q == p ==> over <= rest)
  {
    Divide(m, u);
    Divide(n, u);
    if p < q {
      NextMultiple(p, u);
      Scaled(p + 1, q, u);
    }
  }

  lemma NearestAscends(q: nat, over: nat, p: nat, rest: nat, u: nat)
    requires over < u && rest < u && q <= p && (q == p ==> over <= rest)
    ensures Nearest(q, over, u) <= Nearest(p, rest, u)
  {
  }

  lemma {:induction false} Monotone(m: nat, n: nat)
    requires m <= n
    ensures Double(m) <= Double(n)
  {
    UlpRange(m);
    UlpRange(n);
    ExponentOrder(m, n);
    if Exponent(m) == Exponent(n) {
      MonotoneInside(m, n);
    } else {
      MonotoneAcross(m, n, Exponent(n) - Exponent(m));
    }
  }

  /** Between units there is a power of two that neither rounds past. */
  lemma {:induction false} MonotoneAcross(m: nat, n: nat, g: nat)
    requires m <= n && Exponent(n) == g + Exponent(m) && g > 0
    ensures Double(m) <= Double(n)
  {
    UlpRange(m);
    UlpRange(n);
    ExponentOfLarge(n);
    TwoSum(g, Exponent(m));
    CommonMultiple(Two(g - 1), Ulp(m), Ulp(n));
    RoundsUpTo(m, SAFE * Two(g - 1));
    RoundsDownTo(n, SAFE / 2);
  }

  lemma ExponentOfLarge(n: nat)
    requires Exponent(n) > 0
    ensures n >= SAFE
  {
  }

  lemma CommonMultiple(h: nat, u: nat, v: nat)
    requires h > 0 && v == 2 * h * u
    ensures SAFE * u <= SAFE * h * u == SAFE / 2 * v
  {
    Scaled(1, h, u);
    Regroup(SAFE, h, u);
    Regroup(2, h, u);
  }

  /** What lies between two integers that read alike reads like them. */
  lemma Between(v: nat, w: nat, z: nat)
    requires v <= w <= z && Double(v) == Double(z)
    ensures Double(w) == Double(v)
  {
    Monotone(v, w);
    Monotone(w, z);
  }

  // ----- ties ---------------------------------------------------------------------------

  /** Half a sum that is a multiple of a power of two is one only if the sum's other factor is
      even. */
  lemma {:induction false} HalfOfSum(x: nat, s: nat, p: nat, e: nat, c: nat)
    requires 2 * x == s * Ten(p) && x == c * Two(e) && p <= e
    ensures s % 2 == 0 && x == s / 2 * Ten(p)
  {
    TenFactors(p);
    TwoSum(e - p, p);
    assert e - p + p == e;
    Regroup(c, Two(e - p), Two(p));
    Regroup(s, Five(p), Two(p));
    Regroup(2, c * Two(e - p), Two(p));
    Cancel(2 * (c * Two(e - p)), s * Five(p), Two(p));
    if s % 2 == 1 {
      OddProduct(s, Five(p));
    }
    Regroup(2, s / 2, Ten(p));
  }

  lemma Regroup(a: nat, b: nat, c: nat)
    ensures a * (b * c) == a * b * c == a * (c * b)
  {
  }

  lemma Cancel(a: nat, b: nat, u: nat)
    requires u > 0 && a * u == b * u
    ensures a == b
  {
    if a < b {
      NextMultiple(a, u);
      Scaled(a + 1, b, u);
    } else if b < a {
      NextMultiple(b, u);
      Scaled(b + 1, a, u);
    }
  }

  lemma OddProduct(s: nat, f: nat)
    requires s % 2 == 1 && f % 2 == 1
    ensures s * f % 2 == 1
  {
    assert s == 2 * (s / 2) + 1;
    assert s * f == 2 * (s / 2 * f) + f;
  }

  /** The middle of a tie is as round as its ends. */
  lemma {:induction false} MiddleIsRound(x: nat, a: nat, b: nat, p: nat)
    requires a < b && 2 * x == (a + b) * Ten(p) && Double(a * Ten(p)) == x
    ensures (a + b) % 2 == 0 && x == (a + b) / 2 * Ten(p)
  {
    var v := a * Ten(p);
    SumScaled(a, b, Ten(p));
    NextMultiple(a, Ten(p));
    Scaled(a + 1, b, Ten(p));
    DoubleIsMultiple(v);
    MiddleFits(p, v);
    HalfOfSum(x, a + b, p, Exponent(v), Multiple(v));
  }

  lemma {:induction false} MiddleFits(p: nat, v: nat)
    requires Ten(p) <= Ulp(v)
    ensures p <= Exponent(v) && Ulp(v) == Two(Exponent(v))
  {
    UlpRange(v);
    TenFactors(p);
    if Exponent(v) < p {
      TwoOrder(Exponent(v), p);
    }
  }

  // ----- readings -----------------------------------------------------------------------

  lemma {:induction false} NumeralZeros(d: Bytes, k: nat)
    requires AllDigits(d)
    ensures Numeral(d + Zeros(k)) == Numeral(d) * Ten(k)
  {
    if k == 0 {
      assert d + Zeros(0) == d;
    } else {
      NumeralZeros(d, k - 1);
      OneMoreZero(d, k);
      Regroup(Numeral(d), 10, Ten(k - 1));
    }
  }

  lemma {:induction false} OneMoreZero(d: Bytes, k: nat)
    requires AllDigits(d) && k > 0
    ensures Numeral(d + Zeros(k)) == 10 * Numeral(d + Zeros(k - 1))
  {
    NumeralZero(d + Zeros(k - 1));
    assert d + Zeros(k) == d + Zeros(k - 1) + ['0'];
  }

  function Round(c: nat, p: nat): Reading {
    Reading(Decimal(c), |Decimal(c)| + p)
  }

  lemma RoundReads(c: nat, p: nat)
    requires c > 0
    ensures c * Ten(p) > 0 && Spells(Round(c, p), Double(c * Ten(p)))
    ensures Numeral(Digits(Round(c, p))) == c * Ten(p) && |Decimal(c)| + p == |Decimal(c * Ten(p))|
  {
    NumeralOfDecimal(c);
    NumeralZeros(Decimal(c), p);
    DigitsAreDecimal(Round(c, p), Double(c * Ten(p)));
  }

  function IntegerOf(r: Reading): nat
    requires AllDigits(r.digits) && |r.digits| <= r.point
  {
    Numeral(Digits(r))
  }

  /** A reading's value: its digits scaled, and as long in decimals as its point says. */
  lemma ValueOf(r: Reading, x: nat)
    requires Spells(r, x)
    ensures IntegerOf(r) == Numeral(r.digits) * Ten(r.point - |r.digits|) && |Decimal(IntegerOf(r))| == r.point
    ensures IntegerOf(r) > 0 && Double(IntegerOf(r)) == x
  {
    NumeralZeros(r.digits, r.point - |r.digits|);
    DigitsAreDecimal(r, x);
    DecimalOfNumeral(Digits(r));
  }

  /** No two best readings lie on either side. */
  lemma {:induction false} NoTie(r: Reading, q: Reading, x: nat)
    requires IsBest(r, x) && IsBest(q, x)
    ensures IntegerOf(r) >= IntegerOf(q)
  {
    if IntegerOf(r) < IntegerOf(q) {
      ValueOf(r, x);
      ValueOf(q, x);
      assert NoBetter(r, q, x) && NoBetter(q, r, x);
      DecimalOrder(IntegerOf(r), IntegerOf(q));
      TieIsBeaten(r, q, x, r.point - |r.digits|, q.point - r.point);
    }
  }

  lemma DecimalOrder(m: nat, n: nat)
    requires 0 < m <= n
    ensures |Decimal(m)| <= |Decimal(n)|
  {
    DecimalLength(n, |Decimal(n)|);
    DecimalLength(m, |Decimal(n)|);
  }

  /** Some reading of `x` is better than `r`. */
  ghost predicate IsBeaten(r: Reading, x: nat)
    requires Spells(r, x)
  {
    exists o | Spells(o, x) :: !NoBetter(r, o, x)
  }

  lemma {:induction false} TieIsBeaten(r: Reading, q: Reading, x: nat, p: nat, g: nat)
    requires Spells(r, x) && Spells(q, x) && IntegerOf(r) < IntegerOf(q) && Distance(q, x) == Distance(r, x)
    requires r.point == |r.digits| + p && q.point == |q.digits| + p + g
    ensures IsBeaten(r, x)
  {
    var a := ValueAt(r, x, p, 0);
    var b := ValueAt(q, x, p, g);
    TieOfMultiples(r, q, x, p, a, b);
  }

  lemma {:induction false} TieOfMultiples(r: Reading, q: Reading, x: nat, p: nat, a: nat, b: nat)
    requires Spells(r, x) && Spells(q, x) && r.point == |r.digits| + p
    requires IntegerOf(r) == a * Ten(p) && IntegerOf(q) == b * Ten(p)
    requires IntegerOf(r) < x < IntegerOf(q) && x - IntegerOf(r) == IntegerOf(q) - x
    ensures IsBeaten(r, x)
  {
    ValueOf(r, x);
    EndsOfTie(a, b, Ten(p), x);
    MiddleIsRound(x, a, b, p);
    MiddleIsBetter(r, q, x, p, (a + b) / 2);
  }

  lemma {:induction false} ValueAt(q: Reading, x: nat, p: nat, g: nat) returns (a: nat)
    requires Spells(q, x) && q.point == |q.digits| + p + g
    ensures IntegerOf(q) == a * Ten(p)
  {
    a := Numeral(q.digits) * Ten(g);
    NumeralZeros(q.digits, q.point - |q.digits|);
    ScaledTwice(Numeral(q.digits), q.point - |q.digits|, g, p);
  }

  lemma ScaledTwice(n: nat, k: nat, g: nat, p: nat)
    requires k == g + p
    ensures n * Ten(k) == n * Ten(g) * Ten(p)
  {
    TenSum(g, p);
    Regroup(n, Ten(g), Ten(p));
  }

  lemma EndsOfTie(a: nat, b: nat, u: nat, x: nat)
    requires a * u < b * u && x - a * u == b * u - x
    ensures a < b && 2 * x == (a + b) * u
  {
    if b <= a {
      Scaled(b, a, u);
    }
    SumScaled(a, b, u);
  }

  lemma SumScaled(a: nat, b: nat, u: nat)
    ensures (a + b) * u == a * u + b * u
  {
  }

  lemma {:induction false} MiddleIsBetter(r: Reading, q: Reading, x: nat, p: nat, c: nat)
    requires Spells(r, x) && Spells(q, x) && IntegerOf(r) < x < IntegerOf(q)
    requires r.point == |r.digits| + p && x == c * Ten(p)
    ensures IsBeaten(r, x)
  {
    ValueOf(r, x);
    ValueOf(q, x);
    if |Decimal(x)| <= r.point {
      Between(IntegerOf(r), x, IntegerOf(q));
      RoundReads(c, p);
      NearerBeats(r, Round(c, p), x);
    } else {
      PowerIsBetter(r, q, x);
    }
  }

  lemma {:induction false} PowerIsBetter(r: Reading, q: Reading, x: nat)
    requires Spells(r, x) && Spells(q, x) && IntegerOf(r) < x < IntegerOf(q) && |Decimal(x)| > r.point
    requires |Decimal(IntegerOf(r))| == r.point && IntegerOf(r) > 0
    requires Double(IntegerOf(r)) == x && Double(IntegerOf(q)) == x
    ensures IsBeaten(r, x)
  {
    DecimalLength(x, r.point);
    DecimalLength(IntegerOf(r), r.point);
    Between(IntegerOf(r), Ten(r.point), IntegerOf(q));
    OneReads(r.point);
    NearerBeats(r, Round(1, r.point), x);
  }

  lemma NearerBeats(r: Reading, o: Reading, x: nat)
    requires Spells(r, x) && Spells(o, x) && |o.digits| <= |r.digits| && IntegerOf(r) < IntegerOf(o) <= x
    ensures IsBeaten(r, x)
  {
    assert !NoBetter(r, o, x);
  }

  lemma OneReads(p: nat)
    ensures Spells(Round(1, p), Double(Ten(p))) && IntegerOf(Round(1, p)) == Ten(p) && |Round(1, p).digits| == 1
  {
    RoundReads(1, p);
  }

  // ----- one choice ---------------------------------------------------------------------

  /** An integer's own digits without the zeros that end them. */
  function Own(m: nat): Reading {
    Normal(Reading(Decimal(m), |Decimal(m)|))
  }

  lemma {:induction false} TrimKeeps(r: Reading)
    requires r.digits != [] && AllDigits(r.digits) && r.digits[0] != '0' && |r.digits| <= r.point
    ensures Normal(r).point == r.point && IsShortest(Normal(r).digits) && |Normal(r).digits| <= r.point
    ensures Digits(Normal(r)) == Digits(r)
    decreases |r.digits|
  {
    var d := r.digits;
    if d[|d| - 1] == '0' {
      SplitLast(d);
      TrimKeeps(Reading(d[..|d| - 1], r.point));
      assert Digits(Reading(d[..|d| - 1], r.point)) == Digits(r);
    }
  }

  lemma OwnSpells(m: nat)
    requires m > 0
    ensures Spells(Own(m), Double(m)) && Digits(Own(m)) == Decimal(m)
  {
    TrimKeeps(Reading(Decimal(m), |Decimal(m)|));
    assert Decimal(m) + Zeros(0) == Decimal(m);
    NumeralOfDecimal(m);
  }

  lemma OwnIsOnly(r: Reading, m: nat)
    requires IsShortest(r.digits) && |r.digits| <= r.point && Digits(r) == Decimal(m)
    ensures r == Own(m)
  {
    NormalDropsTrailing(r.digits, r.point - |r.digits|, r.point);
  }

  /** Every double has one best choice of digits. */
  lemma {:induction false} OneBest(r: Reading, q: Reading, x: nat)
    requires IsBest(r, x) && IsBest(q, x)
    ensures r == q
  {
    NoTie(r, q, x);
    NoTie(q, r, x);
    BestIsShortest(r, x);
    BestIsShortest(q, x);
    DigitsAreDecimal(r, x);
    DigitsAreDecimal(q, x);
    OwnIsOnly(r, IntegerOf(r));
    OwnIsOnly(q, IntegerOf(r));
  }

  /** Any two engines write an integer alike. */
  lemma {:induction false} EnginesAgree(js: Chooser, other: Chooser, i: int)
    requires IsEcma(js) && IsEcma(other) && InInt64(i)
    ensures JsText(js, Int(i)) == JsText(other, Int(i))
  {
    if i != 0 {
      OneChoice(js, other, Abs(i));
    }
  }

  lemma {:induction false} OneChoice(js: Chooser, other: Chooser, m: nat)
    requires IsEcma(js) && IsEcma(other) && m > 0
    ensures js(Double(m)) == other(Double(m))
  {
    var x := Double(m);
    assert IsBest(js(x), x) && IsBest(other(x), x);
    OneBest(js(x), other(x), x);
  }

  /** An integer keeps its text exactly when its own digits are the best for its double; the
      engine does not matter. */
  lemma {:induction false} KeepsTextExactly(js: Chooser, i: int)
    requires IsEcma(js) && InInt64(i) && i != 0
    ensures JsText(js, Int(i)) == Text(Int(i)) <==> IsBest(Own(Abs(i)), Double(Abs(i)))
  {
    var m := Abs(i);
    var r := js(Double(m));
    assert IsBest(r, Double(m));
    BestIsShortest(r, Double(m));
    IntegersAgree(js, i);
    OwnSpells(m);
    if Digits(r) == Decimal(m) {
      OwnIsOnly(r, m);
    }
    if IsBest(Own(m), Double(m)) {
      OneBest(r, Own(m), Double(m));
    }
  }
}
