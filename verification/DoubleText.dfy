/** Integers read as doubles: their nearest double, its shortest digits, and the text of those.
    The digits are chosen as section 6.1.6.1.20 of ECMA-262 prescribes. */
module DoubleText {
  import opened Hashing
  import opened Encoding
  import opened Json
  import opened NumberText
  import opened Sequences

  const SAFE: nat := 0x20_0000_0000_0000

  /** The distance between neighbouring doubles of this size, for integers: a power of two. */
  function Ulp(m: nat): (u: nat)
    ensures u > 0
  {
    if m < SAFE then 1 else 2 * Ulp(m / 2)
  }

  /** The double nearest to an integer, the even one of two equally near. */
  function Double(m: nat): nat {
    var u := Ulp(m);
    var over := m % u;
    if 2 * over < u || (2 * over == u && (m / u) % 2 == 0) then m - over else m - over + u
  }

  function Digits(r: Reading): Bytes
    requires |r.digits| <= r.point
  {
    r.digits + Zeros(r.point - |r.digits|)
  }

  /** `r` spells an integer that reads as the double `x`. Digits with a fraction need not be
      considered, since they are never fewer than those of the integer itself. */
  predicate Spells(r: Reading, x: nat) {
    r.digits != [] && AllDigits(r.digits) && r.digits[0] != '0' && |r.digits| <= r.point &&
    Double(Numeral(Digits(r))) == x
  }

  function Distance(r: Reading, x: nat): nat
    requires Spells(r, x)
  {
    var v := Numeral(Digits(r));
    if v < x then x - v else v - x
  }

  /** Fewer digits are better, and as many if they are nearer. */
  predicate NoBetter(r: Reading, other: Reading, x: nat)
    requires Spells(r, x) && Spells(other, x)
  {
    |r.digits| < |other.digits| || (|r.digits| == |other.digits| && Distance(r, x) <= Distance(other, x))
  }

  ghost predicate IsBest(r: Reading, x: nat) {
    Spells(r, x) && forall other | Spells(other, x) :: NoBetter(r, other, x)
  }

  /** A choice of digits for every double that some integer reads as. */
  type Chooser = nat -> Reading

  ghost predicate IsEcma(js: Chooser) {
    forall m: nat | m > 0 :: IsBest(js(Double(m)), Double(m))
  }

  // ----- decimal text -------------------------------------------------------------------

  function Ten(k: nat): (t: nat)
    ensures t > 0
  {
    if k == 0 then 1 else 10 * Ten(k - 1)
  }

  lemma {:induction false} DecimalLength(n: nat, k: nat)
    requires n > 0
    ensures |Decimal(n)| <= k <==> n < Ten(k)
  {
    if k > 0 && n >= 10 {
      DecimalLength(n / 10, k - 1);
    }
  }

  // ----- choosing -----------------------------------------------------------------------

  lemma Itself(m: nat)
    requires m > 0
    ensures Spells(Reading(Decimal(m), |Decimal(m)|), Double(m))
  {
    NumeralOfDecimal(m);
    assert Decimal(m) + Zeros(0) == Decimal(m);
  }

  lemma {:induction false} BestExists(r: Reading, x: nat)
    requires Spells(r, x)
    ensures exists b :: IsBest(b, x)
    decreases |r.digits|, Distance(r, x)
  {
    if !IsBest(r, x) {
      var other :| Spells(other, x) && !NoBetter(r, other, x);
      BestExists(other, x);
    }
  }

  /** Such choices exist, so what is proved for all of them is not idle. */
  lemma EcmaExists()
    ensures exists js :: IsEcma(js)
  {
    ghost var js := (x: nat) => if exists b :: IsBest(b, x) then (var b :| IsBest(b, x); b) else Reading([], 0);
    forall m: nat | m > 0 ensures IsBest(js(Double(m)), Double(m)) {
      Itself(m);
      BestExists(Reading(Decimal(m), |Decimal(m)|), Double(m));
    }
    assert IsEcma(js);
  }

  /** The digits chosen end in no zero. */
  lemma BestIsShortest(r: Reading, x: nat)
    requires IsBest(r, x)
    ensures IsShortest(r.digits)
  {
    if r.digits[|r.digits| - 1] == '0' {
      ShorterSpells(r, x);
    }
  }

  lemma ShorterSpells(r: Reading, x: nat)
    requires Spells(r, x) && r.digits[|r.digits| - 1] == '0'
    ensures Spells(Reading(r.digits[..|r.digits| - 1], r.point), x)
  {
    var shorter := Reading(r.digits[..|r.digits| - 1], r.point);
    SplitLast(r.digits);
    assert Digits(shorter) == Digits(r);
  }

  // ----- integers that are doubles ------------------------------------------------------

  lemma DoubleOfSafe(m: nat)
    requires m < SAFE
    ensures Double(m) == m
  {
  }

  lemma {:induction false} UlpSmall(m: nat)
    requires m >= SAFE
    ensures 0x10_0000_0000_0000 * Ulp(m) <= m
  {
    if m / 2 >= SAFE {
      UlpSmall(m / 2);
    }
  }

  /** Besides itself, only the odd integer above it reads as the last safe one. */
  lemma ReadsAsLastSafe(v: nat)
    requires v >= SAFE
    ensures Double(v) >= SAFE && (Double(v) == SAFE ==> v <= SAFE + 1)
  {
    UlpSmall(v);
    if v < 2 * SAFE {
      assert Ulp(v / 2) == 1;
    }
  }

  lemma DigitsAreDecimal(r: Reading, x: nat)
    requires Spells(r, x)
    ensures Digits(r) == Decimal(Numeral(Digits(r)))
  {
    DecimalOfNumeral(Digits(r));
  }

  lemma NextToSafe(r: Reading)
    requires Spells(r, SAFE) && Numeral(Digits(r)) == SAFE + 1
    ensures |r.digits| == |Decimal(SAFE)| && Distance(r, SAFE) == 1
  {
    DigitsAreDecimal(r, SAFE);
    LastSafeDecimals();
  }

  lemma SafeIsDouble()
    ensures Double(SAFE) == SAFE
  {
  }

  /** The even one of the two is nearer to itself and has no more digits. */
  lemma ExactSafe()
    ensures Spells(Reading(Decimal(SAFE), |Decimal(SAFE)|), SAFE)
    ensures Distance(Reading(Decimal(SAFE), |Decimal(SAFE)|), SAFE) == 0
  {
    SafeIsDouble();
    Itself(SAFE);
    NumeralOfDecimal(SAFE);
    assert Digits(Reading(Decimal(SAFE), |Decimal(SAFE)|)) == Decimal(SAFE);
  }

  lemma LastSafeIsItself(r: Reading)
    requires IsBest(r, SAFE)
    ensures Numeral(Digits(r)) != SAFE + 1
  {
    ExactSafe();
    assert NoBetter(r, Reading(Decimal(SAFE), |Decimal(SAFE)|), SAFE);
    if Numeral(Digits(r)) == SAFE + 1 {
      NextToSafe(r);
    }
  }

  lemma LastSafeDecimals()
    ensures |Decimal(SAFE + 1)| == |Decimal(SAFE)|
    ensures Decimal(SAFE + 1)[|Decimal(SAFE + 1)| - 1] == '3'
  {
    DecimalOfTen(SAFE / 10, 2);
    DecimalOfTen(SAFE / 10, 3);
  }

  /** Up to two to the 53rd the digits chosen spell the integer itself. */
  lemma SafeValue(r: Reading, m: nat)
    requires 0 < m <= SAFE && IsBest(r, m)
    ensures Numeral(Digits(r)) == m
  {
    var v := Numeral(Digits(r));
    if v < SAFE {
      DoubleOfSafe(v);
    } else {
      ReadsAsLastSafe(v);
      LastSafeIsItself(r);
    }
  }

  lemma SafeIsItself(m: nat)
    requires m <= SAFE
    ensures Double(m) == m
  {
    if m < SAFE {
      DoubleOfSafe(m);
    } else {
      SafeIsDouble();
    }
  }

  lemma SafeDigits(r: Reading, m: nat)
    requires 0 < m <= SAFE && IsBest(r, Double(m))
    ensures Digits(r) == Decimal(m)
  {
    SafeIsItself(m);
    SafeValue(r, m);
    DigitsAreDecimal(r, m);
  }

  // ----- text ---------------------------------------------------------------------------

  function Abs(i: int): nat {
    if i < 0 then -i else i
  }

  /** The text of a number that has been read as a double; a float has the same digits in
      every language. */
  ghost function JsText(js: Chooser, n: Number): Bytes
    requires IsEcma(js) && IsNumber(n)
  {
    match n
    case Int(i) =>
      if i == 0 then ['0']
      else
        var r := js(Double(Abs(i)));
        BestIsShortest(r, Double(Abs(i)));
        WithSign(i < 0, Layout(r.digits, r.point))
    case Float(_, _, _) => Text(n)
  }

  /** The number some digits stand for: an integer if they spell one of 64 bits. */
  function FromDigits(neg: bool, digits: Bytes, n: int): Number
    requires IsShortest(digits)
  {
    if |digits| <= n <= 21 && InInt64(Negate(neg, Numeral(digits + Zeros(n - |digits|))))
    then Int(Negate(neg, Numeral(digits + Zeros(n - |digits|))))
    else Float(neg, digits, n)
  }

  lemma FromDigitsText(neg: bool, digits: Bytes, n: int)
    requires IsShortest(digits)
    ensures IsNumber(FromDigits(neg, digits, n)) && Text(FromDigits(neg, digits, n)) == WithSign(neg, Layout(digits, n))
  {
    if |digits| <= n <= 21 {
      DecimalOfNumeral(digits + Zeros(n - |digits|));
    }
  }

  /** What a number becomes by being read as a double. */
  ghost function JsNumber(js: Chooser, n: Number): Number
    requires IsEcma(js) && IsNumber(n)
  {
    match n
    case Int(i) =>
      if i == 0 then n
      else
        var r := js(Double(Abs(i)));
        BestIsShortest(r, Double(Abs(i)));
        FromDigits(i < 0, r.digits, r.point)
    case Float(_, _, _) => n
  }

  lemma JsNumberText(js: Chooser, n: Number)
    requires IsEcma(js) && IsNumber(n)
    ensures IsNumber(JsNumber(js, n)) && Text(JsNumber(js, n)) == JsText(js, n)
  {
    if n.Int? && n.i != 0 {
      var r := js(Double(Abs(n.i)));
      BestIsShortest(r, Double(Abs(n.i)));
      FromDigitsText(n.i < 0, r.digits, r.point);
    }
  }

  /** Reading as a double keeps the text exactly when it keeps the number. */
  lemma SameTextSameNumber(js: Chooser, n: Number)
    requires IsEcma(js) && IsNumber(n)
    ensures JsText(js, n) == Text(n) <==> JsNumber(js, n) == n
  {
    JsNumberText(js, n);
    if JsText(js, n) == Text(n) {
      NumberRoundTrip(JsNumber(js, n));
      NumberRoundTrip(n);
    }
  }

  lemma TenFiveMore(k: nat)
    ensures Ten(k + 5) == 10_0000 * Ten(k)
  {
    assert Ten(k + 1) == 10 * Ten(k);
    assert Ten(k + 2) == 10 * Ten(k + 1);
    assert Ten(k + 3) == 10 * Ten(k + 2);
    assert Ten(k + 4) == 10 * Ten(k + 3);
  }

  lemma TensUsed()
    ensures Ten(15) == 1_000_000_000_000_000
    ensures Ten(16) == 10_000_000_000_000_000
    ensures Ten(21) == 1_000_000_000_000_000_000_000
  {
    TenFiveMore(0);
    TenFiveMore(5);
    TenFiveMore(10);
    TenFiveMore(15);
    assert Ten(16) == 10 * Ten(15);
    assert Ten(21) == 10 * Ten(20);
  }

  lemma SignKept(neg: bool, a: Bytes, b: Bytes)
    ensures WithSign(neg, a) == WithSign(neg, b) <==> a == b
  {
    DropFront(['-'], a);
    DropFront(['-'], b);
  }

  /** A layout is the text of an integer exactly when it writes out the integer's digits. */
  lemma LayoutIsDecimal(r: Reading, m: nat)
    requires IsShortest(r.digits) && |r.digits| <= r.point && 0 < m < Ten(21)
    ensures Layout(r.digits, r.point) == Decimal(m) <==> Digits(r) == Decimal(m)
  {
    LayoutIsDigits(r.digits, r.point);
    DecimalLength(m, 21);
  }

  /** An integer keeps its text exactly when the digits chosen for its double are its own. */
  lemma IntegersAgree(js: Chooser, i: int)
    requires IsEcma(js) && InInt64(i) && i != 0
    ensures JsText(js, Int(i)) == Text(Int(i)) <==> Digits(js(Double(Abs(i)))) == Decimal(Abs(i))
  {
    var m := Abs(i);
    var r := js(Double(m));
    assert IsBest(r, Double(m));
    BestIsShortest(r, Double(m));
    TensUsed();
    LayoutIsDecimal(r, m);
    SignKept(i < 0, Layout(r.digits, r.point), Decimal(m));
  }

  /** So no integer up to two to the 53rd changes its text. */
  lemma SafeIntegersAgree(js: Chooser, i: int)
    requires IsEcma(js) && InInt64(i) && Abs(i) <= SAFE
    ensures JsText(js, Int(i)) == Text(Int(i))
  {
    if i != 0 {
      IntegersAgree(js, i);
      SafeDigits(js(Double(Abs(i))), Abs(i));
    }
  }

  /** And the next integer does. */
  lemma FirstUnsafeInteger(js: Chooser)
    requires IsEcma(js)
    ensures JsText(js, Int(SAFE + 1)) != Text(Int(SAFE + 1))
  {
    SafeIsDouble();
    NextReadsAsSafe();
    assert IsBest(js(SAFE), Double(SAFE));
    SafeDigits(js(SAFE), SAFE);
    if JsText(js, Int(SAFE + 1)) == Text(Int(SAFE + 1)) {
      IntegersAgree(js, SAFE + 1);
      DecimalInjective(SAFE, SAFE + 1);
    }
  }

  lemma NextReadsAsSafe()
    ensures Double(SAFE + 1) == SAFE
  {
    assert Ulp(SAFE + 1) == 2 * Ulp((SAFE + 1) / 2);
    assert (SAFE + 1) / 2 < SAFE;
  }

  // ----- two to the 60th ----------------------------------------------------------------

  const TWO60: int := 0x1000_0000_0000_0000

  lemma Near60()
    ensures Double(TWO60) == TWO60 && Double(1000 * SHORT60) == TWO60
  {
    assert 1000 * SHORT60 == 1_152_921_504_606_847_000;
    assert Ulp(TWO60) == 256 && Ulp(1_152_921_504_606_847_000) == 256;
  }

  lemma ThousandFold(d: Bytes)
    requires AllDigits(d)
    ensures Numeral(d + Zeros(3)) == 1000 * Numeral(d)
  {
    NumeralZero(d);
    NumeralZero(d + ['0']);
    NumeralZero(d + ['0'] + ['0']);
    assert d + Zeros(3) == d + ['0'] + ['0'] + ['0'];
  }

  const SHORT60: nat := 1_152_921_504_606_847

  lemma SixteenDigits()
    ensures |Decimal(SHORT60)| == 16 && |Decimal(TWO60)| > 16
  {
    TensUsed();
    DecimalLength(SHORT60, 16);
    DecimalLength(SHORT60, 15);
    DecimalLength(TWO60, 16);
  }

  /** Sixteen digits read as this double. */
  lemma Short60()
    ensures |Decimal(SHORT60)| == 16 && Spells(Reading(Decimal(SHORT60), 19), TWO60)
  {
    SixteenDigits();
    NumeralOfDecimal(SHORT60);
    ThousandFold(Decimal(SHORT60));
    Near60();
  }

  lemma LastDigit60()
    ensures Decimal(TWO60)[|Decimal(TWO60)| - 1] == '6'
  {
    DecimalOfTen(TWO60 / 10, 6);
  }

  /** An integer that is a double and is written with other digits all the same. */
  lemma TwoToThe60(js: Chooser)
    requires IsEcma(js)
    ensures JsText(js, Int(TWO60)) != Text(Int(TWO60))
  {
    IntegersAgree(js, TWO60);
    Near60();
    Short60();
    SixteenDigits();
    LastDigit60();
    var r := js(TWO60);
    assert IsBest(r, Double(TWO60));
    assert NoBetter(r, Reading(Decimal(SHORT60), 19), TWO60);
  }
}
