/** The text of a number and how it reads back. */
module NumberText {
  import opened Wrappers
  import opened Hashing
  import opened Encoding
  import opened Json
  import opened Sequences

  function Zeros(n: nat): (z: Bytes)
    ensures |z| == n && forall i | 0 <= i < n :: z[i] == '0'
  {
    seq(n, _ => '0')
  }

  function Signed(i: int): Bytes {
    if i < 0 then ['-'] + Decimal(-i) else Decimal(i)
  }

  /** A significand as a shortest-digit search leaves it. */
  predicate IsShortest(digits: Bytes) {
    digits != [] && AllDigits(digits) && digits[0] != '0' && digits[|digits| - 1] != '0'
  }

  /** The exponent with a mandatory sign. */
  function ExponentText(e: int): Bytes {
    ['e'] + if e >= 0 then ['+'] + Signed(e) else Signed(e)
  }

  /** The four layouts; `n` is the position of the decimal point relative to the first digit. */
  function Layout(digits: Bytes, n: int): Bytes
    requires IsShortest(digits)
  {
    var k := |digits|;
    if k <= n <= 21 then digits + Zeros(n - k)
    else if 0 < n <= 21 then digits[..n] + ['.'] + digits[n..]
    else if -6 < n <= 0 then ['0', '.'] + Zeros(-n) + digits
    else if k == 1 then digits + ExponentText(n - 1)
    else digits[..1] + ['.'] + digits[1..] + ExponentText(n - 1)
  }

  // ----- reading ------------------------------------------------------------------------

  /** A run of digits and where its decimal point stands. */
  datatype Reading = Reading(digits: Bytes, point: int)

  function ReadExponent(t: Bytes): Option<int> {
    if t == [] then Some(0)
    else if |t| < 3 || !AllDigits(t[2..]) then None
    else if t[1] == '+' then Some(Numeral(t[2..]))
    else if t[1] == '-' then Some(0 - Numeral(t[2..]))
    else None
  }

  /** The significand with its point removed. */
  function ReadMantissa(m: Bytes): Reading {
    var dot := First(m, '.');
    if dot == |m| then Reading(m, |m|) else Reading(m[..dot] + m[dot + 1..], dot)
  }

  function Read(text: Bytes): Option<Reading> {
    var e := First(text, 'e');
    var mantissa, exponent := ReadMantissa(text[..e]), ReadExponent(text[e..]);
    if exponent.Some? && AllDigits(mantissa.digits) then Some(mantissa.(point := mantissa.point + exponent.value))
    else None
  }

  function Normal(r: Reading): Reading
    decreases |r.digits|
  {
    var d := r.digits;
    if d == [] then r
    else if d[0] == '0' then Normal(Reading(d[1..], r.point - 1))
    else if d[|d| - 1] == '0' then Normal(Reading(d[..|d| - 1], r.point))
    else r
  }

  /** What a layout reads as, before normalising. */
  function Raw(digits: Bytes, n: int): Reading
    requires IsShortest(digits)
  {
    if |digits| <= n <= 21 then Reading(digits + Zeros(n - |digits|), n)
    else if -6 < n <= 0 then Reading(['0'] + Zeros(-n) + digits, 1)
    else Reading(digits, n)
  }

  lemma FirstAfter(a: Bytes, c: Byte, b: Bytes)
    requires Lacks(a, c)
    ensures First(a + [c] + b, c) == |a| && First(a, c) == |a|
  {
    var s := a + [c] + b;
    assert s[|a|] == c && forall k | 0 <= k < |a| :: s[k] == a[k];
  }

  lemma ReadPointMantissa(whole: Bytes, fraction: Bytes)
    requires AllDigits(whole)
    ensures ReadMantissa(whole + ['.'] + fraction) == Reading(whole + fraction, |whole|)
  {
    FirstAfter(whole, '.', fraction);
    assert (whole + ['.'] + fraction)[|whole| + 1..] == fraction;
  }

  lemma ReadExponentText(e: int)
    ensures ReadExponent(ExponentText(e)) == Some(e)
  {
    var m := if e < 0 then -e else e;
    NumeralOfDecimal(m);
    assert ExponentText(e)[2..] == Decimal(m);
  }

  lemma ReadUnscaled(mantissa: Bytes)
    requires Lacks(mantissa, 'e') && AllDigits(ReadMantissa(mantissa).digits)
    ensures Read(mantissa) == Some(ReadMantissa(mantissa))
  {
    FirstAfter(mantissa, 'e', []);
    assert mantissa[..|mantissa|] == mantissa;
  }

  lemma ReadScaled(mantissa: Bytes, e: int)
    requires Lacks(mantissa, 'e') && AllDigits(ReadMantissa(mantissa).digits)
    ensures Read(mantissa + ExponentText(e)) ==
            Some(Reading(ReadMantissa(mantissa).digits, ReadMantissa(mantissa).point + e))
  {
    var x := ExponentText(e);
    FirstAfter(mantissa, 'e', x[1..]);
    assert mantissa + x == mantissa + ['e'] + x[1..];
    assert (mantissa + x)[..|mantissa|] == mantissa && (mantissa + x)[|mantissa|..] == x;
    ReadExponentText(e);
  }

  lemma ReadPoint(whole: Bytes, fraction: Bytes)
    requires AllDigits(whole) && AllDigits(fraction)
    ensures Read(whole + ['.'] + fraction) == Some(Reading(whole + fraction, |whole|))
  {
    ReadPointMantissa(whole, fraction);
    ReadUnscaled(whole + ['.'] + fraction);
  }

  lemma DigitsLackMarks(s: Bytes)
    requires AllDigits(s)
    ensures Lacks(s, '.') && Lacks(s, 'e') && Lacks(s, '-') && Lacks(s, '+')
  {
    assert forall i | 0 <= i < |s| :: IsDigit(s[i]);
  }

  lemma ReadScientific(digits: Bytes, n: int)
    requires IsShortest(digits)
    ensures Read((if |digits| == 1 then digits else digits[..1] + ['.'] + digits[1..]) + ExponentText(n - 1)) ==
            Some(Reading(digits, n))
  {
    if |digits| == 1 {
      ReadScaled(digits, n - 1);
    } else {
      ReadPointMantissa(digits[..1], digits[1..]);
      assert digits[..1] + digits[1..] == digits;
      DigitsLackMarks(digits);
      assert Lacks(digits[..1] + ['.'] + digits[1..], 'e');
      ReadScaled(digits[..1] + ['.'] + digits[1..], n - 1);
    }
  }

  lemma WholeReads(digits: Bytes)
    requires AllDigits(digits)
    ensures Read(digits) == Some(Reading(digits, |digits|))
  {
    ReadUnscaled(digits);
  }

  lemma PointReads(digits: Bytes, n: nat)
    requires AllDigits(digits) && n < |digits|
    ensures Read(digits[..n] + ['.'] + digits[n..]) == Some(Reading(digits, n))
  {
    ReadPoint(digits[..n], digits[n..]);
    SplitInTwo(digits, n);
  }

  lemma SmallReads(digits: Bytes, zeros: nat)
    requires IsShortest(digits)
    ensures Read(['0', '.'] + Zeros(zeros) + digits) == Some(Reading(['0'] + Zeros(zeros) + digits, 1))
  {
    ReadPoint(['0'], Zeros(zeros) + digits);
    assert ['0', '.'] == ['0'] + ['.'];
    Assoc(['0'] + ['.'], Zeros(zeros), digits);
    Assoc(['0'], Zeros(zeros), digits);
  }

  /** Every layout reads back, as the digits it shows and the point it places. */
  lemma {:induction false} LayoutReads(digits: Bytes, n: int)
    requires IsShortest(digits)
    ensures Read(Layout(digits, n)) == Some(Raw(digits, n))
  {
    var k := |digits|;
    if k <= n <= 21 {
      WholeReads(digits + Zeros(n - k));
    } else if 0 < n <= 21 {
      PointReads(digits, n);
    } else if -6 < n <= 0 {
      SmallReads(digits, -n);
    } else {
      ReadScientific(digits, n);
    }
  }

  lemma {:induction false} NormalDropsTrailing(digits: Bytes, zeros: nat, point: int)
    requires IsShortest(digits)
    ensures Normal(Reading(digits + Zeros(zeros), point)) == Reading(digits, point)
  {
    var d := digits + Zeros(zeros);
    if zeros == 0 {
      assert d == digits;
    } else {
      NormalDropsTrailing(digits, zeros - 1, point);
      assert d[..|d| - 1] == digits + Zeros(zeros - 1);
    }
  }

  lemma {:induction false} NormalDropsLeading(digits: Bytes, zeros: nat, point: int)
    requires IsShortest(digits)
    ensures Normal(Reading(Zeros(zeros) + digits, point)) == Reading(digits, point - zeros)
  {
    var d := Zeros(zeros) + digits;
    if zeros == 0 {
      assert d == digits;
    } else {
      NormalDropsLeading(digits, zeros - 1, point - 1);
      assert d[1..] == Zeros(zeros - 1) + digits;
    }
  }

  /** The layout loses nothing: it normalises back to the digits and the point. */
  lemma LayoutRoundTrip(digits: Bytes, n: int)
    requires IsShortest(digits)
    ensures Read(Layout(digits, n)).Some? && Normal(Read(Layout(digits, n)).value) == Reading(digits, n)
  {
    LayoutReads(digits, n);
    if |digits| <= n <= 21 {
      NormalDropsTrailing(digits, n - |digits|, n);
    } else if -6 < n <= 0 {
      assert ['0'] + Zeros(-n) == Zeros(1 - n);
      NormalDropsLeading(digits, 1 - n, 1);
    } else {
      assert digits + Zeros(0) == digits;
      NormalDropsTrailing(digits, 0, n);
    }
  }

  // ----- value --------------------------------------------------------------------------

  /** `x` times ten to the `e`. */
  function Scale(x: real, e: int): real
    decreases if e < 0 then -e else e
  {
    if e == 0 then x else if e > 0 then 10.0 * Scale(x, e - 1) else Scale(x, e + 1) / 10.0
  }

  function Value(r: Reading): real
    requires AllDigits(r.digits)
  {
    Scale(Numeral(r.digits) as real, r.point - |r.digits|)
  }

  lemma NumeralZero(digits: Bytes)
    requires AllDigits(digits)
    ensures Numeral(digits + ['0']) == 10 * Numeral(digits)
  {
    assert (digits + ['0'])[..|digits|] == digits;
  }

  lemma {:induction false} NumeralTrailing(digits: Bytes, zeros: nat)
    requires AllDigits(digits)
    ensures Numeral(digits + Zeros(zeros)) as real == Scale(Numeral(digits) as real, zeros)
  {
    if zeros == 0 {
      assert digits + Zeros(zeros) == digits;
    } else {
      NumeralTrailing(digits, zeros - 1);
      NumeralZero(digits + Zeros(zeros - 1));
      assert digits + Zeros(zeros) == digits + Zeros(zeros - 1) + ['0'];
    }
  }

  lemma {:induction false} NumeralLeading(zeros: nat, digits: Bytes)
    requires AllDigits(digits)
    ensures Numeral(Zeros(zeros) + digits) == Numeral(digits)
    decreases |digits|, zeros
  {
    var d := Zeros(zeros) + digits;
    if digits != [] {
      NumeralLeading(zeros, digits[..|digits| - 1]);
      assert d[..|d| - 1] == Zeros(zeros) + digits[..|digits| - 1];
    } else if zeros > 0 {
      NumeralLeading(zeros - 1, []);
      assert d[..|d| - 1] == Zeros(zeros - 1) + [];
    }
  }

  lemma RawValue(digits: Bytes, n: int)
    requires IsShortest(digits)
    ensures AllDigits(Raw(digits, n).digits)
    ensures Value(Raw(digits, n)) == Scale(Numeral(digits) as real, n - |digits|)
  {
    if |digits| <= n <= 21 {
      NumeralTrailing(digits, n - |digits|);
    } else if -6 < n <= 0 {
      assert ['0'] + Zeros(-n) == Zeros(1 - n);
      NumeralLeading(1 - n, digits);
    }
  }

  /** The text denotes the digits scaled to the point. */
  lemma LayoutDenotes(digits: Bytes, n: int)
    requires IsShortest(digits)
    ensures Read(Layout(digits, n)).Some? && AllDigits(Read(Layout(digits, n)).value.digits)
    ensures Value(Read(Layout(digits, n)).value) == Scale(Numeral(digits) as real, n - |digits|)
  {
    LayoutReads(digits, n);
    RawValue(digits, n);
  }

  /** Which layout is used: an exponent outside `1e-7 < 10^n <= 1e21`, a point unless the
      number is an integer short enough to be written out. */
  lemma LayoutShape(digits: Bytes, n: int)
    requires IsShortest(digits)
    ensures Lacks(Layout(digits, n), 'e') <==> -6 < n <= 21
    ensures Lacks(Layout(digits, n), '.') <==> |digits| <= n <= 21 || (|digits| == 1 && !(-6 < n <= 21))
    ensures -6 < n <= 21 ==> |Layout(digits, n)| <= |digits| + 21
  {
    var t := Layout(digits, n);
    if !(-6 < n <= 21) {
      var head := if |digits| == 1 then digits else digits[..1] + ['.'] + digits[1..];
      assert t == head + ExponentText(n - 1);
      assert t[|head|] == 'e';
      if |digits| > 1 {
        assert t[1] == '.';
      }
    } else if -6 < n <= 0 {
      assert t[1] == '.';
    } else if n < |digits| {
      assert t[n] == '.';
    }
  }

  // ----- numbers of a document ----------------------------------------------------------

  predicate InInt64(i: int) {
    -0x8000_0000_0000_0000 <= i < 0x8000_0000_0000_0000
  }

  function Negate(neg: bool, m: int): int {
    if neg then -m else m
  }

  function WithSign(neg: bool, body: Bytes): Bytes {
    if neg then ['-'] + body else body
  }

  /** The text of a document's number. */
  function Text(n: Number): Bytes
    requires n.Float? ==> IsShortest(n.digits)
  {
    match n
    case Int(i) => WithSign(i < 0, Decimal(if i < 0 then -i else i))
    case Float(neg, digits, point) => WithSign(neg, Layout(digits, point))
  }

  function ParseBody(neg: bool, body: Bytes): Option<Number> {
    if body != [] && AllDigits(body) && InInt64(Negate(neg, Numeral(body))) then Some(Int(Negate(neg, Numeral(body))))
    else
      var r := Read(body);
      if r.Some? then var d := Normal(r.value); Some(Float(neg, d.digits, d.point)) else None
  }

  function ParseNumber(text: Bytes): Option<Number> {
    if text != [] && text[0] == '-' then ParseBody(true, text[1..]) else ParseBody(false, text)
  }

  /** A number as parsing yields it: a 64-bit integer, or a float in shortest digits whose text
      does not spell a 64-bit integer. */
  predicate IsNumber(n: Number) {
    match n
    case Int(i) => InInt64(i)
    case Float(neg, digits, point) =>
      IsShortest(digits) &&
      !(|digits| <= point <= 21 && InInt64(Negate(neg, Numeral(digits + Zeros(point - |digits|)))))
  }

  lemma LayoutIsDigits(digits: Bytes, n: int)
    requires IsShortest(digits)
    ensures AllDigits(Layout(digits, n)) <==> |digits| <= n <= 21
    ensures Layout(digits, n) != [] && IsDigit(Layout(digits, n)[0])
  {
    var t := Layout(digits, n);
    LayoutShape(digits, n);
    if AllDigits(t) {
      assert -6 < n <= 21;
    }
  }

  lemma BodyRoundTrip(n: Number)
    requires n.Float? && IsNumber(n)
    ensures ParseBody(n.neg, Layout(n.digits, n.point)) == Some(n)
  {
    LayoutIsDigits(n.digits, n.point);
    LayoutRoundTrip(n.digits, n.point);
  }

  lemma NumberRoundTrip(n: Number)
    requires IsNumber(n)
    ensures ParseNumber(Text(n)) == Some(n)
  {
    match n {
      case Int(i) =>
        var m := if i < 0 then -i else i;
        NumeralOfDecimal(m);
        assert i < 0 ==> Text(n)[1..] == Decimal(m);
        assert IsDigit(Decimal(m)[0]);
      case Float(neg, digits, point) =>
        BodyRoundTrip(n);
        LayoutIsDigits(digits, point);
        assert neg ==> Text(n)[1..] == Layout(digits, point);
    }
  }

  predicate IsNumberChar(c: char) {
    '0' <= c <= '9' || c == '-' || c == '+' || c == '.' || c == 'e'
  }

  lemma LayoutChars(digits: Bytes, n: int)
    requires IsShortest(digits)
    ensures forall i | 0 <= i < |Layout(digits, n)| :: IsNumberChar(Layout(digits, n)[i])
  {
    assert AllChars(digits) && AllChars(digits[..1]) && AllChars(digits[1..]);
    assert AllChars(ExponentText(n - 1)) by {
      assert AllChars(Decimal(if n - 1 < 0 then -(n - 1) else n - 1));
    }
  }

  predicate AllChars(s: Bytes) {
    forall i | 0 <= i < |s| :: IsNumberChar(s[i])
  }

  lemma NumberChars(n: Number)
    requires IsNumber(n)
    ensures Text(n) != [] && AllChars(Text(n))
    ensures IsDigit(Text(n)[0]) || Text(n)[0] == '-'
  {
    if n.Float? {
      LayoutChars(n.digits, n.point);
      LayoutIsDigits(n.digits, n.point);
    } else {
      assert AllChars(Decimal(if n.i < 0 then -n.i else n.i));
    }
  }

  // ----- the signed value ---------------------------------------------------------------

  /** The sign a text starts with, and the rest of it. */
  function SplitSign(text: Bytes): (bool, Bytes) {
    if text != [] && text[0] == '-' then (true, text[1..]) else (false, text)
  }

  function Signs(neg: bool, x: real): real {
    if neg then -x else x
  }

  /** A float's text denotes its sign times its digits scaled to its point. */
  lemma FloatDenotes(neg: bool, digits: Bytes, n: int)
    requires IsShortest(digits)
    ensures var (sign, body) := SplitSign(Text(Float(neg, digits, n)));
            Read(body).Some? && AllDigits(Read(body).value.digits) &&
            Signs(sign, Value(Read(body).value)) == Signs(neg, Scale(Numeral(digits) as real, n - |digits|))
  {
    LayoutIsDigits(digits, n);
    LayoutDenotes(digits, n);
  }
}
