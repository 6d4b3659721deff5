/** Text as the bytes that are hashed: a Dafny `char` is a Unicode scalar value, a natural number
    is its decimal digits. */
module Encoding {
  import opened Wrappers
  import opened Hashing
  import opened Sequences

  function ByteOf(n: nat): Byte
    requires n < 256
  {
    n as char
  }

  function EncodeRune(c: char): (b: Bytes)
    ensures |b| >= 1
  {
    var n := c as int;
    if n < 0x80 then [ByteOf(n)]
    else if n < 0x800 then [ByteOf(0xC0 + n / 64), ByteOf(0x80 + n % 64)]
    else if n < 0x1_0000 then [ByteOf(0xE0 + n / 4096), ByteOf(0x80 + n / 64 % 64), ByteOf(0x80 + n % 64)]
    else [ByteOf(0xF0 + n / 0x4_0000), ByteOf(0x80 + n / 4096 % 64), ByteOf(0x80 + n / 64 % 64), ByteOf(0x80 + n % 64)]
  }

  function Tail(b: Byte): int {
    b as int - 0x80
  }

  predicate IsScalar(n: int) {
    0 <= n < 0xD800 || 0xE000 <= n < 0x11_0000
  }

  /** The first rune of a byte string and what follows it. */
  function DecodeRune(b: Bytes): Option<(char, Bytes)> {
    if b == [] then None
    else
      var lead := b[0] as int;
      var (n, len) :=
        if lead < 0x80 then (lead, 1)
        else if lead < 0xE0 && |b| >= 2 then ((lead - 0xC0) * 64 + Tail(b[1]), 2)
        else if 0xE0 <= lead < 0xF0 && |b| >= 3 then ((lead - 0xE0) * 4096 + Tail(b[1]) * 64 + Tail(b[2]), 3)
        else if 0xF0 <= lead && |b| >= 4 then
          ((lead - 0xF0) * 0x4_0000 + Tail(b[1]) * 4096 + Tail(b[2]) * 64 + Tail(b[3]), 4)
        else (-1, 0);
      if IsScalar(n) then Some((n as char, b[len..])) else None
  }

  lemma SixBitGroups(n: nat)
    ensures n == n / 64 * 64 + n % 64
    ensures n == n / 4096 * 4096 + n / 64 % 64 * 64 + n % 64
    ensures n == n / 0x4_0000 * 0x4_0000 + n / 4096 % 64 * 4096 + n / 64 % 64 * 64 + n % 64
  {
    assert n / 64 / 64 == n / 4096 && n / 4096 / 64 == n / 0x4_0000;
  }

  lemma DecodeEncodedRune(c: char, rest: Bytes)
    ensures DecodeRune(EncodeRune(c) + rest) == Some((c, rest))
  {
    var n, b := c as int, EncodeRune(c) + rest;
    SixBitGroups(n);
    assert IsScalar(n) && n as char == c;
    if n < 0x80 {
      assert b[1..] == rest;
    } else if n < 0x800 {
      assert b[2..] == rest && b[0] as int - 0xC0 == n / 64 && Tail(b[1]) == n % 64;
    } else if n < 0x1_0000 {
      assert b[3..] == rest && b[0] as int - 0xE0 == n / 4096 && Tail(b[1]) == n / 64 % 64 && Tail(b[2]) == n % 64;
    } else {
      assert b[4..] == rest && b[0] as int - 0xF0 == n / 0x4_0000;
      assert Tail(b[1]) == n / 4096 % 64 && Tail(b[2]) == n / 64 % 64 && Tail(b[3]) == n % 64;
    }
  }

  function Utf8(s: string): Bytes {
    if s == [] then [] else EncodeRune(s[0]) + Utf8(s[1..])
  }

  lemma {:induction false} Utf8Injective(s: string, t: string)
    requires Utf8(s) == Utf8(t)
    ensures s == t
  {
    if s != [] && t != [] {
      DecodeEncodedRune(s[0], Utf8(s[1..]));
      DecodeEncodedRune(t[0], Utf8(t[1..]));
      Utf8Injective(s[1..], t[1..]);
      assert s == [s[0]] + s[1..] && t == [t[0]] + t[1..];
    }
  }

  // ----- decimals -----------------------------------------------------------------------

  predicate IsDigit(c: Byte) {
    '0' <= c <= '9'
  }

  predicate AllDigits(s: Bytes) {
    forall i | 0 <= i < |s| :: IsDigit(s[i])
  }

  function DigitChar(d: nat): (c: Byte)
    requires d < 10
    ensures IsDigit(c) && c as int - '0' as int == d
  {
    (d + '0' as int) as char
  }

  /** Most significant digit first, no leading zero. */
  function Decimal(n: nat): (s: Bytes)
    ensures s != [] && AllDigits(s)
    ensures s[0] == '0' <==> n == 0
  {
    if n < 10 then [DigitChar(n)] else Decimal(n / 10) + [DigitChar(n % 10)]
  }

  function Numeral(s: Bytes): nat
    requires AllDigits(s)
  {
    if s == [] then 0 else 10 * Numeral(s[..|s| - 1]) + (s[|s| - 1] as int - '0' as int)
  }

  lemma {:induction false} NumeralOfDecimal(n: nat)
    ensures Numeral(Decimal(n)) == n
  {
    if n < 10 {
      assert Numeral(Decimal(n)[..0]) == 0;
    } else {
      NumeralOfDecimal(n / 10);
      assert Decimal(n)[..|Decimal(n)| - 1] == Decimal(n / 10);
    }
  }

  lemma DecimalInjective(m: nat, n: nat)
    requires Decimal(m) == Decimal(n)
    ensures m == n
  {
    NumeralOfDecimal(m);
    NumeralOfDecimal(n);
  }

  lemma DecimalOfTen(a: nat, d: nat)
    requires a > 0 && d < 10
    ensures Decimal(10 * a + d) == Decimal(a) + [DigitChar(d)]
  {
    assert (10 * a + d) / 10 == a && (10 * a + d) % 10 == d;
  }

  lemma {:induction false} DecimalOfNumeral(s: Bytes)
    requires s != [] && AllDigits(s) && s[0] != '0'
    ensures Decimal(Numeral(s)) == s && Numeral(s) > 0
  {
    var last := s[|s| - 1] as int - '0' as int;
    if |s| == 1 {
      assert Numeral(s[..0]) == 0 && Numeral(s) == last;
      assert s == [DigitChar(last)];
    } else {
      var init := s[..|s| - 1];
      DecimalOfNumeral(init);
      DecimalOfTen(Numeral(init), last);
      SplitLast(s);
    }
  }
}
