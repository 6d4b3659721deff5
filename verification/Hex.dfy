/** Lower-case hexadecimal text and the `sha512:` prefix convention. */
module Hex {
  import opened Wrappers
  import opened Hashing

  const DIGITS: Bytes := "0123456789abcdef"

  predicate IsHexDigit(c: Byte) {
    '0' <= c <= '9' || 'a' <= c <= 'f'
  }

  predicate IsLowerHex(s: Bytes) {
    forall i | 0 <= i < |s| :: IsHexDigit(s[i])
  }

  /** The value of a digit of either case. */
  function DigitValue(c: Byte): (v: Option<nat>)
    ensures v.Some? ==> v.value < 16
  {
    if '0' <= c <= '9' then Some(c as int - '0' as int)
    else if 'a' <= c <= 'f' then Some(c as int - 'a' as int + 10)
    else if 'A' <= c <= 'F' then Some(c as int - 'A' as int + 10)
    else None
  }

  function Digit(n: nat): (c: Byte)
    requires n < 16
    ensures IsHexDigit(c) && DigitValue(c) == Some(n)
  {
    DIGITS[n]
  }

  /** Two lower-case digits a byte. */
  function EncodeHex(b: Bytes): (s: Bytes)
    ensures |s| == 2 * |b| && IsLowerHex(s)
  {
    if b == [] then []
    else [Digit(b[0] as int / 16), Digit(b[0] as int % 16)] + EncodeHex(b[1..])
  }

  function HexOf(d: Digest): (s: Bytes)
    ensures |s| == 128 && IsLowerHex(s)
  {
    EncodeHex(d.bytes)
  }

  function DecodeHex(s: Bytes): Option<Bytes> {
    if s == [] then Some([])
    else if |s| == 1 then None
    else
      var hi, lo, rest := DigitValue(s[0]), DigitValue(s[1]), DecodeHex(s[2..]);
      if hi.Some? && lo.Some? && rest.Some? then Some([(16 * hi.value + lo.value) as char] + rest.value) else None
  }

  lemma {:induction false} HexRoundTrip(b: Bytes)
    ensures DecodeHex(EncodeHex(b)) == Some(b)
  {
    if b != [] {
      var hi, lo, h := b[0] as int / 16, b[0] as int % 16, EncodeHex(b);
      assert h[0] == Digit(hi) && h[1] == Digit(lo) && h[2..] == EncodeHex(b[1..]);
      HexRoundTrip(b[1..]);
      assert (16 * hi + lo) as char == b[0];
      assert b == [b[0]] + b[1..];
    }
  }

  /** The digits of byte `i` stand at places `2 * i` and `2 * i + 1`, the high one first. */
  lemma {:induction false} HexByPlace(b: Bytes, i: nat)
    requires i < |b|
    ensures EncodeHex(b)[2 * i] == DIGITS[b[i] as int / 16] && EncodeHex(b)[2 * i + 1] == DIGITS[b[i] as int % 16]
  {
    var h := EncodeHex(b);
    if i > 0 {
      HexByPlace(b[1..], i - 1);
      assert h[2..] == EncodeHex(b[1..]);
      assert h[2 * i] == h[2..][2 * (i - 1)] && h[2 * i + 1] == h[2..][2 * (i - 1) + 1];
    }
  }

  /** A text decodes to the bytes its pairs of digits, of either case, spell, and to nothing else. */
  lemma {:induction false} DecodeByPlace(s: Bytes, b: Bytes)
    ensures DecodeHex(s) == Some(b) <==> SpellsBytes(s, b)
  {
    if DecodeHex(s) == Some(b) {
      DecodedSpells(s, b);
    }
    if SpellsBytes(s, b) {
      SpelledDecodes(s, b);
    }
  }

  predicate SpellsBytes(s: Bytes, b: Bytes) {
    |s| == 2 * |b| && forall i | 0 <= i < |b| :: SpellsByte(s[2 * i], s[2 * i + 1], b[i])
  }

  /** The first byte apart. */
  lemma SpellsFirst(s: Bytes, b: Bytes)
    requires |s| >= 2 && b != []
    ensures SpellsBytes(s, b) <==> SpellsByte(s[0], s[1], b[0]) && SpellsBytes(s[2..], b[1..])
  {
    var t, c := s[2..], b[1..];
    if SpellsBytes(s, b) {
      forall i | 0 <= i < |c| ensures SpellsByte(t[2 * i], t[2 * i + 1], c[i]) {
        assert SpellsByte(s[2 * (i + 1)], s[2 * (i + 1) + 1], b[i + 1]);
      }
    }
    if SpellsByte(s[0], s[1], b[0]) && SpellsBytes(t, c) {
      forall i | 0 <= i < |b| ensures SpellsByte(s[2 * i], s[2 * i + 1], b[i]) {
        if i > 0 {
          assert SpellsByte(t[2 * (i - 1)], t[2 * (i - 1) + 1], c[i - 1]);
        }
      }
    }
  }

  lemma {:induction false} DecodedSpells(s: Bytes, b: Bytes)
    requires DecodeHex(s) == Some(b)
    ensures SpellsBytes(s, b)
  {
    if |s| >= 2 {
      assert b[1..] == DecodeHex(s[2..]).value;
      DecodedSpells(s[2..], b[1..]);
      SpellsFirst(s, b);
    }
  }

  lemma {:induction false} SpelledDecodes(s: Bytes, b: Bytes)
    requires SpellsBytes(s, b)
    ensures DecodeHex(s) == Some(b)
  {
    if b != [] {
      SpellsFirst(s, b);
      SpelledDecodes(s[2..], b[1..]);
      assert b == [b[0]] + b[1..];
    }
  }

  predicate SpellsByte(high: Byte, low: Byte, b: Byte) {
    DigitValue(high) == Some(b as int / 16) && DigitValue(low) == Some(b as int % 16)
  }

  lemma HexOfInjective(a: Digest, b: Digest)
    requires HexOf(a) == HexOf(b)
    ensures a == b
  {
    HexRoundTrip(a.bytes);
    HexRoundTrip(b.bytes);
  }

  /** A hash in its text form. */
  function HashHex(H: Sha512, x: Bytes): (h: Bytes)
    ensures |h| == 128 && IsLowerHex(h)
  {
    HexOf(H(x))
  }

  lemma HashHexInjective(H: Sha512, queries: set<Bytes>, x: Bytes, y: Bytes)
    requires InjectiveOn(H, queries) && x in queries && y in queries && HashHex(H, x) == HashHex(H, y)
    ensures x == y
  {
    HexOfInjective(H(x), H(y));
    Collide(H, queries, x, y);
  }

  // ----- prefixes -----------------------------------------------------------------------

  const PREFIX: Bytes := "sha512:"

  function Strip(s: Bytes): Bytes {
    if PREFIX <= s then s[|PREFIX|..] else s
  }

  lemma StripBareHex(s: Bytes)
    requires IsLowerHex(s)
    ensures Strip(s) == s
  {
    assert PREFIX[0] == 's';
  }

  lemma StripPrefixed(s: Bytes)
    ensures Strip(PREFIX + s) == s
  {
  }
}
