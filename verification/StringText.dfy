/** The text of a string: what is escaped, what is not, and how it reads back. */
module StringText {
  import opened Wrappers
  import opened Hex
  import opened KeyOrder
  import opened Sequences

  /** The letter of a two-character escape. */
  function Short(unit: int): Option<char> {
    if unit == 0x22 then Some('\"')
    else if unit == 0x5C then Some('\\')
    else if unit == 0x08 then Some('b')
    else if unit == 0x0C then Some('f')
    else if unit == 0x0A then Some('n')
    else if unit == 0x0D then Some('r')
    else if unit == 0x09 then Some('t')
    else None
  }

  function LongShort(letter: char): Option<char> {
    if letter == '\"' || letter == '\\' then Some(letter)
    else if letter == 'b' then Some('\U{08}')
    else if letter == 'f' then Some('\U{0C}')
    else if letter == 'n' then Some('\n')
    else if letter == 'r' then Some('\r')
    else if letter == 't' then Some('\t')
    else None
  }

  function Hex4(u: int): (s: string)
    requires 0 <= u < 0x1_0000
    ensures |s| == 4
  {
    var a := u / 16;
    var b := a / 16;
    [Digit(b / 16), Digit(b % 16), Digit(a % 16), Digit(u % 16)]
  }

  function HexValue(c: char): (v: Option<nat>)
    ensures v.Some? ==> v.value < 16
  {
    if c as int < 256 then DigitValue(c) else None
  }

  function ReadHex4(s: string): (u: Option<int>)
    ensures u.Some? ==> |s| >= 4 && 0 <= u.value < 0x1_0000
  {
    if |s| < 4 then None
    else
      var a, b, c, d := HexValue(s[0]), HexValue(s[1]), HexValue(s[2]), HexValue(s[3]);
      if a.Some? && b.Some? && c.Some? && d.Some?
      then Some(4096 * a.value + 256 * b.value + 16 * c.value + d.value)
      else None
  }

  function UnicodeEscape(u: int): (s: string)
    requires 0 <= u < 0x1_0000
    ensures |s| == 6
  {
    ['\\', 'u'] + Hex4(u)
  }

  /** One rune; `pairs` says whether runes beyond the basic plane are escaped as surrogate
      pairs or written as they are. */
  function Escape(c: char, pairs: bool): (s: string)
    ensures s != [] && s[0] != '\"'
  {
    var n := c as int;
    if Short(n).Some? then ['\\', Short(n).value]
    else if n < 0x20 then UnicodeEscape(n)
    else if n < 0x1_0000 || !pairs then [c]
    else
      RuneOfPair(c);
      UnicodeEscape(Lead(c)) + UnicodeEscape(Trail(c))
  }

  function EscapeAll(s: string, pairs: bool): string {
    if s == [] then [] else Escape(s[0], pairs) + EscapeAll(s[1..], pairs)
  }

  function Quoted(s: string, pairs: bool): string {
    ['\"'] + EscapeAll(s, pairs) + ['\"']
  }

  /** Two quotes and five controls are escaped by a letter. */
  lemma LetterEscapes(pairs: bool)
    ensures Escape('\"', pairs) == ['\\', '\"'] && Escape('\\', pairs) == ['\\', '\\']
    ensures Escape('\U{08}', pairs) == ['\\', 'b'] && Escape('\U{09}', pairs) == ['\\', 't']
    ensures Escape('\U{0A}', pairs) == ['\\', 'n'] && Escape('\U{0C}', pairs) == ['\\', 'f']
    ensures Escape('\U{0D}', pairs) == ['\\', 'r']
  {
  }

  /** The other controls are escaped by four digits. */
  lemma ControlEscapes(c: char, pairs: bool)
    requires c < '\U{08}' || c == '\U{0B}' || '\U{0D}' < c < ' '
    ensures Escape(c, pairs) == ['\\', 'u', '0', '0', DIGITS[c as int / 16], DIGITS[c as int % 16]]
  {
    FourDigits(c as int);
  }

  /** Nothing else of the basic plane is escaped, and nothing beyond it where runes are not
      written as pairs. */
  lemma PlainRunes(c: char, pairs: bool)
    requires c >= ' ' && c != '\"' && c != '\\' && (c < '\U{10000}' || !pairs)
    ensures Escape(c, pairs) == [c]
  {
  }

  /** Four digits, the most significant first. */
  lemma FourDigits(u: int)
    requires 0 <= u < 0x1_0000
    ensures Hex4(u) == [DIGITS[u / 4096], DIGITS[u / 256 % 16], DIGITS[u / 16 % 16], DIGITS[u % 16]]
  {
    assert u / 16 / 16 == u / 256 && u / 256 / 16 == u / 4096;
  }

  // ----- reading ------------------------------------------------------------------------

  function ReadUnit(s: string): Option<int> {
    if |s| >= 6 && s[0] == '\\' && s[1] == 'u' then ReadHex4(s[2..]) else None
  }

  /** One rune and what follows it. */
  function ReadRune(s: string): (r: Option<(char, string)>)
    ensures r.Some? ==> |r.value.1| < |s|
  {
    if s == [] then None
    else if s[0] != '\\' then Some((s[0], s[1..]))
    else if |s| == 1 then None
    else if s[1] != 'u' then
      var c := LongShort(s[1]);
      if c.Some? then Some((c.value, s[2..])) else None
    else
      var u := ReadUnit(s);
      if u.None? || IsTrail(u.value) then None
      else if !IsLead(u.value) then Some((u.value as char, s[6..]))
      else
        var t := ReadUnit(s[6..]);
        if t.Some? && IsTrail(t.value) then Some((Rune(u.value, t.value), s[12..])) else None
  }

  /** The runes up to the closing quote, and what follows the quote. */
  function ReadRunes(s: string): (r: Option<(string, string)>)
    ensures r.Some? ==> |r.value.1| < |s|
    decreases |s|
  {
    if s == [] then None
    else if s[0] == '\"' then Some(([], s[1..]))
    else
      var first := ReadRune(s);
      if first.None? then None
      else
        var more := ReadRunes(first.value.1);
        if more.None? then None else Some(([first.value.0] + more.value.0, more.value.1))
  }

  function ReadString(s: string): (r: Option<(string, string)>)
    ensures r.Some? ==> |r.value.1| < |s|
  {
    if s == [] || s[0] != '\"' then None else ReadRunes(s[1..])
  }

  lemma UnicodeEscapeReads(u: int, rest: string)
    requires 0 <= u < 0x1_0000
    ensures ReadUnit(UnicodeEscape(u) + rest) == Some(u) && (UnicodeEscape(u) + rest)[6..] == rest
  {
    assert (UnicodeEscape(u) + rest)[2..] == Hex4(u) + rest;
  }

  /** Elsewhere a rune beyond it is escaped as the two surrogates that stand for it. */
  lemma EscapeOfPair(c: char)
    requires c as int >= 0x1_0000
    ensures IsLead(Lead(c)) && IsTrail(Trail(c)) && Rune(Lead(c), Trail(c)) == c
    ensures Escape(c, true) == UnicodeEscape(Lead(c)) + UnicodeEscape(Trail(c))
  {
    RuneOfPair(c);
  }

  lemma PairReads(lead: int, trail: int, rest: string)
    requires IsLead(lead) && IsTrail(trail)
    ensures ReadRune(UnicodeEscape(lead) + (UnicodeEscape(trail) + rest)) == Some((Rune(lead, trail), rest))
  {
    var tail := UnicodeEscape(trail) + rest;
    var s := UnicodeEscape(lead) + tail;
    UnicodeEscapeReads(lead, tail);
    UnicodeEscapeReads(trail, rest);
    assert s[12..] == tail[6..];
  }

  lemma ControlReads(n: int, rest: string)
    requires 0 <= n < 0x20
    ensures ReadRune(UnicodeEscape(n) + rest) == Some((n as char, rest))
  {
    UnicodeEscapeReads(n, rest);
  }

  lemma EscapeReads(c: char, pairs: bool, rest: string)
    ensures ReadRune(Escape(c, pairs) + rest) == Some((c, rest))
  {
    var n := c as int;
    if Short(n).None? && n < 0x20 {
      ControlReads(n, rest);
    } else if n >= 0x1_0000 && pairs {
      EscapeOfPair(c);
      PairReads(Lead(c), Trail(c), rest);
      Assoc(UnicodeEscape(Lead(c)), UnicodeEscape(Trail(c)), rest);
    }
  }

  lemma RunesStep(c: char, pairs: bool, tail: string, more: string, rest: string)
    requires ReadRunes(tail) == Some((more, rest))
    ensures ReadRunes(Escape(c, pairs) + tail) == Some(([c] + more, rest))
  {
    EscapeReads(c, pairs, tail);
    assert (Escape(c, pairs) + tail)[0] == Escape(c, pairs)[0];
  }

  lemma {:induction false} EscapeAllReads(s: string, pairs: bool, rest: string)
    ensures ReadRunes(EscapeAll(s, pairs) + (['\"'] + rest)) == Some((s, rest))
  {
    var end := ['\"'] + rest;
    if s == [] {
      DropFront(['\"'], rest);
      assert EscapeAll(s, pairs) + end == end;
    } else {
      EscapeAllReads(s[1..], pairs, rest);
      RunesStep(s[0], pairs, EscapeAll(s[1..], pairs) + end, s[1..], rest);
      Assoc(Escape(s[0], pairs), EscapeAll(s[1..], pairs), end);
      Head(s);
    }
  }

  /** A string's text reads back, whatever follows it. */
  lemma StringRoundTrip(s: string, pairs: bool, rest: string)
    ensures ReadString(Quoted(s, pairs) + rest) == Some((s, rest))
  {
    EscapeAllReads(s, pairs, rest);
    var end := EscapeAll(s, pairs) + (['\"'] + rest);
    Assoc(['\"'] + EscapeAll(s, pairs), ['\"'], rest);
    Assoc(['\"'], EscapeAll(s, pairs), ['\"'] + rest);
    DropFront(['\"'], end);
  }

  // ----- per code unit ------------------------------------------------------------------

  /** One UTF-16 unit: the same short escapes, and every control or surrogate unit in hex. */
  function EscapeUnit(u: int): seq<int>
    requires 0 <= u < 0x1_0000
  {
    if Short(u).Some? then ['\\' as int, Short(u).value as int]
    else if u < 0x20 || 0xD800 <= u <= 0xDFFF then Codes(UnicodeEscape(u))
    else [u]
  }

  function Codes(s: string): seq<int> {
    seq(|s|, i requires 0 <= i < |s| => s[i] as int)
  }

  predicate AreUnits(units: seq<int>) {
    forall i | 0 <= i < |units| :: 0 <= units[i] < 0x1_0000
  }

  function EscapeUnits(units: seq<int>): seq<int>
    requires AreUnits(units)
  {
    if units == [] then [] else EscapeUnit(units[0]) + EscapeUnits(units[1..])
  }

  /** The loop over a string's code units. */
  method SerializeString(units: seq<int>) returns (out: seq<int>)
    requires AreUnits(units)
    ensures out == ['\"' as int] + EscapeUnits(units) + ['\"' as int]
  {
    out := ['\"' as int];
    for i := 0 to |units|
      invariant out + EscapeUnits(units[i..]) == ['\"' as int] + EscapeUnits(units)
    {
      EscapeUnitsStep(out, units, i);
      var u := units[i];
      if Short(u).Some? {
        out := out + ['\\' as int, Short(u).value as int];
      } else if u < 0x20 || 0xD800 <= u <= 0xDFFF {
        out := out + Codes(UnicodeEscape(u));
      } else {
        out := out + [u];
      }
    }
    assert EscapeUnits(units[|units|..]) == [];
    out := out + ['\"' as int];
  }

  lemma EscapeUnitsStep(out: seq<int>, units: seq<int>, i: nat)
    requires AreUnits(units) && i < |units|
    ensures out + EscapeUnits(units[i..]) == out + EscapeUnit(units[i]) + EscapeUnits(units[i + 1..])
  {
    assert units[i..][1..] == units[i + 1..];
    Assoc(out, EscapeUnit(units[i]), EscapeUnits(units[i + 1..]));
  }

  lemma {:induction false} UnitsOfAscii(s: string)
    requires forall i | 0 <= i < |s| :: (s[i] as int) < 0x1_0000
    ensures Units(s) == Codes(s)
  {
    if s != [] {
      UnitsOfAscii(s[1..]);
      assert Codes(s) == [s[0] as int] + Codes(s[1..]);
    }
  }

  lemma {:induction false} UnitsAreUnits(s: string)
    ensures AreUnits(Units(s))
  {
    if s != [] {
      UnitsAreUnits(s[1..]);
      if s[0] as int >= 0x1_0000 {
        RuneOfPair(s[0]);
      }
    }
  }

  lemma EscapeBasic(c: char)
    requires c as int < 0x1_0000
    ensures EscapeUnit(c as int) == Codes(Escape(c, true)) == Units(Escape(c, true))
  {
    UnitsOfBasic(c);
    UnitsOfAscii(Escape(c, true));
  }

  lemma EscapeSurrogate(u: int)
    requires IsLead(u) || IsTrail(u)
    ensures EscapeUnit(u) == Units(UnicodeEscape(u))
  {
    UnitsOfAscii(UnicodeEscape(u));
  }

  lemma EscapePair(c: char)
    requires c as int >= 0x1_0000
    ensures IsLead(Lead(c)) && IsTrail(Trail(c))
    ensures EscapeUnit(Lead(c)) + EscapeUnit(Trail(c)) == Units(Escape(c, true))
  {
    EscapeOfPair(c);
    EscapeSurrogate(Lead(c));
    EscapeSurrogate(Trail(c));
    UnitsConcat(UnicodeEscape(Lead(c)), UnicodeEscape(Trail(c)));
  }

  lemma PairAgrees(lead: int, trail: int, rest: seq<int>)
    requires IsLead(lead) && IsTrail(trail) && AreUnits(rest)
    ensures AreUnits([lead, trail] + rest)
    ensures EscapeUnits([lead, trail] + rest) == EscapeUnit(lead) + EscapeUnit(trail) + EscapeUnits(rest)
  {
    assert [lead, trail] == [lead] + [trail];
    Assoc([lead], [trail], rest);
    Assoc(EscapeUnit(lead), EscapeUnit(trail), EscapeUnits(rest));
  }

  /** A rune escaped whole and its code units escaped one by one give the same units. */
  lemma RuneAgrees(c: char, rest: seq<int>)
    requires AreUnits(rest)
    ensures AreUnits(UnitsOf(c) + rest)
    ensures EscapeUnits(UnitsOf(c) + rest) == Units(Escape(c, true)) + EscapeUnits(rest)
  {
    if c as int < 0x1_0000 {
      EscapeBasic(c);
    } else {
      EscapePair(c);
      PairAgrees(Lead(c), Trail(c), rest);
    }
  }

  /** Emitting per rune and per code unit agree on every string. */
  lemma {:induction false} EmittersAgree(s: string)
    ensures AreUnits(Units(s)) && EscapeUnits(Units(s)) == Units(EscapeAll(s, true))
  {
    if s != [] {
      EmittersAgree(s[1..]);
      RuneAgrees(s[0], Units(s[1..]));
      UnitsConcat(Escape(s[0], true), EscapeAll(s[1..], true));
    }
  }
}
