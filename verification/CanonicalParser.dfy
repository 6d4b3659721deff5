/** A parser for canonical text. It recovers every document from its text, so the text, and
    with it the canonical hash, determines the document. */
module CanonicalParser {
  import opened Wrappers
  import opened Hashing
  import opened Encoding
  import opened Hex
  import opened Json
  import opened KeyOrder
  import opened Sequences
  import opened NumberText
  import opened StringText
  import opened CanonicalJson

  // ----- the parser ---------------------------------------------------------------------

  /** The longest prefix of characters a number may hold. */
  function Token(s: string): (t: Bytes)
    ensures |t| <= |s|
  {
    if s != [] && IsNumberChar(s[0]) then [s[0]] + Token(s[1..]) else []
  }

  function ParseWord(s: string, word: string, v: Json): (r: Option<(Json, string)>)
    ensures r.Some? ==> |r.value.1| <= |s| - |word|
  {
    if word <= s then Some((v, s[|word|..])) else None
  }

  function ParseNumberToken(s: string): (r: Option<(Json, string)>)
    ensures r.Some? ==> |r.value.1| < |s|
  {
    var t := Token(s);
    if t == [] then None
    else
      var n := ParseNumber(t);
      if n.Some? then Some((Num(n.value), s[|t|..])) else None
  }

  function ParseValue(s: string): (r: Option<(Json, string)>)
    ensures r.Some? ==> |r.value.1| < |s|
    decreases |s|, 1
  {
    if s == [] then None
    else if IsNumberChar(s[0]) then ParseNumberToken(s)
    else if s[0] == 'n' then ParseWord(s, "null", Null)
    else if s[0] == 't' then ParseWord(s, "true", Bool(true))
    else if s[0] == 'f' then ParseWord(s, "false", Bool(false))
    else if s[0] == '\"' then
      var r := ReadString(s);
      if r.Some? then Some((Str(r.value.0), r.value.1)) else None
    else if s[0] == '[' then
      var r := ParseItems(s[1..]);
      if r.Some? then Some((Arr(r.value.0), r.value.1)) else None
    else if s[0] == '{' then
      var r := ParseMembers(s[1..]);
      if r.Some? then Some((Obj(r.value.0), r.value.1)) else None
    else None
  }

  function ParseItems(s: string): (r: Option<(seq<Json>, string)>)
    ensures r.Some? ==> |r.value.1| < |s|
    decreases |s|, 2
  {
    if s != [] && s[0] == ']' then Some(([], s[1..]))
    else
      var first := ParseValue(s);
      if first.None? then None
      else
        var more := ParseMoreItems(first.value.1);
        if more.None? then None else Some(([first.value.0] + more.value.0, more.value.1))
  }

  function ParseMoreItems(s: string): (r: Option<(seq<Json>, string)>)
    ensures r.Some? ==> |r.value.1| < |s|
    decreases |s|, 0
  {
    if s == [] then None
    else if s[0] == ']' then Some(([], s[1..]))
    else if s[0] != ',' then None
    else
      var first := ParseValue(s[1..]);
      if first.None? then None
      else
        var more := ParseMoreItems(first.value.1);
        if more.None? then None else Some(([first.value.0] + more.value.0, more.value.1))
  }

  function ParseMember(s: string): (r: Option<(string, Json, string)>)
    ensures r.Some? ==> |r.value.2| < |s|
    decreases |s|, 2
  {
    var key := ReadString(s);
    if key.None? || key.value.1 == [] || key.value.1[0] != ':' then None
    else
      var v := ParseValue(key.value.1[1..]);
      if v.None? then None else Some((key.value.0, v.value.0, v.value.1))
  }

  function ParseMembers(s: string): (r: Option<(map<string, Json>, string)>)
    ensures r.Some? ==> |r.value.1| < |s|
    decreases |s|, 3
  {
    if s != [] && s[0] == '}' then Some((map[], s[1..]))
    else
      var first := ParseMember(s);
      if first.None? then None
      else
        var more := ParseMoreMembers(first.value.2);
        if more.None? then None else Some((more.value.0[first.value.0 := first.value.1], more.value.1))
  }

  function ParseMoreMembers(s: string): (r: Option<(map<string, Json>, string)>)
    ensures r.Some? ==> |r.value.1| < |s|
    decreases |s|, 0
  {
    if s == [] then None
    else if s[0] == '}' then Some((map[], s[1..]))
    else if s[0] != ',' then None
    else
      var first := ParseMember(s[1..]);
      if first.None? then None
      else
        var more := ParseMoreMembers(first.value.2);
        if more.None? then None else Some((more.value.0[first.value.0 := first.value.1], more.value.1))
  }

  // ----- round trip ---------------------------------------------------------------------

  /** What follows a value does not extend a number. */
  predicate Delimited(rest: string) {
    rest == [] || !IsNumberChar(rest[0])
  }

  lemma {:induction false} TokenOf(t: Bytes, rest: string)
    requires AllChars(t) && Delimited(rest)
    ensures Token(t + rest) == t
  {
    if t == [] {
      assert t + rest == rest;
    } else {
      TokenOf(t[1..], rest);
      assert (t + rest)[1..] == t[1..] + rest;
    }
  }

  lemma NumberStarts(s: string)
    requires s != [] && IsNumberChar(s[0])
    ensures ParseValue(s) == ParseNumberToken(s)
  {
  }

  lemma NumberParses(n: Number, rest: string)
    requires IsNumber(n) && Delimited(rest)
    ensures ParseValue(Text(n) + rest) == Some((Num(n), rest))
  {
    NumberChars(n);
    assert (Text(n) + rest)[0] == Text(n)[0];
    NumberStarts(Text(n) + rest);
    TokenOf(Text(n), rest);
    NumberRoundTrip(n);
    DropFront(Text(n), rest);
  }

  lemma WordParses(v: Json, pairs: bool, rest: string)
    requires v.Null? || v.Bool?
    ensures ParseValue(Emit(v, pairs) + rest) == Some((v, rest))
  {
    var s := Emit(v, pairs) + rest;
    assert s[|Emit(v, pairs)|..] == rest;
  }

  lemma StringParses(s: string, pairs: bool, rest: string)
    ensures ParseValue(Quoted(s, pairs) + rest) == Some((Str(s), rest))
  {
    StringRoundTrip(s, pairs, rest);
  }

  lemma {:induction false} ValueParses(v: Json, pairs: bool, rest: string)
    requires IsDocument(v) && Delimited(rest)
    ensures ParseValue(Emit(v, pairs) + rest) == Some((v, rest))
    decreases v, 1
  {
    match v {
      case Null => WordParses(v, pairs, rest);
      case Bool(b) => WordParses(v, pairs, rest);
      case Num(n) => NumberParses(n, rest);
      case Str(s) => StringParses(s, pairs, rest);
      case Arr(items) =>
        ItemsParse(items, pairs, rest);
        ArrayParses(items, pairs, rest);
      case Obj(fields) =>
        var keys := SortedKeys(fields.Keys);
        MembersParse(v, keys, pairs, rest);
        ObjectParses(v, keys, pairs, rest);
    }
  }

  lemma ArrayParses(items: seq<Json>, pairs: bool, rest: string)
    requires AreDocuments(items) && ParseItems(EmitItems(items, pairs) + [']'] + rest) == Some((items, rest))
    ensures ParseValue(['['] + EmitItems(items, pairs) + [']'] + rest) == Some((Arr(items), rest))
  {
    var tail := EmitItems(items, pairs) + [']'] + rest;
    BracketFirst('[', EmitItems(items, pairs), ']', rest);
    DropFront(['['], tail);
  }

  lemma BracketFirst(open: char, body: string, close: char, rest: string)
    ensures [open] + body + [close] + rest == [open] + (body + [close] + rest)
  {
  }

  lemma ObjectParses(v: Json, keys: seq<string>, pairs: bool, rest: string)
    requires IsDocument(v) && v.Obj? && Enumerates(keys, v.fields.Keys)
    requires ParseMembers(EmitMembers(v, keys, pairs) + ['}'] + rest) == Some((Picked(v, keys), rest))
    ensures ParseValue(['{'] + EmitMembers(v, keys, pairs) + ['}'] + rest) == Some((v, rest))
  {
    var tail := EmitMembers(v, keys, pairs) + ['}'] + rest;
    BracketFirst('{', EmitMembers(v, keys, pairs), '}', rest);
    DropFront(['{'], tail);
    PickedAll(v, keys);
  }

  lemma {:induction false} ItemsParse(items: seq<Json>, pairs: bool, rest: string)
    requires AreDocuments(items)
    ensures ParseItems(EmitItems(items, pairs) + [']'] + rest) == Some((items, rest))
    decreases items, 1
  {
    if items == [] {
      assert EmitItems(items, pairs) + [']'] + rest == [']'] + rest;
    } else {
      var head, tail := Emit(items[0], pairs), EmitMoreItems(items[1..], pairs) + [']'] + rest;
      MoreItemsParse(items[1..], pairs, rest);
      ValueParses(items[0], pairs, tail);
      Regroup(head, EmitMoreItems(items[1..], pairs), [']'], rest);
      assert [items[0]] + items[1..] == items;
    }
  }

  lemma {:induction false} MoreItemsParse(items: seq<Json>, pairs: bool, rest: string)
    requires AreDocuments(items)
    ensures ParseMoreItems(EmitMoreItems(items, pairs) + [']'] + rest) == Some((items, rest))
    ensures Delimited(EmitMoreItems(items, pairs) + [']'] + rest)
    decreases items, 0
  {
    if items == [] {
      assert EmitMoreItems(items, pairs) + [']'] + rest == [']'] + rest;
    } else {
      var head, tail := Emit(items[0], pairs), EmitMoreItems(items[1..], pairs) + [']'] + rest;
      MoreItemsParse(items[1..], pairs, rest);
      ValueParses(items[0], pairs, tail);
      RegroupAfter(',', head, EmitMoreItems(items[1..], pairs), [']'], rest);
      assert [items[0]] + items[1..] == items;
    }
  }

  lemma RegroupAfter(c: char, a: string, b: string, d: string, e: string)
    ensures [c] + a + b + d + e == [c] + (a + (b + d + e))
  {
  }

  /** The fields of `v` under `keys`. */
  function Picked(v: Json, keys: seq<string>): map<string, Json>
    requires v.Obj? && forall i | 0 <= i < |keys| :: keys[i] in v.fields
  {
    if keys == [] then map[] else Picked(v, keys[1..])[keys[0] := v.fields[keys[0]]]
  }

  lemma {:induction false} PickedIs(v: Json, keys: seq<string>)
    requires HasKeys(v, keys)
    ensures forall k :: k in Picked(v, keys) <==> k in keys
    ensures forall k | k in Picked(v, keys) :: k in v.fields && Picked(v, keys)[k] == v.fields[k]
  {
    if keys != [] {
      PickedIs(v, keys[1..]);
      assert keys == [keys[0]] + keys[1..];
    }
  }

  lemma PickedAll(v: Json, keys: seq<string>)
    requires v.Obj? && Enumerates(keys, v.fields.Keys)
    ensures HasKeys(v, keys) && Picked(v, keys) == v.fields
  {
    PickedIs(v, keys);
  }

  lemma MemberStep(key: string, pairs: bool, text: string, v: Json, rest: string)
    requires ParseValue(text + rest) == Some((v, rest))
    ensures ParseMember(Quoted(key, pairs) + ([':'] + (text + rest))) == Some((key, v, rest))
  {
    StringRoundTrip(key, pairs, [':'] + (text + rest));
    assert ([':'] + (text + rest))[1..] == text + rest;
  }

  lemma {:induction false} MemberParses(v: Json, key: string, pairs: bool, rest: string)
    requires IsDocument(v) && v.Obj? && key in v.fields && Delimited(rest)
    ensures ParseMember(EmitMember(v, key, pairs) + rest) == Some((key, v.fields[key], rest))
    ensures EmitMember(v, key, pairs) != [] && EmitMember(v, key, pairs)[0] == '\"'
    decreases v, 0, 0
  {
    var name, text := Quoted(key, pairs), Emit(v.fields[key], pairs);
    ValueParses(v.fields[key], pairs, rest);
    MemberStep(key, pairs, text, v.fields[key], rest);
    Assoc(name + [':'], text, rest);
    Assoc(name, [':'], text + rest);
  }

  lemma {:induction false} MembersParse(v: Json, keys: seq<string>, pairs: bool, rest: string)
    requires IsDocument(v) && HasKeys(v, keys)
    ensures ParseMembers(EmitMembers(v, keys, pairs) + ['}'] + rest) == Some((Picked(v, keys), rest))
    decreases v, 0, |keys| + 1
  {
    if keys == [] {
      assert EmitMembers(v, keys, pairs) + ['}'] + rest == ['}'] + rest;
    } else {
      var head, tail := EmitMember(v, keys[0], pairs), EmitMoreMembers(v, keys[1..], pairs) + ['}'] + rest;
      MoreMembersParse(v, keys[1..], pairs, rest);
      MemberParses(v, keys[0], pairs, tail);
      Regroup(head, EmitMoreMembers(v, keys[1..], pairs), ['}'], rest);
    }
  }

  lemma {:induction false} MoreMembersParse(v: Json, keys: seq<string>, pairs: bool, rest: string)
    requires IsDocument(v) && HasKeys(v, keys)
    ensures ParseMoreMembers(EmitMoreMembers(v, keys, pairs) + ['}'] + rest) == Some((Picked(v, keys), rest))
    ensures Delimited(EmitMoreMembers(v, keys, pairs) + ['}'] + rest)
    decreases v, 0, |keys| + 1
  {
    if keys == [] {
      assert EmitMoreMembers(v, keys, pairs) + ['}'] + rest == ['}'] + rest;
    } else {
      var head, tail := EmitMember(v, keys[0], pairs), EmitMoreMembers(v, keys[1..], pairs) + ['}'] + rest;
      MoreMembersParse(v, keys[1..], pairs, rest);
      MemberParses(v, keys[0], pairs, tail);
      RegroupAfter(',', head, EmitMoreMembers(v, keys[1..], pairs), ['}'], rest);
    }
  }

  /** Text determines the document, whichever way either text writes the upper planes. */
  lemma EmitInjective(v: Json, w: Json, p: bool, q: bool)
    requires IsDocument(v) && IsDocument(w) && Emit(v, p) == Emit(w, q)
    ensures v == w
  {
    ValueParses(v, p, []);
    ValueParses(w, q, []);
    assert Emit(v, p) + [] == Emit(v, p) && Emit(w, q) + [] == Emit(w, q);
  }

  // ----- the canonical hash -------------------------------------------------------------

  ghost function CanonicalBytes(v: Json, pairs: bool): Bytes
    requires IsDocument(v)
  {
    Utf8(Emit(v, pairs))
  }

  ghost function CanonicalHash(H: Sha512, v: Json, pairs: bool): Bytes
    requires IsDocument(v)
  {
    HashHex(H, CanonicalBytes(v, pairs))
  }

  lemma CanonicalHashBinds(H: Sha512, v: Json, w: Json, pairs: bool)
    requires IsDocument(v) && IsDocument(w)
    requires InjectiveOn(H, {CanonicalBytes(v, pairs), CanonicalBytes(w, pairs)})
    ensures CanonicalHash(H, v, pairs) == CanonicalHash(H, w, pairs) <==> v == w
  {
    if CanonicalHash(H, v, pairs) == CanonicalHash(H, w, pairs) {
      var p, q := CanonicalBytes(v, pairs), CanonicalBytes(w, pairs);
      HashHexInjective(H, {p, q}, p, q);
      Utf8Injective(Emit(v, pairs), Emit(w, pairs));
      EmitInjective(v, w, pairs, pairs);
    }
  }
}
