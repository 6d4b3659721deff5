/** The canonical text of a document, and a parser that undoes it. */
module CanonicalJson {
  import opened Json
  import opened KeyOrder
  import opened Sequences
  import opened NumberText
  import opened StringText

  /** A document as decoding yields it: every number is one that number text can stand for. */
  ghost predicate IsDocument(v: Json) {
    match v
    case Num(n) => IsNumber(n)
    case Arr(items) => forall i | 0 <= i < |items| :: IsDocument(items[i])
    case Obj(fields) => forall k | k in fields :: IsDocument(fields[k])
    case _ => true
  }

  ghost predicate AreDocuments(items: seq<Json>) {
    forall i | 0 <= i < |items| :: IsDocument(items[i])
  }

  /** `keys` are keys of the object `v`. */
  ghost predicate HasKeys(v: Json, keys: seq<string>) {
    v.Obj? && forall i | 0 <= i < |keys| :: keys[i] in v.fields
  }

  // ----- emission -----------------------------------------------------------------------

  ghost function Emit(v: Json, pairs: bool): string
    requires IsDocument(v)
    decreases v, 1
  {
    match v
    case Null => "null"
    case Bool(b) => if b then "true" else "false"
    case Num(n) => Text(n)
    case Str(s) => Quoted(s, pairs)
    case Arr(items) => ['['] + EmitItems(items, pairs) + [']']
    case Obj(fields) => ['{'] + EmitMembers(v, SortedKeys(fields.Keys), pairs) + ['}']
  }

  ghost function EmitItems(items: seq<Json>, pairs: bool): string
    requires AreDocuments(items)
    decreases items, 1
  {
    if items == [] then [] else Emit(items[0], pairs) + EmitMoreItems(items[1..], pairs)
  }

  ghost function EmitMoreItems(items: seq<Json>, pairs: bool): string
    requires AreDocuments(items)
    decreases items, 0
  {
    if items == [] then [] else [','] + Emit(items[0], pairs) + EmitMoreItems(items[1..], pairs)
  }

  ghost function EmitMember(v: Json, key: string, pairs: bool): string
    requires IsDocument(v) && v.Obj? && key in v.fields
    decreases v, 0, 0
  {
    Quoted(key, pairs) + [':'] + Emit(v.fields[key], pairs)
  }

  ghost function EmitMembers(v: Json, keys: seq<string>, pairs: bool): string
    requires IsDocument(v) && HasKeys(v, keys)
    decreases v, 0, |keys| + 1
  {
    if keys == [] then [] else EmitMember(v, keys[0], pairs) + EmitMoreMembers(v, keys[1..], pairs)
  }

  ghost function EmitMoreMembers(v: Json, keys: seq<string>, pairs: bool): string
    requires IsDocument(v) && HasKeys(v, keys)
    decreases v, 0, |keys| + 1
  {
    if keys == [] then [] else [','] + EmitMember(v, keys[0], pairs) + EmitMoreMembers(v, keys[1..], pairs)
  }

  // ----- the emitter over a shared buffer -----------------------------------------------

  class Buffer {
    var text: string

    constructor ()
      ensures text == []
    {
      text := [];
    }

    method Write(s: string)
      modifies this
      ensures text == old(text) + s
    {
      text := text + s;
    }
  }

  lemma EscapeStep(before: string, s: string, i: nat, pairs: bool)
    requires i < |s|
    ensures before + EscapeAll(s[i..], pairs) == before + Escape(s[i], pairs) + EscapeAll(s[i + 1..], pairs)
  {
    assert s[i..][1..] == s[i + 1..];
    Assoc(before, Escape(s[i], pairs), EscapeAll(s[i + 1..], pairs));
  }

  method WriteRunes(buf: Buffer, s: string, pairs: bool)
    modifies buf
    ensures buf.text == old(buf.text) + EscapeAll(s, pairs)
  {
    for i := 0 to |s|
      invariant buf.text + EscapeAll(s[i..], pairs) == old(buf.text) + EscapeAll(s, pairs)
    {
      EscapeStep(buf.text, s, i, pairs);
      buf.Write(Escape(s[i], pairs));
    }
    assert EscapeAll(s[|s|..], pairs) == [];
  }

  method WriteString(buf: Buffer, s: string, pairs: bool)
    modifies buf
    ensures buf.text == old(buf.text) + Quoted(s, pairs)
  {
    ghost var before, body := buf.text, EscapeAll(s, pairs);
    buf.Write(['\"']);
    WriteRunes(buf, s, pairs);
    buf.Write(['\"']);
    Regroup(before, ['\"'], body, ['\"']);
  }

  /** The keys of an object in whatever order its map yields them. */
  method AnyOrder(fields: map<string, Json>) returns (keys: seq<string>)
    ensures Enumerates(keys, fields.Keys) && forall i, j | 0 <= i < j < |keys| :: keys[i] != keys[j]
  {
    keys := [];
    var left := fields.Keys;
    while left != {}
      invariant left <= fields.Keys
      invariant Enumerates(keys, fields.Keys - left)
      invariant forall i, j | 0 <= i < j < |keys| :: keys[i] != keys[j]
      decreases |left|
    {
      var k :| k in left;
      keys := keys + [k];
      left := left - {k};
    }
  }

  method WriteValue(buf: Buffer, v: Json, pairs: bool)
    requires IsDocument(v)
    modifies buf
    ensures buf.text == old(buf.text) + Emit(v, pairs)
    decreases v, 1
  {
    match v {
      case Null => buf.Write("null");
      case Bool(b) => buf.Write(if b then "true" else "false");
      case Num(n) => buf.Write(Text(n));
      case Str(s) => WriteString(buf, s, pairs);
      case Arr(items) => WriteArray(buf, items, pairs);
      case Obj(fields) => WriteObject(buf, v, pairs);
    }
  }

  method WriteArray(buf: Buffer, items: seq<Json>, pairs: bool)
    requires AreDocuments(items)
    modifies buf
    ensures buf.text == old(buf.text) + (['['] + EmitItems(items, pairs) + [']'])
    decreases items, 1
  {
    ghost var before := buf.text;
    buf.Write(['[']);
    WriteItems(buf, items, pairs);
    buf.Write([']']);
    Regroup(before, ['['], EmitItems(items, pairs), [']']);
  }

  method WriteObject(buf: Buffer, v: Json, pairs: bool)
    requires IsDocument(v) && v.Obj?
    modifies buf
    ensures buf.text == old(buf.text) + (['{'] + EmitMembers(v, SortedKeys(v.fields.Keys), pairs) + ['}'])
    decreases v, 0, 1
  {
    ghost var before := buf.text;
    var keys := AnyOrder(v.fields);
    keys := SortKeys(keys, v.fields.Keys);
    SortedUnique(keys, SortedKeys(v.fields.Keys), v.fields.Keys);
    buf.Write(['{']);
    WriteMembers(buf, v, keys, pairs);
    buf.Write(['}']);
    Regroup(before, ['{'], EmitMembers(v, keys, pairs), ['}']);
  }

  function Separator(i: nat): string {
    if i == 0 then [] else [',']
  }

  /** What is still to be written before item `i`. */
  ghost function ItemsLeft(items: seq<Json>, i: nat, pairs: bool): string
    requires AreDocuments(items) && i <= |items|
  {
    if i == 0 then EmitItems(items, pairs) else EmitMoreItems(items[i..], pairs)
  }

  lemma ItemsFront(items: seq<Json>, i: nat, pairs: bool)
    requires AreDocuments(items) && i < |items|
    ensures ItemsLeft(items, i, pairs) == Separator(i) + Emit(items[i], pairs) + ItemsLeft(items, i + 1, pairs)
  {
    DropTwice(items, i);
  }

  lemma ItemsStep(before: string, items: seq<Json>, i: nat, pairs: bool)
    requires AreDocuments(items) && i < |items|
    ensures before + ItemsLeft(items, i, pairs)
            == before + Separator(i) + Emit(items[i], pairs) + ItemsLeft(items, i + 1, pairs)
  {
    ItemsFront(items, i, pairs);
    Regroup(before, Separator(i), Emit(items[i], pairs), ItemsLeft(items, i + 1, pairs));
  }

  method WriteItems(buf: Buffer, items: seq<Json>, pairs: bool)
    requires AreDocuments(items)
    modifies buf
    ensures buf.text == old(buf.text) + EmitItems(items, pairs)
    decreases items, 0
  {
    for i := 0 to |items|
      invariant buf.text + ItemsLeft(items, i, pairs) == old(buf.text) + EmitItems(items, pairs)
    {
      ItemsStep(buf.text, items, i, pairs);
      buf.Write(Separator(i));
      WriteValue(buf, items[i], pairs);
    }
  }

  lemma Regroup(a: string, b: string, c: string, d: string)
    ensures a + b + c + d == a + (b + c + d)
  {
  }

  /** What is still to be written before key `i`. */
  ghost function MembersLeft(v: Json, keys: seq<string>, i: nat, pairs: bool): string
    requires IsDocument(v) && HasKeys(v, keys) && i <= |keys|
  {
    if i == 0 then EmitMembers(v, keys, pairs) else EmitMoreMembers(v, keys[i..], pairs)
  }

  lemma MoreMembersFront(v: Json, key: string, rest: seq<string>, pairs: bool)
    requires IsDocument(v) && HasKeys(v, [key] + rest) && HasKeys(v, rest) && key in v.fields
    ensures EmitMoreMembers(v, [key] + rest, pairs) ==
            [','] + EmitMember(v, key, pairs) + EmitMoreMembers(v, rest, pairs)
    ensures EmitMembers(v, [key] + rest, pairs) == EmitMember(v, key, pairs) + EmitMoreMembers(v, rest, pairs)
  {
    DropFront([key], rest);
  }

  lemma MembersFront(v: Json, keys: seq<string>, i: nat, pairs: bool)
    requires IsDocument(v) && HasKeys(v, keys) && i < |keys|
    ensures MembersLeft(v, keys, i, pairs)
            == Separator(i) + EmitMember(v, keys[i], pairs) + MembersLeft(v, keys, i + 1, pairs)
  {
    DropTwice(keys, i);
    MoreMembersFront(v, keys[i], keys[i + 1..], pairs);
    assert keys[0..] == keys;
  }

  lemma MembersStep(before: string, v: Json, keys: seq<string>, i: nat, pairs: bool)
    requires IsDocument(v) && HasKeys(v, keys) && i < |keys|
    ensures before + MembersLeft(v, keys, i, pairs)
            == before + Separator(i) + EmitMember(v, keys[i], pairs) + MembersLeft(v, keys, i + 1, pairs)
  {
    MembersFront(v, keys, i, pairs);
    Regroup(before, Separator(i), EmitMember(v, keys[i], pairs), MembersLeft(v, keys, i + 1, pairs));
  }

  method WriteMembers(buf: Buffer, v: Json, keys: seq<string>, pairs: bool)
    requires IsDocument(v) && HasKeys(v, keys)
    modifies buf
    ensures buf.text == old(buf.text) + EmitMembers(v, keys, pairs)
    decreases v, 0, 0
  {
    for i := 0 to |keys|
      invariant buf.text + MembersLeft(v, keys, i, pairs) == old(buf.text) + EmitMembers(v, keys, pairs)
    {
      MembersStep(buf.text, v, keys, i, pairs);
      buf.Write(Separator(i));
      WriteMember(buf, v, keys[i], pairs);
    }
  }

  method WriteMember(buf: Buffer, v: Json, key: string, pairs: bool)
    requires IsDocument(v) && v.Obj? && key in v.fields
    modifies buf
    ensures buf.text == old(buf.text) + EmitMember(v, key, pairs)
    decreases v.fields[key], 2
  {
    WriteString(buf, key, pairs);
    buf.Write([':']);
    WriteValue(buf, v.fields[key], pairs);
  }

  // ----- what the text looks like -------------------------------------------------------

  /** The words, the brackets and the comma. */
  lemma EmitForms(v: Json, w: Json, pairs: bool)
    requires IsDocument(v) && IsDocument(w)
    ensures Emit(Null, pairs) == "null" && Emit(Bool(true), pairs) == "true" && Emit(Bool(false), pairs) == "false"
    ensures Emit(Arr([]), pairs) == "[]"
    ensures Emit(Arr([v, w]), pairs) == ['['] + (Emit(v, pairs) + ([','] + Emit(w, pairs))) + [']']
  {
    assert [v, w][1..] == [w] && [w][1..] == [];
    assert Emit(w, pairs) + [] == Emit(w, pairs);
    assert EmitMoreItems([w], pairs) == [','] + Emit(w, pairs);
    assert ['['] + [] + [']'] == "[]";
  }

  /** A member is its key, a colon and its value. */
  lemma MemberForm(v: Json, key: string, pairs: bool)
    requires IsDocument(v) && v.Obj? && key in v.fields
    ensures EmitMember(v, key, pairs) == ['\"'] + EscapeAll(key, pairs) + ['\"', ':'] + Emit(v.fields[key], pairs)
  {
  }

  // ----- two members --------------------------------------------------------------------

  /** Of two members the one with the lesser key is written first. */
  lemma {:induction false} TwoMembers(v: Json, k: string, l: string, pairs: bool)
    requires IsDocument(v) && v.Obj? && v.fields.Keys == {k, l} && Less(k, l)
    ensures Emit(v, pairs) == ['{'] + (EmitMember(v, k, pairs) + ([','] + EmitMember(v, l, pairs))) + ['}']
  {
    SortedUnique([k, l], SortedKeys(v.fields.Keys), v.fields.Keys);
    TwoMembersText(v, k, l, pairs);
  }

  lemma TwoMembersText(v: Json, k: string, l: string, pairs: bool)
    requires IsDocument(v) && HasKeys(v, [k, l])
    ensures k in v.fields && l in v.fields
    ensures EmitMembers(v, [k, l], pairs) == EmitMember(v, k, pairs) + ([','] + EmitMember(v, l, pairs))
  {
    assert [k, l][0] == k && [k, l][1] == l;
    assert [k, l] == [k] + [l] && [l] == [l] + [];
    MoreMembersFront(v, l, [], pairs);
    MoreMembersFront(v, k, [l], pairs);
  }
}
