/** When the two ways of writing upper-plane runes give one text: exactly when there are none. */
module EscapeStyles {
  import opened Hashing
  import opened Hex
  import opened Encoding
  import opened Json
  import opened KeyOrder
  import opened StringText
  import opened CanonicalJson
  import opened CanonicalParser

  predicate IsBasic(s: string) {
    forall i | 0 <= i < |s| :: (s[i] as int) < 0x1_0000
  }

  /** Every string and every key of the document stays below U+10000. */
  ghost predicate IsBasicDocument(v: Json) {
    match v
    case Str(s) => IsBasic(s)
    case Arr(items) => forall i | 0 <= i < |items| :: IsBasicDocument(items[i])
    case Obj(fields) => forall k | k in fields :: IsBasic(k) && IsBasicDocument(fields[k])
    case _ => true
  }

  ghost predicate AreBasic(items: seq<Json>) {
    forall i | 0 <= i < |items| :: IsBasicDocument(items[i])
  }

  ghost predicate AreBasicMembers(v: Json, keys: seq<string>)
    requires HasKeys(v, keys)
  {
    forall i | 0 <= i < |keys| :: IsBasic(keys[i]) && IsBasicDocument(v.fields[keys[i]])
  }

  /** `a`, with pairs escaped, is the same text as `b` or a longer one. */
  predicate Compares(a: string, b: string, same: bool) {
    if same then a == b else |a| > |b|
  }

  lemma {:induction false} StringCompares(s: string)
    ensures Compares(EscapeAll(s, true), EscapeAll(s, false), IsBasic(s))
  {
    if s != [] {
      StringCompares(s[1..]);
      assert IsBasic(s) <==> s[0] as int < 0x1_0000 && IsBasic(s[1..]) by {
        assert forall i | 1 <= i < |s| :: s[i] == s[1..][i - 1];
      }
    }
  }

  lemma QuotedCompares(s: string)
    ensures Compares(Quoted(s, true), Quoted(s, false), IsBasic(s))
  {
    StringCompares(s);
  }

  /** A string is written alike in both styles exactly when it stays below U+10000. */
  lemma StringStylesAgree(s: string)
    ensures EscapeAll(s, true) == EscapeAll(s, false) <==> forall i | 0 <= i < |s| :: (s[i] as int) < 0x1_0000
  {
    StringCompares(s);
  }

  lemma {:induction false} ValueCompares(v: Json)
    requires IsDocument(v)
    ensures Compares(Emit(v, true), Emit(v, false), IsBasicDocument(v))
    decreases v, 1
  {
    match v {
      case Null =>
      case Bool(b) =>
      case Num(n) =>
      case Str(s) => QuotedCompares(s);
      case Arr(items) => ItemsCompare(items);
      case Obj(fields) =>
        var keys := SortedKeys(fields.Keys);
        MembersCompare(v, keys);
    }
  }

  lemma {:induction false} ItemsCompare(items: seq<Json>)
    requires AreDocuments(items)
    ensures Compares(EmitItems(items, true), EmitItems(items, false), AreBasic(items))
    ensures Compares(EmitMoreItems(items, true), EmitMoreItems(items, false), AreBasic(items))
    decreases items, 0
  {
    if items != [] {
      var v, rest := items[0], items[1..];
      ValueCompares(v);
      ItemsCompare(rest);
      assert AreBasic(items) <==> IsBasicDocument(v) && AreBasic(rest) by {
        assert forall i | 1 <= i < |items| :: items[i] == rest[i - 1];
      }
    }
  }

  lemma {:induction false} MemberCompares(v: Json, key: string)
    requires IsDocument(v) && v.Obj? && key in v.fields
    ensures Compares(EmitMember(v, key, true), EmitMember(v, key, false),
                     IsBasic(key) && IsBasicDocument(v.fields[key]))
    decreases v, 0, 0
  {
    QuotedCompares(key);
    ValueCompares(v.fields[key]);
  }

  lemma {:induction false} MembersCompare(v: Json, keys: seq<string>)
    requires IsDocument(v) && HasKeys(v, keys)
    ensures Compares(EmitMembers(v, keys, true), EmitMembers(v, keys, false), AreBasicMembers(v, keys))
    ensures Compares(EmitMoreMembers(v, keys, true), EmitMoreMembers(v, keys, false), AreBasicMembers(v, keys))
    decreases v, 0, |keys| + 1
  {
    if keys != [] {
      var key, rest := keys[0], keys[1..];
      var basic := IsBasic(key) && IsBasicDocument(v.fields[key]);
      MemberCompares(v, key);
      MembersCompare(v, rest);
      assert AreBasicMembers(v, keys) <==> basic && AreBasicMembers(v, rest) by {
        assert forall i | 1 <= i < |keys| :: keys[i] == rest[i - 1];
      }
    }
  }

  /** Both styles write one text exactly for documents whose strings and keys stay below U+10000. */
  lemma StylesAgree(v: Json)
    requires IsDocument(v)
    ensures Emit(v, true) == Emit(v, false) <==> IsBasicDocument(v)
  {
    ValueCompares(v);
  }

  /** And then, and only then, they have one canonical hash. */
  lemma HashesAgree(H: Sha512, v: Json)
    requires IsDocument(v) && InjectiveOn(H, {CanonicalBytes(v, true), CanonicalBytes(v, false)})
    ensures CanonicalHash(H, v, true) == CanonicalHash(H, v, false) <==> IsBasicDocument(v)
  {
    StylesAgree(v);
    if CanonicalHash(H, v, true) == CanonicalHash(H, v, false) {
      var p, q := CanonicalBytes(v, true), CanonicalBytes(v, false);
      HashHexInjective(H, {p, q}, p, q);
      Utf8Injective(Emit(v, true), Emit(v, false));
    }
  }

  /** The first rune the styles write differently. */
  lemma UpperPlaneDiffers()
    ensures Escape('\U{10000}', true) == ['\\', 'u'] + "d800" + (['\\', 'u'] + "dc00")
    ensures Escape('\U{10000}', false) == ['\U{10000}']
  {
    var c := '\U{10000}';
    EscapeOfPair(c);
    assert Lead(c) == 0xD800 && Trail(c) == 0xDC00;
    assert Hex4(0xD800) == "d800";
    assert Hex4(0xDC00) == "dc00";
  }
}
