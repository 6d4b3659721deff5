/** The second emitter: it works on UTF-16 code units, joins the parts of lists, and has read
    every number as a double. Its text is the first emitter's, unit for unit, exactly when the
    document's integers survive that reading. */
module UnitEmitter {
  import opened Json
  import opened KeyOrder
  import opened NumberText
  import opened StringText
  import opened CanonicalJson
  import opened CanonicalParser
  import opened DoubleText
  import opened UniqueDigits
  import opened Sequences

  function JoinWithCommas(parts: seq<seq<int>>): seq<int> {
    if parts == [] then [] else if |parts| == 1 then parts[0] else parts[0] + [',' as int] + JoinWithCommas(parts[1..])
  }

  function QuotedUnits(s: string): seq<int> {
    UnitsAreUnits(s);
    ['\"' as int] + EscapeUnits(Units(s)) + ['\"' as int]
  }

  ghost function Serialize(js: Chooser, v: Json): seq<int>
    requires IsEcma(js) && IsDocument(v)
    decreases v, 1
  {
    match v
    case Null => Codes("null")
    case Bool(b) => Codes(if b then "true" else "false")
    case Num(n) => Codes(JsText(js, n))
    case Str(s) => QuotedUnits(s)
    case Arr(items) =>
      if items == [] then Codes("[]") else ['[' as int] + JoinWithCommas(SerializeItems(js, items)) + [']' as int]
    case Obj(fields) =>
      var keys := SortedKeys(fields.Keys);
      if keys == [] then Codes("{}") else ['{' as int] + JoinWithCommas(SerializeMembers(js, v, keys)) + ['}' as int]
  }

  ghost function SerializeItems(js: Chooser, items: seq<Json>): (parts: seq<seq<int>>)
    requires IsEcma(js) && AreDocuments(items)
    ensures |parts| == |items|
    decreases items, 0
  {
    if items == [] then [] else [Serialize(js, items[0])] + SerializeItems(js, items[1..])
  }

  ghost function SerializeMembers(js: Chooser, v: Json, keys: seq<string>): (parts: seq<seq<int>>)
    requires IsEcma(js) && IsDocument(v) && HasKeys(v, keys)
    ensures |parts| == |keys|
    decreases v, 0, |keys|
  {
    if keys == [] then []
    else [QuotedUnits(keys[0]) + [':' as int] + Serialize(js, v.fields[keys[0]])] + SerializeMembers(js, v, keys[1..])
  }

  // ----- the document after reading -----------------------------------------------------

  /** The document with every number as it is after being read as a double. */
  ghost function Reread(js: Chooser, v: Json): Json
    requires IsEcma(js) && IsDocument(v)
    decreases v, 1
  {
    match v
    case Num(n) => Num(JsNumber(js, n))
    case Arr(items) => Arr(RereadItems(js, items))
    case Obj(fields) => Obj(map k | k in fields :: Reread(js, fields[k]))
    case _ => v
  }

  ghost function RereadItems(js: Chooser, items: seq<Json>): (r: seq<Json>)
    requires IsEcma(js) && AreDocuments(items)
    ensures |r| == |items|
    decreases items, 0
  {
    if items == [] then [] else [Reread(js, items[0])] + RereadItems(js, items[1..])
  }

  lemma {:induction false} RereadIsDocument(js: Chooser, v: Json)
    requires IsEcma(js) && IsDocument(v)
    ensures IsDocument(Reread(js, v))
    decreases v, 1
  {
    match v {
      case Num(n) => JsNumberText(js, n);
      case Arr(items) => RereadAreDocuments(js, items);
      case Obj(fields) =>
        forall k | k in fields ensures IsDocument(Reread(js, fields[k])) {
          RereadIsDocument(js, fields[k]);
        }
      case _ =>
    }
  }

  lemma {:induction false} RereadAreDocuments(js: Chooser, items: seq<Json>)
    requires IsEcma(js) && AreDocuments(items)
    ensures AreDocuments(RereadItems(js, items))
    decreases items, 0
  {
    if items != [] {
      RereadIsDocument(js, items[0]);
      RereadAreDocuments(js, items[1..]);
    }
  }

  /** Every integer's own digits are the best for its double. */
  ghost predicate IsExact(v: Json) {
    match v
    case Num(n) => n.Int? && n.i != 0 ==> IsBest(Own(Abs(n.i)), Double(Abs(n.i)))
    case Arr(items) => forall i | 0 <= i < |items| :: IsExact(items[i])
    case Obj(fields) => forall k | k in fields :: IsExact(fields[k])
    case _ => true
  }

  /** Every integer is at most two to the 53rd in magnitude. */
  ghost predicate IsSafe(v: Json) {
    match v
    case Num(n) => n.Int? ==> Abs(n.i) <= SAFE
    case Arr(items) => forall i | 0 <= i < |items| :: IsSafe(items[i])
    case Obj(fields) => forall k | k in fields :: IsSafe(fields[k])
    case _ => true
  }

  lemma NumberSurvives(js: Chooser, n: Number)
    requires IsEcma(js) && IsNumber(n)
    ensures JsNumber(js, n) == n <==> IsExact(Num(n))
    ensures IsSafe(Num(n)) ==> IsExact(Num(n))
  {
    SameTextSameNumber(js, n);
    if n.Int? && n.i != 0 {
      KeepsTextExactly(js, n.i);
      if Abs(n.i) <= SAFE {
        SafeIntegersAgree(js, n.i);
      }
    }
  }

  lemma {:induction false} DocumentSurvives(js: Chooser, v: Json)
    requires IsEcma(js) && IsDocument(v)
    ensures Reread(js, v) == v <==> IsExact(v)
    ensures IsSafe(v) ==> IsExact(v)
    decreases v, 1
  {
    match v {
      case Num(n) => NumberSurvives(js, n);
      case Arr(items) => ItemsSurvive(js, items);
      case Obj(fields) =>
        forall k | k in fields
          ensures Reread(js, fields[k]) == fields[k] <==> IsExact(fields[k])
          ensures IsSafe(fields[k]) ==> IsExact(fields[k])
        {
          DocumentSurvives(js, fields[k]);
        }
        FieldsSurvive(fields, map k | k in fields :: Reread(js, fields[k]));
      case _ =>
    }
  }

  lemma FieldsSurvive(fields: map<string, Json>, reread: map<string, Json>)
    requires fields.Keys == reread.Keys
    ensures reread == fields <==> forall k | k in fields :: reread[k] == fields[k]
  {
  }

  ghost predicate AreExact(items: seq<Json>) {
    forall i | 0 <= i < |items| :: IsExact(items[i])
  }

  ghost predicate AreSafe(items: seq<Json>) {
    forall i | 0 <= i < |items| :: IsSafe(items[i])
  }

  lemma FrontOfItems(js: Chooser, items: seq<Json>)
    requires IsEcma(js) && AreDocuments(items) && items != []
    ensures AreExact(items) <==> IsExact(items[0]) && AreExact(items[1..])
    ensures AreSafe(items) <==> IsSafe(items[0]) && AreSafe(items[1..])
  {
    assert forall i | 1 <= i < |items| :: items[i] == items[1..][i - 1];
  }

  lemma {:induction false} ItemsSurvive(js: Chooser, items: seq<Json>)
    requires IsEcma(js) && AreDocuments(items)
    ensures RereadItems(js, items) == items <==> AreExact(items)
    ensures AreSafe(items) ==> AreExact(items)
    decreases items, 0
  {
    if items != [] {
      DocumentSurvives(js, items[0]);
      ItemsSurvive(js, items[1..]);
      FrontOfItems(js, items);
      Head(items);
    }
  }

  // ----- agreement ----------------------------------------------------------------------

  lemma QuotedAgrees(s: string)
    ensures QuotedUnits(s) == Units(Quoted(s, true))
  {
    EmittersAgree(s);
    UnitsConcat(['\"'], EscapeAll(s, true));
    UnitsConcat(['\"'] + EscapeAll(s, true), ['\"']);
    UnitsOfAscii(['\"']);
  }

  lemma UnitsSurrounded(open: char, body: string, close: char)
    requires open as int < 0x1_0000 && close as int < 0x1_0000
    ensures Units([open] + body + [close]) == [open as int] + Units(body) + [close as int]
  {
    UnitsConcat([open], body);
    UnitsConcat([open] + body, [close]);
    UnitsOfAscii([open]);
    UnitsOfAscii([close]);
  }

  lemma {:induction false} ValueAgrees(js: Chooser, v: Json)
    requires IsEcma(js) && IsDocument(v)
    ensures IsDocument(Reread(js, v)) && Serialize(js, v) == Units(Emit(Reread(js, v), true))
    decreases v, 1
  {
    RereadIsDocument(js, v);
    match v {
      case Null => UnitsOfAscii("null");
      case Bool(b) => UnitsOfAscii(if b then "true" else "false");
      case Num(n) =>
        JsNumberText(js, n);
        UnitsOfAscii(JsText(js, n));
      case Str(s) => QuotedAgrees(s);
      case Arr(items) =>
        ItemsAgree(js, items);
        UnitsSurrounded('[', EmitItems(RereadItems(js, items), true), ']');
      case Obj(fields) =>
        var keys := SortedKeys(fields.Keys);
        assert Reread(js, v).fields.Keys == fields.Keys;
        MembersAgree(js, v, keys);
        UnitsSurrounded('{', EmitMembers(Reread(js, v), keys, true), '}');
    }
  }

  /** Joining one more part in front puts a comma before the rest, if there is a rest. */
  lemma JoinStep(part: seq<int>, parts: seq<seq<int>>)
    ensures JoinWithCommas([part] + parts) == part + if parts == [] then [] else [',' as int] + JoinWithCommas(parts)
  {
    assert ([part] + parts)[1..] == parts;
    if parts != [] {
      assert part + [',' as int] + JoinWithCommas(parts) == part + ([',' as int] + JoinWithCommas(parts));
    }
  }

  lemma CommaFirst(a: string, b: string)
    ensures Units([','] + a + b) == [',' as int] + Units(a + b)
  {
    UnitsConcat([','], a + b);
    UnitsOfAscii([',']);
    assert [','] + a + b == [','] + (a + b);
  }

  lemma {:induction false} ItemsAgree(js: Chooser, items: seq<Json>)
    requires IsEcma(js) && AreDocuments(items)
    ensures AreDocuments(RereadItems(js, items))
    ensures JoinWithCommas(SerializeItems(js, items)) == Units(EmitItems(RereadItems(js, items), true))
    ensures Units(EmitMoreItems(RereadItems(js, items), true)) ==
            if items == [] then [] else [',' as int] + Units(EmitItems(RereadItems(js, items), true))
    decreases items, 0
  {
    RereadAreDocuments(js, items);
    if items != [] {
      ValueAgrees(js, items[0]);
      ItemsAgree(js, items[1..]);
      ItemsStepAgrees(Serialize(js, items[0]), SerializeItems(js, items[1..]),
                      Reread(js, items[0]), RereadItems(js, items[1..]));
    }
  }

  lemma ItemsStepAgrees(part: seq<int>, parts: seq<seq<int>>, v: Json, rest: seq<Json>)
    requires IsDocument(v) && AreDocuments(rest) && (parts == [] <==> rest == [])
    requires part == Units(Emit(v, true)) && JoinWithCommas(parts) == Units(EmitItems(rest, true))
    requires Units(EmitMoreItems(rest, true)) == if rest == [] then [] else [',' as int] + Units(EmitItems(rest, true))
    ensures AreDocuments([v] + rest)
    ensures JoinWithCommas([part] + parts) == Units(EmitItems([v] + rest, true))
    ensures Units(EmitMoreItems([v] + rest, true)) == [',' as int] + Units(EmitItems([v] + rest, true))
  {
    assert ([v] + rest)[1..] == rest;
    JoinStep(part, parts);
    UnitsConcat(Emit(v, true), EmitMoreItems(rest, true));
    CommaFirst(Emit(v, true), EmitMoreItems(rest, true));
  }

  lemma {:induction false} MemberAgrees(js: Chooser, v: Json, key: string)
    requires IsEcma(js) && IsDocument(v) && v.Obj? && key in v.fields
    ensures IsDocument(Reread(js, v)) && Reread(js, v).Obj? && key in Reread(js, v).fields
    ensures QuotedUnits(key) + [':' as int] + Serialize(js, v.fields[key]) ==
            Units(EmitMember(Reread(js, v), key, true))
    decreases v, 0, 0
  {
    RereadIsDocument(js, v);
    QuotedAgrees(key);
    ValueAgrees(js, v.fields[key]);
    var text := Emit(Reread(js, v.fields[key]), true);
    UnitsConcat(Quoted(key, true), [':']);
    UnitsConcat(Quoted(key, true) + [':'], text);
    UnitsOfAscii([':']);
  }

  lemma {:induction false} MembersAgree(js: Chooser, v: Json, keys: seq<string>)
    requires IsEcma(js) && IsDocument(v) && HasKeys(v, keys)
    ensures IsDocument(Reread(js, v)) && HasKeys(Reread(js, v), keys)
    ensures JoinWithCommas(SerializeMembers(js, v, keys)) == Units(EmitMembers(Reread(js, v), keys, true))
    ensures Units(EmitMoreMembers(Reread(js, v), keys, true)) ==
            if keys == [] then [] else [',' as int] + Units(EmitMembers(Reread(js, v), keys, true))
    decreases v, 0, |keys| + 1
  {
    RereadIsDocument(js, v);
    if keys != [] {
      MemberAgrees(js, v, keys[0]);
      MembersAgree(js, v, keys[1..]);
      var part := QuotedUnits(keys[0]) + [':' as int] + Serialize(js, v.fields[keys[0]]);
      MembersStepAgrees(part, SerializeMembers(js, v, keys[1..]), Reread(js, v), keys);
    }
  }

  lemma MembersStepAgrees(part: seq<int>, parts: seq<seq<int>>, v: Json, keys: seq<string>)
    requires IsDocument(v) && HasKeys(v, keys) && keys != [] && (parts == [] <==> |keys| == 1)
    requires part == Units(EmitMember(v, keys[0], true)) &&
            JoinWithCommas(parts) == Units(EmitMembers(v, keys[1..], true))
    requires Units(EmitMoreMembers(v, keys[1..], true)) ==
             if |keys| == 1 then [] else [',' as int] + Units(EmitMembers(v, keys[1..], true))
    ensures JoinWithCommas([part] + parts) == Units(EmitMembers(v, keys, true))
    ensures Units(EmitMoreMembers(v, keys, true)) == [',' as int] + Units(EmitMembers(v, keys, true))
  {
    var first, rest := EmitMember(v, keys[0], true), EmitMoreMembers(v, keys[1..], true);
    JoinStep(part, parts);
    UnitsConcat(first, rest);
    CommaFirst(first, rest);
  }

  /** The two emitters write one text exactly when every integer keeps its digits as a double. */
  lemma EmittersAgreeExactly(js: Chooser, v: Json)
    requires IsEcma(js) && IsDocument(v)
    ensures Serialize(js, v) == Units(Emit(v, true)) <==> IsExact(v)
  {
    ValueAgrees(js, v);
    DocumentSurvives(js, v);
    if Serialize(js, v) == Units(Emit(v, true)) {
      UnitsInjective(Emit(Reread(js, v), true), Emit(v, true));
      EmitInjective(Reread(js, v), v, true, true);
    }
  }

  /** In particular when no integer exceeds two to the 53rd. */
  lemma SafeDocumentsAgree(js: Chooser, v: Json)
    requires IsEcma(js) && IsDocument(v) && IsSafe(v)
    ensures Serialize(js, v) == Units(Emit(v, true))
  {
    DocumentSurvives(js, v);
    EmittersAgreeExactly(js, v);
  }

  /** And not for the document that is two to the 60th. */
  lemma TwoToThe60Differs(js: Chooser)
    requires IsEcma(js)
    ensures IsDocument(Num(Int(TWO60))) && Serialize(js, Num(Int(TWO60))) != Units(Emit(Num(Int(TWO60)), true))
  {
    TwoToThe60(js);
    LoneInteger(js, TWO60);
  }

  lemma {:induction false} LoneInteger(js: Chooser, i: int)
    requires IsEcma(js) && InInt64(i) && i != 0
    ensures IsDocument(Num(Int(i)))
    ensures Serialize(js, Num(Int(i))) == Units(Emit(Num(Int(i)), true)) <==> JsText(js, Int(i)) == Text(Int(i))
  {
    KeepsTextExactly(js, i);
    EmittersAgreeExactly(js, Num(Int(i)));
  }

  // ----- one text in every engine -------------------------------------------------------

  lemma {:induction false} OneReading(js: Chooser, other: Chooser, v: Json)
    requires IsEcma(js) && IsEcma(other) && IsDocument(v)
    ensures Reread(js, v) == Reread(other, v)
    decreases v, 1
  {
    match v {
      case Num(n) =>
        if n.Int? && n.i != 0 {
          OneChoice(js, other, Abs(n.i));
        }
      case Arr(items) => OneReadingOfItems(js, other, items);
      case Obj(fields) =>
        forall k | k in fields ensures Reread(js, fields[k]) == Reread(other, fields[k]) {
          OneReading(js, other, fields[k]);
        }
      case _ =>
    }
  }

  lemma {:induction false} OneReadingOfItems(js: Chooser, other: Chooser, items: seq<Json>)
    requires IsEcma(js) && IsEcma(other) && AreDocuments(items)
    ensures RereadItems(js, items) == RereadItems(other, items)
    decreases items, 0
  {
    if items != [] {
      OneReading(js, other, items[0]);
      OneReadingOfItems(js, other, items[1..]);
    }
  }

  /** Any two engines write one text of a document. */
  lemma EnginesWriteAlike(js: Chooser, other: Chooser, v: Json)
    requires IsEcma(js) && IsEcma(other) && IsDocument(v)
    ensures Serialize(js, v) == Serialize(other, v)
  {
    ValueAgrees(js, v);
    ValueAgrees(other, v);
    OneReading(js, other, v);
  }
}
