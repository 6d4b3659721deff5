/** Parsed JSON documents, as the verifiers receive them. */
module Json {
  import opened Wrappers
  import opened Hashing
  import opened Encoding

  /** An integer literal, or a floating-point number by its sign, its shortest digit string and
      the position `point` of the decimal point relative to the first digit. */
  datatype Number = Int(i: int) | Float(neg: bool, digits: Bytes, point: int)

  datatype Json =
    | Null
    | Bool(b: bool)
    | Num(n: Number)
    | Str(s: string)
    | Arr(items: seq<Json>)
    | Obj(fields: map<string, Json>)

  function Get(v: Json, key: string): Option<Json> {
    if v.Obj? && key in v.fields then Some(v.fields[key]) else None
  }

  /** A string value as its UTF-8 bytes. */
  function AsStr(v: Option<Json>): Option<Bytes> {
    if v.Some? && v.value.Str? then Some(Utf8(v.value.s)) else None
  }

  function AsU64(v: Option<Json>): Option<nat> {
    if v.Some? && v.value.Num? && v.value.n.Int? && 0 <= v.value.n.i < 0x1_0000_0000_0000_0000
    then Some(v.value.n.i)
    else None
  }

  function AsArray(v: Option<Json>): Option<seq<Json>> {
    if v.Some? && v.value.Arr? then Some(v.value.items) else None
  }

  function StrField(v: Json, key: string): Option<Bytes> {
    AsStr(Get(v, key))
  }

  function StrOr(v: Option<Bytes>, default: Bytes): Bytes {
    if v.Some? then v.value else default
  }
}
