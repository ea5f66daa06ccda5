/** The part of `serde_json::Value` that the id extraction touches: the value
    shapes, `Number::as_u64`, and indexing with `[key]` and `[i]`, which yield
    `Null` for a missing key, an index past the end, or a value of the wrong shape. */
module Json {
  import opened Common

  /** `serde_json::Number`: a non-negative integer is stored as `PosInt`, a
      negative one as `NegInt`, anything with a fraction or exponent as `Float`. */
  datatype Number =
    | PosInt(u: U64)
    | NegInt(i: NegI64)
    | Float(f: real)

  /** The negative values of Rust's `i64`. */
  type NegI64 = x: int | -0x8000_0000_0000_0000 <= x < 0 witness -1

  datatype Value =
    | Null
    | Bool(b: bool)
    | Num(n: Number)
    | Str(s: string)
    | Array(elems: seq<Value>)
    | Object(fields: map<string, Value>)

  /** `Number::as_u64`. */
  function AsU64(n: Number): Option<U64> {
    match n
    case PosInt(u) => Some(u)
    case _ => None
  }

  /** `value[key]`. */
  function Field(v: Value, key: string): Value {
    if v.Object? && key in v.fields then v.fields[key] else Null
  }

  /** `value[i]`. */
  function At(v: Value, i: nat): Value {
    if v.Array? && i < |v.elems| then v.elems[i] else Null
  }
}
