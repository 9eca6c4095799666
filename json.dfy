/**
 * The part of serde_json the program relies on: a decoded JSON document,
 * indexing an object by key, and the `as_str` / `as_i64` accessors.
 */
module Json {
  import opened Wrappers

  const I64Min: int := -0x8000_0000_0000_0000
  const I64Max: int := 0x7FFF_FFFF_FFFF_FFFF

  /** Rust's `i64`. */
  type I64 = x: int | I64Min <= x <= I64Max

  /**
   * A decoded JSON value. `Int` is a number that serde_json keeps as an
   * integer: one written without fraction or exponent, within
   * [i64::MIN, u64::MAX], and not `-0`. Every other number, `-0` and
   * integers outside that range included, is decoded as a float (`Float`).
   */
  datatype Value =
    | Null
    | Bool(b: bool)
    | Int(i: int)
    | Float(f: real)
    | String(s: string)
    | Array(items: seq<Value>)
    | Object(fields: map<string, Value>)

  /** `value[key]`: the member of an object, and `Null` for a missing key or a value that is not an object. */
  function Index(v: Value, key: string): Value {
    if v.Object? && key in v.fields then v.fields[key] else Null
  }

  /** `as_str`: the text of a JSON string, nothing for any other kind of value. */
  function AsStr(v: Value): Option<string> {
    if v.String? then Some(v.s) else None
  }

  /** `as_i64`: an integer that fits in `i64`, nothing for floats, larger integers and non-numbers. */
  function AsI64(v: Value): Option<I64> {
    if v.Int? && I64Min <= v.i <= I64Max then Some(v.i) else None
  }
}
