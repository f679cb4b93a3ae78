/**
 * Parsed JSON values as the Node scripts see them after `JSON.parse`, with the bits of
 * JavaScript semantics they rely on: truthiness and property access.
 */
module Json {
  import opened Wrappers

  /** A JSON value; numbers are finite, so they are reals here. */
  datatype Json =
    | JNull
    | JBool(b: bool)
    | JNumber(n: real)
    | JString(s: string)
    | JArray(items: seq<Json>)
    | JObject(fields: map<string, Json>)

  /** JavaScript truthiness: `null`, `false`, `0` and `""` are falsy, every other value is truthy. */
  predicate Truthy(v: Json) {
    match v
    case JNull => false
    case JBool(b) => b
    case JNumber(n) => n != 0.0
    case JString(s) => s != ""
    case _ => true
  }

  /** Truthiness of a property that may be `undefined`. */
  predicate TruthyOpt(v: Option<Json>) {
    v.Some? && Truthy(v.value)
  }

  /**
   * The property access `v[key]` (or `v?.[key]`) for a key that is not an array index,
   * `length` or a name inherited from a prototype: an object's own field, `undefined`
   * for anything else.
   */
  function Get(v: Json, key: string): (r: Option<Json>)
    ensures r.Some? <==> v.JObject? && key in v.fields
    ensures r.Some? ==> r.value == v.fields[key]
  {
    if v.JObject? && key in v.fields then Some(v.fields[key]) else None
  }

  /** `Get` on a value that may itself be `undefined` (optional chaining). */
  function GetOpt(v: Option<Json>, key: string): (r: Option<Json>)
    ensures r.Some? <==> v.Some? && v.value.JObject? && key in v.value.fields
  {
    if v.Some? then Get(v.value, key) else None
  }

  /** `Number.isInteger(v) && v >= 0`, the value read as a count. */
  function NonNegativeInteger(v: Option<Json>): (r: Option<nat>)
    ensures r.Some? <==> v.Some? && v.value.JNumber? && v.value.n >= 0.0 && v.value.n == v.value.n.Floor as real
    ensures r.Some? ==> r.value as real == v.value.n
  {
    if v.Some? && v.value.JNumber? && v.value.n >= 0.0 && v.value.n == v.value.n.Floor as real
    then Some(v.value.n.Floor as nat)
    else None
  }
}
