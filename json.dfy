/**
 * The part of `serde_json::Value` the core relies on: the six kinds of JSON
 * value and `Value::get` on a string key.
 */
module JsonValues {
  import opened Wrappers

  /** A JSON value. Numbers are kept as integers; an object maps each key to one value. */
  datatype Json =
    | Null
    | Bool(b: bool)
    | Number(n: int)
    | String(s: string)
    | Array(items: seq<Json>)
    | Object(fields: map<string, Json>)

  /** `value.get(key)`: the member under `key` of an object; nothing for a missing key or any other kind of value. */
  function Get(v: Json, key: string): Option<Json> {
    if v.Object? && key in v.fields then Some(v.fields[key]) else None
  }

  /** `value.as_str()`: the text of a string value. */
  function AsStr(v: Json): Option<string> {
    if v.String? then Some(v.s) else None
  }
}
