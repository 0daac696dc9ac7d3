/** The JSON values a line may parse to (serde_json's `Value`), and the
    top-level field lookup `Value::get` performs with a string key. */
module Json {
  import opened Wrappers

  /** A parsed JSON value. A number keeps its literal text: how serde_json
      stores and renders numbers is not part of this model. */
  datatype Json =
    | Null
    | Bool(b: bool)
    | Number(literal: string)
    | String(s: string)
    | Array(items: seq<Json>)
    | Object(members: map<string, Json>)

  /** `value.get(key)`: the member named `key` of an object; nothing for a
      missing key and nothing for any value that is not an object. */
  function Get(v: Json, key: string): (r: Option<Json>)
    ensures r.Some? <==> v.Object? && key in v.members
    ensures r.Some? ==> r.value == v.members[key]
  {
    match v
    case Object(members) => if key in members then Some(members[key]) else None
    case _ => None
  }
}
