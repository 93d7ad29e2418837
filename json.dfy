/** The JSON values handlers receive from `JSON.parse` / `request.json()`, and the
    JavaScript operations the handlers apply to them: truthiness, property access
    and conversion to a string. */
module Json {
  import opened Wrappers
  import JsString
  import JsNumber

  /** Numbers are the integers; an object maps each of its keys to one value. */
  datatype Json =
    | JNull
    | JBool(b: bool)
    | JNumber(n: int)
    | JString(s: string)
    | JArray(items: seq<Json>)
    | JObject(fields: map<string, Json>)

  /** JavaScript truthiness of a value; `None` is `undefined`. */
  predicate Truthy(v: Option<Json>) {
    match v
    case None => false
    case Some(JNull) => false
    case Some(JBool(b)) => b
    case Some(JNumber(n)) => n != 0
    case Some(JString(s)) => s != ""
    case Some(JArray(_)) => true
    case Some(JObject(_)) => true
  }

  /** `v === null || v === undefined`: property access on these throws. */
  predicate IsNullish(v: Option<Json>) {
    v.None? || v == Some(JNull)
  }

  /** `v?.name` (and `v.name` when v is not nullish): only an object has own entries;
      on any other value the property is `undefined`. */
  function Field(v: Option<Json>, name: string): (r: Option<Json>)
    ensures r.Some? <==> v.Some? && v.value.JObject? && name in v.value.fields
  {
    match v
    case Some(JObject(fields)) => if name in fields then Some(fields[name]) else None
    case _ => None
  }

  /** `String(v)`. An array joins its elements with `,`, writing `null` as empty. */
  function ToJsString(v: Json): string {
    match v
    case JNull => "null"
    case JBool(b) => if b then "true" else "false"
    case JNumber(n) => JsNumber.IntToString(n)
    case JString(s) => s
    case JArray(items) =>
      JsString.Join(seq(|items|, k requires 0 <= k < |items| =>
        if items[k] == JNull then "" else ToJsString(items[k])), ',')
    case JObject(_) => "[object Object]"
  }
}
