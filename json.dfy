/** JSON values as the serverless function sees them after `JSON.parse`, and
    the few JavaScript rules the function relies on when it reads them. */
module Json {
  import opened Wrappers

  datatype Json =
    | JNull
    | JBool(b: bool)
    | JNumber(n: real)
    | JString(s: string)
    | JArray(items: seq<Json>)
    | JObject(fields: map<string, Json>)

  /** An exception raised while handling a request: one the function throws
      itself with its own message, or one the JavaScript runtime raises (a
      `TypeError` or `SyntaxError`) whose message text is the engine's. */
  datatype Failure = Raised(message: string) | RuntimeError

  /** JavaScript truthiness of a property value; `None` is `undefined`. */
  predicate Truthy(v: Option<Json>) {
    match v
    case None => false
    case Some(JNull) => false
    case Some(JBool(b)) => b
    case Some(JNumber(n)) => n != 0.0
    case Some(JString(s)) => s != ""
    case Some(_) => true
  }

  /** Reading the named property `v.key`, for a name that is neither an array
      index nor a property of the built-in prototypes: reading it on `null`
      throws, an object yields its own field, any other value has none. */
  function Member(v: Json, key: string): (r: Result<Option<Json>, Failure>)
    ensures r.Failure? <==> v.JNull?
    ensures r.Success? && r.value.Some? ==> v.JObject? && key in v.fields && r.value.value == v.fields[key]
    ensures v.JObject? && key in v.fields ==> r == Success(Some(v.fields[key]))
    ensures !v.JNull? && !(v.JObject? && key in v.fields) ==> r == Success(None)
  {
    match v
    case JNull => Failure(RuntimeError)
    case JObject(m) => Success(Lookup(m, key))
    case _ => Success(None)
  }

  /** The field `key` of an object's field map, `None` when it is absent. */
  function Lookup(fields: map<string, Json>, key: string): Option<Json> {
    if key in fields then Some(fields[key]) else None
  }

  /** Reading `v[0]`: the first element of an array, the first character of a
      string, the field named "0" of an object; nothing on other values. */
  function First(v: Json): Option<Json> {
    match v
    case JArray(items) => if |items| > 0 then Some(items[0]) else None
    case JString(s) => if |s| > 0 then Some(JString([s[0]])) else None
    case JObject(m) => if "0" in m then Some(m["0"]) else None
    case _ => None
  }
}
