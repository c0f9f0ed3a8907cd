/** Already-decoded JSON values, as Go's `encoding/json` hands them to the
    program when it unmarshals into `interface{}`: an object becomes a map
    from string keys to values, an array a sequence, a number a float.
    Only the lookups the program performs are modelled here. */
module Json {
  import opened Wrappers

  datatype JsonValue =
    | JNull
    | JBool(b: bool)
    | JNumber(n: real)
    | JString(s: string)
    | JArray(items: seq<JsonValue>)
    | JObject(fields: map<string, JsonValue>)

  /** A decoded JSON object (`map[string]interface{}`). */
  type Object = map<string, JsonValue>

  /** `getStringValue`: the value under `key` when it is present and a JSON
      string, and `""` in every other case. It never fails. */
  function GetStringValue(values: Object, key: string): (r: string)
    ensures key in values && values[key].JString? ==> r == values[key].s
    ensures key !in values ==> r == ""
    ensures key in values && !values[key].JString? ==> r == ""
  {
    if key in values && values[key].JString? then values[key].s else ""
  }

  /** `getMapValue`: the object under `key`, when the key is present and
      holds a JSON object; `None` stands for Go's `ok == false`. */
  function GetMapValue(entry: Object, key: string): (r: Option<Object>)
    ensures r.Some? <==> key in entry && entry[key].JObject?
    ensures r.Some? ==> r.value == entry[key].fields
  {
    if key in entry && entry[key].JObject? then Some(entry[key].fields) else None
  }

  /** The `[]interface{}` under `key`, when the key is present and holds a
      JSON array (`entry[key].([]interface{})` in its `ok` form). */
  function GetArray(entry: Object, key: string): (r: Option<seq<JsonValue>>)
    ensures r.Some? <==> key in entry && entry[key].JArray?
    ensures r.Some? ==> r.value == entry[key].items
  {
    if key in entry && entry[key].JArray? then Some(entry[key].items) else None
  }

  /** Go's `fmt.Sprintf("%v", obj[key])` for a field of a decoded object. A
      missing key and a JSON null are both Go's nil interface and print as
      `<nil>`; strings print verbatim and booleans as `true`/`false`. How Go
      renders floats, arrays and maps is not modelled: `show` stands for it. */
  function Sprint(obj: Object, key: string, show: JsonValue -> string): (r: string)
    ensures key !in obj ==> r == "<nil>"
    ensures key in obj && obj[key].JNull? ==> r == "<nil>"
    ensures key in obj && obj[key].JString? ==> r == obj[key].s
    ensures key in obj && obj[key].JBool? ==> r == (if obj[key].b then "true" else "false")
  {
    if key !in obj then "<nil>"
    else match obj[key]
      case JNull => "<nil>"
      case JString(s) => s
      case JBool(b) => if b then "true" else "false"
      case _ => show(obj[key])
  }
}
