/**
 * Decoded JSON values as Python's `json.loads` hands them over, and the two Python
 * operations the harvester applies to them: the membership test `key in v`
 * followed by the subscript `v[key]`.
 */
module Json {
  import opened PyStr

  /** A decoded JSON value (numbers are kept as integers: none of their digits matter here). */
  datatype Json =
    | JNull
    | JBool(b: bool)
    | JNumber(n: int)
    | JString(str: string)
    | JArray(items: seq<Json>)
    | JObject(fields: map<string, Json>)

  /** The Python exceptions the modelled code can raise. */
  datatype PyError =
    | TypeError          // `key in v` or `v[key]` on a value that is not a dict
    | AttributeError     // `.rfind` on a value that is not a str
    | JsonDecodeError    // `json.loads` on a malformed line
    | RequestException   // `requests.get` failing in transport (connection, timeout)

  /**
   * What one step of the harvester produces: it skips the record (the source's
   * `return None`), finds a value, or raises.
   */
  datatype Outcome<+T> = Skip | Found(value: T) | Raise(error: PyError)

  datatype Option<+T> = None | Some(value: T)

  /**
   * `if key in v: x = v[key] else: return None`. Only a dict can yield a value;
   * a str, list, number, bool or null either makes the test false (skip) or
   * makes the test or the subscript raise a TypeError.
   */
  function Lookup(v: Json, key: string): (r: Outcome<Json>)
    ensures r.Found? <==> v.JObject? && key in v.fields
    ensures r.Found? ==> r.value == v.fields[key]
    ensures r.Raise? ==> r.error == TypeError
    ensures v.JObject? ==> !r.Raise?
    ensures v.JString? ==> (r.Raise? <==> Contains(v.str, key))
    ensures v.JArray? ==> (r.Raise? <==> JString(key) in v.items)
    ensures v.JNull? || v.JBool? || v.JNumber? ==> r == Raise(TypeError)
  {
    match v
    case JObject(m) => if key in m then Found(m[key]) else Skip
    case JString(s) => if Contains(s, key) then Raise(TypeError) else Skip
    case JArray(items) => if JString(key) in items then Raise(TypeError) else Skip
    case _ => Raise(TypeError)
  }
}
