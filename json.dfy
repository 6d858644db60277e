/**
 * The values `json.loads` hands the pipeline, and Python's truth test on them.
 * A candidate transaction is a JSON object, i.e. a dictionary with string keys.
 */
module Json {

  /** A parsed JSON value. Numbers keep their mathematical value; Python's
      int/float distinction plays no part in the code modelled here. */
  datatype JsonValue =
    | JNull
    | JBool(b: bool)
    | JNumber(n: real)
    | JString(str: string)
    | JArray(items: seq<JsonValue>)
    | JObject(fields: map<string, JsonValue>)

  /** A dictionary produced from a JSON object. */
  type Record = map<string, JsonValue>

  /** Python truthiness (`if v:` / `not v` / `v or default`): `None`, `False`,
      zero, and empty strings, lists and dictionaries are false. */
  predicate Truthy(v: JsonValue) {
    match v
    case JNull => false
    case JBool(b) => b
    case JNumber(n) => n != 0.0
    case JString(s) => s != ""
    case JArray(xs) => xs != []
    case JObject(m) => m != map[]
  }
}
