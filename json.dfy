/**
 * The values `json.loads` produces, as far as the merge needs them. A JSON
 * object keeps its members in document order, as a Python dict does.
 */
module Json {
  datatype Json =
    | JNull
    | JBool(b: bool)
    | JNumber(n: real)
    | JString(s: string)
    | JArray(items: seq<Json>)
    | JObject(members: seq<(string, Json)>)
}
