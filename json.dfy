/**
 * The decoded JSON (and, for the chat service, YAML) values the core walks through.
 * Go decodes untyped JSON into `map[string]any`, `[]any`, `string`, `bool`, `float64` and `nil`;
 * numbers are never inspected by the core, so they are kept as plain integers.
 */
module Json {

  datatype Value =
    | JNull
    | JBool(b: bool)
    | JNumber(n: int)
    | JString(s: string)
    | JArray(items: seq<Value>)
    | JObject(fields: map<string, Value>)
}
