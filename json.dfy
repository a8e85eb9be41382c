/**
  The decoded JSON document that holds the mod's metadata. The script reads it
  with a schema-less decoder, so every value is one generic tagged variant and
  the document root is a mapping from keys to such values.
*/
module Json {

  /** One decoded JSON value. Numbers are kept as their literal text: the bump
      never looks at them, it only has to carry them through unchanged. */
  datatype JsonValue =
    | JNull
    | JBool(b: bool)
    | JNumber(literal: string)
    | JString(s: string)
    | JArray(items: seq<JsonValue>)
    | JObject(fields: map<string, JsonValue>)

  /** The document root: a JSON object, seen as a mapping from keys to values. */
  type Document = map<string, JsonValue>

  /** The one key the bump reads and rewrites. */
  const VersionKey: string := "version"
}
