/**
 * Already-parsed JSON values, as Qt's QJsonValue / QJsonObject / QJsonDocument
 * hold them. Parsing text into these values is a foreign library and is not
 * modelled: callers receive a `string -> Document` function instead.
 */
module Json {

  /** A JSON value. Numbers are kept abstract as integers: nothing in the core reads them. */
  datatype Json =
    | JNull
    | JBool(b: bool)
    | JNumber(n: int)
    | JString(s: string)
    | JArray(items: seq<Json>)
    | JObject(members: map<string, Json>)

  /** The result of QJsonDocument::fromJson: a parse error, or a document with its root value. */
  datatype Document = Malformed | Parsed(root: Json)

  /** QJsonDocument::object(): the members of an object document, the empty object for any other document. */
  function DocumentObject(root: Json): map<string, Json>
  {
    if root.JObject? then root.members else map[]
  }

  /** obj.value(key).toString(): the string held under `key`, or "" when it is absent or not a string. */
  function StringMember(obj: map<string, Json>, key: string): string
  {
    if key in obj && obj[key].JString? then obj[key].s else ""
  }

  /** obj.value(key).toArray(): the array held under `key`, or the empty array when it is absent or not an array. */
  function ArrayMember(obj: map<string, Json>, key: string): seq<Json>
  {
    if key in obj && obj[key].JArray? then obj[key].items else []
  }
}
