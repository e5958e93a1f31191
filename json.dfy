/** A decoded JSON document, as `json.load` hands it to the hook and
    status-line scripts, with the two dictionary operations they use. */
module JsonValue {
  import opened Text

  /** Numbers are kept as integers. Token counts are whole numbers; a
      fractional number such as the session cost is not represented. */
  datatype Json =
    | JNull
    | JBool(b: bool)
    | JNum(n: int)
    | JStr(s: string)
    | JArr(items: seq<Json>)
    | JObj(fields: map<string, Json>)

  /** Python's truth value of the decoded object. */
  predicate Truthy(j: Json) {
    match j
    case JNull => false
    case JBool(b) => b
    case JNum(n) => n != 0
    case JStr(s) => s != ""
    case JArr(items) => items != []
    case JObj(fields) => fields != map[]
  }

  /** `d.get(key, default)` on a dictionary. */
  function Get(fields: map<string, Json>, key: string, default: Json): (r: Json)
    ensures key in fields ==> r == fields[key]
    ensures key !in fields ==> r == default
  {
    if key in fields then fields[key] else default
  }

  /** What `json.load` produced: a document, or the decoder's error text. */
  datatype Decoded = Parsed(doc: Json) | Malformed(error: string)
}
