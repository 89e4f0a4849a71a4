/** Decoded JSON values and the decoder the program calls (json.loads),
    which the model leaves abstract. */
module JsonValue {
  import opened Text

  /** A value as json.loads returns it: None, bool, number, str, list or dict. */
  datatype Json =
    | JNull
    | JBool(b: bool)
    | JNum(n: real)
    | JStr(s: string)
    | JArr(items: seq<Json>)
    | JObj(fields: map<string, Json>)

  /** A Python dict with string keys, such as a translation result. */
  type Dict = map<string, Json>

  /** Python truthiness of a decoded value. */
  predicate Truthy(v: Json) {
    match v
    case JNull => false
    case JBool(b) => b
    case JNum(n) => n != 0.0
    case JStr(s) => s != ""
    case JArr(items) => items != []
    case JObj(fields) => fields != map[]
  }

  /** The outcome of json.loads: a value, or a JSONDecodeError. */
  datatype Loaded = Decoded(value: Json) | DecodeError

  /** json.loads, passed to the members that call it. */
  type Loads = string -> Loaded

  /** What every JSON decoder does with text that begins with '{': it yields
      an object or fails, never a list, string, number or literal. */
  ghost predicate ObjectsFromBraces(loads: Loads) {
    forall s :: StartsWith(s, "{") ==> loads(s).DecodeError? || loads(s).value.JObj?
  }
}
