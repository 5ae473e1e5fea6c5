/** Shared vocabulary: an optional value, bytes, and the JSON values the
    service receives from its clients and reads from its configuration file. */
module Common {

  /** The conventional Some/None datatype, standing in for Python's `None`. */
  datatype Option<+T> = None | Some(value: T)

  newtype byte = x: int | 0 <= x < 256

  type Bytes = seq<byte>

  /** A JSON value as far as the service looks at it. Arrays and objects
      nested inside a field are never inspected beyond their truthiness, so
      they are kept as `JCompound` with their emptiness. Numbers are the
      integers JSON can carry; fractional numbers are not modelled. */
  datatype JsonValue =
    | JNull
    | JBool(b: bool)
    | JNum(n: int)
    | JStr(s: string)
    | JCompound(nonEmpty: bool)

  /** Python truthiness of a decoded JSON value. */
  predicate Truthy(v: JsonValue)
  {
    match v
    case JNull => false
    case JBool(b) => b
    case JNum(n) => n != 0
    case JStr(s) => |s| > 0
    case JCompound(nonEmpty) => nonEmpty
  }

  /** The top level of a decoded JSON document: an object (a Python dict)
      or anything else. */
  datatype JsonDoc = JObject(fields: map<string, JsonValue>) | JNotObject(value: JsonValue)
}
