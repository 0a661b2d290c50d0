/**
 * The values `json.loads` produces, and Python's truthiness of them, which
 * decides whether an analysis result is stored and shown.
 */
module Json {

  /** A decoded JSON value; numbers are modelled as integers. */
  datatype Value =
    | Null
    | Bool(b: bool)
    | Num(n: int)
    | Str(s: string)
    | Arr(items: seq<Value>)
    | Obj(fields: map<string, Value>)

  /** Python's `bool(v)`: `None`, `False`, `0` and empty containers are false. */
  predicate Truthy(v: Value) {
    match v
    case Null => false
    case Bool(b) => b
    case Num(n) => n != 0
    case Str(s) => s != []
    case Arr(items) => items != []
    case Obj(fields) => fields != map[]
  }
}
