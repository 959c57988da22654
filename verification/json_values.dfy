/**
  Parsed JSON values and the two pieces of Python semantics the token cache
  relies on: truthiness, and which values can take part in numeric
  comparison and addition.
*/
module JsonValues {
  import opened Wrappers

  /** A value `json.load` can produce. Numbers are integers in this model. */
  datatype Json =
    | JNull
    | JBool(b: bool)
    | JNum(n: int)
    | JStr(s: string)
    | JArray(items: seq<Json>)
    | JObject(fields: map<string, Json>)

  /** Python's `bool(v)`: `None`, `False`, `0` and empty containers are false. */
  predicate Truthy(v: Json) {
    match v
    case JNull => false
    case JBool(b) => b
    case JNum(n) => n != 0
    case JStr(s) => s != ""
    case JArray(items) => |items| > 0
    case JObject(fields) => |fields| > 0
  }

  /**
    The number a value stands for in `>`, `<=` and `+` against a number;
    `None` where Python raises `TypeError` (a `bool` counts as 0 or 1).
  */
  function NumericValue(v: Json): (r: Option<int>)
    ensures r.Some? <==> v.JNum? || v.JBool?
    ensures v.JNum? ==> r == Some(v.n)
  {
    match v
    case JNum(n) => Some(n)
    case JBool(b) => Some(if b then 1 else 0)
    case _ => None
  }

  /** `m.get(key, default)`. */
  function GetOr(m: map<string, Json>, key: string, default: Json): Json {
    if key in m then m[key] else default
  }
}
