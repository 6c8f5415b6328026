/** Python values as read from YAML files and JSON responses, with Python's
    truthiness and the `dict.get` idiom the modelled code relies on.
 */
module PyValues {

  import opened Outcomes

  /** A YAML/JSON value. Dictionaries are keyed by strings. */
  datatype Value =
    | VNull
    | VBool(b: bool)
    | VInt(i: int)
    | VStr(s: string)
    | VList(items: seq<Value>)
    | VDict(entries: map<string, Value>)

  /** A Python dictionary with string keys. */
  type Dict = map<string, Value>

  /** Python's `bool(v)`: `None`, `False`, `0` and empty strings, lists and
      dictionaries are false, everything else is true. */
  predicate Truthy(v: Value) {
    match v
    case VNull => false
    case VBool(b) => b
    case VInt(i) => i != 0
    case VStr(s) => |s| > 0
    case VList(items) => |items| > 0
    case VDict(entries) => |entries| > 0
  }

  /** `d.get(k, default)`. */
  function GetOr(d: Dict, k: string, default: Value): (v: Value)
    ensures k in d ==> v == d[k]
    ensures k !in d ==> v == default
  {
    if k in d then d[k] else default
  }

  /** `d.get(k)`: `None` for a missing key. */
  function Get(d: Dict, k: string): (v: Value)
    ensures k in d ==> v == d[k]
    ensures k !in d ==> v == VNull
  {
    GetOr(d, k, VNull)
  }

  /** Calling `.get` on `v`: only a dictionary has it, anything else raises
      `AttributeError`. */
  function AsDict(v: Value): (r: Result<Dict>)
    ensures r.Ok? <==> v.VDict?
    ensures r.Ok? ==> r.value == v.entries
    ensures r.Err? ==> r.error.exc == AttributeError
  {
    match v
    case VDict(entries) => Ok(entries)
    case _ => Err(Error(AttributeError, "object has no attribute 'get'"))
  }

  /** Whether a value can be a dictionary key: lists and dictionaries
      cannot. */
  predicate Hashable(v: Value) {
    !v.VList? && !v.VDict?
  }
}
