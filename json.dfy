/** The JSON values the management API returns, with the Python operations
    that the access-table builder applies to them. */
module Json {
  import opened Wrappers
  import opened Strings

  /** A decoded JSON value: `None`, `bool`, a number, `str`, `list` or `dict`. */
  datatype Value =
    | Null
    | Bool(b: bool)
    | Num(n: int)
    | Str(s: string)
    | Arr(items: seq<Value>)
    | Obj(fields: map<string, Value>)

  /** Python truthiness: `None`, `False`, zero and empty containers are false. */
  predicate Truthy(v: Value)
  {
    match v
    case Null => false
    case Bool(b) => b
    case Num(n) => n != 0
    case Str(s) => s != ""
    case Arr(a) => a != []
    case Obj(m) => m != map[]
  }

  /** Python's `key in v` for a `str` key: a key test on a dict, a substring
      test on a str, an element test on a list; None where Python raises
      TypeError (the value is not iterable). */
  function Member(key: string, v: Value): Option<bool>
  {
    match v
    case Obj(m) => Some(key in m)
    case Str(s) => Some(HasSubstring(s, key))
    case Arr(a) => Some(Str(key) in a)
    case _ => None
  }

  /** `d.get(key)` on a decoded dict: None when the key is absent. */
  function Get(d: map<string, Value>, key: string): Value
  {
    if key in d then d[key] else Null
  }
}
