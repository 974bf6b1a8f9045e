/**
 * Values of the flat, JSON-ready metadata dictionary ("sanitized" record)
 * and of dataset elements, with Python's `str()` and truth value.
 */
module Values {
  import PyText

  /**
   * `None`, a bool, an int, a str, or anything else (a float, a list, a
   * nested dict) kept only as its `str()` text and its truth value.
   */
  datatype Value =
    | Null
    | Bool(b: bool)
    | Int(i: int)
    | Text(s: string)
    | Other(rendered: string, truthy: bool)

  /** Python's `str(v)`. */
  function Str(v: Value): string
  {
    match v
    case Null => "None"
    case Bool(b) => if b then "True" else "False"
    case Int(i) => PyText.IntToStr(i)
    case Text(s) => s
    case Other(rendered, _) => rendered
  }

  /** Python's `bool(v)`. */
  predicate Truthy(v: Value) {
    match v
    case Null => false
    case Bool(b) => b
    case Int(i) => i != 0
    case Text(s) => s != ""
    case Other(_, t) => t
  }

  /** `d.get(key)`: the value, or None for a missing key. */
  function Get(d: map<string, Value>, key: string): Value
  {
    if key in d then d[key] else Null
  }
}
