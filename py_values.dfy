/**
 * The dynamically typed values a secret descriptor or a result envelope
 * holds, with Python's truthiness.
 */
module PyValues {

  datatype Value =
    | VNone
    | VBool(b: bool)
    | VInt(i: int)
    | VStr(s: string)
    | VList(items: seq<Value>)
    | VDict(entries: map<string, Value>)

  /** Python truthiness: `None`, `False`, `0` and empty containers are false. */
  predicate Truthy(v: Value)
  {
    match v
    case VNone => false
    case VBool(b) => b
    case VInt(i) => i != 0
    case VStr(s) => s != []
    case VList(items) => items != []
    case VDict(entries) => entries != map[]
  }

  /** True when `needle` occurs contiguously in `s` (Python's `in` on strings). */
  predicate IsSubstring(needle: string, s: string)
  {
    needle <= s || (s != [] && IsSubstring(needle, s[1..]))
  }
}
