/**
 The dynamically typed values that rules and events carry, and the parts of
 Python that give them meaning.
 */
module Values {
  import opened Wrappers
  import Text

  datatype Value =
    | Null
    | Bool(b: bool)
    | Num(n: real)
    | Str(s: string)
    | List(items: seq<Value>)

  type Event = map<string, Value>

  /**
   What the rule code takes from its Python runtime: the case table behind
   `str.lower`, `str()` of numbers and lists, and `re.search(..., IGNORECASE)`,
   whose result is None when the pattern does not compile.
   */
  datatype Python = Python(
    caseTable: char -> string,
    show: Value -> string,
    search: (string, string) -> Option<bool>)

  /** `str(v)`. */
  function Show(py: Python, v: Value): string {
    match v
    case Null => "None"
    case Bool(b) => if b then "True" else "False"
    case Str(s) => s
    case _ => py.show(v)
  }

  /** `_to_lc_str(v)`: an absent value reads as the empty string. */
  function LowerShow(py: Python, v: Value): string {
    if v.Null? then "" else Text.Lower(py.caseTable, Show(py, v))
  }

  /** The number behind `v`, if `isinstance(v, (int, float))`; a Boolean counts as 0 or 1. */
  function NumberOf(v: Value): Option<real> {
    match v
    case Num(n) => Some(n)
    case Bool(b) => Some(if b then 1.0 else 0.0)
    case _ => None
  }

  /** `v` with every Boolean replaced by its number, at any depth. */
  function Numeric(v: Value): Value {
    match v
    case Bool(b) => Num(if b then 1.0 else 0.0)
    case List(items) => List(seq(|items|, i requires 0 <= i < |items| => Numeric(items[i])))
    case _ => v
  }

  /** `a == b`. */
  predicate PyEq(a: Value, b: Value) {
    Numeric(a) == Numeric(b)
  }

  /** `v in items`. */
  predicate PyIn(v: Value, items: seq<Value>) {
    exists i :: 0 <= i < |items| && PyEq(v, items[i])
  }

  /** What iterating over `v` yields, or None where Python raises `TypeError`. */
  function Iterate(v: Value): Option<seq<Value>> {
    match v
    case List(items) => Some(items)
    case Str(s) => Some(seq(|s|, i requires 0 <= i < |s| => Str([s[i]])))
    case _ => None
  }

  /** `event.get(field)`. */
  function Get(event: Event, field: string): Value {
    if field in event then event[field] else Null
  }
}
