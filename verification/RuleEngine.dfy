/**
 The reference evaluator of `match_when` clauses: one test of a field, and
 clauses with nested `any_of` and `all_of`. Every operator is modelled; where
 Python would raise an exception the verdict is `Raises`.
 */
module RuleEngine {
  import opened Wrappers
  import opened Values
  import opened Operators
  import Text

  datatype Verdict = Yes | No | Raises

  function ToVerdict(b: bool): Verdict {
    if b then Yes else No
  }

  // ----- clauses -----

  /** One item of a clause dictionary: an `any_of` or `all_of` key with a list of clauses,
      or any other item, including those keys with other values. */
  datatype Entry =
    | Test(key: string, expected: Value)
    | AnyOf(subs: seq<Clause>)
    | AllOf(subs: seq<Clause>)
  {
    function Key(): string {
      match this
      case Test(key, _) => key
      case AnyOf(_) => "any_of"
      case AllOf(_) => "all_of"
    }
  }

  /** A clause dictionary in key order. */
  datatype Clause = Clause(entries: seq<Entry>)

  // ----- one test -----

  /** Some needle occurs, lower-cased, in the actual value: as an element of a list
      and otherwise as a substring of its text. */
  predicate HasNeedle(py: Python, needle: Value, actual: Value) {
    if actual.List? then
      exists i :: 0 <= i < |actual.items| && LowerShow(py, actual.items[i]) == LowerShow(py, needle)
    else
      Text.Contains(LowerShow(py, actual), LowerShow(py, needle))
  }

  predicate AnyNeedle(py: Python, needles: seq<Value>, actual: Value) {
    exists i :: 0 <= i < |needles| && HasNeedle(py, needles[i], actual)
  }

  predicate AllNeedles(py: Python, needles: seq<Value>, actual: Value) {
    forall i :: 0 <= i < |needles| ==> HasNeedle(py, needles[i], actual)
  }

  predicate GlobOrEqual(py: Python, pattern: Value, actual: Value) {
    var text := if actual.Null? then "" else Show(py, actual);
    var pat := Show(py, pattern);
    if '*' in pat then Text.GlobMatch(pat, text) else text == pat
  }

  /** A regular-expression search that falls back to a lower-cased substring test. */
  predicate Searches(py: Python, pattern: Value, actual: Value) {
    var pat, text := Show(py, pattern), Show(py, actual);
    match py.search(pat, text)
    case Some(found) => found
    case None => Text.Contains(Text.Lower(py.caseTable, text), Text.Lower(py.caseTable, pat))
  }

  predicate AnyPrefix(py: Python, prefixes: seq<Value>, s: string) {
    exists i :: 0 <= i < |prefixes| && Text.StartsWith(s, Show(py, prefixes[i]))
  }

  predicate AnySuffix(py: Python, suffixes: seq<Value>, s: string) {
    exists i :: 0 <= i < |suffixes| && Text.EndsWith(s, Show(py, suffixes[i]))
  }

  /** A numeric comparison: only true numbers compare, and only with numbers. */
  function Compare(op: Op, actual: Value, expected: Value): Verdict
    requires op in {Gt, Gte, Lt, Lte}
  {
    if !actual.Num? then No
    else match NumberOf(expected)
      case None => Raises
      case Some(bound) =>
        ToVerdict(match op
                  case Gt => actual.n > bound
                  case Gte => actual.n >= bound
                  case Lt => actual.n < bound
                  case _ => actual.n <= bound)
  }

  /** `_check`, given the value found under the tested field. */
  function Check(py: Python, op: Op, expected: Value, actual: Value): Verdict {
    match op
    case Eq => ToVerdict(if expected.Null? then actual.Null? else PyEq(actual, expected))
    case Gt | Gte | Lt | Lte => Compare(op, actual, expected)
    case In => ToVerdict(expected.List? && PyIn(actual, expected.items))
    case NotIn => ToVerdict(expected.List? && !PyIn(actual, expected.items))
    case ContainsAny =>
      (match Iterate(expected)
       case None => Raises
       case Some(needles) => ToVerdict(AnyNeedle(py, needles, actual)))
    case ContainsAll =>
      (match Iterate(expected)
       case None => Raises
       case Some(needles) => ToVerdict(AllNeedles(py, needles, actual)))
    case MatchAny =>
      ToVerdict(expected.List?
                && exists i :: 0 <= i < |expected.items| && GlobOrEqual(py, expected.items[i], actual))
    case PatternMatchAny =>
      ToVerdict(expected.List? && !actual.Null?
                && exists i :: 0 <= i < |expected.items| && Searches(py, expected.items[i], actual))
    case EndsWith => ToVerdict(actual.Str? && Text.EndsWith(actual.s, Show(py, expected)))
    case EndsWithAny => ToVerdict(expected.List? && actual.Str? && AnySuffix(py, expected.items, actual.s))
    case StartsWith => ToVerdict(actual.Str? && Text.StartsWith(actual.s, Show(py, expected)))
    case StartsWithAny => ToVerdict(expected.List? && actual.Str? && AnyPrefix(py, expected.items, actual.s))
    case NotStartsWith => ToVerdict(actual.Str? && !Text.StartsWith(actual.s, Show(py, expected)))
    case Contains =>
      ToVerdict(match actual
                case List(items) => PyIn(expected, items)
                case Str(s) => Text.Contains(s, Show(py, expected))
                case _ => false)
    case HasAny => ToVerdict(expected.List? && actual.List? && AnyNeedle(py, expected.items, actual))
    case Match | PatternMatch => ToVerdict(!actual.Null? && Searches(py, expected, actual))
    case NotEndsWithAny => ToVerdict(expected.List? && actual.Str? && !AnySuffix(py, expected.items, actual.s))
    case NotContainsAny => ToVerdict(expected.List? && !AnyNeedle(py, expected.items, actual))
  }

  // ----- clauses -----

  /** A group key whose value is not a list of clauses: anything but a list is false,
      an empty list has no sub-clause, and iterating over other lists reaches a value
      without `.items()`. */
  function EvalStrayGroup(key: string, expected: Value): Verdict
    requires key in {"any_of", "all_of"}
  {
    if !expected.List? then No
    else if expected.items == [] then ToVerdict(key == "all_of")
    else Raises
  }

  function EvalEntry(py: Python, e: Entry, event: Event): Verdict
    decreases e, 1
  {
    match e
    case AnyOf(subs) => EvalAny(py, subs, event)
    case AllOf(subs) => EvalAll(py, subs, event)
    case Test(key, expected) =>
      if key in {"any_of", "all_of"} then EvalStrayGroup(key, expected)
      else var (field, op) := SplitOp(key); Check(py, op, expected, Get(event, field))
  }

  /** `any(...)`: stops at the first sub-clause that is not false. */
  function EvalAny(py: Python, subs: seq<Clause>, event: Event): Verdict
    decreases subs, 0
  {
    if subs == [] then No
    else match EvalClause(py, subs[0], event)
      case No => EvalAny(py, subs[1..], event)
      case v => v
  }

  /** `all(...)`: stops at the first sub-clause that is not true. */
  function EvalAll(py: Python, subs: seq<Clause>, event: Event): Verdict
    decreases subs, 0
  {
    if subs == [] then Yes
    else match EvalClause(py, subs[0], event)
      case Yes => EvalAll(py, subs[1..], event)
      case v => v
  }

  /** The loop of `_eval_clause`: stops at the first item that is not true. */
  function EvalEntries(py: Python, entries: seq<Entry>, event: Event): Verdict
    decreases entries, 0
  {
    if entries == [] then Yes
    else match EvalEntry(py, entries[0], event)
      case Yes => EvalEntries(py, entries[1..], event)
      case v => v
  }

  /** `_eval_clause`. */
  function EvalClause(py: Python, c: Clause, event: Event): Verdict
    decreases c, 0
  {
    EvalEntries(py, c.entries, event)
  }

  /** `matches`. */
  function Matches(py: Python, when: Clause, event: Event): Verdict {
    EvalClause(py, when, event)
  }
}
