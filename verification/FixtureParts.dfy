/**
 Sample values for a single test: one meant to pass it and one meant to fail it,
 with the exact operands for which each does.
 */
module FixtureParts {
  import opened Wrappers
  import opened Values
  import opened Operators
  import opened RuleEngine
  import Text

  const SENTINEL := "__benign__"

  /** `isinstance(v, list) and v`. */
  predicate NonEmptyList(v: Value) {
    v.List? && v.items != []
  }

  /** `[str(e) for e in items]`. */
  function ShowAll(py: Python, items: seq<Value>): seq<string> {
    seq(|items|, i requires 0 <= i < |items| => Show(py, items[i]))
  }

  /** `_pos_for`: a value meant to pass the test. */
  function PosFor(py: Python, op: Op, expected: Value): Value {
    match op
    case Eq => expected
    case In => if NonEmptyList(expected) then expected.items[0] else Null
    case MatchAny =>
      Str(if NonEmptyList(expected) then Text.StarsToX(Show(py, expected.items[0])) else SENTINEL)
    case ContainsAny =>
      Str(if NonEmptyList(expected) then "prefix-" + Show(py, expected.items[0]) + "-suffix" else SENTINEL)
    case ContainsAll =>
      Str(if NonEmptyList(expected) then Text.Join(" ", ShowAll(py, expected.items)) else SENTINEL)
    case Contains => Str("prefix-" + Show(py, expected) + "-suffix")
    case StartsWith => Str(Show(py, expected) + "-tail")
    case StartsWithAny =>
      Str(if NonEmptyList(expected) then Show(py, expected.items[0]) + "-tail" else SENTINEL)
    case EndsWith => Str("head-" + Show(py, expected))
    case EndsWithAny =>
      Str(if NonEmptyList(expected) then "head-" + Show(py, expected.items[0]) else SENTINEL)
    case HasAny => List([if NonEmptyList(expected) then expected.items[0] else Str(SENTINEL)])
    case Gt | Gte => Num(match NumberOf(expected) case Some(n) => n + 100.0 case None => 100.0)
    case Lt | Lte => Num(match NumberOf(expected) case Some(n) => n - 100.0 case None => -100.0)
    case NotIn | NotEndsWithAny | NotContainsAny | NotStartsWith => Str(SENTINEL)
    case Match | PatternMatch | PatternMatchAny => Str(SENTINEL)
  }

  /** `_neg_for`: a value meant to fail the test. */
  function NegFor(py: Python, op: Op, expected: Value): Value {
    match op
    case Eq =>
      (match expected
       case Null => Str(SENTINEL)
       case Bool(b) => Bool(!b)
       case Num(n) => Num(n + 1.0)
       case _ => Str("not-" + Show(py, expected)))
    case NotIn => if NonEmptyList(expected) then expected.items[0] else Str(SENTINEL)
    case StartsWith => Str("x-" + Show(py, expected))
    case EndsWith => Str(Show(py, expected) + "-x")
    case NotEndsWithAny =>
      Str(if NonEmptyList(expected) then "head" + Show(py, expected.items[0]) else SENTINEL)
    case NotContainsAny =>
      Str(if NonEmptyList(expected) then "prefix-" + Show(py, expected.items[0]) + "-suffix" else SENTINEL)
    case NotStartsWith => Str(Show(py, expected) + "-tail")
    case HasAny => List([Str(SENTINEL)])
    case Gt | Gte => Num(match NumberOf(expected) case Some(n) => n - 100.0 case None => -100.0)
    case Lt | Lte => Num(match NumberOf(expected) case Some(n) => n + 100.0 case None => 100.0)
    case In | MatchAny | ContainsAny | ContainsAll | Contains | StartsWithAny | EndsWithAny => Str(SENTINEL)
    case Match | PatternMatch | PatternMatchAny => Str(SENTINEL)
  }

  // ----- when the samples do their job -----

  /** A listed needle is found in the sentinel. */
  predicate SentinelNeedle(py: Python, v: Value) {
    HasNeedle(py, v, Str(SENTINEL))
  }

  predicate SentinelMatches(py: Python, pattern: Value) {
    Searches(py, pattern, Str(SENTINEL))
  }

  /** The operands whose passing sample passes. */
  predicate PosOk(py: Python, op: Op, expected: Value) {
    match op
    case Eq | Contains | StartsWith | EndsWith => true
    case In | MatchAny | StartsWithAny | EndsWithAny | HasAny => NonEmptyList(expected)
    case Gt | Gte | Lt | Lte => NumberOf(expected).Some?
    case ContainsAny =>
      || NonEmptyList(expected)
      || (expected.Str? && exists i :: 0 <= i < |expected.s| && SentinelNeedle(py, Str([expected.s[i]])))
    case ContainsAll =>
      || expected.List?
      || (expected.Str? && forall i :: 0 <= i < |expected.s| ==> SentinelNeedle(py, Str([expected.s[i]])))
    case NotIn => expected.List? && !PyIn(Str(SENTINEL), expected.items)
    case NotStartsWith => !Text.StartsWith(SENTINEL, Show(py, expected))
    case NotEndsWithAny => expected.List? && !AnySuffix(py, expected.items, SENTINEL)
    case NotContainsAny =>
      expected.List? && forall i :: 0 <= i < |expected.items| ==> !SentinelNeedle(py, expected.items[i])
    case Match | PatternMatch => SentinelMatches(py, expected)
    case PatternMatchAny =>
      expected.List? && exists i :: 0 <= i < |expected.items| && SentinelMatches(py, expected.items[i])
  }

  /** The operands whose failing sample fails, without an exception. */
  predicate NegOk(py: Python, op: Op, expected: Value) {
    match op
    case Eq | NotStartsWith => true
    case NotIn | NotEndsWithAny | NotContainsAny => expected != List([])
    case Gt | Gte | Lt | Lte => NumberOf(expected).Some?
    case StartsWith => !Text.PrefixOfPowers(Show(py, expected), "x-")
    case EndsWith => !Text.SuffixOfPowers(Show(py, expected), "-x")
    case In => expected.List? ==> !PyIn(Str(SENTINEL), expected.items)
    case Contains => !Text.Contains(SENTINEL, Show(py, expected))
    case StartsWithAny => expected.List? ==> !AnyPrefix(py, expected.items, SENTINEL)
    case EndsWithAny => expected.List? ==> !AnySuffix(py, expected.items, SENTINEL)
    case MatchAny =>
      expected.List? ==> forall i :: 0 <= i < |expected.items| ==> !GlobOrEqual(py, expected.items[i], Str(SENTINEL))
    case HasAny =>
      expected.List? ==> forall i :: 0 <= i < |expected.items| ==>
                           LowerShow(py, expected.items[i]) != LowerShow(py, Str(SENTINEL))
    case ContainsAny =>
      (match Iterate(expected)
       case None => false
       case Some(needles) => forall i :: 0 <= i < |needles| ==> !SentinelNeedle(py, needles[i]))
    case ContainsAll =>
      (match Iterate(expected)
       case None => false
       case Some(needles) => exists i :: 0 <= i < |needles| && !SentinelNeedle(py, needles[i]))
    case Match | PatternMatch => !SentinelMatches(py, expected)
    case PatternMatchAny =>
      expected.List? ==> forall i :: 0 <= i < |expected.items| ==> !SentinelMatches(py, expected.items[i])
  }

  /** A needle is found wherever its text was pasted. */
  lemma PastedNeedleFound(py: Python, needle: Value, before: string, after: string)
    ensures HasNeedle(py, needle, Str(before + Show(py, needle) + after))
  {
    var pasted := before + Show(py, needle) + after;
    if needle.Null? {
      assert Text.OccursAt(Text.Lower(py.caseTable, pasted), 0, "");
    } else {
      Text.InfixContained(before, Show(py, needle), after);
      Text.LowerKeepsSubstrings(py.caseTable, pasted, Show(py, needle));
    }
  }

  lemma ContainedNeedleFound(py: Python, needle: Value, s: string)
    requires Text.Contains(s, Show(py, needle))
    ensures HasNeedle(py, needle, Str(s))
  {
    var before, after := Text.ContainedSplits(s, Show(py, needle));
    PastedNeedleFound(py, needle, before, after);
  }

  lemma JoinedNeedlesFound(py: Python, items: seq<Value>, separator: string)
    ensures AllNeedles(py, items, Str(Text.Join(separator, ShowAll(py, items))))
  {
    forall i | 0 <= i < |items| ensures HasNeedle(py, items[i], Str(Text.Join(separator, ShowAll(py, items)))) {
      Text.JoinContainsPart(separator, ShowAll(py, items), i);
      ContainedNeedleFound(py, items[i], Text.Join(separator, ShowAll(py, items)));
    }
  }

  lemma GlobSampleAccepted(py: Python, pattern: Value)
    ensures GlobOrEqual(py, pattern, Str(Text.StarsToX(Show(py, pattern))))
  {
    Text.StarsToXMatches(Show(py, pattern));
    if '*' !in Show(py, pattern) {
      Text.StarsToXWithoutStars(Show(py, pattern));
    }
  }

  /** The passing sample passes its test on exactly the operands `PosOk` describes. */
  lemma PosForExact(py: Python, op: Op, expected: Value)
    ensures Check(py, op, expected, PosFor(py, op, expected)) == Yes <==> PosOk(py, op, expected)
  {
    match op
    case Eq =>
    case Gt | Gte | Lt | Lte =>
    case NotIn | NotEndsWithAny | NotStartsWith =>
    case Match | PatternMatch | PatternMatchAny =>
    case In => PosForListsExact(py, op, expected);
    case HasAny => PosForListsExact(py, op, expected);
    case MatchAny => PosForListsExact(py, op, expected);
    case StartsWithAny => PosForListsExact(py, op, expected);
    case EndsWithAny => PosForListsExact(py, op, expected);
    case ContainsAny => PosForContainsAnyExact(py, expected);
    case ContainsAll => PosForContainsAllExact(py, expected);
    case NotContainsAny =>
    case Contains => Text.InfixContained("prefix-", Show(py, expected), "-suffix");
    case StartsWith => Text.ConcatStartsWith(Show(py, expected), "-tail");
    case EndsWith => Text.ConcatEndsWith("head-", Show(py, expected));
  }

  lemma PosForListsExact(py: Python, op: Op, expected: Value)
    requires op in {In, HasAny, MatchAny, StartsWithAny, EndsWithAny}
    ensures Check(py, op, expected, PosFor(py, op, expected)) == Yes <==> PosOk(py, op, expected)
  {
    if NonEmptyList(expected) {
      var first := expected.items[0];
      match op
      case In => assert PyEq(first, expected.items[0]);
      case HasAny => assert HasNeedle(py, first, List([first])) by { assert List([first]).items[0] == first; }
      case MatchAny => GlobSampleAccepted(py, first);
      case StartsWithAny => Text.ConcatStartsWith(Show(py, first), "-tail");
      case EndsWithAny => Text.ConcatEndsWith("head-", Show(py, first));
    }
  }

  lemma PosForContainsAnyExact(py: Python, expected: Value)
    ensures Check(py, ContainsAny, expected, PosFor(py, ContainsAny, expected)) == Yes
            <==> PosOk(py, ContainsAny, expected)
  {
    if NonEmptyList(expected) {
      PastedNeedleFound(py, expected.items[0], "prefix-", "-suffix");
      assert AnyNeedle(py, expected.items, PosFor(py, ContainsAny, expected));
    } else if expected.Str? {
      StringNeedles(py, expected);
    }
  }

  lemma PosForContainsAllExact(py: Python, expected: Value)
    ensures Check(py, ContainsAll, expected, PosFor(py, ContainsAll, expected)) == Yes
            <==> PosOk(py, ContainsAll, expected)
  {
    if NonEmptyList(expected) {
      JoinedNeedlesFound(py, expected.items, " ");
    } else if expected.Str? {
      StringNeedles(py, expected);
    }
  }

  /** Iterating over a string yields its characters as needles. */
  lemma StringNeedles(py: Python, expected: Value)
    requires expected.Str?
    ensures var needles := Iterate(expected).value;
            && |needles| == |expected.s|
            && forall i :: 0 <= i < |needles| ==>
                 (HasNeedle(py, needles[i], Str(SENTINEL)) <==> SentinelNeedle(py, Str([expected.s[i]])))
  {
  }

  /** The failing sample makes its test false on exactly the operands `NegOk` describes. */
  lemma NegForExact(py: Python, op: Op, expected: Value)
    ensures Check(py, op, expected, NegFor(py, op, expected)) == No <==> NegOk(py, op, expected)
  {
    match op
    case Eq =>
    case Gt | Gte | Lt | Lte =>
    case In | MatchAny | StartsWithAny | EndsWithAny | Contains =>
    case Match | PatternMatch | PatternMatchAny =>
    case NotIn =>
      if NonEmptyList(expected) { assert PyEq(expected.items[0], expected.items[0]); }
    case NotEndsWithAny =>
      if NonEmptyList(expected) { Text.ConcatEndsWith("head", Show(py, expected.items[0])); }
    case NotStartsWith => Text.ConcatStartsWith(Show(py, expected), "-tail");
    case StartsWith => Text.ShiftedPrefix("x-", Show(py, expected));
    case EndsWith => Text.ShiftedSuffix("-x", Show(py, expected));
    case HasAny => NegForHasAnyExact(py, expected);
    case ContainsAny => NegForContainsAnyExact(py, expected);
    case ContainsAll => NegForContainsAllExact(py, expected);
    case NotContainsAny =>
      if NonEmptyList(expected) {
        PastedNeedleFound(py, expected.items[0], "prefix-", "-suffix");
        assert AnyNeedle(py, expected.items, NegFor(py, op, expected));
      }
  }

  lemma NegForHasAnyExact(py: Python, expected: Value)
    ensures Check(py, HasAny, expected, NegFor(py, HasAny, expected)) == No <==> NegOk(py, HasAny, expected)
  {
    forall needle ensures HasNeedle(py, needle, List([Str(SENTINEL)]))
                          <==> LowerShow(py, needle) == LowerShow(py, Str(SENTINEL))
    {
      SingletonNeedle(py, needle, Str(SENTINEL));
    }
  }

  lemma SingletonNeedle(py: Python, needle: Value, v: Value)
    ensures HasNeedle(py, needle, List([v])) <==> LowerShow(py, needle) == LowerShow(py, v)
  {
    assert List([v]).items[0] == v;
  }

  lemma NegForContainsAnyExact(py: Python, expected: Value)
    ensures Check(py, ContainsAny, expected, NegFor(py, ContainsAny, expected)) == No
            <==> NegOk(py, ContainsAny, expected)
  {
    assert NegFor(py, ContainsAny, expected) == Str(SENTINEL);
  }

  lemma NegForContainsAllExact(py: Python, expected: Value)
    ensures Check(py, ContainsAll, expected, NegFor(py, ContainsAll, expected)) == No
            <==> NegOk(py, ContainsAll, expected)
  {
    assert NegFor(py, ContainsAll, expected) == Str(SENTINEL);
  }
}
