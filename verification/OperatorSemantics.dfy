/**
 What the evaluator accepts, operator by operator, in terms of the values alone: how keys
 read, when values are equal, and what each test asks of the value under its field.
 */
module OperatorSemantics {
  import opened Wrappers
  import opened Values
  import opened Operators
  import opened RuleEngine
  import Text

  // ----- values -----

  /** The numbers a value equals: a Boolean counts as 0 or 1. */
  predicate Counts(v: Value, n: real) {
    v == Num(n) || (v == Bool(true) && n == 1.0) || (v == Bool(false) && n == 0.0)
  }

  lemma NumberMeans(v: Value, n: real)
    ensures NumberOf(v) == Some(n) <==> Counts(v, n)
  {
  }

  /** Equality of values: by text, by number, and element by element. */
  lemma EqualityMeans(a: Value, b: Value)
    ensures PyEq(a, b) <==> match a
                            case Null => b == Null
                            case Str(s) => b == Str(s)
                            case Bool(x) => Counts(b, if x then 1.0 else 0.0)
                            case Num(n) => Counts(b, n)
                            case List(items) => && b.List? && |b.items| == |items|
                                                && forall i :: 0 <= i < |items| ==> PyEq(items[i], b.items[i])
  {
    if a.List? && b.List? {
      var left, right := Numeric(a).items, Numeric(b).items;
      assert |left| == |a.items| && |right| == |b.items|;
      if |a.items| == |b.items| && forall i :: 0 <= i < |a.items| ==> PyEq(a.items[i], b.items[i]) {
        assert left == right;
      }
      if PyEq(a, b) {
        forall i | 0 <= i < |a.items| ensures PyEq(a.items[i], b.items[i]) {
          assert left[i] == right[i];
        }
      }
    }
  }

  /** The texts of values in tests on text. */
  lemma ShownAs(py: Python)
    ensures Show(py, Null) == "None" && Show(py, Bool(true)) == "True" && Show(py, Bool(false)) == "False"
    ensures forall s :: Show(py, Str(s)) == s
    ensures LowerShow(py, Null) == ""
    ensures forall v: Value :: v != Null ==> LowerShow(py, v) == Text.Lower(py.caseTable, Show(py, v))
  {
  }

  // ----- keys -----

  /** What a field name must not end with, lest a key for `op` read as a longer operator. */
  function Shadow(op: Op): string {
    match op
    case In | StartsWith | ContainsAny | EndsWithAny => "_not"
    case Match | MatchAny => "_pattern"
    case _ => ""
  }

  /** `|EngineSuffix(op)|` */
  function SuffixLength(op: Op): nat {
    match op
    case MatchAny => 10
    case StartsWith => 11
    case EndsWithAny | ContainsAny | ContainsAll => 13
    case PatternMatch => 14
    case NotStartsWith | StartsWithAny => 15
    case NotEndsWithAny | NotContainsAny => 17
    case PatternMatchAny => 18
    case In | Gt | Lt => 3
    case Gte | Lte => 4
    case Match => 6
    case NotIn => 7
    case HasAny => 8
    case EndsWith | Contains => 9
    case _ => 0
  }

  /** The first letter of a suffix. */
  function Initial(op: Op): char {
    match op
    case ContainsAny | ContainsAll | Contains => 'c'
    case EndsWithAny | EndsWith => 'e'
    case Gte | Gt => 'g'
    case HasAny => 'h'
    case In => 'i'
    case Lte | Lt => 'l'
    case MatchAny | Match => 'm'
    case NotEndsWithAny | NotContainsAny | NotStartsWith | NotIn => 'n'
    case PatternMatchAny | PatternMatch => 'p'
    case StartsWithAny | StartsWith => 's'
    case _ => ' '
  }

  /** The last letter of a suffix. */
  function Final(op: Op): char {
    match op
    case Gte | Lte => 'e'
    case PatternMatch | NotStartsWith | StartsWith | EndsWith | Match => 'h'
    case ContainsAll => 'l'
    case NotIn | In => 'n'
    case Contains => 's'
    case Gt | Lt => 't'
    case PatternMatchAny | NotEndsWithAny | NotContainsAny | StartsWithAny => 'y'
    case EndsWithAny | ContainsAny | MatchAny | HasAny => 'y'
    case _ => ' '
  }

  lemma SuffixFacts(op: Op)
    requires op != Eq
    ensures var s := EngineSuffix(op);
            |s| == SuffixLength(op) && s[0] == '_' && s[1] == Initial(op) && s[|s| - 1] == Final(op)
  {
  }

  /** The underscores inside suffixes, and the letters behind them. */
  predicate HasTail(longer: Op, k: nat, initial: char) {
    || (longer == NotIn && k == 4 && initial == 'i')
    || (longer == NotStartsWith && k == 4 && initial == 's')
    || (longer == NotEndsWithAny && k == 4 && initial == 'e')
    || (longer == NotContainsAny && k == 4 && initial == 'c')
    || (longer in {PatternMatch, PatternMatchAny} && k == 8 && initial == 'm')
    || (longer == HasAny && k == 4 && initial == 'a')
    || (longer == MatchAny && k == 6 && initial == 'a')
    || (longer in {EndsWithAny, ContainsAny, ContainsAll} && k == 9 && initial == 'a')
    || (longer == StartsWithAny && k == 11 && initial == 'a')
    || (longer in {NotEndsWithAny, NotContainsAny} && k == 13 && initial == 'a')
    || (longer == PatternMatchAny && k == 14 && initial == 'a')
  }

  lemma UnderscoreInside(longer: Op, k: nat)
    requires 0 < k < |EngineSuffix(longer)| - 1 && EngineSuffix(longer)[k] == '_'
    ensures HasTail(longer, k, EngineSuffix(longer)[k + 1])
  {
  }

  lemma TailDecides(op: Op, longer: Op, k: nat)
    requires op != Eq && HasTail(longer, k, Initial(op))
    requires SuffixLength(longer) == k + SuffixLength(op) && Final(longer) == Final(op)
    ensures Extends(op, longer)
  {
  }

  predicate Extends(op: Op, longer: Op) {
    || (op == In && longer == NotIn)
    || (op == StartsWith && longer == NotStartsWith)
    || (op == ContainsAny && longer == NotContainsAny)
    || (op == EndsWithAny && longer == NotEndsWithAny)
    || (op == Match && longer == PatternMatch)
    || (op == MatchAny && longer == PatternMatchAny)
  }

  lemma ShadowBefore(op: Op, longer: Op)
    requires Extends(op, longer)
    ensures Shadow(op) != "" && SuffixLength(longer) == |Shadow(op)| + SuffixLength(op)
    ensures EngineSuffix(longer)[..|Shadow(op)|] == Shadow(op)
  {
  }

  /** A longer suffix fits only where the field name ends with what shadows the operator. */
  lemma LongerFits(field: string, op: Op, longer: Op)
    requires op != Eq && longer != Eq
    requires |EngineSuffix(longer)| > |EngineSuffix(op)|
    ensures Text.EndsWith(field + EngineSuffix(op), EngineSuffix(longer))
            ==> Shadow(op) != "" && Text.EndsWith(field, Shadow(op))
  {
    if Text.EndsWith(field + EngineSuffix(op), EngineSuffix(longer)) {
      TailOfKey(field, EngineSuffix(op), EngineSuffix(longer));
      SuffixFacts(op);
      SuffixFacts(longer);
      UnderscoreInside(longer, SuffixLength(longer) - SuffixLength(op));
      TailDecides(op, longer, SuffixLength(longer) - SuffixLength(op));
      ShadowBefore(op, longer);
    }
  }

  lemma TailOfKey(field: string, s: string, t: string)
    requires |t| > |s| && Text.EndsWith(field + s, t)
    ensures Text.EndsWith(field, t[..|t| - |s|])
    ensures |s| > 1 ==> t[|t| - |s|] == s[0] && t[|t| - |s| + 1] == s[1] && t[|t| - 1] == s[|s| - 1]
  {
    var key, k := field + s, |t| - |s|;
    assert t[k..] == key[|field|..] == s;
    assert |s| > 1 ==> t[k..][0] == s[0] && t[k..][1] == s[1] && t[k..][|s| - 1] == s[|s| - 1];
    assert field[|field| - k..] == key[|key| - |t|..][..k];
  }

  /** A key made from a field and an operator's suffix reads as that field and operator. */
  lemma SuffixReads(field: string, op: Op)
    requires op != Eq && (Shadow(op) != "" ==> !Text.EndsWith(field, Shadow(op)))
    ensures SplitOp(field + EngineSuffix(op)) == (field, op)
  {
    var key := field + EngineSuffix(op);
    forall longer: Op | Text.EndsWith(key, EngineSuffix(longer))
      ensures |EngineSuffix(longer)| <= |EngineSuffix(op)|
    {
      if |EngineSuffix(longer)| > |EngineSuffix(op)| {
        LongerFits(field, op, longer);
      }
    }
    SplitOpReads(key);
    ReadingUnique(key, SplitOp(key).0, SplitOp(key).1, field, op);
  }

  /** How keys read, spelled out. */
  lemma ComparisonKeysRead(field: string)
    ensures SplitOp(field + "_gt") == (field, Gt) && SplitOp(field + "_gte") == (field, Gte)
    ensures SplitOp(field + "_lt") == (field, Lt) && SplitOp(field + "_lte") == (field, Lte)
  {
    SuffixReads(field, Gt); SuffixReads(field, Gte); SuffixReads(field, Lt); SuffixReads(field, Lte);
  }

  lemma TextKeysRead(field: string)
    ensures SplitOp(field + "_contains") == (field, Contains)
    ensures SplitOp(field + "_contains_all") == (field, ContainsAll)
    ensures SplitOp(field + "_startswith_any") == (field, StartsWithAny)
    ensures SplitOp(field + "_endswith") == (field, EndsWith)
    ensures SplitOp(field + "_has_any") == (field, HasAny)
  {
    SuffixReads(field, Contains); SuffixReads(field, ContainsAll); SuffixReads(field, StartsWithAny);
    SuffixReads(field, EndsWith); SuffixReads(field, HasAny);
  }

  lemma NegatedKeysRead(field: string)
    ensures SplitOp(field + "_not_in") == (field, NotIn)
    ensures SplitOp(field + "_not_startswith") == (field, NotStartsWith)
    ensures SplitOp(field + "_not_endswith_any") == (field, NotEndsWithAny)
    ensures SplitOp(field + "_not_contains_any") == (field, NotContainsAny)
  {
    SuffixReads(field, NotIn); SuffixReads(field, NotStartsWith);
    SuffixReads(field, NotEndsWithAny); SuffixReads(field, NotContainsAny);
  }

  lemma PatternKeysRead(field: string)
    ensures SplitOp(field + "_pattern_match") == (field, PatternMatch)
    ensures SplitOp(field + "_pattern_match_any") == (field, PatternMatchAny)
  {
    SuffixReads(field, PatternMatch); SuffixReads(field, PatternMatchAny);
  }

  /** The suffixes that end a longer one are read only off fields that do not complete it. */
  lemma ShadowedKeysRead(field: string)
    ensures !Text.EndsWith(field, "_not") ==>
              && SplitOp(field + "_in") == (field, In)
              && SplitOp(field + "_startswith") == (field, StartsWith)
              && SplitOp(field + "_contains_any") == (field, ContainsAny)
              && SplitOp(field + "_endswith_any") == (field, EndsWithAny)
    ensures !Text.EndsWith(field, "_pattern") ==>
              && SplitOp(field + "_match") == (field, Match)
              && SplitOp(field + "_match_any") == (field, MatchAny)
  {
    if !Text.EndsWith(field, "_not") {
      SuffixReads(field, In); SuffixReads(field, StartsWith);
      SuffixReads(field, ContainsAny); SuffixReads(field, EndsWithAny);
    }
    if !Text.EndsWith(field, "_pattern") {
      SuffixReads(field, Match); SuffixReads(field, MatchAny);
    }
  }

  /** A clause of one test asks it of the value under its field, or of null if there is none. */
  lemma OneTest(py: Python, key: string, expected: Value, event: Event)
    requires key !in {"any_of", "all_of"}
    ensures var (field, op) := SplitOp(key);
            Matches(py, Clause([Test(key, expected)]), event)
            == Check(py, op, expected, if field in event then event[field] else Null)
  {
    var entries := [Test(key, expected)];
    FirstItemDecides(py, entries, event, if EvalEntry(py, entries[0], event) == Yes then 1 else 0);
  }

  // ----- tests -----

  /** A numeric comparison compares numbers with numbers; Booleans do not compare, though an operand
      may be one. A number against any other operand raises. */
  lemma ComparisonsMean(py: Python, expected: Value, bound: real, actual: Value)
    requires Counts(expected, bound)
    ensures Check(py, Gt, expected, actual) == (if actual.Num? && actual.n > bound then Yes else No)
    ensures Check(py, Gte, expected, actual) == (if actual.Num? && actual.n >= bound then Yes else No)
    ensures Check(py, Lt, expected, actual) == (if actual.Num? && actual.n < bound then Yes else No)
    ensures Check(py, Lte, expected, actual) == (if actual.Num? && actual.n <= bound then Yes else No)
  {
  }

  lemma BadBoundsRaise(py: Python, op: Op, expected: Value, actual: Value)
    requires op in {Gt, Gte, Lt, Lte} && forall bound :: !Counts(expected, bound)
    ensures Check(py, op, expected, actual) == if actual.Num? then Raises else No
  {
    if NumberOf(expected).Some? {
      NumberMeans(expected, NumberOf(expected).value);
    }
  }

  /** Equality and membership. */
  lemma MembershipMeans(py: Python, expected: Value, items: seq<Value>, actual: Value)
    ensures Check(py, Eq, expected, actual) == Yes <==> PyEq(actual, expected)
    ensures Check(py, In, List(items), actual) == Yes <==> exists v <- items :: PyEq(actual, v)
    ensures Check(py, NotIn, List(items), actual) == Yes <==> forall v <- items :: !PyEq(actual, v)
    ensures !expected.List? ==> Check(py, In, expected, actual) == Check(py, NotIn, expected, actual) == No
  {
    if v :| v in items && PyEq(actual, v) {
      var i :| 0 <= i < |items| && items[i] == v;
    }
  }

  /** Prefix and suffix tests, on text only. */
  lemma EndsMean(py: Python, expected: Value, s: string)
    ensures Check(py, StartsWith, expected, Str(s)) == Yes <==> exists rest :: s == Show(py, expected) + rest
    ensures Check(py, NotStartsWith, expected, Str(s)) == Yes <==> forall rest :: s != Show(py, expected) + rest
    ensures Check(py, EndsWith, expected, Str(s)) == Yes <==> exists rest :: s == rest + Show(py, expected)
  {
    PrefixMeans(s, Show(py, expected));
    SuffixMeans(s, Show(py, expected));
  }

  lemma PrefixMeans(s: string, prefix: string)
    ensures Text.StartsWith(s, prefix) <==> exists rest :: s == prefix + rest
  {
    if Text.StartsWith(s, prefix) {
      assert s == prefix + s[|prefix|..];
    }
  }

  lemma SuffixMeans(s: string, suffix: string)
    ensures Text.EndsWith(s, suffix) <==> exists rest :: s == rest + suffix
  {
    if Text.EndsWith(s, suffix) {
      assert s == s[..|s| - |suffix|] + suffix;
    }
  }

  lemma SubstringMeans(s: string, part: string)
    ensures Text.Contains(s, part) <==> exists before, after :: s == before + part + after
  {
    if Text.Contains(s, part) {
      var before, after := Text.ContainedSplits(s, part);
    }
    if before, after :| s == before + part + after {
      Text.InfixContained(before, part, after);
    }
  }

  /** The list forms accept text that one of the listed prefixes or suffixes fits, or none. */
  lemma ListedEndsMean(py: Python, items: seq<Value>, s: string)
    ensures Check(py, StartsWithAny, List(items), Str(s)) == Yes
            <==> exists i :: 0 <= i < |items| && Check(py, StartsWith, items[i], Str(s)) == Yes
    ensures Check(py, EndsWithAny, List(items), Str(s)) == Yes
            <==> exists i :: 0 <= i < |items| && Check(py, EndsWith, items[i], Str(s)) == Yes
    ensures Check(py, NotEndsWithAny, List(items), Str(s)) == Yes
            <==> forall i :: 0 <= i < |items| ==> Check(py, EndsWith, items[i], Str(s)) != Yes
  {
    forall v: Value
      ensures Check(py, StartsWith, v, Str(s)) == Yes <==> Text.StartsWith(s, Show(py, v))
      ensures Check(py, EndsWith, v, Str(s)) == Yes <==> Text.EndsWith(s, Show(py, v))
    {
    }
  }

  /** Those tests fail on anything but text, and their list forms on operands that are no lists. */
  lemma EndsNeedText(py: Python, op: Op, expected: Value, actual: Value)
    requires op in {StartsWith, NotStartsWith, EndsWith, StartsWithAny, EndsWithAny, NotEndsWithAny}
    requires !actual.Str? || (op in {StartsWithAny, EndsWithAny, NotEndsWithAny} && !expected.List?)
    ensures Check(py, op, expected, actual) == No
  {
  }

  /** `contains`: a substring of text, an element of a list, nothing of anything else. */
  lemma ContainsMeans(py: Python, expected: Value, s: string, items: seq<Value>, other: Value)
    ensures Check(py, Contains, expected, Str(s)) == Yes
            <==> exists before, after :: s == before + Show(py, expected) + after
    ensures Check(py, Contains, expected, List(items)) == Yes <==> exists v <- items :: PyEq(expected, v)
    ensures !other.Str? && !other.List? ==> Check(py, Contains, expected, other) == No
  {
    SubstringMeans(s, Show(py, expected));
    if v :| v in items && PyEq(expected, v) {
      var i :| 0 <= i < |items| && items[i] == v;
    }
  }

  /** Some element has the needle's lower-cased text. */
  predicate InList(py: Python, needle: Value, items: seq<Value>) {
    exists j :: 0 <= j < |items| && LowerShow(py, items[j]) == LowerShow(py, needle)
  }

  /** The needle tests on a list compare lower-cased texts of needles and elements: some pair,
      some element for every needle, no pair. `has_any` is for lists only. */
  lemma NeedlesInList(py: Python, needles: seq<Value>, items: seq<Value>)
    ensures Check(py, HasAny, List(needles), List(items)) == Yes
            <==> exists i :: 0 <= i < |needles| && InList(py, needles[i], items)
    ensures Check(py, ContainsAny, List(needles), List(items)) == Yes
            <==> exists i :: 0 <= i < |needles| && InList(py, needles[i], items)
    ensures Check(py, ContainsAll, List(needles), List(items)) == Yes
            <==> forall i :: 0 <= i < |needles| ==> InList(py, needles[i], items)
    ensures Check(py, NotContainsAny, List(needles), List(items)) == Yes
            <==> forall i :: 0 <= i < |needles| ==> !InList(py, needles[i], items)
  {
    NeedleVerdicts(py, needles, List(items));
    ListedNeedles(py, needles, items);
  }

  lemma NeedleVerdicts(py: Python, needles: seq<Value>, actual: Value)
    ensures Check(py, HasAny, List(needles), actual) == Yes <==> actual.List? && AnyNeedle(py, needles, actual)
    ensures Check(py, ContainsAny, List(needles), actual) == Yes <==> AnyNeedle(py, needles, actual)
    ensures Check(py, ContainsAll, List(needles), actual) == Yes <==> AllNeedles(py, needles, actual)
    ensures Check(py, NotContainsAny, List(needles), actual) == Yes <==> !AnyNeedle(py, needles, actual)
  {
  }

  lemma ListedNeedles(py: Python, needles: seq<Value>, items: seq<Value>)
    ensures AnyNeedle(py, needles, List(items)) <==> exists i :: 0 <= i < |needles| && InList(py, needles[i], items)
    ensures AllNeedles(py, needles, List(items)) <==> forall i :: 0 <= i < |needles| ==> InList(py, needles[i], items)
  {
    forall needle ensures HasNeedle(py, needle, List(items)) <==> InList(py, needle, items) {}
  }

  /** On any other value they look for the lower-cased needle in its lower-cased text. */
  lemma NeedlesInText(py: Python, needles: seq<Value>, actual: Value)
    requires !actual.List?
    ensures Check(py, ContainsAny, List(needles), actual) == Yes
            <==> exists i :: 0 <= i < |needles| && FoundIn(py, needles[i], actual)
    ensures Check(py, NotContainsAny, List(needles), actual) == Yes
            <==> forall i :: 0 <= i < |needles| ==> !FoundIn(py, needles[i], actual)
    ensures Check(py, ContainsAll, List(needles), actual) == Yes
            <==> forall i :: 0 <= i < |needles| ==> FoundIn(py, needles[i], actual)
  {
    NeedleVerdicts(py, needles, actual);
    TextNeedles(py, needles, actual);
  }

  lemma TextNeedles(py: Python, needles: seq<Value>, actual: Value)
    requires !actual.List?
    ensures AnyNeedle(py, needles, actual) <==> exists i :: 0 <= i < |needles| && FoundIn(py, needles[i], actual)
    ensures AllNeedles(py, needles, actual) <==> forall i :: 0 <= i < |needles| ==> FoundIn(py, needles[i], actual)
  {
    forall needle ensures HasNeedle(py, needle, actual) <==> FoundIn(py, needle, actual) {
      NeedleInText(py, needle, actual);
    }
  }

  lemma NeedleInText(py: Python, needle: Value, actual: Value)
    requires !actual.List?
    ensures HasNeedle(py, needle, actual) <==> FoundIn(py, needle, actual)
  {
    SubstringMeans(LowerShow(py, actual), LowerShow(py, needle));
  }

  ghost predicate FoundIn(py: Python, needle: Value, actual: Value) {
    exists before, after :: LowerShow(py, actual) == before + LowerShow(py, needle) + after
  }

  lemma HasAnyNeedsList(py: Python, expected: Value, actual: Value)
    requires !actual.List?
    ensures Check(py, HasAny, expected, actual) == No
  {
  }

  /** Needle tests whose operand is text take its characters as needles, and raise on other operands;
      the two tests that guard their operand just fail. */
  lemma NeedlesFromOthers(py: Python, expected: Value, actual: Value)
    requires !expected.List?
    ensures expected.Str? ==>
              var letters := List(seq(|expected.s|, i requires 0 <= i < |expected.s| => Str([expected.s[i]])));
              && Check(py, ContainsAny, expected, actual) == Check(py, ContainsAny, letters, actual)
              && Check(py, ContainsAll, expected, actual) == Check(py, ContainsAll, letters, actual)
    ensures !expected.Str? ==>
              Check(py, ContainsAny, expected, actual) == Check(py, ContainsAll, expected, actual) == Raises
    ensures Check(py, HasAny, expected, actual) == Check(py, NotContainsAny, expected, actual) == No
  {
  }

  /** `match_any`: some pattern, its stars replaced by runs without a line feed, is the text, up to a
      final line feed; a pattern without stars is the text exactly. A missing value reads as no text. */
  lemma PatternsMean(py: Python, patterns: seq<Value>, actual: Value)
    ensures Check(py, MatchAny, List(patterns), actual) == Yes
            <==> exists i :: 0 <= i < |patterns|
                             && PatternFits(Show(py, patterns[i]), if actual.Null? then "" else Show(py, actual))
    ensures forall expected: Value :: !expected.List? ==> Check(py, MatchAny, expected, actual) == No
  {
    var text := if actual.Null? then "" else Show(py, actual);
    forall i | 0 <= i < |patterns|
      ensures GlobOrEqual(py, patterns[i], actual) <==> PatternFits(Show(py, patterns[i]), text)
    {
      Text.GlobExact(Show(py, patterns[i]), text);
    }
  }

  ghost predicate PatternFits(pattern: string, text: string) {
    if '*' in pattern then exists runs :: Text.Expands(pattern, runs, text) else text == pattern
  }

  /** The regular-expression tests: what the search answers, or, for a pattern that does not compile,
      whether its lower-cased text occurs. Nothing is found in a missing value. */
  lemma SearchesMean(py: Python, pattern: Value, patterns: seq<Value>, actual: Value)
    ensures Check(py, Match, pattern, actual) == Check(py, PatternMatch, pattern, actual)
    ensures Check(py, Match, pattern, actual) == Yes <==> actual != Null && PatternFound(py, pattern, actual)
    ensures Check(py, PatternMatchAny, List(patterns), actual) == Yes
            <==> actual != Null && exists i :: 0 <= i < |patterns| && PatternFound(py, patterns[i], actual)
    ensures !pattern.List? ==> Check(py, PatternMatchAny, pattern, actual) == No
  {
    forall v: Value ensures Searches(py, v, actual) <==> PatternFound(py, v, actual) {
      SubstringMeans(Text.Lower(py.caseTable, Show(py, actual)), Text.Lower(py.caseTable, Show(py, v)));
    }
  }

  ghost predicate PatternFound(py: Python, pattern: Value, actual: Value) {
    var pat, text := Show(py, pattern), Show(py, actual);
    || py.search(pat, text) == Some(true)
    || (py.search(pat, text) == None
        && exists before, after ::
             Text.Lower(py.caseTable, text) == before + Text.Lower(py.caseTable, pat) + after)
  }

  // ----- short circuits -----

  /** A clause takes the verdict of its first item that is not true. */
  lemma FirstItemDecides(py: Python, entries: seq<Entry>, event: Event, i: nat)
    requires i <= |entries| && forall j :: 0 <= j < i ==> EvalEntry(py, entries[j], event) == Yes
    requires i < |entries| ==> EvalEntry(py, entries[i], event) != Yes
    ensures Matches(py, Clause(entries), event) == if i == |entries| then Yes else EvalEntry(py, entries[i], event)
  {
    EntriesDecide(py, entries, event, i);
  }

  lemma {:induction false} EntriesDecide(py: Python, entries: seq<Entry>, event: Event, i: nat)
    requires i <= |entries| && forall j :: 0 <= j < i ==> EvalEntry(py, entries[j], event) == Yes
    requires i < |entries| ==> EvalEntry(py, entries[i], event) != Yes
    ensures EvalEntries(py, entries, event) == if i == |entries| then Yes else EvalEntry(py, entries[i], event)
  {
    if i > 0 {
      assert forall j :: 0 <= j < |entries| - 1 ==> entries[1..][j] == entries[j + 1];
      EntriesDecide(py, entries[1..], event, i - 1);
    }
  }

  /** `any_of` takes the verdict of its first sub-clause that is not false. */
  lemma {:induction false} AnyOfDecides(py: Python, subs: seq<Clause>, event: Event, i: nat)
    requires i <= |subs| && forall j :: 0 <= j < i ==> Matches(py, subs[j], event) == No
    requires i < |subs| ==> Matches(py, subs[i], event) != No
    ensures EvalEntry(py, AnyOf(subs), event) == if i == |subs| then No else Matches(py, subs[i], event)
  {
    if i > 0 {
      assert forall j :: 0 <= j < i - 1 ==> subs[1..][j] == subs[j + 1];
      AnyOfDecides(py, subs[1..], event, i - 1);
    }
  }

  /** `all_of` takes the verdict of its first sub-clause that is not true. */
  lemma {:induction false} AllOfDecides(py: Python, subs: seq<Clause>, event: Event, i: nat)
    requires i <= |subs| && forall j :: 0 <= j < i ==> Matches(py, subs[j], event) == Yes
    requires i < |subs| ==> Matches(py, subs[i], event) != Yes
    ensures EvalEntry(py, AllOf(subs), event) == if i == |subs| then Yes else Matches(py, subs[i], event)
  {
    if i > 0 {
      assert forall j :: 0 <= j < i - 1 ==> subs[1..][j] == subs[j + 1];
      AllOfDecides(py, subs[1..], event, i - 1);
    }
  }

  /** Group keys whose value is no list of clauses. */
  lemma StrayGroupsMean(py: Python, expected: Value, event: Event)
    ensures !expected.List? ==>
              EvalEntry(py, Test("any_of", expected), event) == EvalEntry(py, Test("all_of", expected), event) == No
    ensures EvalEntry(py, Test("any_of", List([])), event) == No
    ensures EvalEntry(py, Test("all_of", List([])), event) == Yes
    ensures expected.List? && expected.items != [] ==>
              EvalEntry(py, Test("any_of", expected), event) == EvalEntry(py, Test("all_of", expected), event) == Raises
  {
  }
}
