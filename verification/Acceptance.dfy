/**
 What a constraint demands of a synthesised value, told from the pieces the value is
 made of instead of from the finished value.
 */
module Acceptance {
  import opened Wrappers
  import opened Values
  import opened Operators
  import opened RuleEngine
  import opened FixtureParts
  import opened Intervals
  import opened Seams
  import Text

  /** How a synthesised value is made: glued from texts, chosen as a number, wrapped
      as the one element of a list, or taken from an operand as it is. */
  datatype Shape =
    | Parts(parts: seq<string>)
    | Number(n: real)
    | Single(element: Value)
    | Literal(v: Value)

  function ValueOf(shape: Shape): Value {
    match shape
    case Parts(parts) => Str(Glued(parts))
    case Number(n) => Num(n)
    case Single(element) => List([element])
    case Literal(v) => v
  }

  // ----- glued text -----

  /** The needle occurs, lower-cased, in a part or across seams. */
  predicate NeedleAcross(py: Python, needle: Value, parts: seq<string>) {
    OccursAcross(LowerAll(py.caseTable, parts), LowerShow(py, needle))
  }

  predicate GlobOrSpelled(py: Python, pattern: Value, parts: seq<string>) {
    var pat := Show(py, pattern);
    if '*' in pat then GlobAcross(parts, pat) else Spells(parts, pat)
  }

  predicate SpellsValue(parts: seq<string>, v: Value) {
    v.Str? && Spells(parts, v.s)
  }

  /** What each operator asks of glued text. Numeric bounds and `has_any` never accept text. */
  predicate AcceptsParts(py: Python, c: Constraint, parts: seq<string>) {
    match c.op
    case StartsWith => StartsAcross(parts, Show(py, c.expected))
    case EndsWith => EndsAcross(parts, Show(py, c.expected))
    case Contains => OccursAcross(parts, Show(py, c.expected))
    case NotStartsWith => !StartsAcross(parts, Show(py, c.expected))
    case Match | PatternMatch => Searches(py, c.expected, Str(Glued(parts)))
    case Eq => SpellsValue(parts, c.expected)
    case ContainsAny =>
      (match Iterate(c.expected)
       case None => false
       case Some(needles) => exists i :: 0 <= i < |needles| && NeedleAcross(py, needles[i], parts))
    case ContainsAll =>
      (match Iterate(c.expected)
       case None => false
       case Some(needles) => forall i :: 0 <= i < |needles| ==> NeedleAcross(py, needles[i], parts))
    case _ => c.expected.List? && AcceptsPartsListed(py, c.op, c.expected.items, parts)
  }

  /** The operators whose operand must be a list. */
  predicate AcceptsPartsListed(py: Python, op: Op, items: seq<Value>, parts: seq<string>) {
    match op
    case In => exists i :: 0 <= i < |items| && SpellsValue(parts, items[i])
    case NotIn => forall i :: 0 <= i < |items| ==> !SpellsValue(parts, items[i])
    case StartsWithAny => exists i :: 0 <= i < |items| && StartsAcross(parts, Show(py, items[i]))
    case EndsWithAny => exists i :: 0 <= i < |items| && EndsAcross(parts, Show(py, items[i]))
    case NotEndsWithAny => forall i :: 0 <= i < |items| ==> !EndsAcross(parts, Show(py, items[i]))
    case NotContainsAny => forall i :: 0 <= i < |items| ==> !NeedleAcross(py, items[i], parts)
    case MatchAny => exists i :: 0 <= i < |items| && GlobOrSpelled(py, items[i], parts)
    case PatternMatchAny => exists i :: 0 <= i < |items| && Searches(py, items[i], Str(Glued(parts)))
    case _ => false
  }

  lemma NeedleAcrossExact(py: Python, needle: Value, parts: seq<string>)
    ensures HasNeedle(py, needle, Str(Glued(parts))) <==> NeedleAcross(py, needle, parts)
  {
    LowerGlued(py.caseTable, parts);
    OccursAcrossExact(LowerAll(py.caseTable, parts), LowerShow(py, needle));
  }

  lemma GlobOrSpelledExact(py: Python, pattern: Value, parts: seq<string>)
    ensures GlobOrEqual(py, pattern, Str(Glued(parts))) <==> GlobOrSpelled(py, pattern, parts)
  {
    GlobAcrossExact(parts, Show(py, pattern));
    SpellsExact(parts, Show(py, pattern));
  }

  lemma SpellsValueExact(parts: seq<string>, v: Value)
    ensures PyEq(Str(Glued(parts)), v) <==> SpellsValue(parts, v)
  {
    if v.Str? {
      SpellsExact(parts, v.s);
    }
  }

  lemma NeedlesAcrossExact(py: Python, parts: seq<string>)
    ensures forall needle :: HasNeedle(py, needle, Str(Glued(parts))) <==> NeedleAcross(py, needle, parts)
  {
    forall needle ensures HasNeedle(py, needle, Str(Glued(parts))) <==> NeedleAcross(py, needle, parts) {
      NeedleAcrossExact(py, needle, parts);
    }
  }

  lemma AcceptsPartsExact(py: Python, c: Constraint, parts: seq<string>)
    ensures Check(py, c.op, c.expected, Str(Glued(parts))) == Yes <==> AcceptsParts(py, c, parts)
  {
    match c.op
    case StartsWith | NotStartsWith => StartsAcrossExact(parts, Show(py, c.expected));
    case EndsWith => EndsAcrossExact(parts, Show(py, c.expected));
    case Contains => OccursAcrossExact(parts, Show(py, c.expected));
    case Match | PatternMatch =>
    case Eq => SpellsValueExact(parts, c.expected);
    case ContainsAny | ContainsAll => NeedlesAcrossExact(py, parts);
    case _ =>
      if c.expected.List? {
        AcceptsListedExact(py, c.op, c.expected.items, parts);
      }
  }

  lemma AcceptsListedExact(py: Python, op: Op, items: seq<Value>, parts: seq<string>)
    requires op !in {StartsWith, EndsWith, Contains, NotStartsWith, Match, PatternMatch, Eq, ContainsAny, ContainsAll}
    ensures Check(py, op, List(items), Str(Glued(parts))) == Yes <==> AcceptsPartsListed(py, op, items, parts)
  {
    forall v: Value
      ensures PyEq(Str(Glued(parts)), v) <==> SpellsValue(parts, v)
      ensures GlobOrEqual(py, v, Str(Glued(parts))) <==> GlobOrSpelled(py, v, parts)
      ensures Text.StartsWith(Glued(parts), Show(py, v)) <==> StartsAcross(parts, Show(py, v))
      ensures Text.EndsWith(Glued(parts), Show(py, v)) <==> EndsAcross(parts, Show(py, v))
    {
      SpellsValueExact(parts, v);
      GlobOrSpelledExact(py, v, parts);
      StartsAcrossExact(parts, Show(py, v));
      EndsAcrossExact(parts, Show(py, v));
    }
    NeedlesAcrossExact(py, parts);
  }

  // ----- a chosen number -----

  /** What each operator asks of a number. String tests and `has_any` never accept one;
      `contains_any` and its kin look into its decimal text. */
  predicate AcceptsNumber(py: Python, c: Constraint, n: real) {
    match c.op
    case Gt | Gte | Lt | Lte => IsNumericBound(c) && Meets(n, c)
    case Eq => NumberOf(c.expected) == Some(n)
    case In => c.expected.List? && exists i :: 0 <= i < |c.expected.items| && NumberOf(c.expected.items[i]) == Some(n)
    case NotIn =>
      c.expected.List? && forall i :: 0 <= i < |c.expected.items| ==> NumberOf(c.expected.items[i]) != Some(n)
    case ContainsAny =>
      (match Iterate(c.expected)
       case None => false
       case Some(needles) => exists i :: 0 <= i < |needles| && NeedleInDigits(py, needles[i], n))
    case ContainsAll =>
      (match Iterate(c.expected)
       case None => false
       case Some(needles) => forall i :: 0 <= i < |needles| ==> NeedleInDigits(py, needles[i], n))
    case NotContainsAny =>
      c.expected.List? && forall i :: 0 <= i < |c.expected.items| ==> !NeedleInDigits(py, c.expected.items[i], n)
    case MatchAny =>
      c.expected.List? && exists i :: 0 <= i < |c.expected.items| && GlobOrEqual(py, c.expected.items[i], Num(n))
    case Match | PatternMatch => Searches(py, c.expected, Num(n))
    case PatternMatchAny =>
      c.expected.List? && exists i :: 0 <= i < |c.expected.items| && Searches(py, c.expected.items[i], Num(n))
    case StartsWith | StartsWithAny | NotStartsWith | EndsWith | EndsWithAny | NotEndsWithAny => false
    case Contains | HasAny => false
  }

  predicate NeedleInDigits(py: Python, needle: Value, n: real) {
    Text.Contains(Text.Lower(py.caseTable, py.show(Num(n))), LowerShow(py, needle))
  }

  lemma AcceptsNumberExact(py: Python, c: Constraint, n: real)
    ensures Check(py, c.op, c.expected, Num(n)) == Yes <==> AcceptsNumber(py, c, n)
  {
    forall v: Value ensures PyEq(Num(n), v) <==> NumberOf(v) == Some(n) {}
    forall needle ensures HasNeedle(py, needle, Num(n)) <==> NeedleInDigits(py, needle, n) {}
  }

  // ----- a list of one element -----

  /** What each operator asks of a list with one element: bounds and string tests never
      accept a list, and needles must equal its element. */
  predicate AcceptsSingle(py: Python, c: Constraint, element: Value) {
    match c.op
    case Eq => IsSingle(c.expected, element)
    case In => c.expected.List? && exists i :: 0 <= i < |c.expected.items| && IsSingle(c.expected.items[i], element)
    case NotIn =>
      c.expected.List? && forall i :: 0 <= i < |c.expected.items| ==> !IsSingle(c.expected.items[i], element)
    case Contains => PyEq(c.expected, element)
    case HasAny =>
      c.expected.List? && exists i :: 0 <= i < |c.expected.items| && SameLower(py, c.expected.items[i], element)
    case NotContainsAny =>
      c.expected.List? && forall i :: 0 <= i < |c.expected.items| ==> !SameLower(py, c.expected.items[i], element)
    case ContainsAny =>
      (match Iterate(c.expected)
       case None => false
       case Some(needles) => exists i :: 0 <= i < |needles| && SameLower(py, needles[i], element))
    case ContainsAll =>
      (match Iterate(c.expected)
       case None => false
       case Some(needles) => forall i :: 0 <= i < |needles| ==> SameLower(py, needles[i], element))
    case MatchAny =>
      && c.expected.List?
      && exists i :: 0 <= i < |c.expected.items| && GlobOrEqual(py, c.expected.items[i], List([element]))
    case Match | PatternMatch => Searches(py, c.expected, List([element]))
    case PatternMatchAny =>
      c.expected.List? && exists i :: 0 <= i < |c.expected.items| && Searches(py, c.expected.items[i], List([element]))
    case Gt | Gte | Lt | Lte => false
    case StartsWith | StartsWithAny | NotStartsWith | EndsWith | EndsWithAny | NotEndsWithAny => false
  }

  predicate SameLower(py: Python, a: Value, b: Value) {
    LowerShow(py, a) == LowerShow(py, b)
  }

  predicate IsSingle(v: Value, element: Value) {
    v.List? && |v.items| == 1 && PyEq(element, v.items[0])
  }

  lemma IsSingleExact(v: Value, element: Value)
    ensures PyEq(List([element]), v) <==> IsSingle(v, element)
  {
    if v.List? {
      var left, right := Numeric(List([element])).items, Numeric(v).items;
      assert |left| == 1 && left[0] == Numeric(element);
      if IsSingle(v, element) {
        assert left == right;
      }
    }
  }

  lemma AcceptsSingleExact(py: Python, c: Constraint, element: Value)
    ensures Check(py, c.op, c.expected, List([element])) == Yes <==> AcceptsSingle(py, c, element)
  {
    forall v: Value ensures PyEq(List([element]), v) <==> IsSingle(v, element) {
      IsSingleExact(v, element);
    }
    forall needle ensures HasNeedle(py, needle, List([element])) <==> SameLower(py, needle, element) {
      SingletonNeedle(py, needle, element);
    }
    assert PyIn(c.expected, [element]) <==> PyEq(c.expected, element) by {
      assert [element][0] == element;
    }
  }

  // ----- any shape -----

  /** The constraint accepts every value of this make. */
  predicate Accepts(py: Python, c: Constraint, shape: Shape) {
    match shape
    case Parts(parts) => AcceptsParts(py, c, parts)
    case Number(n) => AcceptsNumber(py, c, n)
    case Single(element) => AcceptsSingle(py, c, element)
    case Literal(v) => Check(py, c.op, c.expected, v) == Yes
  }

  /** The evaluator's test of a synthesised value, decided on what the value was made of. */
  lemma AcceptsExact(py: Python, c: Constraint, shape: Shape)
    ensures Check(py, c.op, c.expected, ValueOf(shape)) == Yes <==> Accepts(py, c, shape)
  {
    match shape
    case Parts(parts) => AcceptsPartsExact(py, c, parts);
    case Number(n) => AcceptsNumberExact(py, c, n);
    case Single(element) => AcceptsSingleExact(py, c, element);
    case Literal(_) =>
  }

  // ----- how failing samples are made -----

  /** The make of `NegFor(py, op, expected)`. */
  function FlipShape(py: Python, op: Op, expected: Value): Shape {
    match op
    case Eq =>
      (match expected
       case Null => Parts([SENTINEL])
       case Bool(b) => Literal(Bool(!b))
       case Num(n) => Number(n + 1.0)
       case _ => Parts(["not-", Show(py, expected)]))
    case NotIn => if NonEmptyList(expected) then Literal(expected.items[0]) else Parts([SENTINEL])
    case StartsWith => Parts(["x-", Show(py, expected)])
    case EndsWith => Parts([Show(py, expected), "-x"])
    case NotEndsWithAny =>
      Parts(if NonEmptyList(expected) then ["head", Show(py, expected.items[0])] else [SENTINEL])
    case NotContainsAny =>
      Parts(if NonEmptyList(expected) then ["prefix-", Show(py, expected.items[0]), "-suffix"] else [SENTINEL])
    case NotStartsWith => Parts([Show(py, expected), "-tail"])
    case HasAny => Single(Str(SENTINEL))
    case Gt | Gte => Number(match NumberOf(expected) case Some(n) => n - 100.0 case None => -100.0)
    case Lt | Lte => Number(match NumberOf(expected) case Some(n) => n + 100.0 case None => 100.0)
    case _ => Parts([SENTINEL])
  }

  lemma GluedFew(a: string, b: string, c: string)
    ensures Glued([a]) == a
    ensures Glued([a, b]) == a + b
    ensures Glued([a, b, c]) == a + b + c
  {
    GluedSplits([a, b]);
    GluedSplits([a, b, c]);
    assert [a, b][..1] == [a] && [a, b, c][..2] == [a, b];
  }

  lemma FlipShapeMakesNegFor(py: Python, op: Op, expected: Value)
    ensures ValueOf(FlipShape(py, op, expected)) == NegFor(py, op, expected)
  {
    var first := if NonEmptyList(expected) then Show(py, expected.items[0]) else "";
    GluedFew(SENTINEL, "", "");
    match op
    case Eq => GluedFew("not-", Show(py, expected), "");
    case StartsWith => GluedFew("x-", Show(py, expected), "");
    case EndsWith => GluedFew(Show(py, expected), "-x", "");
    case NotStartsWith => GluedFew(Show(py, expected), "-tail", "");
    case NotEndsWithAny => GluedFew("head", first, "");
    case NotContainsAny => GluedFew("prefix-", first, "-suffix");
    case _ =>
  }
}
