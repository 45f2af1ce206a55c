/**
 One value for several constraints on the same field: the loops that build it,
 its specification, and which of the constraints it is sure to satisfy.
 */
module Composer {
  import opened Wrappers
  import opened Values
  import opened Operators
  import opened RuleEngine
  import opened FixtureParts
  import opened Intervals
  import opened Acceptance
  import Seams
  import Text

  // ----- specification -----

  /** The numeric bounds among the constraints. */
  function BoundsOf(cs: seq<Constraint>): seq<Constraint> {
    if cs == [] then []
    else BoundsOf(cs[..|cs| - 1]) + if IsBound(cs[|cs| - 1]) then [cs[|cs| - 1]] else []
  }

  /** `[exp for op_, exp in constraints if op_ == op]` */
  function OperandsOf(cs: seq<Constraint>, op: Op): seq<Value> {
    if cs == [] then []
    else OperandsOf(cs[..|cs| - 1], op) + if cs[|cs| - 1].op == op then [cs[|cs| - 1].expected] else []
  }

  predicate SetsPrefix(c: Constraint) {
    c.op == StartsWith || (c.op == StartsWithAny && NonEmptyList(c.expected))
  }

  predicate SetsSuffix(c: Constraint) {
    c.op == EndsWith || (c.op == EndsWithAny && NonEmptyList(c.expected))
  }

  /** The text a prefix or suffix constraint asks for. */
  function WantedEnd(py: Python, c: Constraint): string
    requires SetsPrefix(c) || SetsSuffix(c)
  {
    if c.op in {StartsWith, EndsWith} then Show(py, c.expected) else Show(py, c.expected.items[0])
  }

  /** The last constraint that asks for a prefix decides it. */
  function PrefixOf(py: Python, cs: seq<Constraint>): string {
    if cs == [] then ""
    else if SetsPrefix(cs[|cs| - 1]) then WantedEnd(py, cs[|cs| - 1])
    else PrefixOf(py, cs[..|cs| - 1])
  }

  function SuffixOf(py: Python, cs: seq<Constraint>): string {
    if cs == [] then ""
    else if SetsSuffix(cs[|cs| - 1]) then WantedEnd(py, cs[|cs| - 1])
    else SuffixOf(py, cs[..|cs| - 1])
  }

  /** The pieces one constraint puts in the middle. */
  function PiecesOf(py: Python, c: Constraint): seq<string> {
    match c.op
    case Contains => [Show(py, c.expected)]
    case ContainsAny => if NonEmptyList(c.expected) then [Show(py, c.expected.items[0])] else []
    case ContainsAll => if c.expected.List? then ShowAll(py, c.expected.items) else []
    case MatchAny => if NonEmptyList(c.expected) then [Text.StarsToX(Show(py, c.expected.items[0]))] else []
    case _ => []
  }

  function MiddleOf(py: Python, cs: seq<Constraint>): seq<string> {
    if cs == [] then [] else MiddleOf(py, cs[..|cs| - 1]) + PiecesOf(py, cs[|cs| - 1])
  }

  function ComposedText(py: Python, cs: seq<Constraint>): string {
    var prefix, suffix, middle := PrefixOf(py, cs), SuffixOf(py, cs), MiddleOf(py, cs);
    if prefix == "" && suffix == "" && middle == [] then SENTINEL
    else prefix + Text.Join("", middle) + suffix
  }

  /** The numeric branch is taken: there are bounds, all of them numbers. */
  predicate IsNumericField(cs: seq<Constraint>) {
    BoundsOf(cs) != [] && AllNumeric(BoundsOf(cs))
  }

  function Composed(py: Python, cs: seq<Constraint>): Value {
    if IsNumericField(cs) then Num(Picked(BoundsOf(cs)))
    else if OperandsOf(cs, Eq) != [] then OperandsOf(cs, Eq)[0]
    else if OperandsOf(cs, In) != [] then
      var first := OperandsOf(cs, In)[0];
      if NonEmptyList(first) then first.items[0] else first
    else if OperandsOf(cs, HasAny) != [] then
      var first := OperandsOf(cs, HasAny)[0];
      List([if NonEmptyList(first) then first.items[0] else Str(SENTINEL)])
    else Str(ComposedText(py, cs))
  }

  /** The texts that composed text is glued from. */
  function PartsOf(py: Python, cs: seq<Constraint>): seq<string> {
    var prefix, suffix, middle := PrefixOf(py, cs), SuffixOf(py, cs), MiddleOf(py, cs);
    if prefix == "" && suffix == "" && middle == [] then [SENTINEL] else [prefix] + middle + [suffix]
  }

  /** How the composed value is made. */
  function ComposedShape(py: Python, cs: seq<Constraint>): Shape {
    if IsNumericField(cs) then Number(Picked(BoundsOf(cs)))
    else if OperandsOf(cs, Eq) != [] then Literal(OperandsOf(cs, Eq)[0])
    else if OperandsOf(cs, In) != [] then
      var first := OperandsOf(cs, In)[0];
      Literal(if NonEmptyList(first) then first.items[0] else first)
    else if OperandsOf(cs, HasAny) != [] then
      var first := OperandsOf(cs, HasAny)[0];
      Single(if NonEmptyList(first) then first.items[0] else Str(SENTINEL))
    else Parts(PartsOf(py, cs))
  }

  lemma PartsGlue(py: Python, cs: seq<Constraint>)
    ensures Seams.Glued(PartsOf(py, cs)) == ComposedText(py, cs)
  {
    var prefix, suffix, middle := PrefixOf(py, cs), SuffixOf(py, cs), MiddleOf(py, cs);
    Text.JoinEmptyConcat([prefix] + middle, [suffix]);
    Text.JoinEmptyConcat([prefix], middle);
  }

  lemma ComposedShapeMakesComposed(py: Python, cs: seq<Constraint>)
    ensures ValueOf(ComposedShape(py, cs)) == Composed(py, cs)
  {
    PartsGlue(py, cs);
  }

  // ----- implementation -----

  /** `_compose_field_value` */
  method ComposeFieldValue(py: Python, cs: seq<Constraint>) returns (value: Value)
    ensures value == Composed(py, cs)
  {
    if cs == [] {
      return Str(SENTINEL);
    }
    var nums := BoundsOf(cs);
    if nums != [] && AllNumeric(nums) {
      var picked := PickNumber(nums);
      return Num(picked);
    }
    var eqs := OperandsOf(cs, Eq);
    if eqs != [] {
      return eqs[0];
    }
    var ins := OperandsOf(cs, In);
    if ins != [] {
      var first := ins[0];
      return if NonEmptyList(first) then first.items[0] else first;
    }
    var hasAnys := OperandsOf(cs, HasAny);
    if hasAnys != [] {
      var first := hasAnys[0];
      return if NonEmptyList(first) then List(first.items[..1]) else List([Str(SENTINEL)]);
    }
    var text := ComposeText(py, cs);
    return Str(text);
  }

  /** The loop that intersects the bounds, and the choice inside the intersection. */
  method PickNumber(nums: seq<Constraint>) returns (picked: real)
    requires AllNumeric(nums)
    ensures picked == Picked(nums)
  {
    var lo: Option<real>, hi: Option<real> := None, None;
    for i := 0 to |nums|
      invariant lo == LowerEnd(nums[..i]) && hi == UpperEnd(nums[..i])
    {
      assert nums[..i + 1][..i] == nums[..i];
      var bound := BoundOf(nums[i]);
      match nums[i].op
      case Gt => lo := AtLeast(lo, bound + 1.0);
      case Gte => lo := AtLeast(lo, bound);
      case Lt => hi := AtMost(hi, bound - 1.0);
      case _ => hi := AtMost(hi, bound);
    }
    assert nums[..|nums|] == nums;
    if lo == None && hi == None { return 0.0; }
    if lo == None { return hi.value - 1.0; }
    if hi == None { return lo.value + 1.0; }
    return (lo.value + hi.value) / 2.0;
  }

  /** The loop that collects prefix, suffix and middle pieces. */
  method CollectParts(py: Python, cs: seq<Constraint>)
    returns (prefix: string, suffix: string, middleParts: seq<string>)
    ensures prefix == PrefixOf(py, cs) && suffix == SuffixOf(py, cs) && middleParts == MiddleOf(py, cs)
  {
    prefix, suffix, middleParts := "", "", [];
    for i := 0 to |cs|
      invariant prefix == PrefixOf(py, cs[..i])
      invariant suffix == SuffixOf(py, cs[..i])
      invariant middleParts == MiddleOf(py, cs[..i])
    {
      assert cs[..i + 1][..i] == cs[..i];
      var exp := cs[i].expected;
      match cs[i].op
      case StartsWith => prefix := Show(py, exp);
      case StartsWithAny => if NonEmptyList(exp) { prefix := Show(py, exp.items[0]); }
      case EndsWith => suffix := Show(py, exp);
      case EndsWithAny => if NonEmptyList(exp) { suffix := Show(py, exp.items[0]); }
      case Contains => middleParts := middleParts + [Show(py, exp)];
      case ContainsAny => if NonEmptyList(exp) { middleParts := middleParts + [Show(py, exp.items[0])]; }
      case ContainsAll => if exp.List? { middleParts := middleParts + ShowAll(py, exp.items); }
      case MatchAny =>
        if NonEmptyList(exp) { middleParts := middleParts + [Text.StarsToX(Show(py, exp.items[0]))]; }
      case _ =>
    }
    assert cs[..|cs|] == cs;
  }

  /** The string composition. */
  method ComposeText(py: Python, cs: seq<Constraint>) returns (text: string)
    ensures text == ComposedText(py, cs)
  {
    var prefix, suffix, middleParts := CollectParts(py, cs);
    if prefix == "" && suffix == "" && middleParts == [] {
      return SENTINEL;
    }
    var middle := Text.Join("", middleParts);
    if middle == "" && (prefix != "" || suffix != "") {
      assert prefix + middle + suffix == prefix + suffix;
      return prefix + suffix;
    }
    return prefix + middle + suffix;
  }

  // ----- what composition guarantees -----

  /** The constraints the composed value satisfies whatever the others say. */
  predicate Guaranteed(py: Python, cs: seq<Constraint>, i: nat)
    requires i < |cs|
  {
    var c := cs[i];
    if IsNumericField(cs) then
      IsBound(c) && IntervalOk(BoundsOf(cs))
    else if OperandsOf(cs, Eq) != [] then
      c.op == Eq && c.expected == OperandsOf(cs, Eq)[0]
    else if OperandsOf(cs, In) != [] then
      c.op == In && NonEmptyList(c.expected) && c.expected == OperandsOf(cs, In)[0]
    else if OperandsOf(cs, HasAny) != [] then
      c.op == HasAny && NonEmptyList(c.expected) && c.expected == OperandsOf(cs, HasAny)[0]
    else
      AddsPieces(c) || DecidesPrefix(cs, i) || DecidesSuffix(cs, i) || SolePattern(py, cs, i)
  }

  predicate AddsPieces(c: Constraint) {
    || c.op == Contains
    || (c.op == ContainsAny && NonEmptyList(c.expected))
    || (c.op == ContainsAll && c.expected.List?)
  }

  predicate DecidesPrefix(cs: seq<Constraint>, i: nat)
    requires i < |cs|
  {
    SetsPrefix(cs[i]) && forall j :: i < j < |cs| ==> !SetsPrefix(cs[j])
  }

  predicate DecidesSuffix(cs: seq<Constraint>, i: nat)
    requires i < |cs|
  {
    SetsSuffix(cs[i]) && forall j :: i < j < |cs| ==> !SetsSuffix(cs[j])
  }

  /** A pattern list whose sample is the whole text. */
  predicate SolePattern(py: Python, cs: seq<Constraint>, i: nat)
    requires i < |cs|
  {
    && cs[i].op == MatchAny && NonEmptyList(cs[i].expected)
    && PrefixOf(py, cs) == "" && SuffixOf(py, cs) == ""
    && MiddleOf(py, cs) == PiecesOf(py, cs[i])
  }

  lemma {:induction false} BoundsOfContents(cs: seq<Constraint>)
    ensures forall c :: c in BoundsOf(cs) <==> c in cs && IsBound(c)
  {
    if cs != [] {
      BoundsOfContents(cs[..|cs| - 1]);
      assert cs == cs[..|cs| - 1] + [cs[|cs| - 1]];
    }
  }

  lemma {:induction false} OperandsOfContents(cs: seq<Constraint>, op: Op)
    ensures forall v :: v in OperandsOf(cs, op) <==> Constraint(op, v) in cs
  {
    if cs != [] {
      OperandsOfContents(cs[..|cs| - 1], op);
      assert cs == cs[..|cs| - 1] + [cs[|cs| - 1]];
    }
  }

  lemma {:induction false} LastPrefixDecides(py: Python, cs: seq<Constraint>, i: nat)
    requires i < |cs| && DecidesPrefix(cs, i)
    ensures PrefixOf(py, cs) == WantedEnd(py, cs[i])
  {
    if i < |cs| - 1 {
      LastPrefixDecides(py, cs[..|cs| - 1], i);
    }
  }

  lemma {:induction false} LastSuffixDecides(py: Python, cs: seq<Constraint>, i: nat)
    requires i < |cs| && DecidesSuffix(cs, i)
    ensures SuffixOf(py, cs) == WantedEnd(py, cs[i])
  {
    if i < |cs| - 1 {
      LastSuffixDecides(py, cs[..|cs| - 1], i);
    }
  }

  /** Every piece of every constraint is in the middle. */
  lemma {:induction false} PiecesInMiddle(py: Python, cs: seq<Constraint>, i: nat, k: nat)
    requires i < |cs| && k < |PiecesOf(py, cs[i])|
    ensures PiecesOf(py, cs[i])[k] in MiddleOf(py, cs)
  {
    if i < |cs| - 1 {
      PiecesInMiddle(py, cs[..|cs| - 1], i, k);
    }
  }

  lemma ComposedContains(py: Python, cs: seq<Constraint>, piece: string)
    requires piece in MiddleOf(py, cs)
    ensures Text.Contains(ComposedText(py, cs), piece)
  {
    var middle := MiddleOf(py, cs);
    var k :| 0 <= k < |middle| && middle[k] == piece;
    Text.JoinContainsPart("", middle, k);
    Text.ContainsExtends(PrefixOf(py, cs), Text.Join("", middle), SuffixOf(py, cs), piece);
  }

  lemma ComposedEnds(py: Python, cs: seq<Constraint>)
    requires PrefixOf(py, cs) != "" || SuffixOf(py, cs) != ""
    ensures Text.StartsWith(ComposedText(py, cs), PrefixOf(py, cs))
    ensures Text.EndsWith(ComposedText(py, cs), SuffixOf(py, cs))
  {
    EndsOfThree(PrefixOf(py, cs), Text.Join("", MiddleOf(py, cs)), SuffixOf(py, cs));
  }

  lemma EndsOfThree(a: string, b: string, c: string)
    ensures Text.StartsWith(a + b + c, a) && Text.EndsWith(a + b + c, c)
  {
    assert a + b + c == a + (b + c);
    Text.ConcatStartsWith(a, b + c);
    Text.ConcatEndsWith(a + b, c);
  }

  /** The composed value satisfies every guaranteed constraint. */
  lemma ComposedSatisfies(py: Python, cs: seq<Constraint>, i: nat)
    requires i < |cs| && Guaranteed(py, cs, i)
    ensures Check(py, cs[i].op, cs[i].expected, Composed(py, cs)) == Yes
  {
    var c := cs[i];
    if IsNumericField(cs) {
      BoundsOfContents(cs);
      PickedExact(BoundsOf(cs));
      var k :| 0 <= k < |BoundsOf(cs)| && BoundsOf(cs)[k] == c;
      assert Meets(Picked(BoundsOf(cs)), BoundsOf(cs)[k]);
    } else if OperandsOf(cs, Eq) != [] {
    } else if OperandsOf(cs, In) != [] {
      assert PyEq(Composed(py, cs), c.expected.items[0]);
    } else if OperandsOf(cs, HasAny) != [] {
      assert Composed(py, cs).items[0] == c.expected.items[0];
      assert HasNeedle(py, c.expected.items[0], Composed(py, cs));
    } else if DecidesPrefix(cs, i) {
      PrefixSatisfied(py, cs, i);
    } else if DecidesSuffix(cs, i) {
      SuffixSatisfied(py, cs, i);
    } else if SolePattern(py, cs, i) {
      PatternSatisfied(py, cs, i);
    } else {
      PiecesSatisfied(py, cs, i);
    }
  }

  lemma PatternSatisfied(py: Python, cs: seq<Constraint>, i: nat)
    requires i < |cs| && SolePattern(py, cs, i)
    ensures Check(py, cs[i].op, cs[i].expected, Str(ComposedText(py, cs))) == Yes
  {
    var first := cs[i].expected.items[0];
    assert ComposedText(py, cs) == Text.StarsToX(Show(py, first));
    GlobSampleAccepted(py, first);
  }

  lemma PiecesSatisfied(py: Python, cs: seq<Constraint>, i: nat)
    requires i < |cs| && AddsPieces(cs[i])
    ensures Check(py, cs[i].op, cs[i].expected, Str(ComposedText(py, cs))) == Yes
  {
    var c, text := cs[i], ComposedText(py, cs);
    forall piece | piece in PiecesOf(py, c) ensures Text.Contains(text, piece) {
      var k :| 0 <= k < |PiecesOf(py, c)| && PiecesOf(py, c)[k] == piece;
      PiecesInMiddle(py, cs, i, k);
      ComposedContains(py, cs, piece);
    }
    match c.op
    case Contains => assert Show(py, c.expected) in PiecesOf(py, c);
    case ContainsAny => FirstPieceSuffices(py, c, text);
    case ContainsAll => AllPiecesSuffice(py, c, text);
  }

  lemma FirstPieceSuffices(py: Python, c: Constraint, text: string)
    requires c.op == ContainsAny && NonEmptyList(c.expected)
    requires forall piece <- PiecesOf(py, c) :: Text.Contains(text, piece)
    ensures Check(py, ContainsAny, c.expected, Str(text)) == Yes
  {
    var first := c.expected.items[0];
    assert Show(py, first) in PiecesOf(py, c);
    ContainedNeedleFound(py, first, text);
    assert AnyNeedle(py, c.expected.items, Str(text));
  }

  lemma AllPiecesSuffice(py: Python, c: Constraint, text: string)
    requires c.op == ContainsAll && c.expected.List?
    requires forall piece <- PiecesOf(py, c) :: Text.Contains(text, piece)
    ensures Check(py, ContainsAll, c.expected, Str(text)) == Yes
  {
    var items := c.expected.items;
    forall k | 0 <= k < |items| ensures HasNeedle(py, items[k], Str(text)) {
      assert ShowAll(py, items)[k] in PiecesOf(py, c);
      ContainedNeedleFound(py, items[k], text);
    }
    assert AllNeedles(py, items, Str(text));
  }

  lemma PrefixReached(py: Python, cs: seq<Constraint>, i: nat)
    requires i < |cs| && DecidesPrefix(cs, i)
    ensures Text.StartsWith(ComposedText(py, cs), WantedEnd(py, cs[i]))
  {
    LastPrefixDecides(py, cs, i);
    if PrefixOf(py, cs) != "" {
      ComposedEnds(py, cs);
    }
  }

  lemma SuffixReached(py: Python, cs: seq<Constraint>, i: nat)
    requires i < |cs| && DecidesSuffix(cs, i)
    ensures Text.EndsWith(ComposedText(py, cs), WantedEnd(py, cs[i]))
  {
    LastSuffixDecides(py, cs, i);
    if SuffixOf(py, cs) != "" {
      ComposedEnds(py, cs);
    }
  }

  lemma FirstPrefixSuffices(py: Python, items: seq<Value>, text: string)
    requires items != [] && Text.StartsWith(text, Show(py, items[0]))
    ensures Check(py, StartsWithAny, List(items), Str(text)) == Yes
  {
    assert AnyPrefix(py, items, text);
  }

  lemma FirstSuffixSuffices(py: Python, items: seq<Value>, text: string)
    requires items != [] && Text.EndsWith(text, Show(py, items[0]))
    ensures Check(py, EndsWithAny, List(items), Str(text)) == Yes
  {
    assert AnySuffix(py, items, text);
  }

  lemma PrefixSatisfied(py: Python, cs: seq<Constraint>, i: nat)
    requires i < |cs| && DecidesPrefix(cs, i)
    ensures Check(py, cs[i].op, cs[i].expected, Str(ComposedText(py, cs))) == Yes
  {
    PrefixReached(py, cs, i);
    if cs[i].op == StartsWithAny {
      FirstPrefixSuffices(py, cs[i].expected.items, ComposedText(py, cs));
    }
  }

  lemma SuffixSatisfied(py: Python, cs: seq<Constraint>, i: nat)
    requires i < |cs| && DecidesSuffix(cs, i)
    ensures Check(py, cs[i].op, cs[i].expected, Str(ComposedText(py, cs))) == Yes
  {
    SuffixReached(py, cs, i);
    if cs[i].op == EndsWithAny {
      FirstSuffixSuffices(py, cs[i].expected.items, ComposedText(py, cs));
    }
  }

  // ----- fields whose constraints are all satisfied -----

  /** Constraints the composer never looks at when it builds text. */
  predicate IsDeny(c: Constraint) {
    c.op in {NotIn, NotStartsWith, NotEndsWithAny, NotContainsAny}
  }

  /** Text constraints, with lists where lists are due. */
  predicate IsTextual(c: Constraint) {
    || IsDeny(c)
    || c.op in {StartsWith, EndsWith, Contains}
    || (c.op in {StartsWithAny, EndsWithAny, ContainsAny, MatchAny} && NonEmptyList(c.expected))
    || (c.op == ContainsAll && c.expected.List?)
  }

  /** The constraint lists the composer is made for: numeric bounds it can meet, or text
      constraints with at most one prefix and one suffix, whose deny-lists are not hit in or
      across the parts of the text, and whose patterns stand alone or accept those parts. */
  predicate Composable(py: Python, cs: seq<Constraint>) {
    || (&& cs != [] && AllNumeric(cs) && IntervalOk(cs))
    || (&& (forall i :: 0 <= i < |cs| ==> IsTextual(cs[i]))
        && (forall i, j :: 0 <= i < j < |cs| ==> !(SetsPrefix(cs[i]) && SetsPrefix(cs[j])))
        && (forall i, j :: 0 <= i < j < |cs| ==> !(SetsSuffix(cs[i]) && SetsSuffix(cs[j])))
        && (forall i :: 0 <= i < |cs| && (IsDeny(cs[i]) || cs[i].op == MatchAny) ==>
              SolePattern(py, cs, i) || AcceptsParts(py, cs[i], PartsOf(py, cs))))
  }

  lemma {:induction false} AllBounds(cs: seq<Constraint>)
    requires forall i :: 0 <= i < |cs| ==> IsBound(cs[i])
    ensures BoundsOf(cs) == cs
  {
    if cs != [] {
      AllBounds(cs[..|cs| - 1]);
    }
  }

  /** Not one of the operators that decide a field before text is built. */
  predicate LeavesText(c: Constraint) {
    !IsBound(c) && c.op !in {Eq, In, HasAny}
  }

  lemma {:induction false} NothingButText(cs: seq<Constraint>)
    requires forall i :: 0 <= i < |cs| ==> LeavesText(cs[i])
    ensures BoundsOf(cs) == []
    ensures OperandsOf(cs, Eq) == [] && OperandsOf(cs, In) == [] && OperandsOf(cs, HasAny) == []
  {
    if cs != [] {
      NothingButText(cs[..|cs| - 1]);
      assert LeavesText(cs[|cs| - 1]);
    }
  }

  /** On composable constraints one value satisfies them all. */
  lemma ComposableSatisfied(py: Python, cs: seq<Constraint>)
    requires Composable(py, cs)
    ensures forall i :: 0 <= i < |cs| ==> Check(py, cs[i].op, cs[i].expected, Composed(py, cs)) == Yes
  {
    forall i | 0 <= i < |cs| ensures Check(py, cs[i].op, cs[i].expected, Composed(py, cs)) == Yes {
      if cs != [] && AllNumeric(cs) && IntervalOk(cs) {
        AllBounds(cs);
        ComposedSatisfies(py, cs, i);
      } else {
        forall j | 0 <= j < |cs| ensures LeavesText(cs[j]) { TextLeavesText(cs[j]); }
        NothingButText(cs);
        if IsDeny(cs[i]) || (cs[i].op == MatchAny && !SolePattern(py, cs, i)) {
          AcceptsExact(py, cs[i], Parts(PartsOf(py, cs)));
          PartsGlue(py, cs);
        } else {
          TextualGuaranteed(py, cs, i);
          ComposedSatisfies(py, cs, i);
        }
      }
    }
  }

  lemma TextLeavesText(c: Constraint)
    requires IsTextual(c)
    ensures LeavesText(c)
  {
  }

  lemma TextualGuaranteed(py: Python, cs: seq<Constraint>, i: nat)
    requires i < |cs| && IsTextual(cs[i]) && !IsDeny(cs[i]) && (cs[i].op == MatchAny ==> SolePattern(py, cs, i))
    requires forall j :: i < j < |cs| ==> !(SetsPrefix(cs[i]) && SetsPrefix(cs[j]))
    requires forall j :: i < j < |cs| ==> !(SetsSuffix(cs[i]) && SetsSuffix(cs[j]))
    ensures AddsPieces(cs[i]) || DecidesPrefix(cs, i) || DecidesSuffix(cs, i) || SolePattern(py, cs, i)
  {
  }
}
