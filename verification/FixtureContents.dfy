/**
 What generated fixtures hold, field by field and spelled out: the samples, the composed
 values, the flipped field, the extras, and the errors.
 */
module FixtureContents {
  import opened Wrappers
  import opened Values
  import opened Operators
  import opened RuleEngine
  import opened RuleLaws
  import opened OperatorSemantics
  import opened FixtureParts
  import opened Intervals
  import opened Composer
  import opened Fixtures
  import Text

  // ----- samples -----

  /** Samples for one operand, by its text. */
  lemma SamplesOfText(py: Python, v: Value)
    ensures PosFor(py, Eq, v) == v
    ensures PosFor(py, Contains, v) == Str("prefix-" + Show(py, v) + "-suffix")
    ensures PosFor(py, StartsWith, v) == Str(Show(py, v) + "-tail")
    ensures PosFor(py, EndsWith, v) == Str("head-" + Show(py, v))
    ensures NegFor(py, StartsWith, v) == Str("x-" + Show(py, v))
    ensures NegFor(py, EndsWith, v) == Str(Show(py, v) + "-x")
    ensures NegFor(py, NotStartsWith, v) == Str(Show(py, v) + "-tail")
    ensures NegFor(py, Eq, v) == match v
                                 case Null => Str("__benign__")
                                 case Bool(b) => Bool(!b)
                                 case Num(n) => Num(n + 1.0)
                                 case _ => Str("not-" + Show(py, v))
  {
  }

  /** Samples for lists use their first element. */
  lemma SamplesOfLists(py: Python, first: Value, rest: seq<Value>)
    ensures var list := List([first] + rest);
            && PosFor(py, In, list) == first
            && PosFor(py, HasAny, list) == List([first])
            && PosFor(py, MatchAny, list) == Str(Text.StarsToX(Show(py, first)))
            && PosFor(py, ContainsAny, list) == Str("prefix-" + Show(py, first) + "-suffix")
            && PosFor(py, StartsWithAny, list) == Str(Show(py, first) + "-tail")
            && PosFor(py, EndsWithAny, list) == Str("head-" + Show(py, first))
            && NegFor(py, NotIn, list) == first
            && NegFor(py, NotEndsWithAny, list) == Str("head" + Show(py, first))
            && NegFor(py, NotContainsAny, list) == Str("prefix-" + Show(py, first) + "-suffix")
  {
  }

  /** All needles, joined by spaces. */
  lemma SampleOfAll(py: Python, items: seq<Value>)
    requires items != []
    ensures PosFor(py, ContainsAll, List(items))
            == Str(Text.Join(" ", seq(|items|, i requires 0 <= i < |items| => Show(py, items[i]))))
  {
    assert ShowAll(py, items) == seq(|items|, i requires 0 <= i < |items| => Show(py, items[i]));
  }

  /** A hundred beyond the bound, on either side; operands that are no numbers count as 0. */
  lemma SamplesOfNumbers(py: Python, expected: Value, n: real)
    requires Counts(expected, n) || (n == 0.0 && forall bound :: !Counts(expected, bound))
    ensures PosFor(py, Gt, expected) == PosFor(py, Gte, expected) == Num(n + 100.0)
    ensures PosFor(py, Lt, expected) == PosFor(py, Lte, expected) == Num(n - 100.0)
    ensures NegFor(py, Gt, expected) == NegFor(py, Gte, expected) == Num(n - 100.0)
    ensures NegFor(py, Lt, expected) == NegFor(py, Lte, expected) == Num(n + 100.0)
  {
    NumberMeans(expected, n);
    if NumberOf(expected).Some? {
      NumberMeans(expected, NumberOf(expected).value);
    }
  }

  /** Everything else gets the sentinel. */
  lemma SentinelSamples(py: Python, op: Op, expected: Value)
    ensures op in {NotIn, NotEndsWithAny, NotContainsAny, NotStartsWith, Match, PatternMatch, PatternMatchAny}
            ==> PosFor(py, op, expected) == Str("__benign__")
    ensures op in {In, MatchAny, ContainsAny, ContainsAll, Contains, StartsWithAny, EndsWithAny,
                   Match, PatternMatch, PatternMatchAny}
            ==> NegFor(py, op, expected) == Str("__benign__")
    ensures NegFor(py, HasAny, expected) == List([Str("__benign__")])
    ensures (!expected.List? || expected.items == []) ==>
              && (op in {MatchAny, ContainsAny, ContainsAll, StartsWithAny, EndsWithAny}
                  ==> PosFor(py, op, expected) == Str("__benign__"))
              && (op in {NotIn, NotEndsWithAny, NotContainsAny} ==> NegFor(py, op, expected) == Str("__benign__"))
              && PosFor(py, In, expected) == Null
              && PosFor(py, HasAny, expected) == List([Str("__benign__")])
  {
  }

  // ----- composed values -----

  /** `i` is the first constraint with the operator. */
  predicate FirstWith(cs: seq<Constraint>, op: Op, i: nat) {
    i < |cs| && cs[i].op == op && forall j :: 0 <= j < i ==> cs[j].op != op
  }

  lemma {:induction false} FirstOperand(cs: seq<Constraint>, op: Op, i: nat)
    requires FirstWith(cs, op, i)
    ensures OperandsOf(cs, op) != [] && OperandsOf(cs, op)[0] == cs[i].expected
  {
    var init := cs[..|cs| - 1];
    if i < |init| {
      FirstOperand(init, op, i);
    } else {
      NoOperand(init, op);
    }
  }

  lemma {:induction false} NoOperand(cs: seq<Constraint>, op: Op)
    requires forall i :: 0 <= i < |cs| ==> cs[i].op != op
    ensures OperandsOf(cs, op) == []
  {
    if cs != [] {
      NoOperand(cs[..|cs| - 1], op);
    }
  }

  /** The field is numeric if it has a bound and every bound is a number. */
  lemma NumericFieldMeans(cs: seq<Constraint>)
    ensures IsNumericField(cs)
            <==> && (exists i :: 0 <= i < |cs| && cs[i].op in {Gt, Gte, Lt, Lte})
                 && forall i :: 0 <= i < |cs| && cs[i].op in {Gt, Gte, Lt, Lte} ==> NumberOf(cs[i].expected).Some?
  {
    BoundsOfContents(cs);
    if i :| 0 <= i < |cs| && cs[i].op in {Gt, Gte, Lt, Lte} {
      assert cs[i] in BoundsOf(cs);
    }
    if BoundsOf(cs) != [] {
      assert BoundsOf(cs)[0] in cs;
    }
    assert forall i :: 0 <= i < |BoundsOf(cs)| ==> BoundsOf(cs)[i] in cs;
    forall i | 0 <= i < |cs| && cs[i].op in {Gt, Gte, Lt, Lte}
      ensures exists k :: 0 <= k < |BoundsOf(cs)| && BoundsOf(cs)[k] == cs[i]
    {
      assert cs[i] in BoundsOf(cs);
    }
  }

  /** On other fields the first `eq` operand decides, or else the first of the first `in` list, or else
      the first of the first `has_any` list. */
  lemma ComposedByOperand(py: Python, cs: seq<Constraint>, i: nat)
    requires !IsNumericField(cs)
    ensures FirstWith(cs, Eq, i) ==> Composed(py, cs) == cs[i].expected
    ensures FirstWith(cs, In, i) && (forall j :: 0 <= j < |cs| ==> cs[j].op != Eq) ==>
              Composed(py, cs)
              == if cs[i].expected.List? && cs[i].expected.items != [] then cs[i].expected.items[0] else cs[i].expected
    ensures FirstWith(cs, HasAny, i) && (forall j :: 0 <= j < |cs| ==> cs[j].op !in {Eq, In}) ==>
              Composed(py, cs)
              == List([if cs[i].expected.List? && cs[i].expected.items != [] then cs[i].expected.items[0]
                       else Str("__benign__")])
  {
    if FirstWith(cs, Eq, i) {
      FirstOperand(cs, Eq, i);
    } else if FirstWith(cs, In, i) && forall j :: 0 <= j < |cs| ==> cs[j].op != Eq {
      NoOperand(cs, Eq);
      FirstOperand(cs, In, i);
    } else if FirstWith(cs, HasAny, i) && forall j :: 0 <= j < |cs| ==> cs[j].op !in {Eq, In} {
      NoOperand(cs, Eq);
      NoOperand(cs, In);
      FirstOperand(cs, HasAny, i);
    }
  }

  /** One bound. */
  lemma SingleBoundPicked(n: real)
    ensures Picked([Constraint(Gt, Num(n))]) == n + 2.0
    ensures Picked([Constraint(Gte, Num(n))]) == n + 1.0
    ensures Picked([Constraint(Lt, Num(n))]) == n - 2.0
    ensures Picked([Constraint(Lte, Num(n))]) == n - 1.0
  {
    assert LowerEnd([]) == None && UpperEnd([]) == None;
    forall op: Op ensures [Constraint(op, Num(n))][..0] == [] {}
  }

  /** Without those operators and bounds the value is text: prefix, middle pieces, suffix. */
  lemma TextComposed(py: Python, cs: seq<Constraint>)
    requires forall i :: 0 <= i < |cs| ==> cs[i].op !in {Eq, In, HasAny, Gt, Gte, Lt, Lte}
    ensures var prefix, middle, suffix := PrefixOf(py, cs), MiddleOf(py, cs), SuffixOf(py, cs);
            Composed(py, cs)
            == Str(if prefix == "" && middle == [] && suffix == "" then "__benign__"
                   else prefix + Text.Join("", middle) + suffix)
  {
    forall i | 0 <= i < |cs| ensures LeavesText(cs[i]) {}
    NothingButText(cs);
  }

  /** `i` is the last constraint that asks for a prefix, or for a suffix. */
  predicate LastOf(cs: seq<Constraint>, single: Op, listed: Op, i: nat) {
    && i < |cs|
    && AsksEnd(cs[i], single, listed)
    && forall j :: i < j < |cs| ==> !AsksEnd(cs[j], single, listed)
  }

  predicate AsksEnd(c: Constraint, single: Op, listed: Op) {
    c.op == single || (c.op == listed && c.expected.List? && c.expected.items != [])
  }

  /** The last of them decides, with its operand or its first element. */
  lemma EndsDecided(py: Python, cs: seq<Constraint>, i: nat)
    ensures LastOf(cs, StartsWith, StartsWithAny, i) ==>
              PrefixOf(py, cs) == Show(py, if cs[i].op == StartsWith then cs[i].expected else cs[i].expected.items[0])
    ensures LastOf(cs, EndsWith, EndsWithAny, i) ==>
              SuffixOf(py, cs) == Show(py, if cs[i].op == EndsWith then cs[i].expected else cs[i].expected.items[0])
    ensures (forall j :: 0 <= j < |cs| ==> !AsksEnd(cs[j], StartsWith, StartsWithAny)) ==> PrefixOf(py, cs) == ""
    ensures (forall j :: 0 <= j < |cs| ==> !AsksEnd(cs[j], EndsWith, EndsWithAny)) ==> SuffixOf(py, cs) == ""
  {
    if LastOf(cs, StartsWith, StartsWithAny, i) {
      LastPrefixDecides(py, cs, i);
    }
    if LastOf(cs, EndsWith, EndsWithAny, i) {
      LastSuffixDecides(py, cs, i);
    }
    NoEnds(py, cs);
  }

  lemma {:induction false} NoEnds(py: Python, cs: seq<Constraint>)
    ensures (forall j :: 0 <= j < |cs| ==> !AsksEnd(cs[j], StartsWith, StartsWithAny)) ==> PrefixOf(py, cs) == ""
    ensures (forall j :: 0 <= j < |cs| ==> !AsksEnd(cs[j], EndsWith, EndsWithAny)) ==> SuffixOf(py, cs) == ""
  {
    if cs != [] {
      NoEnds(py, cs[..|cs| - 1]);
    }
  }

  /** Pieces stand in the order of their constraints. */
  lemma {:induction false} MiddleConcat(py: Python, left: seq<Constraint>, right: seq<Constraint>)
    ensures MiddleOf(py, left + right) == MiddleOf(py, left) + MiddleOf(py, right)
  {
    if right == [] {
      assert left + right == left;
    } else {
      var init, last := right[..|right| - 1], right[|right| - 1];
      MiddleConcat(py, left, init);
      LastMoved(left, init, last);
      assert right == init + [last];
      MiddleStep(py, left + init, last);
      MiddleStep(py, init, last);
      Regrouped(MiddleOf(py, left), MiddleOf(py, init), PiecesOf(py, last));
    }
  }

  lemma LastMoved(left: seq<Constraint>, init: seq<Constraint>, last: Constraint)
    ensures left + (init + [last]) == (left + init) + [last]
  {
  }

  lemma Regrouped(a: seq<string>, b: seq<string>, c: seq<string>)
    ensures a + (b + c) == (a + b) + c
  {
  }

  lemma MiddleStep(py: Python, init: seq<Constraint>, last: Constraint)
    ensures MiddleOf(py, init + [last]) == MiddleOf(py, init) + PiecesOf(py, last)
  {
    assert (init + [last])[..|init|] == init;
  }

  /** The pieces of one constraint: of a list only the first element, but all of `contains_all`. */
  lemma PiecesMean(py: Python, c: Constraint)
    ensures MiddleOf(py, [c]) == match c.op
                                 case Contains => [Show(py, c.expected)]
                                 case ContainsAny | MatchAny =>
                                   if !c.expected.List? || c.expected.items == [] then []
                                   else if c.op == MatchAny then [Text.StarsToX(Show(py, c.expected.items[0]))]
                                   else [Show(py, c.expected.items[0])]
                                 case ContainsAll =>
                                   if !c.expected.List? then []
                                   else seq(|c.expected.items|, i requires 0 <= i < |c.expected.items| =>
                                            Show(py, c.expected.items[i]))
                                 case _ => []
  {
    assert [c][..0] == [];
    assert MiddleOf(py, [c]) == [] + PiecesOf(py, c) == PiecesOf(py, c);
    if c.op == ContainsAll && c.expected.List? {
      assert ShowAll(py, c.expected.items)
             == seq(|c.expected.items|, i requires 0 <= i < |c.expected.items| => Show(py, c.expected.items[i]));
    }
  }

  // ----- events -----

  /** The constraints of a field stand in key order. */
  lemma {:induction false} ConstraintsInOrder(left: seq<Entry>, right: seq<Entry>, field: string)
    ensures ConstraintsOn(left + right, field) == ConstraintsOn(left, field) + ConstraintsOn(right, field)
  {
    if right == [] {
      assert left + right == left;
    } else {
      var init, last := right[..|right| - 1], right[|right| - 1];
      ConstraintsInOrder(left, init, field);
      assert (left + right)[..|left + right| - 1] == left + init;
    }
  }

  lemma OneConstraint(key: string, expected: Value, field: string)
    requires key !in {"any_of", "all_of"}
    ensures ConstraintsOn([Test(key, expected)], field)
            == if SplitOp(key).0 == field then [Constraint(SplitOp(key).1, expected)] else []
  {
    SplitOpReads(key);
    assert [Test(key, expected)][..0] == [];
  }

  /** The positive has the clause's fields: a field with one constraint gets its sample, any other
      the value composed of its constraints. */
  lemma PositiveHolds(py: Python, when: Clause)
    ensures PositiveOf(py, when).Keys == FieldsOf(when)
    ensures forall f <- FieldsOf(when) ::
              var cs := ConstraintsOn(when.entries, f);
              PositiveOf(py, when)[f] == if |cs| == 1 then PosFor(py, cs[0].op, cs[0].expected) else Composed(py, cs)
  {
  }

  /** `target` is the first item, or the first that tests the requested field. */
  predicate IsTarget(when: Clause, negField: Option<string>, target: nat) {
    && target < |when.entries|
    && match negField
       case None => target == 0
       case Some(field) => && SplitOp(when.entries[target].Key()).0 == field
                           && forall i :: 0 <= i < target ==> SplitOp(when.entries[i].Key()).0 != field
  }

  lemma {:induction false} FirstOnFinds(entries: seq<Entry>, field: string)
    ensures match FirstOn(entries, field)
            case None => forall i :: 0 <= i < |entries| ==> FieldAt(entries[i]) != field
            case Some(k) => && FieldAt(entries[k]) == field
                            && forall i :: 0 <= i < k ==> FieldAt(entries[i]) != field
  {
    if entries != [] && FieldAt(entries[0]) != field {
      FirstOnFinds(entries[1..], field);
      assert forall i :: 0 <= i < |entries| ==> i == 0 || entries[i] == entries[1..][i - 1];
    }
  }

  lemma TargetIs(when: Clause, negField: Option<string>, target: nat)
    ensures TargetOf(when, negField) == Some(target) <==> IsTarget(when, negField, target)
    ensures TargetOf(when, negField) == None
            <==> if negField.None? then when.entries == []
                 else forall i :: 0 <= i < |when.entries| ==> SplitOp(when.entries[i].Key()).0 != negField.value
  {
    forall i | 0 <= i < |when.entries| ensures FieldAt(when.entries[i]) == SplitOp(when.entries[i].Key()).0 {
      SplitOpReads(when.entries[i].Key());
    }
    if negField.Some? {
      FirstOnFinds(when.entries, negField.value);
    }
  }

  /** The negative of a clause without groups: its target's field holds the failing sample of its
      target, every other field what it holds in the positive. */
  lemma NegativeHolds(py: Python, when: Clause, negField: Option<string>, target: nat)
    requires !HasCompound(when) && IsTarget(when, negField, target)
    ensures var e := when.entries[target];
            var (field, op) := SplitOp(e.Key());
            var r := NegativeResult(py, when, negField);
            && r.Success? && e.Test?
            && field in r.value && r.value[field] == NegFor(py, op, e.expected)
            && forall f :: f != field ==> (f in r.value <==> f in PositiveOf(py, when))
                                          && (f in r.value ==> r.value[f] == PositiveOf(py, when)[f])
  {
    TargetIs(when, negField, target);
    assert !IsGroupKey(when.entries[target].Key());
    SplitOpReads(when.entries[target].Key());
  }

  /** Extras are laid over explicit or generated fixtures. */
  lemma SpecHolds(py: Python, when: Clause, positive: Option<Event>, negative: Option<Event>,
                  posExtra: Event, negExtra: Event, negField: Option<string>)
    requires positive.None? ==> !HasCompound(when)
    requires negative.None? ==> NegativeResult(py, when, negField).Success?
    ensures var r := SpecResult(py, when, positive, negative, posExtra, negExtra, negField);
            var pos := positive.GetOr(PositiveOf(py, when));
            var neg := if negative.Some? then negative.value else NegativeResult(py, when, negField).value;
            && r.Success?
            && r.value.fields == FieldsOf(when)
            && (forall f :: Get(r.value.positive, f) == if f in posExtra then posExtra[f] else Get(pos, f))
            && (forall f :: Get(r.value.negative, f) == if f in negExtra then negExtra[f] else Get(neg, f))
  {
  }

  /** The errors: groups where something is to be generated, no item on the field to flip, no item at all. */
  lemma SpecFails(py: Python, when: Clause, positive: Option<Event>, negative: Option<Event>,
                  posExtra: Event, negExtra: Event, negField: Option<string>)
    ensures var r := SpecResult(py, when, positive, negative, posExtra, negExtra, negField);
            && (HasCompound(when) && (positive.None? || negative.None?) ==> r == Failure(NestedClause))
            && (!HasCompound(when) && negative.None? && negField.None? && when.entries == []
                ==> r == Failure(EmptyClause))
            && (!HasCompound(when) && negative.None? && negField.Some?
                && (forall i :: 0 <= i < |when.entries| ==> SplitOp(when.entries[i].Key()).0 != negField.value)
                ==> r == Failure(UnknownNegField))
  {
    TargetIs(when, negField, 0);
  }
}
