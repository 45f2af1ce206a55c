/**
 Soundness of generated fixtures: the positive matches and the negative does not,
 with the exact conditions on the clause.
 */
module FixtureTheorems {
  import opened Wrappers
  import opened Values
  import opened Operators
  import opened RuleEngine
  import opened RuleLaws
  import opened FixtureParts
  import opened Intervals
  import opened Acceptance
  import opened Composer
  import opened Fixtures
  import opened FixtureContents
  import Text

  /** No `any_of` or `all_of` key, with whatever value. */
  predicate PlainEntries(entries: seq<Entry>) {
    forall i :: 0 <= i < |entries| ==> entries[i].Test? && !IsGroupKey(entries[i].key)
  }

  predicate Flat(when: Clause) {
    PlainEntries(when.entries)
  }

  lemma FlatMeansNoCompound(when: Clause)
    ensures Flat(when) <==> !HasCompound(when)
  {
    if !HasCompound(when) {
      assert forall i :: 0 <= i < |when.entries| ==> !IsGroupKey(when.entries[i].Key());
    }
  }

  // ----- from constraints to items and back -----

  /** The constraints on a field are those of the items that test it. */
  lemma {:induction false} ConstraintsOnContents(entries: seq<Entry>, field: string)
    requires PlainEntries(entries)
    ensures forall i :: 0 <= i < |entries| && FieldAt(entries[i]) == field ==>
                          ConstraintAt(entries[i]) in ConstraintsOn(entries, field)
    ensures forall c <- ConstraintsOn(entries, field) ::
              exists i :: 0 <= i < |entries| && FieldAt(entries[i]) == field && ConstraintAt(entries[i]) == c
  {
    if entries == [] {
      assert ConstraintsOn(entries, field) == [];
    } else {
      var init, last := entries[..|entries| - 1], |entries| - 1;
      ConstraintsOnContents(init, field);
      forall i | 0 <= i < |entries| && FieldAt(entries[i]) == field
        ensures ConstraintAt(entries[i]) in ConstraintsOn(entries, field)
      {
        if i < last {
          assert init[i] == entries[i];
        }
      }
      forall c | c in ConstraintsOn(entries, field)
        ensures exists i :: 0 <= i < |entries| && FieldAt(entries[i]) == field && ConstraintAt(entries[i]) == c
      {
        if c in ConstraintsOn(init, field) {
          var i :| 0 <= i < |init| && FieldAt(init[i]) == field && ConstraintAt(init[i]) == c;
          assert entries[i] == init[i];
        } else {
          assert ConstraintAt(entries[last]) == c;
        }
      }
    }
  }

  lemma {:induction false} FieldsOfFlat(entries: seq<Entry>)
    requires PlainEntries(entries)
    ensures forall f :: f in FieldsOfEntries(entries)
                        <==> exists i :: 0 <= i < |entries| && FieldAt(entries[i]) == f
  {
    if entries != [] {
      FieldsOfFlat(entries[1..]);
      assert FieldsOfEntry(entries[0]) == {FieldAt(entries[0])};
      forall f ensures f in FieldsOfEntries(entries)
                       <==> exists i :: 0 <= i < |entries| && FieldAt(entries[i]) == f
      {
        if i :| 0 <= i < |entries| && FieldAt(entries[i]) == f {
          if i > 0 { assert entries[1..][i - 1] == entries[i]; }
        }
        if f in FieldsOfEntries(entries[1..]) {
          var i :| 0 <= i < |entries[1..]| && FieldAt(entries[1..][i]) == f;
          assert entries[i + 1] == entries[1..][i];
        }
      }
    }
  }

  /** Every constraint on `field` is satisfied by `value`. */
  ghost predicate AllPass(py: Python, cs: seq<Constraint>, value: Value) {
    forall c <- cs :: Check(py, c.op, c.expected, value) == Yes
  }

  /** A flat clause matches an event exactly when, field by field, all constraints pass. */
  lemma MatchesByField(py: Python, when: Clause, event: Event)
    requires Flat(when)
    ensures Matches(py, when, event) == Yes
            <==> forall f <- FieldsOf(when) :: AllPass(py, ConstraintsOn(when.entries, f), Get(event, f))
  {
    var entries := when.entries;
    MatchesEachItem(py, entries, event);
    FieldsOfFlat(entries);
    forall i | 0 <= i < |entries|
      ensures EvalEntry(py, entries[i], event)
              == Check(py, ConstraintAt(entries[i]).op, entries[i].expected, Get(event, FieldAt(entries[i])))
    {
      SplitOpReads(entries[i].key);
    }
    if Matches(py, when, event) == Yes {
      forall f | f in FieldsOf(when) ensures AllPass(py, ConstraintsOn(entries, f), Get(event, f)) {
        ConstraintsOnContents(entries, f);
      }
    }
    if forall f <- FieldsOf(when) :: AllPass(py, ConstraintsOn(entries, f), Get(event, f)) {
      forall i | 0 <= i < |entries| ensures EvalEntry(py, entries[i], event) == Yes {
        var f := FieldAt(entries[i]);
        assert f in FieldsOf(when);
        ConstraintsOnContents(entries, f);
        assert ConstraintAt(entries[i]) in ConstraintsOn(entries, f);
      }
    }
  }

  // ----- positives -----

  /** When one value for several constraints works. Numeric fields: the bounds leave room and
      each other constraint accepts the number between their ends. Fields decided by an
      operand: each other constraint accepts that operand. Text: each constraint is served
      by the composition itself or accepts the parts side by side. */
  predicate GroupOk(py: Python, cs: seq<Constraint>) {
    if IsNumericField(cs) then
      && IntervalOk(BoundsOf(cs))
      && forall i :: 0 <= i < |cs| && !IsBound(cs[i]) ==> AcceptsNumber(py, cs[i], Picked(BoundsOf(cs)))
    else
      forall i :: 0 <= i < |cs| ==> Guaranteed(py, cs, i) || Accepts(py, cs[i], ComposedShape(py, cs))
  }

  /** When the positive's value works: `PosOk` for a single constraint, `GroupOk` for several. */
  predicate FieldOk(py: Python, cs: seq<Constraint>) {
    if |cs| == 1 then PosOk(py, cs[0].op, cs[0].expected) else GroupOk(py, cs)
  }

  /** The fragment in which positives are sure to match: single constraints by `PosOk`,
      several by `Composable`. */
  predicate FieldInFragment(py: Python, cs: seq<Constraint>) {
    if |cs| == 1 then PosOk(py, cs[0].op, cs[0].expected) else Composable(py, cs)
  }

  /** The composed value passes all constraints exactly on the operands `GroupOk` describes. */
  lemma GroupExact(py: Python, cs: seq<Constraint>)
    ensures AllPass(py, cs, Composed(py, cs)) <==> GroupOk(py, cs)
  {
    if IsNumericField(cs) {
      NumericGroupExact(py, cs, BoundsOf(cs));
    } else {
      ComposedShapeMakesComposed(py, cs);
      forall i | 0 <= i < |cs|
        ensures Check(py, cs[i].op, cs[i].expected, Composed(py, cs)) == Yes
                <==> Guaranteed(py, cs, i) || Accepts(py, cs[i], ComposedShape(py, cs))
      {
        AcceptsExact(py, cs[i], ComposedShape(py, cs));
        if Guaranteed(py, cs, i) {
          ComposedSatisfies(py, cs, i);
        }
      }
    }
  }

  lemma NumericGroupExact(py: Python, cs: seq<Constraint>, nums: seq<Constraint>)
    requires nums == BoundsOf(cs) && AllNumeric(nums)
    ensures AllPass(py, cs, Num(Picked(nums)))
            <==> && IntervalOk(nums)
                 && forall i :: 0 <= i < |cs| && !IsBound(cs[i]) ==> AcceptsNumber(py, cs[i], Picked(nums))
  {
    var n := Picked(nums);
    BoundsOfContents(cs);
    BoundsPassExactly(py, nums);
    forall c: Constraint ensures Check(py, c.op, c.expected, Num(n)) == Yes <==> AcceptsNumber(py, c, n) {
      AcceptsNumberExact(py, c, n);
    }
    if IntervalOk(nums) && forall i :: 0 <= i < |cs| && !IsBound(cs[i]) ==> AcceptsNumber(py, cs[i], n) {
      forall c | c in cs ensures Check(py, c.op, c.expected, Num(n)) == Yes {
        if IsBound(c) {
          assert c in nums;
        }
      }
    }
  }

  lemma BoundsPassExactly(py: Python, nums: seq<Constraint>)
    requires AllNumeric(nums)
    ensures AllPass(py, nums, Num(Picked(nums))) <==> IntervalOk(nums)
  {
    PickedExact(nums);
    if AllPass(py, nums, Num(Picked(nums))) {
      assert forall i :: 0 <= i < |nums| ==> nums[i] in nums;
    } else {
      var c :| c in nums && Check(py, c.op, c.expected, Num(Picked(nums))) != Yes;
      var i :| 0 <= i < |nums| && nums[i] == c;
      assert !Meets(Picked(nums), nums[i]);
    }
  }

  /** On a field that equates with a string or null, composition works whenever anything does. */
  lemma LiteralFieldComplete(py: Python, cs: seq<Constraint>)
    requires OperandsOf(cs, Eq) != []
    requires OperandsOf(cs, Eq)[0].Str? || OperandsOf(cs, Eq)[0].Null?
    ensures AllPass(py, cs, Composed(py, cs)) <==> exists v :: AllPass(py, cs, v)
  {
    if v :| AllPass(py, cs, v) {
      LiteralDecides(py, cs, OperandsOf(cs, Eq)[0], v);
      NoBoundPasses(py, cs, v);
    }
  }

  lemma LiteralDecides(py: Python, cs: seq<Constraint>, literal: Value, v: Value)
    requires literal in OperandsOf(cs, Eq) && (literal.Str? || literal.Null?) && AllPass(py, cs, v)
    ensures v == literal
  {
    OperandsOfContents(cs, Eq);
    var c := Constraint(Eq, literal);
    assert c in cs;
    assert Check(py, c.op, c.expected, v) == Yes;
  }

  lemma NoBoundPasses(py: Python, cs: seq<Constraint>, v: Value)
    requires !v.Num?
    ensures AllPass(py, cs, v) ==> !IsNumericField(cs)
  {
    BoundsOfContents(cs);
    if BoundsOf(cs) != [] {
      var c := BoundsOf(cs)[0];
      assert c in cs && Check(py, c.op, c.expected, v) != Yes;
    }
  }

  lemma FieldValueExact(py: Python, cs: seq<Constraint>)
    requires cs != []
    ensures AllPass(py, cs, FieldValue(py, cs)) <==> FieldOk(py, cs)
  {
    if |cs| == 1 {
      PosForExact(py, cs[0].op, cs[0].expected);
    } else {
      GroupExact(py, cs);
    }
  }

  lemma FragmentOk(py: Python, cs: seq<Constraint>)
    requires FieldInFragment(py, cs)
    ensures FieldOk(py, cs)
  {
    if |cs| != 1 {
      ComposableSatisfied(py, cs);
      GroupExact(py, cs);
    }
  }

  lemma ConstraintsOnNonEmpty(when: Clause, field: string)
    requires Flat(when) && field in FieldsOf(when)
    ensures ConstraintsOn(when.entries, field) != []
  {
    var entries := when.entries;
    FieldsOfFlat(entries);
    ConstraintsOnContents(entries, field);
  }

  /** The positive of a flat clause matches it exactly when every field is in order. */
  lemma PositiveExact(py: Python, when: Clause)
    requires Flat(when)
    ensures Matches(py, when, PositiveOf(py, when)) == Yes
            <==> forall f <- FieldsOf(when) :: FieldOk(py, ConstraintsOn(when.entries, f))
  {
    MatchesByField(py, when, PositiveOf(py, when));
    forall f | f in FieldsOf(when)
      ensures AllPass(py, ConstraintsOn(when.entries, f), Get(PositiveOf(py, when), f))
              <==> FieldOk(py, ConstraintsOn(when.entries, f))
    {
      ConstraintsOnNonEmpty(when, f);
      FieldValueExact(py, ConstraintsOn(when.entries, f));
    }
  }

  /** In the fragment the positive matches, whatever further fields are added to it. */
  lemma PositiveSound(py: Python, when: Clause, extra: Event)
    requires Flat(when)
    requires forall f <- FieldsOf(when) :: FieldInFragment(py, ConstraintsOn(when.entries, f))
    requires extra.Keys !! FieldsOf(when)
    ensures Matches(py, when, PositiveOf(py, when) + extra) == Yes
  {
    forall f | f in FieldsOf(when) ensures FieldOk(py, ConstraintsOn(when.entries, f)) {
      FragmentOk(py, ConstraintsOn(when.entries, f));
    }
    PositiveExact(py, when);
    Locality(py, when, PositiveOf(py, when), PositiveOf(py, when) + extra);
  }

  // ----- negatives -----

  /** A clause that matches something cannot raise: each of its tests compared well. */
  lemma MatchedClauseWellTyped(py: Python, when: Clause, event: Event)
    requires Flat(when) && Matches(py, when, event) == Yes
    ensures WellTyped(when)
  {
    MatchesEachItem(py, when.entries, event);
    forall i | 0 <= i < |when.entries| ensures WellTypedEntry(when.entries[i]) {
      assert EvalEntry(py, when.entries[i], event) == Yes;
    }
  }

  /** The negative differs from the positive on the flipped field alone. */
  lemma NegativeAgreesElsewhere(py: Python, when: Clause, target: nat, field: string)
    requires Flat(when) && target < |when.entries|
    requires field != FieldAt(when.entries[target])
    ensures Get(NegativeOf(py, when, target), field) == Get(PositiveOf(py, when), field)
  {
  }

  lemma FieldInClause(when: Clause, i: nat)
    requires Flat(when) && i < |when.entries|
    ensures FieldAt(when.entries[i]) in FieldsOf(when)
  {
    FieldsOfFlat(when.entries);
  }

  /** Whatever else the clause and the event say, the negative does not match once its
      target fails on the flipped value. */
  lemma NegativeSound(py: Python, when: Clause, target: nat, extra: Event)
    requires Flat(when) && target < |when.entries|
    requires var c := ConstraintAt(when.entries[target]); NegOk(py, c.op, c.expected)
    requires FieldAt(when.entries[target]) !in extra
    ensures EvalEntry(py, when.entries[target], NegativeOf(py, when, target) + extra) == No
    ensures Matches(py, when, NegativeOf(py, when, target) + extra) != Yes
    ensures WellTyped(when) ==> Matches(py, when, NegativeOf(py, when, target) + extra) == No
  {
    var e := when.entries[target];
    NegForExact(py, ConstraintAt(e).op, e.expected);
    SplitOpReads(e.key);
    FalseItemDecides(py, when, NegativeOf(py, when, target) + extra, target);
  }

  /** Every other item on the flipped field accepts what the flipped value is made of. */
  predicate OthersAccept(py: Python, entries: seq<Entry>, target: nat)
    requires PlainEntries(entries) && target < |entries|
  {
    var c := ConstraintAt(entries[target]);
    forall i :: 0 <= i < |entries| && i != target && FieldAt(entries[i]) == FieldAt(entries[target]) ==>
      Accepts(py, ConstraintAt(entries[i]), FlipShape(py, c.op, c.expected))
  }

  /** Where the positive matches, the negative is rejected exactly when the flip breaks its
      target or another item on the flipped field does not accept it. */
  lemma NegativeExact(py: Python, when: Clause, target: nat)
    requires Flat(when) && target < |when.entries|
    requires Matches(py, when, PositiveOf(py, when)) == Yes
    ensures var c := ConstraintAt(when.entries[target]);
            Matches(py, when, NegativeOf(py, when, target)) == No
            <==> NegOk(py, c.op, c.expected) || !OthersAccept(py, when.entries, target)
  {
    var e, neg := when.entries[target], NegativeOf(py, when, target);
    MatchedClauseWellTyped(py, when, PositiveOf(py, when));
    EvalDecidesMeaning(py, when, neg);
    MatchesByField(py, when, PositiveOf(py, when));
    MatchesByField(py, when, neg);
    FieldInClause(when, target);
    forall f | f in FieldsOf(when) && f != FieldAt(e)
      ensures AllPass(py, ConstraintsOn(when.entries, f), Get(neg, f))
    {
      NegativeAgreesElsewhere(py, when, target, f);
    }
    TargetWellTyped(py, when, target);
    FlippedFieldExact(py, when, target);
  }

  /** The flipped value passes all constraints on its field exactly if the flip does not break
      its target and every other item accepts it. */
  lemma FlippedFieldExact(py: Python, when: Clause, target: nat)
    requires Flat(when) && target < |when.entries|
    requires var c := ConstraintAt(when.entries[target]); WellTypedTest(c.op, c.expected)
    ensures var c := ConstraintAt(when.entries[target]);
            AllPass(py, ConstraintsOn(when.entries, FieldAt(when.entries[target])), NegFor(py, c.op, c.expected))
            <==> !NegOk(py, c.op, c.expected) && OthersAccept(py, when.entries, target)
  {
    var entries := when.entries;
    var c, field := ConstraintAt(entries[target]), FieldAt(entries[target]);
    var flipped := NegFor(py, c.op, c.expected);
    FlipBreaksExactly(py, c);
    FlipShapeMakesNegFor(py, c.op, c.expected);
    ConstraintsOnContents(entries, field);
    forall i | 0 <= i < |entries|
      ensures Check(py, ConstraintAt(entries[i]).op, entries[i].expected, flipped) == Yes
              <==> Accepts(py, ConstraintAt(entries[i]), FlipShape(py, c.op, c.expected))
    {
      AcceptsExact(py, ConstraintAt(entries[i]), FlipShape(py, c.op, c.expected));
    }
  }

  lemma FlipBreaksExactly(py: Python, c: Constraint)
    requires WellTypedTest(c.op, c.expected)
    ensures Check(py, c.op, c.expected, NegFor(py, c.op, c.expected)) == Yes <==> !NegOk(py, c.op, c.expected)
  {
    NegForExact(py, c.op, c.expected);
    RaisesExactly(py, c.op, c.expected);
  }

  /** With no other item on the flipped field that is exactly `NegOk`. */
  lemma NegativeExactAlone(py: Python, when: Clause, target: nat)
    requires Flat(when) && target < |when.entries|
    requires Matches(py, when, PositiveOf(py, when)) == Yes
    requires forall i :: 0 <= i < |when.entries| && i != target ==>
                           FieldAt(when.entries[i]) != FieldAt(when.entries[target])
    ensures Matches(py, when, NegativeOf(py, when, target)) == No
            <==> NegOk(py, ConstraintAt(when.entries[target]).op, when.entries[target].expected)
  {
    NegativeExact(py, when, target);
  }

  lemma TargetWellTyped(py: Python, when: Clause, target: nat)
    requires Flat(when) && target < |when.entries|
    requires Matches(py, when, PositiveOf(py, when)) == Yes
    ensures var c := ConstraintAt(when.entries[target]); WellTypedTest(c.op, c.expected)
  {
    MatchedClauseWellTyped(py, when, PositiveOf(py, when));
    assert WellTypedEntry(when.entries[target]);
    SplitOpReads(when.entries[target].key);
  }

  // ----- replay -----

  /** Fixture replay accepts a pair of fixtures. */
  predicate ReplayAccepts(py: Python, when: Clause, positive: Event, negative: Event) {
    Matches(py, when, positive) == Yes && Matches(py, when, negative) == No
  }

  /** A spec built without explicit fixtures passes replay: for a clause in the fragment, a target
      the flip breaks, positive extras on other fields and negative extras off the flipped one.
      The target is the first item, or the first on the field to flip. */
  lemma GeneratedFixturesReplay(py: Python, when: Clause, posExtra: Event, negExtra: Event,
                                negField: Option<string>, target: nat)
    requires Flat(when) && IsTarget(when, negField, target)
    requires forall f <- FieldsOf(when) :: FieldInFragment(py, ConstraintsOn(when.entries, f))
    requires posExtra.Keys !! FieldsOf(when)
    requires var e := when.entries[target];
             NegOk(py, ConstraintAt(e).op, e.expected) && FieldAt(e) !in negExtra
    ensures var r := SpecResult(py, when, None, None, posExtra, negExtra, negField);
            && r.Success?
            && r.value.fields == FieldsOf(when)
            && ReplayAccepts(py, when, r.value.positive, r.value.negative)
  {
    FlatMeansNoCompound(when);
    TargetIs(when, negField, target);
    PositiveSound(py, when, posExtra);
    MatchedClauseWellTyped(py, when, PositiveOf(py, when) + posExtra);
    NegativeSound(py, when, target, negExtra);
  }

  /** Without extras, replay accepts the generated fixtures exactly if every field is in order,
      and the flip breaks its target or is not accepted by another item on that field. */
  lemma GeneratedFixturesReplayExactly(py: Python, when: Clause, negField: Option<string>, target: nat)
    requires Flat(when) && IsTarget(when, negField, target)
    ensures var r := SpecResult(py, when, None, None, map[], map[], negField);
            var c := ConstraintAt(when.entries[target]);
            && r.Success?
            && (ReplayAccepts(py, when, r.value.positive, r.value.negative)
                <==> && (forall f <- FieldsOf(when) :: FieldOk(py, ConstraintsOn(when.entries, f)))
                     && (NegOk(py, c.op, c.expected) || !OthersAccept(py, when.entries, target)))
  {
    FlatMeansNoCompound(when);
    TargetIs(when, negField, target);
    assert PositiveOf(py, when) + map[] == PositiveOf(py, when);
    assert NegativeOf(py, when, target) + map[] == NegativeOf(py, when, target);
    PositiveExact(py, when);
    if Matches(py, when, PositiveOf(py, when)) == Yes {
      NegativeExact(py, when, target);
    }
  }

  /** Building fixtures fails exactly on nested clauses, empty clauses and unknown fields to flip. */
  lemma GenerationFailsExactly(py: Python, when: Clause, posExtra: Event, negExtra: Event, negField: Option<string>)
    ensures SpecResult(py, when, None, None, posExtra, negExtra, negField).Failure?
            <==> || !Flat(when)
                 || (negField.None? && when.entries == [])
                 || (negField.Some? && negField.value !in FieldsOf(when))
  {
    FlatMeansNoCompound(when);
    if Flat(when) {
      FieldsOfFlat(when.entries);
      if negField.Some? {
        FirstOnFinds(when.entries, negField.value);
      }
    }
  }

  // ----- where the generator falls short -----

  /** Shifting `x-` by itself is no negative. */
  lemma ShiftedNegativeMatches(py: Python)
    ensures Check(py, StartsWith, Str("x-"), NegFor(py, StartsWith, Str("x-"))) == Yes
  {
    NegForExact(py, StartsWith, Str("x-"));
    assert Text.StartsWith("x-" + "x-", "x-");
  }

  const BEGINS_A := Constraint(StartsWith, Str("a"))
  const CONTAINS_B := Constraint(Contains, Str("b"))
  const NOT_ENDING_B := Constraint(NotEndsWithAny, List([Str("b")]))

  /** Constraints that have a solution, but whose composed text runs into the deny-list:
      `ab` ends with `b`, though `abc` would do. */
  lemma ComposedTextDenied(py: Python)
    ensures Composed(py, [BEGINS_A, CONTAINS_B, NOT_ENDING_B]) == Str("ab")
    ensures Check(py, NotEndsWithAny, List([Str("b")]), Str("ab")) == No
    ensures Check(py, StartsWith, Str("a"), Str("abc")) == Yes
            && Check(py, Contains, Str("b"), Str("abc")) == Yes
            && Check(py, NotEndsWithAny, List([Str("b")]), Str("abc")) == Yes
  {
    DeniedValue(py);
    EndingVerdicts(py);
    StartVerdicts(py);
  }

  lemma DeniedValue(py: Python)
    ensures Composed(py, [BEGINS_A, CONTAINS_B, NOT_ENDING_B]) == Str("ab")
  {
    var cs := [BEGINS_A, CONTAINS_B, NOT_ENDING_B];
    assert LeavesText(BEGINS_A) && LeavesText(CONTAINS_B) && LeavesText(NOT_ENDING_B);
    NothingButText(cs);
    DeniedText(py);
  }

  lemma StartVerdicts(py: Python)
    ensures Check(py, StartsWith, Str("a"), Str("abc")) == Yes
    ensures Check(py, Contains, Str("b"), Str("abc")) == Yes
  {
    assert Text.OccursAt("abc", 1, "b");
    assert Text.StartsWith("abc", "a");
  }

  lemma EndingVerdicts(py: Python)
    ensures Check(py, NotEndsWithAny, List([Str("b")]), Str("ab")) == No
    ensures Check(py, NotEndsWithAny, List([Str("b")]), Str("abc")) == Yes
  {
    var deny := [Str("b")];
    assert Show(py, deny[0]) == "b";
    assert Text.EndsWith("ab", "b") && !Text.EndsWith("abc", "b");
    assert AnySuffix(py, deny, "ab") && !AnySuffix(py, deny, "abc");
  }

  lemma DeniedText(py: Python)
    ensures ComposedText(py, [BEGINS_A, CONTAINS_B, NOT_ENDING_B]) == "ab"
  {
    var one, two, three := [BEGINS_A], [BEGINS_A, CONTAINS_B], [BEGINS_A, CONTAINS_B, NOT_ENDING_B];
    assert three[..2] == two && two[..1] == one && one[..0] == [];
    assert PrefixOf(py, one) == "a" && SuffixOf(py, one) == "" && MiddleOf(py, one) == [];
    assert PrefixOf(py, two) == "a" && SuffixOf(py, two) == "" && MiddleOf(py, two) == ["b"];
    assert PrefixOf(py, three) == "a" && SuffixOf(py, three) == "" && MiddleOf(py, three) == ["b"];
  }
}
