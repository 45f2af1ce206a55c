/**
 Fixtures for a flat clause: an event that must match and a near miss that must
 not, built by grouping the clause's tests by field.
 */
module Fixtures {
  import opened Wrappers
  import opened Values
  import opened Operators
  import opened RuleEngine
  import opened RuleLaws
  import opened FixtureParts
  import opened Intervals
  import opened Composer

  datatype FixtureError =
    | NestedClause      // any_of/all_of clauses need explicit fixtures
    | UnknownNegField   // no key tests the field to flip
    | EmptyClause       // there is no first key to flip

  // ----- specification -----

  predicate IsGroupKey(key: string) {
    key in {"any_of", "all_of"}
  }

  /** `_has_compound` */
  predicate HasCompound(c: Clause) {
    exists i :: 0 <= i < |c.entries| && IsGroupKey(c.entries[i].Key())
  }

  /** The field and the constraint of one item of a flat clause. */
  function FieldAt(e: Entry): string {
    HelperSplitOp(e.Key()).0
  }

  function ConstraintAt(e: Entry): Constraint
    requires e.Test?
  {
    Constraint(HelperSplitOp(e.key).1, e.expected)
  }

  /** The constraints a clause puts on one field, in key order. */
  function ConstraintsOn(entries: seq<Entry>, field: string): seq<Constraint> {
    if entries == [] then []
    else
      var e := entries[|entries| - 1];
      ConstraintsOn(entries[..|entries| - 1], field)
      + if e.Test? && !IsGroupKey(e.key) && FieldAt(e) == field then [ConstraintAt(e)] else []
  }

  function FieldValue(py: Python, cs: seq<Constraint>): Value {
    if |cs| == 1 then PosFor(py, cs[0].op, cs[0].expected) else Composed(py, cs)
  }

  function PositiveOf(py: Python, when: Clause): Event {
    map f | f in FieldsOf(when) :: FieldValue(py, ConstraintsOn(when.entries, f))
  }

  /** The item whose test the negative breaks: the first on the requested field,
      or the first of all. */
  function TargetOf(when: Clause, negField: Option<string>): Option<nat> {
    match negField
    case Some(field) => FirstOn(when.entries, field)
    case None => if when.entries == [] then None else Some(0)
  }

  function FirstOn(entries: seq<Entry>, field: string): (index: Option<nat>)
    ensures index.Some? ==> index.value < |entries|
  {
    if entries == [] then None
    else if FieldAt(entries[0]) == field then Some(0)
    else match FirstOn(entries[1..], field)
      case Some(i) => Some(i + 1)
      case None => None
  }

  function NegativeOf(py: Python, when: Clause, target: nat): Event
    requires target < |when.entries| && when.entries[target].Test?
  {
    var e := when.entries[target];
    PositiveOf(py, when)[FieldAt(e) := NegFor(py, ConstraintAt(e).op, e.expected)]
  }

  function PositiveResult(py: Python, when: Clause): Result<Event, FixtureError> {
    if HasCompound(when) then Failure(NestedClause) else Success(PositiveOf(py, when))
  }

  function NegativeResult(py: Python, when: Clause, negField: Option<string>): Result<Event, FixtureError> {
    if HasCompound(when) then Failure(NestedClause)
    else match TargetOf(when, negField)
      case None => Failure(if negField.Some? then UnknownNegField else EmptyClause)
      case Some(target) =>
        assert !IsGroupKey(when.entries[target].Key());
        Success(NegativeOf(py, when, target))
  }

  // ----- implementation -----

  lemma {:induction false} FieldsOfEntriesAppend(entries: seq<Entry>, e: Entry)
    ensures FieldsOfEntries(entries + [e]) == FieldsOfEntries(entries) + FieldsOfEntry(e)
  {
    if entries == [] {
      assert entries + [e] == [e];
    } else {
      assert (entries + [e])[0] == entries[0] && (entries + [e])[1..] == entries[1..] + [e];
      FieldsOfEntriesAppend(entries[1..], e);
    }
  }

  lemma ConstraintsOnAppend(entries: seq<Entry>, e: Entry, field: string)
    requires e.Test? && !IsGroupKey(e.key)
    ensures ConstraintsOn(entries + [e], field)
            == ConstraintsOn(entries, field) + if FieldAt(e) == field then [ConstraintAt(e)] else []
  {
    assert (entries + [e])[..|entries|] == entries;
  }

  /** The first loop of `build_positive`: collects the constraints of each field. */
  method GroupByField(when: Clause) returns (byField: map<string, seq<Constraint>>)
    requires !HasCompound(when)
    ensures byField.Keys == FieldsOf(when)
    ensures forall f <- byField :: byField[f] == ConstraintsOn(when.entries, f)
  {
    byField := map[];
    for i := 0 to |when.entries|
      invariant byField.Keys == FieldsOfEntries(when.entries[..i])
      invariant forall f <- byField :: byField[f] == ConstraintsOn(when.entries[..i], f)
      invariant forall f :: f !in byField ==> ConstraintsOn(when.entries[..i], f) == []
    {
      var e := when.entries[i];
      assert !IsGroupKey(e.Key());
      assert when.entries[..i + 1] == when.entries[..i] + [e];
      FieldsOfEntriesAppend(when.entries[..i], e);
      forall f { ConstraintsOnAppend(when.entries[..i], e, f); }
      var (field, op) := HelperSplitOp(e.key);
      var earlier := if field in byField then byField[field] else [];
      byField := byField[field := earlier + [Constraint(op, e.expected)]];
    }
    assert when.entries[..|when.entries|] == when.entries;
  }

  /** `build_positive` */
  method BuildPositive(py: Python, when: Clause) returns (r: Result<Event, FixtureError>)
    ensures r == PositiveResult(py, when)
  {
    if HasCompound(when) {
      return Failure(NestedClause);
    }
    var byField := GroupByField(when);
    var pos: Event := map[];
    var todo := byField.Keys;
    while todo != {}
      invariant todo <= byField.Keys && pos.Keys == byField.Keys - todo
      invariant forall f <- pos :: pos[f] == FieldValue(py, byField[f])
    {
      var field :| field in todo;
      var constraints := byField[field];
      var value: Value;
      if |constraints| == 1 {
        value := PosFor(py, constraints[0].op, constraints[0].expected);
      } else {
        value := ComposeFieldValue(py, constraints);
      }
      pos := pos[field := value];
      todo := todo - {field};
    }
    assert pos == PositiveOf(py, when);
    return Success(pos);
  }

  /** `build_negative` */
  method BuildNegative(py: Python, when: Clause, negField: Option<string>) returns (r: Result<Event, FixtureError>)
    ensures r == NegativeResult(py, when, negField)
  {
    if HasCompound(when) {
      return Failure(NestedClause);
    }
    var built := BuildPositive(py, when);
    var neg := built.value;
    var target := 0;
    if negField.Some? {
      while target < |when.entries| && FieldAt(when.entries[target]) != negField.value
        invariant target <= |when.entries|
        invariant FirstOn(when.entries, negField.value)
                  == match FirstOn(when.entries[target..], negField.value)
                     case Some(i) => Some(i + target)
                     case None => None
      {
        assert when.entries[target..][1..] == when.entries[target + 1..];
        target := target + 1;
      }
      if target == |when.entries| {
        return Failure(UnknownNegField);
      }
    } else if when.entries == [] {
      return Failure(EmptyClause);
    }
    var e := when.entries[target];
    assert !IsGroupKey(e.Key());
    var (field, op) := HelperSplitOp(e.key);
    neg := neg[field := NegFor(py, op, e.expected)];
    return Success(neg);
  }

  /** What a spec carries about its fixtures. */
  datatype Spec = Spec(fields: set<string>, positive: Event, negative: Event)

  function SpecResult(py: Python, when: Clause, positive: Option<Event>, negative: Option<Event>,
                      posExtra: Event, negExtra: Event, negField: Option<string>): Result<Spec, FixtureError>
  {
    match if positive.Some? then Success(positive.value) else PositiveResult(py, when)
    case Failure(error) => Failure(error)
    case Success(pos) =>
      match if negative.Some? then Success(negative.value) else NegativeResult(py, when, negField)
      case Failure(error) => Failure(error)
      case Success(neg) => Success(Spec(FieldsOf(when), pos + posExtra, neg + negExtra))
  }

  /** `S`, as far as fixtures go. */
  method S(py: Python, when: Clause, positive: Option<Event>, negative: Option<Event>,
           posExtra: Event, negExtra: Event, negField: Option<string>) returns (r: Result<Spec, FixtureError>)
    ensures r == SpecResult(py, when, positive, negative, posExtra, negExtra, negField)
  {
    var pos, neg := map[], map[];
    if positive == None {
      var built := BuildPositive(py, when);
      if built.Failure? { return Failure(built.error); }
      pos := built.value;
    } else {
      pos := positive.value;
    }
    pos := pos + posExtra;
    if negative == None {
      var built := BuildNegative(py, when, negField);
      if built.Failure? { return Failure(built.error); }
      neg := built.value;
    } else {
      neg := negative.value;
    }
    neg := neg + negExtra;
    var fields := FieldsUsed(when);
    return Success(Spec(fields, pos, neg));
  }
}
