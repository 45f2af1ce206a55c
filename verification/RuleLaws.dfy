/**
 Laws of the evaluator for arbitrarily nested clauses: which fields a verdict
 depends on, what it means when nothing raises, and that the order of keys does
 not matter.
 */
module RuleLaws {
  import opened Wrappers
  import opened Values
  import opened Operators
  import opened RuleEngine

  // ----- fields -----

  /** The fields a clause names, as the fixture helpers collect them. */
  function FieldsOf(c: Clause): set<string>
    decreases c, 0
  {
    FieldsOfEntries(c.entries)
  }

  function FieldsOfEntries(entries: seq<Entry>): set<string>
    decreases entries, 0
  {
    if entries == [] then {} else FieldsOfEntry(entries[0]) + FieldsOfEntries(entries[1..])
  }

  function FieldsOfEntry(e: Entry): set<string>
    decreases e, 1
  {
    match e
    case AnyOf(subs) => FieldsOfSubs(subs)
    case AllOf(subs) => FieldsOfSubs(subs)
    case Test(key, _) => if key in {"any_of", "all_of"} then {} else {HelperSplitOp(key).0}
  }

  function FieldsOfSubs(subs: seq<Clause>): set<string>
    decreases subs, 0
  {
    if subs == [] then {} else FieldsOf(subs[0]) + FieldsOfSubs(subs[1..])
  }

  /** A field is named by a test of it, or inside a group. */
  ghost predicate Names(e: Entry, field: string) {
    match e
    case Test(key, _) => key !in {"any_of", "all_of"} && SplitOp(key).0 == field
    case AnyOf(subs) => exists i :: 0 <= i < |subs| && field in FieldsOf(subs[i])
    case AllOf(subs) => exists i :: 0 <= i < |subs| && field in FieldsOf(subs[i])
  }

  /** A clause's fields are exactly those its items name. */
  lemma {:induction false} FieldsOfExact(entries: seq<Entry>, field: string)
    ensures field in FieldsOf(Clause(entries)) <==> exists i :: 0 <= i < |entries| && Names(entries[i], field)
  {
    if entries != [] {
      FieldsOfExact(entries[1..], field);
      EntryNames(entries[0], field);
      assert FieldsOfEntries(entries) == FieldsOfEntry(entries[0]) + FieldsOfEntries(entries[1..]);
      assert FieldsOf(Clause(entries[1..])) == FieldsOfEntries(entries[1..]);
      assert forall i :: 0 <= i < |entries| - 1 ==> entries[1..][i] == entries[i + 1];
      if i :| 0 <= i < |entries| && Names(entries[i], field) && i > 0 {
        assert Names(entries[1..][i - 1], field);
      }
    }
  }

  lemma EntryNames(e: Entry, field: string)
    ensures field in FieldsOfEntry(e) <==> Names(e, field)
  {
    match e
    case Test(key, _) => SplitOpReads(key);
    case AnyOf(subs) => SubsName(subs, field);
    case AllOf(subs) => SubsName(subs, field);
  }

  lemma {:induction false} SubsName(subs: seq<Clause>, field: string)
    ensures field in FieldsOfSubs(subs) <==> exists i :: 0 <= i < |subs| && field in FieldsOf(subs[i])
  {
    if subs != [] {
      SubsName(subs[1..], field);
      assert forall i :: 0 <= i < |subs| - 1 ==> subs[1..][i] == subs[i + 1];
      if i :| 0 <= i < |subs| && field in FieldsOf(subs[i]) && i > 0 {
        assert field in FieldsOf(subs[1..][i - 1]);
      }
    }
  }

  /** `_fields_used`: collects the fields in nested loops. */
  method FieldsUsed(c: Clause) returns (fields: set<string>)
    ensures fields == FieldsOf(c)
    decreases c
  {
    fields := {};
    for i := 0 to |c.entries|
      invariant fields + FieldsOfEntries(c.entries[i..]) == FieldsOf(c)
    {
      var e := c.entries[i];
      assert c.entries[i..][0] == e && c.entries[i..][1..] == c.entries[i + 1..];
      match e
      case Test(key, _) =>
        if key != "any_of" && key != "all_of" {
          fields := fields + {HelperSplitOp(key).0};
        }
      case _ =>
        var subs := e.subs;
        ghost var before := fields;
        for j := 0 to |subs|
          invariant fields + FieldsOfSubs(subs[j..]) == before + FieldsOfSubs(subs)
        {
          assert subs[j..][0] == subs[j] && subs[j..][1..] == subs[j + 1..];
          assert subs[j] < e;
          var more := FieldsUsed(subs[j]);
          fields := fields + more;
        }
    }
  }

  ghost predicate Agree(left: Event, right: Event, fields: set<string>) {
    forall f <- fields :: Get(left, f) == Get(right, f)
  }

  /** A verdict depends only on the fields the clause names. */
  lemma {:induction false} Locality(py: Python, c: Clause, left: Event, right: Event)
    requires Agree(left, right, FieldsOf(c))
    ensures EvalClause(py, c, left) == EvalClause(py, c, right)
    decreases c, 0
  {
    LocalityEntries(py, c.entries, left, right);
  }

  lemma {:induction false} LocalityEntries(py: Python, entries: seq<Entry>, left: Event, right: Event)
    requires Agree(left, right, FieldsOfEntries(entries))
    ensures EvalEntries(py, entries, left) == EvalEntries(py, entries, right)
    decreases entries, 0
  {
    if entries != [] {
      assert FieldsOfEntries(entries) == FieldsOfEntry(entries[0]) + FieldsOfEntries(entries[1..]);
      LocalityEntry(py, entries[0], left, right);
      LocalityEntries(py, entries[1..], left, right);
    }
  }

  lemma {:induction false} LocalityEntry(py: Python, e: Entry, left: Event, right: Event)
    requires Agree(left, right, FieldsOfEntry(e))
    ensures EvalEntry(py, e, left) == EvalEntry(py, e, right)
    decreases e, 1
  {
    match e
    case AnyOf(subs) => LocalitySubs(py, subs, left, right);
    case AllOf(subs) => LocalitySubs(py, subs, left, right);
    case Test(key, _) => SplitOpReads(key);
  }

  lemma {:induction false} LocalitySubs(py: Python, subs: seq<Clause>, left: Event, right: Event)
    requires Agree(left, right, FieldsOfSubs(subs))
    ensures EvalAny(py, subs, left) == EvalAny(py, subs, right)
    ensures EvalAll(py, subs, left) == EvalAll(py, subs, right)
    decreases subs, 0
  {
    if subs != [] {
      Locality(py, subs[0], left, right);
      LocalitySubs(py, subs[1..], left, right);
    }
  }

  // ----- exceptions -----

  /** A test no value can make raise. */
  predicate WellTypedTest(op: Op, expected: Value) {
    match op
    case Gt | Gte | Lt | Lte => NumberOf(expected).Some?
    case ContainsAny | ContainsAll => Iterate(expected).Some?
    case _ => true
  }

  /** A test can raise exactly when its operand has the wrong type. */
  lemma RaisesExactly(py: Python, op: Op, expected: Value)
    ensures WellTypedTest(op, expected) <==> forall actual :: Check(py, op, expected, actual) != Raises
  {
    if !WellTypedTest(op, expected) {
      assert Check(py, op, expected, Num(0.0)) == Raises;
    }
  }

  predicate WellTypedEntry(e: Entry)
    decreases e, 1
  {
    match e
    case AnyOf(subs) => forall i :: 0 <= i < |subs| ==> WellTyped(subs[i])
    case AllOf(subs) => forall i :: 0 <= i < |subs| ==> WellTyped(subs[i])
    case Test(key, expected) =>
      if key in {"any_of", "all_of"} then expected.List? ==> expected.items == []
      else WellTypedTest(SplitOp(key).1, expected)
  }

  predicate WellTyped(c: Clause)
    decreases c, 0
  {
    forall i :: 0 <= i < |c.entries| ==> WellTypedEntry(c.entries[i])
  }

  // ----- meaning -----

  /** What a clause says of an event: every item holds, in no particular order. */
  ghost predicate Holds(py: Python, c: Clause, event: Event)
    decreases c, 0
  {
    forall i :: 0 <= i < |c.entries| ==> HoldsEntry(py, c.entries[i], event)
  }

  ghost predicate HoldsEntry(py: Python, e: Entry, event: Event)
    decreases e, 1
  {
    match e
    case AnyOf(subs) => exists i :: 0 <= i < |subs| && Holds(py, subs[i], event)
    case AllOf(subs) => forall i :: 0 <= i < |subs| ==> Holds(py, subs[i], event)
    case Test(key, expected) =>
      if key in {"any_of", "all_of"} then key == "all_of" && expected == List([])
      else Check(py, SplitOp(key).1, expected, Get(event, SplitOp(key).0)) == Yes
  }

  /** On well-typed clauses the short-circuiting evaluator never raises and decides the meaning. */
  lemma {:induction false} EvalDecidesMeaning(py: Python, c: Clause, event: Event)
    requires WellTyped(c)
    ensures EvalClause(py, c, event) == ToVerdict(Holds(py, c, event))
    decreases c, 0
  {
    EvalEntriesMeaning(py, c.entries, event);
  }

  lemma {:induction false} EvalEntriesMeaning(py: Python, entries: seq<Entry>, event: Event)
    requires forall i :: 0 <= i < |entries| ==> WellTypedEntry(entries[i])
    ensures EvalEntries(py, entries, event)
            == ToVerdict(forall i :: 0 <= i < |entries| ==> HoldsEntry(py, entries[i], event))
    decreases entries, 0
  {
    if entries != [] {
      EvalEntryMeaning(py, entries[0], event);
      EvalEntriesMeaning(py, entries[1..], event);
      assert forall i :: 0 <= i < |entries| ==> i == 0 || entries[i] == entries[1..][i - 1];
    }
  }

  lemma {:induction false} EvalEntryMeaning(py: Python, e: Entry, event: Event)
    requires WellTypedEntry(e)
    ensures EvalEntry(py, e, event) == ToVerdict(HoldsEntry(py, e, event))
    decreases e, 1
  {
    match e
    case AnyOf(subs) => EvalSubsMeaning(py, subs, event);
    case AllOf(subs) => EvalSubsMeaning(py, subs, event);
    case Test(key, expected) =>
      if key !in {"any_of", "all_of"} {
        RaisesExactly(py, SplitOp(key).1, expected);
      }
  }

  lemma {:induction false} EvalSubsMeaning(py: Python, subs: seq<Clause>, event: Event)
    requires forall i :: 0 <= i < |subs| ==> WellTyped(subs[i])
    ensures EvalAny(py, subs, event) == ToVerdict(exists i :: 0 <= i < |subs| && Holds(py, subs[i], event))
    ensures EvalAll(py, subs, event) == ToVerdict(forall i :: 0 <= i < |subs| ==> Holds(py, subs[i], event))
    decreases subs, 0
  {
    if subs != [] {
      EvalDecidesMeaning(py, subs[0], event);
      EvalSubsMeaning(py, subs[1..], event);
      assert forall i :: 0 <= i < |subs| ==> i == 0 || subs[i] == subs[1..][i - 1];
      assert forall i :: 0 <= i < |subs| - 1 ==> subs[1..][i] == subs[i + 1];
    }
  }

  // ----- order of keys -----

  /** The same items up to order and repetition, at every level. */
  ghost predicate Reordered(c: Clause, d: Clause)
    decreases c, d, 0
  {
    && (forall e <- c.entries :: FoundIn(e, d.entries))
    && (forall f <- d.entries :: ComesFrom(c.entries, f))
  }

  ghost predicate FoundIn(e: Entry, items: seq<Entry>)
    decreases e, items, 2
  {
    exists f :: f in items && ReorderedEntry(e, f)
  }

  ghost predicate ComesFrom(items: seq<Entry>, f: Entry)
    decreases items, f, 2
  {
    exists e :: e in items && ReorderedEntry(e, f)
  }

  ghost predicate ReorderedEntry(e: Entry, f: Entry)
    decreases e, f, 1
  {
    match (e, f)
    case (AnyOf(left), AnyOf(right)) => SameSubs(left, right)
    case (AllOf(left), AllOf(right)) => SameSubs(left, right)
    case (Test(_, _), Test(_, _)) => e == f
    case _ => false
  }

  ghost predicate SameSubs(left: seq<Clause>, right: seq<Clause>)
    decreases left, right, 0
  {
    && (forall c <- left :: SubFoundIn(c, right))
    && (forall d <- right :: SubComesFrom(left, d))
  }

  ghost predicate SubFoundIn(c: Clause, subs: seq<Clause>)
    decreases c, subs, 2
  {
    exists d :: d in subs && Reordered(c, d)
  }

  ghost predicate SubComesFrom(subs: seq<Clause>, d: Clause)
    decreases subs, d, 2
  {
    exists c :: c in subs && Reordered(c, d)
  }

  /** Reordering keys and sub-clauses at any depth leaves the verdict alone. */
  lemma OrderIrrelevant(py: Python, c: Clause, d: Clause, event: Event)
    requires WellTyped(c) && WellTyped(d) && Reordered(c, d)
    ensures Matches(py, c, event) == Matches(py, d, event)
  {
    EvalDecidesMeaning(py, c, event);
    EvalDecidesMeaning(py, d, event);
    MeaningUnordered(py, c, d, event);
  }

  lemma {:induction false} MeaningUnordered(py: Python, c: Clause, d: Clause, event: Event)
    requires Reordered(c, d)
    ensures Holds(py, c, event) <==> Holds(py, d, event)
    decreases c, 0
  {
    if Holds(py, c, event) {
      forall j | 0 <= j < |d.entries| ensures HoldsEntry(py, d.entries[j], event) {
        assert ComesFrom(c.entries, d.entries[j]);
        var e :| e in c.entries && ReorderedEntry(e, d.entries[j]);
        EntryMeaningUnordered(py, e, d.entries[j], event);
      }
    }
    if Holds(py, d, event) {
      forall i | 0 <= i < |c.entries| ensures HoldsEntry(py, c.entries[i], event) {
        assert FoundIn(c.entries[i], d.entries);
        var f :| f in d.entries && ReorderedEntry(c.entries[i], f);
        EntryMeaningUnordered(py, c.entries[i], f, event);
      }
    }
  }

  lemma {:induction false} EntryMeaningUnordered(py: Python, e: Entry, f: Entry, event: Event)
    requires ReorderedEntry(e, f)
    ensures HoldsEntry(py, e, event) <==> HoldsEntry(py, f, event)
    decreases e, 1
  {
    if !e.Test? {
      forall c | c in e.subs ensures exists d :: d in f.subs && (Holds(py, c, event) <==> Holds(py, d, event)) {
        assert SubFoundIn(c, f.subs);
        var d :| d in f.subs && Reordered(c, d);
        MeaningUnordered(py, c, d, event);
      }
      forall d | d in f.subs ensures exists c :: c in e.subs && (Holds(py, c, event) <==> Holds(py, d, event)) {
        assert SubComesFrom(e.subs, d);
        var c :| c in e.subs && Reordered(c, d);
        MeaningUnordered(py, c, d, event);
      }
    }
  }

  // ----- splitting -----

  /** A clause matches exactly when each of its items does, even where items may raise. */
  lemma {:induction false} MatchesEachItem(py: Python, entries: seq<Entry>, event: Event)
    ensures EvalEntries(py, entries, event) == Yes
            <==> forall i :: 0 <= i < |entries| ==> EvalEntry(py, entries[i], event) == Yes
  {
    if entries != [] {
      MatchesEachItem(py, entries[1..], event);
      assert forall i :: 0 <= i < |entries| ==> i == 0 || entries[i] == entries[1..][i - 1];
      assert forall i :: 0 <= i < |entries| - 1 ==> entries[1..][i] == entries[i + 1];
    }
  }

  /** A clause cut in two is the conjunction of its parts: the second part is reached,
      and can raise, only where the first is true. */
  lemma MatchesSplit(py: Python, left: seq<Entry>, right: seq<Entry>, event: Event)
    ensures Matches(py, Clause(left + right), event)
            == if Matches(py, Clause(left), event) == Yes then Matches(py, Clause(right), event)
               else Matches(py, Clause(left), event)
  {
    EntriesSplit(py, left, right, event);
  }

  lemma {:induction false} EntriesSplit(py: Python, left: seq<Entry>, right: seq<Entry>, event: Event)
    ensures EvalEntries(py, left + right, event)
            == if EvalEntries(py, left, event) == Yes then EvalEntries(py, right, event)
               else EvalEntries(py, left, event)
  {
    if left == [] {
      assert left + right == right;
    } else {
      assert (left + right)[0] == left[0] && (left + right)[1..] == left[1..] + right;
      EntriesSplit(py, left[1..], right, event);
    }
  }

  /** A false item makes a well-typed clause false wherever it stands. */
  lemma FalseItemDecides(py: Python, c: Clause, event: Event, i: nat)
    requires i < |c.entries| && EvalEntry(py, c.entries[i], event) == No
    ensures Matches(py, c, event) != Yes
    ensures WellTyped(c) ==> Matches(py, c, event) == No
  {
    MatchesEachItem(py, c.entries, event);
    if WellTyped(c) {
      EvalDecidesMeaning(py, c, event);
    }
  }
}
