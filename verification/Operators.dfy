/**
 Clause keys: the two copies of the operator table, the suffix parser over each,
 and why both parse every key the same way.
 */
module Operators {
  import Text

  datatype Op =
    | Eq | PatternMatchAny | NotEndsWithAny | NotContainsAny | PatternMatch
    | NotStartsWith | StartsWithAny | EndsWithAny | ContainsAny | ContainsAll
    | StartsWith | MatchAny | EndsWith | Contains | HasAny | NotIn | Match
    | Gte | Lte | In | Gt | Lt

  /** One row of a table; plain equality has no suffix and no row. */
  datatype Row = Row(suffix: string, op: Op)

  /** The table of the fixture helpers: its rows in source order, and their suffixes. */
  const HELPER_OPS: seq<Op> := [
    PatternMatchAny, NotEndsWithAny, NotContainsAny, PatternMatch, NotStartsWith, StartsWithAny,
    EndsWithAny, ContainsAny, ContainsAll, StartsWith, MatchAny, EndsWith,
    Contains, HasAny, NotIn, Match, Gte, Lte,
    In, Gt, Lt
  ]

  function HelperSuffix(op: Op): string {
    match op
    case Eq => ""
    case PatternMatchAny => "_pattern_match_any"
    case NotEndsWithAny => "_not_endswith_any"
    case NotContainsAny => "_not_contains_any"
    case PatternMatch => "_pattern_match"
    case NotStartsWith => "_not_startswith"
    case StartsWithAny => "_startswith_any"
    case EndsWithAny => "_endswith_any"
    case ContainsAny => "_contains_any"
    case ContainsAll => "_contains_all"
    case StartsWith => "_startswith"
    case MatchAny => "_match_any"
    case EndsWith => "_endswith"
    case Contains => "_contains"
    case HasAny => "_has_any"
    case NotIn => "_not_in"
    case Match => "_match"
    case Gte => "_gte"
    case Lte => "_lte"
    case In => "_in"
    case Gt => "_gt"
    case Lt => "_lt"
  }

  /** The table of the rule engine. Its third column, the condition token, is only printed. */
  const ENGINE_OPS: seq<Op> := [
    PatternMatchAny, NotEndsWithAny, NotContainsAny, PatternMatch, NotStartsWith, StartsWithAny,
    EndsWithAny, ContainsAny, ContainsAll, StartsWith, MatchAny, EndsWith,
    Contains, HasAny, NotIn, Match, Gte, Lte,
    In, Gt, Lt
  ]

  function EngineSuffix(op: Op): string {
    match op
    case Eq => ""
    case PatternMatchAny => "_pattern_match_any"
    case NotEndsWithAny => "_not_endswith_any"
    case NotContainsAny => "_not_contains_any"
    case PatternMatch => "_pattern_match"
    case NotStartsWith => "_not_startswith"
    case StartsWithAny => "_startswith_any"
    case EndsWithAny => "_endswith_any"
    case ContainsAny => "_contains_any"
    case ContainsAll => "_contains_all"
    case StartsWith => "_startswith"
    case MatchAny => "_match_any"
    case EndsWith => "_endswith"
    case Contains => "_contains"
    case HasAny => "_has_any"
    case NotIn => "_not_in"
    case Match => "_match"
    case Gte => "_gte"
    case Lte => "_lte"
    case In => "_in"
    case Gt => "_gt"
    case Lt => "_lt"
  }

  function Rows(ops: seq<Op>, suffix: Op -> string): seq<Row> {
    seq(|ops|, i requires 0 <= i < |ops| => Row(suffix(ops[i]), ops[i]))
  }

  /** `sorted(rows, key=lambda x: -len(x[0]))`: stable, longest suffix first. */
  function LongestFirst(rows: seq<Row>): seq<Row> {
    if rows == [] then [] else InsertByLength(rows[0], LongestFirst(rows[1..]))
  }

  function InsertByLength(row: Row, sorted: seq<Row>): seq<Row> {
    if sorted == [] || |row.suffix| >= |sorted[0].suffix| then [row] + sorted
    else [sorted[0]] + InsertByLength(row, sorted[1..])
  }

  /** The loop of both `split_op` copies over a given table. */
  function SplitWith(rows: seq<Row>, key: string): (string, Op) {
    if rows == [] then (key, Eq)
    else if Text.EndsWith(key, rows[0].suffix) then (key[..|key| - |rows[0].suffix|], rows[0].op)
    else SplitWith(rows[1..], key)
  }

  /** `split_op` of the fixture helpers. */
  function HelperSplitOp(key: string): (string, Op) {
    SplitWith(LongestFirst(Rows(HELPER_OPS, HelperSuffix)), key)
  }

  /** `_split_op` of the rule engine. */
  function SplitOp(key: string): (string, Op) {
    SplitWith(LongestFirst(Rows(ENGINE_OPS, EngineSuffix)), key)
  }

  // ----- what a table must be -----

  /** The rows are exactly those of the operators other than equality. */
  ghost predicate Complete(rows: seq<Row>) {
    forall row: Row :: row in rows <==> row.op != Eq && row.suffix == EngineSuffix(row.op)
  }

  ghost predicate Descending(rows: seq<Row>) {
    forall i, j :: 0 <= i < j < |rows| ==> |rows[i].suffix| >= |rows[j].suffix|
  }

  lemma SuffixDeterminesOp(a: Op, b: Op)
    requires EngineSuffix(a) == EngineSuffix(b)
    ensures a == b
  {
    var s, t := EngineSuffix(a), EngineSuffix(b);
    assert |s| == |t|;
    if |s| > 3 { assert s[1] == t[1] && s[2] == t[2] && s[|s| - 1] == t[|t| - 1]; }
    if |s| == 3 { assert s[1] == t[1]; }
    if |s| == 17 || |s| == 13 { assert s[5] == t[5]; }
  }

  lemma SpellingsAgree(op: Op)
    ensures HelperSuffix(op) == EngineSuffix(op)
  {
  }

  lemma EveryOpListed(op: Op)
    requires op != Eq
    ensures op in HELPER_OPS && op in ENGINE_OPS
  {
  }

  lemma RowsComplete(ops: seq<Op>, suffix: Op -> string)
    requires forall op :: op in ops <==> op != Eq
    requires forall op :: suffix(op) == EngineSuffix(op)
    ensures Complete(Rows(ops, suffix))
  {
    var rows := Rows(ops, suffix);
    forall row: Row | row.op != Eq && row.suffix == EngineSuffix(row.op) ensures row in rows {
      assert row.op in ops;
      var i :| 0 <= i < |ops| && ops[i] == row.op;
      assert rows[i] == row;
    }
    forall row: Row | row in rows ensures row.op != Eq && row.suffix == EngineSuffix(row.op) {
      var i :| 0 <= i < |rows| && rows[i] == row;
      assert ops[i] in ops;
    }
  }

  // ----- sorting a table -----

  lemma {:induction false} InsertByLengthSorts(row: Row, sorted: seq<Row>)
    requires Descending(sorted)
    ensures Descending(InsertByLength(row, sorted))
    ensures forall other :: other in InsertByLength(row, sorted) <==> other == row || other in sorted
  {
    var result := InsertByLength(row, sorted);
    if sorted == [] || |row.suffix| >= |sorted[0].suffix| {
      assert forall other :: other in result <==> other == row || other in sorted;
    } else {
      var tail := InsertByLength(row, sorted[1..]);
      InsertByLengthSorts(row, sorted[1..]);
      assert sorted == [sorted[0]] + sorted[1..];
      assert forall other :: other in result <==> other == sorted[0] || other in tail;
      forall j | 0 <= j < |tail| ensures |sorted[0].suffix| >= |tail[j].suffix| {
        assert tail[j] in tail;
      }
    }
  }

  lemma {:induction false} LongestFirstSorts(rows: seq<Row>)
    ensures Descending(LongestFirst(rows))
    ensures forall row :: row in LongestFirst(rows) <==> row in rows
  {
    if rows != [] {
      LongestFirstSorts(rows[1..]);
      InsertByLengthSorts(rows[0], LongestFirst(rows[1..]));
      assert rows == [rows[0]] + rows[1..];
    }
  }

  // ----- what parsing means -----

  /** `(field, op)` is the reading of `key` by its longest operator suffix. */
  ghost predicate ReadsAs(key: string, field: string, op: Op) {
    && key == field + EngineSuffix(op)
    && forall other: Op :: Text.EndsWith(key, EngineSuffix(other)) ==> |EngineSuffix(other)| <= |EngineSuffix(op)|
  }

  /** Among all suffixes only one can be the longest that fits, so a key has one reading. */
  lemma ReadingUnique(key: string, f: string, p: Op, g: string, q: Op)
    requires ReadsAs(key, f, p) && ReadsAs(key, g, q)
    ensures f == g && p == q
  {
    Text.ConcatEndsWith(f, EngineSuffix(p));
    Text.ConcatEndsWith(g, EngineSuffix(q));
    assert |EngineSuffix(p)| == |EngineSuffix(q)|;
    assert EngineSuffix(p) == key[|f|..] == EngineSuffix(q);
    SuffixDeterminesOp(p, q);
  }

  /** Any table with all rows, longest first, parses a key to its reading:
      the order among rows of equal length never matters. */
  lemma SplitIsReading(rows: seq<Row>, key: string)
    requires Complete(rows) && Descending(rows)
    ensures ReadsAs(key, SplitWith(rows, key).0, SplitWith(rows, key).1)
  {
    var first := SplitFindsFirst(rows, key);
    if first == |rows| {
      NoRowFits(rows, key);
      assert key == key + "";
    } else {
      var row := rows[first];
      assert row in rows;
      assert key == key[..|key| - |row.suffix|] + key[|key| - |row.suffix|..];
      forall other: Op | Text.EndsWith(key, EngineSuffix(other))
        ensures |EngineSuffix(other)| <= |row.suffix|
      {
        FirstIsLongest(rows, key, first, other);
      }
    }
  }

  lemma NoRowFits(rows: seq<Row>, key: string)
    requires Complete(rows) && forall j :: 0 <= j < |rows| ==> !Text.EndsWith(key, rows[j].suffix)
    ensures forall other: Op :: Text.EndsWith(key, EngineSuffix(other)) ==> other == Eq
  {
    forall other: Op | other != Eq ensures !Text.EndsWith(key, EngineSuffix(other)) {
      var row := Row(EngineSuffix(other), other);
      assert row in rows;
      var j :| 0 <= j < |rows| && rows[j] == row;
      assert !Text.EndsWith(key, rows[j].suffix);
    }
  }

  lemma FirstIsLongest(rows: seq<Row>, key: string, first: nat, other: Op)
    requires Complete(rows) && Descending(rows) && first < |rows|
    requires forall j :: 0 <= j < first ==> !Text.EndsWith(key, rows[j].suffix)
    requires Text.EndsWith(key, EngineSuffix(other))
    ensures |EngineSuffix(other)| <= |rows[first].suffix|
  {
    if other != Eq {
      var row := Row(EngineSuffix(other), other);
      assert row in rows;
      var j :| 0 <= j < |rows| && rows[j] == row;
      assert j >= first;
    }
  }

  /** The row that decides, or the number of rows if none fits. */
  lemma {:induction false} SplitFindsFirst(rows: seq<Row>, key: string) returns (first: nat)
    ensures first <= |rows|
    ensures forall j :: 0 <= j < first ==> !Text.EndsWith(key, rows[j].suffix)
    ensures first == |rows| ==> SplitWith(rows, key) == (key, Eq)
    ensures first < |rows| ==>
              && Text.EndsWith(key, rows[first].suffix)
              && SplitWith(rows, key) == (key[..|key| - |rows[first].suffix|], rows[first].op)
  {
    if rows == [] || Text.EndsWith(key, rows[0].suffix) {
      first := 0;
    } else {
      var rest := SplitFindsFirst(rows[1..], key);
      first := rest + 1;
      forall j | 0 <= j < first ensures !Text.EndsWith(key, rows[j].suffix) {
        if j > 0 { assert rows[j] == rows[1..][j - 1]; }
      }
    }
  }

  // ----- the two parsers -----

  /** Both parsers return the one reading of the key. */
  lemma SplitOpReads(key: string)
    ensures ReadsAs(key, SplitOp(key).0, SplitOp(key).1)
    ensures HelperSplitOp(key) == SplitOp(key)
  {
    forall op: Op ensures op in HELPER_OPS <==> op != Eq
                  ensures op in ENGINE_OPS <==> op != Eq
                  ensures HelperSuffix(op) == EngineSuffix(op)
    {
      if op != Eq { EveryOpListed(op); }
      SpellingsAgree(op);
    }
    var engine, helper := Rows(ENGINE_OPS, EngineSuffix), Rows(HELPER_OPS, HelperSuffix);
    RowsComplete(ENGINE_OPS, EngineSuffix);
    RowsComplete(HELPER_OPS, HelperSuffix);
    LongestFirstSorts(engine);
    LongestFirstSorts(helper);
    SplitIsReading(LongestFirst(engine), key);
    SplitIsReading(LongestFirst(helper), key);
    ReadingUnique(key, SplitOp(key).0, SplitOp(key).1, HelperSplitOp(key).0, HelperSplitOp(key).1);
  }

  /** Distinct keys never parse to the same field and operator. */
  lemma SplitOpInjective(a: string, b: string)
    requires SplitOp(a) == SplitOp(b)
    ensures a == b
  {
    SplitOpReads(a);
    SplitOpReads(b);
  }

  /** There is no `not_startswith_any`: such a key tests a field whose name ends in `_not`. */
  lemma NotStartsWithAnyIsNoOperator(field: string)
    ensures SplitOp(field + "_not_startswith_any") == (field + "_not", StartsWithAny)
  {
    var key := field + "_not_startswith_any";
    SplitOpReads(key);
    NotStartsWithAnyReading(field);
    ReadingUnique(key, SplitOp(key).0, SplitOp(key).1, field + "_not", StartsWithAny);
  }

  lemma NotStartsWithAnyReading(field: string)
    ensures ReadsAs(field + "_not_startswith_any", field + "_not", StartsWithAny)
  {
    assert "_not_startswith_any" == "_not" + EngineSuffix(StartsWithAny);
    assert field + "_not_startswith_any" == (field + "_not") + EngineSuffix(StartsWithAny);
    forall other: Op | Text.EndsWith(field + "_not_startswith_any", EngineSuffix(other))
      ensures |EngineSuffix(other)| <= |EngineSuffix(StartsWithAny)|
    {
      LongerSuffixesDoNotFit(field, other);
    }
  }

  lemma LongerSuffixesDoNotFit(field: string, other: Op)
    ensures |EngineSuffix(other)| > 15 ==> !Text.EndsWith(field + "_not_startswith_any", EngineSuffix(other))
  {
    var ending := "_not_startswith_any";
    var s := EngineSuffix(other);
    if |s| > 15 {
      var at := |ending| - |s|;
      assert (field + ending)[|field| + at] == ending[at] != s[0];
    }
  }
}
