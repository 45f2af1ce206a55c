/**
 The numeric half of the field composer: the ends it derives from a list of
 bounds, the value it picks, and exactly when that value meets every bound.
 */
module Intervals {
  import opened Wrappers
  import opened Values
  import opened Operators
  import opened RuleEngine

  /** One `(op, expected)` pair collected for a field. */
  datatype Constraint = Constraint(op: Op, expected: Value)

  predicate IsBound(c: Constraint) {
    c.op in {Gt, Gte, Lt, Lte}
  }

  predicate IsNumericBound(c: Constraint) {
    IsBound(c) && NumberOf(c.expected).Some?
  }

  /** `all(isinstance(exp, (int, float)) ...)` over collected bounds. */
  predicate AllNumeric(nums: seq<Constraint>) {
    forall i :: 0 <= i < |nums| ==> IsNumericBound(nums[i])
  }

  /** `float(exp)` */
  function BoundOf(c: Constraint): real
    requires IsNumericBound(c)
  {
    NumberOf(c.expected).value
  }

  /** The lower end, with None for minus infinity: strict bounds count one higher. */
  function LowerEnd(nums: seq<Constraint>): (lo: Option<real>)
    requires AllNumeric(nums)
  {
    if nums == [] then None
    else
      var rest, c := LowerEnd(nums[..|nums| - 1]), nums[|nums| - 1];
      var bound := BoundOf(c);
      if c.op == Gt then AtLeast(rest, bound + 1.0)
      else if c.op == Gte then AtLeast(rest, bound)
      else rest
  }

  /** The upper end, with None for plus infinity: strict bounds count one lower. */
  function UpperEnd(nums: seq<Constraint>): (hi: Option<real>)
    requires AllNumeric(nums)
  {
    if nums == [] then None
    else
      var rest, c := UpperEnd(nums[..|nums| - 1]), nums[|nums| - 1];
      var bound := BoundOf(c);
      if c.op == Lt then AtMost(rest, bound - 1.0)
      else if c.op == Lte then AtMost(rest, bound)
      else rest
  }

  /** `max(lo, x)` */
  function AtLeast(lo: Option<real>, x: real): Option<real> {
    Some(if lo.Some? && lo.value > x then lo.value else x)
  }

  /** `min(hi, x)` */
  function AtMost(hi: Option<real>, x: real): Option<real> {
    Some(if hi.Some? && hi.value < x then hi.value else x)
  }

  /** The value picked between two ends. */
  function Between(lo: Option<real>, hi: Option<real>): real {
    match (lo, hi)
    case (None, None) => 0.0
    case (None, Some(h)) => h - 1.0
    case (Some(l), None) => l + 1.0
    case (Some(l), Some(h)) => (l + h) / 2.0
  }

  function Picked(nums: seq<Constraint>): real
    requires AllNumeric(nums)
  {
    Between(LowerEnd(nums), UpperEnd(nums))
  }

  // ----- meeting bounds -----

  predicate Meets(v: real, c: Constraint)
    requires IsNumericBound(c)
  {
    Compare(c.op, Num(v), c.expected) == Yes
  }

  predicate MeetsAll(v: real, nums: seq<Constraint>)
    requires AllNumeric(nums)
  {
    forall i :: 0 <= i < |nums| ==> Meets(v, nums[i])
  }

  predicate IsInclusive(c: Constraint) {
    c.op in {Gte, Lte}
  }

  /** An inclusive bound leaves room for the middle of `lo` and `hi`. */
  predicate LeavesMiddle(c: Constraint, lo: real, hi: real)
    requires IsNumericBound(c)
  {
    (c.op == Gte ==> 2.0 * BoundOf(c) <= lo + hi) && (c.op == Lte ==> lo + hi <= 2.0 * BoundOf(c))
  }

  /** When the picked value works: an end is missing, or the ends do not cross, or they
      cross by less than two and no inclusive bound lies between them on the wrong side
      of the middle. */
  predicate IntervalOk(nums: seq<Constraint>)
    requires AllNumeric(nums)
  {
    var lo, hi := LowerEnd(nums), UpperEnd(nums);
    || lo.None? || hi.None?
    || lo.value <= hi.value
    || (&& lo.value - hi.value < 2.0
        && forall i :: 0 <= i < |nums| ==> LeavesMiddle(nums[i], lo.value, hi.value))
  }

  /** How a lower bound limits the lower end. */
  predicate BelowLowerEnd(lo: real, c: Constraint)
    requires IsNumericBound(c)
  {
    var bound := BoundOf(c);
    (c.op == Gt ==> bound + 1.0 <= lo) && (c.op == Gte ==> bound <= lo)
  }

  predicate AttainsLowerEnd(lo: real, c: Constraint)
    requires IsNumericBound(c)
  {
    var bound := BoundOf(c);
    (c.op == Gt && bound + 1.0 == lo) || (c.op == Gte && bound == lo)
  }

  predicate AboveUpperEnd(hi: real, c: Constraint)
    requires IsNumericBound(c)
  {
    var bound := BoundOf(c);
    (c.op == Lt ==> hi <= bound - 1.0) && (c.op == Lte ==> hi <= bound)
  }

  predicate AttainsUpperEnd(hi: real, c: Constraint)
    requires IsNumericBound(c)
  {
    var bound := BoundOf(c);
    (c.op == Lt && bound - 1.0 == hi) || (c.op == Lte && bound == hi)
  }

  /** The lower end is the greatest adjusted lower bound, and missing only if there is none. */
  lemma {:induction false} LowerEndIsMaximum(nums: seq<Constraint>)
    requires AllNumeric(nums)
    ensures LowerEnd(nums).None? ==> forall i :: 0 <= i < |nums| ==> nums[i].op in {Lt, Lte}
    ensures LowerEnd(nums).Some? ==> forall i :: 0 <= i < |nums| ==> BelowLowerEnd(LowerEnd(nums).value, nums[i])
    ensures LowerEnd(nums).Some? ==> exists i :: 0 <= i < |nums| && AttainsLowerEnd(LowerEnd(nums).value, nums[i])
  {
    if nums != [] {
      var init, last := nums[..|nums| - 1], |nums| - 1;
      LowerEndIsMaximum(init);
      assert forall i :: 0 <= i < last ==> init[i] == nums[i];
      assert forall i :: 0 <= i < |nums| ==> i == last || nums[i] == init[i];
      if LowerEnd(nums).Some? && !AttainsLowerEnd(LowerEnd(nums).value, nums[last]) {
        var i :| 0 <= i < last && AttainsLowerEnd(LowerEnd(init).value, init[i]);
        assert AttainsLowerEnd(LowerEnd(nums).value, nums[i]);
      }
    }
  }

  lemma {:induction false} UpperEndIsMinimum(nums: seq<Constraint>)
    requires AllNumeric(nums)
    ensures UpperEnd(nums).None? ==> forall i :: 0 <= i < |nums| ==> nums[i].op in {Gt, Gte}
    ensures UpperEnd(nums).Some? ==> forall i :: 0 <= i < |nums| ==> AboveUpperEnd(UpperEnd(nums).value, nums[i])
    ensures UpperEnd(nums).Some? ==> exists i :: 0 <= i < |nums| && AttainsUpperEnd(UpperEnd(nums).value, nums[i])
  {
    if nums != [] {
      var init, last := nums[..|nums| - 1], |nums| - 1;
      UpperEndIsMinimum(init);
      assert forall i :: 0 <= i < last ==> init[i] == nums[i];
      assert forall i :: 0 <= i < |nums| ==> i == last || nums[i] == init[i];
      if UpperEnd(nums).Some? && !AttainsUpperEnd(UpperEnd(nums).value, nums[last]) {
        var i :| 0 <= i < last && AttainsUpperEnd(UpperEnd(init).value, init[i]);
        assert AttainsUpperEnd(UpperEnd(nums).value, nums[i]);
      }
    }
  }

  /** The picked value meets every bound exactly when `IntervalOk` says so. */
  lemma PickedExact(nums: seq<Constraint>)
    requires AllNumeric(nums)
    ensures MeetsAll(Picked(nums), nums) <==> IntervalOk(nums)
  {
    LowerEndIsMaximum(nums);
    UpperEndIsMinimum(nums);
    if LowerEnd(nums).Some? && UpperEnd(nums).Some? {
      var lo, hi := LowerEnd(nums).value, UpperEnd(nums).value;
      if lo - hi >= 2.0 {
        var i :| 0 <= i < |nums| && AttainsLowerEnd(lo, nums[i]);
        assert !Meets(Picked(nums), nums[i]);
      }
    }
  }

  /** With strict bounds only, or inclusive bounds only, the picked value works
      whenever any number does. */
  lemma UnmixedBoundsComplete(nums: seq<Constraint>, solution: real)
    requires AllNumeric(nums)
    requires || (forall i :: 0 <= i < |nums| ==> IsInclusive(nums[i]))
             || (forall i :: 0 <= i < |nums| ==> !IsInclusive(nums[i]))
    requires MeetsAll(solution, nums)
    ensures MeetsAll(Picked(nums), nums)
  {
    LowerEndIsMaximum(nums);
    UpperEndIsMinimum(nums);
    if LowerEnd(nums).Some? && UpperEnd(nums).Some? {
      var i :| 0 <= i < |nums| && AttainsLowerEnd(LowerEnd(nums).value, nums[i]);
      var j :| 0 <= j < |nums| && AttainsUpperEnd(UpperEnd(nums).value, nums[j]);
      assert Meets(solution, nums[i]) && Meets(solution, nums[j]);
    }
    PickedExact(nums);
  }

  predicate IsInteger(x: real) {
    x == x.Floor as real
  }

  /** With integer bounds the picked value works whenever some integer does. */
  lemma IntegerBoundsComplete(nums: seq<Constraint>, solution: int)
    requires AllNumeric(nums) && forall i :: 0 <= i < |nums| ==> IsInteger(BoundOf(nums[i]))
    requires MeetsAll(solution as real, nums)
    ensures MeetsAll(Picked(nums), nums)
  {
    LowerEndIsMaximum(nums);
    UpperEndIsMinimum(nums);
    if LowerEnd(nums).Some? && UpperEnd(nums).Some? {
      var i :| 0 <= i < |nums| && AttainsLowerEnd(LowerEnd(nums).value, nums[i]);
      var j :| 0 <= j < |nums| && AttainsUpperEnd(UpperEnd(nums).value, nums[j]);
      assert Meets(solution as real, nums[i]) && Meets(solution as real, nums[j]);
      var a, b := BoundOf(nums[i]).Floor, BoundOf(nums[j]).Floor;
      assert nums[i].op == Gt ==> a < solution;
      assert nums[j].op == Lt ==> solution < b;
    }
    PickedExact(nums);
  }

  /** A strict pair is solved exactly when it has a solution, even where its ends cross. */
  lemma StrictPairExact(a: real, c: real)
    ensures var pair := [Constraint(Gt, Num(a)), Constraint(Lt, Num(c))];
            MeetsAll(Picked(pair), pair) <==> a < c
  {
    PairPicked(Constraint(Gt, Num(a)), Constraint(Lt, Num(c)));
  }

  /** A half-open pair needs a gap of at least one, though any gap has solutions. */
  lemma HalfOpenPairExact(a: real, c: real)
    ensures var pair := [Constraint(Gte, Num(a)), Constraint(Lt, Num(c))];
            && (MeetsAll(Picked(pair), pair) <==> c - a >= 1.0)
            && ((exists v: real :: MeetsAll(v, pair)) <==> a < c)
  {
    var pair := [Constraint(Gte, Num(a)), Constraint(Lt, Num(c))];
    PairPicked(pair[0], pair[1]);
    if a < c {
      assert MeetsAll(a, pair);
    }
    forall v | MeetsAll(v, pair) ensures a < c {
      assert Meets(v, pair[0]) && Meets(v, pair[1]);
    }
  }

  lemma PairPicked(lower: Constraint, upper: Constraint)
    requires IsNumericBound(lower) && lower.op in {Gt, Gte}
    requires IsNumericBound(upper) && upper.op in {Lt, Lte}
    ensures var lo := BoundOf(lower) + if lower.op == Gt then 1.0 else 0.0;
            var hi := BoundOf(upper) - if upper.op == Lt then 1.0 else 0.0;
            Picked([lower, upper]) == (lo + hi) / 2.0
    ensures MeetsAll(Picked([lower, upper]), [lower, upper])
            <==> Meets(Picked([lower, upper]), lower) && Meets(Picked([lower, upper]), upper)
  {
    var pair := [lower, upper];
    assert pair[..1] == [lower] && [lower][..0] == [];
    assert LowerEnd([]) == None && UpperEnd([]) == None;
    assert LowerEnd([lower]) == AtLeast(None, BoundOf(lower) + if lower.op == Gt then 1.0 else 0.0);
    assert UpperEnd([lower]) == None;
    assert pair[0] == lower && pair[1] == upper;
  }
}
