/**
 Nearest-rank percentiles of a sample, without rounding, and what they mean in terms
 of how much of the sample lies at or below them.
 */
module Percentile {
  import opened Sorting

  predicate RealLe(a: real, b: real) {
    a <= b
  }

  /** `math.ceil` */
  function Ceil(x: real): int {
    -((-x).Floor)
  }

  lemma CeilBounds(x: real)
    ensures Ceil(x) as real >= x > (Ceil(x) - 1) as real
  {
  }

  /** The share of a sample of `n` values that `pct` per cent stand for. */
  function Share(pct: real, n: nat): real {
    pct / 100.0 * n as real
  }

  lemma ShareInside(pct: real, n: nat)
    requires 0.0 < pct < 100.0 && n > 0
    ensures 0.0 < Share(pct, n) < n as real
  {
    Scale(pct / 100.0, 1.0, n as real);
    Scale(0.0, pct / 100.0, n as real);
  }

  lemma Scale(a: real, b: real, n: real)
    requires a < b && n > 0.0
    ensures a * n < b * n
  {
    assert (b - a) * n > 0.0;
  }

  lemma ShareMonotone(p: real, q: real, n: nat)
    requires p <= q
    ensures Share(p, n) <= Share(q, n)
  {
    if p < q && n > 0 {
      Scale(p / 100.0, q / 100.0, n as real);
    }
  }

  /** The position, counted from one, of the nearest-rank percentile. */
  function Rank(pct: real, n: nat): int {
    var r := Ceil(Share(pct, n));
    if r > 1 then r else 1
  }

  lemma RankInRange(pct: real, n: nat)
    requires 0.0 < pct < 100.0 && n > 0
    ensures 1 <= Rank(pct, n) <= n
    ensures Rank(pct, n) as real >= Share(pct, n) > (Rank(pct, n) - 1) as real
  {
    ShareInside(pct, n);
    CeilBounds(Share(pct, n));
  }

  lemma SortKeepsLength(values: seq<real>)
    ensures |Sort(RealLe, values)| == |values|
    ensures SortedBy(RealLe, Sort(RealLe, values))
    ensures multiset(Sort(RealLe, values)) == multiset(values)
  {
    SortSorts(RealLe, values);
    assert |multiset(Sort(RealLe, values))| == |multiset(values)|;
  }

  /** `_percentile` */
  function NearestRank(values: seq<real>, pct: real): real {
    if values == [] then 0.0
    else
      SortKeepsLength(values);
      var sorted := Sort(RealLe, values);
      if pct <= 0.0 then sorted[0]
      else if pct >= 100.0 then sorted[|sorted| - 1]
      else
        RankInRange(pct, |sorted|);
        sorted[Rank(pct, |sorted|) - 1]
  }

  // ----- counting -----

  function CountAtMost(values: seq<real>, v: real): nat {
    |Filter((x: real) => x <= v, values)|
  }

  function CountBelow(values: seq<real>, v: real): nat {
    |Filter((x: real) => x < v, values)|
  }

  lemma {:induction false} CountsUnordered(p: real -> bool, s: seq<real>, t: seq<real>)
    requires multiset(s) == multiset(t)
    ensures |Filter(p, s)| == |Filter(p, t)|
  {
    forall x ensures multiset(Filter(p, s))[x] == multiset(Filter(p, t))[x] {
      FilterMultiset(p, s, x);
      FilterMultiset(p, t, x);
    }
    assert multiset(Filter(p, s)) == multiset(Filter(p, t));
    assert |multiset(Filter(p, s))| == |Filter(p, s)| && |multiset(Filter(p, t))| == |Filter(p, t)|;
  }

  /** In a sorted sample at least `k + 1` values are at most the one at `k`. */
  lemma AtMostPosition(sorted: seq<real>, k: nat)
    requires SortedBy(RealLe, sorted) && k < |sorted|
    ensures CountAtMost(sorted, sorted[k]) >= k + 1
  {
    var v := sorted[k];
    var atMost := (x: real) => x <= v;
    var left, right := sorted[..k + 1], sorted[k + 1..];
    assert sorted == left + right;
    FilterConcat(atMost, left, right);
    forall x | x in left ensures atMost(x) {
      var i :| 0 <= i < |left| && left[i] == x;
      assert i < k ==> RealLe(sorted[i], sorted[k]);
    }
    FilterAll(atMost, left);
  }

  /** In a sorted sample at most `k` values are below the one at `k`. */
  lemma BelowPosition(sorted: seq<real>, k: nat)
    requires SortedBy(RealLe, sorted) && k < |sorted|
    ensures CountBelow(sorted, sorted[k]) <= k
  {
    var v := sorted[k];
    var below := (x: real) => x < v;
    var start, end := sorted[..k], sorted[k..];
    assert sorted == start + end;
    FilterConcat(below, start, end);
    forall x | x in end ensures !below(x) {
      var i :| 0 <= i < |end| && end[i] == x;
      assert i > 0 ==> RealLe(sorted[k], sorted[k + i]);
    }
    FilterNone(below, end);
    FilterContents(below, start);
  }

  lemma {:induction false} CountMonotone(s: seq<real>, u: real, v: real)
    requires u < v
    ensures CountAtMost(s, u) <= CountBelow(s, v)
  {
    if s != [] {
      CountMonotone(s[1..], u, v);
    }
  }

  /** `v` is a sample value with at least the share `q` of the sample at or below it, and less than that below it. */
  ghost predicate IsQuantile(values: seq<real>, q: real, v: real) {
    v in values && CountAtMost(values, v) as real >= q && (CountBelow(values, v) as real) < q
  }

  /** The percentile is the one sample value with `pct` per cent of the sample at or below it
      but not below it. */
  lemma NearestRankExact(values: seq<real>, pct: real, v: real)
    requires values != [] && 0.0 < pct < 100.0
    ensures v == NearestRank(values, pct) <==> IsQuantile(values, Share(pct, |values|), v)
  {
    var sorted := Sort(RealLe, values);
    SortKeepsLength(values);
    RankInRange(pct, |values|);
    var k := Rank(pct, |values|) - 1;
    var w := sorted[k];
    AtMostPosition(sorted, k);
    BelowPosition(sorted, k);
    CountsUnordered((x: real) => x <= w, sorted, values);
    CountsUnordered((x: real) => x < w, sorted, values);
    assert w in multiset(sorted);
    assert IsQuantile(values, Share(pct, |values|), w);
    if IsQuantile(values, Share(pct, |values|), v) {
      QuantileUnique(values, Share(pct, |values|), v, w);
    }
  }

  lemma QuantileUnique(values: seq<real>, q: real, v: real, w: real)
    requires IsQuantile(values, q, v) && IsQuantile(values, q, w)
    ensures v == w
  {
    if v < w {
      CountMonotone(values, v, w);
    } else if w < v {
      CountMonotone(values, w, v);
    }
  }

  /** Higher percentiles are never smaller, over the whole range of `pct`. */
  lemma NearestRankMonotone(values: seq<real>, p: real, q: real)
    requires p <= q
    ensures NearestRank(values, p) <= NearestRank(values, q)
  {
    if values != [] {
      var sorted := Sort(RealLe, values);
      SortKeepsLength(values);
      ShareMonotone(p, q, |values|);
      if 0.0 < p < 100.0 { RankInRange(p, |values|); }
      if 0.0 < q < 100.0 { RankInRange(q, |values|); }
      var i, j := PositionOf(p, |values|), PositionOf(q, |values|);
      assert i <= j;
      assert i < j ==> RealLe(sorted[i], sorted[j]);
    }
  }

  /** The index `_percentile` reads in the sorted sample. */
  function PositionOf(pct: real, n: nat): int
    requires n > 0
  {
    if pct <= 0.0 then 0 else if pct >= 100.0 then n - 1 else Rank(pct, n) - 1
  }

  /** The percentile does not depend on the order of the sample. */
  lemma NearestRankUnordered(values: seq<real>, other: seq<real>, pct: real)
    requires multiset(values) == multiset(other)
    ensures NearestRank(values, pct) == NearestRank(other, pct)
  {
    SortUnordered(values, other);
    assert |values| == |multiset(values)| == |multiset(other)| == |other|;
  }

  lemma SortUnordered(values: seq<real>, other: seq<real>)
    requires multiset(values) == multiset(other)
    ensures Sort(RealLe, values) == Sort(RealLe, other)
  {
    SortKeepsLength(values);
    SortKeepsLength(other);
    SortedUnique(RealLe, Sort(RealLe, values), Sort(RealLe, other));
  }

  // ----- summaries -----

  datatype Summary = Summary(count: nat, min: real, max: real, p50: real, p95: real, p99: real)

  predicate IsMin(values: seq<real>, m: real) {
    m in values && forall x <- values :: m <= x
  }

  predicate IsMax(values: seq<real>, m: real) {
    m in values && forall x <- values :: x <= m
  }

  function MinOf(values: seq<real>): (m: real)
    requires values != []
    ensures IsMin(values, m)
  {
    if |values| == 1 then values[0]
    else
      var rest := MinOf(values[1..]);
      assert values == [values[0]] + values[1..];
      if values[0] <= rest then values[0] else rest
  }

  function MaxOf(values: seq<real>): (m: real)
    requires values != []
    ensures IsMax(values, m)
  {
    if |values| == 1 then values[0]
    else
      var rest := MaxOf(values[1..]);
      assert values == [values[0]] + values[1..];
      if values[0] >= rest then values[0] else rest
  }

  /** `_summarise` before rounding; mean and median are left out. */
  function Summarise(values: seq<real>): Summary {
    if values == [] then Summary(0, 0.0, 0.0, 0.0, 0.0, 0.0)
    else Summary(|values|, MinOf(values), MaxOf(values),
                 NearestRank(values, 50.0), NearestRank(values, 95.0), NearestRank(values, 99.0))
  }

  /** At the ends of the range the percentile is the minimum or the maximum, and zero without a sample. */
  lemma EdgePercentiles(values: seq<real>, pct: real)
    ensures values == [] ==> NearestRank(values, pct) == 0.0
    ensures values != [] && pct <= 0.0 ==> IsMin(values, NearestRank(values, pct))
    ensures values != [] && pct >= 100.0 ==> IsMax(values, NearestRank(values, pct))
  {
    if values != [] {
      var sorted := Sort(RealLe, values);
      SortKeepsLength(values);
      forall x ensures x in sorted <==> x in values {
        assert x in sorted <==> x in multiset(sorted);
      }
      forall x | x in values ensures sorted[0] <= x <= sorted[|sorted| - 1] {
        var i :| 0 <= i < |sorted| && sorted[i] == x;
        assert i > 0 ==> RealLe(sorted[0], sorted[i]);
        assert i < |sorted| - 1 ==> RealLe(sorted[i], sorted[|sorted| - 1]);
      }
    }
  }

  /** A summary counts its sample and has its minimum, its maximum, and the values with half, with
      95 and with 99 hundredths of the sample at or below them. */
  lemma SummaryExact(values: seq<real>)
    ensures var s := Summarise(values);
            && s.count == |values|
            && (values == [] ==> s.min == s.max == s.p50 == s.p95 == s.p99 == 0.0)
            && (values != [] ==>
                  && IsMin(values, s.min) && IsMax(values, s.max)
                  && IsQuantile(values, 0.5 * |values| as real, s.p50)
                  && IsQuantile(values, 0.95 * |values| as real, s.p95)
                  && IsQuantile(values, 0.99 * |values| as real, s.p99))
  {
    if values != [] {
      NearestRankExact(values, 50.0, NearestRank(values, 50.0));
      NearestRankExact(values, 95.0, NearestRank(values, 95.0));
      NearestRankExact(values, 99.0, NearestRank(values, 99.0));
    }
  }

  /** A summary is ordered from minimum to maximum. */
  lemma SummaryOrdered(values: seq<real>)
    ensures var s := Summarise(values); s.min <= s.p50 <= s.p95 <= s.p99 <= s.max
  {
    if values != [] {
      NearestRankMonotone(values, 50.0, 95.0);
      NearestRankMonotone(values, 95.0, 99.0);
      NearestRankExact(values, 50.0, NearestRank(values, 50.0));
      NearestRankExact(values, 99.0, NearestRank(values, 99.0));
    }
  }
}
