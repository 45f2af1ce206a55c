/**
 What the greedy selection achieves: exactly when it does not depend on input order,
 and, for distinct rule ids, that it takes the best rules at every stage, has a known
 size, and passes the gate exactly when the corpus can.
 */
module CurationTheorems {
  import opened Sorting
  import opened Curation

  ghost predicate DistinctIds(rules: seq<Rule>) {
    forall i, j :: 0 <= i < j < |rules| ==> rules[i].id != rules[j].id
  }

  function IdSet(rules: seq<Rule>): set<string> {
    set r | r in rules :: r.id
  }

  // ----- distinct ids -----

  lemma IdSetConcat(a: seq<Rule>, b: seq<Rule>)
    ensures IdSet(a + b) == IdSet(a) + IdSet(b)
  {
    assert forall r :: r in a + b <==> r in a || r in b;
  }

  lemma IdAt(rules: seq<Rule>, id: string) returns (i: nat)
    requires id in IdSet(rules)
    ensures i < |rules| && rules[i].id == id
  {
    var r :| r in rules && r.id == id;
    i :| 0 <= i < |rules| && rules[i] == r;
  }

  lemma DistinctTail(rules: seq<Rule>)
    requires rules != [] && DistinctIds(rules)
    ensures DistinctIds(rules[1..])
    ensures rules[0].id !in IdSet(rules[1..])
  {
    var tail := rules[1..];
    forall i, j | 0 <= i < j < |tail| ensures tail[i].id != tail[j].id {
      assert rules[i + 1].id != rules[j + 1].id;
    }
    if rules[0].id in IdSet(tail) {
      var j := IdAt(tail, rules[0].id);
    }
  }

  /** Ids are distinct exactly when there are as many of them as rules. */
  lemma {:induction false} IdSetSize(rules: seq<Rule>)
    ensures |IdSet(rules)| <= |rules|
    ensures DistinctIds(rules) <==> |IdSet(rules)| == |rules|
  {
    if rules != [] {
      var head, tail := rules[0], rules[1..];
      assert rules == [head] + tail;
      IdSetSize(tail);
      IdSetConcat([head], tail);
      assert IdSet([head]) == {head.id};
      if DistinctIds(rules) {
        DistinctTail(rules);
      } else if |IdSet(rules)| == |rules| {
        assert head.id !in IdSet(tail) && DistinctIds(tail);
        forall i, j | 0 <= i < j < |rules| ensures rules[i].id != rules[j].id {
          assert rules[j] == tail[j - 1] && tail[j - 1] in tail;
          if i > 0 { assert rules[i] == tail[i - 1]; }
        }
      }
    }
  }

  lemma SameIdSameRule(rules: seq<Rule>, r: Rule, q: Rule)
    requires DistinctIds(rules) && r in rules && q in rules && r.id == q.id
    ensures r == q
  {
    var i :| 0 <= i < |rules| && rules[i] == r;
    var j :| 0 <= j < |rules| && rules[j] == q;
  }

  lemma PermutationKeepsDistinctIds(rules: seq<Rule>, other: seq<Rule>)
    requires DistinctIds(rules) && multiset(other) == multiset(rules)
    ensures DistinctIds(other)
  {
    IdSetSize(rules);
    IdSetSize(other);
    assert |other| == |multiset(other)| == |multiset(rules)| == |rules|;
    forall r ensures r in other <==> r in rules {
      assert r in other <==> r in multiset(other);
    }
    assert IdSet(other) == IdSet(rules);
  }

  lemma {:induction false} FilterKeepsDistinctIds(p: Rule -> bool, rules: seq<Rule>)
    requires DistinctIds(rules)
    ensures DistinctIds(Filter(p, rules))
  {
    if rules != [] {
      DistinctTail(rules);
      FilterKeepsDistinctIds(p, rules[1..]);
      FilterContents(p, rules[1..]);
      var rest := Filter(p, rules[1..]);
      forall j | 0 <= j < |rest| ensures rest[j].id != rules[0].id {
        assert rest[j] in rules[1..];
      }
    }
  }

  // ----- the ranking -----

  /** `a` comes no later than `b`: by falling score, then by id, the shorter or smaller at the first
      place where the ids differ. */
  ghost predicate RanksBefore(a: Rule, b: Rule) {
    a.score > b.score || (a.score == b.score && (a.id == b.id || Precedes(a.id, b.id)))
  }

  lemma RankLeMeans()
    ensures forall a, b :: RankLe(a, b) <==> RanksBefore(a, b)
  {
    forall a, b ensures RankLe(a, b) <==> RanksBefore(a, b) {
      StringLeExact(a.id, b.id);
    }
  }

  /** The ranking holds exactly the rules on or above the floor, each as often as it was read, in
      that order; rules that tie stay in the order in which they were read. */
  lemma RankingExact(rules: seq<Rule>, qualityFloor: real, r: Rule)
    ensures var ranking := Ranking(rules, qualityFloor);
            var tied := (x: Rule) => x.score == r.score && x.id == r.id;
            && (forall i, j :: 0 <= i < j < |ranking| ==> RanksBefore(ranking[i], ranking[j]))
            && multiset(ranking)[r] == (if r.score >= qualityFloor then multiset(rules)[r] else 0)
            && (r.score >= qualityFloor ==> Filter(tied, ranking) == Filter(tied, rules))
  {
    var tied := (x: Rule) => x.score == r.score && x.id == r.id;
    var eligible := Eligible(rules, qualityFloor);
    RankingContents(rules, qualityFloor);
    RankLeMeans();
    RankLeIsTotal();
    SortSorts(RankLe, eligible);
    FilterMultiset((x: Rule) => x.score >= qualityFloor, rules, r);
    SortFilter(RankLe, tied, eligible);
    TiedSorted(Filter(tied, eligible), tied, eligible, r);
    if r.score >= qualityFloor {
      FilterTwice(tied, (x: Rule) => x.score >= qualityFloor, rules);
    }
  }

  lemma TiedSorted(s: seq<Rule>, tied: Rule -> bool, eligible: seq<Rule>, r: Rule)
    requires s == Filter(tied, eligible) && forall x :: tied(x) <==> x.score == r.score && x.id == r.id
    ensures Sort(RankLe, s) == s
  {
    FilterContents(tied, eligible);
    StringLeTotal(r.id, r.id);
    assert forall i :: 0 <= i < |s| ==> s[i] in s;
    SortedStays(RankLe, s);
  }

  lemma {:induction false} FilterTwice(p: Rule -> bool, q: Rule -> bool, s: seq<Rule>)
    requires forall x :: p(x) ==> q(x)
    ensures Filter(p, Filter(q, s)) == Filter(p, s)
  {
    if s != [] {
      FilterTwice(p, q, s[1..]);
      var rest := Filter(q, s[1..]);
      if q(s[0]) {
        assert Filter(q, s) == [s[0]] + rest && ([s[0]] + rest)[1..] == rest;
      } else {
        assert Filter(q, s) == rest;
      }
    }
  }

  lemma RankingContents(rules: seq<Rule>, qualityFloor: real)
    ensures forall r :: r in Ranking(rules, qualityFloor) <==> r in rules && r.score >= qualityFloor
    ensures |Ranking(rules, qualityFloor)| == |Eligible(rules, qualityFloor)|
    ensures SortedBy(RankLe, Ranking(rules, qualityFloor))
    ensures DistinctIds(rules) ==> DistinctIds(Ranking(rules, qualityFloor))
  {
    var eligible, ranking := Eligible(rules, qualityFloor), Ranking(rules, qualityFloor);
    RankLeIsTotal();
    SortSorts(RankLe, eligible);
    FilterContents((r: Rule) => r.score >= qualityFloor, rules);
    assert forall r :: r in ranking <==> r in multiset(ranking);
    assert forall r :: r in eligible <==> r in multiset(eligible);
    assert |multiset(ranking)| == |ranking| && |multiset(eligible)| == |eligible|;
    if DistinctIds(rules) {
      FilterKeepsDistinctIds((r: Rule) => r.score >= qualityFloor, rules);
      PermutationKeepsDistinctIds(eligible, ranking);
    }
  }

  /** Rules with distinct ids never tie in rank. */
  lemma DistinctIdsNeverTie(rules: seq<Rule>, qualityFloor: real)
    requires DistinctIds(rules)
    ensures NoTies(RankLe, Eligible(rules, qualityFloor))
  {
    var eligible := Eligible(rules, qualityFloor);
    FilterKeepsDistinctIds((r: Rule) => r.score >= qualityFloor, rules);
    forall i, j | && 0 <= i < |eligible| && 0 <= j < |eligible|
                  && RankLe(eligible[i], eligible[j]) && RankLe(eligible[j], eligible[i])
      ensures eligible[i] == eligible[j]
    {
      StringLeAntisymmetric(eligible[i].id, eligible[j].id);
    }
  }

  ghost predicate RankingUnordered(rules: seq<Rule>, qualityFloor: real) {
    forall other: seq<Rule> :: multiset(other) == multiset(rules) ==>
      Ranking(other, qualityFloor) == Ranking(rules, qualityFloor)
  }

  /** The ranking depends only on which rules there are, exactly if no two different eligible
      rules share both score and id. */
  lemma RankingCanonical(rules: seq<Rule>, qualityFloor: real)
    ensures NoTies(RankLe, Eligible(rules, qualityFloor)) <==> RankingUnordered(rules, qualityFloor)
  {
    var eligible := Eligible(rules, qualityFloor);
    if NoTies(RankLe, eligible) {
      forall other: seq<Rule> | multiset(other) == multiset(rules)
        ensures Ranking(other, qualityFloor) == Ranking(rules, qualityFloor)
      {
        RankingOfPermutation(rules, other, qualityFloor);
      }
    } else {
      var i, j :| && 0 <= i < |eligible| && 0 <= j < |eligible| && eligible[i] != eligible[j]
                  && RankLe(eligible[i], eligible[j]) && RankLe(eligible[j], eligible[i]);
      FilterContents((r: Rule) => r.score >= qualityFloor, rules);
      assert eligible[i] in eligible && eligible[j] in eligible;
      TiesShow(rules, eligible[i], eligible[j], qualityFloor);
    }
  }

  lemma RankingOfPermutation(rules: seq<Rule>, other: seq<Rule>, qualityFloor: real)
    requires NoTies(RankLe, Eligible(rules, qualityFloor)) && multiset(other) == multiset(rules)
    ensures Ranking(rules, qualityFloor) == Ranking(other, qualityFloor)
    ensures |Eligible(rules, qualityFloor)| == |Eligible(other, qualityFloor)|
  {
    var p := (r: Rule) => r.score >= qualityFloor;
    var mine, theirs := Eligible(rules, qualityFloor), Eligible(other, qualityFloor);
    forall r ensures multiset(mine)[r] == multiset(theirs)[r] {
      FilterMultiset(p, rules, r);
      FilterMultiset(p, other, r);
    }
    assert multiset(mine) == multiset(theirs);
    RankLeIsTotal();
    SortSorts(RankLe, mine);
    SortSorts(RankLe, theirs);
    NoTiesPermuted(RankLe, mine, Ranking(rules, qualityFloor));
    SortedUnique(RankLe, Ranking(rules, qualityFloor), Ranking(other, qualityFloor));
    assert |multiset(mine)| == |mine| && |multiset(theirs)| == |theirs|;
  }

  /** Different eligible rules that tie come out in the order in which they are read. */
  lemma TiesShow(rules: seq<Rule>, a: Rule, b: Rule, qualityFloor: real)
    requires a in rules && b in rules && a != b && a.score >= qualityFloor
    requires RankLe(a, b) && RankLe(b, a)
    ensures !RankingUnordered(rules, qualityFloor)
  {
    var rest := WithoutBoth(rules, a, b);
    var one, two := [a, b] + rest, [b, a] + rest;
    TwinsRanked(a, b, rest, qualityFloor);
    TwinsRanked(b, a, rest, qualityFloor);
    RankLeIsTotal();
    InsertOrderShows(RankLe, a, b, Ranking(rest, qualityFloor));
    assert multiset(one) == multiset(rules) && multiset(two) == multiset(rules);
    assert Ranking(one, qualityFloor) != Ranking(two, qualityFloor);
  }

  lemma PutBack(a: Rule, b: Rule, rest: seq<Rule>)
    ensures multiset([a, b] + rest) == multiset(rest) + multiset{a} + multiset{b}
  {
    assert [a, b] + rest == [a] + ([b] + rest);
    assert multiset([b] + rest) == multiset{b} + multiset(rest);
  }

  lemma TakenBack(all: multiset<Rule>, a: Rule, b: Rule)
    requires a in all && b in all && a != b
    ensures b in all - multiset{a}
    ensures (all - multiset{a} - multiset{b}) + multiset{a} + multiset{b} == all
  {
  }

  lemma WithoutBoth(rules: seq<Rule>, a: Rule, b: Rule) returns (rest: seq<Rule>)
    requires a in rules && b in rules && a != b
    ensures multiset([a, b] + rest) == multiset(rules) == multiset([b, a] + rest)
  {
    TakenBack(multiset(rules), a, b);
    var withoutA := Without(rules, a);
    assert b in multiset(withoutA);
    rest := Without(withoutA, b);
    PutBack(a, b, rest);
    PutBack(b, a, rest);
  }

  lemma TwinsRanked(a: Rule, b: Rule, rest: seq<Rule>, qualityFloor: real)
    requires a.score >= qualityFloor && b.score >= qualityFloor
    ensures Ranking([a, b] + rest, qualityFloor)
            == Insert(RankLe, a, Insert(RankLe, b, Ranking(rest, qualityFloor)))
  {
    var eligible := Eligible(rest, qualityFloor);
    FilterConcat((r: Rule) => r.score >= qualityFloor, [a, b], rest);
    FilterAll((r: Rule) => r.score >= qualityFloor, [a, b]);
    assert Eligible([a, b] + rest, qualityFloor) == [a, b] + eligible;
    assert ([a, b] + eligible)[1..] == [b] + eligible && ([b] + eligible)[1..] == eligible;
    assert Sort(RankLe, [b] + eligible) == Insert(RankLe, b, Sort(RankLe, eligible));
  }

  /** The outcome is the same for every order in which the rules are read, unless two different
      eligible rules share both score and id. */
  lemma CurationCanonical(rules: seq<Rule>, other: seq<Rule>, families: seq<string>,
                          minPerFamily: int, minTotal: int, qualityFloor: real)
    requires NoTies(RankLe, Eligible(rules, qualityFloor)) && multiset(other) == multiset(rules)
    ensures CuratedOf(rules, families, minPerFamily, minTotal, qualityFloor)
            == CuratedOf(other, families, minPerFamily, minTotal, qualityFloor)
  {
    RankingOfPermutation(rules, other, qualityFloor);
    assert |rules| == |multiset(rules)| == |multiset(other)| == |other|;
  }

  // ----- the picks -----

  /** A family's picks are its best eligible rules: `min(4 * minPerFamily, family size)` of them,
      best first, each ranked before every eligible rule of the family that is not picked. */
  lemma PicksOptimal(rules: seq<Rule>, family: string, minPerFamily: int, qualityFloor: real)
    ensures var picks := Picks(Ranking(rules, qualityFloor), family, minPerFamily);
            && |picks| == (if minPerFamily <= 0 then 0
                           else Min(4 * minPerFamily, |InFamily(Eligible(rules, qualityFloor), family)|))
            && (forall i, j :: 0 <= i < j < |picks| ==> RanksBefore(picks[i], picks[j]))
            && (DistinctIds(rules) ==> DistinctIds(picks))
            && (forall r <- picks :: r in rules && r.score >= qualityFloor && family in r.families)
            && (forall r <- picks, q <- rules :: q.score >= qualityFloor && family in q.families && q !in picks
                  ==> RanksBefore(r, q))
  {
    PicksSize(rules, family, minPerFamily, qualityFloor);
    PicksRanked(rules, family, minPerFamily, qualityFloor);
    RankLeMeans();
  }

  lemma PicksSize(rules: seq<Rule>, family: string, minPerFamily: int, qualityFloor: real)
    ensures |InFamily(Ranking(rules, qualityFloor), family)| == |InFamily(Eligible(rules, qualityFloor), family)|
    ensures |Picks(Ranking(rules, qualityFloor), family, minPerFamily)|
            == if minPerFamily <= 0 then 0 else Min(4 * minPerFamily, |InFamily(Eligible(rules, qualityFloor), family)|)
  {
    var eligible := Eligible(rules, qualityFloor);
    var ranked := InFamily(Ranking(rules, qualityFloor), family);
    RankLeIsTotal();
    SortFilter(RankLe, (r: Rule) => family in r.families, eligible);
    SortSorts(RankLe, InFamily(eligible, family));
    assert |multiset(ranked)| == |ranked|;
    assert |multiset(InFamily(eligible, family))| == |InFamily(eligible, family)|;
  }

  lemma PicksRanked(rules: seq<Rule>, family: string, minPerFamily: int, qualityFloor: real)
    ensures var picks := Picks(Ranking(rules, qualityFloor), family, minPerFamily);
            && SortedBy(RankLe, picks)
            && (DistinctIds(rules) ==> DistinctIds(picks))
            && (forall r <- picks :: r in rules && r.score >= qualityFloor && family in r.families)
            && (forall r <- picks, q <- rules :: q.score >= qualityFloor && family in q.families && q !in picks
                  ==> RankLe(r, q))
  {
    var ranking := Ranking(rules, qualityFloor);
    var inFamily := (r: Rule) => family in r.families;
    var ranked := InFamily(ranking, family);
    RankingContents(rules, qualityFloor);
    FilterContents(inFamily, ranking);
    FilterSorted(RankLe, inFamily, ranking);
    if DistinctIds(rules) {
      FilterKeepsDistinctIds(inFamily, ranking);
    }
    SplitSorted(ranked, Min(Cap(minPerFamily), |ranked|));
  }

  /** In a sorted sequence the first `n` elements come before all others. */
  lemma SplitSorted(ranked: seq<Rule>, n: nat)
    requires SortedBy(RankLe, ranked) && n <= |ranked|
    ensures forall r, q :: r in ranked[..n] && q in ranked && q !in ranked[..n] ==> RankLe(r, q)
  {
    forall r, q | r in ranked[..n] && q in ranked && q !in ranked[..n] ensures RankLe(r, q) {
      var i :| 0 <= i < n && ranked[i] == r;
      var j :| 0 <= j < |ranked| && ranked[j] == q;
    }
  }

  // ----- the union -----

  /** `selected` maps ids to rules of the ranking that carry them. */
  ghost predicate Tracks(selected: map<string, Rule>, ranking: seq<Rule>) {
    forall id <- selected :: selected[id].id == id && selected[id] in ranking
  }

  lemma {:induction false} WithDefaultsKeys(selected: map<string, Rule>, rules: seq<Rule>, ranking: seq<Rule>)
    requires Tracks(selected, ranking) && forall r <- rules :: r in ranking
    ensures Tracks(WithDefaults(selected, rules), ranking)
    ensures WithDefaults(selected, rules).Keys == selected.Keys + IdSet(rules)
  {
    if rules == [] {
      assert IdSet(rules) == {};
    } else {
      var init, last := rules[..|rules| - 1], rules[|rules| - 1];
      assert rules == init + [last];
      WithDefaultsKeys(selected, init, ranking);
      assert IdSet(rules) == IdSet(init) + {last.id};
    }
  }

  /** The ids picked by any of the families. */
  function PickedIds(ranking: seq<Rule>, families: seq<string>, minPerFamily: int): set<string> {
    set f, r | f in families && r in Picks(ranking, f, minPerFamily) :: r.id
  }

  lemma {:induction false} FamilyUnionKeys(ranking: seq<Rule>, families: seq<string>, minPerFamily: int)
    ensures Tracks(FamilyUnion(ranking, families, minPerFamily), ranking)
    ensures FamilyUnion(ranking, families, minPerFamily).Keys == PickedIds(ranking, families, minPerFamily)
  {
    if families != [] {
      var init, last := families[..|families| - 1], families[|families| - 1];
      assert families == init + [last];
      FamilyUnionKeys(ranking, init, minPerFamily);
      var picks := Picks(ranking, last, minPerFamily);
      FilterContents((r: Rule) => last in r.families, ranking);
      WithDefaultsKeys(FamilyUnion(ranking, init, minPerFamily), picks, ranking);
      assert PickedIds(ranking, families, minPerFamily) == PickedIds(ranking, init, minPerFamily) + IdSet(picks);
    }
  }

  // ----- the top-up -----

  lemma IdSetTake(rules: seq<Rule>, n: nat)
    requires 1 <= n <= |rules|
    ensures IdSet(rules[..n]) == {rules[0].id} + IdSet(rules[1..][..n - 1])
  {
    assert rules[..n] == [rules[0]] + rules[1..][..n - 1];
    IdSetConcat([rules[0]], rules[1..][..n - 1]);
    assert IdSet([rules[0]]) == {rules[0].id};
  }

  lemma SubsetSize(a: set<string>, b: set<string>)
    requires a <= b
    ensures |a| <= |b|
  {
    assert b == a + (b - a);
  }

  lemma NextKeys(selected: map<string, Rule>, remaining: seq<Rule>, n: nat)
    requires 1 <= n <= |remaining|
    ensures var next := selected[remaining[0].id := remaining[0]];
            next.Keys + IdSet(remaining[1..][..n - 1]) == selected.Keys + IdSet(remaining[..n])
  {
    IdSetTake(remaining, n);
    assert selected[remaining[0].id := remaining[0]].Keys == selected.Keys + {remaining[0].id};
  }

  /** `result` is `selected` with the rules `taken` added under their ids. */
  ghost predicate Extends(result: map<string, Rule>, selected: map<string, Rule>, taken: seq<Rule>) {
    && result.Keys == selected.Keys + IdSet(taken)
    && (forall id <- result ::
          if id in IdSet(taken) then LastHolder(taken, id, result[id]) else result[id] == selected[id])
  }

  /** `r` is the last of the rules with its id. */
  ghost predicate LastHolder(rules: seq<Rule>, id: string, r: Rule) {
    exists i :: 0 <= i < |rules| && rules[i] == r && r.id == id && forall j :: i < j < |rules| ==> rules[j].id != id
  }

  /** The top-up takes the shortest prefix of the remaining rules that reaches the total, or all of
      them, and nothing else; a later rule of the same id replaces an earlier one. */
  lemma {:induction false} TopUpTakesPrefix(selected: map<string, Rule>, remaining: seq<Rule>, minTotal: int)
    returns (n: nat)
    ensures n <= |remaining| && Extends(TopUp(selected, remaining, minTotal), selected, remaining[..n])
    ensures forall m :: 0 <= m < n ==> |selected.Keys + IdSet(remaining[..m])| < minTotal
    decreases remaining
  {
    if remaining == [] || |selected| >= minTotal {
      assert remaining[..0] == [];
      n := 0;
    } else {
      var next := selected[remaining[0].id := remaining[0]];
      var m := TopUpTakesPrefix(next, remaining[1..], minTotal);
      n := m + 1;
      ExtendsByOne(TopUp(next, remaining[1..], minTotal), selected, remaining, n);
      ShortOfTotal(selected, remaining, n, minTotal);
    }
  }

  lemma ShortOfTotal(selected: map<string, Rule>, remaining: seq<Rule>, n: nat, minTotal: int)
    requires 1 <= n <= |remaining| && |selected| < minTotal
    requires var next := selected[remaining[0].id := remaining[0]];
             forall k :: 0 <= k < n - 1 ==> |next.Keys + IdSet(remaining[1..][..k])| < minTotal
    ensures forall k :: 0 <= k < n ==> |selected.Keys + IdSet(remaining[..k])| < minTotal
  {
    forall k | 0 <= k < n ensures |selected.Keys + IdSet(remaining[..k])| < minTotal {
      if k == 0 {
        assert selected.Keys + IdSet(remaining[..0]) == selected.Keys && |selected| == |selected.Keys|;
      } else {
        NextKeys(selected, remaining, k);
      }
    }
  }

  lemma ExtendsByOne(result: map<string, Rule>, selected: map<string, Rule>, remaining: seq<Rule>, n: nat)
    requires 1 <= n <= |remaining|
    requires Extends(result, selected[remaining[0].id := remaining[0]], remaining[1..][..n - 1])
    ensures Extends(result, selected, remaining[..n])
  {
    NextKeys(selected, remaining, n);
    var taken, rest := remaining[..n], remaining[1..][..n - 1];
    assert taken == [remaining[0]] + rest;
    IdSetTake(remaining, n);
    forall id | id in result
      ensures if id in IdSet(taken) then LastHolder(taken, id, result[id]) else result[id] == selected[id]
    {
      if id in IdSet(rest) {
        HolderMoves(rest, remaining[0], id, result[id]);
      } else if id == remaining[0].id {
        FirstIsLastHolder(taken, rest);
      }
    }
  }

  lemma HolderMoves(rest: seq<Rule>, first: Rule, id: string, r: Rule)
    requires LastHolder(rest, id, r)
    ensures LastHolder([first] + rest, id, r)
  {
    var i :| 0 <= i < |rest| && rest[i] == r && r.id == id && forall j :: i < j < |rest| ==> rest[j].id != id;
    assert ([first] + rest)[i + 1] == r;
  }

  lemma FirstIsLastHolder(taken: seq<Rule>, rest: seq<Rule>)
    requires taken != [] && taken == [taken[0]] + rest && taken[0].id !in IdSet(rest)
    ensures LastHolder(taken, taken[0].id, taken[0])
  {
    forall j | 0 < j < |taken| ensures taken[j].id != taken[0].id {
      assert taken[j] == rest[j - 1] && rest[j - 1] in rest;
    }
  }

  /** It reaches the total, or takes every id there is. */
  lemma {:induction false} TopUpSize(selected: map<string, Rule>, remaining: seq<Rule>, minTotal: int)
    ensures |TopUp(selected, remaining, minTotal)|
            == Max(|selected|, Min(minTotal, |selected.Keys + IdSet(remaining)|))
    decreases remaining
  {
    if remaining == [] || |selected| >= minTotal {
      assert remaining == [] ==> selected.Keys + IdSet(remaining) == selected.Keys;
      assert |selected| == |selected.Keys|;
    } else {
      var next := selected[remaining[0].id := remaining[0]];
      TopUpSize(next, remaining[1..], minTotal);
      NextKeys(selected, remaining, |remaining|);
      assert remaining[..|remaining|] == remaining && remaining[1..][..|remaining| - 1] == remaining[1..];
      NextSize(selected, remaining[0], selected.Keys + IdSet(remaining));
    }
  }

  lemma NextSize(selected: map<string, Rule>, first: Rule, all: set<string>)
    requires selected.Keys + {first.id} <= all
    ensures |selected| <= |selected[first.id := first]| <= |selected| + 1
    ensures |selected[first.id := first]| <= |all|
  {
    var next := selected[first.id := first];
    assert next.Keys == selected.Keys + {first.id};
    assert |next| == |next.Keys| && |selected| == |selected.Keys|;
    SubsetSize(next.Keys, all);
  }

  lemma {:induction false} TopUpTracks(selected: map<string, Rule>, remaining: seq<Rule>, minTotal: int,
                                       ranking: seq<Rule>)
    requires Tracks(selected, ranking) && forall r <- remaining :: r in ranking
    ensures Tracks(TopUp(selected, remaining, minTotal), ranking)
    decreases remaining
  {
    if remaining != [] && |selected| < minTotal {
      TopUpTracks(selected[remaining[0].id := remaining[0]], remaining[1..], minTotal, ranking);
    }
  }

  /** The eligible rules that no family picked, best first. */
  function Unpicked(ranking: seq<Rule>, families: seq<string>, minPerFamily: int): seq<Rule> {
    var union := FamilyUnion(ranking, families, minPerFamily);
    Filter((r: Rule) => r.id !in union, ranking)
  }

  lemma UnpickedContents(ranking: seq<Rule>, families: seq<string>, minPerFamily: int)
    ensures var rest := Unpicked(ranking, families, minPerFamily);
            && (forall r :: r in rest <==> r in ranking && r.id !in PickedIds(ranking, families, minPerFamily))
            && PickedIds(ranking, families, minPerFamily) !! IdSet(rest)
            && (SortedBy(RankLe, ranking) ==> SortedBy(RankLe, rest))
  {
    var union := FamilyUnion(ranking, families, minPerFamily);
    var p := (r: Rule) => r.id !in union;
    FamilyUnionKeys(ranking, families, minPerFamily);
    FilterContents(p, ranking);
    if SortedBy(RankLe, ranking) {
      FilterSorted(RankLe, p, ranking);
    }
  }

  /** The picked ids and the unpicked ones make up the ids of the ranking. */
  lemma UnpickedSize(ranking: seq<Rule>, families: seq<string>, minPerFamily: int)
    ensures var picked, rest := PickedIds(ranking, families, minPerFamily), Unpicked(ranking, families, minPerFamily);
            && picked + IdSet(rest) == IdSet(ranking)
            && |picked| + |IdSet(rest)| == |IdSet(ranking)|
  {
    UnpickedContents(ranking, families, minPerFamily);
    PickedIdsRanked(ranking, families, minPerFamily);
  }

  lemma PickedIdsRanked(ranking: seq<Rule>, families: seq<string>, minPerFamily: int)
    ensures PickedIds(ranking, families, minPerFamily) <= IdSet(ranking)
  {
    forall id | id in PickedIds(ranking, families, minPerFamily) ensures id in IdSet(ranking) {
      var f, r :| f in families && r in Picks(ranking, f, minPerFamily) && r.id == id;
      FilterContents((x: Rule) => f in x.families, ranking);
    }
  }

  /** The selection is the picks and the best of the rest: its ids, its size, and that
      every rule added to the picks ranks before every eligible rule whose id is left out. */
  lemma SelectionOptimal(rules: seq<Rule>, families: seq<string>, minPerFamily: int, minTotal: int, qualityFloor: real)
    ensures var ranking := Ranking(rules, qualityFloor);
            var selected := Selection(ranking, families, minPerFamily, minTotal);
            var picked := PickedIds(ranking, families, minPerFamily);
            && picked <= selected.Keys
            && |selected| == Max(|picked|, Min(minTotal, |IdSet(ranking)|))
            && Tracks(selected, ranking)
            && (forall id, q :: id in selected && id !in picked && q in ranking && q.id !in selected
                  ==> RanksBefore(selected[id], q))
  {
    RankLeMeans();
    RankingContents(rules, qualityFloor);
    TopUpOptimal(Ranking(rules, qualityFloor), families, minPerFamily, minTotal);
  }

  lemma TopUpOptimal(ranking: seq<Rule>, families: seq<string>, minPerFamily: int, minTotal: int)
    requires SortedBy(RankLe, ranking)
    ensures var selected := Selection(ranking, families, minPerFamily, minTotal);
            var picked := PickedIds(ranking, families, minPerFamily);
            && picked <= selected.Keys
            && |selected| == Max(|picked|, Min(minTotal, |IdSet(ranking)|))
            && Tracks(selected, ranking)
            && (forall id, q :: id in selected && id !in picked && q in ranking && q.id !in selected
                  ==> RankLe(selected[id], q))
  {
    var union, rest := FamilyUnion(ranking, families, minPerFamily), Unpicked(ranking, families, minPerFamily);
    FamilyUnionKeys(ranking, families, minPerFamily);
    UnpickedContents(ranking, families, minPerFamily);
    UnpickedSize(ranking, families, minPerFamily);
    TopUpTracks(union, rest, minTotal, ranking);
    var n := TopUpTakesPrefix(union, rest, minTotal);
    TopUpSize(union, rest, minTotal);
    assert |union| == |union.Keys|;
    AddedAreTaken(TopUp(union, rest, minTotal), union, rest[..n]);
    AddedRanksFirst(ranking, rest, n, Selection(ranking, families, minPerFamily, minTotal), union.Keys);
  }

  lemma AddedAreTaken(result: map<string, Rule>, selected: map<string, Rule>, taken: seq<Rule>)
    requires Extends(result, selected, taken)
    ensures forall id <- result :: id in selected || result[id] in taken
  {
    forall id | id in result && id !in selected ensures result[id] in taken {
      assert LastHolder(taken, id, result[id]);
    }
  }

  lemma AddedRanksFirst(ranking: seq<Rule>, rest: seq<Rule>, n: nat, selected: map<string, Rule>, picked: set<string>)
    requires SortedBy(RankLe, rest) && n <= |rest|
    requires forall r :: r in rest <==> r in ranking && r.id !in picked
    requires selected.Keys == picked + IdSet(rest[..n])
    requires forall id <- selected :: id in picked || selected[id] in rest[..n]
    ensures forall id, q :: id in selected && id !in picked && q in ranking && q.id !in selected
              ==> RankLe(selected[id], q)
  {
    SplitSorted(rest, n);
    forall id, q | id in selected && id !in picked && q in ranking && q.id !in selected
      ensures RankLe(selected[id], q)
    {
      assert q in rest && q !in rest[..n];
    }
  }

  // ----- the outcome -----

  lemma InKeyOrderContents(selected: map<string, Rule>, ranking: seq<Rule>)
    requires Tracks(selected, ranking)
    ensures var final := InKeyOrder(selected);
            && |final| == |selected|
            && DistinctIds(final)
            && (forall i, j :: 0 <= i < j < |final| ==> Precedes(final[i].id, final[j].id))
            && (forall r <- final :: r in ranking)
            && (forall id <- selected :: selected[id] in final)
            && IdSet(final) == selected.Keys
  {
    var keys, final := SortedKeys(selected.Keys), InKeyOrder(selected);
    SortedKeysLists(selected.Keys);
    assert |selected| == |selected.Keys|;
    forall i | 0 <= i < |final| ensures final[i].id == keys[i] && final[i] in ranking {
      assert keys[i] in selected;
    }
    forall i, j | 0 <= i < j < |final| ensures Precedes(final[i].id, final[j].id) {
      StringLeExact(keys[i], keys[j]);
    }
    forall id | id in selected ensures selected[id] in final {
      var i :| 0 <= i < |keys| && keys[i] == id;
      assert final[i] == selected[id];
    }
    forall r | r in final ensures r.id in selected {
      var i :| 0 <= i < |final| && final[i] == r;
      assert keys[i] in keys;
    }
  }

  /** The curated list: strictly ascending ids, eligible rules only, every picked id among them,
      and exactly `max(picked, min(minTotal, eligible))` of them, counted by id. */
  lemma CuratedRules(rules: seq<Rule>, families: seq<string>, minPerFamily: int, minTotal: int, qualityFloor: real)
    ensures var result := CuratedOf(rules, families, minPerFamily, minTotal, qualityFloor);
            var ranking := Ranking(rules, qualityFloor);
            && |result.rules| == Max(|PickedIds(ranking, families, minPerFamily)|,
                                     Min(minTotal, |IdSet(Eligible(rules, qualityFloor))|))
            && DistinctIds(result.rules)
            && (forall i, j :: 0 <= i < j < |result.rules| ==> Precedes(result.rules[i].id, result.rules[j].id))
            && (forall r <- result.rules :: r in rules && r.score >= qualityFloor)
            && PickedIds(ranking, families, minPerFamily) <= IdSet(result.rules)
            && (forall r <- result.rules :: r.id !in PickedIds(ranking, families, minPerFamily) ==>
                  forall q <- rules :: q.score >= qualityFloor && q.id !in IdSet(result.rules) ==> RanksBefore(r, q))
  {
    var ranking := Ranking(rules, qualityFloor);
    var selected := Selection(ranking, families, minPerFamily, minTotal);
    RankingContents(rules, qualityFloor);
    EligibleIds(rules, qualityFloor);
    SelectionOptimal(rules, families, minPerFamily, minTotal, qualityFloor);
    InKeyOrderContents(selected, ranking);
    assert IdSet(InKeyOrder(selected)) == selected.Keys;
    forall r | r in InKeyOrder(selected) ensures r.id in selected && selected[r.id] == r {
      SameIdSameRule(InKeyOrder(selected), r, selected[r.id]);
    }
  }

  lemma EligibleIds(rules: seq<Rule>, qualityFloor: real)
    ensures IdSet(Ranking(rules, qualityFloor)) == IdSet(Eligible(rules, qualityFloor))
  {
    RankingContents(rules, qualityFloor);
    FilterContents((r: Rule) => r.score >= qualityFloor, rules);
  }

  /** Where ids are distinct the picked rules themselves are in the list. */
  lemma PicksCurated(rules: seq<Rule>, families: seq<string>, minPerFamily: int, minTotal: int, qualityFloor: real)
    requires DistinctIds(rules)
    ensures var result := CuratedOf(rules, families, minPerFamily, minTotal, qualityFloor);
            forall f, r :: f in families && r in Picks(Ranking(rules, qualityFloor), f, minPerFamily) ==>
              r in result.rules
  {
    var ranking := Ranking(rules, qualityFloor);
    var result := CuratedOf(rules, families, minPerFamily, minTotal, qualityFloor);
    CuratedRules(rules, families, minPerFamily, minTotal, qualityFloor);
    RankingContents(rules, qualityFloor);
    forall f, r | f in families && r in Picks(ranking, f, minPerFamily) ensures r in result.rules {
      FilterContents((x: Rule) => f in x.families, ranking);
      assert r.id in PickedIds(ranking, families, minPerFamily);
      var i := IdAt(result.rules, r.id);
      SameIdSameRule(rules, r, result.rules[i]);
    }
  }

  /** The gate asks no more than that the corpus has the rules: enough eligible ids in all and
      enough eligible rules in every family. The cap never uncovers a family that could be covered. */
  lemma GateExact(rules: seq<Rule>, families: seq<string>, minPerFamily: int, minTotal: int, qualityFloor: real)
    ensures var result := CuratedOf(rules, families, minPerFamily, minTotal, qualityFloor);
            GatePasses(result, families, minPerFamily, minTotal)
            <==> && |IdSet(Eligible(rules, qualityFloor))| >= minTotal
                 && forall f <- families :: |InFamily(Eligible(rules, qualityFloor), f)| >= minPerFamily
  {
    var ranking := Ranking(rules, qualityFloor);
    var result := CuratedOf(rules, families, minPerFamily, minTotal, qualityFloor);
    CuratedRules(rules, families, minPerFamily, minTotal, qualityFloor);
    EligibleIds(rules, qualityFloor);
    PickedIdsRanked(ranking, families, minPerFamily);
    SubsetSize(PickedIds(ranking, families, minPerFamily), IdSet(ranking));
    forall f | f in families
      ensures Covered(result, f, minPerFamily) <==> |InFamily(Eligible(rules, qualityFloor), f)| >= minPerFamily
    {
      PicksOptimal(rules, f, minPerFamily, qualityFloor);
      assert result.picks[f] == Ids(Picks(ranking, f, minPerFamily));
    }
  }

  // ----- duplicate ids -----

  /** Two different rules that share id and score and belong to no family: whatever the families
      and the floor per family, the one read first is selected. */
  lemma OrderMattersForDuplicateIds(a: Rule, b: Rule, families: seq<string>, minPerFamily: int)
    requires a.id == b.id && a.score == b.score && a != b && a.families == [] && b.families == []
    ensures CuratedOf([a, b], families, minPerFamily, 1, a.score).rules == [a]
    ensures CuratedOf([b, a], families, minPerFamily, 1, a.score).rules == [b]
  {
    FirstOfTwins(a, b, families, minPerFamily);
    FirstOfTwins(b, a, families, minPerFamily);
  }

  lemma FirstOfTwins(a: Rule, b: Rule, families: seq<string>, minPerFamily: int)
    requires a.id == b.id && a.score == b.score && a.families == [] && b.families == []
    ensures CuratedOf([a, b], families, minPerFamily, 1, a.score).rules == [a]
  {
    TwinRanking(a, b);
    NoFamilyNoPick([a, b], families, minPerFamily);
    var none := FamilyUnion([a, b], families, minPerFamily);
    FilterAll((r: Rule) => r.id !in none, [a, b]);
    assert |none[a.id := a]| == 1;
    assert TopUp(none, [a, b], 1) == TopUp(none[a.id := a], [a, b][1..], 1) == map[a.id := a];
    OneEntry(a);
  }

  lemma {:induction false} NoFamilyNoPick(ranking: seq<Rule>, families: seq<string>, minPerFamily: int)
    requires forall r <- ranking :: r.families == []
    ensures FamilyUnion(ranking, families, minPerFamily) == map[]
  {
    if families != [] {
      var family := families[|families| - 1];
      NoFamilyNoPick(ranking, families[..|families| - 1], minPerFamily);
      FilterNone((r: Rule) => family in r.families, ranking);
      assert Picks(ranking, family, minPerFamily) == [];
    }
  }

  lemma TwinRanking(a: Rule, b: Rule)
    requires a.id == b.id && a.score == b.score
    ensures Ranking([a, b], a.score) == [a, b]
  {
    TwinsRanked(a, b, [], a.score);
    StringLeTotal(a.id, b.id);
    assert [a, b] + [] == [a, b] && Ranking([], a.score) == [];
    assert Insert(RankLe, b, []) == [b] && Insert(RankLe, a, [b]) == [a, b];
  }

  lemma OneEntry(a: Rule)
    ensures InKeyOrder(map[a.id := a]) == [a]
  {
    SortedKeysLists({a.id});
    assert map[a.id := a].Keys == {a.id};
    assert SortedKeys({a.id})[0] in {a.id};
  }

  // ----- when the whole outcome depends on input order -----

  ghost predicate OutcomeUnordered(rules: seq<Rule>, families: seq<string>, qualityFloor: real) {
    forall other: seq<Rule>, minPerFamily, minTotal :: multiset(other) == multiset(rules) ==>
      CuratedOf(other, families, minPerFamily, minTotal, qualityFloor)
      == CuratedOf(rules, families, minPerFamily, minTotal, qualityFloor)
  }

  /** Eligible rules of one id have one score. */
  ghost predicate IdsScoredOnce(rules: seq<Rule>, qualityFloor: real) {
    forall r, q :: r in rules && q in rules && r.score >= qualityFloor && q.score >= qualityFloor && r.id == q.id ==>
      r.score == q.score
  }

  /** Over all floors and totals the outcome is independent of input order exactly if no two
      different eligible rules share score and id, provided that rules of one id share their score. */
  lemma CurationCanonicalExactly(rules: seq<Rule>, families: seq<string>, qualityFloor: real)
    requires IdsScoredOnce(rules, qualityFloor)
    ensures NoTies(RankLe, Eligible(rules, qualityFloor)) <==> OutcomeUnordered(rules, families, qualityFloor)
  {
    var eligible := Eligible(rules, qualityFloor);
    if NoTies(RankLe, eligible) {
      forall other: seq<Rule>, minPerFamily, minTotal | multiset(other) == multiset(rules)
        ensures CuratedOf(other, families, minPerFamily, minTotal, qualityFloor)
                == CuratedOf(rules, families, minPerFamily, minTotal, qualityFloor)
      {
        CurationCanonical(rules, other, families, minPerFamily, minTotal, qualityFloor);
      }
    } else {
      var i, j :| && 0 <= i < |eligible| && 0 <= j < |eligible| && eligible[i] != eligible[j]
                  && RankLe(eligible[i], eligible[j]) && RankLe(eligible[j], eligible[i]);
      FilterContents((r: Rule) => r.score >= qualityFloor, rules);
      assert eligible[i] in eligible && eligible[j] in eligible;
      OutcomeShowsTie(rules, families, eligible[i], eligible[j], qualityFloor);
    }
  }

  lemma OutcomeShowsTie(rules: seq<Rule>, families: seq<string>, a: Rule, b: Rule, qualityFloor: real)
    requires IdsScoredOnce(rules, qualityFloor)
    requires a in rules && b in rules && a != b && a.score >= qualityFloor && RankLe(a, b) && RankLe(b, a)
    ensures !OutcomeUnordered(rules, families, qualityFloor)
  {
    StringLeAntisymmetric(a.id, b.id);
    var rest := WithoutBoth(rules, a, b);
    RestScoredOnce(rules, a, b, rest, qualityFloor);
    TwinsDiffer(a, b, rest, families, qualityFloor);
    DifferentOutcomes(rules, [a, b] + rest, [b, a] + rest, families,
                      TotalUpTo(a, Ranking(rest, qualityFloor)), qualityFloor);
  }

  lemma RestScoredOnce(rules: seq<Rule>, a: Rule, b: Rule, rest: seq<Rule>, qualityFloor: real)
    requires IdsScoredOnce(rules, qualityFloor) && multiset([a, b] + rest) == multiset(rules)
    requires a in rules && a.score >= qualityFloor
    ensures forall r <- rest :: r.score >= qualityFloor && r.id == a.id ==> r.score == a.score
  {
    forall r | r in rest ensures r in rules {
      assert r in multiset([a, b] + rest);
    }
  }

  lemma TwinsDiffer(a: Rule, b: Rule, rest: seq<Rule>, families: seq<string>, qualityFloor: real)
    requires a != b && a.id == b.id && a.score == b.score && a.score >= qualityFloor
    requires forall r <- rest :: r.score >= qualityFloor && r.id == a.id ==> r.score == a.score
    ensures var total := TotalUpTo(a, Ranking(rest, qualityFloor));
            CuratedOf([a, b] + rest, families, 0, total, qualityFloor)
            != CuratedOf([b, a] + rest, families, 0, total, qualityFloor)
  {
    SameTotal(a, b, Ranking(rest, qualityFloor));
    FirstTwinSelected(a, b, rest, families, qualityFloor);
    FirstTwinSelected(b, a, rest, families, qualityFloor);
    NotBothSelected([a, b] + rest, families, TotalUpTo(a, Ranking(rest, qualityFloor)), qualityFloor, a, b);
  }

  lemma DifferentOutcomes(rules: seq<Rule>, one: seq<Rule>, two: seq<Rule>, families: seq<string>, total: int,
                          qualityFloor: real)
    requires multiset(one) == multiset(rules) == multiset(two)
    requires CuratedOf(one, families, 0, total, qualityFloor) != CuratedOf(two, families, 0, total, qualityFloor)
    ensures !OutcomeUnordered(rules, families, qualityFloor)
  {
  }

  lemma NotBothSelected(rules: seq<Rule>, families: seq<string>, total: int, qualityFloor: real, a: Rule, b: Rule)
    requires a != b && a.id == b.id && a in CuratedOf(rules, families, 0, total, qualityFloor).rules
    ensures b !in CuratedOf(rules, families, 0, total, qualityFloor).rules
  {
    CuratedRules(rules, families, 0, total, qualityFloor);
    if b in CuratedOf(rules, families, 0, total, qualityFloor).rules {
      SameIdSameRule(CuratedOf(rules, families, 0, total, qualityFloor).rules, a, b);
    }
  }

  /** How many ids rank before `a`, and one more. */
  function TotalUpTo(a: Rule, ranking: seq<Rule>): int {
    |IdSet(Filter((r: Rule) => !RankLe(a, r), ranking))| + 1
  }

  lemma SameTotal(a: Rule, b: Rule, ranking: seq<Rule>)
    requires a.id == b.id && a.score == b.score
    ensures TotalUpTo(a, ranking) == TotalUpTo(b, ranking)
  {
    FilterAgrees((r: Rule) => !RankLe(a, r), (r: Rule) => !RankLe(b, r), ranking);
  }

  /** With a total that stops between two tied rules, the one read first is selected. */
  lemma FirstTwinSelected(a: Rule, b: Rule, rest: seq<Rule>, families: seq<string>, qualityFloor: real)
    requires a.id == b.id && a.score == b.score && a.score >= qualityFloor
    requires forall r <- rest :: r.score >= qualityFloor && r.id == a.id ==> r.score == a.score
    ensures a in CuratedOf([a, b] + rest, families, 0, TotalUpTo(a, Ranking(rest, qualityFloor)), qualityFloor).rules
  {
    var ranking, total := Ranking([a, b] + rest, qualityFloor), TotalUpTo(a, Ranking(rest, qualityFloor));
    var before, behind := TwinsInRanking(a, b, rest, qualityFloor);
    NoFloorNoPick(ranking, families);
    FilterAll((r: Rule) => r.id !in FamilyUnion(ranking, families, 0), ranking);
    TopUpReaches(map[], before, a, [b] + behind, total);
    TopUpTracks(map[], ranking, total, ranking);
    InKeyOrderContents(Selection(ranking, families, 0, total), ranking);
  }

  lemma TwinsInRanking(a: Rule, b: Rule, rest: seq<Rule>, qualityFloor: real)
    returns (before: seq<Rule>, behind: seq<Rule>)
    requires a.id == b.id && a.score == b.score && a.score >= qualityFloor
    requires forall r <- rest :: r.score >= qualityFloor && r.id == a.id ==> r.score == a.score
    ensures Ranking([a, b] + rest, qualityFloor) == before + [a] + ([b] + behind)
    ensures |IdSet(before)| + 1 == TotalUpTo(a, Ranking(rest, qualityFloor))
    ensures a.id !in IdSet(before)
  {
    RankLeIsTotal();
    RankingContents(rest, qualityFloor);
    TwinsRanked(a, b, rest, qualityFloor);
    before, behind := TwinsInserted(a, b, Ranking(rest, qualityFloor));
    NoTwinBefore(a, Ranking(rest, qualityFloor));
  }

  lemma NoTwinBefore(a: Rule, ranking: seq<Rule>)
    requires forall r <- ranking :: r.id == a.id ==> r.score == a.score
    ensures a.id !in IdSet(Filter((r: Rule) => !RankLe(a, r), ranking))
  {
    FilterContents((r: Rule) => !RankLe(a, r), ranking);
    StringLeTotal(a.id, a.id);
  }

  lemma {:induction false} FilterAgrees(p: Rule -> bool, q: Rule -> bool, s: seq<Rule>)
    requires forall r <- s :: p(r) == q(r)
    ensures Filter(p, s) == Filter(q, s)
  {
    if s != [] {
      FilterAgrees(p, q, s[1..]);
    }
  }

  /** Two tied rules go side by side into a sorted sequence, behind what ranks strictly before them. */
  lemma {:induction false} TwinsInserted(a: Rule, b: Rule, ranking: seq<Rule>)
    returns (before: seq<Rule>, behind: seq<Rule>)
    requires TotalPreorder(RankLe) && SortedBy(RankLe, ranking) && a.id == b.id && a.score == b.score
    ensures before == Filter((r: Rule) => !RankLe(a, r), ranking)
    ensures Insert(RankLe, a, Insert(RankLe, b, ranking)) == before + [a] + ([b] + behind)
  {
    if ranking == [] || RankLe(a, ranking[0]) {
      before, behind := [], ranking;
      assert forall r <- ranking :: RankLe(a, r);
      FilterNone((r: Rule) => !RankLe(a, r), ranking);
      StringLeTotal(a.id, b.id);
      assert [] + [a] + ([b] + ranking) == [a] + ([b] + ranking);
    } else {
      var init;
      init, behind := TwinsInserted(a, b, ranking[1..]);
      before := [ranking[0]] + init;
      PassesHead(RankLe, a, b, ranking);
      assert before + [a] + ([b] + behind) == [ranking[0]] + (init + [a] + ([b] + behind));
    }
  }

  lemma {:induction false} NoFloorNoPick(ranking: seq<Rule>, families: seq<string>)
    ensures FamilyUnion(ranking, families, 0) == map[]
  {
    if families != [] {
      NoFloorNoPick(ranking, families[..|families| - 1]);
      assert Picks(ranking, families[|families| - 1], 0) == [];
    }
  }

  /** Below the total the top-up takes every rule. */
  lemma {:induction false} TopUpPasses(selected: map<string, Rule>, before: seq<Rule>, behind: seq<Rule>, total: int)
    returns (next: map<string, Rule>)
    requires |selected.Keys + IdSet(before)| < total
    ensures next.Keys == selected.Keys + IdSet(before)
    ensures TopUp(selected, before + behind, total) == TopUp(next, behind, total)
    decreases before
  {
    if before == [] {
      next := selected;
      assert before + behind == behind;
    } else {
      BelowTotal(selected, before, total);
      next := TopUpPasses(selected[before[0].id := before[0]], before[1..], behind, total);
      assert (before + behind)[0] == before[0] && (before + behind)[1..] == before[1..] + behind;
    }
  }

  lemma BelowTotal(selected: map<string, Rule>, before: seq<Rule>, total: int)
    requires before != [] && |selected.Keys + IdSet(before)| < total
    ensures |selected| < total
    ensures selected[before[0].id := before[0]].Keys + IdSet(before[1..]) == selected.Keys + IdSet(before)
  {
    NextKeys(selected, before, |before|);
    assert before[..|before|] == before && before[1..][..|before| - 1] == before[1..];
    SubsetSize(selected.Keys, selected.Keys + IdSet(before));
    assert |selected| == |selected.Keys|;
  }

  /** The top-up stops right behind the rule whose new id reaches the total. */
  lemma TopUpReaches(selected: map<string, Rule>, before: seq<Rule>, a: Rule, behind: seq<Rule>, total: int)
    requires a.id !in selected && a.id !in IdSet(before)
    requires total == |selected.Keys + IdSet(before)| + 1
    ensures a.id in TopUp(selected, before + [a] + behind, total)
    ensures TopUp(selected, before + [a] + behind, total)[a.id] == a
  {
    assert before + [a] + behind == before + ([a] + behind);
    var next := TopUpPasses(selected, before, [a] + behind, total);
    TopUpLast(next, a, behind, total);
  }

  lemma TopUpLast(next: map<string, Rule>, a: Rule, behind: seq<Rule>, total: int)
    requires a.id !in next && total == |next.Keys| + 1
    ensures TopUp(next, [a] + behind, total) == next[a.id := a]
  {
    assert next[a.id := a].Keys == next.Keys + {a.id};
    assert |next| == |next.Keys| && |next[a.id := a]| == |next[a.id := a].Keys|;
    assert ([a] + behind)[1..] == behind;
  }

  /** Rules of one id with several scores can hide a tie: between a better and a worse rule of the
      same id, the order of `a` and `b` never shows. */
  lemma TieHidden(c: Rule, a: Rule, b: Rule, e: Rule, families: seq<string>, minPerFamily: int, minTotal: int)
    requires a.id == b.id == c.id == e.id && c.score > a.score == b.score > e.score
    requires a.families == b.families == c.families == e.families == []
    ensures CuratedOf([c, a, b, e], families, minPerFamily, minTotal, e.score)
            == CuratedOf([c, b, a, e], families, minPerFamily, minTotal, e.score)
  {
    HiddenSelection(c, a, b, e, families, minPerFamily, minTotal);
    HiddenSelection(c, b, a, e, families, minPerFamily, minTotal);
    FilterAll((r: Rule) => r.score >= e.score, [c, a, b, e]);
    FilterAll((r: Rule) => r.score >= e.score, [c, b, a, e]);
  }

  lemma HiddenSelection(c: Rule, a: Rule, b: Rule, e: Rule, families: seq<string>, minPerFamily: int, minTotal: int)
    requires a.id == b.id == c.id == e.id && c.score > a.score == b.score > e.score
    requires a.families == b.families == c.families == e.families == []
    ensures var ranking := Ranking([c, a, b, e], e.score);
            && Selection(ranking, families, minPerFamily, minTotal)
               == (if minTotal <= 0 then map[] else if minTotal == 1 then map[c.id := c] else map[c.id := e])
            && PickedIdLists(ranking, families, minPerFamily) == map f | f in families :: []
  {
    var rules := [c, a, b, e];
    HiddenRanking(c, a, b, e);
    NoFamilyNoPick(rules, families, minPerFamily);
    FilterAll((r: Rule) => r.id !in FamilyUnion(rules, families, minPerFamily), rules);
    HiddenTopUp(c, [a, b], e, minTotal);
    assert [c] + [a, b] + [e] == rules;
    forall f | f in families ensures Ids(Picks(rules, f, minPerFamily)) == [] {
      FilterNone((r: Rule) => f in r.families, rules);
    }
  }

  lemma HiddenRanking(c: Rule, a: Rule, b: Rule, e: Rule)
    requires a.id == b.id == c.id == e.id && c.score > a.score == b.score > e.score
    ensures Ranking([c, a, b, e], e.score) == [c, a, b, e]
  {
    FilterAll((r: Rule) => r.score >= e.score, [c, a, b, e]);
    StringLeTotal(a.id, b.id);
    SortedStays(RankLe, [c, a, b, e]);
  }

  lemma HiddenTopUp(first: Rule, middle: seq<Rule>, last: Rule, minTotal: int)
    requires first.id == last.id && forall r <- middle :: r.id == last.id
    ensures TopUp(map[], [first] + middle + [last], minTotal)
            == if minTotal <= 0 then map[] else if minTotal == 1 then map[first.id := first] else map[last.id := last]
  {
    var rest := middle + [last];
    assert [first] + middle + [last] == [first] + rest && ([first] + rest)[1..] == rest;
    var one := map[][first.id := first];
    assert one == map[first.id := first] && one.Keys == {first.id} && |one| == |one.Keys| == 1;
    if minTotal > 1 {
      LastOfOneId(one, rest, minTotal);
    }
  }

  lemma {:induction false} LastOfOneId(selected: map<string, Rule>, rules: seq<Rule>, minTotal: int)
    requires |selected.Keys| == 1 && minTotal > 1 && rules != []
    requires forall r <- rules :: selected.Keys == {r.id}
    ensures TopUp(selected, rules, minTotal) == map[rules[|rules| - 1].id := rules[|rules| - 1]]
    decreases rules
  {
    var next := selected[rules[0].id := rules[0]];
    assert |selected| == |selected.Keys|;
    assert next.Keys == selected.Keys;
    if |rules| > 1 {
      LastOfOneId(next, rules[1..], minTotal);
    } else {
      assert rules[1..] == [] && next == map[rules[0].id := rules[0]];
    }
  }
}
