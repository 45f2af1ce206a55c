/**
 The parts of a curation, spelled out: what puts a rule into a family, which rule an id
 stands for, and what the outcome lists.
 */
module CurationOutcome {
  import opened Sorting
  import opened Curation
  import opened CurationTheorems
  import Text

  /** The four ways into a family. */
  lemma CoversMeans(spec: FamilySpec, t: Traits)
    ensures Covers(spec, t)
            <==> || (exists technique :: technique in t.techniques && technique in spec.techniques)
                 || (exists tactic :: tactic in t.tactics && tactic in spec.tactics)
                 || (t.category != "" && t.category in spec.categories)
                 || (t.product != ""
                     && exists s, before, after :: s in spec.logSources && t.product == before + s + after)
  {
    if s :| s in spec.logSources && Text.Contains(t.product, s) {
      var before, after := Text.ContainedSplits(t.product, s);
    }
    if s, before, after :| s in spec.logSources && t.product == before + s + after {
      Text.InfixContained(before, s, after);
    }
    if technique :| technique in t.techniques && technique in spec.techniques {
      assert technique in t.techniques * spec.techniques;
    }
    if tactic :| tactic in t.tactics && tactic in spec.tactics {
      assert tactic in t.tactics * spec.tactics;
    }
  }

  /** Families are listed in the order of the table. */
  lemma {:induction false} CoveringInOrder(left: seq<FamilySpec>, right: seq<FamilySpec>, t: Traits)
    ensures CoveringIds(left + right, t) == CoveringIds(left, t) + CoveringIds(right, t)
  {
    if right == [] {
      assert left + right == left;
    } else {
      var init := right[..|right| - 1];
      CoveringInOrder(left, init, t);
      assert (left + right)[..|left + right| - 1] == left + init;
    }
  }

  /** `r` is the first of the rules with its id. */
  ghost predicate FirstHolder(rules: seq<Rule>, id: string, r: Rule) {
    exists i :: 0 <= i < |rules| && rules[i] == r && r.id == id && forall j :: 0 <= j < i ==> rules[j].id != id
  }

  lemma FirstHolderStays(rules: seq<Rule>, last: Rule, id: string, r: Rule)
    requires FirstHolder(rules, id, r)
    ensures FirstHolder(rules + [last], id, r)
  {
    var i :| 0 <= i < |rules| && rules[i] == r && r.id == id && forall j :: 0 <= j < i ==> rules[j].id != id;
    assert (rules + [last])[i] == r;
  }

  lemma LastIsFirstHolder(rules: seq<Rule>, last: Rule)
    requires last.id !in IdSet(rules)
    ensures FirstHolder(rules + [last], last.id, last)
  {
    forall j | 0 <= j < |rules| ensures rules[j].id != last.id {
      assert rules[j] in rules;
    }
    assert (rules + [last])[|rules|] == last;
  }

  /** Defaults never replace: an id keeps its rule, and a new one gets its first holder. */
  lemma {:induction false} DefaultsKeep(selected: map<string, Rule>, rules: seq<Rule>)
    ensures var result := WithDefaults(selected, rules);
            && result.Keys == selected.Keys + IdSet(rules)
            && forall id <- result ::
                 if id in selected then result[id] == selected[id] else FirstHolder(rules, id, result[id])
  {
    if rules == [] {
      assert IdSet(rules) == {};
    } else {
      var init, last := rules[..|rules| - 1], rules[|rules| - 1];
      DefaultsKeep(selected, init);
      assert rules == init + [last];
      IdSetConcat(init, [last]);
      assert IdSet([last]) == {last.id};
      var result := WithDefaults(selected, rules);
      forall id | id in result && id !in selected ensures FirstHolder(rules, id, result[id]) {
        if id in IdSet(init) {
          FirstHolderStays(init, last, id, result[id]);
        } else {
          LastIsFirstHolder(init, last);
        }
      }
    }
  }

  /** A further family adds the picks whose ids are new, and leaves the union otherwise alone. */
  lemma UnionGrows(ranking: seq<Rule>, families: seq<string>, family: string, minPerFamily: int)
    ensures var before := FamilyUnion(ranking, families, minPerFamily);
            var after := FamilyUnion(ranking, families + [family], minPerFamily);
            var picks := Picks(ranking, family, minPerFamily);
            && after.Keys == before.Keys + IdSet(picks)
            && forall id <- after :: if id in before then after[id] == before[id] else FirstHolder(picks, id, after[id])
    ensures FamilyUnion(ranking, [], minPerFamily) == map[]
  {
    assert (families + [family])[..|families|] == families;
    DefaultsKeep(FamilyUnion(ranking, families, minPerFamily), Picks(ranking, family, minPerFamily));
  }

  /** What the outcome lists: the selected rules, the ids of each family's picks best first, and the
      three counts. */
  lemma OutcomeLists(rules: seq<Rule>, families: seq<string>, minPerFamily: int, minTotal: int, qualityFloor: real)
    ensures var result := CuratedOf(rules, families, minPerFamily, minTotal, qualityFloor);
            var ranking := Ranking(rules, qualityFloor);
            var selected := Selection(ranking, families, minPerFamily, minTotal);
            && (forall r :: r in result.rules <==> r.id in selected && selected[r.id] == r)
            && (forall f :: f in result.picks <==> f in families)
            && (forall f <- families :: ListsIds(result.picks[f], Picks(ranking, f, minPerFamily)))
            && result.stats.considered == |rules|
            && result.stats.eligible == |ranking|
            && result.stats.selected == |result.rules|
  {
    var ranking := Ranking(rules, qualityFloor);
    var selected := Selection(ranking, families, minPerFamily, minTotal);
    RankingContents(rules, qualityFloor);
    SelectionOptimal(rules, families, minPerFamily, minTotal, qualityFloor);
    ListedAreSelected(selected, ranking);
  }

  lemma ListedAreSelected(selected: map<string, Rule>, ranking: seq<Rule>)
    requires Tracks(selected, ranking)
    ensures forall r :: r in InKeyOrder(selected) <==> r.id in selected && selected[r.id] == r
  {
    InKeyOrderContents(selected, ranking);
    forall r ensures r in InKeyOrder(selected) <==> r.id in selected && selected[r.id] == r {
      if r in InKeyOrder(selected) {
        assert r.id in IdSet(InKeyOrder(selected));
        SameIdSameRule(InKeyOrder(selected), r, selected[r.id]);
      }
    }
  }

  predicate ListsIds(ids: seq<string>, rules: seq<Rule>) {
    |ids| == |rules| && forall i :: 0 <= i < |ids| ==> ids[i] == rules[i].id
  }

  /** The selection fills the union up from the ranked rules with other ids. */
  lemma SelectionFills(ranking: seq<Rule>, families: seq<string>, minPerFamily: int, minTotal: int)
    returns (rest: seq<Rule>, n: nat)
    ensures var union := FamilyUnion(ranking, families, minPerFamily);
            && rest == Filter((r: Rule) => r.id !in union, ranking)
            && n <= |rest|
            && Extends(Selection(ranking, families, minPerFamily, minTotal), union, rest[..n])
            && forall m :: 0 <= m < n ==> |union.Keys + IdSet(rest[..m])| < minTotal
  {
    var union := FamilyUnion(ranking, families, minPerFamily);
    rest := Filter((r: Rule) => r.id !in union, ranking);
    n := TopUpTakesPrefix(union, rest, minTotal);
  }
}
