/**
 Selection of the curated rule set: classification of a rule into families, the
 greedy selection with its loops, its specification, and the coverage gate.
 */
module Curation {
  import opened Sorting
  import Text

  // ----- data -----

  /** A parsed rule: the attributes that selection reads, and the rest of it, which
      selection only copies. */
  datatype Rule = Rule(id: string, families: seq<string>, score: real, details: string)

  /** What classification reads of a rule; techniques, tactics, product and category are
      already in the letter case they are compared in. */
  datatype Traits = Traits(techniques: set<string>, tactics: set<string>, product: string, category: string)

  datatype FamilySpec = FamilySpec(
    id: string, techniques: set<string>, tactics: set<string>, categories: set<string>, logSources: set<string>)

  predicate Distinct<T(==)>(s: seq<T>) {
    forall i, j :: 0 <= i < j < |s| ==> s[i] != s[j]
  }

  // ----- classification -----

  predicate Covers(spec: FamilySpec, t: Traits) {
    || t.techniques * spec.techniques != {}
    || t.tactics * spec.tactics != {}
    || (t.category != "" && t.category in spec.categories)
    || (t.product != "" && exists s <- spec.logSources :: Text.Contains(t.product, s))
  }

  /** The covering families, in the order of the table. */
  function CoveringIds(specs: seq<FamilySpec>, t: Traits): seq<string> {
    if specs == [] then []
    else
      var last := specs[|specs| - 1];
      CoveringIds(specs[..|specs| - 1], t) + if Covers(last, t) then [last.id] else []
  }

  /** `_classify` */
  method Classify(specs: seq<FamilySpec>, t: Traits) returns (matched: seq<string>)
    requires forall i, j :: 0 <= i < j < |specs| ==> specs[i].id != specs[j].id
    ensures forall f :: f in matched <==> exists i :: 0 <= i < |specs| && specs[i].id == f && Covers(specs[i], t)
    ensures Distinct(matched)
    ensures matched == CoveringIds(specs, t)
  {
    matched := [];
    for i := 0 to |specs|
      invariant matched == CoveringIds(specs[..i], t)
      invariant forall f :: f in matched <==> exists k :: 0 <= k < i && specs[k].id == f && Covers(specs[k], t)
      invariant Distinct(matched)
    {
      assert specs[i].id !in matched;
      assert specs[..i + 1][..i] == specs[..i] && matched + [] == matched;
      if t.techniques * specs[i].techniques != {} {
        matched := matched + [specs[i].id];
        continue;
      }
      if specs[i].tactics != {} && t.tactics * specs[i].tactics != {} {
        matched := matched + [specs[i].id];
        continue;
      }
      if t.category != "" && t.category in specs[i].categories {
        matched := matched + [specs[i].id];
        continue;
      }
      if t.product != "" && exists s <- specs[i].logSources :: Text.Contains(t.product, s) {
        matched := matched + [specs[i].id];
        continue;
      }
    }
    assert specs[..|specs|] == specs;
  }

  // ----- specification of the selection -----

  /** `sorted(..., key=lambda r: (-r.quality_score, r.rule_id))` */
  predicate RankLe(a: Rule, b: Rule) {
    a.score > b.score || (a.score == b.score && StringLe(a.id, b.id))
  }

  function Eligible(rules: seq<Rule>, qualityFloor: real): seq<Rule> {
    Filter((r: Rule) => r.score >= qualityFloor, rules)
  }

  /** The eligible rules, best first. */
  function Ranking(rules: seq<Rule>, qualityFloor: real): seq<Rule> {
    Sort(RankLe, Eligible(rules, qualityFloor))
  }

  /** The part of a ranking that covers a family. */
  function InFamily(ranking: seq<Rule>, family: string): seq<Rule> {
    Filter((r: Rule) => family in r.families, ranking)
  }

  function Cap(minPerFamily: int): nat {
    if minPerFamily <= 0 then 0 else minPerFamily * 4
  }

  function Min(a: int, b: int): int {
    if a <= b then a else b
  }

  function Max(a: int, b: int): int {
    if a >= b then a else b
  }

  /** The rules a family contributes: the top of its ranking, up to the cap. */
  function Picks(ranking: seq<Rule>, family: string, minPerFamily: int): seq<Rule> {
    var ranked := InFamily(ranking, family);
    ranked[..Min(Cap(minPerFamily), |ranked|)]
  }

  function Ids(rules: seq<Rule>): seq<string> {
    seq(|rules|, i requires 0 <= i < |rules| => rules[i].id)
  }

  /** `selected.setdefault(r.rule_id, r)` for each rule in turn. */
  function WithDefaults(selected: map<string, Rule>, rules: seq<Rule>): map<string, Rule> {
    if rules == [] then selected
    else
      var before, r := WithDefaults(selected, rules[..|rules| - 1]), rules[|rules| - 1];
      if r.id in before then before else before[r.id := r]
  }

  /** The union of the picks of the given families. */
  function FamilyUnion(ranking: seq<Rule>, families: seq<string>, minPerFamily: int): map<string, Rule> {
    if families == [] then map[]
    else WithDefaults(FamilyUnion(ranking, families[..|families| - 1], minPerFamily),
                      Picks(ranking, families[|families| - 1], minPerFamily))
  }

  /** The top-up: takes from `remaining` while fewer than `minTotal` rules are selected. */
  function TopUp(selected: map<string, Rule>, remaining: seq<Rule>, minTotal: int): map<string, Rule>
    decreases remaining
  {
    if remaining == [] || |selected| >= minTotal then selected
    else TopUp(selected[remaining[0].id := remaining[0]], remaining[1..], minTotal)
  }

  function Selection(ranking: seq<Rule>, families: seq<string>, minPerFamily: int, minTotal: int): map<string, Rule> {
    var union := FamilyUnion(ranking, families, minPerFamily);
    TopUp(union, Filter((r: Rule) => r.id !in union, ranking), minTotal)
  }

  /** The ids each family lists. */
  function PickedIdLists(ranking: seq<Rule>, families: seq<string>, minPerFamily: int): map<string, seq<string>> {
    map f | f in families :: Ids(Picks(ranking, f, minPerFamily))
  }

  datatype Stats = Stats(considered: nat, eligible: nat, selected: nat)

  datatype Curated = Curated(rules: seq<Rule>, picks: map<string, seq<string>>, stats: Stats)

  /** The whole outcome as a function of the input. */
  function CuratedOf(rules: seq<Rule>, families: seq<string>,
                     minPerFamily: int, minTotal: int, qualityFloor: real): Curated
  {
    var ranking := Ranking(rules, qualityFloor);
    var selected := InKeyOrder(Selection(ranking, families, minPerFamily, minTotal));
    Curated(selected,
            PickedIdLists(ranking, families, minPerFamily),
            Stats(|rules|, |Eligible(rules, qualityFloor)|, |selected|))
  }

  // ----- the selection loops -----

  /** Classification gives every rule distinct, known families. */
  ghost predicate Classified(r: Rule, families: seq<string>) {
    Distinct(r.families) && forall f <- r.families :: f in families
  }

  lemma RankLeIsTotal()
    ensures TotalPreorder(RankLe)
  {
    forall a, b ensures RankLe(a, b) || RankLe(b, a) {
      StringLeTotal(a.id, b.id);
    }
    forall a, b, c | RankLe(a, b) && RankLe(b, c) ensures RankLe(a, c) {
      if a.score == b.score == c.score {
        StringLeTransitive(a.id, b.id, c.id);
      }
    }
  }

  /** The first loops: the rules of each family, in input order and then ranked. */
  method RankFamilies(eligible: seq<Rule>, families: seq<string>) returns (perFamily: map<string, seq<Rule>>)
    requires Distinct(families) && forall r <- eligible :: Classified(r, families)
    ensures perFamily.Keys == set f | f in families
    ensures forall f <- families :: perFamily[f] == InFamily(Sort(RankLe, eligible), f)
  {
    perFamily := map f | f in families :: [];
    for i := 0 to |eligible|
      invariant perFamily.Keys == set f | f in families
      invariant forall f <- families :: perFamily[f] == InFamily(eligible[..i], f)
    {
      perFamily := AppendToFamilies(perFamily, eligible[..i], eligible[i], families);
      assert eligible[..i + 1] == eligible[..i] + [eligible[i]];
    }
    assert eligible[..|eligible|] == eligible;
    for k := 0 to |families|
      invariant perFamily.Keys == set f | f in families
      invariant forall j :: 0 <= j < k ==> perFamily[families[j]] == Sort(RankLe, InFamily(eligible, families[j]))
      invariant forall j :: k <= j < |families| ==> perFamily[families[j]] == InFamily(eligible, families[j])
    {
      perFamily := perFamily[families[k] := Sort(RankLe, perFamily[families[k]])];
    }
    RankLeIsTotal();
    forall f | f in families ensures perFamily[f] == InFamily(Sort(RankLe, eligible), f) {
      SortFilter(RankLe, (r: Rule) => f in r.families, eligible);
    }
  }

  /** The inner loop over the families of one rule. */
  method AppendToFamilies(before: map<string, seq<Rule>>, ghost done: seq<Rule>, r: Rule, ghost families: seq<string>)
    returns (after: map<string, seq<Rule>>)
    requires before.Keys == set f | f in families
    requires forall f <- families :: before[f] == InFamily(done, f)
    requires Classified(r, families)
    ensures after.Keys == before.Keys
    ensures forall f <- families :: after[f] == InFamily(done + [r], f)
  {
    after := before;
    for j := 0 to |r.families|
      invariant after.Keys == before.Keys
      invariant forall f <- families :: after[f] == if f in r.families[..j] then before[f] + [r] else before[f]
    {
      assert r.families[j] in r.families;
      assert r.families[j] !in r.families[..j];
      assert r.families[..j + 1] == r.families[..j] + [r.families[j]];
      after := after[r.families[j] := after[r.families[j]] + [r]];
    }
    assert r.families[..|r.families|] == r.families;
    forall f | f in families ensures after[f] == InFamily(done + [r], f) {
      InFamilyAppended(done, r, f);
    }
  }

  lemma InFamilyAppended(done: seq<Rule>, r: Rule, family: string)
    ensures InFamily(done + [r], family)
            == if family in r.families then InFamily(done, family) + [r] else InFamily(done, family)
  {
    FilterConcat((x: Rule) => family in x.families, done, [r]);
    assert InFamily([r], family) == if family in r.families then [r] else [];
  }

  /** The loop over one family's ranking, up to the cap. */
  method PickFromFamily(selected: map<string, Rule>, ranked: seq<Rule>, minPerFamily: int)
    returns (after: map<string, Rule>, picked: seq<string>)
    ensures var n := Min(Cap(minPerFamily), |ranked|);
            after == WithDefaults(selected, ranked[..n]) && picked == Ids(ranked[..n])
  {
    after, picked := selected, [];
    var i := 0;
    while i < |ranked|
      invariant i <= Min(Cap(minPerFamily), |ranked|)
      invariant after == WithDefaults(selected, ranked[..i]) && picked == Ids(ranked[..i])
      decreases |ranked| - i
    {
      if |picked| >= minPerFamily * 4 {
        break;
      }
      var r := ranked[i];
      assert ranked[..i + 1][..i] == ranked[..i];
      if r.id !in after {
        after := after[r.id := r];
      }
      picked := picked + [r.id];
      i := i + 1;
    }
  }

  /** The loop over all families. */
  method PickFromFamilies(ranking: seq<Rule>, perFamily: map<string, seq<Rule>>, families: seq<string>,
                          minPerFamily: int)
    returns (selected: map<string, Rule>, familyPicks: map<string, seq<string>>)
    requires forall f <- families :: f in perFamily && perFamily[f] == InFamily(ranking, f)
    ensures selected == FamilyUnion(ranking, families, minPerFamily)
    ensures familyPicks == PickedIdLists(ranking, families, minPerFamily)
  {
    selected := map[];
    familyPicks := map f | f in families :: [];
    for k := 0 to |families|
      invariant familyPicks.Keys == set f | f in families
      invariant selected == FamilyUnion(ranking, families[..k], minPerFamily)
      invariant forall f <- families[..k] :: familyPicks[f] == Ids(Picks(ranking, f, minPerFamily))
    {
      var family := families[k];
      var picked;
      selected, picked := PickFromFamily(selected, perFamily[family], minPerFamily);
      assert picked == Ids(Picks(ranking, family, minPerFamily));
      familyPicks := familyPicks[family := picked];
      assert families[..k + 1] == families[..k] + [family];
      assert families[..k + 1][..k] == families[..k];
    }
    assert families[..|families|] == families;
  }

  /** The top-up loop. */
  method TopUpTo(minTotal: int, union: map<string, Rule>, remaining: seq<Rule>) returns (selected: map<string, Rule>)
    ensures selected == TopUp(union, remaining, minTotal)
  {
    selected := union;
    for i := 0 to |remaining|
      invariant TopUp(union, remaining, minTotal) == TopUp(selected, remaining[i..], minTotal)
    {
      if |selected| >= minTotal {
        break;
      }
      assert remaining[i..][1..] == remaining[i + 1..];
      selected := selected[remaining[i].id := remaining[i]];
    }
  }

  /** `select_curated` */
  method SelectCurated(rules: seq<Rule>, families: seq<string>, minPerFamily: int, minTotal: int, qualityFloor: real)
    returns (result: Curated)
    requires Distinct(families) && forall r <- rules :: Classified(r, families)
    ensures result == CuratedOf(rules, families, minPerFamily, minTotal, qualityFloor)
  {
    var eligible := Eligible(rules, qualityFloor);
    FilterContents((r: Rule) => r.score >= qualityFloor, rules);
    var perFamily := RankFamilies(eligible, families);
    var selected, familyPicks := PickFromFamilies(Sort(RankLe, eligible), perFamily, families, minPerFamily);
    if |selected| < minTotal {
      var remaining := Filter((r: Rule) => r.id !in selected, Sort(RankLe, eligible));
      selected := TopUpTo(minTotal, selected, remaining);
    }
    var finalRules := InKeyOrder(selected);
    return Curated(finalRules, familyPicks, Stats(|rules|, |eligible|, |finalRules|));
  }

  // ----- the gate -----

  /** The `covered` flag of a family in the manifest. */
  predicate Covered(result: Curated, family: string, minPerFamily: int) {
    var ids := if family in result.picks then result.picks[family] else [];
    |ids| >= minPerFamily
  }

  /** The quality gate: enough rules, and every family covered. */
  predicate GatePasses(result: Curated, families: seq<string>, minPerFamily: int, minTotal: int) {
    result.stats.selected >= minTotal && forall f <- families :: Covered(result, f, minPerFamily)
  }
}
