# AiSOC scripts: a verified model

The Dafny modules here model the algorithmic parts of AiSOC's maintenance scripts and prove what those parts are relied on for.

- **Detection rules.** `match_when` clauses are evaluated by a small dynamically typed engine with 21 suffix operators, equality and nested `any_of`/`all_of` (`Values`, `Operators`, `RuleEngine`, `RuleLaws`); `OperatorSemantics` says what each key reads as and what each test accepts. The fixture helpers run that engine backwards: from a flat clause they build an event that must match and a near miss that must not (`FixtureParts`, `Intervals`, `Seams`, `Acceptance`, `Composer`, `Fixtures`); `FixtureContents` says what those events hold. `FixtureTheorems` proves that generated fixtures pass replay, and exactly when they do.
- **Curation.** The greedy choice of the shipped rule set, its loops and its gate (`Sorting`, `Curation`), with the exact condition for order-independence, and optimality, exact size and the exact meaning of the gate (`CurationTheorems`), and what the outcome lists (`CurationOutcome`).
- **Adversary rewriting.** Ordered, case-insensitive keyword substitution (`Rewriting`): exactly when one substitution completes or loses a keyword, by the ways to lay copies of a text over it (`Layouts`), exactly when every step of the whole pass leaves none of the keywords done so far, and exactly which keywords a partial pass keeps, whatever else is preserved (`Mutation`).
- **Percentiles, word wrap, phase timer.** The nearest-rank percentile of the telemetry report (`Percentile`), the greedy wrapping of manifest descriptions (`WordWrap`) and the demo's phase timer (`PhaseTimer`).

`dafny verify dfyconfig.toml` checks everything.

## How the model reads the scripts

- Values are null, Booleans, numbers, strings and lists. Equality treats a Boolean as its number, as Python does. Numbers are reals.
- Where Python would raise an exception, the evaluator's verdict is `Raises`. A failed construction is a `Result` with its cause.
- The Python runtime is a parameter (`Values.Python`): the case table behind `str.lower`, which maps each character to a string on its own; `str()` of numbers and lists; and `re.search`. Every theorem holds for every such runtime.
- A glob `*` becomes `.*`, so it does not cross a line feed, and `$` also matches before a final one; `Text.GlobMatch` says so.
- A layout lays copies of a text over a keyword at offsets where both agree, none reaching into the next. It is producible if, with the rewritten key in those places, a left-to-right scan matches there and nowhere else; `Layouts.Filled` is the text that results.
- Loops are methods, proved equal to a specification function over the same input; the theorems are about those functions. Python dictionaries whose order is never observed are maps, clause dictionaries are sequences of items.

## Where the scripts and their comments differ

The model follows the code. These statements of the scripts' own comments do not hold, and the lemmas named here give the input or the exact condition.

- The composer's documentation promises a value strictly inside the interval (scripts/detection_specs_part3_helpers.py:205-206). Ends that cross can still work, and a `gte`/`lt` gap under one never does: `Intervals.PickedExact`, `Intervals.HalfOpenPairExact`.
- Deny-lists are said not to be hit by synthetic parts (scripts/detection_specs_part3_helpers.py:214-217). The parts a rule asks for can hit them, in one part or across seams: `FixtureTheorems.ComposedTextDenied`, and exactly when: `FixtureTheorems.GroupExact` with `Acceptance.AcceptsExact`.
- A shifted prefix or suffix is meant as a near miss (scripts/detection_specs_part3_helpers.py:152-157). It still matches for repetitive operands: `FixtureParts.NegForExact`, `FixtureTheorems.ShiftedNegativeMatches`.
- "Every keyword" is to be replaced in a full pass (scripts/generate_adversary_incidents.py:387). Shipped alternates leave one behind, in three different ways: `Mutation.OwnKeyInAlternate`, `Mutation.OwnKeyAcrossBorder`, `Mutation.EarlierKeyAcrossBorder`. The load-time check looks for containment only, and exempts an alternate's own key. The exact conditions, for any table: `Layouts.LeavesNoneExactly` for one substitution, `Mutation.PassLeavesNoKeyExactly` for every step of the pass.
- A partial pass is to leave the defender a route (scripts/generate_adversary_incidents.py:402). A preserved keyword inside a longer rewritten one is lost: `Mutation.PreservedKeywordLost`. Exactly which keywords survive in every text, for given preserved keywords and any more: `Mutation.PartialPassKeepsExactly`. For one fixed set of preserved keywords, `Mutation.PassKeepsOrLoses` has a condition under which a keyword survives and one under which it does not.
- Single-word keys are said to match on word boundaries, so that "macro" leaves "macroeconomics" alone (scripts/generate_adversary_incidents.py:69-72). The patterns have none: every key that begins a longer word is replaced (`Mutation.LeadingKeyReplaced`), this one too (`Mutation.WordBoundaryIgnored`).
- Rankings are called deterministic on ties (scripts/curate_detections.py:669). Two rules with the same id and score keep their input order: `CurationTheorems.OrderMattersForDuplicateIds`, and exactly when: `CurationTheorems.RankingCanonical`, and for the whole outcome `CurationTheorems.CurationCanonicalExactly`.
- Families are said to take rules until the floor is reached (scripts/curate_detections.py:659-660); the code takes up to four times the floor: `CurationTheorems.PicksOptimal`.

## Model

The plain cases have no row: the texts of values and the tests that fail on other types (`OperatorSemantics`), the samples and pieces for one operand (`FixtureContents`), and the single steps of the phase timer (`PhaseTimer.StepsMean`, `PhaseTimer.DurationsMean`).

| member | source | states |
|---|---|---|
| `Operators.SplitOpReads` | scripts/detection_specs_part3_helpers.py:60-65 | both copies of the key parser return the same field and operator: those of the longest operator suffix the key ends with, which rebuild the key |
| `Operators.SplitIsReading` | scripts/generate_detections.py:66-107 | any complete table sorted by falling suffix length parses a key to that reading, whatever the order among equal lengths |
| `Operators.ReadingUnique` | scripts/generate_detections.py:66-70 | a key has only one longest-suffix reading |
| `Operators.SplitOpInjective` | scripts/generate_detections.py:102-107 | distinct keys never parse to the same field and operator |
| `Operators.NotStartsWithAnyIsNoOperator` | scripts/detection_specs_part3_endpoint.py:526 | for every field name, a key ending in `_not_startswith_any` tests a field ending in `_not` with `startswith_any` |
| `OperatorSemantics.ComparisonKeysRead` | scripts/generate_detections.py:94-98 | for every field name, the keys ending in `_gt`, `_gte`, `_lt` and `_lte` read as the field and that comparison |
| `OperatorSemantics.TextKeysRead` | scripts/generate_detections.py:83-91 | so do `_contains`, `_contains_all`, `_startswith_any`, `_endswith` and `_has_any` |
| `OperatorSemantics.NegatedKeysRead` | scripts/generate_detections.py:78-92 | so do `_not_in`, `_not_startswith`, `_not_endswith_any` and `_not_contains_any` |
| `OperatorSemantics.PatternKeysRead` | scripts/generate_detections.py:77-80 | so do `_pattern_match` and `_pattern_match_any` |
| `OperatorSemantics.ShadowedKeysRead` | scripts/generate_detections.py:66-70 | the six suffixes that end a longer one read as themselves on every field name that does not complete it |
| `OperatorSemantics.EqualityMeans` | scripts/generate_detections.py:182-185 | values are equal by text, by number with Booleans as 0 and 1, and lists element by element |
| `OperatorSemantics.OneTest` | scripts/generate_detections.py:179-180 | a clause of one test asks it of the value under its field, or of null |
| `OperatorSemantics.ComparisonsMean` | scripts/generate_detections.py:187-196 | the four comparisons hold exactly for numbers on their side of the bound; Booleans never compare |
| `OperatorSemantics.MembershipMeans` | scripts/generate_detections.py:182-202 | `eq`, `in` and `not_in` by equality with the operand, with some element, with none; no list, no match |
| `OperatorSemantics.EndsMean` | scripts/generate_detections.py:250-269 | prefix and suffix tests on text hold exactly if the text can be cut there |
| `OperatorSemantics.ListedEndsMean` | scripts/generate_detections.py:253-310 | their list forms hold exactly if the single form does for some element, or for none |
| `OperatorSemantics.ContainsMeans` | scripts/generate_detections.py:271-277 | `contains` is a substring of text or an equal element of a list, and fails on anything else |
| `OperatorSemantics.NeedlesInList` | scripts/generate_detections.py:204-319 | on lists `has_any`, `contains_any`, `contains_all` and `not_contains_any` compare the lower-cased texts of needles and elements: some pair, some element for every needle, no pair |
| `OperatorSemantics.NeedlesInText` | scripts/generate_detections.py:209-217 | on other values the needle tests look for the lower-cased needles as substrings |
| `OperatorSemantics.NeedlesFromOthers` | scripts/generate_detections.py:207-217 | an operand that is text is read as its characters; other operands that are no lists raise, or fail in the two tests that guard them |
| `OperatorSemantics.PatternsMean` | scripts/generate_detections.py:219-232 | `match_any` holds exactly if, for some pattern, the text is the pattern with its stars replaced by runs without a line feed, up to a final one, or is the pattern itself if it has no stars |
| `OperatorSemantics.SearchesMean` | scripts/generate_detections.py:234-302 | the pattern tests follow the search, or, where a pattern does not compile, its lower-cased text as a substring |
| `OperatorSemantics.FirstItemDecides` | scripts/generate_detections.py:326-342 | a clause has the verdict of its first item that is not true |
| `OperatorSemantics.AnyOfDecides` | scripts/generate_detections.py:327-332 | `any_of` has the verdict of its first sub-clause that is not false |
| `OperatorSemantics.AllOfDecides` | scripts/generate_detections.py:333-338 | `all_of` has the verdict of its first sub-clause that is not true |
| `RuleLaws.FieldsUsed` | scripts/detection_specs_part3_helpers.py:187-198 | the nested loops collect exactly the fields a clause names at any depth |
| `RuleLaws.FieldsOfExact` | scripts/detection_specs_part3_helpers.py:187-198 | a field is named by a clause exactly if the key of one of its tests reads as it, or a sub-clause names it |
| `RuleLaws.Locality` | scripts/generate_detections.py:324-347 | events that agree on the named fields get the same verdict from any nested clause, exceptions included |
| `RuleLaws.RaisesExactly` | scripts/generate_detections.py:187-217 | a test can raise for some value exactly when its operand has the wrong type for its operator |
| `RuleLaws.EvalDecidesMeaning` | scripts/generate_detections.py:324-342 | on well-typed clauses the short-circuiting evaluator never raises and agrees with the order-free meaning: all items, some sub-clause, all sub-clauses |
| `RuleLaws.OrderIrrelevant` | scripts/generate_detections.py:324-347 | reordering or repeating keys and sub-clauses at any depth keeps the verdict of well-typed clauses |
| `RuleLaws.MatchesEachItem` | scripts/generate_detections.py:326-342 | a clause matches exactly when each item does, even where items may raise |
| `RuleLaws.MatchesSplit` | scripts/generate_detections.py:326-342 | a clause cut in two is the conjunction of its parts, the second reached only if the first holds |
| `RuleLaws.FalseItemDecides` | scripts/generate_detections.py:339-342 | one false item keeps a clause from matching wherever it stands, and makes a well-typed clause false |
| `Text.StarsToXMatches` | scripts/detection_specs_part3_helpers.py:81-85 | replacing every star by `x` gives a text the anchored wildcard match accepts, for every pattern |
| `Text.GlobExact` | scripts/generate_detections.py:226-229 | the anchored match of a pattern accepts exactly the texts, with or without a final line feed, that replace its stars by runs without a line feed |
| `FixtureParts.GlobSampleAccepted` | scripts/generate_detections.py:219-232 | that text passes the `match_any` test of its pattern, by wildcard or, without stars, by equality |
| `Text.ShiftedPrefix` | scripts/detection_specs_part3_helpers.py:152-153 | putting a word before a text leaves the text as a prefix exactly if the text is a prefix of the word repeated for ever |
| `Text.ShiftedSuffix` | scripts/detection_specs_part3_helpers.py:156-157 | the mirror image for suffixes |
| `Text.LowerKeepsSubstrings` | scripts/generate_detections.py:209-210 | a substring stays one after lower-casing both, for any case table |
| `FixtureParts.PastedNeedleFound` | scripts/generate_detections.py:204-210 | a needle is found, lower-cased, wherever its text was pasted |
| `FixtureParts.PosForExact` | scripts/detection_specs_part3_helpers.py:73-127 | for every operator and operand the passing sample passes its test exactly on the operands `PosOk` lists |
| `FixtureParts.NegForExact` | scripts/detection_specs_part3_helpers.py:130-180 | for every operator and operand the failing sample makes its test false exactly on the operands `NegOk` lists; for the shifted ends these are the non-repetitive ones |
| `Intervals.LowerEndIsMaximum` | scripts/detection_specs_part3_helpers.py:225-231 | the lower end is the greatest lower bound with strict bounds raised by one, attained, and infinite only without lower bounds |
| `Intervals.UpperEndIsMinimum` | scripts/detection_specs_part3_helpers.py:226-235 | the upper end is the least upper bound with strict bounds lowered by one, attained, and infinite only without upper bounds |
| `Intervals.PickedExact` | scripts/detection_specs_part3_helpers.py:222-244 | the picked number meets all bounds exactly if an end is missing, or the ends do not cross, or they cross by less than two and every inclusive bound leaves room for the middle between them |
| `Intervals.UnmixedBoundsComplete` | scripts/detection_specs_part3_helpers.py:222-244 | with only strict or only inclusive bounds the picked number works whenever any number does |
| `Intervals.IntegerBoundsComplete` | scripts/detection_specs_part3_helpers.py:222-244 | with integer bounds it works whenever an integer does |
| `Intervals.StrictPairExact` | scripts/detection_specs_part3_helpers.py:228-243 | for `gt a`, `lt c` it works exactly when a < c, crossed ends included |
| `Intervals.HalfOpenPairExact` | scripts/detection_specs_part3_helpers.py:230-243 | for `gte a`, `lt c` it works exactly when c - a is at least one, though solutions exist whenever a < c |
| `Seams.OccursAcrossExact` | scripts/detection_specs_part3_helpers.py:214-217 | glued parts contain a text exactly if one part does, or the text begins as the end of a part and goes on through the next ones |
| `Seams.StartsAcrossExact` | scripts/detection_specs_part3_helpers.py:299-301 | glued parts have a prefix exactly if the first part has it, or it uses that part up and the rest have what is left of it |
| `Seams.EndsAcrossExact` | scripts/detection_specs_part3_helpers.py:299-301 | the mirror image for suffixes |
| `Seams.GlobAcrossExact` | scripts/generate_detections.py:219-232 | glued parts match a pattern exactly if it can be cut at every seam, between characters or inside what a star accepts |
| `Acceptance.AcceptsExact` | scripts/generate_detections.py:179-321 | the test of a synthesised value, decided for every operator on the parts, the number, the list element or the operand the value is made of |
| `Acceptance.FlipShapeMakesNegFor` | scripts/detection_specs_part3_helpers.py:130-180 | what every failing sample is made of |
| `Composer.ComposedShapeMakesComposed` | scripts/detection_specs_part3_helpers.py:225-301 | what every composed value is made of |
| `Composer.PickNumber` | scripts/detection_specs_part3_helpers.py:225-244 | the bounds loop and the choice compute the number between the two ends |
| `Composer.CollectParts` | scripts/detection_specs_part3_helpers.py:265-289 | the string loop keeps the last prefix, the last suffix and all middle pieces in order |
| `Composer.ComposeText` | scripts/detection_specs_part3_helpers.py:264-301 | the composed string is prefix, pieces, suffix, or the sentinel if there is none |
| `Composer.ComposeFieldValue` | scripts/detection_specs_part3_helpers.py:201-301 | the branches choose numbers, then `eq`, `in`, `has_any`, then text |
| `FixtureContents.NumericFieldMeans` | scripts/detection_specs_part3_helpers.py:223-224 | a field is numeric exactly if it has a bound and all its bounds are numbers |
| `FixtureContents.ComposedByOperand` | scripts/detection_specs_part3_helpers.py:246-262 | on other fields the first `eq` decides, or else the first element of the first `in`, or else of the first `has_any` |
| `FixtureContents.TextComposed` | scripts/detection_specs_part3_helpers.py:294-301 | otherwise the value is prefix, middle pieces and suffix, or the sentinel where there is none |
| `FixtureContents.EndsDecided` | scripts/detection_specs_part3_helpers.py:269-278 | prefix and suffix come from the last constraint that asks for one |
| `FixtureContents.MiddleConcat` | scripts/detection_specs_part3_helpers.py:268-289 | the middle pieces stand in the order of their constraints |
| `Composer.ComposedContains` | scripts/detection_specs_part3_helpers.py:279-301 | the composed string contains every collected piece |
| `Composer.ComposedEnds` | scripts/detection_specs_part3_helpers.py:269-301 | it starts with the required prefix and ends with the required suffix |
| `Composer.ComposedSatisfies` | scripts/detection_specs_part3_helpers.py:201-301 | the composed value passes the evaluator's test of every guaranteed constraint, whatever the other constraints are |
| `Composer.ComposableSatisfied` | scripts/detection_specs_part3_helpers.py:201-218 | composable constraints all pass on one value: bounds with room, or text whose deny-lists are hit in no part and across no seam |
| `Fixtures.GroupByField` | scripts/detection_specs_part3_helpers.py:316-319 | the grouping loop gives each field its constraints in key order |
| `Fixtures.BuildPositive` | scripts/detection_specs_part3_helpers.py:304-327 | the positive has exactly the clause's fields with their single or composed values; nested clauses are refused |
| `FixtureContents.ConstraintsInOrder` | scripts/detection_specs_part3_helpers.py:316-319 | the constraints of a field stand in key order |
| `FixtureContents.PositiveHolds` | scripts/detection_specs_part3_helpers.py:321-327 | the positive has exactly the clause's fields; a field with one constraint holds its sample, any other the composed value |
| `Fixtures.BuildNegative` | scripts/detection_specs_part3_helpers.py:330-361 | the negative is the positive with the first item on the requested field, or the first item, flipped; the three failures |
| `FixtureContents.TargetIs` | scripts/detection_specs_part3_helpers.py:347-359 | the item flipped is the first one, or the first one on the requested field |
| `FixtureContents.NegativeHolds` | scripts/detection_specs_part3_helpers.py:341-361 | the flipped item's field holds that item's failing sample, every other field what it holds in the positive |
| `Fixtures.S` | scripts/detection_specs_part3_helpers.py:375-439 | the fixtures and fields of a spec from explicit or generated events and extras |
| `FixtureContents.SpecHolds` | scripts/detection_specs_part3_helpers.py:410-439 | an extra field holds its extra value, every other field what the explicit or generated event holds; the fields are the clause's |
| `FixtureContents.SpecFails` | scripts/detection_specs_part3_helpers.py:336-356 | the three errors |
| `FixtureTheorems.FlatMeansNoCompound` | scripts/detection_specs_part3_helpers.py:183-184 | the compound check passes exactly the flat clauses |
| `FixtureTheorems.MatchesByField` | scripts/generate_detections.py:324-347 | a flat clause matches exactly when, field by field, all constraints pass |
| `FixtureTheorems.GroupExact` | scripts/detection_specs_part3_helpers.py:201-301 | one value for several constraints passes them all exactly if, by branch: bounds leave room and every other operand accepts the number; the deciding operand is accepted; each text constraint is served by composition or accepts the parts |
| `FixtureTheorems.LiteralFieldComplete` | scripts/detection_specs_part3_helpers.py:246-249 | on a field equated with a string or null the composed value passes whenever any value does |
| `FixtureTheorems.PositiveExact` | scripts/detection_specs_part3_helpers.py:304-327 | the positive of any flat clause matches it exactly if each field is in order: `PosOk` for a single constraint, `GroupOk` for several, both on operands |
| `FixtureTheorems.PositiveSound` | scripts/detection_specs_part3_helpers.py:410-415 | in the fragment the positive matches, with any extras on other fields |
| `FixtureTheorems.NegativeAgreesElsewhere` | scripts/detection_specs_part3_helpers.py:341-361 | the negative equals the positive on all other fields |
| `FixtureTheorems.NegativeSound` | scripts/detection_specs_part3_helpers.py:345-361 | under `NegOk` the target is false and the negative does not match, whatever else shares the field and whatever extras are added off it |
| `FixtureTheorems.NegativeExact` | scripts/detection_specs_part3_helpers.py:330-361 | where the positive matches, the negative is rejected exactly if the target's operand is `NegOk` or another item on that field does not accept what the flip is made of |
| `FixtureTheorems.NegativeExactAlone` | scripts/detection_specs_part3_helpers.py:330-361 | with no other item on that field, exactly if `NegOk` holds |
| `FixtureTheorems.MatchedClauseWellTyped` | scripts/generate_detections.py:324-347 | a flat clause that matches some event can raise on none |
| `FixtureTheorems.GeneratedFixturesReplay` | scripts/validate_detections.py:374-382 | generated fixtures of a clause in the fragment, the flip on the first item or the first one on the requested field, pass replay: positive matches, negative does not |
| `FixtureTheorems.GeneratedFixturesReplayExactly` | scripts/validate_detections.py:374-382 | without extras, for that same item, replay passes exactly if every field is in order on its operands, and the flip breaks its target or is not accepted by another item on its field |
| `FixtureTheorems.GenerationFailsExactly` | scripts/detection_specs_part3_helpers.py:336-356 | generation fails exactly on nested clauses, empty clauses and untested fields to flip |
| `FixtureTheorems.ShiftedNegativeMatches` | scripts/detection_specs_part3_helpers.py:152-153 | the operand `x-` has a negative that matches |
| `FixtureTheorems.ComposedTextDenied` | scripts/detection_specs_part3_helpers.py:214-217 | three satisfiable constraints whose composed text fails the deny-list |
| `Curation.Classify` | scripts/curate_detections.py:498-531 | the matched families are exactly those one of whose four criteria holds, without repetition and in the order of the table |
| `CurationOutcome.CoversMeans` | scripts/curate_detections.py:514-529 | a rule is in a family exactly if they share a technique, a tactic or the category, or its log source has one of the family's as a substring |
| `CurationOutcome.CoveringInOrder` | scripts/curate_detections.py:513-531 | families are listed in the order of the table |
| `Curation.AppendToFamilies` | scripts/curate_detections.py:671-673 | one rule is appended to each of its families and to no other |
| `Curation.RankFamilies` | scripts/curate_detections.py:670-675 | each family's sorted list is the family's part of the global ranking |
| `Curation.PickFromFamily` | scripts/curate_detections.py:681-689 | the capped loop takes the first four times the floor, and first come keeps an id |
| `Curation.PickFromFamilies` | scripts/curate_detections.py:677-689 | the union and the picks of all families |
| `Curation.TopUpTo` | scripts/curate_detections.py:699-703 | the top-up loop |
| `Curation.SelectCurated` | scripts/curate_detections.py:647-716 | the whole selection as a function of the rules |
| `Sorting.StringLeExact` | scripts/curate_detections.py:675 | an id comes no later than another exactly if it is a beginning of it or has the smaller character where they first differ |
| `CurationTheorems.RankingExact` | scripts/curate_detections.py:667-697 | the ranking holds each eligible rule as often as the input, by falling score, and for equal scores by the first difference of their ids; ties keep the input order |
| `CurationTheorems.RankingCanonical` | scripts/curate_detections.py:667-675 | the ranking depends only on which rules there are exactly if no two different eligible rules share score and id |
| `CurationTheorems.DistinctIdsNeverTie` | scripts/curate_detections.py:674-675 | rules with distinct ids never tie, so order never matters for them |
| `CurationTheorems.CurationCanonical` | scripts/curate_detections.py:647-716 | unless two different eligible rules share score and id, every permutation of the input gives the same rules, picks and statistics |
| `CurationTheorems.CurationCanonicalExactly` | scripts/curate_detections.py:647-716 | over all floors and totals exactly then, where eligible rules of one id have one score |
| `CurationTheorems.TieHidden` | scripts/curate_detections.py:699-703 | otherwise a tie between a better and a worse rule of the same id never shows |
| `CurationTheorems.OrderMattersForDuplicateIds` | scripts/curate_detections.py:691-706 | for any families and floor, of two rules of no family sharing id and score the first one read is selected |
| `CurationTheorems.PicksOptimal` | scripts/curate_detections.py:680-689 | a family's picks are its top min(4 * floor, family size) eligible rules, each with a higher score, or the same and no later an id, than the next and than all eligible ones of the family not picked; repeated ids included |
| `CurationTheorems.FamilyUnionKeys` | scripts/curate_detections.py:677-689 | the union holds exactly the picked ids, each with a ranked rule of that id |
| `CurationOutcome.DefaultsKeep` | scripts/curate_detections.py:688 | setting defaults keeps every rule there is and gives a new id its first holder |
| `CurationOutcome.UnionGrows` | scripts/curate_detections.py:680-689 | each family adds the picks with new ids to the union and changes nothing else |
| `CurationTheorems.UnpickedSize` | scripts/curate_detections.py:693-699 | picked and remaining ids add up to the eligible ids |
| `CurationTheorems.TopUpTakesPrefix` | scripts/curate_detections.py:700-703 | the top-up adds a prefix of the remaining rules, no longer than the total asks, under their ids, the last holder of an id staying, and nothing else |
| `CurationTheorems.TopUpSize` | scripts/curate_detections.py:700-703 | it reaches the total or takes every id there is |
| `CurationTheorems.SelectionOptimal` | scripts/curate_detections.py:680-703 | all picked ids are selected, the size is known, and every rule added has a higher score, or the same and no later an id, than every eligible rule whose id is left out; repeated ids included |
| `CurationTheorems.CuratedRules` | scripts/curate_detections.py:705-711 | the result is strictly sorted by id, eligible, has all picked ids and max(picked ids, min(total floor, eligible ids)) rules, and those not picked rank before all eligible rules left out |
| `CurationTheorems.PicksCurated` | scripts/curate_detections.py:705-711 | with distinct ids it has the picked rules themselves |
| `CurationOutcome.OutcomeLists` | scripts/curate_detections.py:705-716 | the outcome lists exactly the selected rules, the ids of each family's picks in order, and the numbers of rules, eligible rules and selected rules |
| `CurationOutcome.SelectionFills` | scripts/curate_detections.py:691-703 | the selection is the union of the picks with a prefix of the other ranked rules, no longer than the total asks |
| `CurationTheorems.GateExact` | scripts/curate_detections.py:921-924 | the gate passes exactly if there are enough distinct eligible ids in all and enough eligible rules in every family; the cap never uncovers a coverable family |
| `Rewriting.SubstituteAtFirst` | scripts/generate_adversary_incidents.py:393 | substitution replaces the leftmost match and goes on behind it |
| `Rewriting.SubstituteIdentity` | scripts/generate_adversary_incidents.py:391-393 | text without the keyword is left alone |
| `Rewriting.OccursMeans` | scripts/generate_adversary_incidents.py:351-356 | a keyword occurs exactly if the text can be cut around a part that equals it up to case |
| `Rewriting.TouchesExact` | scripts/generate_adversary_incidents.py:320-330 | an alternate can overlap a keyword exactly by containment either way or by a common border |
| `Layouts.FindLayout` | scripts/generate_adversary_incidents.py:391-393 | wherever the text before or after a substitution has a keyword, the matches that overlap it form a layout over it that a scan can produce, and the other text holds that layout filled the other way |
| `Layouts.SubstituteClearsExactly` | scripts/generate_adversary_incidents.py:386-394 | a substitution removes its keyword from every text exactly if every overlap of alternate and keyword is one a left-to-right scan cannot produce |
| `Layouts.LeavesNoneExactly` | scripts/generate_adversary_incidents.py:391-393 | for any key, alternate and keyword, a substitution never completes the keyword in a text free of it (its own key: in any text) exactly if every producible layout of the alternate comes from a text that has the keyword already (its own key: if there is none) |
| `Layouts.SubstituteAddsNone` | scripts/generate_adversary_incidents.py:391-393 | it brings back no absent keyword its alternate cannot overlap |
| `Layouts.SubstituteKeeps` | scripts/generate_adversary_incidents.py:397-417 | it keeps every keyword the rewritten one cannot overlap |
| `Layouts.SubstituteKeepsExactly` | scripts/generate_adversary_incidents.py:391-393 | for any key, alternate and keyword, a substitution keeps the keyword in every text exactly if every producible layout of the key over it still shows it once the alternate stands there |
| `Mutation.MutateTextFull` | scripts/generate_adversary_incidents.py:386-394 | the full loop is the ordered pass over all keys |
| `Mutation.MutateTextPartial` | scripts/generate_adversary_incidents.py:397-417 | the partial loop is the partial pass |
| `Mutation.PassFirst` | scripts/generate_adversary_incidents.py:386-394 | a pass over a key and further ones is the pass over the further ones on the text with that key substituted |
| `Mutation.PartialPassFirst` | scripts/generate_adversary_incidents.py:397-417 | so is the partial pass, which leaves the text alone for a preserved key |
| `Mutation.PartialPassOfNone` | scripts/generate_adversary_incidents.py:397-417 | with nothing preserved the partial pass is the full one |
| `Mutation.ValidatesMeans` | scripts/generate_adversary_incidents.py:311-335 | the load-time check passes exactly if no alternate contains a keyword other than its own key, in lower case |
| `Mutation.PassLeavesNoKey` | scripts/generate_adversary_incidents.py:386-394 | over a clean grammar a pass leaves no key in any text |
| `Mutation.PassLeavesNoKeyExactly` | scripts/generate_adversary_incidents.py:386-394 | for any table, every step of the pass leaves none of the keys done so far in any text exactly if each producible layout of an alternate over its own key or an earlier one comes from a text with an earlier key |
| `Mutation.PassFixesKeyFree` | scripts/generate_adversary_incidents.py:389-394 | a pass fixes text without keys |
| `Mutation.PassIdempotent` | scripts/generate_adversary_incidents.py:386-394 | over a clean grammar a second pass changes nothing |
| `Mutation.PassKeeps` | scripts/generate_adversary_incidents.py:397-417 | a keyword of the text that no rewritten key can lose survives the pass |
| `Mutation.PassKeepsOrLoses` | scripts/generate_adversary_incidents.py:386-417 | a pass keeps a keyword in every text if none of its keys can lose it, and not if one loses it in a text without earlier keys and the later ones do not bring it back |
| `Mutation.PartialPassKeepsExactly` | scripts/generate_adversary_incidents.py:397-417 | for keys distinct in lower case, a keyword survives the partial pass in every text, with these preserved keywords and any more, exactly if no other key can lose it |
| `Mutation.OwnKeyInAlternate` | scripts/generate_adversary_incidents.py:226 | "openssh session" leaves "ssh" behind, which the load-time check exempts (shown for the one keyword "ssh") |
| `Mutation.OwnKeyAcrossBorder` | scripts/generate_adversary_incidents.py:222 | "hash-replay attack" contains no key, yet a text keeps "pass-the-hash" |
| `Mutation.EarlierKeyAcrossBorder` | scripts/generate_adversary_incidents.py:246 | "ex-bound transfer" contains no key, yet the pass turns "exfiltrat to" into a text with the earlier key "transfer to", by its one layout over that key |
| `Mutation.PreservedKeywordLost` | scripts/generate_adversary_incidents.py:404-412 | "oauth" is preserved, "oauth consent" is not and can lose it, and both are gone |
| `Mutation.LeadingKeyReplaced` | scripts/generate_adversary_incidents.py:351-355 | a key that begins a longer word is replaced in it, for every key and alternate |
| `Mutation.WordBoundaryIgnored` | scripts/generate_adversary_incidents.py:351-355 | so "macro" is replaced inside "macroeconomics" |
| `Percentile.RankInRange` | scripts/eval_telemetry.py:247-248 | the rank is a position of the sample and the ceiling of its share |
| `Percentile.NearestRankExact` | scripts/eval_telemetry.py:234-248 | the percentile is the one sample value with at least its share of the sample at or below it and less below it |
| `Percentile.EdgePercentiles` | scripts/eval_telemetry.py:240-246 | an empty sample gives zero, percentages up to 0 the minimum, from 100 on the maximum |
| `Percentile.NearestRankMonotone` | scripts/eval_telemetry.py:234-248 | higher percentages never give smaller values, over all percentages |
| `Percentile.NearestRankUnordered` | scripts/eval_telemetry.py:242 | the order of the sample does not matter |
| `Percentile.SummaryOrdered` | scripts/eval_telemetry.py:251-268 | minimum, p50, p95, p99 and maximum are in order before rounding |
| `Percentile.SummaryExact` | scripts/eval_telemetry.py:251-268 | the summary has the size, the minimum, the maximum and the values at 50, 95 and 99 percent of the sample, all zero without one |
| `WordWrap.WrapDescription` | scripts/generate_p0_manifests.py:151-166 | the loop emits the rendered lines of the wrapping |
| `WordWrap.WrapExact` | scripts/generate_p0_manifests.py:157-166 | the lines are the one division of the words, in order, into lines that fit and could not take the next word; the first line's limit is one less |
| `WordWrap.LinesFit` | scripts/generate_p0_manifests.py:152-166 | no line is empty, and none is longer than 78 unless it is one word |
| `WordWrap.LinesFull` | scripts/generate_p0_manifests.py:157-166 | the first word of a line would not have fitted the line before, of 77 characters if that is the first and 78 otherwise; only single words exceed that |
| `WordWrap.LinesSpell` | scripts/generate_p0_manifests.py:151-168 | joined by spaces, the lines spell the words joined by spaces |
| `PhaseTimer.Timer.StartPhase` | scripts/aisoc-demo.ts:64-71 | starting a phase closes an open one at the same instant and appends |
| `PhaseTimer.Timer.CloseLastPhase` | scripts/aisoc-demo.ts:72-76 | only an open last phase is changed |
| `PhaseTimer.Timer.BuildReport` | scripts/aisoc-demo.ts:814-841 | the report's durations are not negative and add up to at most the total |
| `PhaseTimer.DurationsTelescope` | scripts/aisoc-demo.ts:835-838 | durations and gaps add up to last end minus first start |
| `PhaseTimer.DurationsFitTotal` | scripts/aisoc-demo.ts:820-838 | phases in order have durations within the total |
| `PhaseTimer.RunInOrder` | scripts/aisoc-demo.ts:58-76 | every run with a monotone clock keeps phases in order with at most the last one open |
| `PhaseTimer.StartsContiguous` | scripts/aisoc-demo.ts:64-71 | in a run of starts each phase ends as the next one starts |
| `PhaseTimer.ClosedRunTelescopes` | scripts/aisoc-demo.ts:64-76 | starts followed by one close have durations adding up exactly to the time from first start to close |

## Left out

- Regular expressions: `match`, `pattern_match` and `pattern_match_any` are evaluated through a parameter, so their fixtures are characterised only by that parameter's answer on the synthesised text.
- NaN, infinities and float rounding: numbers are reals, and `round` in the telemetry summary is omitted, as are mean and median.
- Lower-casing that depends on neighbouring characters; dictionaries as values of events or operands.
- Mutation.PassLeavesNoKey: sufficient for the end of the pass; the condition is exact for the end of every step (PassLeavesNoKeyExactly), since a key completed by one step may happen to be rewritten by a later one.
- Mutation.PassKeepsOrLoses: leaves a gap for one fixed table, where every losing layout holds an earlier key or is mended by a later one; over all larger sets of preserved keywords PartialPassKeepsExactly has none.
- CurationTheorems.CurationCanonical: sufficient for given floors and totals, which may hide a tie; exact over all of them (CurationCanonicalExactly) where eligible rules of one id have one score, and TieHidden shows why that is needed.
- Replacement templates: alternates are literal text, so a backslash in one is not interpreted; no shipped alternate has one.
- The order of keywords by falling length: the pass laws hold for any list of keys in any order.
- The hash that picks an alternate and an intensity bucket: the choice is a parameter of the pass.
- The quality score of a rule: selection is proved for every score.
- Parsing of rule files, and letter case of techniques and log sources before classification.
- Rule attributes that selection only copies into the manifest, and the manifest's counts by tier, severity and category.
- Rendering of conditions, YAML quoting and the coverage report: output only.
- Word splitting: wrapping starts from the list of words.
- Port allocation: a search in a fixed window per service, which would add only easy members.
- Marketplace coverage counters and the adversary coverage report: independent counters that would add only easy members.
- The grouping of telemetry by template and the token and cost estimates.
- Reading and writing files, command lines, clocks (a parameter here), Docker and the network.
