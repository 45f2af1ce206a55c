/**
 The adversary's text mutation: the ordered pass over the keyword table, exactly when it
 leaves no keyword behind, and exactly which keywords it keeps.
 */
module Mutation {
  import opened Rewriting
  import opened Layouts

  // ----- the whole pass -----

  /** The keys in order, each substituted by its alternate in what the ones before it left. */
  function Pass(fold: char -> char, keys: seq<Key>, alternate: Key -> string, text: string): string
  {
    if keys == [] then text
    else
      var key := keys[|keys| - 1];
      Substitute(fold, Pass(fold, keys[..|keys| - 1], alternate, text), key, alternate(key))
  }

  /** `[key for key in keys if key.lower() not in preserved]` */
  function Rewritten(keys: seq<Key>, lower: Key -> string, preserved: set<string>): seq<Key> {
    if keys == [] then []
    else Rewritten(keys[..|keys| - 1], lower, preserved)
         + if lower(keys[|keys| - 1]) in preserved then [] else [keys[|keys| - 1]]
  }

  lemma {:induction false} RewrittenContents(keys: seq<Key>, lower: Key -> string, preserved: set<string>)
    ensures forall k :: k in Rewritten(keys, lower, preserved) <==> k in keys && lower(k) !in preserved
  {
    if keys != [] {
      RewrittenContents(keys[..|keys| - 1], lower, preserved);
      assert keys == keys[..|keys| - 1] + [keys[|keys| - 1]];
    }
  }

  /** What the partial pass makes of a text. */
  function PartialPass(fold: char -> char, keys: seq<Key>, alternate: Key -> string, text: string,
                       lower: Key -> string, preserved: set<string>): string
  {
    Pass(fold, Rewritten(keys, lower, preserved), alternate, text)
  }

  /** A pass begins with its first key. */
  lemma PassFirst(fold: char -> char, key: Key, rest: seq<Key>, alternate: Key -> string, text: string)
    ensures Pass(fold, [], alternate, text) == text
    ensures Pass(fold, [key] + rest, alternate, text)
            == Pass(fold, rest, alternate, Substitute(fold, text, key, alternate(key)))
  {
    PassSplits(fold, [key], rest, alternate, text);
    assert [key][..0] == [];
    assert Pass(fold, [key], alternate, text) == Substitute(fold, text, key, alternate(key));
  }

  /** The partial pass takes the keys in the same order, and passes over the preserved ones. */
  lemma PartialPassFirst(fold: char -> char, key: Key, rest: seq<Key>, alternate: Key -> string, text: string,
                         lower: Key -> string, preserved: set<string>)
    ensures PartialPass(fold, [], alternate, text, lower, preserved) == text
    ensures PartialPass(fold, [key] + rest, alternate, text, lower, preserved)
            == PartialPass(fold, rest, alternate,
                           if lower(key) in preserved then text else Substitute(fold, text, key, alternate(key)),
                           lower, preserved)
  {
    RewrittenFirst(key, rest, lower, preserved);
    var later := Rewritten(rest, lower, preserved);
    if lower(key) in preserved {
      assert [] + later == later;
    } else {
      PassFirst(fold, key, later, alternate, text);
    }
  }

  lemma {:induction false} RewrittenFirst(key: Key, rest: seq<Key>, lower: Key -> string, preserved: set<string>)
    ensures Rewritten([key] + rest, lower, preserved)
            == (if lower(key) in preserved then [] else [key]) + Rewritten(rest, lower, preserved)
  {
    if rest == [] {
      assert [key] + rest == [key] && [key][..0] == [];
    } else {
      var n := |rest| - 1;
      RewrittenFirst(key, rest[..n], lower, preserved);
      assert ([key] + rest)[..n + 1] == [key] + rest[..n];
    }
  }

  /** With nothing preserved it is the full pass. */
  lemma PartialPassOfNone(fold: char -> char, keys: seq<Key>, alternate: Key -> string, text: string,
                          lower: Key -> string)
    ensures PartialPass(fold, keys, alternate, text, lower, {}) == Pass(fold, keys, alternate, text)
  {
    AllRewritten(keys, lower);
  }

  lemma {:induction false} AllRewritten(keys: seq<Key>, lower: Key -> string)
    ensures Rewritten(keys, lower, {}) == keys
  {
    if keys != [] {
      AllRewritten(keys[..|keys| - 1], lower);
    }
  }

  /** `_mutate_text_full` */
  method MutateTextFull(fold: char -> char, keys: seq<Key>, alternate: Key -> string, text: string)
    returns (out: string)
    ensures out == Pass(fold, keys, alternate, text)
  {
    out := text;
    for i := 0 to |keys|
      invariant out == Pass(fold, keys[..i], alternate, text)
    {
      var key := keys[i];
      assert keys[..i + 1][..i] == keys[..i];
      if Occurs(fold, out, key) {
        out := Substitute(fold, out, key, alternate(key));
      } else {
        SubstituteIdentity(fold, out, key, alternate(key));
      }
    }
    assert keys[..|keys|] == keys;
  }

  /** `_mutate_text_partial`: skips the preserved keywords. */
  method MutateTextPartial(fold: char -> char, keys: seq<Key>, alternate: Key -> string, text: string,
                           lower: Key -> string, preserved: set<string>) returns (out: string)
    ensures out == PartialPass(fold, keys, alternate, text, lower, preserved)
  {
    out := text;
    for i := 0 to |keys|
      invariant out == Pass(fold, Rewritten(keys[..i], lower, preserved), alternate, text)
    {
      var key := keys[i];
      assert keys[..i + 1][..i] == keys[..i];
      ghost var done := Rewritten(keys[..i], lower, preserved);
      assert done + [] == done;
      if lower(key) in preserved {
        continue;
      }
      assert Rewritten(keys[..i + 1], lower, preserved) == done + [key];
      assert (done + [key])[..|done|] == done;
      if Occurs(fold, out, key) {
        out := Substitute(fold, out, key, alternate(key));
      } else {
        SubstituteIdentity(fold, out, key, alternate(key));
      }
    }
    assert keys[..|keys|] == keys;
  }

  // ----- leaving no keyword -----

  predicate HoldsAny(fold: char -> char, s: string, keys: seq<Key>) {
    exists k <- keys :: Occurs(fold, s, k)
  }

  /** However an alternate is laid over its own key or an earlier one so that a scan can produce it,
      the text it would come from holds an earlier key. */
  ghost predicate CleanGrammar(fold: char -> char, keys: seq<Key>, alternate: Key -> string) {
    forall i, j, offsets ::
      0 <= j <= i < |keys| && Producible(fold, keys[i], alternate(keys[i]), keys[j], offsets) ==>
        HoldsAny(fold, Filled(keys[i], alternate(keys[i]), keys[j], offsets), keys[..i])
  }

  lemma CleanPrefix(fold: char -> char, keys: seq<Key>, alternate: Key -> string, n: nat)
    requires CleanGrammar(fold, keys, alternate) && n <= |keys|
    ensures CleanGrammar(fold, keys[..n], alternate)
  {
    var init := keys[..n];
    forall i, j, offsets | 0 <= j <= i < n && Producible(fold, init[i], alternate(init[i]), init[j], offsets)
      ensures HoldsAny(fold, Filled(init[i], alternate(init[i]), init[j], offsets), init[..i])
    {
      assert init[i] == keys[i] && init[j] == keys[j] && init[..i] == keys[..i];
    }
  }

  /** After a pass over a clean grammar no key is left. */
  lemma {:induction false} PassLeavesNoKey(fold: char -> char, keys: seq<Key>, alternate: Key -> string, text: string)
    requires CleanGrammar(fold, keys, alternate)
    ensures !HoldsAny(fold, Pass(fold, keys, alternate, text), keys)
  {
    if keys != [] {
      var n := |keys| - 1;
      CleanPrefix(fold, keys, alternate, n);
      PassLeavesNoKey(fold, keys[..n], alternate, text);
      StepLeavesNoKey(fold, keys, alternate, Pass(fold, keys[..n], alternate, text), n);
    }
  }

  /** One step of the pass: what is free of the keys before it stays so and loses its own. */
  lemma StepLeavesNoKey(fold: char -> char, keys: seq<Key>, alternate: Key -> string, s: string, n: nat)
    requires CleanGrammar(fold, keys, alternate) && n < |keys| && !HoldsAny(fold, s, keys[..n])
    ensures !HoldsAny(fold, Substitute(fold, s, keys[n], alternate(keys[n])), keys[..n + 1])
  {
    var key := keys[n];
    if k :| k in keys[..n + 1] && Occurs(fold, Substitute(fold, s, key, alternate(key)), k) {
      var j :| 0 <= j <= n && keys[j] == k;
      assert j < n ==> k in keys[..n];
      var offsets := Completion(fold, s, key, alternate(key), k);
      var origin := Filled(key, alternate(key), k, offsets);
      var earlier :| earlier in keys[..n] && Occurs(fold, origin, earlier);
      OccursTransitive(fold, s, origin, earlier);
    }
  }

  /** Text without keys is left alone, so over a clean grammar a second pass changes nothing. */
  lemma {:induction false} PassFixesKeyFree(fold: char -> char, keys: seq<Key>, alternate: Key -> string, text: string)
    requires !HoldsAny(fold, text, keys)
    ensures Pass(fold, keys, alternate, text) == text
  {
    if keys != [] {
      PassFixesKeyFree(fold, keys[..|keys| - 1], alternate, text);
      SubstituteIdentity(fold, text, keys[|keys| - 1], alternate(keys[|keys| - 1]));
    }
  }

  lemma PassIdempotent(fold: char -> char, keys: seq<Key>, alternate: Key -> string, text: string)
    requires CleanGrammar(fold, keys, alternate)
    ensures Pass(fold, keys, alternate, Pass(fold, keys, alternate, text)) == Pass(fold, keys, alternate, text)
  {
    PassLeavesNoKey(fold, keys, alternate, text);
    PassFixesKeyFree(fold, keys, alternate, Pass(fold, keys, alternate, text));
  }

  /** After every step of the pass, none of the keys done so far is left. */
  ghost predicate ClearsStepwise(fold: char -> char, keys: seq<Key>, alternate: Key -> string) {
    forall n, text :: 0 <= n <= |keys| ==> !HoldsAny(fold, Pass(fold, keys[..n], alternate, text), keys[..n])
  }

  /** The clean grammars are exactly those that do so for every text. */
  lemma PassLeavesNoKeyExactly(fold: char -> char, keys: seq<Key>, alternate: Key -> string)
    ensures CleanGrammar(fold, keys, alternate) <==> ClearsStepwise(fold, keys, alternate)
  {
    if CleanGrammar(fold, keys, alternate) {
      forall n, text | 0 <= n <= |keys| ensures !HoldsAny(fold, Pass(fold, keys[..n], alternate, text), keys[..n]) {
        CleanPrefix(fold, keys, alternate, n);
        PassLeavesNoKey(fold, keys[..n], alternate, text);
      }
    } else {
      var i, j, offsets :| && 0 <= j <= i < |keys| && Producible(fold, keys[i], alternate(keys[i]), keys[j], offsets)
                           && !HoldsAny(fold, Filled(keys[i], alternate(keys[i]), keys[j], offsets), keys[..i]);
      var text := Filled(keys[i], alternate(keys[i]), keys[j], offsets);
      FirstKeyThatOccurs(fold, keys, alternate, text, i);
      ProducibleCompletes(fold, keys[i], alternate(keys[i]), keys[j], offsets);
      assert keys[j] in keys[..i + 1];
    }
  }

  /** Up to the first key that can occur, the pass leaves a text alone. */
  lemma FirstKeyThatOccurs(fold: char -> char, keys: seq<Key>, alternate: Key -> string, text: string, i: nat)
    requires i < |keys| && !HoldsAny(fold, text, keys[..i])
    ensures Pass(fold, keys[..i + 1], alternate, text) == Substitute(fold, text, keys[i], alternate(keys[i]))
  {
    PassFixesKeyFree(fold, keys[..i], alternate, text);
    assert keys[..i + 1][..i] == keys[..i];
  }

  // ----- keeping keywords -----

  /** A keyword of the text survives the pass if no step of it can lose it. */
  lemma {:induction false} PassKeeps(fold: char -> char, keys: seq<Key>, alternate: Key -> string, text: string,
                                     kept: string)
    requires forall k <- keys :: KeepsLaid(fold, k, alternate(k), kept)
    requires Occurs(fold, text, kept)
    ensures Occurs(fold, Pass(fold, keys, alternate, text), kept)
  {
    if keys != [] {
      var n := |keys| - 1;
      PassKeeps(fold, keys[..n], alternate, text, kept);
      SubstituteKeepsIn(fold, Pass(fold, keys[..n], alternate, text), keys[n], alternate(keys[n]), kept);
    }
  }

  /** The pass on a text, cut in two. */
  lemma {:induction false} PassSplits(fold: char -> char, left: seq<Key>, right: seq<Key>, alternate: Key -> string,
                                      text: string)
    ensures Pass(fold, left + right, alternate, text)
            == Pass(fold, right, alternate, Pass(fold, left, alternate, text))
  {
    if right == [] {
      assert left + right == left;
    } else {
      var n := |right| - 1;
      PassSplits(fold, left, right[..n], alternate, text);
      assert (left + right)[..|left + right| - 1] == left + right[..n];
    }
  }

  /** A producible layout of the key at `i` over `kept` whose text holds no earlier key, and whose
      replacement is left without `kept` by the later ones. */
  predicate LosesAt(fold: char -> char, keys: seq<Key>, alternate: Key -> string, kept: string, i: nat,
                    offsets: seq<int>)
    requires i < |keys|
  {
    var key := keys[i];
    && Producible(fold, key, key, kept, offsets)
    && !HoldsAny(fold, Filled(key, key, kept, offsets), keys[..i])
    && !Occurs(fold, Pass(fold, keys[i + 1..], alternate, Filled(alternate(key), key, kept, offsets)), kept)
  }

  /** From such a layout, a text in which the pass loses the keyword. */
  lemma PassLoses(fold: char -> char, keys: seq<Key>, alternate: Key -> string, kept: string, i: nat, offsets: seq<int>)
    requires i < |keys| && LosesAt(fold, keys, alternate, kept, i, offsets)
    ensures var text := Filled(keys[i], keys[i], kept, offsets);
            Occurs(fold, text, kept) && !Occurs(fold, Pass(fold, keys, alternate, text), kept)
  {
    ProducibleLoses(fold, keys[i], alternate(keys[i]), kept, offsets);
    PassFrom(fold, keys, alternate, Filled(keys[i], keys[i], kept, offsets), i);
  }

  lemma PassFrom(fold: char -> char, keys: seq<Key>, alternate: Key -> string, text: string, i: nat)
    requires i < |keys| && !HoldsAny(fold, text, keys[..i])
    ensures Pass(fold, keys, alternate, text)
            == Pass(fold, keys[i + 1..], alternate, Substitute(fold, text, keys[i], alternate(keys[i])))
  {
    var done, later := keys[..i + 1], keys[i + 1..];
    assert keys == done + later;
    FirstKeyThatOccurs(fold, keys, alternate, text, i);
    PassSplits(fold, done, later, alternate, text);
  }

  ghost predicate PassKeepsEveryOccurrence(fold: char -> char, keys: seq<Key>, alternate: Key -> string, kept: string) {
    forall text :: Occurs(fold, text, kept) ==> Occurs(fold, Pass(fold, keys, alternate, text), kept)
  }

  /** The pass keeps a keyword in every text if none of its keys can lose it, and not if one loses it
      in a text without earlier keys and the later ones do not bring it back. */
  lemma PassKeepsOrLoses(fold: char -> char, keys: seq<Key>, alternate: Key -> string, kept: string)
    ensures (forall k <- keys :: KeepsLaid(fold, k, alternate(k), kept))
            ==> PassKeepsEveryOccurrence(fold, keys, alternate, kept)
    ensures (exists i, offsets :: 0 <= i < |keys| && LosesAt(fold, keys, alternate, kept, i, offsets))
            ==> !PassKeepsEveryOccurrence(fold, keys, alternate, kept)
  {
    if forall k <- keys :: KeepsLaid(fold, k, alternate(k), kept) {
      forall text | Occurs(fold, text, kept) ensures Occurs(fold, Pass(fold, keys, alternate, text), kept) {
        PassKeeps(fold, keys, alternate, text, kept);
      }
    }
    if i, offsets :| 0 <= i < |keys| && LosesAt(fold, keys, alternate, kept, i, offsets) {
      PassLoses(fold, keys, alternate, kept, i, offsets);
    }
  }

  // ----- the partial pass -----

  /** The partial pass keeps `kept` in every text, for these preserved keywords and for any more. */
  ghost predicate PartialPassKeeps(fold: char -> char, keys: seq<Key>, alternate: Key -> string,
                                   lower: Key -> string, preserved: set<string>, kept: string)
  {
    forall all: set<string> :: preserved <= all ==>
      PassKeepsEveryOccurrence(fold, Rewritten(keys, lower, all), alternate, kept)
  }

  /** When the partial pass is sure to leave the defender a route: a keyword survives it, however much
      else is preserved, exactly if no key outside the preserved keywords can lose it. */
  lemma PartialPassKeepsExactly(fold: char -> char, keys: seq<Key>, alternate: Key -> string,
                                lower: Key -> string, preserved: set<string>, kept: string)
    requires forall i, j :: 0 <= i < j < |keys| ==> lower(keys[i]) != lower(keys[j])
    ensures PartialPassKeeps(fold, keys, alternate, lower, preserved, kept)
            <==> forall k <- keys :: lower(k) in preserved || KeepsLaid(fold, k, alternate(k), kept)
  {
    if forall k <- keys :: lower(k) in preserved || KeepsLaid(fold, k, alternate(k), kept) {
      forall all: set<string> | preserved <= all
        ensures PassKeepsEveryOccurrence(fold, Rewritten(keys, lower, all), alternate, kept)
      {
        RewrittenContents(keys, lower, all);
        PassKeepsOrLoses(fold, Rewritten(keys, lower, all), alternate, kept);
      }
    } else {
      var i :| 0 <= i < |keys| && lower(keys[i]) !in preserved && !KeepsLaid(fold, keys[i], alternate(keys[i]), kept);
      var all := preserved + (set k | k in keys :: lower(k)) - {lower(keys[i])};
      OneRewritten(keys, lower, all, i);
      SinglePassLoses(fold, keys[i], alternate, kept);
      assert preserved <= all;
    }
  }

  lemma {:induction false} NoneRewritten(keys: seq<Key>, lower: Key -> string, all: set<string>)
    requires forall k <- keys :: lower(k) in all
    ensures Rewritten(keys, lower, all) == []
  {
    if keys != [] {
      NoneRewritten(keys[..|keys| - 1], lower, all);
    }
  }

  /** With every other key preserved, one is rewritten. */
  lemma {:induction false} OneRewritten(keys: seq<Key>, lower: Key -> string, all: set<string>, i: nat)
    requires i < |keys| && lower(keys[i]) !in all
    requires forall j :: 0 <= j < |keys| && j != i ==> lower(keys[j]) in all
    ensures Rewritten(keys, lower, all) == [keys[i]]
  {
    var init, n := keys[..|keys| - 1], |keys| - 1;
    if i == n {
      NoneRewritten(init, lower, all);
    } else {
      OneRewritten(init, lower, all, i);
    }
  }

  lemma SinglePassLoses(fold: char -> char, key: Key, alternate: Key -> string, kept: string)
    requires !KeepsLaid(fold, key, alternate(key), kept)
    ensures !PassKeepsEveryOccurrence(fold, [key], alternate, kept)
  {
    SubstituteKeepsExactly(fold, key, alternate(key), kept);
    var s :| Occurs(fold, s, kept) && !Occurs(fold, Substitute(fold, s, key, alternate(key)), kept);
    assert [key][..0] == [];
    assert Pass(fold, [key], alternate, s) == Substitute(fold, s, key, alternate(key));
  }

  // ----- the load-time check and what it misses -----

  /** The case fold of text that is in lower case already. */
  function Same(c: char): char {
    c
  }

  /** `_validate_grammar` finds nothing wrong: in lower case, no alternate contains a defender
      keyword other than the key it replaces. */
  predicate Validates(lower: string -> string, keys: seq<Key>, alternate: Key -> string, keywords: seq<string>) {
    forall i, k :: 0 <= i < |keys| && 0 <= k < |keywords| ==>
      keywords[k] == lower(keys[i]) || !Occurs(Same, lower(alternate(keys[i])), keywords[k])
  }

  /** The check fails exactly if some alternate, in lower case, is a text around another keyword. */
  lemma ValidatesMeans(lower: string -> string, keys: seq<Key>, alternate: Key -> string, keywords: seq<string>)
    ensures Validates(lower, keys, alternate, keywords)
            <==> forall i, k :: 0 <= i < |keys| && 0 <= k < |keywords| && keywords[k] != lower(keys[i]) ==>
                   forall before, after :: lower(alternate(keys[i])) != before + keywords[k] + after
  {
    forall i, k | 0 <= i < |keys| && 0 <= k < |keywords|
      ensures Occurs(Same, lower(alternate(keys[i])), keywords[k])
              <==> exists before, after :: lower(alternate(keys[i])) == before + keywords[k] + after
    {
      OccursExactly(lower(alternate(keys[i])), keywords[k]);
    }
  }

  lemma OccursExactly(s: string, part: string)
    ensures Occurs(Same, s, part) <==> exists before, after :: s == before + part + after
  {
    OccursMeans(Same, s, part);
    if before, middle, after :| s == before + middle + after && SameFolded(Same, middle, part) {
      assert middle == part by {
        assert forall i :: 0 <= i < |part| ==> Same(middle[i]) == Same(part[i]);
      }
    }
    if before, after :| s == before + part + after {
      assert SameFolded(Same, part, part);
    }
  }

  const SSH: Key := "ssh"
  const PASS_THE_HASH: Key := "pass-the-hash"
  const TRANSFER_TO: Key := "transfer to"
  const EXFILTRAT: Key := "exfiltrat"

  const HASH_REPLAY := "hash-replay attack"

  /** An alternate may contain its own key: the check exempts that, and the key survives. */
  lemma OwnKeyInAlternate()
    ensures Validates(s => s, [SSH], (k: Key) => "openssh session", [SSH])
    ensures Occurs(Same, Substitute(Same, "ssh", SSH, "openssh session"), SSH)
  {
    assert MatchesAt(Same, "ssh", 0, SSH);
    SubstituteAtFirst(Same, "ssh", SSH, "openssh session", 0);
    assert Substitute(Same, "ssh", SSH, "openssh session") == "openssh session";
    assert MatchesAt(Same, "openssh session", 4, SSH);
  }

  /** An alternate may begin as its key ends: text before the key then completes it. */
  lemma OwnKeyAcrossBorder()
    ensures !Occurs(Same, HASH_REPLAY, PASS_THE_HASH)
    ensures Occurs(Same, Substitute(Same, "pass-the-" + PASS_THE_HASH, PASS_THE_HASH, HASH_REPLAY), PASS_THE_HASH)
  {
    HashReplayLaidOver();
    PassTheHashScan();
    SingleProducible(Same, PASS_THE_HASH, HASH_REPLAY, 9);
    ProducibleCompletes(Same, PASS_THE_HASH, HASH_REPLAY, PASS_THE_HASH, [9]);
  }

  lemma HashReplayLaidOver()
    ensures Aligned(Same, HASH_REPLAY, PASS_THE_HASH, 9)
    ensures Filled(PASS_THE_HASH, HASH_REPLAY, PASS_THE_HASH, [9]) == "pass-the-" + PASS_THE_HASH
    ensures !Occurs(Same, HASH_REPLAY, PASS_THE_HASH)
  {
    assert PASS_THE_HASH[..9] == "pass-the-";
    assert Piece(PASS_THE_HASH, 0, 9) == PASS_THE_HASH[0..9] && [9][1..] == [];
    forall p: nat | p <= |HASH_REPLAY| ensures !MatchesAt(Same, HASH_REPLAY, p, PASS_THE_HASH) {
      assert p <= 5 ==> Same(HASH_REPLAY[p + 0]) != Same(PASS_THE_HASH[0]);
    }
  }

  lemma PassTheHashScan()
    ensures !MatchesEarly(Same, PASS_THE_HASH, PASS_THE_HASH[..9])
  {
    var key := PASS_THE_HASH;
    var model := key[..9] + key;
    forall q: nat | q < 9 ensures !MatchesAt(Same, model, q, key) {
      if q == 0 {
        assert Same(model[0 + 9]) != Same(key[9]);
      } else {
        assert model[q + 0] == key[q];
        assert Same(model[q + 0]) != Same(key[0]);
      }
    }
  }

  const EX_BOUND := "ex-bound transfer"
  const OAUTH: Key := "oauth"
  const OAUTH_CONSENT: Key := "oauth consent"
  const MACRO: Key := "macro"

  /** An alternate may end as an earlier key begins: text behind its own key then completes that one. */
  lemma EarlierKeyAcrossBorder(alternate: Key -> string)
    requires alternate(EXFILTRAT) == EX_BOUND
    ensures !Occurs(Same, EX_BOUND, TRANSFER_TO)
    ensures Occurs(Same, Pass(Same, [TRANSFER_TO, EXFILTRAT], alternate, "exfiltrat to"), TRANSFER_TO)
    ensures !CleanGrammar(Same, [TRANSFER_TO, EXFILTRAT], alternate)
  {
    var keys := [TRANSFER_TO, EXFILTRAT];
    NoTransferToIn("exfiltrat to");
    NoTransferToIn(EX_BOUND);
    ExBoundLaidOver();
    ProducibleCompletes(Same, EXFILTRAT, EX_BOUND, TRANSFER_TO, [-9]);
    assert keys[..1] == [TRANSFER_TO] && keys[..2] == keys;
    FirstKeyThatOccurs(Same, keys, alternate, "exfiltrat to", 1);
    assert Producible(Same, keys[1], alternate(keys[1]), keys[0], [-9]);
  }

  /** The one way to lay it over. */
  lemma ExBoundLaidOver()
    ensures Producible(Same, EXFILTRAT, EX_BOUND, TRANSFER_TO, [-9])
    ensures Filled(EXFILTRAT, EX_BOUND, TRANSFER_TO, [-9]) == "exfiltrat to"
  {
    var offsets := [-9];
    assert offsets[1..] == [];
    assert Piece(TRANSFER_TO, 0, -9) == "" && Piece(TRANSFER_TO, 8, 11) == TRANSFER_TO[8..11] == " to";
    assert !Occurs(Same, " to", EXFILTRAT);
    assert EX_BOUND[9..] == "transfer" == TRANSFER_TO[..8];
    assert Aligned(Same, EX_BOUND, TRANSFER_TO, -9) by {
      forall i | 0 <= i < |EX_BOUND| && 0 <= -9 + i < |TRANSFER_TO|
        ensures Same(EX_BOUND[i]) == Same(TRANSFER_TO[-9 + i])
      {
        assert EX_BOUND[i] == EX_BOUND[9..][i - 9] && TRANSFER_TO[-9 + i] == TRANSFER_TO[..8][i - 9];
      }
    }
  }

  lemma NoTransferToIn(text: string)
    requires text == "exfiltrat to" || text == EX_BOUND
    ensures !Occurs(Same, text, TRANSFER_TO)
  {
    forall p: nat | p <= |text| ensures !MatchesAt(Same, text, p, TRANSFER_TO) {
      assert p <= 6 && p + 11 <= |text| ==> Same(text[p + 0]) != Same(TRANSFER_TO[0]);
    }
  }

  /** A key that begins a longer word is replaced inside it. */
  lemma LeadingKeyReplaced(fold: char -> char, key: Key, alt: string, rest: string)
    requires !Occurs(fold, rest, key)
    ensures Substitute(fold, key + rest, key, alt) == alt + rest
  {
    var s := key + rest;
    assert s[..0] == "" && s[|key|..] == rest;
    assert MatchesAt(fold, s, 0, key) by {
      assert forall i :: 0 <= i < |key| ==> s[0 + i] == key[i];
    }
    SubstituteAtFirst(fold, s, key, alt, 0);
    SubstituteIdentity(fold, rest, key, alt);
  }

  /** Word boundaries are not looked at. */
  lemma WordBoundaryIgnored()
    ensures Substitute(Same, MACRO + "economics", MACRO, "m@cro") == "m@cro" + "economics"
  {
    var rest := "economics";
    forall p: nat | p <= |rest| ensures !MatchesAt(Same, rest, p, MACRO) {
      assert p <= 4 ==> Same(rest[p + 0]) != Same(MACRO[0]);
    }
    LeadingKeyReplaced(Same, MACRO, "m@cro", rest);
  }

  /** A preserved keyword inside a longer key that is rewritten is lost with it. */
  lemma PreservedKeywordLost()
    ensures Occurs(Same, "oauth consent", OAUTH)
    ensures Rewritten([OAUTH_CONSENT, OAUTH], (k: Key) => k, {"oauth"}) == [OAUTH_CONSENT]
    ensures !Occurs(Same, Pass(Same, [OAUTH_CONSENT], (k: Key) => "tenant grant abuse", "oauth consent"), OAUTH)
    ensures !KeepsLaid(Same, OAUTH_CONSENT, "tenant grant abuse", OAUTH)
  {
    var keys := [OAUTH_CONSENT, OAUTH];
    assert MatchesAt(Same, "oauth consent", 0, OAUTH);
    assert keys[..1] == [OAUTH_CONSENT] && [OAUTH_CONSENT][..0] == [];
    assert OAUTH_CONSENT[5] == ' ';
    assert Rewritten([OAUTH_CONSENT], (k: Key) => k, {"oauth"}) == [OAUTH_CONSENT];
    assert MatchesAt(Same, "oauth consent", 0, OAUTH_CONSENT);
    SubstituteAtFirst(Same, "oauth consent", OAUTH_CONSENT, "tenant grant abuse", 0);
    var out := "tenant grant abuse";
    assert Substitute(Same, "oauth consent", OAUTH_CONSENT, out) == out;
    forall p: nat | p <= |out| ensures !MatchesAt(Same, out, p, OAUTH) {
      assert p < |out| ==> Same(out[p + 0]) != Same(OAUTH[0]);
    }
    SubstituteKeepsExactly(Same, OAUTH_CONSENT, out, OAUTH);
  }
}
