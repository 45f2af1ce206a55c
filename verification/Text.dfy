/**
 Python string operations on `seq<char>`: substring search, lower-casing,
 joining and the `*`-to-`x` replacement, with the facts about concatenation
 that the rule engine and the fixture solver rely on.
 */
module Text {

  // ----- prefixes, suffixes and substrings -----

  predicate StartsWith(s: string, prefix: string) {
    |prefix| <= |s| && s[..|prefix|] == prefix
  }

  predicate EndsWith(s: string, suffix: string) {
    |suffix| <= |s| && s[|s| - |suffix|..] == suffix
  }

  predicate OccursAt(s: string, position: nat, part: string) {
    position + |part| <= |s| && s[position..position + |part|] == part
  }

  predicate Contains(s: string, part: string) {
    exists position: nat :: position <= |s| && OccursAt(s, position, part)
  }

  lemma ConcatStartsWith(a: string, b: string)
    ensures StartsWith(a + b, a)
  {
  }

  lemma ConcatEndsWith(a: string, b: string)
    ensures EndsWith(a + b, b)
  {
  }

  lemma InfixContained(before: string, part: string, after: string)
    ensures Contains(before + part + after, part)
  {
    assert OccursAt(before + part + after, |before|, part);
  }

  /** A substring splits the whole around itself. */
  lemma ContainedSplits(s: string, part: string) returns (before: string, after: string)
    requires Contains(s, part)
    ensures s == before + part + after
  {
    var position: nat :| position <= |s| && OccursAt(s, position, part);
    before, after := s[..position], s[position + |part|..];
  }

  lemma ContainsExtends(before: string, s: string, after: string, part: string)
    requires Contains(s, part)
    ensures Contains(before + s + after, part)
  {
    var left, right := ContainedSplits(s, part);
    assert before + s + after == (before + left) + part + (right + after);
    InfixContained(before + left, part, right + after);
  }

  // ----- lower-casing -----

  /** `str.lower` for any case table that maps each character on its own. */
  function Lower(table: char -> string, s: string): string {
    if s == "" then "" else table(s[0]) + Lower(table, s[1..])
  }

  lemma LowerCharacter(table: char -> string, c: char)
    ensures Lower(table, "") == "" && Lower(table, [c]) == table(c)
  {
    assert [c][1..] == "";
    assert Lower(table, [c]) == table(c) + "";
  }

  lemma {:induction false} LowerConcat(table: char -> string, a: string, b: string)
    ensures Lower(table, a + b) == Lower(table, a) + Lower(table, b)
  {
    if a == "" {
      assert a + b == b;
    } else {
      assert (a + b)[1..] == a[1..] + b;
      LowerConcat(table, a[1..], b);
    }
  }

  /** Substrings survive lower-casing, whatever the case table. */
  lemma LowerKeepsSubstrings(table: char -> string, s: string, part: string)
    requires Contains(s, part)
    ensures Contains(Lower(table, s), Lower(table, part))
  {
    var before, after := ContainedSplits(s, part);
    LowerConcat(table, before + part, after);
    LowerConcat(table, before, part);
    InfixContained(Lower(table, before), Lower(table, part), Lower(table, after));
  }

  // ----- joining -----

  function Join(separator: string, parts: seq<string>): string {
    if |parts| == 0 then ""
    else if |parts| == 1 then parts[0]
    else parts[0] + separator + Join(separator, parts[1..])
  }

  lemma {:induction false} JoinConcat(separator: string, left: seq<string>, right: seq<string>)
    requires left != [] && right != []
    ensures Join(separator, left + right) == Join(separator, left) + separator + Join(separator, right)
    ensures |left| == 1 ==> Join(separator, left) == left[0]
  {
    if |left| == 1 {
      assert (left + right)[1..] == right;
    } else {
      assert (left + right)[1..] == left[1..] + right;
      JoinConcat(separator, left[1..], right);
      var head := left[0] + separator;
      assert head + (Join(separator, left[1..]) + separator + Join(separator, right))
             == (head + Join(separator, left[1..])) + separator + Join(separator, right);
    }
  }

  lemma {:induction false} JoinContainsPart(separator: string, parts: seq<string>, i: nat)
    requires i < |parts|
    ensures Contains(Join(separator, parts), parts[i])
  {
    if i == 0 {
      if |parts| == 1 {
        assert OccursAt(parts[0], 0, parts[0]);
      } else {
        var tail := separator + Join(separator, parts[1..]);
        assert Join(separator, parts) == "" + parts[0] + tail;
        InfixContained("", parts[0], tail);
      }
    } else {
      JoinContainsPart(separator, parts[1..], i - 1);
      var joined := Join(separator, parts[1..]);
      ContainsExtends(parts[0] + separator, joined, "", parts[i]);
      assert parts[0] + separator + joined + "" == Join(separator, parts);
    }
  }

  lemma JoinEmptyConcat(left: seq<string>, right: seq<string>)
    ensures Join("", left + right) == Join("", left) + Join("", right)
  {
    if left == [] {
      assert left + right == right;
    } else if right == [] {
      assert left + right == left;
    } else {
      JoinConcat("", left, right);
    }
  }

  // ----- glob patterns -----

  /** `pattern.replace("*", "x")`. */
  function StarsToX(pattern: string): string {
    if pattern == "" then ""
    else [if pattern[0] == '*' then 'x' else pattern[0]] + StarsToX(pattern[1..])
  }

  /**
   Whether the regular expression `^...$`, built from the escaped pattern with
   every `*` turned into `.*`, matches: `.` accepts anything but a line feed, and
   `$` accepts the end of the text or a line feed that ends it.
   */
  predicate GlobMatch(pattern: string, s: string)
    decreases |pattern| + |s|
  {
    if pattern == "" then
      s == "" || s == "\n"
    else if pattern[0] == '*' then
      GlobMatch(pattern[1..], s) || (s != "" && s[0] != '\n' && GlobMatch(pattern, s[1..]))
    else
      s != "" && s[0] == pattern[0] && GlobMatch(pattern[1..], s[1..])
  }

  lemma {:induction false} StarsToXAt(pattern: string, i: nat)
    requires i < |pattern|
    ensures |StarsToX(pattern)| == |pattern|
    ensures StarsToX(pattern)[i] == if pattern[i] == '*' then 'x' else pattern[i]
  {
    if |pattern| > 1 {
      StarsToXAt(pattern[1..], if i > 0 then i - 1 else 0);
    }
  }

  function Stars(pattern: string): nat {
    if pattern == "" then 0 else (if pattern[0] == '*' then 1 else 0) + Stars(pattern[1..])
  }

  /** The pattern with its stars replaced in turn. */
  function Expanded(pattern: string, runs: seq<string>): string
    requires |runs| == Stars(pattern)
  {
    if pattern == "" then ""
    else if pattern[0] == '*' then runs[0] + Expanded(pattern[1..], runs[1..])
    else [pattern[0]] + Expanded(pattern[1..], runs)
  }

  /** `s` is the pattern with its stars replaced by `runs`, none of which has a line feed, and
      possibly one more line feed behind. */
  predicate Expands(pattern: string, runs: seq<string>, s: string) {
    && |runs| == Stars(pattern)
    && (forall run <- runs :: '\n' !in run)
    && (s == Expanded(pattern, runs) || s == Expanded(pattern, runs) + "\n")
  }

  /** The wildcard match accepts exactly those texts. */
  lemma GlobExact(pattern: string, s: string)
    ensures GlobMatch(pattern, s) <==> exists runs :: Expands(pattern, runs, s)
  {
    if GlobMatch(pattern, s) {
      var runs := RunsFound(pattern, s);
    }
    if runs :| Expands(pattern, runs, s) {
      RunsSuffice(pattern, runs, s);
    }
  }

  lemma {:induction false} RunsFound(pattern: string, s: string) returns (runs: seq<string>)
    requires GlobMatch(pattern, s)
    ensures Expands(pattern, runs, s)
    decreases |pattern| + |s|
  {
    if pattern == "" {
      runs := [];
    } else if pattern[0] == '*' && GlobMatch(pattern[1..], s) {
      var rest := RunsFound(pattern[1..], s);
      runs := [""] + rest;
      assert runs[1..] == rest && "" + Expanded(pattern[1..], rest) == Expanded(pattern[1..], rest);
    } else if pattern[0] == '*' {
      var rest := RunsFound(pattern, s[1..]);
      runs := [[s[0]] + rest[0]] + rest[1..];
      LongerRun(pattern, rest, s);
    } else {
      runs := RunsFound(pattern[1..], s[1..]);
      assert s == [s[0]] + s[1..];
      assert [s[0]] + (Expanded(pattern[1..], runs) + "\n") == [s[0]] + Expanded(pattern[1..], runs) + "\n";
    }
  }

  lemma LongerRun(pattern: string, rest: seq<string>, s: string)
    requires pattern != "" && pattern[0] == '*' && s != "" && s[0] != '\n' && Expands(pattern, rest, s[1..])
    ensures Expands(pattern, [[s[0]] + rest[0]] + rest[1..], s)
  {
    var runs := [[s[0]] + rest[0]] + rest[1..];
    assert runs[1..] == rest[1..] && s == [s[0]] + s[1..];
    var tail := Expanded(pattern[1..], rest[1..]);
    assert [s[0]] + (rest[0] + tail) == ([s[0]] + rest[0]) + tail;
    assert [s[0]] + (rest[0] + tail + "\n") == ([s[0]] + rest[0]) + tail + "\n";
    forall run | run in runs ensures '\n' !in run {
      if run != runs[0] { assert run in rest[1..]; }
    }
  }

  lemma {:induction false} RunsSuffice(pattern: string, runs: seq<string>, s: string)
    requires Expands(pattern, runs, s)
    ensures GlobMatch(pattern, s)
    decreases |pattern| + |s|
  {
    if pattern == "" {
      assert "" + "\n" == "\n";
    } else if pattern[0] == '*' {
      var tail := Expanded(pattern[1..], runs[1..]);
      if runs[0] == "" {
        assert "" + tail == tail;
        RunsSuffice(pattern[1..], runs[1..], s);
      } else {
        ShorterRun(pattern, runs, s);
        RunsSuffice(pattern, [runs[0][1..]] + runs[1..], s[1..]);
      }
    } else {
      assert s[0] == pattern[0];
      assert s[1..] == Expanded(pattern[1..], runs) || s[1..] == Expanded(pattern[1..], runs) + "\n";
      RunsSuffice(pattern[1..], runs, s[1..]);
    }
  }

  lemma ShorterRun(pattern: string, runs: seq<string>, s: string)
    requires pattern != "" && pattern[0] == '*' && Expands(pattern, runs, s) && runs[0] != ""
    ensures s != "" && s[0] != '\n' && Expands(pattern, [runs[0][1..]] + runs[1..], s[1..])
  {
    var shorter := [runs[0][1..]] + runs[1..];
    assert runs[0][0] in runs[0] && runs[0] in runs;
    assert shorter[1..] == runs[1..];
    var tail := Expanded(pattern[1..], runs[1..]);
    assert (runs[0] + tail)[1..] == runs[0][1..] + tail;
    assert (runs[0] + tail + "\n")[1..] == runs[0][1..] + tail + "\n";
    forall run | run in shorter ensures '\n' !in run {
      if run in runs[1..] { assert run in runs; }
    }
  }

  lemma {:induction false} StarsToXMatches(pattern: string)
    ensures GlobMatch(pattern, StarsToX(pattern))
  {
    if pattern != "" {
      StarsToXMatches(pattern[1..]);
      assert StarsToX(pattern)[1..] == StarsToX(pattern[1..]);
    }
  }

  lemma {:induction false} StarsToXWithoutStars(pattern: string)
    requires '*' !in pattern
    ensures StarsToX(pattern) == pattern
  {
    if pattern != "" {
      StarsToXWithoutStars(pattern[1..]);
    }
  }

  // ----- periodic words -----

  /** `s` is an initial piece of `word` repeated for ever. */
  predicate PrefixOfPowers(s: string, word: string)
    requires word != ""
  {
    if |s| <= |word| then s == word[..|s|]
    else StartsWith(s, word) && PrefixOfPowers(s[|word|..], word)
  }

  /** `s` is a final piece of `word` repeated for ever to the left. */
  predicate SuffixOfPowers(s: string, word: string)
    requires word != ""
  {
    if |s| <= |word| then s == word[|word| - |s|..]
    else EndsWith(s, word) && SuffixOfPowers(s[..|s| - |word|], word)
  }

  /** Putting `word` before `s` leaves `s` as a prefix exactly for periodic `s`. */
  lemma {:induction false} ShiftedPrefix(word: string, s: string)
    requires word != ""
    ensures StartsWith(word + s, s) <==> PrefixOfPowers(s, word)
  {
    if |s| <= |word| {
      assert (word + s)[..|s|] == word[..|s|];
    } else {
      var rest := s[|word|..];
      ShiftedPrefix(word, rest);
      if StartsWith(s, word) {
        assert s == word + rest;
        assert (word + s)[..|s|] == word + (word + rest)[..|rest|];
        assert s[|word|..] == rest && (word + s)[..|s|][|word|..] == (word + rest)[..|rest|];
      } else {
        assert (word + s)[..|s|][..|word|] == word;
      }
    }
  }

  /** Putting `word` after `s` leaves `s` as a suffix exactly for periodic `s`. */
  lemma {:induction false} ShiftedSuffix(word: string, s: string)
    requires word != ""
    ensures EndsWith(s + word, s) <==> SuffixOfPowers(s, word)
  {
    var n := |word|;
    if |s| <= n {
      assert (s + word)[n..] == word[n - |s|..];
    } else {
      var rest := s[..|s| - n];
      ShiftedSuffix(word, rest);
      if EndsWith(s, word) {
        assert s == rest + word;
        assert (s + word)[n..] == (rest + word)[n..] + word;
        assert s[..|rest|] == rest && (s + word)[n..][..|rest|] == (rest + word)[n..];
      } else {
        assert (s + word)[n..][|s| - n..] == word;
      }
    }
  }
}
