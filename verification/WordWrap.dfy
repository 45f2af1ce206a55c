/**
 The greedy wrapping of a manifest description: the loop, its lines, and the
 description of those lines that fixes them uniquely.
 */
module WordWrap {
  import Text

  /** `chunk_size` */
  const CHUNK: nat := 78

  /** A line as its words. */
  type Line = seq<string>

  /** `" ".join(line)` */
  function Render(line: Line): string {
    Text.Join(" ", line)
  }

  function Length(line: Line): nat {
    |Render(line)|
  }

  lemma {:induction false} LengthAppend(line: Line, word: string)
    ensures Length(line + [word]) == if line == [] then |word| else Length(line) + 1 + |word|
  {
    if line == [] {
      assert line + [word] == [word];
    } else {
      assert (line + [word])[1..] == line[1..] + [word];
      LengthAppend(line[1..], word);
    }
  }

  /** The lines still to come, given the words collected for the current one and the counter. */
  function WrapFrom(line: Line, width: nat, words: seq<string>): seq<Line>
    decreases |words|
  {
    if words == [] then (if line == [] then [] else [line])
    else if width + |words[0]| + 1 > CHUNK && line != [] then
      [line] + WrapFrom([words[0]], |words[0]|, words[1..])
    else WrapFrom(line + [words[0]], width + |words[0]| + 1, words[1..])
  }

  function Wrap(words: seq<string>): seq<Line> {
    WrapFrom([], 0, words)
  }

  function RenderAll(lines: seq<Line>): seq<string> {
    seq(|lines|, i requires 0 <= i < |lines| => Render(lines[i]))
  }

  /** The wrapping loop of `_render_manifest`. */
  method WrapDescription(words: seq<string>) returns (descLines: seq<string>)
    ensures descLines == RenderAll(Wrap(words))
  {
    var line: Line, width: nat := [], 0;
    ghost var lines: seq<Line> := [];
    descLines := [];
    for i := 0 to |words|
      invariant descLines == RenderAll(lines)
      invariant Wrap(words) == lines + WrapFrom(line, width, words[i..])
    {
      var word := words[i];
      assert words[i..][0] == word && words[i..][1..] == words[i + 1..];
      if width + |word| + 1 > CHUNK && line != [] {
        descLines := descLines + [Render(line)];
        lines := lines + [line];
        line := [word];
        width := |word|;
      } else {
        line := line + [word];
        width := width + |word| + 1;
      }
    }
    if line != [] {
      descLines := descLines + [Render(line)];
      lines := lines + [line];
    }
  }

  // ----- what the lines are -----

  /** The longest a line of several words may be. The counter of the first line starts one
      ahead of its length, so that line is one shorter. */
  function Limit(isFirst: bool): nat {
    if isFirst then CHUNK - 1 else CHUNK
  }

  function Flatten(lines: seq<Line>): seq<string> {
    if lines == [] then [] else lines[0] + Flatten(lines[1..])
  }

  /** Each line fits, unless it is a single word, and could not have taken the next word. */
  predicate IsGreedy(isFirst: bool, lines: seq<Line>) {
    lines == [] || (
      && lines[0] != []
      && (|lines[0]| == 1 || Length(lines[0]) <= Limit(isFirst))
      && (|lines| > 1 && lines[1] != [] ==> Length(lines[0]) + 1 + |lines[1][0]| > Limit(isFirst))
      && IsGreedy(false, lines[1..])
    )
  }

  /** The wrapped lines hold the words in order and are greedy. */
  lemma {:induction false} WrapFromGreedy(isFirst: bool, line: Line, width: nat, words: seq<string>)
    requires line != [] && width == Length(line) + (if isFirst then 1 else 0)
    requires |line| == 1 || Length(line) <= Limit(isFirst)
    ensures var lines := WrapFrom(line, width, words);
            && Flatten(lines) == line + words
            && IsGreedy(isFirst, lines)
            && lines != [] && |lines[0]| >= |line| && lines[0][..|line|] == line
    decreases |words|
  {
    if words == [] {
      assert [line][1..] == [];
    } else {
      var word := words[0];
      assert words == [word] + words[1..];
      if width + |word| + 1 > CHUNK {
        Singleton(word);
        WrapFromGreedy(false, [word], |word|, words[1..]);
        LineBefore(isFirst, line, WrapFrom([word], |word|, words[1..]), word);
      } else {
        LengthAppend(line, word);
        WrapFromGreedy(isFirst, line + [word], width + |word| + 1, words[1..]);
        var lines := WrapFrom(line, width, words);
        assert line + [word] + words[1..] == line + words;
        assert lines[0][..|line|] == lines[0][..|line| + 1][..|line|] == line;
      }
    }
  }

  /** A fitting line in front of greedy lines whose first word did not fit. */
  lemma LineBefore(isFirst: bool, line: Line, rest: seq<Line>, word: string)
    requires line != [] && (|line| == 1 || Length(line) <= Limit(isFirst))
    requires rest != [] && rest[0] != [] && rest[0][..1] == [word] && IsGreedy(false, rest)
    requires Length(line) + 1 + |word| > Limit(isFirst)
    ensures Flatten([line] + rest) == line + Flatten(rest)
    ensures IsGreedy(isFirst, [line] + rest)
  {
    assert ([line] + rest)[1..] == rest;
    assert rest[0][0] == rest[0][..1][0] == word;
  }

  lemma Singleton(word: string)
    ensures Length([word]) == |word|
  {
  }

  lemma WrapGreedy(words: seq<string>)
    ensures Flatten(Wrap(words)) == words
    ensures IsGreedy(true, Wrap(words))
  {
    if words != [] {
      Singleton(words[0]);
      assert [] + [words[0]] == [words[0]];
      WrapFromGreedy(true, [words[0]], |words[0]| + 1, words[1..]);
      assert words == [words[0]] + words[1..];
    }
  }

  // ----- uniqueness -----

  lemma {:induction false} PrefixShorter(line: Line, n: nat)
    requires 0 < n <= |line|
    ensures Length(line[..n]) <= Length(line)
    decreases |line|
  {
    if n < |line| {
      var init := line[..|line| - 1];
      assert line == init + [line[|line| - 1]];
      LengthAppend(init, line[|line| - 1]);
      assert init[..n] == line[..n];
      PrefixShorter(init, n);
    } else {
      assert line[..n] == line;
    }
  }

  /** Two greedy wrappings of the same words cannot begin with lines of different length. */
  lemma FirstLineNotShorter(isFirst: bool, lines: seq<Line>, others: seq<Line>)
    requires lines != [] && others != [] && Flatten(lines) == Flatten(others)
    requires IsGreedy(isFirst, lines) && IsGreedy(isFirst, others)
    ensures |lines[0]| >= |others[0]|
  {
    if |lines[0]| < |others[0]| {
      var rest := Flatten(lines[1..]);
      CommonStart(lines[0], rest, others[0], Flatten(others[1..]));
      NextWord(isFirst, lines);
      TakesOneMore(lines[0], others[0]);
    }
  }

  /** A line that goes on where a shorter one stops is longer by at least the next word. */
  lemma TakesOneMore(line: Line, longer: Line)
    requires line != [] && |line| < |longer| && longer[..|line| + 1] == line + [longer[|line|]]
    ensures Length(longer) >= Length(line) + 1 + |longer[|line|]|
  {
    LengthAppend(line, longer[|line|]);
    PrefixShorter(longer, |line| + 1);
  }

  lemma CommonStart(a: Line, b: Line, c: Line, d: Line)
    requires a + b == c + d && |a| < |c|
    ensures b != [] && c[..|a| + 1] == a + [c[|a|]] && b[0] == c[|a|]
  {
    assert |b| == |c| - |a| + |d|;
    assert b[0] == (a + b)[|a|] == (c + d)[|a|] == c[|a|];
    assert c[..|a|] == (c + d)[..|a|] == (a + b)[..|a|] == a;
  }

  /** The first word of the next line did not fit. */
  lemma NextWord(isFirst: bool, lines: seq<Line>)
    requires lines != [] && IsGreedy(isFirst, lines) && Flatten(lines[1..]) != []
    ensures Length(lines[0]) + 1 + |Flatten(lines[1..])[0]| > Limit(isFirst)
  {
    var rest := lines[1..];
    assert rest != [] && rest[0] == lines[1] && rest[0] != [];
    assert Flatten(rest)[0] == rest[0][0];
  }

  lemma {:induction false} GreedyUnique(isFirst: bool, lines: seq<Line>, others: seq<Line>)
    requires Flatten(lines) == Flatten(others)
    requires IsGreedy(isFirst, lines) && IsGreedy(isFirst, others)
    ensures lines == others
    decreases |lines|
  {
    if lines == [] || others == [] {
      assert lines == [] && others == [];
    } else {
      FirstLineNotShorter(isFirst, lines, others);
      FirstLineNotShorter(isFirst, others, lines);
      var n := |lines[0]|;
      assert lines[0] == Flatten(lines)[..n] == Flatten(others)[..n] == others[0];
      assert Flatten(lines[1..]) == Flatten(lines)[n..] == Flatten(others)[n..] == Flatten(others[1..]);
      GreedyUnique(false, lines[1..], others[1..]);
      assert lines == [lines[0]] + lines[1..] && others == [others[0]] + others[1..];
    }
  }

  /** Wrapping gives the one greedy division of the words into lines. */
  lemma WrapExact(words: seq<string>, lines: seq<Line>)
    ensures lines == Wrap(words) <==> Flatten(lines) == words && IsGreedy(true, lines)
  {
    WrapGreedy(words);
    if Flatten(lines) == words && IsGreedy(true, lines) {
      GreedyUnique(true, lines, Wrap(words));
    }
  }

  /** Joined again, the lines are the text the words make. */
  lemma LinesSpell(words: seq<string>)
    ensures Text.Join(" ", RenderAll(Wrap(words))) == Text.Join(" ", words)
  {
    WrapGreedy(words);
    GreedyNotEmpty(true, Wrap(words));
    RenderedJoin(Wrap(words));
  }

  lemma {:induction false} GreedyNotEmpty(isFirst: bool, lines: seq<Line>)
    requires IsGreedy(isFirst, lines)
    ensures forall i :: 0 <= i < |lines| ==> lines[i] != []
  {
    if lines != [] {
      GreedyNotEmpty(false, lines[1..]);
      assert forall i :: 0 < i < |lines| ==> lines[i] == lines[1..][i - 1];
    }
  }

  lemma {:induction false} RenderedJoin(lines: seq<Line>)
    requires forall i :: 0 <= i < |lines| ==> lines[i] != []
    ensures Text.Join(" ", RenderAll(lines)) == Text.Join(" ", Flatten(lines))
  {
    if lines != [] {
      var rest := lines[1..];
      assert RenderAll(lines) == [Render(lines[0])] + RenderAll(rest);
      assert forall i :: 0 <= i < |rest| ==> rest[i] == lines[i + 1];
      RenderedJoin(rest);
      if rest == [] {
        assert RenderAll(lines) == [Render(lines[0])] && Flatten(lines) == lines[0] + [] == lines[0];
      } else {
        assert rest[0] != [] && Flatten(rest) == rest[0] + Flatten(rest[1..]);
        Text.JoinConcat(" ", [Render(lines[0])], RenderAll(rest));
        Text.JoinConcat(" ", lines[0], Flatten(rest));
      }
    }
  }

  /** Every line but the last was too full for the word that follows it: 78 with it and a space, on
      the first line 77. */
  lemma {:induction false} LinesFull(words: seq<string>, i: nat)
    requires i + 1 < |Wrap(words)|
    ensures Wrap(words)[i + 1] != []
    ensures Length(Wrap(words)[i]) + 1 + |Wrap(words)[i + 1][0]| > if i == 0 then 77 else 78
    ensures |Wrap(words)[i]| == 1 || Length(Wrap(words)[i]) <= if i == 0 then 77 else 78
  {
    WrapGreedy(words);
    GreedyNotEmpty(true, Wrap(words));
    GreedyLineFull(true, Wrap(words), i);
    GreedyLineFits(true, Wrap(words), i);
  }

  lemma {:induction false} GreedyLineFull(isFirst: bool, lines: seq<Line>, i: nat)
    requires IsGreedy(isFirst, lines) && i + 1 < |lines| && lines[i + 1] != []
    ensures Length(lines[i]) + 1 + |lines[i + 1][0]| > if isFirst && i == 0 then 77 else 78
  {
    if i > 0 {
      GreedyLineFull(false, lines[1..], i - 1);
    }
  }

  /** No line is empty and none is longer than 78, except a single longer word. */
  lemma {:induction false} LinesFit(words: seq<string>, i: nat)
    requires i < |Wrap(words)|
    ensures Wrap(words)[i] != []
    ensures Length(Wrap(words)[i]) <= 78 || |Wrap(words)[i]| == 1
  {
    WrapGreedy(words);
    GreedyLineFits(true, Wrap(words), i);
  }

  lemma {:induction false} GreedyLineFits(isFirst: bool, lines: seq<Line>, i: nat)
    requires IsGreedy(isFirst, lines) && i < |lines|
    ensures lines[i] != [] && (Length(lines[i]) <= Limit(isFirst && i == 0) || |lines[i]| == 1)
  {
    if i > 0 {
      GreedyLineFits(false, lines[1..], i - 1);
    }
  }
}
