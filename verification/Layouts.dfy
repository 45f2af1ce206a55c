/**
 One substitution, exactly: when it can complete a keyword that was not there, and when
 it keeps a keyword that was. Both are decided by the ways to lay copies of the inserted
 or the replaced text over the keyword.
 */
module Layouts {
  import opened Rewriting

  // ----- laying copies of a text over a keyword -----

  /** `other[from..to]`, cut at both ends of `other`. */
  function Piece(other: string, from: int, to: int): string {
    var left := if from < 0 then 0 else from;
    var right := if to > |other| then |other| else to;
    if left < right then other[left..right] else ""
  }

  /** Copies of `cover` at rising offsets, none reaching into the next, agree with `other`. */
  predicate Layout(fold: char -> char, cover: string, other: string, from: int, offsets: seq<int>)
    decreases offsets
  {
    offsets != [] ==>
      && from <= offsets[0] < |other|
      && Aligned(fold, cover, other, offsets[0])
      && Layout(fold, cover, other, offsets[0] + |cover|, offsets[1..])
  }

  /** `other` with `fill` in place of each copy of a text of `width` characters. */
  function Laid(fill: string, width: nat, other: string, from: int, offsets: seq<int>): string
    decreases offsets
  {
    if offsets == [] then Piece(other, from, |other|)
    else Piece(other, from, offsets[0]) + fill + Laid(fill, width, other, offsets[0] + width, offsets[1..])
  }

  /** The key matches before the end of the piece that precedes it. */
  predicate MatchesEarly(fold: char -> char, key: string, piece: string) {
    exists q: nat :: q < |piece| && MatchesAt(fold, piece + key, q, key)
  }

  /** With the key as the fill, a left-to-right scan matches at the filled places and nowhere else. */
  predicate ScansAsLaid(fold: char -> char, key: string, width: nat, other: string, from: int, offsets: seq<int>)
    decreases offsets
  {
    if offsets == [] then !Occurs(fold, Piece(other, from, |other|), key)
    else && !MatchesEarly(fold, key, Piece(other, from, offsets[0]))
         && ScansAsLaid(fold, key, width, other, offsets[0] + width, offsets[1..])
  }

  /** The least offset at which `cover` still overlaps what it is laid over. */
  function Leftmost(cover: string): int {
    1 - |cover|
  }

  /** A way to lay at least one copy of `cover` over `other` that a scan for the key can produce. */
  predicate Producible(fold: char -> char, key: string, cover: string, other: string, offsets: seq<int>) {
    && offsets != []
    && Layout(fold, cover, other, Leftmost(cover), offsets)
    && ScansAsLaid(fold, key, |cover|, other, 0, offsets)
  }

  /** `other` with `fill` in place of the copies of `cover`. */
  function Filled(fill: string, cover: string, other: string, offsets: seq<int>): string {
    Laid(fill, |cover|, other, 0, offsets)
  }

  // ----- from a layout to a text -----

  lemma MatchInFront(fold: char -> char, s: string, rest: string, position: nat, key: string)
    ensures MatchesAt(fold, s, position, key) ==> MatchesAt(fold, s + rest, position, key)
    ensures position + |key| <= |s| && MatchesAt(fold, s + rest, position, key) ==> MatchesAt(fold, s, position, key)
  {
    if MatchesAt(fold, s, position, key) {
      forall i | 0 <= i < |key| ensures fold((s + rest)[position + i]) == fold(key[i]) {
        assert fold(s[position + i]) == fold(key[i]);
      }
    }
    if position + |key| <= |s| && MatchesAt(fold, s + rest, position, key) {
      forall i | 0 <= i < |key| ensures fold(s[position + i]) == fold(key[i]) {
        assert fold((s + rest)[position + i]) == fold(key[i]);
      }
    }
  }

  lemma SubstituteInFront(fold: char -> char, piece: string, key: Key, rest: string, alt: string)
    requires !MatchesEarly(fold, key, piece)
    ensures Substitute(fold, piece + key + rest, key, alt) == piece + alt + Substitute(fold, rest, key, alt)
  {
    var s := piece + key + rest;
    assert MatchesAt(fold, s, |piece|, key) by {
      assert forall i :: 0 <= i < |key| ==> s[|piece| + i] == key[i];
    }
    forall q: nat | q < |piece| ensures !MatchesAt(fold, s, q, key) {
      MatchInFront(fold, piece + key, rest, q, key);
    }
    SubstituteAtFirst(fold, s, key, alt, |piece|);
    assert s[..|piece|] == piece && s[|piece| + |key|..] == rest;
  }

  /** Substitution turns the fill of a producible layout from the key into the alternate. */
  lemma {:induction false} LaidSubstitutes(fold: char -> char, key: Key, alt: string, width: nat, other: string,
                                           from: int, offsets: seq<int>)
    requires ScansAsLaid(fold, key, width, other, from, offsets)
    ensures Substitute(fold, Laid(key, width, other, from, offsets), key, alt) == Laid(alt, width, other, from, offsets)
    decreases offsets
  {
    if offsets == [] {
      SubstituteIdentity(fold, Piece(other, from, |other|), key, alt);
    } else {
      LaidSubstitutes(fold, key, alt, width, other, offsets[0] + width, offsets[1..]);
      SubstituteInFront(fold, Piece(other, from, offsets[0]), key,
                        Laid(key, width, other, offsets[0] + width, offsets[1..]), alt);
    }
  }

  /** `t`, laid at offset `start`, reaches the end of `other` and agrees with it. */
  predicate Shows(fold: char -> char, t: string, other: string, start: int) {
    |other| <= start + |t| && Aligned(fold, t, other, start)
  }

  lemma AlignedApart(fold: char -> char, a: string, b: string, other: string, d: int)
    ensures Aligned(fold, a + b, other, d) <==> Aligned(fold, a, other, d) && Aligned(fold, b, other, d + |a|)
  {
    if Aligned(fold, a + b, other, d) {
      forall i | 0 <= i < |a| && 0 <= d + i < |other| ensures fold(a[i]) == fold(other[d + i]) {
        assert fold((a + b)[i]) == fold(other[d + i]);
      }
      forall i | 0 <= i < |b| && 0 <= d + |a| + i < |other| ensures fold(b[i]) == fold(other[d + |a| + i]) {
        assert fold((a + b)[|a| + i]) == fold(other[d + (|a| + i)]);
      }
    }
    if Aligned(fold, a, other, d) && Aligned(fold, b, other, d + |a|) {
      forall i | 0 <= i < |a + b| && 0 <= d + i < |other| ensures fold((a + b)[i]) == fold(other[d + i]) {
        if i >= |a| {
          assert fold(b[i - |a|]) == fold(other[(d + |a|) + (i - |a|)]);
        }
      }
    }
  }

  lemma ShowsApart(fold: char -> char, begin: string, middle: string, rest: string, other: string,
                   start: int, second: int, third: int)
    requires second == start + |begin| && third == second + |middle|
    ensures Shows(fold, begin + middle + rest, other, start)
            <==> && Aligned(fold, begin, other, start)
                 && Aligned(fold, middle, other, second)
                 && Shows(fold, rest, other, third)
  {
    AlignedApart(fold, begin + middle, rest, other, start);
    AlignedApart(fold, begin, middle, other, start);
  }

  lemma PieceAligned(fold: char -> char, other: string, from: nat, to: nat)
    requires from <= to <= |other|
    ensures |Piece(other, from, to)| == to - from && Aligned(fold, Piece(other, from, to), other, from)
  {
  }

  lemma ShowsJoined(fold: char -> char, cover: string, rest: string, other: string, from: nat, d: nat, at: nat)
    requires from <= d < |other| && at == d + |cover|
    requires Aligned(fold, cover, other, d) && Shows(fold, rest, other, at)
    ensures Shows(fold, Piece(other, from, d) + cover + rest, other, from)
  {
    PieceAligned(fold, other, from, d);
    ShowsApart(fold, Piece(other, from, d), cover, rest, other, from, d, at);
  }

  lemma {:induction false} LaidShows(fold: char -> char, cover: string, other: string, from: nat, offsets: seq<int>)
    requires Layout(fold, cover, other, from, offsets)
    ensures Shows(fold, Laid(cover, |cover|, other, from, offsets), other, from)
    decreases offsets
  {
    if offsets == [] {
      if from < |other| { PieceAligned(fold, other, from, |other|); }
    } else {
      LaidShows(fold, cover, other, offsets[0] + |cover|, offsets[1..]);
      ShowsJoined(fold, cover, Laid(cover, |cover|, other, offsets[0] + |cover|, offsets[1..]), other,
                  from, offsets[0], offsets[0] + |cover|);
    }
  }

  /** Filled with what it was laid with, a layout shows the keyword. */
  lemma FilledShows(fold: char -> char, cover: string, other: string, offsets: seq<int>)
    requires offsets != [] && Layout(fold, cover, other, Leftmost(cover), offsets)
    ensures Occurs(fold, Filled(cover, cover, other, offsets), other)
  {
    var d, t := offsets[0], Filled(cover, cover, other, offsets);
    if d >= 0 {
      LaidShows(fold, cover, other, 0, offsets);
      ShowsOccurs(fold, t, other, 0);
    } else {
      var rest := Laid(cover, |cover|, other, d + |cover|, offsets[1..]);
      LaidShows(fold, cover, other, d + |cover|, offsets[1..]);
      AlignedApart(fold, cover, rest, other, d);
      assert t == cover + rest;
      ShowsOccurs(fold, t, other, d);
    }
  }

  lemma ShowsOccurs(fold: char -> char, t: string, other: string, start: int)
    requires start <= 0 && Shows(fold, t, other, start)
    ensures MatchesAt(fold, t, -start, other) && Occurs(fold, t, other)
  {
    forall i | 0 <= i < |other| ensures fold(t[-start + i]) == fold(other[i]) {
      assert fold(t[-start + i]) == fold(other[start + (-start + i)]);
    }
    OccursBy(fold, t, -start, other);
  }

  // ----- from a text to a layout -----

  /** The text before or after the substitution, and what stands in it for each match. */
  function Side(fold: char -> char, after: bool, s: string, key: Key, alt: string): string {
    if after then Substitute(fold, s, key, alt) else s
  }

  function Word(after: bool, key: string, alt: string): string {
    if after then alt else key
  }

  lemma MatchesTransitive(fold: char -> char, s: string, position: nat, a: string, b: string)
    requires MatchesAt(fold, s, position, a) && Occurs(fold, a, b)
    ensures Occurs(fold, s, b)
  {
    var p: nat :| p <= |a| && MatchesAt(fold, a, p, b);
    forall i | 0 <= i < |b| ensures fold(s[position + p + i]) == fold(b[i]) {
      assert fold(a[p + i]) == fold(b[i]);
      assert fold(s[position + (p + i)]) == fold(a[p + i]);
    }
    OccursBy(fold, s, position + p, b);
  }

  lemma OccursTransitive(fold: char -> char, s: string, a: string, b: string)
    requires Occurs(fold, s, a) && Occurs(fold, a, b)
    ensures Occurs(fold, s, b)
  {
    var p: nat :| p <= |s| && MatchesAt(fold, s, p, a);
    MatchesTransitive(fold, s, p, a, b);
  }

  lemma MatchesJoined(fold: char -> char, a: string, b: string, x: string, y: string)
    requires |a| == |x| && MatchesAt(fold, a, 0, x) && MatchesAt(fold, b, 0, y)
    ensures MatchesAt(fold, a + b, 0, x + y)
  {
    forall i | 0 <= i < |x + y| ensures fold((a + b)[0 + i]) == fold((x + y)[i]) {
      if i < |x| {
        assert fold(a[0 + i]) == fold(x[i]);
      } else {
        assert fold(b[0 + (i - |x|)]) == fold(y[i - |x|]);
      }
    }
  }

  /** Either text begins like the original, has its word for the first match there, and goes on
      with what becomes of the rest. */
  lemma SideSplits(fold: char -> char, s: string, key: Key, alt: string, after: bool, first: nat)
    returns (middle: string)
    requires FirstMatch(fold, s, first, key)
    ensures |middle| == |Word(after, key, alt)| && MatchesAt(fold, middle, 0, Word(after, key, alt))
    ensures Side(fold, after, s, key, alt) == s[..first] + middle + Side(fold, after, s[first + |key|..], key, alt)
  {
    if after {
      SubstituteAtFirst(fold, s, key, alt, first);
      middle := alt;
    } else {
      middle := s[first..first + |key|];
      forall i | 0 <= i < |key| ensures fold(middle[0 + i]) == fold(key[i]) {
        assert middle[i] == s[first + i];
      }
    }
  }

  lemma NoEarlyMatch(fold: char -> char, s: string, key: Key, first: nat, piece: string)
    requires FirstMatch(fold, s, first, key) && |piece| == first && MatchesAt(fold, s[..first], 0, piece)
    ensures !MatchesEarly(fold, key, piece)
  {
    if q: nat :| q < |piece| && MatchesAt(fold, piece + key, q, key) {
      forall i | 0 <= i < |key| ensures fold(s[q + i]) == fold(key[i]) {
        assert fold((piece + key)[q + i]) == fold(key[i]);
        if q + i < first {
          assert fold(s[..first][0 + (q + i)]) == fold(piece[q + i]);
        } else {
          assert fold(s[first + (q + i - first)]) == fold(key[q + i - first]);
        }
      }
      assert MatchesAt(fold, s, q, key);
    }
  }

  /** What `other` has from `from` to `from + n` is what `t`, laid there, has in its first `n` characters. */
  lemma PieceShown(fold: char -> char, t: string, other: string, from: nat, n: nat)
    requires Aligned(fold, t, other, from) && n <= |t| && from + n <= |other|
    ensures |Piece(other, from, from + n)| == n && MatchesAt(fold, t[..n], 0, Piece(other, from, from + n))
  {
    var piece := Piece(other, from, from + n);
    forall i | 0 <= i < |piece| ensures fold(t[..n][0 + i]) == fold(piece[i]) {
      assert fold(t[i]) == fold(other[from + i]);
    }
  }

  lemma AlignedWord(fold: char -> char, shown: string, word: string, other: string, d: int)
    requires |shown| == |word| && MatchesAt(fold, shown, 0, word) && Aligned(fold, shown, other, d)
    ensures Aligned(fold, word, other, d)
  {
    forall i | 0 <= i < |word| && 0 <= d + i < |other| ensures fold(word[i]) == fold(other[d + i]) {
      assert fold(shown[0 + i]) == fold(word[i]);
    }
  }

  /** Where the text shows the rest of `other` before any match. */
  lemma WalkEnds(fold: char -> char, s: string, key: Key, other: string, from: nat, n: nat)
    requires n <= |s| && from + n >= |other| && Aligned(fold, s[..n], other, from)
    requires forall q: nat :: q < n ==> !MatchesAt(fold, s, q, key)
    ensures !Occurs(fold, Piece(other, from, |other|), key)
    ensures MatchesAt(fold, s[..n], 0, Piece(other, from, |other|))
  {
    var piece := Piece(other, from, |other|);
    if from < |other| {
      PieceShown(fold, s[..n], other, from, |other| - from);
      MatchInFront(fold, s[..n][..|piece|], s[..n][|piece|..], 0, piece);
      assert s[..n] == s[..n][..|piece|] + s[..n][|piece|..];
    }
    if Occurs(fold, piece, key) {
      var q: nat :| q <= |piece| && MatchesAt(fold, piece, q, key);
      forall i | 0 <= i < |key| ensures fold(s[q + i]) == fold(key[i]) {
        assert fold(s[..n][0 + (q + i)]) == fold(piece[q + i]);
      }
      assert MatchesAt(fold, s, q, key);
    }
  }

  /** A text and the other side of its substitution: the matches in the part that shows `other`,
      from `from` on, make the layout `offsets`, and the other side begins with that layout filled. */
  predicate Walked(fold: char -> char, s: string, hidden: string, key: string, cover: string, fill: string,
                   other: string, from: nat, offsets: seq<int>)
  {
    && Layout(fold, cover, other, from, offsets)
    && ScansAsLaid(fold, key, |cover|, other, from, offsets)
    && MatchesAt(fold, hidden, 0, Laid(fill, |cover|, other, from, offsets))
    && (offsets != [] ==> MatchesAt(fold, s, offsets[0] - from, key))
  }

  /** If one side of a substitution shows `other` from `from` on, there is such a layout. */
  lemma {:induction false} Walk(fold: char -> char, s: string, key: Key, alt: string, after: bool, other: string,
                                from: nat)
    returns (offsets: seq<int>)
    requires Shows(fold, Side(fold, after, s, key, alt), other, from)
    ensures Walked(fold, s, Side(fold, !after, s, key, alt), key, Word(after, key, alt), Word(!after, key, alt),
                   other, from, offsets)
    decreases |s|
  {
    if !Occurs(fold, s, key) {
      SubstituteIdentity(fold, s, key, alt);
      WalkUnmatched(fold, s, key, Word(after, key, alt), Word(!after, key, alt), other, from);
      offsets := [];
    } else {
      var first := SubstituteSplits(fold, s, key, alt);
      if from + first >= |other| {
        WalkBeyond(fold, s, key, alt, after, other, from, first);
        offsets := [];
      } else {
        var at := from + first + |Word(after, key, alt)|;
        RestShows(fold, s, key, alt, after, other, from, first, at);
        var later := Walk(fold, s[first + |key|..], key, alt, after, other, at);
        WalkInside(fold, s, key, alt, after, other, from, first, at, later);
        offsets := [from + first] + later;
      }
    }
  }

  lemma RestShows(fold: char -> char, s: string, key: Key, alt: string, after: bool, other: string,
                  from: nat, first: nat, at: nat)
    requires FirstMatch(fold, s, first, key) && Shows(fold, Side(fold, after, s, key, alt), other, from)
    requires at == from + first + |Word(after, key, alt)|
    ensures Shows(fold, Side(fold, after, s[first + |key|..], key, alt), other, at)
  {
    var shown := SideSplits(fold, s, key, alt, after, first);
    ShowsApart(fold, s[..first], shown, Side(fold, after, s[first + |key|..], key, alt), other, from, from + first, at);
  }

  lemma WalkUnmatched(fold: char -> char, s: string, key: Key, cover: string, fill: string, other: string, from: nat)
    requires !Occurs(fold, s, key) && Shows(fold, s, other, from)
    ensures Walked(fold, s, s, key, cover, fill, other, from, [])
  {
    assert s[..|s|] == s;
    WalkEnds(fold, s, key, other, from, |s|);
  }

  /** Where the text shows the rest of `other` before the first match. */
  lemma WalkBeyond(fold: char -> char, s: string, key: Key, alt: string, after: bool, other: string, from: nat,
                   first: nat)
    requires FirstMatch(fold, s, first, key) && from + first >= |other|
    requires Shows(fold, Side(fold, after, s, key, alt), other, from)
    ensures Walked(fold, s, Side(fold, !after, s, key, alt), key, Word(after, key, alt), Word(!after, key, alt),
                   other, from, [])
  {
    var piece, rest := Piece(other, from, |other|), s[first + |key|..];
    var shown := SideSplits(fold, s, key, alt, after, first);
    var hidden := SideSplits(fold, s, key, alt, !after, first);
    ShowsApart(fold, s[..first], shown, Side(fold, after, rest, key, alt), other,
               from, from + first, from + first + |shown|);
    WalkEnds(fold, s, key, other, from, first);
    MatchInFront(fold, s[..first], hidden, 0, piece);
    MatchInFront(fold, s[..first] + hidden, Side(fold, !after, rest, key, alt), 0, piece);
  }

  /** Where the first match stands in the part that shows `other`. */
  lemma WalkInside(fold: char -> char, s: string, key: Key, alt: string, after: bool, other: string,
                   from: nat, first: nat, at: nat, later: seq<int>)
    requires FirstMatch(fold, s, first, key) && from + first < |other|
    requires Shows(fold, Side(fold, after, s, key, alt), other, from)
    requires at == from + first + |Word(after, key, alt)|
    requires Walked(fold, s[first + |key|..], Side(fold, !after, s[first + |key|..], key, alt), key,
                    Word(after, key, alt), Word(!after, key, alt), other, at, later)
    ensures Walked(fold, s, Side(fold, !after, s, key, alt), key, Word(after, key, alt), Word(!after, key, alt),
                   other, from, [from + first] + later)
  {
    var rest := s[first + |key|..];
    var shown := SideSplits(fold, s, key, alt, after, first);
    var hidden := SideSplits(fold, s, key, alt, !after, first);
    StepAligned(fold, s, shown, Side(fold, after, rest, key, alt), key, Word(after, key, alt), other, from, first);
    StepWalked(fold, s, hidden, Side(fold, !after, rest, key, alt), key, Word(after, key, alt), Word(!after, key, alt),
               other, from, first, at, later);
  }

  lemma StepWalked(fold: char -> char, s: string, hidden: string, hiddenRest: string, key: Key,
                   cover: string, fill: string, other: string, from: nat, first: nat, at: nat, later: seq<int>)
    requires first + |key| <= |s| && MatchesAt(fold, s, first, key)
    requires from + first < |other| && at == from + first + |cover| && Aligned(fold, cover, other, from + first)
    requires var piece := Piece(other, from, from + first);
             |piece| == first && MatchesAt(fold, s[..first], 0, piece) && !MatchesEarly(fold, key, piece)
    requires |hidden| == |fill| && MatchesAt(fold, hidden, 0, fill)
    requires Walked(fold, s[first + |key|..], hiddenRest, key, cover, fill, other, at, later)
    ensures Walked(fold, s, s[..first] + hidden + hiddenRest, key, cover, fill, other, from, [from + first] + later)
  {
    var offsets := [from + first] + later;
    var piece, laid := Piece(other, from, from + first), Laid(fill, |cover|, other, at, later);
    assert offsets[1..] == later;
    ThreeMatch(fold, s[..first], hidden, hiddenRest, piece, fill, laid);
    assert Laid(fill, |cover|, other, from, offsets) == piece + fill + laid;
  }

  lemma StepAligned(fold: char -> char, s: string, shown: string, shownRest: string, key: Key,
                    cover: string, other: string, from: nat, first: nat)
    requires FirstMatch(fold, s, first, key) && from + first < |other|
    requires Shows(fold, s[..first] + shown + shownRest, other, from)
    requires |shown| == |cover| && MatchesAt(fold, shown, 0, cover)
    ensures Aligned(fold, cover, other, from + first)
    ensures |Piece(other, from, from + first)|
            == first && MatchesAt(fold, s[..first], 0, Piece(other, from, from + first))
    ensures !MatchesEarly(fold, key, Piece(other, from, from + first))
  {
    ShowsApart(fold, s[..first], shown, shownRest, other, from, from + first, from + first + |shown|);
    AlignedWord(fold, shown, cover, other, from + first);
    PieceShown(fold, s[..first], other, from, first);
    assert s[..first][..first] == s[..first];
    NoEarlyMatch(fold, s, key, first, Piece(other, from, from + first));
  }

  lemma ThreeMatch(fold: char -> char, a: string, b: string, c: string, x: string, y: string, z: string)
    requires |a| == |x| && |b| == |y|
    requires MatchesAt(fold, a, 0, x) && MatchesAt(fold, b, 0, y) && MatchesAt(fold, c, 0, z)
    ensures MatchesAt(fold, a + b + c, 0, x + y + z)
  {
    MatchesJoined(fold, a, b, x, y);
    MatchesJoined(fold, a + b, c, x + y, z);
  }

  lemma OccurrenceShows(fold: char -> char, t: string, k: nat, p: nat, other: string)
    requires MatchesAt(fold, t, p, other) && k <= |t|
    ensures Shows(fold, t[k..], other, k - p)
  {
    forall i | 0 <= i < |t[k..]| && 0 <= k - p + i < |other| ensures fold(t[k..][i]) == fold(other[k - p + i]) {
      assert fold(t[p + (k - p + i)]) == fold(other[k - p + i]);
    }
  }

  /** Up to its first match a text is the same on both sides. */
  lemma SideFrom(fold: char -> char, s: string, key: Key, alt: string, after: bool, first: nat, p: nat)
    requires FirstMatch(fold, s, first, key) && p <= first
    ensures Side(fold, after, s, key, alt) == s[..p] + Side(fold, after, s[p..], key, alt)
  {
    if after {
      SubstituteFrom(fold, s, key, alt, first, p);
    } else {
      assert s == s[..p] + s[p..];
    }
  }

  lemma {:induction false} SubstituteFrom(fold: char -> char, s: string, key: Key, alt: string, first: nat, p: nat)
    requires FirstMatch(fold, s, first, key) && p <= first
    ensures Substitute(fold, s, key, alt) == s[..p] + Substitute(fold, s[p..], key, alt)
  {
    if p == 0 {
      assert s[..0] == "" && s[0..] == s;
    } else {
      FirstInTail(fold, s, first, key);
      HeadJoined(s, p, Substitute(fold, s[p..], key, alt));
      SubstituteFrom(fold, s[1..], key, alt, first - 1, p - 1);
      SubstituteMissed(fold, s, key, alt, s[1..][..p - 1] + Substitute(fold, s[p..], key, alt));
    }
  }

  lemma HeadJoined(s: string, p: nat, end: string)
    requires 0 < p <= |s|
    ensures s[1..][p - 1..] == s[p..]
    ensures [s[0]] + (s[1..][..p - 1] + end) == s[..p] + end
  {
    assert [s[0]] + s[1..][..p - 1] == s[..p];
  }

  lemma TailMatches(fold: char -> char, s: string, p: nat, q: nat, key: string)
    requires p <= |s|
    ensures MatchesAt(fold, s[p..], q, key) <==> MatchesAt(fold, s, p + q, key)
  {
    if MatchesAt(fold, s[p..], q, key) {
      forall i | 0 <= i < |key| ensures fold(s[p + q + i]) == fold(key[i]) {
        assert fold(s[p..][q + i]) == fold(key[i]);
      }
    }
    if MatchesAt(fold, s, p + q, key) {
      forall i | 0 <= i < |key| ensures fold(s[p..][q + i]) == fold(key[i]) {
        assert fold(s[p + q + i]) == fold(key[i]);
      }
    }
  }

  /** A layout that a scan can produce, found on the one side and filled on the other; without
      offsets the keyword itself is on both sides. */
  predicate FoundLayout(fold: char -> char, key: string, cover: string, fill: string, other: string,
                        hidden: string, offsets: seq<int>)
  {
    && (offsets != [] ==> Producible(fold, key, cover, other, offsets))
    && (offsets == [] ==> !Occurs(fold, other, key))
    && Occurs(fold, hidden, Filled(fill, cover, other, offsets))
  }

  /** Wherever one side of a substitution has a keyword, the matches that overlap it there make
      such a layout. */
  lemma {:induction false} FindLayout(fold: char -> char, s: string, key: Key, alt: string, after: bool,
                                      other: string, p: nat)
    returns (offsets: seq<int>)
    requires MatchesAt(fold, Side(fold, after, s, key, alt), p, other)
    ensures FoundLayout(fold, key, Word(after, key, alt), Word(!after, key, alt), other,
                        Side(fold, !after, s, key, alt), offsets)
    decreases |s|
  {
    if !Occurs(fold, s, key) {
      FindUnmatched(fold, s, key, alt, after, other, p);
      offsets := [];
    } else {
      var first := SubstituteSplits(fold, s, key, alt);
      var q := p - first - |Word(after, key, alt)|;
      if q >= 0 {
        FindBehind(fold, s, key, alt, after, other, first, p, q);
        offsets := FindLayout(fold, s[first + |key|..], key, alt, after, other, q);
        FoundBehind(fold, s, key, alt, after, other, first, offsets);
      } else if p <= first {
        offsets := FindBefore(fold, s, key, alt, after, other, first, p);
      } else {
        offsets := FindWithin(fold, s, key, alt, after, other, first, p);
      }
    }
  }

  lemma FindUnmatched(fold: char -> char, s: string, key: Key, alt: string, after: bool, other: string, p: nat)
    requires !Occurs(fold, s, key) && MatchesAt(fold, Side(fold, after, s, key, alt), p, other)
    ensures FoundLayout(fold, key, Word(after, key, alt), Word(!after, key, alt), other,
                        Side(fold, !after, s, key, alt), [])
  {
    SubstituteIdentity(fold, s, key, alt);
    OccursBy(fold, s, p, other);
    if Occurs(fold, other, key) {
      OccursTransitive(fold, s, other, key);
    }
    assert Filled(Word(!after, key, alt), Word(after, key, alt), other, []) == other;
  }

  lemma FindBehind(fold: char -> char, s: string, key: Key, alt: string, after: bool, other: string,
                   first: nat, p: nat, q: nat)
    requires FirstMatch(fold, s, first, key) && MatchesAt(fold, Side(fold, after, s, key, alt), p, other)
    requires p == first + |Word(after, key, alt)| + q
    ensures MatchesAt(fold, Side(fold, after, s[first + |key|..], key, alt), q, other)
  {
    var shown := SideSplits(fold, s, key, alt, after, first);
    MatchBehind(fold, s[..first] + shown, Side(fold, after, s[first + |key|..], key, alt), p, q, other);
  }

  lemma MatchBehind(fold: char -> char, begin: string, rest: string, p: nat, q: nat, other: string)
    requires MatchesAt(fold, begin + rest, p, other) && p == |begin| + q
    ensures MatchesAt(fold, rest, q, other)
  {
    TailMatches(fold, begin + rest, |begin|, q, other);
    assert (begin + rest)[|begin|..] == rest;
  }

  lemma FoundBehind(fold: char -> char, s: string, key: Key, alt: string, after: bool, other: string,
                    first: nat, offsets: seq<int>)
    requires FirstMatch(fold, s, first, key)
    requires FoundLayout(fold, key, Word(after, key, alt), Word(!after, key, alt), other,
                         Side(fold, !after, s[first + |key|..], key, alt), offsets)
    ensures FoundLayout(fold, key, Word(after, key, alt), Word(!after, key, alt), other,
                        Side(fold, !after, s, key, alt), offsets)
  {
    var rest := Side(fold, !after, s[first + |key|..], key, alt);
    var hidden := SideSplits(fold, s, key, alt, !after, first);
    OccursInPart(fold, s[..first] + hidden, rest, "",
                 Filled(Word(!after, key, alt), Word(after, key, alt), other, offsets));
    assert (s[..first] + hidden) + rest + "" == s[..first] + hidden + rest;
  }

  /** The keyword begins at or before the first match. */
  lemma FindBefore(fold: char -> char, s: string, key: Key, alt: string, after: bool, other: string, first: nat, p: nat)
    returns (offsets: seq<int>)
    requires FirstMatch(fold, s, first, key) && MatchesAt(fold, Side(fold, after, s, key, alt), p, other)
    requires p <= first && p < first + |Word(after, key, alt)|
    ensures FoundLayout(fold, key, Word(after, key, alt), Word(!after, key, alt), other,
                        Side(fold, !after, s, key, alt), offsets)
  {
    var cover, fill, tail := Word(after, key, alt), Word(!after, key, alt), s[p..];
    TailShows(fold, s, key, alt, after, other, first, p);
    offsets := Walk(fold, tail, key, alt, after, other, 0);
    if offsets != [] && offsets[0] == 0 {
      TailMatches(fold, s, p, 0, key);
    }
    WalkedIsFound(fold, tail, s[..p], Side(fold, !after, tail, key, alt), key, cover, fill, other, offsets);
    SideFrom(fold, s, key, alt, !after, first, p);
  }

  lemma TailShows(fold: char -> char, s: string, key: Key, alt: string, after: bool, other: string, first: nat, p: nat)
    requires FirstMatch(fold, s, first, key) && MatchesAt(fold, Side(fold, after, s, key, alt), p, other) && p <= first
    ensures Shows(fold, Side(fold, after, s[p..], key, alt), other, 0)
  {
    SideFrom(fold, s, key, alt, after, first, p);
    OccurrenceShows(fold, Side(fold, after, s, key, alt), p, p, other);
    assert Side(fold, after, s, key, alt)[p..] == Side(fold, after, s[p..], key, alt);
  }

  lemma WalkedIsFound(fold: char -> char, s: string, begin: string, hidden: string, key: Key, cover: string,
                      fill: string,
                      other: string, offsets: seq<int>)
    requires Walked(fold, s, hidden, key, cover, fill, other, 0, offsets)
    requires offsets != [] ==> offsets[0] >= Leftmost(cover)
    ensures FoundLayout(fold, key, cover, fill, other, begin + hidden, offsets)
  {
    OccursBy(fold, hidden, 0, Filled(fill, cover, other, offsets));
    OccursInPart(fold, begin, hidden, "", Filled(fill, cover, other, offsets));
    assert begin + hidden + "" == begin + hidden;
    assert Piece(other, 0, |other|) == other;
  }

  /** The keyword begins inside what stands for the first match. */
  lemma FindWithin(fold: char -> char, s: string, key: Key, alt: string, after: bool, other: string, first: nat, p: nat)
    returns (offsets: seq<int>)
    requires FirstMatch(fold, s, first, key) && MatchesAt(fold, Side(fold, after, s, key, alt), p, other)
    requires first < p < first + |Word(after, key, alt)|
    ensures FoundLayout(fold, key, Word(after, key, alt), Word(!after, key, alt), other,
                        Side(fold, !after, s, key, alt), offsets)
  {
    var d: int := first - p;
    var at: nat := d + |Word(after, key, alt)|;
    var later := WalkBehind(fold, s, key, alt, after, other, first, p, d, at);
    var rest := s[first + |key|..];
    var hidden := SideSplits(fold, s, key, alt, !after, first);
    FoundWithin(fold, s[..first], hidden, Side(fold, !after, rest, key, alt), rest, key,
                Word(after, key, alt), Word(!after, key, alt), other, d, at, later);
    offsets := [d] + later;
  }

  lemma WalkBehind(fold: char -> char, s: string, key: Key, alt: string, after: bool, other: string,
                   first: nat, p: nat, d: int, at: nat) returns (later: seq<int>)
    requires FirstMatch(fold, s, first, key) && MatchesAt(fold, Side(fold, after, s, key, alt), p, other)
    requires d == first - p && at == d + |Word(after, key, alt)|
    ensures Aligned(fold, Word(after, key, alt), other, d)
    ensures Walked(fold, s[first + |key|..], Side(fold, !after, s[first + |key|..], key, alt), key,
                   Word(after, key, alt), Word(!after, key, alt), other, at, later)
  {
    CoverShows(fold, s, key, alt, after, other, first, p, d, at);
    later := Walk(fold, s[first + |key|..], key, alt, after, other, at);
  }

  lemma FoundWithin(fold: char -> char, begin: string, hidden: string, hiddenRest: string, rest: string, key: Key,
                    cover: string, fill: string, other: string, d: int, at: nat, later: seq<int>)
    requires -|cover| < d < 0 && d < |other| && at == d + |cover| && Aligned(fold, cover, other, d)
    requires |hidden| == |fill| && MatchesAt(fold, hidden, 0, fill)
    requires Walked(fold, rest, hiddenRest, key, cover, fill, other, at, later)
    ensures FoundLayout(fold, key, cover, fill, other, begin + hidden + hiddenRest, [d] + later)
  {
    var offsets, laid := [d] + later, Laid(fill, |cover|, other, at, later);
    assert offsets[1..] == later && Piece(other, 0, d) == "";
    assert Filled(fill, cover, other, offsets) == fill + laid;
    MatchesJoined(fold, hidden, hiddenRest, fill, laid);
    OccursBy(fold, hidden + hiddenRest, 0, fill + laid);
    OccursInPart(fold, begin, hidden + hiddenRest, "", fill + laid);
    assert begin + (hidden + hiddenRest) + "" == begin + hidden + hiddenRest;
  }

  lemma CoverShows(fold: char -> char, s: string, key: Key, alt: string, after: bool, other: string,
                   first: nat, p: nat, d: int, at: nat)
    requires FirstMatch(fold, s, first, key) && MatchesAt(fold, Side(fold, after, s, key, alt), p, other)
    requires d == first - p && at == d + |Word(after, key, alt)|
    ensures Aligned(fold, Word(after, key, alt), other, d)
    ensures Shows(fold, Side(fold, after, s[first + |key|..], key, alt), other, at)
  {
    var shown := SideSplits(fold, s, key, alt, after, first);
    MatchShows(fold, s[..first], shown, Side(fold, after, s[first + |key|..], key, alt), Word(after, key, alt), other,
               p, d, at);
  }

  lemma MatchShows(fold: char -> char, begin: string, shown: string, rest: string, cover: string, other: string,
                   p: nat, d: int, at: int)
    requires |shown| == |cover| && MatchesAt(fold, shown, 0, cover)
    requires MatchesAt(fold, begin + shown + rest, p, other) && d == |begin| - p && at == d + |cover|
    ensures Aligned(fold, cover, other, d) && Shows(fold, rest, other, at)
  {
    var t := begin + shown + rest;
    OccurrenceShows(fold, t, |begin|, p, other);
    assert t[|begin|..] == "" + shown + rest;
    ShowsApart(fold, "", shown, rest, other, d, d, at);
    AlignedWord(fold, shown, cover, other, d);
  }

  // ----- completing a keyword -----

  /** What a substitution brings about came from a layout of its alternate: the original text
      holds that layout with the key in place of the alternate. */
  lemma Completion(fold: char -> char, s: string, key: Key, alt: string, other: string) returns (offsets: seq<int>)
    requires Occurs(fold, Substitute(fold, s, key, alt), other)
    requires other == key || !Occurs(fold, s, other)
    ensures Producible(fold, key, alt, other, offsets) && Occurs(fold, s, Filled(key, alt, other, offsets))
  {
    var t := Substitute(fold, s, key, alt);
    var p: nat :| p <= |t| && MatchesAt(fold, t, p, other);
    offsets := FindLayout(fold, s, key, alt, true, other, p);
    OccursBy(fold, key, 0, key);
    assert offsets == [] ==> Filled(key, alt, other, offsets) == other;
  }

  /** From a layout that a scan can produce, a text that the substitution makes hold the keyword. */
  lemma ProducibleCompletes(fold: char -> char, key: Key, alt: string, other: string, offsets: seq<int>)
    requires Producible(fold, key, alt, other, offsets)
    ensures Occurs(fold, Substitute(fold, Filled(key, alt, other, offsets), key, alt), other)
  {
    LaidSubstitutes(fold, key, alt, |alt|, other, 0, offsets);
    FilledShows(fold, alt, other, offsets);
  }

  /** Substitution never leaves `other` in a text that was free of it, nor its own key in any text. */
  ghost predicate LeavesNone(fold: char -> char, key: Key, alt: string, other: string) {
    forall s :: other == key || !Occurs(fold, s, other) ==> !Occurs(fold, Substitute(fold, s, key, alt), other)
  }

  /** That is so exactly if every producible layout of the alternate over the keyword comes from
      a text that holds the keyword already. */
  lemma LeavesNoneExactly(fold: char -> char, key: Key, alt: string, other: string)
    ensures LeavesNone(fold, key, alt, other)
            <==> forall offsets :: Producible(fold, key, alt, other, offsets) ==>
                   other != key && Occurs(fold, Filled(key, alt, other, offsets), other)
  {
    if LeavesNone(fold, key, alt, other) {
      forall offsets | Producible(fold, key, alt, other, offsets)
        ensures other != key && Occurs(fold, Filled(key, alt, other, offsets), other)
      {
        ProducibleCompletes(fold, key, alt, other, offsets);
      }
    } else {
      var s :| (other == key || !Occurs(fold, s, other)) && Occurs(fold, Substitute(fold, s, key, alt), other);
      var offsets := Completion(fold, s, key, alt, other);
      if Occurs(fold, Filled(key, alt, other, offsets), other) {
        OccursTransitive(fold, s, Filled(key, alt, other, offsets), other);
      }
    }
  }

  ghost predicate ClearsEveryText(fold: char -> char, key: Key, alt: string) {
    forall s :: !Occurs(fold, Substitute(fold, s, key, alt), key)
  }

  /** Every overlap of the alternate with its own key is one that scanning cannot produce. */
  predicate SelfClearing(fold: char -> char, key: string, alt: string) {
    forall d :: -|alt| < d < |key| && Aligned(fold, alt, key, d) ==> d > 0 && MatchesEarly(fold, key, key[..d])
  }

  /** Substituting a key removes it from every text exactly if its alternate is self-clearing. */
  lemma SubstituteClearsExactly(fold: char -> char, key: Key, alt: string)
    ensures SelfClearing(fold, key, alt) <==> ClearsEveryText(fold, key, alt)
  {
    LeavesNoneExactly(fold, key, alt, key);
    assert LeavesNone(fold, key, alt, key) <==> ClearsEveryText(fold, key, alt);
    if SelfClearing(fold, key, alt) {
      forall offsets ensures !Producible(fold, key, alt, key, offsets) {
        if offsets != [] && Layout(fold, alt, key, Leftmost(alt), offsets) {
          assert offsets[0] > 0 ==> Piece(key, 0, offsets[0]) == key[..offsets[0]];
        }
      }
    } else {
      var d :| -|alt| < d < |key| && Aligned(fold, alt, key, d) && !(d > 0 && MatchesEarly(fold, key, key[..d]));
      SingleProducible(fold, key, alt, d);
    }
  }

  lemma SingleProducible(fold: char -> char, key: Key, alt: string, d: int)
    requires -|alt| < d < |key| && Aligned(fold, alt, key, d) && !(d > 0 && MatchesEarly(fold, key, key[..d]))
    ensures Producible(fold, key, alt, key, [d])
  {
    var tail := Piece(key, d + |alt|, |key|);
    assert |tail| < |key|;
    assert !Occurs(fold, tail, key);
    assert [d][1..] == [];
    assert d > 0 ==> Piece(key, 0, d) == key[..d];
  }

  /** No layout without an overlap. */
  lemma ProducibleTouches(fold: char -> char, key: string, cover: string, other: string, offsets: seq<int>)
    requires Producible(fold, key, cover, other, offsets)
    ensures Touches(fold, cover, other)
  {
    assert Aligned(fold, cover, other, offsets[0]);
  }

  /** Substitution brings back no absent keyword that its alternate does not touch. */
  lemma SubstituteAddsNone(fold: char -> char, s: string, key: Key, alt: string, other: string)
    requires !Touches(fold, alt, other)
    ensures Occurs(fold, Substitute(fold, s, key, alt), other) ==> Occurs(fold, s, other)
  {
    if Occurs(fold, Substitute(fold, s, key, alt), other) && !Occurs(fold, s, other) {
      var offsets := Completion(fold, s, key, alt, other);
      ProducibleTouches(fold, key, alt, other, offsets);
    }
  }

  // ----- keeping a keyword -----

  ghost predicate KeepsEveryOccurrence(fold: char -> char, key: Key, alt: string, other: string) {
    forall s :: Occurs(fold, s, other) ==> Occurs(fold, Substitute(fold, s, key, alt), other)
  }

  /** Every producible layout of the key over the keyword still shows the keyword once the
      alternate stands for the key. */
  ghost predicate KeepsLaid(fold: char -> char, key: Key, alt: string, other: string) {
    forall offsets :: Producible(fold, key, key, other, offsets) ==>
      Occurs(fold, Filled(alt, key, other, offsets), other)
  }

  /** That decides whether a substitution keeps the keyword in every text that has it. */
  lemma SubstituteKeepsExactly(fold: char -> char, key: Key, alt: string, other: string)
    ensures KeepsLaid(fold, key, alt, other) <==> KeepsEveryOccurrence(fold, key, alt, other)
  {
    if KeepsLaid(fold, key, alt, other) {
      forall s | Occurs(fold, s, other) ensures Occurs(fold, Substitute(fold, s, key, alt), other) {
        SubstituteKeepsIn(fold, s, key, alt, other);
      }
    } else {
      var offsets :| && Producible(fold, key, key, other, offsets)
                     && !Occurs(fold, Filled(alt, key, other, offsets), other);
      ProducibleLoses(fold, key, alt, other, offsets);
      assert !KeepsEveryOccurrence(fold, key, alt, other);
    }
  }

  lemma SubstituteKeepsIn(fold: char -> char, s: string, key: Key, alt: string, other: string)
    requires KeepsLaid(fold, key, alt, other) && Occurs(fold, s, other)
    ensures Occurs(fold, Substitute(fold, s, key, alt), other)
  {
    var p: nat :| p <= |s| && MatchesAt(fold, s, p, other);
    var offsets := FindLayout(fold, s, key, alt, false, other, p);
    if offsets == [] {
      assert Filled(alt, key, other, offsets) == other;
    } else {
      OccursTransitive(fold, Substitute(fold, s, key, alt), Filled(alt, key, other, offsets), other);
    }
  }

  /** A producible layout of the key is a text with the keyword, and what substitution makes of it. */
  lemma ProducibleLoses(fold: char -> char, key: Key, alt: string, other: string, offsets: seq<int>)
    requires Producible(fold, key, key, other, offsets)
    ensures Occurs(fold, Filled(key, key, other, offsets), other)
    ensures Substitute(fold, Filled(key, key, other, offsets), key, alt) == Filled(alt, key, other, offsets)
  {
    FilledShows(fold, key, other, offsets);
    LaidSubstitutes(fold, key, alt, |key|, other, 0, offsets);
  }

  /** A substitution keeps every keyword that its key cannot overlap. */
  lemma SubstituteKeeps(fold: char -> char, s: string, key: Key, alt: string, other: string)
    requires Occurs(fold, s, other) && !Touches(fold, key, other)
    ensures Occurs(fold, Substitute(fold, s, key, alt), other)
  {
    forall offsets ensures !Producible(fold, key, key, other, offsets) {
      if Producible(fold, key, key, other, offsets) {
        ProducibleTouches(fold, key, key, other, offsets);
      }
    }
    SubstituteKeepsIn(fold, s, key, alt, other);
  }
}
