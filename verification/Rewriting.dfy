/**
 Case-insensitive substitution of one keyword, left to right, and the ways in which two
 texts can overlap.
 */
module Rewriting {

  /** A keyword to replace. */
  type Key = s: string | s != "" witness "k"

  // ----- matching and substitution -----

  /** `key` matches at `position`, ignoring case: `fold` maps characters to case classes. */
  predicate MatchesAt(fold: char -> char, s: string, position: nat, key: string) {
    position + |key| <= |s| && forall i :: 0 <= i < |key| ==> fold(s[position + i]) == fold(key[i])
  }

  /** `pattern.search(s)` */
  predicate Occurs(fold: char -> char, s: string, key: string) {
    exists position: nat :: position <= |s| && MatchesAt(fold, s, position, key)
  }

  /** A keyword occurs where some part of the text is the keyword up to letter case. */
  lemma OccursMeans(fold: char -> char, s: string, key: string)
    ensures Occurs(fold, s, key)
            <==> exists before, middle, after :: s == before + middle + after && SameFolded(fold, middle, key)
  {
    if Occurs(fold, s, key) {
      var p: nat :| p <= |s| && MatchesAt(fold, s, p, key);
      var middle := s[p..p + |key|];
      assert SameFolded(fold, middle, key) by {
        forall i | 0 <= i < |key| ensures fold(middle[i]) == fold(key[i]) {
          assert middle[i] == s[p + i];
        }
      }
      assert s == s[..p] + middle + s[p + |key|..];
    }
    if before, middle, after :| s == before + middle + after && SameFolded(fold, middle, key) {
      forall i | 0 <= i < |key| ensures fold(s[|before| + i]) == fold(key[i]) {
        assert s[|before| + i] == middle[i];
      }
      assert MatchesAt(fold, s, |before|, key);
    }
  }

  predicate SameFolded(fold: char -> char, a: string, b: string) {
    |a| == |b| && forall i :: 0 <= i < |a| ==> fold(a[i]) == fold(b[i])
  }

  /** `pattern.sub(alt, s)`: replaces the leftmost match, then goes on behind it. */
  function Substitute(fold: char -> char, s: string, key: Key, alt: string): string {
    if MatchesAt(fold, s, 0, key) then alt + Substitute(fold, s[|key|..], key, alt)
    else if s == "" then ""
    else [s[0]] + Substitute(fold, s[1..], key, alt)
  }

  lemma OccursBy(fold: char -> char, s: string, position: nat, key: string)
    requires MatchesAt(fold, s, position, key)
    ensures Occurs(fold, s, key)
  {
  }

  lemma MatchInTail(fold: char -> char, s: string, position: nat, key: string)
    requires s != ""
    ensures MatchesAt(fold, s[1..], position, key) <==> MatchesAt(fold, s, position + 1, key)
  {
    if MatchesAt(fold, s, position + 1, key) {
      forall i | 0 <= i < |key| ensures fold(s[1..][position + i]) == fold(key[i]) {
        assert s[1..][position + i] == s[position + 1 + i];
      }
    }
  }

  /** `first` is where a left-to-right scan first matches. */
  ghost predicate FirstMatch(fold: char -> char, s: string, first: nat, key: string) {
    MatchesAt(fold, s, first, key) && forall q: nat :: q < first ==> !MatchesAt(fold, s, q, key)
  }

  lemma {:induction false} FindFirst(fold: char -> char, s: string, position: nat, key: string) returns (first: nat)
    requires MatchesAt(fold, s, position, key)
    ensures FirstMatch(fold, s, first, key)
  {
    if q: nat :| q < position && MatchesAt(fold, s, q, key) {
      first := FindFirst(fold, s, q, key);
    } else {
      first := position;
    }
  }

  lemma FirstInTail(fold: char -> char, s: string, first: nat, key: Key)
    requires FirstMatch(fold, s, first, key) && first > 0
    ensures FirstMatch(fold, s[1..], first - 1, key) && !MatchesAt(fold, s, 0, key)
  {
    var tail := s[1..];
    MatchInTail(fold, s, first - 1, key);
    forall q: nat | q < first - 1 ensures !MatchesAt(fold, tail, q, key) {
      MatchInTail(fold, s, q, key);
    }
  }

  lemma SubstituteMissed(fold: char -> char, s: string, key: Key, alt: string, result: string)
    requires s != "" && !MatchesAt(fold, s, 0, key) && Substitute(fold, s[1..], key, alt) == result
    ensures Substitute(fold, s, key, alt) == [s[0]] + result
  {
  }

  lemma SubstituteHit(fold: char -> char, s: string, key: Key, alt: string)
    requires MatchesAt(fold, s, 0, key)
    ensures Substitute(fold, s, key, alt) == alt + Substitute(fold, s[|key|..], key, alt)
  {
  }

  /** What substitution makes of the text around the first match. */
  lemma {:induction false} SubstituteAround(fold: char -> char, s: string, key: Key, alt: string, first: nat,
                                            end: string)
    requires FirstMatch(fold, s, first, key)
    requires end == Substitute(fold, s[first + |key|..], key, alt)
    ensures Substitute(fold, s, key, alt) == s[..first] + alt + end
  {
    if first == 0 {
      SubstituteHit(fold, s, key, alt);
      assert s[..0] + alt == alt && s[0 + |key|..] == s[|key|..];
    } else {
      FirstInTail(fold, s, first, key);
      JoinHead(s, first, |key|, alt, end);
      SubstituteAround(fold, s[1..], key, alt, first - 1, end);
      SubstituteMissed(fold, s, key, alt, s[1..][..first - 1] + alt + end);
    }
  }

  lemma SubstituteAtFirst(fold: char -> char, s: string, key: Key, alt: string, first: nat)
    requires FirstMatch(fold, s, first, key)
    ensures Substitute(fold, s, key, alt) == s[..first] + alt + Substitute(fold, s[first + |key|..], key, alt)
  {
    SubstituteAround(fold, s, key, alt, first, Substitute(fold, s[first + |key|..], key, alt));
  }

  lemma JoinHead(s: string, first: nat, n: nat, middle: string, end: string)
    requires 0 < first && first + n <= |s|
    ensures s[1..][first - 1 + n..] == s[first + n..]
    ensures [s[0]] + (s[1..][..first - 1] + middle + end) == s[..first] + middle + end
  {
    assert [s[0]] + s[1..][..first - 1] == s[..first];
  }

  lemma SubstituteSplits(fold: char -> char, s: string, key: Key, alt: string) returns (first: nat)
    requires Occurs(fold, s, key)
    ensures first + |key| <= |s| && FirstMatch(fold, s, first, key)
    ensures Substitute(fold, s, key, alt) == s[..first] + alt + Substitute(fold, s[first + |key|..], key, alt)
  {
    var position: nat :| position <= |s| && MatchesAt(fold, s, position, key);
    first := FindFirst(fold, s, position, key);
    SubstituteAtFirst(fold, s, key, alt, first);
  }

  /** Without a match the text is left alone. */
  lemma {:induction false} SubstituteIdentity(fold: char -> char, s: string, key: Key, alt: string)
    requires !Occurs(fold, s, key)
    ensures Substitute(fold, s, key, alt) == s
  {
    if s != "" {
      assert !MatchesAt(fold, s, 0, key);
      forall position: nat | position <= |s[1..]| ensures !MatchesAt(fold, s[1..], position, key) {
        MatchInTail(fold, s, position, key);
      }
      SubstituteIdentity(fold, s[1..], key, alt);
    }
  }

  // ----- overlaps -----

  /** Laid over `key` with its start at offset `d`, `a` agrees wherever both have a character. */
  predicate Aligned(fold: char -> char, a: string, key: string, d: int) {
    forall i :: 0 <= i < |a| && 0 <= d + i < |key| ==> fold(a[i]) == fold(key[d + i])
  }

  /** Some text that contains an occurrence of `key` could have `a` overlapping it. */
  predicate Touches(fold: char -> char, a: string, key: string) {
    exists d :: -|a| < d < |key| && Aligned(fold, a, key, d)
  }

  /** The last `n` characters of `a` agree with the first `n` of `b`. */
  predicate Borders(fold: char -> char, a: string, b: string, n: nat)
    requires n <= |a| && n <= |b|
  {
    forall i :: 0 <= i < n ==> fold(a[|a| - n + i]) == fold(b[i])
  }

  /** The four ways to overlap: containment one way or the other, or a common border. */
  ghost predicate ContainsOrBorders(fold: char -> char, a: string, key: string) {
    || Occurs(fold, a, key)
    || Occurs(fold, key, a)
    || (exists n :: 0 < n < |a| && n < |key| && Borders(fold, a, key, n))
    || (exists n :: 0 < n < |a| && n < |key| && Borders(fold, key, a, n))
  }

  /** There are no other ways. */
  lemma TouchesExact(fold: char -> char, a: string, key: string)
    requires a != "" && key != ""
    ensures Touches(fold, a, key) <==> ContainsOrBorders(fold, a, key)
  {
    if d :| -|a| < d < |key| && Aligned(fold, a, key, d) {
      TouchingCases(fold, a, key, d);
    }
    if ContainsOrBorders(fold, a, key) {
      if Occurs(fold, a, key) {
        var p: nat :| p <= |a| && MatchesAt(fold, a, p, key);
        var d: int := -(p as int);
        assert Aligned(fold, a, key, d);
      } else if Occurs(fold, key, a) {
        var p: nat :| p <= |key| && MatchesAt(fold, key, p, a);
        assert Aligned(fold, a, key, p);
      } else {
        BordersTouch(fold, a, key);
      }
    }
  }

  lemma BordersTouch(fold: char -> char, a: string, key: string)
    requires || (exists n :: 0 < n < |a| && n < |key| && Borders(fold, a, key, n))
             || (exists n :: 0 < n < |a| && n < |key| && Borders(fold, key, a, n))
    ensures Touches(fold, a, key)
  {
    if n :| 0 < n < |a| && n < |key| && Borders(fold, a, key, n) {
      var d := n - |a|;
      forall i | 0 <= i < |a| && 0 <= d + i < |key| ensures fold(a[i]) == fold(key[d + i]) {
        assert fold(a[|a| - n + (d + i)]) == fold(key[d + i]);
      }
      assert Aligned(fold, a, key, d);
    } else {
      var n :| 0 < n < |a| && n < |key| && Borders(fold, key, a, n);
      assert Aligned(fold, a, key, |key| - n);
    }
  }

  lemma TouchingCases(fold: char -> char, a: string, key: string, d: int)
    requires -|a| < d < |key| && Aligned(fold, a, key, d)
    ensures ContainsOrBorders(fold, a, key)
  {
    if d <= 0 && d + |a| >= |key| {
      forall i | 0 <= i < |key| ensures fold(a[-d + i]) == fold(key[i]) {
        assert fold(a[-d + i]) == fold(key[d + (-d + i)]);
      }
      assert MatchesAt(fold, a, -d, key);
    } else if d >= 0 && d + |a| <= |key| {
      assert MatchesAt(fold, key, d, a);
    } else if d < 0 {
      var n := |a| + d;
      forall i | 0 <= i < n ensures fold(a[|a| - n + i]) == fold(key[i]) {
        assert fold(a[-d + i]) == fold(key[d + (-d + i)]);
      }
      assert Borders(fold, a, key, n);
    } else {
      var n := |key| - d;
      forall i | 0 <= i < n ensures fold(key[|key| - n + i]) == fold(a[i]) {
        assert fold(a[i]) == fold(key[d + i]);
      }
      assert Borders(fold, key, a, n);
    }
  }

  lemma OccursInPart(fold: char -> char, before: string, s: string, after: string, other: string)
    requires Occurs(fold, s, other)
    ensures Occurs(fold, before + s + after, other)
  {
    var p: nat :| p <= |s| && MatchesAt(fold, s, p, other);
    assert MatchesAt(fold, before + s + after, |before| + p, other);
  }
}
