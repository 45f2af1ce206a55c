/**
 Texts glued together from parts: where the whole has a prefix, a suffix, a
 substring or a glob match, told from the parts and the seams between them.
 */
module Seams {
  import opened Text

  // ----- one seam -----

  lemma StartsAtSeam(a: string, b: string, prefix: string)
    ensures StartsWith(a + b, prefix)
            <==> if |prefix| <= |a| then StartsWith(a, prefix)
                 else StartsWith(prefix, a) && StartsWith(b, prefix[|a|..])
  {
    if |prefix| <= |a| {
      assert (a + b)[..|prefix|] == a[..|prefix|];
    } else {
      var rest := prefix[|a|..];
      assert prefix == prefix[..|a|] + rest;
      if |prefix| <= |a + b| {
        assert (a + b)[..|prefix|] == a + b[..|rest|];
        assert (a + b)[..|prefix|][..|a|] == a && (a + b)[..|prefix|][|a|..] == b[..|rest|];
      }
    }
  }

  lemma EndsAtSeam(a: string, b: string, suffix: string)
    ensures EndsWith(a + b, suffix)
            <==> if |suffix| <= |b| then EndsWith(b, suffix)
                 else EndsWith(suffix, b) && EndsWith(a, suffix[..|suffix| - |b|])
  {
    if |suffix| <= |b| {
      assert (a + b)[|a + b| - |suffix|..] == b[|b| - |suffix|..];
    } else {
      var rest := suffix[..|suffix| - |b|];
      assert suffix == rest + suffix[|rest|..];
      if |suffix| <= |a + b| {
        var tail := (a + b)[|a + b| - |suffix|..];
        assert tail == a[|a| - |rest|..] + b;
        assert tail[..|rest|] == a[|a| - |rest|..] && tail[|rest|..] == b;
      }
    }
  }

  /** A substring of two texts side by side lies in one of them or straddles the seam. */
  lemma ContainsAtSeam(a: string, b: string, part: string)
    ensures Contains(a + b, part)
            <==> || Contains(a, part)
                 || Contains(b, part)
                 || exists k :: 0 < k < |part| && EndsWith(a, part[..k]) && StartsWith(b, part[k..])
  {
    if Contains(a + b, part) {
      var p: nat :| p <= |a + b| && OccursAt(a + b, p, part);
      if p + |part| <= |a| {
        assert OccursAt(a, p, part);
      } else if p >= |a| {
        assert (a + b)[p..p + |part|] == b[p - |a|..p - |a| + |part|];
        assert OccursAt(b, p - |a|, part);
      } else {
        StraddlesSeam(a, b, part, p);
      }
    }
    if Contains(a, part) {
      ContainsExtends("", a, b, part);
      assert "" + a + b == a + b;
    }
    if Contains(b, part) {
      ContainsExtends(a, b, "", part);
      assert a + b + "" == a + b;
    }
    if k :| 0 < k < |part| && EndsWith(a, part[..k]) && StartsWith(b, part[k..]) {
      SeamStraddled(a, b, part, k);
    }
  }

  lemma StraddlesSeam(a: string, b: string, part: string, p: nat)
    requires p < |a| < p + |part| && OccursAt(a + b, p, part)
    ensures EndsWith(a, part[..|a| - p]) && StartsWith(b, part[|a| - p..])
  {
    var found := (a + b)[p..p + |part|];
    assert found[..|a| - p] == a[p..] && found[|a| - p..] == b[..p + |part| - |a|];
  }

  lemma SeamStraddled(a: string, b: string, part: string, k: nat)
    requires 0 < k < |part| && EndsWith(a, part[..k]) && StartsWith(b, part[k..])
    ensures Contains(a + b, part)
  {
    var p := |a| - k;
    assert (a + b)[p..p + |part|] == a[p..] + b[..|part| - k];
    assert part == part[..k] + part[k..];
    assert OccursAt(a + b, p, part);
  }

  // ----- globs at a seam -----

  /** The pattern accepts the text up to its very end. */
  predicate GlobWhole(pattern: string, s: string)
    decreases |pattern| + |s|
  {
    if pattern == "" then
      s == ""
    else if pattern[0] == '*' then
      GlobWhole(pattern[1..], s) || (s != "" && s[0] != '\n' && GlobWhole(pattern, s[1..]))
    else
      s != "" && s[0] == pattern[0] && GlobWhole(pattern[1..], s[1..])
  }

  /** The pattern can be cut at `k` for a seam between `a` and what the rest of it accepts:
      between two of its characters, or inside what a star accepts. */
  predicate CutsAt(pattern: string, a: string, k: nat)
    requires k <= |pattern|
  {
    GlobWhole(pattern[..k], a) || (k < |pattern| && pattern[k] == '*' && GlobWhole(pattern[..k + 1], a))
  }

  lemma GlobAtSeam(pattern: string, a: string, b: string)
    requires b != ""
    ensures GlobMatch(pattern, a + b)
            <==> exists k :: 0 <= k <= |pattern| && CutsAt(pattern, a, k) && GlobMatch(pattern[k..], b)
  {
    if GlobMatch(pattern, a + b) {
      var k := CutFound(pattern, a, b);
    }
    if k :| 0 <= k <= |pattern| && CutsAt(pattern, a, k) && GlobMatch(pattern[k..], b) {
      CutSuffices(pattern, a, b, k);
    }
  }

  lemma {:induction false} CutFound(pattern: string, a: string, b: string) returns (k: nat)
    requires b != "" && GlobMatch(pattern, a + b)
    ensures k <= |pattern| && CutsAt(pattern, a, k) && GlobMatch(pattern[k..], b)
    decreases |pattern| + |a|
  {
    if a == "" {
      assert a + b == b && pattern[0..] == pattern && pattern[..0] == "";
      k := 0;
    } else {
      assert (a + b)[0] == a[0] && (a + b)[1..] == a[1..] + b;
      if pattern[0] == '*' && GlobMatch(pattern[1..], a + b) {
        var rest := CutFound(pattern[1..], a, b);
        k := rest + 1;
        CutBehindStar(pattern, a, rest);
      } else if pattern[0] == '*' {
        k := CutFound(pattern, a[1..], b);
        CutByStar(pattern, a, k);
      } else {
        var rest := CutFound(pattern[1..], a[1..], b);
        k := rest + 1;
        CutBehindChar(pattern, a, rest);
      }
    }
  }

  lemma CutBehindStar(pattern: string, a: string, k: nat)
    requires pattern != "" && pattern[0] == '*' && k < |pattern| && CutsAt(pattern[1..], a, k)
    ensures CutsAt(pattern, a, k + 1) && pattern[1..][k..] == pattern[k + 1..]
  {
    assert pattern[..k + 1][1..] == pattern[1..][..k];
    if k + 1 < |pattern| {
      assert pattern[..k + 2][1..] == pattern[1..][..k + 1];
    }
  }

  lemma CutByStar(pattern: string, a: string, k: nat)
    requires pattern != "" && pattern[0] == '*' && a != "" && a[0] != '\n'
    requires k <= |pattern| && CutsAt(pattern, a[1..], k)
    ensures CutsAt(pattern, a, k)
  {
    if k == 0 {
      assert pattern[..1] == "*" && "*"[1..] == "" && pattern[..0] == "";
      assert GlobWhole("*", a[1..]);
      assert GlobWhole("*", a);
    }
  }

  lemma CutBehindChar(pattern: string, a: string, k: nat)
    requires pattern != "" && pattern[0] != '*' && a != "" && a[0] == pattern[0]
    requires k < |pattern| && CutsAt(pattern[1..], a[1..], k)
    ensures CutsAt(pattern, a, k + 1) && pattern[1..][k..] == pattern[k + 1..]
  {
    assert pattern[..k + 1][1..] == pattern[1..][..k];
    if k + 1 < |pattern| {
      assert pattern[..k + 2][1..] == pattern[1..][..k + 1];
    }
  }

  lemma CutSuffices(pattern: string, a: string, b: string, k: nat)
    requires k <= |pattern| && CutsAt(pattern, a, k) && GlobMatch(pattern[k..], b)
    ensures GlobMatch(pattern, a + b)
  {
    var left, right := pattern[..k], pattern[k..];
    if GlobWhole(left, a) {
      GlobsJoin(left, right, a, b);
      assert left + right == pattern;
    } else {
      assert pattern[..k + 1] == left + "*" && right == "*" + right[1..];
      GlobsJoinInStar(left, right[1..], a, b);
      assert left + "*" + right[1..] == pattern;
    }
  }

  lemma {:induction false} GlobsJoin(left: string, right: string, a: string, b: string)
    requires GlobWhole(left, a) && GlobMatch(right, b)
    ensures GlobMatch(left + right, a + b)
    decreases |left| + |a|
  {
    if left == "" {
      assert left + right == right && a + b == b;
    } else {
      assert (left + right)[0] == left[0] && (left + right)[1..] == left[1..] + right;
      if left[0] == '*' && GlobWhole(left[1..], a) {
        GlobsJoin(left[1..], right, a, b);
      } else {
        assert (a + b)[0] == a[0] && (a + b)[1..] == a[1..] + b;
        GlobsJoin(if left[0] == '*' then left else left[1..], right, a[1..], b);
      }
    }
  }

  lemma {:induction false} GlobsJoinInStar(left: string, right: string, a: string, b: string)
    requires GlobWhole(left + "*", a) && GlobMatch("*" + right, b)
    ensures GlobMatch(left + "*" + right, a + b)
    decreases |left| + |a|
  {
    var pattern := left + "*" + right;
    if left == "" {
      assert left + "*" == "*" && pattern == "*" + right && "*"[1..] == "";
      if a == "" {
        assert a + b == b;
      } else {
        assert (a + b)[0] == a[0] && (a + b)[1..] == a[1..] + b;
        GlobsJoinInStar(left, right, a[1..], b);
      }
    } else {
      var tail := left[1..];
      assert (left + "*")[0] == left[0] == pattern[0];
      assert (left + "*")[1..] == tail + "*" && pattern[1..] == tail + "*" + right;
      if left[0] == '*' && GlobWhole(tail + "*", a) {
        GlobsJoinInStar(tail, right, a, b);
      } else {
        assert (a + b)[0] == a[0] && (a + b)[1..] == a[1..] + b;
        GlobsJoinInStar(if left[0] == '*' then left else tail, right, a[1..], b);
      }
    }
  }

  // ----- any number of parts -----

  /** `"".join(parts)` */
  function Glued(parts: seq<string>): string {
    Join("", parts)
  }

  lemma GluedSplits(parts: seq<string>)
    requires parts != []
    ensures Glued(parts) == parts[0] + Glued(parts[1..])
    ensures Glued(parts) == Glued(parts[..|parts| - 1]) + parts[|parts| - 1]
  {
    var init, last := parts[..|parts| - 1], parts[|parts| - 1];
    JoinEmptyConcat([parts[0]], parts[1..]);
    JoinEmptyConcat(init, [last]);
    assert [parts[0]] + parts[1..] == parts == init + [last];
  }

  predicate StartsAcross(parts: seq<string>, prefix: string) {
    if parts == [] then prefix == ""
    else if |prefix| <= |parts[0]| then StartsWith(parts[0], prefix)
    else StartsWith(prefix, parts[0]) && StartsAcross(parts[1..], prefix[|parts[0]|..])
  }

  predicate EndsAcross(parts: seq<string>, suffix: string) {
    if parts == [] then suffix == ""
    else
      var last := parts[|parts| - 1];
      if |suffix| <= |last| then EndsWith(last, suffix)
      else EndsWith(suffix, last) && EndsAcross(parts[..|parts| - 1], suffix[..|suffix| - |last|])
  }

  /** Some part contains `part`, or it straddles seams: it begins as the end of one part
      and goes on at the start of the next ones. */
  predicate OccursAcross(parts: seq<string>, part: string) {
    if parts == [] then part == ""
    else
      || Contains(parts[0], part)
      || OccursAcross(parts[1..], part)
      || exists k :: 0 < k < |part| && EndsWith(parts[0], part[..k]) && StartsAcross(parts[1..], part[k..])
  }

  /** The parts spell `s`. */
  predicate Spells(parts: seq<string>, s: string) {
    if parts == [] then s == "" else StartsWith(s, parts[0]) && Spells(parts[1..], s[|parts[0]|..])
  }

  predicate AllEmpty(parts: seq<string>) {
    forall i :: 0 <= i < |parts| ==> parts[i] == ""
  }

  /** The pattern can be cut at every seam so that each piece accepts its part. */
  predicate GlobAcross(parts: seq<string>, pattern: string) {
    if parts == [] then GlobMatch(pattern, "")
    else if AllEmpty(parts[1..]) then GlobMatch(pattern, parts[0])
    else exists k :: 0 <= k <= |pattern| && CutsAt(pattern, parts[0], k) && GlobAcross(parts[1..], pattern[k..])
  }

  lemma {:induction false} StartsAcrossExact(parts: seq<string>, prefix: string)
    ensures StartsWith(Glued(parts), prefix) <==> StartsAcross(parts, prefix)
  {
    if parts != [] {
      GluedSplits(parts);
      StartsAtSeam(parts[0], Glued(parts[1..]), prefix);
      if |prefix| > |parts[0]| {
        StartsAcrossExact(parts[1..], prefix[|parts[0]|..]);
      }
    }
  }

  lemma {:induction false} EndsAcrossExact(parts: seq<string>, suffix: string)
    ensures EndsWith(Glued(parts), suffix) <==> EndsAcross(parts, suffix)
  {
    if parts != [] {
      var init, last := parts[..|parts| - 1], parts[|parts| - 1];
      GluedSplits(parts);
      EndsAtSeam(Glued(init), last, suffix);
      if |suffix| > |last| {
        EndsAcrossExact(init, suffix[..|suffix| - |last|]);
      }
    }
  }

  lemma {:induction false} OccursAcrossExact(parts: seq<string>, part: string)
    ensures Contains(Glued(parts), part) <==> OccursAcross(parts, part)
  {
    if parts == [] {
      assert part == "" ==> OccursAt("", 0, part);
    } else {
      GluedSplits(parts);
      ContainsAtSeam(parts[0], Glued(parts[1..]), part);
      OccursAcrossExact(parts[1..], part);
      forall k | 0 < k < |part|
        ensures StartsWith(Glued(parts[1..]), part[k..]) <==> StartsAcross(parts[1..], part[k..])
      {
        StartsAcrossExact(parts[1..], part[k..]);
      }
    }
  }

  lemma {:induction false} SpellsExact(parts: seq<string>, s: string)
    ensures Glued(parts) == s <==> Spells(parts, s)
  {
    if parts != [] {
      GluedSplits(parts);
      if StartsWith(s, parts[0]) {
        assert s == parts[0] + s[|parts[0]|..];
        SpellsExact(parts[1..], s[|parts[0]|..]);
      }
    }
  }

  lemma {:induction false} AllEmptyExact(parts: seq<string>)
    ensures Glued(parts) == "" <==> AllEmpty(parts)
  {
    if parts != [] {
      GluedSplits(parts);
      AllEmptyExact(parts[1..]);
      assert parts == [parts[0]] + parts[1..];
    }
  }

  lemma {:induction false} GlobAcrossExact(parts: seq<string>, pattern: string)
    ensures GlobMatch(pattern, Glued(parts)) <==> GlobAcross(parts, pattern)
  {
    if parts != [] {
      var rest := parts[1..];
      GluedSplits(parts);
      AllEmptyExact(rest);
      if AllEmpty(rest) {
        assert Glued(parts) == parts[0];
      } else {
        GlobAtSeam(pattern, parts[0], Glued(rest));
        forall k | 0 <= k <= |pattern|
          ensures GlobMatch(pattern[k..], Glued(rest)) <==> GlobAcross(rest, pattern[k..])
        {
          GlobAcrossExact(rest, pattern[k..]);
        }
      }
    }
  }

  // ----- lower-casing the parts -----

  function LowerAll(table: char -> string, parts: seq<string>): seq<string> {
    seq(|parts|, i requires 0 <= i < |parts| => Lower(table, parts[i]))
  }

  lemma {:induction false} LowerGlued(table: char -> string, parts: seq<string>)
    ensures Lower(table, Glued(parts)) == Glued(LowerAll(table, parts))
  {
    if parts != [] {
      GluedSplits(parts);
      GluedSplits(LowerAll(table, parts));
      LowerConcat(table, parts[0], Glued(parts[1..]));
      LowerGlued(table, parts[1..]);
      assert LowerAll(table, parts)[1..] == LowerAll(table, parts[1..]);
    }
  }
}
