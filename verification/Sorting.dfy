/**
 Python's `sorted` and list comprehensions with a condition, for any total
 preorder, and the lexicographic order of strings.
 */
module Sorting {

  ghost predicate TotalPreorder<T(!new)>(le: (T, T) -> bool) {
    && (forall a, b :: le(a, b) || le(b, a))
    && (forall a, b, c :: le(a, b) && le(b, c) ==> le(a, c))
  }

  ghost predicate SortedBy<T(!new)>(le: (T, T) -> bool, s: seq<T>) {
    forall i, j :: 0 <= i < j < |s| ==> le(s[i], s[j])
  }

  /** A stable sort. */
  function Sort<T>(le: (T, T) -> bool, s: seq<T>): seq<T> {
    if s == [] then [] else Insert(le, s[0], Sort(le, s[1..]))
  }

  function Insert<T>(le: (T, T) -> bool, x: T, s: seq<T>): seq<T> {
    if s == [] || le(x, s[0]) then [x] + s else [s[0]] + Insert(le, x, s[1..])
  }

  /** `[x for x in s if p(x)]` */
  function Filter<T>(p: T -> bool, s: seq<T>): seq<T> {
    if s == [] then [] else (if p(s[0]) then [s[0]] else []) + Filter(p, s[1..])
  }

  // ----- sorting -----

  lemma {:induction false} InsertSorts<T(!new)>(le: (T, T) -> bool, x: T, s: seq<T>)
    requires TotalPreorder(le) && SortedBy(le, s)
    ensures SortedBy(le, Insert(le, x, s))
    ensures multiset(Insert(le, x, s)) == multiset(s) + multiset{x}
  {
    if s == [] {
    } else if le(x, s[0]) {
      assert forall j :: 0 <= j < |s| ==> le(x, s[j]);
    } else {
      var tail := Insert(le, x, s[1..]);
      InsertSorts(le, x, s[1..]);
      assert s == [s[0]] + s[1..];
      assert multiset(s) == multiset{s[0]} + multiset(s[1..]);
      forall j | 0 <= j < |tail| ensures le(s[0], tail[j]) {
        assert tail[j] in multiset(tail);
        if tail[j] != x {
          assert tail[j] in s[1..];
        }
      }
    }
  }

  lemma {:induction false} SortSorts<T(!new)>(le: (T, T) -> bool, s: seq<T>)
    requires TotalPreorder(le)
    ensures SortedBy(le, Sort(le, s))
    ensures multiset(Sort(le, s)) == multiset(s)
  {
    if s != [] {
      SortSorts(le, s[1..]);
      InsertSorts(le, s[0], Sort(le, s[1..]));
      assert s == [s[0]] + s[1..];
    }
  }

  lemma {:induction false} SortedStays<T(!new)>(le: (T, T) -> bool, s: seq<T>)
    requires SortedBy(le, s)
    ensures Sort(le, s) == s
  {
    if s != [] {
      SortedStays(le, s[1..]);
      assert s == [s[0]] + s[1..];
    }
  }

  /** Elements of `s` that tie are equal. */
  ghost predicate NoTies<T(!new)>(le: (T, T) -> bool, s: seq<T>) {
    forall i, j :: 0 <= i < |s| && 0 <= j < |s| && le(s[i], s[j]) && le(s[j], s[i]) ==> s[i] == s[j]
  }

  /** Where ties are equal elements, a sequence has only one sorted arrangement. */
  lemma {:induction false} SortedUnique<T(!new)>(le: (T, T) -> bool, s: seq<T>, t: seq<T>)
    requires SortedBy(le, s) && SortedBy(le, t) && multiset(s) == multiset(t)
    requires NoTies(le, s)
    ensures s == t
  {
    assert |s| == |multiset(s)| == |multiset(t)| == |t|;
    if s != [] {
      SortedHeadsEqual(le, s, t);
      WithoutHead(s);
      WithoutHead(t);
      SortedUnique(le, s[1..], t[1..]);
      assert s == [s[0]] + s[1..] && t == [t[0]] + t[1..];
    }
  }

  lemma Without<T>(s: seq<T>, x: T) returns (rest: seq<T>)
    requires x in s
    ensures multiset(rest) == multiset(s) - multiset{x}
  {
    var i :| 0 <= i < |s| && s[i] == x;
    rest := s[..i] + s[i + 1..];
    assert s == s[..i] + [x] + s[i + 1..];
  }

  lemma NoTiesPermuted<T(!new)>(le: (T, T) -> bool, s: seq<T>, t: seq<T>)
    requires NoTies(le, s) && multiset(s) == multiset(t)
    ensures NoTies(le, t)
  {
    forall i, j | 0 <= i < |t| && 0 <= j < |t| && le(t[i], t[j]) && le(t[j], t[i]) ensures t[i] == t[j] {
      assert t[i] in multiset(s) && t[j] in multiset(s);
      var k :| 0 <= k < |s| && s[k] == t[i];
      var l :| 0 <= l < |s| && s[l] == t[j];
    }
  }

  /** The order in which two different elements that tie are inserted shows in the result. */
  lemma {:induction false} InsertOrderShows<T(!new)>(le: (T, T) -> bool, a: T, b: T, s: seq<T>)
    requires TotalPreorder(le) && le(a, b) && le(b, a) && a != b
    ensures Insert(le, a, Insert(le, b, s)) != Insert(le, b, Insert(le, a, s))
  {
    if s == [] || le(a, s[0]) {
      assert Insert(le, a, Insert(le, b, s))[0] == a;
      assert Insert(le, b, Insert(le, a, s))[0] == b;
    } else {
      InsertOrderShows(le, a, b, s[1..]);
      PassesHead(le, a, b, s);
      PassesHead(le, b, a, s);
    }
  }

  lemma PassesHead<T(!new)>(le: (T, T) -> bool, a: T, b: T, s: seq<T>)
    requires s != [] && !le(a, s[0]) && !le(b, s[0])
    ensures Insert(le, a, Insert(le, b, s))[1..] == Insert(le, a, Insert(le, b, s[1..]))
  {
    assert Insert(le, b, s)[1..] == Insert(le, b, s[1..]);
  }

  lemma WithoutHead<T>(s: seq<T>)
    requires s != []
    ensures multiset(s[1..]) == multiset(s) - multiset{s[0]}
  {
    assert s == [s[0]] + s[1..];
  }

  lemma SortedHeadsEqual<T(!new)>(le: (T, T) -> bool, s: seq<T>, t: seq<T>)
    requires SortedBy(le, s) && SortedBy(le, t) && multiset(s) == multiset(t) && s != [] && t != []
    requires NoTies(le, s)
    ensures s[0] == t[0]
  {
    assert s[0] in multiset(s) && t[0] in multiset(t);
    var i :| 0 <= i < |t| && t[i] == s[0];
    var j :| 0 <= j < |s| && s[j] == t[0];
    if i != 0 && j != 0 {
      assert le(t[0], t[i]) && le(s[0], s[j]);
    }
  }

  // ----- filtering -----

  lemma {:induction false} FilterContents<T>(p: T -> bool, s: seq<T>)
    ensures forall x :: x in Filter(p, s) <==> x in s && p(x)
    ensures |Filter(p, s)| <= |s|
  {
    if s != [] {
      FilterContents(p, s[1..]);
      assert s == [s[0]] + s[1..];
    }
  }

  lemma {:induction false} FilterConcat<T>(p: T -> bool, s: seq<T>, t: seq<T>)
    ensures Filter(p, s + t) == Filter(p, s) + Filter(p, t)
  {
    if s == [] {
      assert s + t == t;
    } else {
      var head := if p(s[0]) then [s[0]] else [];
      assert (s + t)[0] == s[0] && (s + t)[1..] == s[1..] + t;
      FilterConcat(p, s[1..], t);
      assert Filter(p, s + t) == head + Filter(p, s[1..] + t);
      assert head + (Filter(p, s[1..]) + Filter(p, t)) == (head + Filter(p, s[1..])) + Filter(p, t);
    }
  }

  lemma {:induction false} FilterMultiset<T>(p: T -> bool, s: seq<T>, x: T)
    ensures multiset(Filter(p, s))[x] == if p(x) then multiset(s)[x] else 0
  {
    if s != [] {
      FilterMultiset(p, s[1..], x);
      assert s == [s[0]] + s[1..];
    }
  }

  lemma {:induction false} FilterAll<T>(p: T -> bool, s: seq<T>)
    requires forall x <- s :: p(x)
    ensures Filter(p, s) == s
  {
    if s != [] {
      assert s == [s[0]] + s[1..];
      FilterAll(p, s[1..]);
    }
  }

  lemma {:induction false} FilterNone<T>(p: T -> bool, s: seq<T>)
    requires forall x <- s :: !p(x)
    ensures Filter(p, s) == []
  {
    if s != [] {
      assert s == [s[0]] + s[1..];
      FilterNone(p, s[1..]);
    }
  }

  lemma {:induction false} FilterSorted<T(!new)>(le: (T, T) -> bool, p: T -> bool, s: seq<T>)
    requires SortedBy(le, s)
    ensures SortedBy(le, Filter(p, s))
  {
    if s != [] {
      FilterSorted(le, p, s[1..]);
      FilterContents(p, s[1..]);
      var rest := Filter(p, s[1..]);
      forall j | 0 <= j < |rest| ensures le(s[0], rest[j]) {
        assert rest[j] in s[1..];
      }
    }
  }

  /** Filtering a sorted sequence and sorting a filtered one are the same. */
  lemma {:induction false} SortFilter<T(!new)>(le: (T, T) -> bool, p: T -> bool, s: seq<T>)
    requires TotalPreorder(le)
    ensures Sort(le, Filter(p, s)) == Filter(p, Sort(le, s))
  {
    if s != [] {
      SortFilter(le, p, s[1..]);
      SortSorts(le, s[1..]);
      InsertFilter(le, p, s[0], Sort(le, s[1..]));
      if p(s[0]) {
        assert Filter(p, s)[1..] == Filter(p, s[1..]);
      } else {
        assert Filter(p, s) == Filter(p, s[1..]);
      }
    }
  }

  lemma {:induction false} InsertFilter<T(!new)>(le: (T, T) -> bool, p: T -> bool, x: T, s: seq<T>)
    requires TotalPreorder(le) && SortedBy(le, s)
    ensures Filter(p, Insert(le, x, s)) == if p(x) then Insert(le, x, Filter(p, s)) else Filter(p, s)
  {
    if s == [] {
    } else if le(x, s[0]) {
      assert ([x] + s)[1..] == s;
      FilterContents(p, s);
      if p(x) && Filter(p, s) != [] {
        assert Filter(p, s)[0] in s;
        assert le(x, Filter(p, s)[0]);
      }
    } else {
      var rest := Filter(p, s[1..]);
      InsertFilter(le, p, x, s[1..]);
      assert Insert(le, x, s)[1..] == Insert(le, x, s[1..]);
      if p(s[0]) {
        assert Filter(p, s) == [s[0]] + rest && Filter(p, s)[1..] == rest;
        assert Insert(le, x, Filter(p, s)) == [s[0]] + Insert(le, x, rest);
      } else {
        assert Filter(p, s) == rest;
      }
    }
  }

  // ----- strings -----

  /** `a <= b` on strings. */
  predicate StringLe(a: string, b: string) {
    a == "" || (b != "" && (a[0] < b[0] || (a[0] == b[0] && StringLe(a[1..], b[1..]))))
  }

  lemma {:induction false} StringLeTotal(a: string, b: string)
    ensures StringLe(a, b) || StringLe(b, a)
  {
    if a != "" && b != "" {
      StringLeTotal(a[1..], b[1..]);
    }
  }

  lemma {:induction false} StringLeTransitive(a: string, b: string, c: string)
    requires StringLe(a, b) && StringLe(b, c)
    ensures StringLe(a, c)
  {
    if a != "" && a[0] == b[0] && b[0] == c[0] {
      StringLeTransitive(a[1..], b[1..], c[1..]);
    }
  }

  lemma {:induction false} StringLeAntisymmetric(a: string, b: string)
    requires StringLe(a, b) && StringLe(b, a)
    ensures a == b
  {
    if a != "" {
      StringLeAntisymmetric(a[1..], b[1..]);
      assert a == [a[0]] + a[1..] && b == [b[0]] + b[1..];
    }
  }

  /** `a` and `b` agree up to a place where `a` ends or has the smaller character. */
  ghost predicate Precedes(a: string, b: string) {
    exists k :: FirstDifference(a, b, k)
  }

  predicate FirstDifference(a: string, b: string, k: int) {
    && 0 <= k <= |a| && k < |b|
    && a[..k] == b[..k]
    && (k == |a| || a[k] < b[k])
  }

  /** The order of strings, told from the first place where they differ. */
  lemma {:induction false} StringLeExact(a: string, b: string)
    ensures StringLe(a, b) <==> a == b || Precedes(a, b)
  {
    if a == "" {
      assert b != "" ==> FirstDifference(a, b, 0);
    } else if b != "" {
      StringLeExact(a[1..], b[1..]);
      assert a == [a[0]] + a[1..] && b == [b[0]] + b[1..];
      if a[0] < b[0] {
        assert FirstDifference(a, b, 0);
      } else if a[0] == b[0] && Precedes(a[1..], b[1..]) {
        var k :| FirstDifference(a[1..], b[1..], k);
        assert a[..k + 1] == [a[0]] + a[1..][..k] && b[..k + 1] == [b[0]] + b[1..][..k];
        assert FirstDifference(a, b, k + 1);
      }
      if k :| FirstDifference(a, b, k) && k > 0 {
        assert a[..k][0] == a[0] && b[..k][0] == b[0];
        assert a[1..][..k - 1] == a[..k][1..] && b[1..][..k - 1] == b[..k][1..];
        assert FirstDifference(a[1..], b[1..], k - 1);
      }
    }
  }

  // ----- dictionary values in key order -----

  predicate IsLeast(k: string, keys: set<string>) {
    k in keys && forall other <- keys :: StringLe(k, other)
  }

  lemma {:induction false} LeastExists(keys: set<string>)
    requires keys != {}
    ensures exists k :: IsLeast(k, keys)
    decreases |keys|
  {
    var some :| some in keys;
    var rest := keys - {some};
    StringLeTotal(some, some);
    if rest == {} {
      assert keys == {some};
      assert IsLeast(some, keys);
    } else {
      LeastExists(rest);
      var least :| IsLeast(least, rest);
      LeastOfBoth(keys, some, least);
    }
  }

  lemma LeastOfBoth(keys: set<string>, some: string, least: string)
    requires some in keys && IsLeast(least, keys - {some})
    ensures IsLeast(some, keys) || IsLeast(least, keys)
  {
    StringLeTotal(some, some);
    StringLeTotal(some, least);
    if StringLe(some, least) {
      forall other | other in keys ensures StringLe(some, other) {
        if other != some { StringLeTransitive(some, least, other); }
      }
    } else {
      forall other | other in keys ensures StringLe(least, other) {
        if other != some { assert other in keys - {some}; }
      }
    }
  }

  lemma LeastUnique(keys: set<string>, a: string, b: string)
    requires IsLeast(a, keys) && IsLeast(b, keys)
    ensures a == b
  {
    StringLeAntisymmetric(a, b);
  }

  function LeastKey(keys: set<string>): (k: string)
    requires keys != {}
    ensures IsLeast(k, keys)
  {
    LeastExists(keys);
    assert forall a, b :: IsLeast(a, keys) && IsLeast(b, keys) ==> a == b by {
      forall a, b | IsLeast(a, keys) && IsLeast(b, keys) ensures a == b { LeastUnique(keys, a, b); }
    }
    var k :| k in keys && IsLeast(k, keys);
    k
  }

  /** `sorted(keys)` */
  function SortedKeys(keys: set<string>): seq<string>
    decreases |keys|
  {
    if keys == {} then []
    else
      var k := LeastKey(keys);
      [k] + SortedKeys(keys - {k})
  }

  /** Every key is listed once, in strictly ascending order. */
  lemma {:induction false} SortedKeysLists(keys: set<string>)
    ensures |SortedKeys(keys)| == |keys|
    ensures forall k :: k in SortedKeys(keys) <==> k in keys
    ensures forall i, j :: 0 <= i < j < |keys| ==>
                             && SortedKeys(keys)[i] != SortedKeys(keys)[j]
                             && StringLe(SortedKeys(keys)[i], SortedKeys(keys)[j])
    decreases |keys|
  {
    if keys != {} {
      var k := LeastKey(keys);
      var rest := SortedKeys(keys - {k});
      SortedKeysLists(keys - {k});
      assert |keys| == |keys - {k}| + 1;
      forall j | 0 <= j < |rest| ensures rest[j] != k && StringLe(k, rest[j]) {
        assert rest[j] in keys - {k};
      }
    }
  }

  /** The values of a dictionary, sorted by their keys. */
  function InKeyOrder<V>(m: map<string, V>): seq<V> {
    var keys := SortedKeys(m.Keys);
    SortedKeysLists(m.Keys);
    assert forall i :: 0 <= i < |keys| ==> keys[i] in keys && keys[i] in m;
    seq(|keys|, i requires 0 <= i < |keys| => m[keys[i]])
  }
}
