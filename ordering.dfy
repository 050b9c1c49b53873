/** Ordinal (character-code) ordering of strings and the ascending sort of a
    list of names that `OrderBy(k => k)` performs. */
module Ordering {

  /** `a` sorts before or equal to `b`: `a` is a prefix of `b`, or at the
      first position where they differ `a` holds the smaller character. */
  predicate LexLe(a: string, b: string)
    decreases |a|
  {
    a == [] || (b != [] && (a[0] < b[0] || (a[0] == b[0] && LexLe(a[1..], b[1..]))))
  }

  lemma {:induction false} LexLeReflexive(a: string)
    ensures LexLe(a, a)
    decreases |a|
  {
    if a != [] {
      LexLeReflexive(a[1..]);
    }
  }

  lemma {:induction false} LexLeTotal(a: string, b: string)
    ensures LexLe(a, b) || LexLe(b, a)
    decreases |a|
  {
    if a != [] && b != [] && a[0] == b[0] {
      LexLeTotal(a[1..], b[1..]);
    }
  }

  lemma {:induction false} LexLeAntisymmetric(a: string, b: string)
    requires LexLe(a, b) && LexLe(b, a)
    ensures a == b
    decreases |a|
  {
    if a != [] {
      LexLeAntisymmetric(a[1..], b[1..]);
      assert a == [a[0]] + a[1..] && b == [b[0]] + b[1..];
    }
  }

  lemma {:induction false} LexLeTransitive(a: string, b: string, c: string)
    requires LexLe(a, b) && LexLe(b, c)
    ensures LexLe(a, c)
    decreases |a|
  {
    if a != [] && a[0] == b[0] && b[0] == c[0] {
      LexLeTransitive(a[1..], b[1..], c[1..]);
    }
  }

  /** Every earlier element sorts before or equal to every later one. */
  predicate Sorted(s: seq<string>) {
    forall i, j :: 0 <= i < j < |s| ==> LexLe(s[i], s[j])
  }

  /** No element occurs twice. */
  predicate Distinct<T(==)>(s: seq<T>) {
    forall i, j :: 0 <= i < j < |s| ==> s[i] != s[j]
  }

  /** `x` inserted into the sorted list `s` in front of the first element it
      sorts before. */
  function Insert(x: string, s: seq<string>): (r: seq<string>)
    requires Sorted(s)
    ensures multiset(r) == multiset(s) + multiset{x}
    ensures Sorted(r)
    ensures Distinct(s) && x !in s ==> Distinct(r)
  {
    if s == [] then [x]
    else if LexLe(x, s[0]) then
      InsertFront(x, s);
      [x] + s
    else
      var r' := Insert(x, s[1..]);
      InsertBehind(x, s, r');
      InsertBehindDistinct(x, s, r');
      [s[0]] + r'
  }

  /** An element that sorts before the head of a sorted list may go in
      front of it. */
  lemma InsertFront(x: string, s: seq<string>)
    requires Sorted(s) && s != [] && LexLe(x, s[0])
    ensures Sorted([x] + s)
    ensures Distinct(s) && x !in s ==> Distinct([x] + s)
  {
    forall j | 0 <= j < |s| ensures LexLe(x, s[j]) {
      if j > 0 { LexLeTransitive(x, s[0], s[j]); }
    }
  }

  /** An element that sorts after the head goes into the tail; the head
      then still sorts before everything after it. */
  lemma InsertBehind(x: string, s: seq<string>, r': seq<string>)
    requires Sorted(s) && s != [] && !LexLe(x, s[0])
    requires Sorted(r') && multiset(r') == multiset(s[1..]) + multiset{x}
    ensures multiset([s[0]] + r') == multiset(s) + multiset{x}
    ensures Sorted([s[0]] + r')
  {
    assert s == [s[0]] + s[1..];
    LexLeTotal(x, s[0]);
    forall j | 0 <= j < |r'| ensures LexLe(s[0], r'[j]) {
      assert r'[j] in multiset(r');
      if r'[j] != x {
        assert r'[j] in s[1..];
      }
    }
  }

  /** Neither a new element nor the rest of a list without repeats holds
      its head, so putting the head back keeps the list free of repeats. */
  lemma InsertBehindDistinct(x: string, s: seq<string>, r': seq<string>)
    requires s != [] && multiset(r') == multiset(s[1..]) + multiset{x}
    requires Distinct(s[1..]) && x !in s[1..] ==> Distinct(r')
    ensures Distinct(s) && x !in s ==> Distinct([s[0]] + r')
  {
    if Distinct(s) && x !in s {
      assert s[0] !in s[1..];
      assert s[0] !in multiset(r');
    }
  }

  /** The names of `s` in ascending ordinal order: a sorted permutation of
      `s`, free of repeats when `s` is. */
  function SortNames(s: seq<string>): (r: seq<string>)
    ensures multiset(r) == multiset(s)
    ensures Sorted(r)
    ensures Distinct(s) ==> Distinct(r)
  {
    if s == [] then []
    else
      var rest := SortNames(s[1..]);
      assert s == [s[0]] + s[1..];
      assert Distinct(s) ==> s[0] !in multiset(s[1..]);
      Insert(s[0], rest)
  }

  /** The first element of a sorted list sorts before or equal to every
      element of it. */
  lemma SortedHeadLeast(a: seq<string>, x: string)
    requires Sorted(a) && x in a
    ensures LexLe(a[0], x)
  {
    var i :| 0 <= i < |a| && a[i] == x;
    if i == 0 {
      LexLeReflexive(x);
    }
  }

  /** Removing the first element of a list removes one copy of it from the
      list's multiset. */
  lemma MultisetTail(a: seq<string>)
    requires a != []
    ensures multiset(a[1..]) == multiset(a) - multiset{a[0]}
  {
    assert a == [a[0]] + a[1..];
  }

  /** Sorting has one possible outcome: two sorted arrangements of the same
      names are the same list. */
  lemma {:induction false} SortedUnique(a: seq<string>, b: seq<string>)
    requires Sorted(a) && Sorted(b)
    requires multiset(a) == multiset(b)
    ensures a == b
    decreases |a|
  {
    assert |a| == |multiset(a)| == |multiset(b)| == |b|;
    if a != [] {
      assert a[0] in multiset(b) && b[0] in multiset(a);
      SortedHeadLeast(b, a[0]);
      SortedHeadLeast(a, b[0]);
      LexLeAntisymmetric(a[0], b[0]);
      MultisetTail(a);
      MultisetTail(b);
      SortedUnique(a[1..], b[1..]);
      assert a == [a[0]] + a[1..] && b == [b[0]] + b[1..];
    }
  }
}
