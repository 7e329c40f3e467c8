/** Orders and sorting as the planners use them: strings compare by code point, tuples
    lexicographically, and sorting by a key that separates all elements has one result. */
module Ordering {

  // ----- Strict orders -----

  ghost predicate StrictOrder<T(!new)>(less: (T, T) -> bool) {
    && (forall x :: !less(x, x))
    && (forall x, y, z :: less(x, y) && less(y, z) ==> less(x, z))
  }

  ghost predicate Total<T(!new)>(less: (T, T) -> bool) {
    forall x, y :: less(x, y) || x == y || less(y, x)
  }

  /** The elements of s are distinct and any two of them can be told apart by the order. */
  ghost predicate Comparable<T>(less: (T, T) -> bool, s: seq<T>) {
    forall i, j :: 0 <= i < j < |s| ==> less(s[i], s[j]) || less(s[j], s[i])
  }

  ghost predicate StrictlySorted<T>(less: (T, T) -> bool, s: seq<T>) {
    forall i, j :: 0 <= i < j < |s| ==> less(s[i], s[j])
  }

  // ----- Lexicographic comparison of sequences -----

  predicate Lex<T(==)>(less: (T, T) -> bool, a: seq<T>, b: seq<T>) {
    if b == [] then false
    else if a == [] then true
    else if a[0] == b[0] then Lex(less, a[1..], b[1..])
    else less(a[0], b[0])
  }

  lemma {:induction false} LexIrreflexive<T(!new)>(less: (T, T) -> bool, a: seq<T>)
    ensures !Lex(less, a, a)
  {
    if a == [] {
    } else {
      LexIrreflexive(less, a[1..]);
    }
  }

  lemma {:induction false} LexTransitive<T(!new)>(less: (T, T) -> bool, a: seq<T>, b: seq<T>, c: seq<T>)
    requires StrictOrder(less) && Lex(less, a, b) && Lex(less, b, c)
    ensures Lex(less, a, c)
  {
    if a != [] && a[0] == b[0] && b[0] == c[0] {
      LexTransitive(less, a[1..], b[1..], c[1..]);
    }
  }

  lemma {:induction false} LexTotal<T(!new)>(less: (T, T) -> bool, a: seq<T>, b: seq<T>)
    requires Total(less)
    ensures Lex(less, a, b) || a == b || Lex(less, b, a)
  {
    if a != [] && b != [] && a[0] == b[0] {
      LexTotal(less, a[1..], b[1..]);
      assert a == [a[0]] + a[1..] && b == [b[0]] + b[1..];
    }
  }

  predicate CharBefore(c: char, d: char) {
    c < d
  }

  /** The order of two strings: by code point, a proper prefix first. */
  predicate Before(a: string, b: string) {
    Lex(CharBefore, a, b)
  }

  /** The order of two tuples of strings. */
  predicate TupleBefore(a: seq<string>, b: seq<string>) {
    Lex(Before, a, b)
  }

  /** The two agree up to i, where a ends first or has the lesser element. */
  ghost predicate ComesFirst<T(!new)>(less: (T, T) -> bool, a: seq<T>, b: seq<T>, i: nat) {
    && i < |b| && i <= |a| && (forall k :: 0 <= k < i ==> a[k] == b[k])
    && (i == |a| || (a[i] != b[i] && less(a[i], b[i])))
  }

  lemma {:induction false} LexExactly<T(!new)>(less: (T, T) -> bool, a: seq<T>, b: seq<T>)
    ensures Lex(less, a, b) <==> exists i: nat :: ComesFirst(less, a, b, i)
  {
    if a != [] && b != [] && a[0] == b[0] {
      LexExactly(less, a[1..], b[1..]);
      if Lex(less, a, b) {
        var i: nat :| ComesFirst(less, a[1..], b[1..], i);
        forall k | 0 <= k < i + 1 ensures a[k] == b[k] {
          if k > 0 { assert a[1..][k - 1] == b[1..][k - 1]; }
        }
        assert ComesFirst(less, a, b, i + 1);
      }
      if i: nat :| ComesFirst(less, a, b, i) {
        assert ComesFirst(less, a[1..], b[1..], i - 1);
      }
    } else if Lex(less, a, b) {
      assert ComesFirst(less, a, b, 0);
    }
  }

  ghost predicate FirstDifference(a: string, b: string, i: nat) {
    i < |b| && i <= |a| && (forall k :: 0 <= k < i ==> a[k] == b[k]) && (i == |a| || a[i] < b[i])
  }

  /** Two strings compare at the first place where they differ: the one that ends there, or
      has the lesser character, comes first. */
  lemma BeforeExactly(a: string, b: string)
    ensures Before(a, b) <==> exists i: nat :: FirstDifference(a, b, i)
  {
    LexExactly(CharBefore, a, b);
    forall i: nat ensures ComesFirst(CharBefore, a, b, i) <==> FirstDifference(a, b, i) { }
  }

  lemma BeforeIsStrictTotal()
    ensures StrictOrder(Before) && Total(Before)
  {
    forall a ensures !Before(a, a) { LexIrreflexive(CharBefore, a); }
    forall a, b, c | Before(a, b) && Before(b, c) ensures Before(a, c) { LexTransitive(CharBefore, a, b, c); }
    forall a, b ensures Before(a, b) || a == b || Before(b, a) { LexTotal(CharBefore, a, b); }
  }

  lemma TupleBeforeIsStrictTotal()
    ensures StrictOrder(TupleBefore) && Total(TupleBefore)
  {
    BeforeIsStrictTotal();
    forall a ensures !TupleBefore(a, a) { LexIrreflexive(Before, a); }
    forall a, b, c | TupleBefore(a, b) && TupleBefore(b, c) ensures TupleBefore(a, c) {
      LexTransitive(Before, a, b, c);
    }
    forall a, b ensures TupleBefore(a, b) || a == b || TupleBefore(b, a) { LexTotal(Before, a, b); }
  }

  // ----- Sorting a sequence -----

  function Insert<T>(less: (T, T) -> bool, x: T, s: seq<T>): (r: seq<T>)
    ensures multiset(r) == multiset{x} + multiset(s)
  {
    if s == [] || less(x, s[0]) then [x] + s
    else
      assert s == [s[0]] + s[1..];
      [s[0]] + Insert(less, x, s[1..])
  }

  function SortBy<T>(less: (T, T) -> bool, s: seq<T>): (r: seq<T>)
    ensures multiset(r) == multiset(s)
  {
    if s == [] then []
    else
      assert s == [s[0]] + s[1..];
      Insert(less, s[0], SortBy(less, s[1..]))
  }

  lemma MultisetMember<T>(s: seq<T>, x: T)
    ensures x in s <==> x in multiset(s)
  {
  }

  lemma {:induction false} InsertSorts<T(!new)>(less: (T, T) -> bool, x: T, s: seq<T>)
    requires StrictOrder(less) && StrictlySorted(less, s)
    requires forall y :: y in s ==> less(x, y) || less(y, x)
    ensures StrictlySorted(less, Insert(less, x, s))
  {
    if s != [] && !less(x, s[0]) {
      InsertSorts(less, x, s[1..]);
      var r := Insert(less, x, s[1..]);
      forall y | y in r ensures less(s[0], y) {
        MultisetMember(r, y);
        assert y in multiset{x} + multiset(s[1..]);
      }
    }
  }

  /** Sorting distinct, pairwise comparable elements yields a strictly increasing sequence. */
  lemma {:induction false} SortBySorts<T(!new)>(less: (T, T) -> bool, s: seq<T>)
    requires StrictOrder(less) && Comparable(less, s)
    ensures StrictlySorted(less, SortBy(less, s))
    ensures forall x :: x in SortBy(less, s) <==> x in s
  {
    forall x ensures x in SortBy(less, s) <==> x in s {
      MultisetMember(SortBy(less, s), x);
      MultisetMember(s, x);
    }
    if s == [] {
    } else {
      SortBySorts(less, s[1..]);
      forall y | y in SortBy(less, s[1..]) ensures less(s[0], y) || less(y, s[0]) {
        assert y in s[1..];
      }
      InsertSorts(less, s[0], SortBy(less, s[1..]));
    }
  }

  /** A strictly increasing sequence is determined by the set of its elements. */
  lemma {:induction false} StrictlySortedUnique<T(!new)>(less: (T, T) -> bool, s: seq<T>, t: seq<T>)
    requires StrictOrder(less) && StrictlySorted(less, s) && StrictlySorted(less, t)
    requires |s| == |t| && forall x :: x in s <==> x in t
    ensures s == t
  {
    if s == [] {
    } else {
      assert s[0] in t;
      assert t[0] in s;
      var i :| 0 <= i < |t| && t[i] == s[0];
      var j :| 0 <= j < |s| && s[j] == t[0];
      forall x ensures x in s[1..] <==> x in t[1..] {
        if x in s[1..] { assert x in s && less(s[0], x); assert x in t; }
        if x in t[1..] { assert x in t && less(t[0], x); assert x in s; }
      }
      StrictlySortedUnique(less, s[1..], t[1..]);
    }
  }

  lemma {:induction false} SortedCardinality<T(!new)>(less: (T, T) -> bool, s: seq<T>)
    requires StrictOrder(less) && StrictlySorted(less, s)
    ensures |set x | x in s| == |s|
  {
    if s == [] {
    } else {
      SortedCardinality(less, s[1..]);
      assert s[0] !in s[1..];
      assert (set x | x in s) == {s[0]} + (set x | x in s[1..]);
    }
  }

  // ----- The sorted listing of a set of identifiers -----

  /** r lists the set s in increasing order. */
  ghost predicate Lists(r: seq<string>, s: set<string>) {
    var listed :=
      StrictlySorted(Before, r) && |r| == |s| && forall x :: x in r <==> x in s;
    listed
  }

  lemma ListOneMore(r: seq<string>, s: set<string>, x: string)
    requires Lists(r, s) && x !in s
    ensures Lists(Insert(Before, x, r), s + {x})
  {
    forall y | y in r ensures Before(x, y) || Before(y, x) { LexTotal(CharBefore, x, y); }
    BeforeIsStrictTotal();
    InsertSorts(Before, x, r);
    var longer := Insert(Before, x, r);
    forall y ensures y in longer <==> y in s + {x} {
      MultisetMember(longer, y);
      MultisetMember(r, y);
    }
    assert |multiset(longer)| == |longer|;
  }

  lemma {:induction false} HasListing(s: set<string>) returns (r: seq<string>)
    ensures Lists(r, s)
  {
    if s == {} {
      r := [];
    } else {
      var x :| x in s;
      r := HasListing(s - {x});
      ListOneMore(r, s - {x}, x);
      assert s - {x} + {x} == s;
      r := Insert(Before, x, r);
    }
  }

  method SortedIds(s: set<string>) returns (r: seq<string>)
    ensures Lists(r, s)
  {
    r := [];
    var todo := s;
    while todo != {}
      invariant todo <= s && Lists(r, s - todo)
      decreases todo
    {
      var x :| x in todo;
      ListOneMore(r, s - todo, x);
      assert s - (todo - {x}) == s - todo + {x};
      r, todo := Insert(Before, x, r), todo - {x};
    }
  }

  method DescendingIds(s: set<string>) returns (r: seq<string>)
    ensures forall x :: x in r <==> x in s
    ensures forall i, j :: 0 <= i < j < |r| ==> Before(r[j], r[i])
  {
    var up := SortedIds(s);
    r := [];
    for i := 0 to |up|
      invariant |r| == i && forall k :: 0 <= k < i ==> r[k] == up[i - 1 - k]
    {
      r := [up[i]] + r;
    }
    forall x | x in up ensures x in r {
      var k :| 0 <= k < |up| && up[k] == x;
      assert r[|up| - 1 - k] == x;
    }
  }
}
