/** Sorting with duplicate removal under a strict total order.
    The explainer sorts three kinds of collections: clause literals and
    assumption causes by the key (|x|, x), and rule identifiers by string
    order. Each is "sorted(set(xs))": the result is the unique strictly
    increasing sequence holding exactly the given elements. */
module Sorting {

  ghost predicate StrictTotalOrder<T(!new)>(lt: (T, T) -> bool) {
    && (forall x :: !lt(x, x))
    && (forall x, y, z :: lt(x, y) && lt(y, z) ==> lt(x, z))
    && (forall x, y :: x == y || lt(x, y) || lt(y, x))
  }

  predicate StrictlySorted<T(!new)>(s: seq<T>, lt: (T, T) -> bool) {
    forall i, j :: 0 <= i < j < |s| ==> lt(s[i], s[j])
  }

  /** Inserts x into a strictly sorted sequence, keeping it strictly sorted;
      an element already present is not inserted again. */
  function Insert<T(==,!new)>(x: T, s: seq<T>, lt: (T, T) -> bool): (r: seq<T>)
    requires StrictTotalOrder(lt) && StrictlySorted(s, lt)
    ensures StrictlySorted(r, lt)
    ensures forall y :: y in r <==> y == x || y in s
  {
    if s == [] then [x]
    else if x == s[0] then s
    else if lt(x, s[0]) then [x] + s
    else
      var rest := Insert(x, s[1..], lt);
      assert forall y :: y in rest ==> lt(s[0], y) by {
        assert lt(s[0], x);
        assert forall j :: 1 <= j < |s| ==> lt(s[0], s[j]);
      }
      [s[0]] + rest
  }

  /** sorted(set(s)): the elements of s, each once, in increasing order. */
  function SortDistinct<T(==,!new)>(s: seq<T>, lt: (T, T) -> bool): (r: seq<T>)
    requires StrictTotalOrder(lt)
    ensures StrictlySorted(r, lt)
    ensures forall y :: y in r <==> y in s
  {
    if s == [] then [] else Insert(s[0], SortDistinct(s[1..], lt), lt)
  }

  lemma HeadIsLeast<T(!new)>(s: seq<T>, lt: (T, T) -> bool)
    requires StrictlySorted(s, lt) && s != []
    ensures forall y :: y in s ==> y == s[0] || lt(s[0], y)
  {
  }

  /** A strictly sorted sequence is determined by its elements. */
  lemma {:induction false} SortedUnique<T(!new)>(a: seq<T>, b: seq<T>, lt: (T, T) -> bool)
    requires StrictTotalOrder(lt)
    requires StrictlySorted(a, lt) && StrictlySorted(b, lt)
    requires forall y :: y in a <==> y in b
    ensures a == b
  {
    assert |b| == 0 || b[0] in a;
    if a != [] {
      assert a[0] in a;
      HeadIsLeast(a, lt);
      HeadIsLeast(b, lt);
      assert a[0] in b && b[0] in a;
      assert a[0] == b[0];
      forall y
        ensures y in a[1..] <==> y in b[1..]
      {
        if y in a[1..] {
          var j :| 1 <= j < |a| && a[j] == y;
          assert lt(a[0], y);
          assert y in b;
          assert y != b[0];
        }
        if y in b[1..] {
          var j :| 1 <= j < |b| && b[j] == y;
          assert lt(b[0], y);
          assert y in a;
          assert y != a[0];
        }
      }
      SortedUnique(a[1..], b[1..], lt);
      assert a == [a[0]] + a[1..];
      assert b == [b[0]] + b[1..];
    }
  }

  /** Sorting an already strictly sorted sequence leaves it unchanged. */
  lemma SortDistinctIdempotent<T(!new)>(s: seq<T>, lt: (T, T) -> bool)
    requires StrictTotalOrder(lt) && StrictlySorted(s, lt)
    ensures SortDistinct(s, lt) == s
  {
    SortedUnique(SortDistinct(s, lt), s, lt);
  }

  /** The result of sorting depends only on the elements, not on their
      order or multiplicity. */
  lemma SortDistinctCanonical<T(!new)>(s: seq<T>, t: seq<T>, lt: (T, T) -> bool)
    requires StrictTotalOrder(lt)
    requires forall y :: y in s <==> y in t
    ensures SortDistinct(s, lt) == SortDistinct(t, lt)
  {
    SortedUnique(SortDistinct(s, lt), SortDistinct(t, lt), lt);
  }

  lemma {:induction false} SortedOfSetExists<T(!new)>(s: set<T>, lt: (T, T) -> bool)
    requires StrictTotalOrder(lt)
    ensures exists r :: StrictlySorted(r, lt) && forall y :: y in r <==> y in s
    decreases |s|
  {
    if s == {} {
      var r: seq<T> := [];
      assert StrictlySorted(r, lt) && forall y :: y in r <==> y in s;
    } else {
      var x :| x in s;
      SortedOfSetExists(s - {x}, lt);
      var r' :| StrictlySorted(r', lt) && forall y :: y in r' <==> y in s - {x};
      var r := Insert(x, r', lt);
      assert StrictlySorted(r, lt) && forall y :: y in r <==> y in s;
    }
  }

  /** The elements of a finite set in strictly increasing order
      (Python's sorted(s) on a set). */
  ghost function SortedSet<T(!new)>(s: set<T>, lt: (T, T) -> bool): (r: seq<T>)
    requires StrictTotalOrder(lt)
    ensures StrictlySorted(r, lt)
    ensures forall y :: y in r <==> y in s
  {
    SortedOfSetExists(s, lt);
    var r :| StrictlySorted(r, lt) && forall y :: y in r <==> y in s;
    r
  }

  /** Python's sorted(s) on a set, computed: enumerate the set, then sort. */
  method SortSet<T(==,!new)>(s: set<T>, lt: (T, T) -> bool) returns (r: seq<T>)
    requires StrictTotalOrder(lt)
    ensures r == SortedSet(s, lt)
  {
    var rest := s;
    var items: seq<T> := [];
    while rest != {}
      invariant forall y :: y in s <==> y in items || y in rest
      decreases |rest|
    {
      var x :| x in rest;
      items := items + [x];
      rest := rest - {x};
    }
    r := SortDistinct(items, lt);
    SortedUnique(r, SortedSet(s, lt), lt);
  }

  /** Python's string order: lexicographic by code point, a proper prefix
      first. */
  predicate StringLess(a: string, b: string) {
    if a == [] then b != []
    else b != [] && (a[0] < b[0] || (a[0] == b[0] && StringLess(a[1..], b[1..])))
  }

  lemma {:induction false} StringLessIrreflexive(a: string)
    ensures !StringLess(a, a)
  {
    if a != [] {
      StringLessIrreflexive(a[1..]);
    }
  }

  lemma {:induction false} StringLessTransitive(a: string, b: string, c: string)
    requires StringLess(a, b) && StringLess(b, c)
    ensures StringLess(a, c)
  {
    if a != [] && b != [] && c != [] && a[0] == b[0] == c[0] {
      StringLessTransitive(a[1..], b[1..], c[1..]);
    }
  }

  lemma {:induction false} StringLessTotal(a: string, b: string)
    ensures a == b || StringLess(a, b) || StringLess(b, a)
  {
    if a != [] && b != [] && a[0] == b[0] {
      StringLessTotal(a[1..], b[1..]);
      if a[1..] == b[1..] {
        assert a == [a[0]] + a[1..] && b == [b[0]] + b[1..];
      }
    }
  }

  lemma StringLessIsStrictTotal()
    ensures StrictTotalOrder(StringLess)
  {
    forall a: string ensures !StringLess(a, a) {
      StringLessIrreflexive(a);
    }
    forall a: string, b: string, c: string | StringLess(a, b) && StringLess(b, c)
      ensures StringLess(a, c)
    {
      StringLessTransitive(a, b, c);
    }
    forall a: string, b: string ensures a == b || StringLess(a, b) || StringLess(b, a) {
      StringLessTotal(a, b);
    }
  }

  /** sub is s with some elements left out, the rest kept in order. */
  predicate IsSubseq<T(==)>(sub: seq<T>, s: seq<T>)
    decreases |s|
  {
    sub == [] ||
    (s != [] &&
     ((sub[|sub| - 1] == s[|s| - 1] && IsSubseq(sub[..|sub| - 1], s[..|s| - 1])) ||
      IsSubseq(sub, s[..|s| - 1])))
  }
}
