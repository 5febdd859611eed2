/** Orders on strings and the sort of the standard library, as its callers see them. */
module Ordering {

  // ----- strings

  /** The byte order of strings. */
  predicate LexLess(a: string, b: string) {
    b != "" && (a == "" || a[0] < b[0] || (a[0] == b[0] && LexLess(a[1..], b[1..])))
  }

  /** The one is a proper beginning of the other, or has the smaller byte where they first differ. */
  ghost predicate ByteBefore(a: string, b: string) {
    (a < b) || exists k: nat :: FirstDiffersAt(a, b, k) && a[k] < b[k]
  }

  predicate FirstDiffersAt(a: string, b: string, k: nat) {
    k < |a| && k < |b| && a[..k] == b[..k] && a[k] != b[k]
  }

  lemma {:induction false} LexIsByteOrder(a: string, b: string)
    ensures LexLess(a, b) <==> ByteBefore(a, b)
  {
    if a != "" && b != "" {
      if a[0] == b[0] {
        LexIsByteOrder(a[1..], b[1..]);
        SameHead(a, b);
      } else {
        assert FirstDiffersAt(a, b, 0);
        assert forall k: nat | FirstDiffersAt(a, b, k) :: k == 0 || a[..k][0] == b[..k][0];
      }
    }
  }

  lemma SameHead(a: string, b: string)
    requires a != "" && b != "" && a[0] == b[0]
    ensures ByteBefore(a, b) <==> ByteBefore(a[1..], b[1..])
  {
    assert a == [a[0]] + a[1..] && b == [b[0]] + b[1..];
    forall k: nat | 0 < k
      ensures FirstDiffersAt(a, b, k) <==> FirstDiffersAt(a[1..], b[1..], k - 1)
    {
      if k < |a| && k < |b| {
        assert a[..k] == [a[0]] + a[1..][..k - 1] && b[..k] == [b[0]] + b[1..][..k - 1];
      }
    }
    assert !FirstDiffersAt(a, b, 0);
    if ByteBefore(a[1..], b[1..]) && !(a[1..] < b[1..]) {
      var k: nat :| FirstDiffersAt(a[1..], b[1..], k) && a[1..][k] < b[1..][k];
      assert FirstDiffersAt(a, b, k + 1);
    }
  }

  lemma {:induction false} LexTrichotomy(a: string, b: string)
    ensures !(LexLess(a, b) && LexLess(b, a))
    ensures a == b <==> !LexLess(a, b) && !LexLess(b, a)
  {
    if a != "" && b != "" {
      LexTrichotomy(a[1..], b[1..]);
      assert a == [a[0]] + a[1..] && b == [b[0]] + b[1..];
    }
  }

  lemma {:induction false} LexTransitive(a: string, b: string, c: string)
    requires LexLess(a, b) && LexLess(b, c)
    ensures LexLess(a, c)
  {
    if a != "" && a[0] == b[0] && b[0] == c[0] {
      LexTransitive(a[1..], b[1..], c[1..]);
    }
  }

  // ----- comparisons

  /** A comparison decides one way on any two distinct elements, and is transitive on distinct ones. */
  ghost predicate Orders<T(!new)>(less: (T, T) -> bool, domain: set<T>) {
    && (forall x, y | x in domain && y in domain && x != y :: less(x, y) <==> !less(y, x))
    && (forall x, y, z | x in domain && y in domain && z in domain && x != z &&
                       less(x, y) && x != y && less(y, z) && y != z ::
          less(x, z))
  }

  ghost predicate Ascending<T(!new)>(s: seq<T>, less: (T, T) -> bool) {
    forall i, j {:trigger less(s[i], s[j])} | 0 <= i < j < |s| :: less(s[i], s[j])
  }

  ghost predicate Distinct<T(!new)>(s: seq<T>) {
    forall i, j | 0 <= i < j < |s| :: s[i] != s[j]
  }

  /** The sequence lists each element of the set exactly once. */
  ghost predicate Enumerates<T(!new)>(s: seq<T>, domain: set<T>) {
    Distinct(s) && forall x :: x in s <==> x in domain
  }

  // ----- sorting

  function Insert<T>(x: T, s: seq<T>, less: (T, T) -> bool): seq<T> {
    if s == [] || less(x, s[0]) then [x] + s else [s[0]] + Insert(x, s[1..], less)
  }

  /** The elements in the order of the comparison. */
  function Sorted<T>(s: seq<T>, less: (T, T) -> bool): seq<T> {
    if s == [] then [] else Insert(s[0], Sorted(s[1..], less), less)
  }

  lemma ConsKeepsOrder<T(!new)>(x: T, s: seq<T>, less: (T, T) -> bool)
    requires Distinct(s) && Ascending(s, less)
    requires forall y | y in s :: x != y && less(x, y)
    ensures Distinct([x] + s) && Ascending([x] + s, less)
  {
    forall i, j | 0 <= i < j < |[x] + s|
      ensures less(([x] + s)[i], ([x] + s)[j]) && ([x] + s)[i] != ([x] + s)[j]
    {
      assert ([x] + s)[j] == s[j - 1] && s[j - 1] in s;
      assert i > 0 ==> ([x] + s)[i] == s[i - 1];
    }
  }

  lemma {:induction false} InsertKeepsOrder<T(!new)>(x: T, s: seq<T>, less: (T, T) -> bool, domain: set<T>)
    requires Orders(less, domain) && x in domain && (forall y | y in s :: y in domain) && x !in s
    requires Distinct(s) && Ascending(s, less)
    ensures var r := Insert(x, s, less); Distinct(r) && Ascending(r, less) && forall y :: y in r <==> y == x || y in s
  {
    if s == [] {
    } else if less(x, s[0]) {
      forall y | y in s
        ensures x != y && less(x, y)
      {
        var k :| 0 <= k < |s| && s[k] == y;
        assert s[0] in domain && y in domain;
        assert k > 0 ==> less(s[0], y);
      }
      ConsKeepsOrder(x, s, less);
    } else {
      assert s == [s[0]] + s[1..];
      var rest := s[1..];
      InsertKeepsOrder(x, rest, less, domain);
      forall y | y in Insert(x, rest, less)
        ensures s[0] != y && less(s[0], y)
      {
        if y == x {
          assert s[0] in domain;
        } else {
          var k :| 0 <= k < |rest| && rest[k] == y;
          assert s[k + 1] == y;
        }
      }
      ConsKeepsOrder(s[0], Insert(x, rest, less), less);
    }
  }

  /** Sorting a list of distinct elements lists the same elements in ascending order. */
  lemma {:induction false} SortedIsAscending<T(!new)>(s: seq<T>, less: (T, T) -> bool, domain: set<T>)
    requires Orders(less, domain) && (forall y | y in s :: y in domain) && Distinct(s)
    ensures var r := Sorted(s, less); Distinct(r) && Ascending(r, less) && forall y :: y in r <==> y in s
  {
    if s != [] {
      assert s == [s[0]] + s[1..];
      assert forall y | y in s[1..] :: y in s;
      SortedIsAscending(s[1..], less, domain);
      InsertKeepsOrder(s[0], Sorted(s[1..], less), less, domain);
    }
  }

  /** The first element of an ascending list is the least one. */
  lemma FirstIsLeast<T(!new)>(s: seq<T>, less: (T, T) -> bool, domain: set<T>)
    requires Enumerates(s, domain) && Ascending(s, less)
    ensures s == [] <==> domain == {}
    ensures s != [] ==> s[0] in domain && forall x | x in domain :: x == s[0] || less(s[0], x)
  {
    if s != [] {
      assert s[0] in s;
    }
  }

  /** There is only one way to list a set in ascending order. */
  lemma {:induction false} AscendingIsUnique<T(!new)>(s: seq<T>, t: seq<T>, less: (T, T) -> bool, domain: set<T>)
    requires Orders(less, domain) && Enumerates(s, domain) && Enumerates(t, domain)
    requires Ascending(s, less) && Ascending(t, less)
    ensures s == t
    decreases |s|
  {
    hide Ascending, Distinct, Enumerates;
    FirstIsLeast(s, less, domain);
    FirstIsLeast(t, less, domain);
    if domain != {} {
      assert s[0] == t[0];
      TailEnumerates(s, less, domain);
      TailEnumerates(t, less, domain);
      FewerAreOrdered(less, domain - {s[0]}, domain);
      hide Orders;
      AscendingIsUnique(s[1..], t[1..], less, domain - {s[0]});
      assert s == [s[0]] + s[1..] && t == [t[0]] + t[1..];
    }
  }

  lemma TailEnumerates<T(!new)>(s: seq<T>, less: (T, T) -> bool, domain: set<T>)
    requires s != [] && Enumerates(s, domain) && Ascending(s, less)
    ensures Enumerates(s[1..], domain - {s[0]}) && Ascending(s[1..], less)
  {
    forall x
      ensures x in s[1..] <==> x in domain - {s[0]}
    {
      assert s == [s[0]] + s[1..];
      if x in s[1..] {
        var k :| 0 <= k < |s[1..]| && s[1..][k] == x;
        assert s[0] != s[k + 1];
      }
    }
  }

  lemma FewerAreOrdered<T(!new)>(less: (T, T) -> bool, fewer: set<T>, domain: set<T>)
    requires Orders(less, domain) && fewer <= domain
    ensures Orders(less, fewer)
  {
  }

  function Reverse<T>(s: seq<T>): (r: seq<T>)
    ensures |r| == |s| && forall i | 0 <= i < |s| :: r[i] == s[|s| - 1 - i]
  {
    seq(|s|, i requires 0 <= i < |s| => s[|s| - 1 - i])
  }

  /** A set as a list, in no particular order: the way Go ranges over a map. */
  lemma {:induction false} SetCanBeListed<T(!new)>(domain: set<T>) returns (s: seq<T>)
    ensures Enumerates(s, domain)
  {
    s := [];
    if domain != {} {
      var x :| x in domain;
      var rest := SetCanBeListed(domain - {x});
      s := [x] + rest;
    }
  }
}
