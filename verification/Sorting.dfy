/** Sorting, deduplication and filtering as the standard library does them, and the order on strings. */
module Sorting {
  ghost predicate TotalOrder<T(!new)>(le: (T, T) -> bool) {
    && (forall x, y :: le(x, y) || le(y, x))
    && (forall x, y, z :: le(x, y) && le(y, z) ==> le(x, z))
  }

  ghost predicate Antisymmetric<T(!new)>(le: (T, T) -> bool) {
    forall x, y :: le(x, y) && le(y, x) ==> x == y
  }

  predicate Sorted<T>(s: seq<T>, le: (T, T) -> bool) {
    forall i, j | 0 <= i < j < |s| :: le(s[i], s[j])
  }

  predicate Distinct<T(==)>(s: seq<T>) {
    forall i, j | 0 <= i < j < |s| :: s[i] != s[j]
  }

  /** Inserts before the first element that is not smaller. */
  function Insert<T>(x: T, s: seq<T>, le: (T, T) -> bool): seq<T> {
    if s == [] then [x]
    else if le(x, s[0]) then [x] + s
    else [s[0]] + Insert(x, s[1..], le)
  }

  /** sort_by */
  function Sort<T>(s: seq<T>, le: (T, T) -> bool): seq<T> {
    if s == [] then [] else Insert(s[0], Sort(s[1..], le), le)
  }

  /** Vec::dedup: drops an element equal to the one before it. */
  function Dedup<T(==)>(s: seq<T>): seq<T> {
    if |s| < 2 then s
    else if s[0] == s[1] then Dedup(s[1..])
    else [s[0]] + Dedup(s[1..])
  }

  lemma {:induction false} InsertPermutes<T>(x: T, s: seq<T>, le: (T, T) -> bool)
    ensures multiset(Insert(x, s, le)) == multiset(s) + multiset{x}
    ensures |Insert(x, s, le)| == |s| + 1
  {
    if s != [] {
      assert s == [s[0]] + s[1..];
      if !le(x, s[0]) { InsertPermutes(x, s[1..], le); }
    }
  }

  lemma {:induction false} InsertSorted<T(!new)>(x: T, s: seq<T>, le: (T, T) -> bool)
    requires TotalOrder(le) && Sorted(s, le)
    ensures Sorted(Insert(x, s, le), le)
  {
    if s != [] && !le(x, s[0]) {
      InsertSorted(x, s[1..], le);
      InsertPermutes(x, s[1..], le);
      var r := Insert(x, s[1..], le);
      forall y | y in r ensures le(s[0], y) {
        assert y in multiset(r);
        assert y == x || y in s[1..];
      }
    }
  }

  lemma {:induction false} SortPermutes<T>(s: seq<T>, le: (T, T) -> bool)
    ensures multiset(Sort(s, le)) == multiset(s) && |Sort(s, le)| == |s|
  {
    if s != [] {
      assert s == [s[0]] + s[1..];
      SortPermutes(s[1..], le);
      InsertPermutes(s[0], Sort(s[1..], le), le);
    }
  }

  lemma {:induction false} SortSorts<T(!new)>(s: seq<T>, le: (T, T) -> bool)
    requires TotalOrder(le)
    ensures Sorted(Sort(s, le), le)
  {
    if s != [] {
      SortSorts(s[1..], le);
      InsertSorted(s[0], Sort(s[1..], le), le);
    }
  }

  lemma SortMembers<T>(s: seq<T>, le: (T, T) -> bool)
    ensures forall x :: x in Sort(s, le) <==> x in s
  {
    SortPermutes(s, le);
    forall x ensures x in Sort(s, le) <==> x in s {
      assert x in Sort(s, le) <==> x in multiset(Sort(s, le));
      assert x in s <==> x in multiset(s);
    }
  }

  /** Deduplicating a sorted sequence keeps its elements, its order, and one of each. */
  lemma {:induction false} DedupFacts<T(!new)>(s: seq<T>, le: (T, T) -> bool)
    requires TotalOrder(le) && Antisymmetric(le) && Sorted(s, le)
    ensures Sorted(Dedup(s), le) && Distinct(Dedup(s))
    ensures forall x :: x in Dedup(s) <==> x in s
    ensures s != [] ==> Dedup(s) != [] && Dedup(s)[0] == s[0]
  {
    if |s| >= 2 {
      var t := s[1..];
      DedupFacts(t, le);
      assert s == [s[0]] + t;
      if s[0] != s[1] {
        forall x | x in t ensures le(s[0], x) && x != s[0] {
          assert le(s[1], x);
        }
      }
    }
  }

  lemma TwoPlaces<T>(s: seq<T>, i: nat, j: nat)
    requires i < j < |s| && s[i] == s[j]
    ensures multiset(s)[s[i]] >= 2
  {
    assert s == s[..i] + [s[i]] + s[i + 1..j] + [s[j]] + s[j + 1..];
  }

  // ---- Filtering ----

  function Filter<T>(s: seq<T>, matches: T -> bool): seq<T> {
    if s == [] then []
    else if matches(s[0]) then [s[0]] + Filter(s[1..], matches)
    else Filter(s[1..], matches)
  }

  lemma {:induction false} FilterConcat<T>(a: seq<T>, b: seq<T>, matches: T -> bool)
    ensures Filter(a + b, matches) == Filter(a, matches) + Filter(b, matches)
  {
    if a == [] {
      assert a + b == b;
    } else {
      FilterConcat(a[1..], b, matches);
      assert (a + b)[1..] == a[1..] + b;
    }
  }

  lemma FilterSplit<T>(s: seq<T>, i: nat, j: nat, matches: T -> bool)
    requires i <= j <= |s|
    ensures Filter(s[i..], matches) == Filter(s[i..j], matches) + Filter(s[j..], matches)
  {
    assert s[i..] == s[i..j] + s[j..];
    FilterConcat(s[i..j], s[j..], matches);
  }

  /** A filter keeps every match as often as it occurs, and nothing else. */
  lemma {:induction false} FilterCount<T>(s: seq<T>, matches: T -> bool, x: T)
    ensures multiset(Filter(s, matches))[x] == if matches(x) then multiset(s)[x] else 0
  {
    if s != [] {
      FilterCount(s[1..], matches, x);
      assert s == [s[0]] + s[1..];
    }
  }

  /** A filter keeps the order. */
  lemma {:induction false} FilterSorted<T>(s: seq<T>, le: (T, T) -> bool, matches: T -> bool)
    requires Sorted(s, le)
    ensures Sorted(Filter(s, matches), le)
  {
    if s != [] {
      FilterSorted(s[1..], le, matches);
      var rest := Filter(s[1..], matches);
      forall i | 0 <= i < |rest| ensures rest[i] in s[1..] {
        FilterCount(s[1..], matches, rest[i]);
        assert rest[i] in multiset(rest);
        assert rest[i] in multiset(s[1..]);
      }
    }
  }

  lemma FilterNext<T>(s: seq<T>, i: nat, j: nat, k: nat, matches: T -> bool)
    requires i <= j <= k <= |s|
    ensures Filter(s[i..k], matches) == Filter(s[i..j], matches) + Filter(s[j..k], matches)
  {
    assert s[i..k] == s[i..j] + s[j..k];
    FilterConcat(s[i..j], s[j..k], matches);
  }

  // ---- Strings compare character by character ----

  lemma {:induction false} DistinctMeansOnce<T(!new)>(s: seq<T>)
    requires Distinct(s)
    ensures forall x :: multiset(s)[x] <= 1
  {
    if s != [] {
      DistinctMeansOnce(s[1..]);
      assert s == [s[0]] + s[1..];
      assert s[0] !in s[1..];
    }
  }

  lemma OnceMeansDistinct<T(!new)>(s: seq<T>)
    requires forall x :: multiset(s)[x] <= 1
    ensures Distinct(s)
  {
    forall i, j | 0 <= i < j < |s| ensures s[i] != s[j] {
      if s[i] == s[j] { TwoPlaces(s, i, j); }
    }
  }

  lemma SameMembersPermute<T(!new)>(a: seq<T>, b: seq<T>)
    requires Distinct(a) && Distinct(b) && forall x :: x in a <==> x in b
    ensures multiset(a) == multiset(b)
  {
    DistinctMeansOnce(a);
    DistinctMeansOnce(b);
    forall x ensures multiset(a)[x] == multiset(b)[x] {
      assert x in a <==> x in multiset(a);
      assert x in b <==> x in multiset(b);
    }
  }

  predicate StrLe(a: string, b: string) {
    if a == [] then true
    else if b == [] then false
    else if a[0] == b[0] then StrLe(a[1..], b[1..])
    else a[0] < b[0]
  }

  lemma {:induction false} StrLeTotal(a: string, b: string)
    ensures StrLe(a, b) || StrLe(b, a)
    ensures StrLe(a, b) && StrLe(b, a) ==> a == b
  {
    if a != [] && b != [] && a[0] == b[0] {
      StrLeTotal(a[1..], b[1..]);
      assert a == [a[0]] + a[1..] && b == [b[0]] + b[1..];
    }
  }

  lemma {:induction false} StrLeTransitive(a: string, b: string, c: string)
    requires StrLe(a, b) && StrLe(b, c)
    ensures StrLe(a, c)
  {
    if a != [] && b != [] && c != [] && a[0] == b[0] == c[0] {
      StrLeTransitive(a[1..], b[1..], c[1..]);
    }
  }

  /** `a` starts `b`, or at the first place where they differ `a` has the smaller character. */
  ghost predicate TextBefore(a: string, b: string) {
    a <= b || exists n :: 0 <= n < |a| && n < |b| && a[..n] == b[..n] && a[n] < b[n]
  }

  /** The order on strings goes by the first differing character, a prefix first. */
  lemma {:induction false} StrLeMeans(a: string, b: string)
    ensures StrLe(a, b) <==> TextBefore(a, b)
  {
    if a != [] && b != [] {
      if a[0] == b[0] {
        StrLeMeans(a[1..], b[1..]);
        SameHeadBefore(a, b);
      } else {
        assert a[..0] == b[..0];
        if n :| 0 <= n < |a| && n < |b| && a[..n] == b[..n] && a[n] < b[n] {
          assert n > 0 ==> a[..n][0] == b[..n][0];
        }
      }
    }
  }

  lemma SameHeadBefore(a: string, b: string)
    requires a != [] && b != [] && a[0] == b[0]
    ensures TextBefore(a, b) <==> TextBefore(a[1..], b[1..])
  {
    assert a <= b <==> a[1..] <= b[1..] by {
      assert a == [a[0]] + a[1..] && b == [b[0]] + b[1..];
    }
    if n :| 0 <= n < |a| && n < |b| && a[..n] == b[..n] && a[n] < b[n] {
      assert n > 0 && a[1..][..n - 1] == a[..n][1..] && b[1..][..n - 1] == b[..n][1..];
      assert a[1..][n - 1] < b[1..][n - 1];
    }
    if n :| 0 <= n < |a[1..]| && n < |b[1..]| && a[1..][..n] == b[1..][..n] && a[1..][n] < b[1..][n] {
      assert a[..n + 1] == [a[0]] + a[1..][..n] && b[..n + 1] == [b[0]] + b[1..][..n];
      assert a[n + 1] < b[n + 1];
    }
  }

  const STR_LE: (string, string) -> bool := (a: string, b: string) => StrLe(a, b)

  lemma StrOrder()
    ensures TotalOrder(STR_LE) && Antisymmetric(STR_LE)
  {
    forall a, b ensures STR_LE(a, b) || STR_LE(b, a) ensures STR_LE(a, b) && STR_LE(b, a) ==> a == b {
      StrLeTotal(a, b);
    }
    forall a, b, c | STR_LE(a, b) && STR_LE(b, c) ensures STR_LE(a, c) {
      StrLeTransitive(a, b, c);
    }
  }

  /** sort() followed by dedup(): the distinct strings in order. */
  function SortedSet(s: seq<string>): seq<string> {
    Dedup(Sort(s, STR_LE))
  }

  lemma SortedSetFacts(s: seq<string>)
    ensures Sorted(SortedSet(s), STR_LE) && Distinct(SortedSet(s))
    ensures forall x :: x in SortedSet(s) <==> x in s
    ensures SortedSet(s) == [] <==> s == []
  {
    StrOrder();
    SortSorts(s, STR_LE);
    SortMembers(s, STR_LE);
    DedupFacts(Sort(s, STR_LE), STR_LE);
    SortPermutes(s, STR_LE);
  }

  /** The order of the input does not matter. */
  lemma SortedSetOrderFree(s: seq<string>, t: seq<string>)
    requires forall x :: x in s <==> x in t
    ensures SortedSet(s) == SortedSet(t)
  {
    SortedSetFacts(s);
    SortedSetFacts(t);
    StrOrder();
    SortedDistinctUnique(SortedSet(s), SortedSet(t), STR_LE);
  }

  /** Sorted sequences with the same elements start with the same one. */
  lemma SameHead<T(!new)>(a: seq<T>, b: seq<T>, le: (T, T) -> bool)
    requires TotalOrder(le) && Antisymmetric(le) && Sorted(a, le) && Sorted(b, le)
    requires a != [] && b != [] && a[0] in b && b[0] in a
    ensures a[0] == b[0]
  {
    var i :| 0 <= i < |b| && b[i] == a[0];
    var j :| 0 <= j < |a| && a[j] == b[0];
    assert le(b[0], b[i]) && le(a[0], a[j]);
  }

  /** Without their common first element they still have the same elements. */
  lemma SameRest<T(!new)>(a: seq<T>, b: seq<T>, x: T)
    requires a != [] && b != [] && a[0] == b[0] && Distinct(a) && x in a[1..] && x in b
    ensures x in b[1..]
  {
    var i :| 0 <= i < |a[1..]| && a[1..][i] == x;
    assert a[i + 1] == x && a[0] != a[i + 1];
    var j :| 0 <= j < |b| && b[j] == x;
    assert b[1..][j - 1] == x;
  }

  lemma {:induction false} SortedDistinctUnique<T(!new)>(a: seq<T>, b: seq<T>, le: (T, T) -> bool)
    requires TotalOrder(le) && Antisymmetric(le)
    requires Sorted(a, le) && Sorted(b, le) && Distinct(a) && Distinct(b)
    requires forall x :: x in a <==> x in b
    ensures a == b
  {
    if a == [] || b == [] {
      NoElements(a, b);
    } else {
      assert a[0] in a && b[0] in b;
      SameHead(a, b, le);
      forall x ensures x in a[1..] <==> x in b[1..] {
        if x in a[1..] { SameRest(a, b, x); }
        if x in b[1..] { SameRest(b, a, x); }
      }
      RestFacts(a, le);
      RestFacts(b, le);
      hide TotalOrder, Antisymmetric, Sorted, Distinct;
      SortedDistinctUnique(a[1..], b[1..], le);
      assert a == [a[0]] + a[1..] && b == [b[0]] + b[1..];
    }
  }

  lemma NoElements<T(!new)>(a: seq<T>, b: seq<T>)
    requires (forall x :: x in a <==> x in b) && (a == [] || b == [])
    ensures a == [] && b == []
  {
    if a != [] { HeadIsMember(a); }
    if b != [] { HeadIsMember(b); }
  }

  lemma HeadIsMember<T>(s: seq<T>)
    requires s != []
    ensures s[0] in s
  {
  }

  lemma RestFacts<T(!new)>(s: seq<T>, le: (T, T) -> bool)
    requires s != [] && Sorted(s, le) && Distinct(s)
    ensures Sorted(s[1..], le) && Distinct(s[1..])
  {
  }
}
