/** Sorting by a string key, ascending: MongoDB's `.sort({ name: 1 })`
    and the `$sort` stage of an aggregation.  The model sorts stably by
    insertion; MongoDB leaves the order of equal keys unspecified, so
    this is one of the orders it may return. */
module Sorting {
  import opened Strings

  ghost predicate SortedBy<T>(s: seq<T>, key: T -> string)
  {
    forall i, j :: 0 <= i < j < |s| ==> LexLe(key(s[i]), key(s[j]))
  }

  /** No two elements share the value of `f`. */
  ghost predicate DistinctBy<T, K>(s: seq<T>, f: T -> K)
  {
    forall i, j :: 0 <= i < j < |s| ==> f(s[i]) != f(s[j])
  }

  /** A list stays distinct under a new head whose value is not yet taken. */
  lemma ConsDistinct<T, K>(x: T, s: seq<T>, f: T -> K)
    requires DistinctBy(s, f)
    requires forall y :: y in s ==> f(y) != f(x)
    ensures DistinctBy([x] + s, f)
  {
    var r := [x] + s;
    forall i, j | 0 <= i < j < |r| ensures f(r[i]) != f(r[j]) {
      assert r[j] == s[j - 1];
      if i > 0 {
        assert r[i] == s[i - 1];
      }
    }
  }

  function InsertBy<T(==)>(x: T, s: seq<T>, key: T -> string): (r: seq<T>)
    requires SortedBy(s, key)
    ensures SortedBy(r, key)
    ensures multiset(r) == multiset(s) + multiset{x}
    ensures |r| == |s| + 1
  {
    if s == [] then [x]
    else
      HeadBelowTail(s, key);
      assert s == [s[0]] + s[1..];
      if LexLe(key(x), key(s[0])) then
        forall z | z in s ensures LexLe(key(x), key(z)) {
          if z != s[0] {
            LexLeTransitive(key(x), key(s[0]), key(z));
          }
        }
        ConsSorted(x, s, key);
        [x] + s
      else
        LexLeTotal(key(x), key(s[0]));
        var rest := InsertBy(x, s[1..], key);
        forall y | y in rest ensures LexLe(key(s[0]), key(y)) {
          assert y in multiset(rest);
          if y != x {
            assert y in multiset(s[1..]);
          }
        }
        ConsSorted(s[0], rest, key);
        [s[0]] + rest
  }

  /** The head of a sorted list is at most every later element. */
  lemma HeadBelowTail<T>(s: seq<T>, key: T -> string)
    requires s != [] && SortedBy(s, key)
    ensures forall z :: z in s[1..] ==> LexLe(key(s[0]), key(z))
  {
    forall z | z in s[1..] ensures LexLe(key(s[0]), key(z)) {
      var k :| 0 <= k < |s[1..]| && s[1..][k] == z;
      assert s[k + 1] == z;
    }
  }

  /** A sorted list stays sorted under a head that is at most all of it. */
  lemma ConsSorted<T>(y: T, s: seq<T>, key: T -> string)
    requires SortedBy(s, key)
    requires forall z :: z in s ==> LexLe(key(y), key(z))
    ensures SortedBy([y] + s, key)
  {
    var r := [y] + s;
    forall i, j | 0 <= i < j < |r| ensures LexLe(key(r[i]), key(r[j])) {
      assert r[j] == s[j - 1];
      if i > 0 {
        assert r[i] == s[i - 1];
      }
    }
  }

  /** Ascending by `key`, a permutation of the input. */
  function SortBy<T(==)>(s: seq<T>, key: T -> string): (r: seq<T>)
    ensures SortedBy(r, key)
    ensures multiset(r) == multiset(s)
    ensures |r| == |s|
  {
    if s == [] then []
    else
      assert s == [s[0]] + s[1..];
      InsertBy(s[0], SortBy(s[1..], key), key)
  }

  lemma {:induction false} InsertByKeepsDistinct<T, K>(x: T, s: seq<T>, key: T -> string, f: T -> K)
    requires SortedBy(s, key) && DistinctBy(s, f)
    requires forall y :: y in s ==> f(y) != f(x)
    ensures DistinctBy(InsertBy(x, s, key), f)
  {
    if s == [] {
    } else if LexLe(key(x), key(s[0])) {
      ConsDistinct(x, s, f);
    } else {
      var tail := s[1..];
      TailDistinct(s, f);
      InsertByKeepsDistinct(x, tail, key, f);
      var rest := InsertBy(x, tail, key);
      forall y | y in rest ensures f(y) != f(s[0]) {
        assert y in multiset(rest);
        if y != x {
          assert y in multiset(tail);
          var k :| 0 <= k < |tail| && tail[k] == y;
          assert s[k + 1] == y;
        }
      }
      ConsDistinct(s[0], rest, f);
    }
  }

  /** Dropping the head keeps a list distinct. */
  lemma TailDistinct<T, K>(s: seq<T>, f: T -> K)
    requires s != [] && DistinctBy(s, f)
    ensures DistinctBy(s[1..], f)
  {
    var t := s[1..];
    forall i, j | 0 <= i < j < |t| ensures f(t[i]) != f(t[j]) {
      assert t[i] == s[i + 1] && t[j] == s[j + 1];
    }
  }

  /** Sorting never makes two elements share a value of `f`. */
  lemma {:induction false} SortByKeepsDistinct<T, K>(s: seq<T>, key: T -> string, f: T -> K)
    requires DistinctBy(s, f)
    ensures DistinctBy(SortBy(s, key), f)
  {
    if s != [] {
      SortByKeepsDistinct(s[1..], key, f);
      var sorted := SortBy(s[1..], key);
      forall y | y in sorted ensures f(y) != f(s[0]) {
        assert y in multiset(sorted);
        assert y in multiset(s[1..]);
        var k :| 0 <= k < |s[1..]| && s[1..][k] == y;
        assert s[k + 1] == y;
      }
      InsertByKeepsDistinct(s[0], sorted, key, f);
    }
  }

  /** An element is in the sorted list exactly when it is in the input. */
  lemma SortByMembers<T>(s: seq<T>, key: T -> string, x: T)
    ensures x in SortBy(s, key) <==> x in s
  {
    var r := SortBy(s, key);
    assert x in r <==> x in multiset(r);
    assert x in s <==> x in multiset(s);
  }
}
