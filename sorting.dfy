/**
 * `Array.prototype.sort(compare)`, which the application calls on freshly copied arrays.
 * The standard requires the sort to be stable; it is written here as a stable insertion sort.
 * A comparator returns a negative number when its first argument goes first, a positive one when
 * its second does, and zero when either order is acceptable.
 */
module Sorting {
  import Collections

  /** Insert `x` before the first element it does not follow. */
  function Insert<T>(x: T, s: seq<T>, cmp: (T, T) -> int): (r: seq<T>)
    ensures multiset(r) == multiset(s) + multiset{x}
    ensures |r| == |s| + 1
  {
    if s == [] || cmp(x, s[0]) <= 0 then [x] + s
    else
      assert s == [s[0]] + s[1..];
      [s[0]] + Insert(x, s[1..], cmp)
  }

  /** `s.slice().sort(cmp)`: a sorted permutation of `s`. */
  function SortBy<T>(s: seq<T>, cmp: (T, T) -> int): (r: seq<T>)
    ensures multiset(r) == multiset(s)
    ensures |r| == |s|
  {
    if s == [] then []
    else
      assert s == [s[0]] + s[1..];
      Insert(s[0], SortBy(s[1..], cmp), cmp)
  }

  /** For every pair of positions `i < j`, the comparator accepts `r[i]` before `r[j]`. */
  ghost predicate Sorted<T>(r: seq<T>, cmp: (T, T) -> int) {
    forall i, j :: 0 <= i < j < |r| ==> cmp(r[i], r[j]) <= 0
  }

  /**
   * A comparator behaves consistently on the values in `s`: any two can be put in some order,
   * and "may go before" is transitive. Comparators built from a difference of numbers are.
   */
  ghost predicate ConsistentOn<T>(cmp: (T, T) -> int, s: seq<T>) {
    && (forall a, b :: a in s && b in s ==> cmp(a, b) <= 0 || cmp(b, a) <= 0)
    && (forall a, b, c :: a in s && b in s && c in s && cmp(a, b) <= 0 && cmp(b, c) <= 0 ==> cmp(a, c) <= 0)
  }

  lemma ConsistentOnSubset<T>(cmp: (T, T) -> int, s: seq<T>, t: seq<T>)
    requires ConsistentOn(cmp, s)
    requires forall i :: 0 <= i < |t| ==> t[i] in s
    ensures ConsistentOn(cmp, t)
  {
  }

  /** `y` may go before every element of `s`. */
  ghost predicate BeforeAll<T>(y: T, s: seq<T>, cmp: (T, T) -> int) {
    forall k :: 0 <= k < |s| ==> cmp(y, s[k]) <= 0
  }

  lemma BeforeAllInsert<T>(y: T, x: T, s: seq<T>, cmp: (T, T) -> int)
    requires BeforeAll(y, s, cmp) && cmp(y, x) <= 0
    ensures BeforeAll(y, Insert(x, s, cmp), cmp)
  {
    var u := Insert(x, s, cmp);
    forall k | 0 <= k < |u| ensures cmp(y, u[k]) <= 0 {
      assert u[k] in multiset(u);
      if u[k] != x {
        assert u[k] in multiset(s);
        var m :| 0 <= m < |s| && s[m] == u[k];
      }
    }
  }

  lemma SortedCons<T>(y: T, s: seq<T>, cmp: (T, T) -> int)
    requires BeforeAll(y, s, cmp) && Sorted(s, cmp)
    ensures Sorted([y] + s, cmp)
  {
    var r := [y] + s;
    forall i, j | 0 <= i < j < |r| ensures cmp(r[i], r[j]) <= 0 {
      if i == 0 {
        assert r[j] == s[j - 1];
      } else {
        assert r[i] == s[i - 1] && r[j] == s[j - 1];
      }
    }
  }

  lemma BeforeAllTrans<T>(x: T, s: seq<T>, cmp: (T, T) -> int)
    requires s != [] && Sorted(s, cmp) && cmp(x, s[0]) <= 0
    requires ConsistentOn(cmp, [x] + s)
    ensures BeforeAll(x, s, cmp)
  {
    forall k | 0 <= k < |s| ensures cmp(x, s[k]) <= 0 {
      if k > 0 {
        assert cmp(s[0], s[k]) <= 0;
        assert x in [x] + s && s[0] in [x] + s && s[k] in [x] + s;
      }
    }
  }

  lemma {:induction false} InsertSorted<T>(x: T, s: seq<T>, cmp: (T, T) -> int)
    requires Sorted(s, cmp)
    requires ConsistentOn(cmp, [x] + s)
    ensures Sorted(Insert(x, s, cmp), cmp)
  {
    if s == [] {
    } else if cmp(x, s[0]) <= 0 {
      BeforeAllTrans(x, s, cmp);
      SortedCons(x, s, cmp);
    } else {
      var t := s[1..];
      assert s == [s[0]] + t;
      assert x in [x] + s && s[0] in [x] + s;
      ConsistentOnSubset(cmp, [x] + s, [x] + t);
      InsertSorted(x, t, cmp);
      InsertAfterHead(x, s, cmp);
    }
  }

  /** Inserting after the head keeps the head in front of a sorted insertion into the tail. */
  lemma InsertAfterHead<T>(x: T, s: seq<T>, cmp: (T, T) -> int)
    requires s != [] && Sorted(s, cmp) && cmp(x, s[0]) > 0 && cmp(s[0], x) <= 0
    requires Sorted(Insert(x, s[1..], cmp), cmp)
    ensures Sorted(Insert(x, s, cmp), cmp)
  {
    var t := s[1..];
    assert BeforeAll(s[0], t, cmp) by {
      forall k | 0 <= k < |t| ensures cmp(s[0], t[k]) <= 0 {
        assert t[k] == s[k + 1];
      }
    }
    BeforeAllInsert(s[0], x, t, cmp);
    SortedCons(s[0], Insert(x, t, cmp), cmp);
  }

  /** With a consistent comparator the result is sorted. */
  lemma {:induction false} SortBySorted<T>(s: seq<T>, cmp: (T, T) -> int)
    requires ConsistentOn(cmp, s)
    ensures Sorted(SortBy(s, cmp), cmp)
  {
    if s != [] {
      var t := s[1..];
      ConsistentOnSubset(cmp, s, t);
      SortBySorted(t, cmp);
      var st := SortBy(t, cmp);
      HeadAndSortedTail(s, cmp, [s[0]] + st);
      ConsistentOnSubset(cmp, s, [s[0]] + st);
      InsertSorted(s[0], st, cmp);
    }
  }

  /** The head followed by the sorted tail holds only elements of `s`. */
  lemma HeadAndSortedTail<T>(s: seq<T>, cmp: (T, T) -> int, u: seq<T>)
    requires s != [] && u == [s[0]] + SortBy(s[1..], cmp)
    ensures forall i :: 0 <= i < |u| ==> u[i] in s
  {
    var t := s[1..];
    var st := SortBy(t, cmp);
    forall i | 0 <= i < |u| ensures u[i] in s {
      if i > 0 {
        assert u[i] == st[i - 1];
        assert st[i - 1] in multiset(st);
        assert st[i - 1] in multiset(t);
        assert t == s[1..];
      }
    }
  }

  /** Membership is the same before and after sorting. */
  lemma SortByMembers<T>(s: seq<T>, cmp: (T, T) -> int, x: T)
    ensures x in SortBy(s, cmp) <==> x in s
  {
    var r := SortBy(s, cmp);
    assert x in r <==> x in multiset(r);
    assert x in s <==> x in multiset(s);
  }

  /** Every element of `s` has a position in the sorted copy. */
  lemma SortByPosition<T>(s: seq<T>, cmp: (T, T) -> int, x: T) returns (k: nat)
    requires x in s
    ensures k < |SortBy(s, cmp)| && SortBy(s, cmp)[k] == x
  {
    SortByMembers(s, cmp, x);
    k :| 0 <= k < |SortBy(s, cmp)| && SortBy(s, cmp)[k] == x;
  }

  /**
   * The first `m` elements of a sorted copy are in order, come from `s`, and may go before
   * every element of `s` that is not among them.
   */
  lemma SortedPrefix<T>(s: seq<T>, cmp: (T, T) -> int, m: nat)
    requires ConsistentOn(cmp, s) && m <= |s|
    ensures Sorted(SortBy(s, cmp)[..m], cmp)
    ensures forall k :: 0 <= k < m ==> SortBy(s, cmp)[k] in s
    ensures forall x :: x in s && x !in SortBy(s, cmp)[..m] ==>
      forall k :: 0 <= k < m ==> cmp(SortBy(s, cmp)[k], x) <= 0
  {
    var r := SortBy(s, cmp);
    SortBySorted(s, cmp);
    forall k | 0 <= k < m ensures r[k] in s {
      SortByMembers(s, cmp, r[k]);
    }
    forall x | x in s && x !in r[..m] ensures forall k :: 0 <= k < m ==> cmp(r[k], x) <= 0 {
      var j := SortByPosition(s, cmp, x);
      assert j >= m;
    }
  }

  /** A property of every element still holds of every element after sorting. */
  lemma SortByAll<T>(s: seq<T>, cmp: (T, T) -> int, p: T -> bool)
    requires forall k :: 0 <= k < |s| ==> p(s[k])
    ensures forall k :: 0 <= k < |SortBy(s, cmp)| ==> p(SortBy(s, cmp)[k])
  {
    var r := SortBy(s, cmp);
    forall k | 0 <= k < |r| ensures p(r[k]) {
      SortByMembers(s, cmp, r[k]);
    }
  }

  /**
   * The order `sort()` without a comparator puts strings in: code unit by code unit, a proper
   * prefix first.
   */
  function CodeUnitCompare(a: string, b: string): (r: int)
    ensures -1 <= r <= 1
    ensures r == 0 <==> a == b
  {
    if a == [] && b == [] then 0
    else if a == [] then -1
    else if b == [] then 1
    else if a[0] < b[0] then -1
    else if b[0] < a[0] then 1
    else
      var r := CodeUnitCompare(a[1..], b[1..]);
      assert a == [a[0]] + a[1..] && b == [b[0]] + b[1..];
      r
  }

  lemma {:induction false} CodeUnitAntisymmetric(a: string, b: string)
    ensures CodeUnitCompare(a, b) == -CodeUnitCompare(b, a)
  {
    if a != [] && b != [] && a[0] == b[0] {
      CodeUnitAntisymmetric(a[1..], b[1..]);
    }
  }

  lemma {:induction false} CodeUnitTransitive(a: string, b: string, c: string)
    requires CodeUnitCompare(a, b) <= 0 && CodeUnitCompare(b, c) <= 0
    ensures CodeUnitCompare(a, c) <= 0
  {
    if a != [] && b != [] && c != [] && a[0] == b[0] && b[0] == c[0] {
      CodeUnitTransitive(a[1..], b[1..], c[1..]);
    }
  }

  /** The code unit order is a total order, so sorting by it is well defined. */
  lemma CodeUnitConsistent(s: seq<string>)
    ensures ConsistentOn(CodeUnitCompare, s)
  {
    forall a, b | a in s && b in s ensures CodeUnitCompare(a, b) <= 0 || CodeUnitCompare(b, a) <= 0 {
      CodeUnitAntisymmetric(a, b);
    }
    forall a, b, c | a in s && b in s && c in s && CodeUnitCompare(a, b) <= 0 && CodeUnitCompare(b, c) <= 0
      ensures CodeUnitCompare(a, c) <= 0
    {
      CodeUnitTransitive(a, b, c);
    }
  }

  /**
   * The order `Object.keys` and `Object.values` list the integer keys of a record in: ascending,
   * whatever order they were added in.
   */
  function IdOrder(a: nat, b: nat): int {
    a - b
  }

  /** Sorting by a comparator that only looks at `f` of its arguments commutes with mapping `f`. */
  lemma {:induction false} InsertMap<T, U>(x: T, s: seq<T>, cmp: (T, T) -> int, f: T -> U, cmpU: (U, U) -> int)
    requires forall a, b :: cmpU(f(a), f(b)) == cmp(a, b)
    ensures Collections.Map(Insert(x, s, cmp), f) == Insert(f(x), Collections.Map(s, f), cmpU)
  {
    var fs := Collections.Map(s, f);
    if s == [] || cmp(x, s[0]) <= 0 {
      assert Collections.Map([x] + s, f) == [f(x)] + fs;
    } else {
      assert fs[0] == f(s[0]);
      assert fs[1..] == Collections.Map(s[1..], f);
      InsertMap(x, s[1..], cmp, f, cmpU);
      assert Collections.Map([s[0]] + Insert(x, s[1..], cmp), f) == [f(s[0])] + Collections.Map(Insert(x, s[1..], cmp), f);
    }
  }

  lemma {:induction false} SortByMap<T, U>(s: seq<T>, cmp: (T, T) -> int, f: T -> U, cmpU: (U, U) -> int)
    requires forall a, b :: cmpU(f(a), f(b)) == cmp(a, b)
    ensures Collections.Map(SortBy(s, cmp), f) == SortBy(Collections.Map(s, f), cmpU)
  {
    if s != [] {
      var fs := Collections.Map(s, f);
      assert fs[0] == f(s[0]) && fs[1..] == Collections.Map(s[1..], f);
      SortByMap(s[1..], cmp, f, cmpU);
      InsertMap(s[0], SortBy(s[1..], cmp), cmp, f, cmpU);
    }
  }
}
