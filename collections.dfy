/** Filtering, de-duplication and counting over sequences, as `Array.prototype.filter`,
    `includes`-guarded `push` and `.length` use them. */
module Collections {

  /** `s.filter(p)`: the elements satisfying `p`, in their original order. */
  function Filter<T>(s: seq<T>, p: T -> bool): (r: seq<T>)
    ensures |r| <= |s|
    ensures forall i :: 0 <= i < |r| ==> r[i] in s && p(r[i])
    ensures forall i :: 0 <= i < |s| && p(s[i]) ==> s[i] in r
  {
    if s == [] then [] else (if p(s[0]) then [s[0]] else []) + Filter(s[1..], p)
  }

  /** Filtering distributes over concatenation. */
  lemma {:induction false} FilterAppend<T>(a: seq<T>, b: seq<T>, p: T -> bool)
    ensures Filter(a + b, p) == Filter(a, p) + Filter(b, p)
  {
    if a == [] {
      assert a + b == b;
    } else {
      assert (a + b)[1..] == a[1..] + b;
      FilterAppend(a[1..], b, p);
    }
  }

  /** Filtering a list is filtering all but its last element, then keeping the last if it passes. */
  lemma FilterSnoc<T>(s: seq<T>, p: T -> bool)
    requires s != []
    ensures Filter(s, p) == Filter(s[..|s| - 1], p) + if p(s[|s| - 1]) then [s[|s| - 1]] else []
  {
    var init, last := s[..|s| - 1], s[|s| - 1];
    InitLast(s);
    FilterAppend(init, [last], p);
    FilterSingle(last, p);
  }

  /** A one-element list keeps its element exactly when it passes. */
  lemma FilterSingle<T>(x: T, p: T -> bool)
    ensures Filter([x], p) == if p(x) then [x] else []
  {
    assert [x][1..] == [];
  }

  /** Filtering with a predicate every element meets changes nothing. */
  lemma {:induction false} FilterAll<T>(s: seq<T>, p: T -> bool)
    requires forall i :: 0 <= i < |s| ==> p(s[i])
    ensures Filter(s, p) == s
  {
    if s != [] {
      FilterAll(s[1..], p);
    }
  }

  /** The number of elements satisfying `p`. */
  function Count<T>(s: seq<T>, p: T -> bool): nat {
    |Filter(s, p)|
  }

  /** No element occurs twice. */
  predicate NoDup<T(==)>(s: seq<T>) {
    forall i, j :: 0 <= i < j < |s| ==> s[i] != s[j]
  }

  /** Having no duplicates is a property of the multiset of elements. */
  lemma {:induction false} NoDupMultiset<T>(s: seq<T>)
    ensures NoDup(s) <==> forall x :: multiset(s)[x] <= 1
  {
    if s != [] {
      var t := s[1..];
      NoDupMultiset(t);
      assert s == [s[0]] + t;
      assert multiset(s) == multiset{s[0]} + multiset(t);
      if NoDup(s) {
        assert NoDup(t) by {
          forall i, j | 0 <= i < j < |t| ensures t[i] != t[j] {
            assert t[i] == s[i + 1] && t[j] == s[j + 1];
          }
        }
        assert s[0] !in t by {
          forall i | 0 <= i < |t| ensures t[i] != s[0] {
            assert t[i] == s[i + 1];
          }
        }
        forall x ensures multiset(s)[x] <= 1 {
          if x == s[0] {
            assert multiset(t)[x] == 0;
          }
        }
      } else {
        var i, j :| 0 <= i < j < |s| && s[i] == s[j];
        if i == 0 {
          assert s[j] == t[j - 1];
          assert multiset(t)[s[0]] >= 1;
          assert multiset(s)[s[0]] >= 2;
        } else {
          assert t[i - 1] == s[i] && t[j - 1] == s[j];
          assert !NoDup(t);
          var x :| multiset(t)[x] > 1;
          assert multiset(s)[x] > 1;
        }
      }
    }
  }

  /** A permutation of a sequence without duplicates has none either. */
  lemma NoDupPermutation<T>(s: seq<T>, t: seq<T>)
    requires NoDup(s) && multiset(s) == multiset(t)
    ensures NoDup(t)
  {
    NoDupMultiset(s);
    NoDupMultiset(t);
  }

  /**
   * Elements kept in the order of their first occurrence, each once: what a loop that
   * pushes an element only when `!list.includes(x)` builds.
   */
  function Dedup<T(==)>(s: seq<T>): (r: seq<T>)
    ensures |r| <= |s|
  {
    if s == [] then []
    else
      var d := Dedup(s[..|s| - 1]);
      if s[|s| - 1] in d then d else d + [s[|s| - 1]]
  }

  /** No element is kept twice. */
  lemma {:induction false} DedupNoDup<T>(s: seq<T>)
    ensures NoDup(Dedup(s))
  {
    if s != [] {
      var d := Dedup(s[..|s| - 1]);
      DedupNoDup(s[..|s| - 1]);
      if s[|s| - 1] !in d {
        var r := d + [s[|s| - 1]];
        forall i, j | 0 <= i < j < |r| ensures r[i] != r[j] {
          if j == |d| {
            assert r[i] == d[i];
          } else {
            assert r[i] == d[i] && r[j] == d[j];
          }
        }
      }
    }
  }

  /** An element is kept exactly when it occurs in the input. */
  lemma {:induction false} DedupContains<T>(s: seq<T>, x: T)
    ensures x in Dedup(s) <==> x in s
  {
    if s != [] {
      var init := s[..|s| - 1];
      DedupContains(init, x);
      assert s == init + [s[|s| - 1]];
    }
  }

  /** What one more `includes`-guarded `push` does to the de-duplicated list. */
  lemma DedupSnoc<T>(s: seq<T>, x: T)
    ensures Dedup(s + [x]) == if x in Dedup(s) then Dedup(s) else Dedup(s) + [x]
  {
    assert (s + [x])[..|s + [x]| - 1] == s;
  }

  /** The index of the first occurrence of `x` in `s`. */
  function FirstIndex<T(==)>(s: seq<T>, x: T): (k: nat)
    requires x in s
    ensures k < |s| && s[k] == x
    ensures forall j :: 0 <= j < k ==> s[j] != x
  {
    if s[0] == x then 0 else 1 + FirstIndex(s[1..], x)
  }

  /** `Dedup` keeps the order of first occurrence. */
  lemma {:induction false} DedupFirstSeenOrder<T>(s: seq<T>, i: nat, j: nat)
    requires i < j < |Dedup(s)|
    ensures Dedup(s)[i] in s && Dedup(s)[j] in s
    ensures FirstIndex(s, Dedup(s)[i]) < FirstIndex(s, Dedup(s)[j])
  {
    var init := s[..|s| - 1];
    var x := s[|s| - 1];
    assert s == init + [x];
    var d := Dedup(init);
    DedupContains(init, d[i]);
    DedupContains(init, x);
    if j < |d| {
      DedupContains(init, d[j]);
      DedupFirstSeenOrder(init, i, j);
      FirstIndexPrefix(init, x, d[i]);
      FirstIndexPrefix(init, x, d[j]);
    } else {
      // the last element of `s` was new: it was pushed last
      assert x !in d && Dedup(s) == d + [x] && j == |d|;
      assert x !in init;
      FirstIndexPrefix(init, x, d[i]);
      assert FirstIndex(s, x) == |init| by {
        assert forall k :: 0 <= k < |init| ==> s[k] == init[k] && init[k] != x;
        FirstIndexUnique(s, x, |init|);
      }
    }
  }

  /** For an element of `init`, `FirstIndex` is the same in `init + [x]`. */
  lemma FirstIndexPrefix<T>(init: seq<T>, x: T, y: T)
    requires y in init
    ensures FirstIndex(init + [x], y) == FirstIndex(init, y)
  {
    var k := FirstIndex(init, y);
    assert (init + [x])[k] == y;
    assert forall j :: 0 <= j < k ==> (init + [x])[j] == init[j];
    FirstIndexUnique(init + [x], y, k);
  }

  /** A position holding `x` with no earlier `x` is the first index of `x`. */
  lemma {:induction false} FirstIndexUnique<T>(s: seq<T>, x: T, k: nat)
    requires k < |s| && s[k] == x
    requires forall j :: 0 <= j < k ==> s[j] != x
    ensures FirstIndex(s, x) == k
  {
    if k > 0 {
      assert s[1..][k - 1] == x;
      FirstIndexUnique(s[1..], x, k - 1);
    }
  }

  /** `s.map(f)`. */
  function Map<T, U>(s: seq<T>, f: T -> U): (r: seq<U>)
    ensures |r| == |s|
    ensures forall i :: 0 <= i < |s| ==> r[i] == f(s[i])
  {
    if s == [] then [] else [f(s[0])] + Map(s[1..], f)
  }

  /** Mapping a sequence with one more element at the end. */
  lemma MapSnoc<T, U>(s: seq<T>, x: T, f: T -> U)
    ensures Map(s + [x], f) == Map(s, f) + [f(x)]
  {
    var r := Map(s + [x], f);
    assert forall i :: 0 <= i < |s| ==> r[i] == f((s + [x])[i]) == f(s[i]);
  }

  /** A non-empty list is all but its last element, then its last. */
  lemma InitLast<T>(s: seq<T>)
    requires s != []
    ensures s[..|s| - 1] + [s[|s| - 1]] == s
  {
  }

  /** The first `i + 1` elements are the first `i` and then element `i`. */
  lemma TakeSnoc<T>(s: seq<T>, i: nat)
    requires i < |s|
    ensures s[..i] + [s[i]] == s[..i + 1]
  {
  }

  /** The sum of a sequence of naturals. */
  function Sum(s: seq<nat>): nat {
    if s == [] then 0 else s[0] + Sum(s[1..])
  }

  /** How often the elements of `keys` occur in `s`, added up. */
  function Multiplicities<T(==)>(keys: seq<T>, s: seq<T>): nat {
    if keys == [] then 0 else multiset(s)[keys[0]] + Multiplicities(keys[1..], s)
  }

  lemma {:induction false} MultiplicitiesEmpty<T>(keys: seq<T>)
    ensures Multiplicities(keys, []) == 0
  {
    if keys != [] {
      MultiplicitiesEmpty(keys[1..]);
    }
  }

  /** One more element adds one to the total when it is among the keys, and nothing otherwise. */
  lemma {:induction false} MultiplicitiesSnoc<T>(keys: seq<T>, s: seq<T>, x: T)
    requires NoDup(keys)
    ensures Multiplicities(keys, s + [x]) == Multiplicities(keys, s) + if x in keys then 1 else 0
  {
    if keys != [] {
      var rest := keys[1..];
      assert NoDup(rest) by {
        forall i, j | 0 <= i < j < |rest| ensures rest[i] != rest[j] {
          assert rest[i] == keys[i + 1] && rest[j] == keys[j + 1];
        }
      }
      MultiplicitiesSnoc(rest, s, x);
      assert multiset(s + [x]) == multiset(s) + multiset{x};
      assert x in keys <==> x == keys[0] || x in rest;
      if x == keys[0] {
        assert x !in rest by {
          forall i | 0 <= i < |rest| ensures rest[i] != x {
            assert rest[i] == keys[i + 1];
          }
        }
      }
    }
  }

  /**
   * Distinct keys account for at most every element once, and for exactly every element
   * when each element is one of the keys.
   */
  lemma {:induction false} MultiplicitiesBound<T>(keys: seq<T>, s: seq<T>)
    requires NoDup(keys)
    ensures Multiplicities(keys, s) <= |s|
    ensures (forall i :: 0 <= i < |s| ==> s[i] in keys) ==> Multiplicities(keys, s) == |s|
  {
    if s == [] {
      MultiplicitiesEmpty(keys);
    } else {
      var init := s[..|s| - 1];
      assert s == init + [s[|s| - 1]];
      MultiplicitiesBound(keys, init);
      MultiplicitiesSnoc(keys, init, s[|s| - 1]);
      assert forall i :: 0 <= i < |init| ==> init[i] == s[i];
    }
  }
}
