/**
 * The filmography of a person page: the credits of the selected tab (acting or crew), newest
 * first, grouped under the year they came out, the years listed with the undated group first
 * and then from the latest year back.
 */
module Filmography {
  import opened Wrappers
  import JsText
  import Collections
  import Sorting
  import Credits

  /** The two tabs of the filmography. */
  datatype Tab = Acting | Crew

  /** The credits the selected tab lists. */
  function CreditsOf(tab: Tab, acting: seq<Credits.Credit>, crew: seq<Credits.Credit>): seq<Credits.Credit> {
    if tab == Acting then acting else crew
  }

  /**
   * `parseTime(c)`: the timestamp of `first_air_date || release_date || ''`, and 0 when that is
   * empty or does not parse. `parse` stands for `Date.parse`, `None` for its `NaN`.
   */
  function ParseTime(c: Credits.Credit, parse: string -> Option<int>): (t: int)
    ensures Credits.DateOf(c) == "" ==> t == 0
    ensures Credits.DateOf(c) != "" && parse(Credits.DateOf(c)).None? ==> t == 0
    ensures Credits.DateOf(c) != "" && parse(Credits.DateOf(c)).Some? ==> t == parse(Credits.DateOf(c)).value
  {
    var s := Credits.DateOf(c);
    var t := if s != "" then parse(s) else Some(0);
    if t.Some? then t.value else 0
  }

  /** `(a, b) => parseTime(b) - parseTime(a)`: the later credit first. */
  function TimeOrder(parse: string -> Option<int>): (Credits.Credit, Credits.Credit) -> int {
    (a: Credits.Credit, b: Credits.Credit) => ParseTime(b, parse) - ParseTime(a, parse)
  }

  /** A copy of the credits, sorted newest first. */
  function SortedByTime(credits: seq<Credits.Credit>, parse: string -> Option<int>): seq<Credits.Credit> {
    Sorting.SortBy(credits, TimeOrder(parse))
  }

  /** The test of the `for` loop's grouping: the credit's year is `y`. */
  function InYear(y: string): Credits.Credit -> bool {
    (c: Credits.Credit) => Credits.YearOf(c) == y
  }

  /** `grouped[year].push(item)`, the group created empty first when missing. */
  function Push(grouped: map<string, seq<Credits.Credit>>, item: Credits.Credit): map<string, seq<Credits.Credit>> {
    var y := Credits.YearOf(item);
    grouped[y := (if y in grouped then grouped[y] else []) + [item]]
  }

  /** The groups after the credits `list`, in the loop's order. */
  function GroupsOf(list: seq<Credits.Credit>): map<string, seq<Credits.Credit>> {
    if list == [] then map[] else Push(GroupsOf(list[..|list| - 1]), list[|list| - 1])
  }

  /** The years of the credits, in the order first seen: the keys in insertion order. */
  function YearsSeen(list: seq<Credits.Credit>): seq<string> {
    Collections.Dedup(Collections.Map(list, Credits.YearOf))
  }

  /**
   * The comparator of the years: `''` before anything, then `Number(b) - Number(a)`. A
   * difference with `NaN` in it counts as 0, as `sort` treats it.
   */
  function YearOrder(a: string, b: string): int {
    if a == "" then -1
    else if b == "" then 1
    else
      var na := JsText.NumberOf(a);
      var nb := JsText.NumberOf(b);
      if na.Some? && nb.Some? then nb.value - na.value else 0
  }

  /** `filmographyByYear`: the groups of the sorted copy, and its years in display order. */
  function ByYear(credits: seq<Credits.Credit>, parse: string -> Option<int>): (map<string, seq<Credits.Credit>>, seq<string>) {
    var list := SortedByTime(credits, parse);
    (GroupsOf(list), Sorting.SortBy(YearsSeen(list), YearOrder))
  }

  /** One more credit: its year's group grows by it at the end, and a new year joins the keys. */
  lemma GroupsSnoc(list: seq<Credits.Credit>, i: nat)
    requires i < |list|
    ensures GroupsOf(list[..i + 1]) == Push(GroupsOf(list[..i]), list[i])
    ensures var seen := YearsSeen(list[..i]); var y := Credits.YearOf(list[i]);
      YearsSeen(list[..i + 1]) == if y in seen then seen else seen + [y]
  {
    assert list[..i + 1][..i] == list[..i];
    var ys := Collections.Map(list[..i], Credits.YearOf);
    assert list[..i + 1] == list[..i] + [list[i]];
    Collections.MapSnoc(list[..i], list[i], Credits.YearOf);
    Collections.DedupSnoc(ys, Credits.YearOf(list[i]));
  }

  /** A year has a group exactly when some credit has it. */
  lemma {:induction false} GroupKeys(list: seq<Credits.Credit>, y: string)
    ensures y in GroupsOf(list) <==> y in Collections.Map(list, Credits.YearOf)
  {
    if list != [] {
      var init := list[..|list| - 1];
      var c := list[|list| - 1];
      GroupKeys(init, y);
      var m := Collections.Map(init, Credits.YearOf);
      PushAt(GroupsOf(init), c, y);
      Collections.InitLast(list);
      Collections.MapSnoc(init, c, Credits.YearOf);
      assert y in m + [Credits.YearOf(c)] <==> y in m || y == Credits.YearOf(c);
    }
  }

  /**
   * `filmographyByYear`: a sorted copy of the tab's credits, grouped by year, and the sorted
   * years. The keys are kept in insertion order; see the README for the order `Object.keys`
   * really uses, which the sort makes moot.
   */
  method FilmographyByYear(tab: Tab, acting: seq<Credits.Credit>, crew: seq<Credits.Credit>,
                           parse: string -> Option<int>)
    returns (grouped: map<string, seq<Credits.Credit>>, years: seq<string>)
    ensures (grouped, years) == ByYear(CreditsOf(tab, acting, crew), parse)
  {
    var list := Sorting.SortBy(CreditsOf(tab, acting, crew), TimeOrder(parse));
    var keys;
    grouped, keys := GroupByYear(list);
    years := Sorting.SortBy(keys, YearOrder);
  }

  /** The `for` loop: each credit pushed onto its year's group, created when first needed. */
  method GroupByYear(list: seq<Credits.Credit>) returns (grouped: map<string, seq<Credits.Credit>>, keys: seq<string>)
    ensures grouped == GroupsOf(list) && keys == YearsSeen(list)
  {
    grouped := map[];
    keys := [];
    for i := 0 to |list|
      invariant grouped == GroupsOf(list[..i])
      invariant keys == YearsSeen(list[..i])
    {
      var item := list[i];
      GroupsSnoc(list, i);
      GroupKeys(list[..i], Credits.YearOf(item));
      Collections.DedupContains(Collections.Map(list[..i], Credits.YearOf), Credits.YearOf(item));
      grouped, keys := PushToYear(grouped, keys, item);
    }
    assert list[..|list|] == list;
  }

  /**
   * One turn of the loop: the group of the credit's year is created and its year added to the
   * keys when missing, then the credit is pushed onto it.
   */
  method PushToYear(grouped: map<string, seq<Credits.Credit>>, keys: seq<string>, item: Credits.Credit)
    returns (grouped': map<string, seq<Credits.Credit>>, keys': seq<string>)
    requires Credits.YearOf(item) in grouped <==> Credits.YearOf(item) in keys
    ensures grouped' == Push(grouped, item)
    ensures var y := Credits.YearOf(item);
      keys' == if y in keys then keys else keys + [y]
  {
    var year := Credits.YearOf(item);
    grouped', keys' := grouped, keys;
    if year !in grouped' {
      grouped' := grouped'[year := []];
      keys' := keys' + [year];
    }
    grouped' := grouped'[year := grouped'[year] + [item]];
  }

  // ---------------------------------------------------------------------------------------
  // Proofs

  /** Each group is the sorted list filtered to its year, so it keeps the sorted order. */
  lemma {:induction false} GroupsAreFilters(list: seq<Credits.Credit>, y: string)
    ensures y in GroupsOf(list) ==> GroupsOf(list)[y] == Collections.Filter(list, InYear(y))
    ensures y !in GroupsOf(list) ==> Collections.Filter(list, InYear(y)) == []
  {
    if list != [] {
      var init := list[..|list| - 1];
      var c := list[|list| - 1];
      GroupsAreFilters(init, y);
      Collections.FilterSnoc(list, InYear(y));
      PushAt(GroupsOf(init), c, y);
    }
  }

  /** Pushing a credit changes only the group of its own year, which gains it at the end. */
  lemma PushAt(grouped: map<string, seq<Credits.Credit>>, c: Credits.Credit, y: string)
    ensures Credits.YearOf(c) == y ==>
      y in Push(grouped, c) && Push(grouped, c)[y] == (if y in grouped then grouped[y] else []) + [c]
    ensures Credits.YearOf(c) != y ==>
      (y in Push(grouped, c) <==> y in grouped) && (y in grouped ==> Push(grouped, c)[y] == grouped[y])
  {
  }

  /** Every credit lands in its year's group and in no other. */
  lemma CreditInOneGroup(list: seq<Credits.Credit>, i: nat, y: string)
    requires i < |list|
    ensures Credits.YearOf(list[i]) in GroupsOf(list) && list[i] in GroupsOf(list)[Credits.YearOf(list[i])]
    ensures y in GroupsOf(list) && list[i] in GroupsOf(list)[y] ==> y == Credits.YearOf(list[i])
  {
    var yi := Credits.YearOf(list[i]);
    GroupsAreFilters(list, yi);
    GroupsAreFilters(list, y);
  }

  /** Descending by `key`, from first to last. */
  ghost predicate Descending<T>(s: seq<T>, key: T -> int) {
    forall i, j :: 0 <= i < j < |s| ==> key(s[i]) >= key(s[j])
  }

  /** The tail of a descending list is descending. */
  lemma DescendingTail<T>(s: seq<T>, key: T -> int)
    requires s != [] && Descending(s, key)
    ensures Descending(s[1..], key)
  {
    var rest := s[1..];
    forall i, j | 0 <= i < j < |rest| ensures key(rest[i]) >= key(rest[j]) {
      assert rest[i] == s[i + 1] && rest[j] == s[j + 1];
    }
  }

  /** A head no smaller than everything after it extends a descending list. */
  lemma DescendingCons<T>(x: T, s: seq<T>, key: T -> int)
    requires Descending(s, key)
    requires forall k :: 0 <= k < |s| ==> key(x) >= key(s[k])
    ensures Descending([x] + s, key)
  {
    var r := [x] + s;
    forall i, j | 0 <= i < j < |r| ensures key(r[i]) >= key(r[j]) {
      assert r[j] == s[j - 1];
      if i > 0 {
        assert r[i] == s[i - 1];
      }
    }
  }

  /** Filtering keeps a descending list descending. */
  lemma {:induction false} FilterDescending<T>(s: seq<T>, p: T -> bool, key: T -> int)
    requires Descending(s, key)
    ensures Descending(Collections.Filter(s, p), key)
  {
    if s != [] {
      var rest := s[1..];
      DescendingTail(s, key);
      FilterDescending(rest, p, key);
      var fr := Collections.Filter(rest, p);
      if p(s[0]) {
        forall k | 0 <= k < |fr| ensures key(s[0]) >= key(fr[k]) {
          var m :| 0 <= m < |rest| && rest[m] == fr[k];
          assert s[m + 1] == rest[m];
        }
        DescendingCons(s[0], fr, key);
        assert Collections.Filter(s, p) == [s[0]] + fr;
      } else {
        assert Collections.Filter(s, p) == [] + fr;
      }
    }
  }

  /** The timestamp of a credit, as a function. */
  function TimeOf(parse: string -> Option<int>): Credits.Credit -> int {
    (c: Credits.Credit) => ParseTime(c, parse)
  }

  /** The sorted copy: a permutation of the credits, newest first. */
  lemma SortedNewestFirst(credits: seq<Credits.Credit>, parse: string -> Option<int>)
    ensures multiset(SortedByTime(credits, parse)) == multiset(credits)
    ensures Descending(SortedByTime(credits, parse), TimeOf(parse))
  {
    var cmp := TimeOrder(parse);
    var r := SortedByTime(credits, parse);
    assert Sorting.ConsistentOn(cmp, credits) by {
      forall a, b | a in credits && b in credits ensures cmp(a, b) <= 0 || cmp(b, a) <= 0 {
      }
      forall a, b, c | a in credits && b in credits && c in credits && cmp(a, b) <= 0 && cmp(b, c) <= 0
        ensures cmp(a, c) <= 0
      {
      }
    }
    Sorting.SortBySorted(credits, cmp);
    forall i, j | 0 <= i < j < |r| ensures TimeOf(parse)(r[i]) >= TimeOf(parse)(r[j]) {
      assert cmp(r[i], r[j]) <= 0;
    }
  }

  /** Every group of the filmography is newest first. */
  lemma GroupsNewestFirst(credits: seq<Credits.Credit>, parse: string -> Option<int>, y: string)
    requires y in ByYear(credits, parse).0
    ensures Descending(ByYear(credits, parse).0[y], TimeOf(parse))
  {
    var list := SortedByTime(credits, parse);
    SortedNewestFirst(credits, parse);
    GroupsAreFilters(list, y);
    FilterDescending(list, InYear(y), TimeOf(parse));
  }

  /** A year as a release date gives it: empty, or four decimal digits. */
  predicate YearLike(y: string) {
    y == "" || (|y| == 4 && forall i :: 0 <= i < 4 ==> JsText.IsDigit(y[i]))
  }

  /** Digit strings of the same length with the same value are the same string. */
  lemma {:induction false} DecimalInjective(a: string, b: string)
    requires |a| == |b|
    requires forall i :: 0 <= i < |a| ==> JsText.IsDigit(a[i])
    requires forall i :: 0 <= i < |b| ==> JsText.IsDigit(b[i])
    requires JsText.DecimalValue(a) == JsText.DecimalValue(b)
    ensures a == b
  {
    if a != [] {
      var a', b' := a[..|a| - 1], b[..|b| - 1];
      assert JsText.IsDigit(a[|a| - 1]) && JsText.IsDigit(b[|b| - 1]);
      DecimalInjective(a', b');
      assert a == a' + [a[|a| - 1]] && b == b' + [b[|b| - 1]];
    }
  }

  /** On such years the comparator is consistent, so the sort orders them. */
  lemma YearOrderConsistent(ys: seq<string>)
    requires forall i :: 0 <= i < |ys| ==> YearLike(ys[i])
    ensures Sorting.ConsistentOn(YearOrder, ys)
  {
    forall a, b | a in ys && b in ys ensures YearOrder(a, b) <= 0 || YearOrder(b, a) <= 0 {
    }
    forall a, b, c | a in ys && b in ys && c in ys && YearOrder(a, b) <= 0 && YearOrder(b, c) <= 0
      ensures YearOrder(a, c) <= 0
    {
    }
  }

  /** `Number(y)` of a year, with `NaN`, which years never give, read as 0. */
  function YearNumber(y: string): int {
    var n := JsText.NumberOf(y);
    if n.Some? then n.value else 0
  }

  /** The display order of the years: each once, `''` only first, then strictly from the latest back. */
  ghost predicate DisplayOrder(years: seq<string>) {
    && Collections.NoDup(years)
    && (forall i :: 0 < i < |years| ==> years[i] != "")
    && (forall i, j :: 0 <= i < j < |years| && years[i] != "" ==> YearNumber(years[i]) > YearNumber(years[j]))
  }

  /** Two different years the comparator accepts in this order are in display order. */
  lemma YearPair(a: string, b: string)
    requires YearLike(a) && YearLike(b) && a != b && YearOrder(a, b) <= 0
    ensures b != "" && (a != "" ==> YearNumber(a) > YearNumber(b))
  {
    if a != "" && YearNumber(a) == YearNumber(b) {
      DecimalInjective(a, b);
    }
  }

  /** Sorting distinct years with the comparator puts them in display order. */
  lemma SortedYears(seen: seq<string>)
    requires Collections.NoDup(seen)
    requires forall i :: 0 <= i < |seen| ==> YearLike(seen[i])
    ensures DisplayOrder(Sorting.SortBy(seen, YearOrder))
  {
    var years := Sorting.SortBy(seen, YearOrder);
    Collections.NoDupPermutation(seen, years);
    YearOrderConsistent(seen);
    Sorting.SortBySorted(seen, YearOrder);
    Sorting.SortByAll(seen, YearOrder, YearLike);
    InDisplayOrder(years);
  }

  /** Distinct years in the comparator's order are in display order. */
  lemma InDisplayOrder(years: seq<string>)
    requires Collections.NoDup(years) && Sorting.Sorted(years, YearOrder)
    requires forall i :: 0 <= i < |years| ==> YearLike(years[i])
    ensures DisplayOrder(years)
  {
    forall i, j | 0 <= i < j < |years| ensures years[j] != "" && (years[i] != "" ==> YearNumber(years[i]) > YearNumber(years[j])) {
      YearPair(years[i], years[j]);
    }
    forall i | 0 < i < |years| ensures years[i] != "" {
      assert years[0] != years[i];
    }
  }

  /**
   * The years of the filmography: exactly the years that have a group, each once, the undated
   * group `''` first, then the years from the latest back.
   */
  lemma YearsInOrder(credits: seq<Credits.Credit>, parse: string -> Option<int>)
    requires forall i :: 0 <= i < |credits| ==> YearLike(Credits.YearOf(credits[i]))
    ensures DisplayOrder(ByYear(credits, parse).1)
    ensures forall y :: y in ByYear(credits, parse).1 <==> y in ByYear(credits, parse).0
  {
    var list := SortedByTime(credits, parse);
    var seen := YearsSeen(list);
    var years := ByYear(credits, parse).1;
    assert years == Sorting.SortBy(seen, YearOrder);
    var ys := Collections.Map(list, Credits.YearOf);
    forall i | 0 <= i < |seen| ensures YearLike(seen[i]) {
      Collections.DedupContains(ys, seen[i]);
      var k :| 0 <= k < |ys| && ys[k] == seen[i];
      Sorting.SortByMembers(credits, TimeOrder(parse), list[k]);
      var m :| 0 <= m < |credits| && credits[m] == list[k];
    }
    Collections.DedupNoDup(ys);
    SortedYears(seen);
    forall y ensures y in years <==> y in GroupsOf(list) {
      Sorting.SortByMembers(seen, YearOrder, y);
      GroupKeys(list, y);
      Collections.DedupContains(ys, y);
    }
  }

  /** No credits: no years, and the page shows "No credits found.". */
  lemma NoCreditsNoYears(credits: seq<Credits.Credit>, parse: string -> Option<int>)
    ensures ByYear(credits, parse).1 == [] <==> credits == []
  {
    var list := SortedByTime(credits, parse);
    if credits != [] {
      assert Credits.YearOf(list[0]) in Collections.Map(list, Credits.YearOf);
      Collections.DedupContains(Collections.Map(list, Credits.YearOf), Credits.YearOf(list[0]));
    }
  }
}
