/**
 * The person page. The person's combined credits are split into acting credits (they name a
 * character) and crew credits (they name a job and no character). The six most-voted acting
 * credits with a poster are "known for"; each tab lists its credits with the movies first, the
 * movies by votes and the rest by date, newest first. The personal info shows the gender as a
 * word and every listed credit shows a year.
 */
module ActorPage {
  import opened Wrappers
  import JsText
  import Collections
  import Sorting
  import Credits
  import Splitting
  import Biography

  /** The test of `credits.filter(c => c.character)`. */
  predicate IsActing(c: Credits.Credit) {
    JsText.Truthy(c.character)
  }

  /** The test of `credits.filter(c => c.job && !c.character)`. */
  predicate IsCrew(c: Credits.Credit) {
    JsText.Truthy(c.job) && !JsText.Truthy(c.character)
  }

  /** `actingCredits`. */
  function ActingCredits(credits: seq<Credits.Credit>): seq<Credits.Credit> {
    Collections.Filter(credits, IsActing)
  }

  /** `crewCredits`. */
  function CrewCredits(credits: seq<Credits.Credit>): seq<Credits.Credit> {
    Collections.Filter(credits, IsCrew)
  }

  /** Two disjoint selections never take more elements than there are. */
  lemma {:induction false} DisjointFiltersFit<T>(s: seq<T>, p: T -> bool, q: T -> bool)
    requires forall x :: !(p(x) && q(x))
    ensures |Collections.Filter(s, p)| + |Collections.Filter(s, q)| <= |s|
  {
    if s != [] {
      DisjointFiltersFit(s[1..], p, q);
    }
  }

  /**
   * The two tabs split the credits: a credit is acting exactly when it names a character, crew
   * exactly when it names a job and no character, never both, and every credit that names a
   * character or a job is on one of them. Together they hold at most all the credits.
   */
  lemma Partition(credits: seq<Credits.Credit>)
    ensures forall c :: c in ActingCredits(credits) <==> c in credits && JsText.Truthy(c.character)
    ensures forall c :: c in CrewCredits(credits) <==>
      c in credits && JsText.Truthy(c.job) && !JsText.Truthy(c.character)
    ensures forall c :: !(c in ActingCredits(credits) && c in CrewCredits(credits))
    ensures forall c :: c in credits && (JsText.Truthy(c.character) || JsText.Truthy(c.job)) ==>
      c in ActingCredits(credits) || c in CrewCredits(credits)
    ensures |ActingCredits(credits)| + |CrewCredits(credits)| <= |credits|
  {
    DisjointFiltersFit(credits, IsActing, IsCrew);
  }

  /** The test of `.filter(c => c.poster_path)`. */
  predicate HasPoster(c: Credits.Credit) {
    JsText.Truthy(c.posterPath)
  }

  /** `(a, b) => (b.vote_count || 0) - (a.vote_count || 0)`: the more votes first. */
  function VoteOrder(a: Credits.Credit, b: Credits.Credit): int {
    Credits.Votes(b) - Credits.Votes(a)
  }

  /** The acting credits with a poster. */
  function PosterCredits(credits: seq<Credits.Credit>): seq<Credits.Credit> {
    Collections.Filter(ActingCredits(credits), HasPoster)
  }

  /** `knownFor`: the acting credits with a poster, sorted by votes, cut to six. */
  function KnownFor(credits: seq<Credits.Credit>): seq<Credits.Credit> {
    JsText.Take(Sorting.SortBy(PosterCredits(credits), VoteOrder), 6)
  }

  lemma VoteOrderConsistent(s: seq<Credits.Credit>)
    ensures Sorting.ConsistentOn(VoteOrder, s)
  {
  }

  /** An acting credit with a poster is a candidate for "known for". */
  lemma PosterCreditsContain(credits: seq<Credits.Credit>, c: Credits.Credit)
    ensures c in PosterCredits(credits) <==> c in credits && IsActing(c) && HasPoster(c)
  {
    var acting := ActingCredits(credits);
    if c in credits && IsActing(c) {
      var i :| 0 <= i < |credits| && credits[i] == c;
      assert c in acting;
      var j :| 0 <= j < |acting| && acting[j] == c;
    }
  }

  /**
   * "Known for" holds six acting credits with a poster, or all of them when there are fewer,
   * and they run from the most votes down, a missing count counting as 0.
   */
  lemma KnownForSelection(credits: seq<Credits.Credit>)
    ensures var r := KnownFor(credits); var n := |PosterCredits(credits)|;
      |r| == if n < 6 then n else 6
    ensures var r := KnownFor(credits);
      forall k :: 0 <= k < |r| ==> r[k] in credits && IsActing(r[k]) && HasPoster(r[k])
    ensures var r := KnownFor(credits);
      forall i, j :: 0 <= i < j < |r| ==> Credits.Votes(r[i]) >= Credits.Votes(r[j])
    ensures multiset(KnownFor(credits)) <= multiset(PosterCredits(credits))
  {
    var cands := PosterCredits(credits);
    var sorted := Sorting.SortBy(cands, VoteOrder);
    var r := KnownFor(credits);
    assert r == sorted[..|r|];
    assert sorted == r + sorted[|r|..];
    assert multiset(sorted) == multiset(r) + multiset(sorted[|r|..]);
    VoteOrderConsistent(cands);
    Sorting.SortedPrefix(cands, VoteOrder, |r|);
    KnownForMembers(credits, cands, r);
  }

  /** Every element of a selection drawn from the candidates is an acting credit with a poster. */
  lemma KnownForMembers(credits: seq<Credits.Credit>, cands: seq<Credits.Credit>, r: seq<Credits.Credit>)
    requires cands == PosterCredits(credits)
    requires forall k :: 0 <= k < |r| ==> r[k] in cands
    ensures forall k :: 0 <= k < |r| ==> r[k] in credits && IsActing(r[k]) && HasPoster(r[k])
  {
    forall k | 0 <= k < |r| ensures r[k] in credits && IsActing(r[k]) && HasPoster(r[k]) {
      PosterCreditsContain(credits, r[k]);
    }
  }

  /** No acting credit with a poster that was left out of "known for" has more votes than any that was kept. */
  lemma KnownForTop(credits: seq<Credits.Credit>, c: Credits.Credit)
    requires c in credits && IsActing(c) && HasPoster(c) && c !in KnownFor(credits)
    ensures forall k :: 0 <= k < |KnownFor(credits)| ==> Credits.Votes(KnownFor(credits)[k]) >= Credits.Votes(c)
  {
    var cands := PosterCredits(credits);
    VoteOrderConsistent(cands);
    Sorting.SortedPrefix(cands, VoteOrder, |KnownFor(credits)|);
    PosterCreditsContain(credits, c);
  }

  /** A movie credit. */
  predicate IsMovie(c: Credits.Credit) {
    c.mediaType == Some("movie")
  }

  /** A tv credit. */
  predicate IsTv(c: Credits.Credit) {
    c.mediaType == Some("tv")
  }

  /**
   * `new Date(c.first_air_date || c.release_date || "").getTime()`. `parse` stands for the date
   * constructor's parsing, `None` for an invalid date, whose time is `NaN`.
   */
  function TimeOf(c: Credits.Credit, parse: string -> Option<int>): Option<int> {
    parse(Credits.DateOf(c))
  }

  /** The comparator of `sortCredits`. A `NaN` difference counts as 0, as `sort` treats it. */
  function CreditCompare(parse: string -> Option<int>, a: Credits.Credit, b: Credits.Credit): int {
    if IsMovie(a) && IsTv(b) then -1
    else if IsTv(a) && IsMovie(b) then 1
    else if IsMovie(a) && IsMovie(b) then Credits.Votes(b) - Credits.Votes(a)
    else
      var ta := TimeOf(a, parse);
      var tb := TimeOf(b, parse);
      if ta.Some? && tb.Some? then tb.value - ta.value else 0
  }

  function CreditOrder(parse: string -> Option<int>): (Credits.Credit, Credits.Credit) -> int {
    (a: Credits.Credit, b: Credits.Credit) => CreditCompare(parse, a, b)
  }

  /** `sortCredits(arr)`: a sorted copy. */
  function SortCredits(arr: seq<Credits.Credit>, parse: string -> Option<int>): seq<Credits.Credit> {
    Sorting.SortBy(arr, CreditOrder(parse))
  }

  /**
   * The credits on which the comparator is a consistent order: movies, and tv entries whose
   * date parses. Every other pair compares by dates that may be `NaN`, which is not transitive.
   */
  predicate Comparable(c: Credits.Credit, parse: string -> Option<int>) {
    IsMovie(c) || (IsTv(c) && TimeOf(c, parse).Some?)
  }

  /** The time of a credit, 0 when it does not parse. */
  function TimeKey(c: Credits.Credit, parse: string -> Option<int>): int {
    var t := TimeOf(c, parse);
    if t.Some? then t.value else 0
  }

  /** The comparator on comparable credits: movies first, then by votes or by time, larger first. */
  lemma CreditCompareMeaning(parse: string -> Option<int>, a: Credits.Credit, b: Credits.Credit)
    requires Comparable(a, parse) && Comparable(b, parse)
    ensures CreditOrder(parse)(a, b) <= 0 <==>
      || (IsMovie(a) && IsTv(b))
      || (IsMovie(a) && IsMovie(b) && Credits.Votes(a) >= Credits.Votes(b))
      || (IsTv(a) && IsTv(b) && TimeKey(a, parse) >= TimeKey(b, parse))
  {
  }

  lemma CreditOrderConsistent(s: seq<Credits.Credit>, parse: string -> Option<int>)
    requires forall k :: 0 <= k < |s| ==> Comparable(s[k], parse)
    ensures Sorting.ConsistentOn(CreditOrder(parse), s)
  {
    forall a, b | a in s && b in s {
      CreditCompareMeaning(parse, a, b);
    }
  }

  /**
   * `sortCredits` returns a permutation of its input. When every credit is a movie or a tv entry
   * with a date that parses, every movie comes before every tv entry, the movies run from the
   * most votes down and the tv entries from the latest date back.
   */
  lemma SortCreditsOrder(arr: seq<Credits.Credit>, parse: string -> Option<int>)
    requires forall k :: 0 <= k < |arr| ==> Comparable(arr[k], parse)
    ensures multiset(SortCredits(arr, parse)) == multiset(arr)
    ensures var r := SortCredits(arr, parse);
      forall i, j :: 0 <= i < j < |r| ==> !(IsTv(r[i]) && IsMovie(r[j]))
    ensures var r := SortCredits(arr, parse);
      forall i, j :: 0 <= i < j < |r| && IsMovie(r[i]) && IsMovie(r[j]) ==> Credits.Votes(r[i]) >= Credits.Votes(r[j])
    ensures var r := SortCredits(arr, parse);
      forall i, j :: 0 <= i < j < |r| && IsTv(r[i]) && IsTv(r[j]) ==> TimeKey(r[i], parse) >= TimeKey(r[j], parse)
  {
    var cmp := CreditOrder(parse);
    var r := SortCredits(arr, parse);
    CreditOrderConsistent(arr, parse);
    Sorting.SortBySorted(arr, cmp);
    Sorting.SortByAll(arr, cmp, (c: Credits.Credit) => Comparable(c, parse));
    forall i, j | 0 <= i < j < |r|
      ensures !(IsTv(r[i]) && IsMovie(r[j]))
      ensures IsMovie(r[i]) && IsMovie(r[j]) ==> Credits.Votes(r[i]) >= Credits.Votes(r[j])
      ensures IsTv(r[i]) && IsTv(r[j]) ==> TimeKey(r[i], parse) >= TimeKey(r[j], parse)
    {
      CreditCompareMeaning(parse, r[i], r[j]);
    }
  }

  /** The credits the selected tab lists. */
  function ListedCredits(actingTab: bool, credits: seq<Credits.Credit>, parse: string -> Option<int>): seq<Credits.Credit> {
    SortCredits(if actingTab then ActingCredits(credits) else CrewCredits(credits), parse)
  }

  /** Each tab lists exactly its own credits, so no credit is listed under both tabs. */
  lemma ListedTabs(credits: seq<Credits.Credit>, parse: string -> Option<int>)
    ensures forall c :: c in ListedCredits(true, credits, parse) <==> c in credits && IsActing(c)
    ensures forall c :: c in ListedCredits(false, credits, parse) <==> c in credits && IsCrew(c)
    ensures forall c :: !(c in ListedCredits(true, credits, parse) && c in ListedCredits(false, credits, parse))
  {
    Partition(credits);
    forall c
      ensures c in ListedCredits(true, credits, parse) <==> c in ActingCredits(credits)
      ensures c in ListedCredits(false, credits, parse) <==> c in CrewCredits(credits)
    {
      Sorting.SortByMembers(ActingCredits(credits), CreditOrder(parse), c);
      Sorting.SortByMembers(CrewCredits(credits), CreditOrder(parse), c);
    }
  }

  /**
   * The gender paragraph: none for a missing or 0 gender, else Female for 1, Male for 2, Unknown.
   * With 0, `person.gender && ...` yields the number 0, which React renders as the text "0" in
   * place of the paragraph; that text is not modelled.
   */
  function GenderLine(gender: Option<int>): (r: Option<string>)
    ensures r.None? <==> gender.None? || gender.value == 0
    ensures r == Some("Female") <==> gender == Some(1)
    ensures r == Some("Male") <==> gender == Some(2)
    ensures r == Some("Unknown") <==> gender.Some? && gender.value !in {0, 1, 2}
  {
    if gender.None? || gender.value == 0 then None
    else if gender.value == 1 then Some("Female")
    else if gender.value == 2 then Some("Male")
    else Some("Unknown")
  }

  /** `c.title || c.name`: the title shown for a credit. */
  function DisplayTitle(c: Credits.Credit): (r: Option<string>)
    ensures JsText.Truthy(c.title) ==> r == c.title
    ensures !JsText.Truthy(c.title) ==> r == c.name
  {
    JsText.Or(c.title, c.name)
  }

  /** The page's own biography section: the whole biography split at `'\n\n'`, nothing when it is empty. */
  function InlineBiography(biography: Option<string>): Option<seq<string>> {
    if JsText.Truthy(biography) then Some(Biography.Paragraphs(biography.value)) else None
  }

  /** The page's section shows what the biography block shows once expanded: the whole text. */
  lemma InlineBiographyExpanded(biography: Option<string>)
    ensures InlineBiography(biography).None? <==> Biography.ViewOf(biography, true).None?
    ensures InlineBiography(biography).Some? ==>
      && InlineBiography(biography).value == Biography.ViewOf(biography, true).value.paragraphs
      && Splitting.Join(InlineBiography(biography).value, "\n\n") == biography.value
  {
    if JsText.Truthy(biography) {
      Biography.ViewText(biography, true);
    }
  }
}
