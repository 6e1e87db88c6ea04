/**
 * The "Known For" row of the person page: the first six acting credits that have a poster, in
 * the order they were given, each as a card with a title, a poster and a link to its page. The
 * row is not rendered when no credit has a poster.
 */
module KnownFor {
  import opened Wrappers
  import JsText
  import Collections
  import Credits
  import ActorPage

  /** The most cards the row shows. */
  const MaxCards: nat := 6

  /** A card: the text under the poster, the poster address and the link target. */
  datatype Card = Card(title: string, poster: string, link: string)

  /** `actingCredits.filter(c => c.poster_path).slice(0, 6)`. */
  function Selected(credits: seq<Credits.Credit>): seq<Credits.Credit> {
    JsText.Take(Collections.Filter(credits, ActorPage.HasPoster), MaxCards)
  }

  /** `c.title ?? c.name ?? 'Untitled'`: only a missing value falls through, an empty one does not. */
  function Title(c: Credits.Credit): (t: string)
    ensures c.title.Some? ==> t == c.title.value
    ensures c.title.None? && c.name.Some? ==> t == c.name.value
    ensures c.title.None? && c.name.None? ==> t == "Untitled"
  {
    match c.title
    case Some(title) => title
    case None => if c.name.Some? then c.name.value else "Untitled"
  }

  /** `c.media_type ?? 'movie'`. */
  function MediaTypeOf(c: Credits.Credit): (m: string)
    ensures c.mediaType.Some? ==> m == c.mediaType.value
    ensures c.mediaType.None? ==> m == "movie"
  {
    if c.mediaType.Some? then c.mediaType.value else "movie"
  }

  /** `` `/${mediaType}/${c.id}` ``. */
  function Link(c: Credits.Credit): string {
    "/" + MediaTypeOf(c) + "/" + JsText.NatToDecimal(c.id)
  }

  /** The poster address, empty when there is no poster. */
  function PosterUrl(c: Credits.Credit): string {
    if ActorPage.HasPoster(c) then "https://image.tmdb.org/t/p/w300" + c.posterPath.value else ""
  }

  function CardOf(c: Credits.Credit): Card {
    Card(Title(c), PosterUrl(c), Link(c))
  }

  /** The row: `None` when nothing was selected, so the section is not rendered. */
  function Row(credits: seq<Credits.Credit>): Option<seq<Card>> {
    var selected := Selected(credits);
    if |selected| > 0 then Some(Collections.Map(selected, CardOf)) else None
  }

  /**
   * The selection is the start of the credits with a poster, in their given order: six of them,
   * or all when there are fewer. When every credit has a poster it is simply the first six.
   */
  lemma SelectedPrefix(credits: seq<Credits.Credit>)
    ensures var r := Selected(credits); var withPoster := Collections.Filter(credits, ActorPage.HasPoster);
      r <= withPoster && |r| == if |withPoster| < MaxCards then |withPoster| else MaxCards
    ensures var r := Selected(credits);
      forall k :: 0 <= k < |r| ==> r[k] in credits && ActorPage.HasPoster(r[k])
    ensures (forall k :: 0 <= k < |credits| ==> ActorPage.HasPoster(credits[k])) ==>
      Selected(credits) == credits[..if |credits| < MaxCards then |credits| else MaxCards]
  {
    var withPoster := Collections.Filter(credits, ActorPage.HasPoster);
    var r := Selected(credits);
    assert r == withPoster[..|r|];
    if forall k :: 0 <= k < |credits| ==> ActorPage.HasPoster(credits[k]) {
      Collections.FilterAll(credits, ActorPage.HasPoster);
    }
  }

  /** The row is rendered exactly when some credit has a poster, and then holds one card per selected credit. */
  lemma RowShown(credits: seq<Credits.Credit>)
    ensures Row(credits).Some? <==> exists k :: 0 <= k < |credits| && ActorPage.HasPoster(credits[k])
    ensures Row(credits).Some? ==> |Row(credits).value| == |Selected(credits)|
  {
    var withPoster := Collections.Filter(credits, ActorPage.HasPoster);
    if k :| 0 <= k < |credits| && ActorPage.HasPoster(credits[k]) {
      assert credits[k] in withPoster;
    }
  }

  /** A card's link reads back as its media type and, in decimal digits, its id. */
  lemma LinkNamesCredit(c: Credits.Credit)
    ensures var link := Link(c); var m := MediaTypeOf(c);
      && link[..|m| + 2] == "/" + m + "/"
      && (forall i :: |m| + 2 <= i < |link| ==> JsText.IsDigit(link[i]))
      && JsText.DecimalValue(link[|m| + 2..]) == c.id
  {
    var m := MediaTypeOf(c);
    var digits := JsText.NatToDecimal(c.id);
    var link := Link(c);
    assert link == ("/" + m + "/") + digits;
    assert link[|m| + 2..] == digits;
    JsText.DecimalRoundTrip(c.id);
  }
}
