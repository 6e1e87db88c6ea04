/**
 * A film credit as the pages receive it from the movie database: a cast or crew entry of a
 * person, for a movie or a tv show. Every field the pages may find missing is an `Option`;
 * an id is a whole number.
 */
module Credits {
  import opened Wrappers
  import JsText

  datatype Credit = Credit(
    id: nat,
    name: Option<string>,
    title: Option<string>,
    character: Option<string>,
    job: Option<string>,
    department: Option<string>,
    profilePath: Option<string>,
    posterPath: Option<string>,
    voteCount: Option<int>,
    mediaType: Option<string>,
    releaseDate: Option<string>,
    firstAirDate: Option<string>)

  /**
   * The year shown for a credit: the first four characters of `release_date || first_air_date
   * || ''`, so the release date wins whenever it is not empty.
   */
  function YearOf(c: Credit): (y: string)
    ensures |y| <= 4
    ensures JsText.Truthy(c.releaseDate) ==> y == JsText.Take(c.releaseDate.value, 4)
    ensures !JsText.Truthy(c.releaseDate) && JsText.Truthy(c.firstAirDate) ==>
      y == JsText.Take(c.firstAirDate.value, 4)
    ensures !JsText.Truthy(c.releaseDate) && !JsText.Truthy(c.firstAirDate) ==> y == ""
  {
    JsText.Slice(JsText.OrElse(JsText.Or(c.releaseDate, c.firstAirDate), ""), 0, 4)
  }

  /**
   * The date a credit is ordered by: `first_air_date || release_date || ''`, the opposite
   * precedence to `YearOf`.
   */
  function DateOf(c: Credit): (s: string)
    ensures JsText.Truthy(c.firstAirDate) ==> s == c.firstAirDate.value
    ensures !JsText.Truthy(c.firstAirDate) && JsText.Truthy(c.releaseDate) ==> s == c.releaseDate.value
    ensures !JsText.Truthy(c.firstAirDate) && !JsText.Truthy(c.releaseDate) ==> s == ""
  {
    JsText.OrElse(JsText.Or(c.firstAirDate, c.releaseDate), "")
  }

  /** `c.vote_count || 0`. */
  function Votes(c: Credit): (v: int)
    ensures c.voteCount.None? ==> v == 0
    ensures c.voteCount.Some? ==> v == c.voteCount.value
  {
    if c.voteCount.None? || c.voteCount.value == 0 then 0 else c.voteCount.value
  }

  /** When the two dates differ, the year and the ordering date come from different fields. */
  lemma YearAndDatePrecedence(c: Credit)
    requires JsText.Truthy(c.releaseDate) && JsText.Truthy(c.firstAirDate)
    ensures YearOf(c) == JsText.Take(c.releaseDate.value, 4)
    ensures DateOf(c) == c.firstAirDate.value
  {
  }
}
