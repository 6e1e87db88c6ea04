/**
 * The search page. It reads the query from the address, fetches the first page of results for
 * it, filters them by media type and shows them ten at a time, with the pager below when there
 * is more than one page. Changing the query or the filter brings the local page back to 1.
 */
module SearchPage {
  import opened Wrappers
  import JsText
  import Collections
  import Pagination

  /** `LOCAL_PAGE_SIZE`: items per local page. */
  const LocalPageSize: nat := 10

  /** The message shown when the fetch fails. */
  const FetchError: string := "Failed to fetch search results."

  /** The `media_type` of a search result. */
  datatype MediaKind = MovieKind | TvKind | PersonKind

  /** The filter tabs: `'all'` or one media type. */
  datatype Filter = All | Only(kind: MediaKind)

  /** A search result: only its id and media type matter to the page. */
  datatype SearchResult = SearchResult(id: nat, mediaType: MediaKind)

  /** What the results area shows. */
  datatype Body = LoadingText | ErrorText(message: string) | NoResults | ResultList(items: seq<SearchResult>)

  /** `filteredResults`: everything for `'all'`, otherwise the items of that media type. */
  function Filtered(results: seq<SearchResult>, filter: Filter): (r: seq<SearchResult>)
    ensures |r| <= |results|
    ensures forall x :: x in r <==> x in results && (filter.All? || x.mediaType == filter.kind)
    ensures filter.All? ==> r == results
  {
    if filter.All? then results else Collections.Filter(results, (x: SearchResult) => x.mediaType == filter.kind)
  }

  /**
   * The filter keeps the order of the results: one more result is appended to the filtered
   * list exactly when it passes the filter.
   */
  lemma FilteredInOrder(results: seq<SearchResult>, filter: Filter, x: SearchResult)
    ensures Filtered(results + [x], filter) ==
      Filtered(results, filter) + if filter.All? || x.mediaType == filter.kind then [x] else []
  {
    if filter.Only? {
      var s := results + [x];
      assert s[..|s| - 1] == results;
      Collections.FilterSnoc(s, (y: SearchResult) => y.mediaType == filter.kind);
    }
  }

  /** `Math.ceil(n / LOCAL_PAGE_SIZE)`: the fewest pages of ten that hold `n` items. */
  function TotalPages(n: nat): (r: nat)
    ensures r * LocalPageSize >= n
    ensures r > 0 ==> (r - 1) * LocalPageSize < n
  {
    (n + LocalPageSize - 1) / LocalPageSize
  }

  /** `pagedResults`: items `[(p-1)*10, (p-1)*10 + 10)`, as `slice` cuts them. */
  function PageOf(items: seq<SearchResult>, page: int): (r: seq<SearchResult>)
    ensures |r| <= LocalPageSize
  {
    var start := (page - 1) * LocalPageSize;
    JsText.Slice(items, start, start + LocalPageSize)
  }

  /** The first `k` pages, one after the other. */
  function PagesUpTo(items: seq<SearchResult>, k: nat): seq<SearchResult> {
    if k == 0 then [] else PagesUpTo(items, k - 1) + PageOf(items, k)
  }

  function Min(a: int, b: int): int {
    if a <= b then a else b
  }

  /** Page `p >= 1` holds the items from `(p-1)*10` up to `p*10` or the end. */
  lemma PageContents(items: seq<SearchResult>, page: int)
    requires page >= 1
    ensures var start := Min((page - 1) * LocalPageSize, |items|);
      PageOf(items, page) == items[start..Min(page * LocalPageSize, |items|)]
  {
  }

  /** The first `k` pages hold the first `10k` items, or all of them. */
  lemma {:induction false} PagesPrefix(items: seq<SearchResult>, k: nat)
    ensures PagesUpTo(items, k) == items[..Min(k * LocalPageSize, |items|)]
  {
    if k > 0 {
      PagesPrefix(items, k - 1);
      PageContents(items, k);
      var a := Min((k - 1) * LocalPageSize, |items|);
      var b := Min(k * LocalPageSize, |items|);
      assert items[..a] + items[a..b] == items[..b];
    }
  }

  /** Pages 1 to `TotalPages` put back together give the whole list. */
  lemma PagesCoverAll(items: seq<SearchResult>)
    ensures PagesUpTo(items, TotalPages(|items|)) == items
  {
    PagesPrefix(items, TotalPages(|items|));
    assert items[..|items|] == items;
  }

  /** A page after the last one is empty. */
  lemma PageAfterLast(items: seq<SearchResult>, page: int)
    requires page > TotalPages(|items|)
    ensures PageOf(items, page) == []
  {
    PageContents(items, page);
  }

  /** The state of the page: the query from the address and the component's state variables. */
  class SearchPage {
    var query: string
    var results: seq<SearchResult>
    var loading: bool
    var error: Option<string>
    var filter: Filter
    var localPage: int

    /**
     * The local page is at least 1: it starts there and the pager never goes below it. A load
     * clears the error as it starts, so no error is held while loading.
     */
    predicate Valid()
      reads this
    {
      localPage >= 1 && (loading ==> error == None)
    }

    /** The items of the selected type. */
    function FilteredResults(): seq<SearchResult>
      reads this
    {
      Filtered(results, filter)
    }

    /** `filteredTotalPages`. */
    function FilteredTotalPages(): nat
      reads this
    {
      TotalPages(|FilteredResults()|)
    }

    /** The items on the current local page. */
    function PagedResults(): seq<SearchResult>
      reads this
    {
      PageOf(FilteredResults(), localPage)
    }

    /** The pager is shown when nothing is loading and there is more than one page. */
    predicate ShowPagination()
      reads this
      ensures ShowPagination() <==> !loading && |FilteredResults()| > LocalPageSize
    {
      !loading && FilteredTotalPages() > 1
    }

    /** Loading first, then the error, then "No results found." for an empty page, else the items. */
    function View(): (b: Body)
      reads this
      ensures loading ==> b == LoadingText
      ensures !loading && JsText.Truthy(error) ==> b == ErrorText(error.value)
      ensures !loading && !JsText.Truthy(error) ==> (b.NoResults? <==> PagedResults() == [])
      ensures !loading && !JsText.Truthy(error) && PagedResults() != [] ==>
        b.ResultList? && b.items == PagedResults() && 1 <= |b.items| <= LocalPageSize
    {
      if loading then LoadingText
      else if JsText.Truthy(error) then ErrorText(error.value)
      else if PagedResults() == [] then NoResults
      else ResultList(PagedResults())
    }

    /** The page mounts with the address's query: no results, loading, no error, all types, page 1. */
    constructor(query: string)
      ensures Valid()
      ensures this.query == query && results == [] && loading && error == None
      ensures filter == All && localPage == 1
    {
      this.query := query;
      results := [];
      loading := true;
      error := None;
      filter := All;
      localPage := 1;
    }

    /** A click on a filter tab. A different filter resets the local page to 1. */
    method ChangeFilter(f: Filter)
      requires Valid()
      modifies this
      ensures Valid()
      ensures filter == f
      ensures localPage == if f != old(filter) then 1 else old(localPage)
      ensures query == old(query) && results == old(results) && loading == old(loading) && error == old(error)
    {
      if f != filter {
        filter := f;
        localPage := 1;
      }
    }

    /**
     * The address now carries query `q`. A different query resets the local page to 1 and starts
     * a load: loading on, error cleared. The old results stay until the load completes.
     */
    method ChangeQuery(q: string)
      requires Valid()
      modifies this
      ensures Valid()
      ensures query == q
      ensures q != old(query) ==> localPage == 1 && loading && error == None
      ensures q == old(query) ==> localPage == old(localPage) && loading == old(loading) && error == old(error)
      ensures results == old(results) && filter == old(filter)
    {
      if q != query {
        query := q;
        localPage := 1;
        loading := true;
        error := None;
      }
    }

    /**
     * The load completes. `response` is what fetching the first page of results for the query
     * gave, `None` when the fetch failed. A blank query gives no results, whatever the response,
     * because it is never fetched; a failed fetch gives no results and the error message. A load
     * is completed only after the mount or a query change started it, so loading is on.
     */
    method CompleteLoad(response: Option<seq<SearchResult>>)
      requires Valid() && loading
      modifies this
      ensures Valid()
      ensures !loading
      ensures JsText.IsBlank(query) ==> results == [] && error == None
      ensures !JsText.IsBlank(query) && response.Some? ==> results == response.value && error == None
      ensures !JsText.IsBlank(query) && response.None? ==> results == [] && error == Some(FetchError)
      ensures query == old(query) && filter == old(filter) && localPage == old(localPage)
    {
      if JsText.IsBlank(query) {
        results := [];
      } else if response.Some? {
        results := response.value;
      } else {
        results := [];
        error := Some(FetchError);
      }
      loading := false;
    }

    /** A click on the pager's Prev button, which can only be clicked while it is enabled. */
    method PressPrev()
      requires Valid() && ShowPagination() && !Pagination.PrevDisabled(localPage)
      modifies this
      ensures Valid()
      ensures localPage == Pagination.PrevTarget(old(localPage))
      ensures query == old(query) && results == old(results) && loading == old(loading)
      ensures error == old(error) && filter == old(filter)
    {
      localPage := Pagination.PrevTarget(localPage);
    }

    /** A click on the pager's Next button, which can only be clicked while it is enabled. */
    method PressNext()
      requires Valid() && ShowPagination() && !Pagination.NextDisabled(localPage, FilteredTotalPages())
      modifies this
      ensures Valid()
      ensures localPage == Pagination.NextTarget(old(localPage)) && localPage <= FilteredTotalPages()
      ensures query == old(query) && results == old(results) && loading == old(loading)
      ensures error == old(error) && filter == old(filter)
    {
      localPage := Pagination.NextTarget(localPage);
    }
  }

  /** A blank query, once its load completes, shows "No results found." and no pager. */
  lemma BlankQueryView(p: SearchPage)
    requires !p.loading && p.error == None && p.results == []
    ensures p.View() == NoResults
    ensures !p.ShowPagination()
  {
  }

  /** A failed fetch of a real query leaves the error showing and no pager. */
  lemma FailedFetchView(p: SearchPage)
    requires !p.loading && p.error == Some(FetchError) && p.results == []
    ensures p.View() == ErrorText(FetchError)
    ensures !p.ShowPagination()
  {
  }
}
