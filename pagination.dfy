/**
 * The Prev/Next pager of the search page. It shows "Page p of n" between two buttons; Prev asks
 * for the page before, Next for the page after, and each button is disabled at its end. The
 * page itself lives with the caller, who receives the requested page.
 */
module Pagination {
  /** The page Prev requests. */
  function PrevTarget(page: int): int {
    page - 1
  }

  /** The page Next requests. */
  function NextTarget(page: int): int {
    page + 1
  }

  /** `disabled={page <= 1}`: Prev is disabled exactly when its target would be before page 1. */
  predicate PrevDisabled(page: int)
    ensures PrevDisabled(page) <==> PrevTarget(page) < 1
  {
    page <= 1
  }

  /** `disabled={page >= totalPages}`: Next is disabled exactly when its target would be past the last page. */
  predicate NextDisabled(page: int, totalPages: int)
    ensures NextDisabled(page, totalPages) <==> NextTarget(page) > totalPages
  {
    page >= totalPages
  }

  /** A click on one of the two buttons. */
  datatype Press = Prev | Next

  /** The page after a click: the requested page, or the same page when the button is disabled. */
  function Click(page: int, totalPages: int, press: Press): int {
    match press
    case Prev => if PrevDisabled(page) then page else PrevTarget(page)
    case Next => if NextDisabled(page, totalPages) then page else NextTarget(page)
  }

  /** The page after a series of clicks, each fed back as the next page. */
  function Clicks(page: int, totalPages: int, presses: seq<Press>): int
    decreases |presses|
  {
    if presses == [] then page else Clicks(Click(page, totalPages, presses[0]), totalPages, presses[1..])
  }

  /** A click from a page in `[1, totalPages]` stays in range, and moves by at most one page. */
  lemma ClickInRange(page: int, totalPages: int, press: Press)
    requires 1 <= page <= totalPages
    ensures 1 <= Click(page, totalPages, press) <= totalPages
    ensures -1 <= Click(page, totalPages, press) - page <= 1
  {
  }

  /** Any series of clicks that starts in `[1, totalPages]` never leaves it. */
  lemma {:induction false} ClicksInRange(page: int, totalPages: int, presses: seq<Press>)
    requires 1 <= page <= totalPages
    ensures 1 <= Clicks(page, totalPages, presses) <= totalPages
    decreases |presses|
  {
    if presses != [] {
      ClickInRange(page, totalPages, presses[0]);
      ClicksInRange(Click(page, totalPages, presses[0]), totalPages, presses[1..]);
    }
  }

  /** On a page strictly inside the range, Prev then Next comes back. */
  lemma PrevThenNext(page: int, totalPages: int)
    requires 1 < page <= totalPages
    ensures Clicks(page, totalPages, [Prev, Next]) == page
  {
    assert [Prev, Next][1..] == [Next];
  }
}
