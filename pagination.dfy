/** Pagination of the shuffled question list (script.js `displayQuestions`,
    `navigateToPreviousPage`, `navigateToNextPage`, `updatePagination`): twenty questions a page,
    pages numbered from 1. */
module Pagination {

  const QuestionsPerPage: nat := 20

  /** `Math.ceil(n / questionsPerPage)`: the least page count whose pages hold `n` questions. */
  function TotalPages(n: nat): (t: nat)
    ensures t * QuestionsPerPage >= n
    ensures t == 0 || (t - 1) * QuestionsPerPage < n
  {
    (n + QuestionsPerPage - 1) / QuestionsPerPage
  }

  /** The pages the cursor may rest on: page 1 always (it is where every module starts, even an
      empty one), and otherwise a page that exists. */
  predicate ValidPage(p: int, n: nat)
  {
    p == 1 || 1 <= p <= TotalPages(n)
  }

  /** `navigateToPreviousPage`: one page back unless already on page 1. */
  function PrevPage(p: int): int
  {
    if p > 1 then p - 1 else p
  }

  /** `navigateToNextPage`: one page on unless already on (or past) the last page. */
  function NextPage(p: int, n: nat): int
  {
    if p < TotalPages(n) then p + 1 else p
  }

  /** Both moves keep the cursor on a valid page. */
  lemma NavigationKeepsPageValid(p: int, n: nat)
    requires ValidPage(p, n)
    ensures ValidPage(PrevPage(p), n) && ValidPage(NextPage(p, n), n)
  {
  }

  /** Going forward and then back returns to the same page, and so does going back and then
      forward, whenever the first move was not a no-op. */
  lemma NavigationInverse(p: int, n: nat)
    requires ValidPage(p, n)
    ensures NextPage(p, n) != p ==> PrevPage(NextPage(p, n)) == p
    ensures PrevPage(p) != p ==> NextPage(PrevPage(p), n) == p
  {
  }

  /** The half-open index range `[startIdx, endIdx)` that `displayQuestions` renders for page
      `p`; a page beyond the last one renders nothing. */
  function PageRange(p: int, n: nat): (r: (int, int))
    ensures ValidPage(p, n) ==> 0 <= r.0 && r.0 <= r.1 <= n
    ensures r.1 - r.0 <= QuestionsPerPage
  {
    var start := (p - 1) * QuestionsPerPage;
    var end := if start + QuestionsPerPage < n then start + QuestionsPerPage else n;
    (start, end)
  }

  /** Every question index lies on exactly one page: index `i` is rendered on page `p` iff
      `p == i / 20 + 1`, and that page is a valid one. */
  lemma PageOfIndex(i: nat, n: nat, p: int)
    requires i < n
    ensures PageRange(p, n).0 <= i < PageRange(p, n).1 <==> p == i / QuestionsPerPage + 1
    ensures ValidPage(i / QuestionsPerPage + 1, n)
  {
    var q := i / QuestionsPerPage;
    assert q * QuestionsPerPage <= i < (q + 1) * QuestionsPerPage;
  }

  /** The question indices a page shows, in order. */
  function DisplayedIndices(p: int, n: nat): (r: seq<nat>)
    ensures forall k :: 0 <= k < |r| ==> r[k] < n && r[k] / QuestionsPerPage + 1 == p
    ensures forall i :: 0 <= i < n && i / QuestionsPerPage + 1 == p ==> i in r
  {
    var (start, end) := PageRange(p, n);
    if start < 0 || end <= start then []
    else
      var r := seq(end - start, k requires 0 <= k < end - start => (start + k) as nat);
      assert forall k :: 0 <= k < |r| ==> r[k] == start + k;
      PageIndicesOnPage(p, n, r);
      PageCoversIndices(p, n, r);
      r
  }

  lemma PageIndicesOnPage(p: int, n: nat, r: seq<nat>)
    requires PageRange(p, n).0 >= 0
    requires |r| == PageRange(p, n).1 - PageRange(p, n).0
    requires forall k :: 0 <= k < |r| ==> r[k] == PageRange(p, n).0 + k
    ensures forall k :: 0 <= k < |r| ==> r[k] < n && r[k] / QuestionsPerPage + 1 == p
  {
    forall k | 0 <= k < |r| ensures r[k] < n && r[k] / QuestionsPerPage + 1 == p {
      PageOfIndex(r[k], n, p);
    }
  }

  lemma PageCoversIndices(p: int, n: nat, r: seq<nat>)
    requires PageRange(p, n).0 >= 0
    requires |r| == PageRange(p, n).1 - PageRange(p, n).0
    requires forall k :: 0 <= k < |r| ==> r[k] == PageRange(p, n).0 + k
    ensures forall i :: 0 <= i < n && i / QuestionsPerPage + 1 == p ==> i in r
  {
    forall i | 0 <= i < n && i / QuestionsPerPage + 1 == p ensures i in r {
      PageOfIndex(i, n, p);
      assert r[i - PageRange(p, n).0] == i;
    }
  }

  /** The prev/next `disabled` flags exactly as `updatePagination` sets them. */
  function ButtonsAsWritten(p: int, n: nat): (disabled: (bool, bool))
  {
    (p == 1, p == TotalPages(n))
  }

  /** An empty module starts on page 1 of 0 pages: the next button is left enabled although
      `navigateToNextPage` then does nothing. */
  lemma NextEnabledOnEmptyModule()
    ensures ValidPage(1, 0)
    ensures !ButtonsAsWritten(1, 0).1 && NextPage(1, 0) == 1
  {
  }

  /** The flags with the last-page test written as `currentPage >= totalPages`. */
  function Buttons(p: int, n: nat): (disabled: (bool, bool))
  {
    (p <= 1, p >= TotalPages(n))
  }

  /** With the corrected test, a button is disabled exactly when its move would do nothing. */
  lemma ButtonsDisabledIffNoOp(p: int, n: nat)
    ensures Buttons(p, n).0 <==> PrevPage(p) == p
    ensures Buttons(p, n).1 <==> NextPage(p, n) == p
  {
  }

  /** Both definitions agree on every valid page of a non-empty module. */
  lemma ButtonsAgreeOnNonEmptyModules(p: int, n: nat)
    requires n > 0 && ValidPage(p, n)
    ensures Buttons(p, n) == ButtonsAsWritten(p, n)
  {
  }
}
