/** `paginate_questions`: a fixed-size window of an ordered list, cut with Python's slice
    operator `items[start:end]` where `start = (page - 1) * 10` and `end = start + 10`. */
module Pagination {

  const QuestionsPerPage: nat := 10

  /** Python's normalisation of a slice bound against a list of length `n`: a negative bound
      counts from the end, and the result is clamped into `0..n`. */
  function SliceBound(i: int, n: nat): (r: nat)
    ensures r <= n
    ensures 0 <= i <= n ==> r == i
    ensures i > n ==> r == n
    ensures i < 0 ==> r == if i + n < 0 then 0 else i + n
  {
    if i < 0 then (if i + n < 0 then 0 else i + n)
    else if i > n then n
    else i
  }

  /** Python's `xs[start:stop]` with step 1: never an index error, empty when the normalised
      bounds cross. */
  function PySlice<T>(xs: seq<T>, start: int, stop: int): seq<T>
  {
    var s, e := SliceBound(start, |xs|), SliceBound(stop, |xs|);
    if s < e then xs[s..e] else []
  }

  /** The first index of page `page`. */
  function PageStart(page: int): int
  {
    (page - 1) * QuestionsPerPage
  }

  /** The items shown on page `page` (1-based). */
  function Paginate<T>(items: seq<T>, page: int): (r: seq<T>)
    ensures |r| <= QuestionsPerPage
    ensures page >= 1 ==> |r| == if PageStart(page) >= |items| then 0
                                 else Min(QuestionsPerPage, |items| - PageStart(page))
    ensures page >= 1 ==> forall i :: 0 <= i < |r| ==> r[i] == items[PageStart(page) + i]
  {
    PySlice(items, PageStart(page), PageStart(page) + QuestionsPerPage)
  }

  function Min(a: int, b: int): int
  {
    if a <= b then a else b
  }

  /** Every item lies on exactly the page its index says: item `i` is entry `i % 10` of page
      `i / 10 + 1`, so walking the pages from 1 on shows every item. */
  lemma ItemOnPage<T>(items: seq<T>, i: nat)
    requires i < |items|
    ensures var page := Paginate(items, i / QuestionsPerPage + 1);
      i % QuestionsPerPage < |page| && page[i % QuestionsPerPage] == items[i]
  {
    var p := i / QuestionsPerPage + 1;
    assert PageStart(p) + i % QuestionsPerPage == i;
  }

  /** Page 0 is always empty, since its window `[-10:0]` ends at index 0. */
  lemma PageZeroEmpty<T>(items: seq<T>)
    ensures Paginate(items, 0) == []
  {
  }

  /** Pages before 0 wrap around: Python reads the negative bounds from the end of the list,
      so page `-k` shows the window `10 * (k + 1)` to `10 * k` items before the end. */
  lemma NegativePageWraps<T>(items: seq<T>, page: int)
    requires page < 0
    ensures var n := |items|;
      var s := if n + PageStart(page) < 0 then 0 else n + PageStart(page);
      var e := if n + PageStart(page) + QuestionsPerPage < 0 then 0 else n + PageStart(page) + QuestionsPerPage;
      Paginate(items, page) == items[s..e]
  {
  }
}
