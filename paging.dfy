/**
 * Page requests and the page builder that decides whether the deferred
 * count query has to run.
 */
module Paging {
  import opened Query

  type PageSize = n: nat | 1 <= n witness 1

  /** The two values the repository reads from a `Pageable`: `getOffset()` and `getPageSize()`. */
  datatype Pageable = Pageable(offset: nat, pageSize: PageSize)

  /** A `PageImpl`: the content, the request it answers, and the total number of matching rows. */
  datatype Page<T> = PageImpl(content: seq<T>, pageable: Pageable, total: nat)

  /** A page together with whether building it invoked the count supplier. */
  datatype PageOutcome<T> = PageOutcome(page: Page<T>, countIssued: bool)

  /**
   * The page already determines the total when it is short and it is the
   * first page or a non-empty (hence last) page.
   */
  predicate CountAvoidable(pageable: Pageable, returned: nat) {
    returned < pageable.pageSize && (pageable.offset == 0 || returned > 0)
  }

  /**
   * `PageableExecutionUtils.getPage(content, pageable, totalSupplier)`: the
   * supplier is invoked only when the page does not determine the total.
   */
  function GetPage<T>(content: seq<T>, pageable: Pageable, totalSupplier: () -> nat): (r: PageOutcome<T>)
    ensures r.page.content == content && r.page.pageable == pageable
    ensures r.countIssued <==> !CountAvoidable(pageable, |content|)
    ensures !r.countIssued ==> r.page.total == pageable.offset + |content|
    ensures r.countIssued ==> r.page.total == totalSupplier()
  {
    if CountAvoidable(pageable, |content|) then
      PageOutcome(PageImpl(content, pageable, pageable.offset + |content|), false)
    else
      PageOutcome(PageImpl(content, pageable, totalSupplier()), true)
  }

  /** A short window that starts inside the rows ends at their last row. */
  lemma ShortWindowEndsAtLastRow<T>(all: seq<T>, pageable: Pageable)
    requires pageable.offset <= |all|
    requires |Slice(all, pageable.offset, pageable.pageSize)| < pageable.pageSize
    ensures pageable.offset + |Slice(all, pageable.offset, pageable.pageSize)| == |all|
  {
  }

  /** The guard of `CountAvoidable` is exactly what makes the arithmetic total safe: offset <= |all|. */
  lemma AvoidableWindowStartsInside<T>(all: seq<T>, pageable: Pageable)
    requires CountAvoidable(pageable, |Slice(all, pageable.offset, pageable.pageSize)|)
    ensures pageable.offset <= |all|
  {
  }

  /**
   * Whichever branch it takes, `GetPage` over the window of `all` reports
   * the exact total, provided the deferred count counts `all`.
   */
  lemma GetPageIsExact<T>(all: seq<T>, pageable: Pageable, totalSupplier: () -> nat)
    requires totalSupplier() == |all|
    ensures GetPage(Slice(all, pageable.offset, pageable.pageSize), pageable, totalSupplier).page.total == |all|
  {
    var k := |Slice(all, pageable.offset, pageable.pageSize)|;
    if CountAvoidable(pageable, k) {
      AvoidableWindowStartsInside(all, pageable);
      ShortWindowEndsAtLastRow(all, pageable);
    }
  }

  /** A full window always goes to the count, and the count is at least the rows seen so far. */
  lemma FullWindowIssuesCount<T>(all: seq<T>, pageable: Pageable, totalSupplier: () -> nat)
    requires totalSupplier() == |all|
    requires |Slice(all, pageable.offset, pageable.pageSize)| == pageable.pageSize
    ensures GetPage(Slice(all, pageable.offset, pageable.pageSize), pageable, totalSupplier).countIssued
    ensures GetPage(Slice(all, pageable.offset, pageable.pageSize), pageable, totalSupplier).page.total
            >= pageable.offset + pageable.pageSize
  {
  }
}
