/** Page requests as the repository receives them, the `$skip`/`$limit`
    stages every query ends with, and the slice the service builds from the
    over-fetched rows without a count query. */
module Paging {
  import opened Ordering

  /** Largest value of a 32-bit Kotlin `Int`. */
  const IntMax: int := 0x7fff_ffff

  datatype Direction = Asc | Desc

  /** A sort property as requested by the caller. `Unknown(name)` is a name
      that is not a field of the sorted documents (the store then sees the
      field as missing on every row). */
  datatype SortProperty = Bookmarkers | CreatedAt | UpdatedAt | Unknown(name: string)

  datatype SortOrder = SortOrder(property: SortProperty, direction: Direction)

  /** A page request: 0-based page number, page size and the requested sort. */
  datatype PageRequest = PageRequest(pageNumber: int, pageSize: int, sort: seq<SortOrder>)

  /** What a page request accepts, plus the condition that the skip count,
      computed as a 32-bit product before widening, does not overflow. */
  predicate ValidPage(page: PageRequest) {
    && page.pageNumber >= 0
    && page.pageSize >= 1
    && page.pageNumber * page.pageSize <= IntMax
  }

  /** Rows skipped before the page: `pageNumber * pageSize`. */
  function SkipCount(page: PageRequest): (n: nat)
    requires ValidPage(page)
    ensures n <= IntMax
  {
    page.pageNumber * page.pageSize
  }

  /** Rows fetched: one more than the page size, the "peek" row. */
  function LimitCount(page: PageRequest): (n: nat)
    requires ValidPage(page)
    ensures n > page.pageSize
  {
    page.pageSize + 1
  }

  /** The `$skip` then `$limit` stages applied to an ordered row sequence. */
  function PageWindow<T>(rows: seq<T>, page: PageRequest): (r: seq<T>)
    requires ValidPage(page)
    ensures |r| <= page.pageSize + 1
    ensures |r| > 0 ==> SkipCount(page) + |r| <= |rows|
    ensures |r| > page.pageSize <==> |rows| > SkipCount(page) + page.pageSize
    ensures SkipCount(page) < |rows| ==> |r| > 0
    ensures forall i | 0 <= i < |r| :: r[i] == rows[SkipCount(page) + i]
  {
    Window(rows, SkipCount(page), LimitCount(page))
  }

  /** A page of content and whether another page exists. `size` is the
      requested page size, as a paged slice reports it. */
  datatype Slice<T> = Slice(content: seq<T>, number: int, size: int,
                            hasNext: bool, isFirst: bool, isLast: bool)

  /** Turns the over-fetched rows into a slice: the peek row, when present,
      only proves that a next page exists and is dropped. */
  function ToSlice<T>(fetched: seq<T>, page: PageRequest): (s: Slice<T>)
    requires ValidPage(page)
    ensures s.hasNext <==> |fetched| > page.pageSize
    ensures s.content <= fetched
    ensures |s.content| == if |fetched| > page.pageSize then page.pageSize else |fetched|
    ensures s.isFirst <==> page.pageNumber == 0
    ensures s.isLast <==> !s.hasNext
    ensures s.number == page.pageNumber && s.size == page.pageSize
  {
    var hasNext := |fetched| > page.pageSize;
    var content := if hasNext then fetched[..page.pageSize] else fetched;
    Slice(content, page.pageNumber, page.pageSize, hasNext, page.pageNumber == 0, !hasNext)
  }

  /** A slice built from a page window reports a next page exactly when the
      unpaged rows continue past the current page, and its content is the
      page's rows in order. */
  lemma SliceOfWindow<T>(rows: seq<T>, page: PageRequest)
    requires ValidPage(page)
    ensures ToSlice(PageWindow(rows, page), page).hasNext
            <==> |rows| > SkipCount(page) + page.pageSize
    ensures var c := ToSlice(PageWindow(rows, page), page).content;
            forall i | 0 <= i < |c| :: c[i] == rows[SkipCount(page) + i]
  {
  }
}
