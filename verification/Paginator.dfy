/** The page record every listing answers with. */
module Paginator {

  datatype Pagination<T> = Pagination(pageNumber: int, pagesCount: nat, pageSize: nat, totalCount: nat, items: seq<T>)

  /** `Math.ceil(totalCount / pageSize)`. */
  function PagesCount(total: nat, pageSize: nat): nat
    requires pageSize > 0
  {
    (total + pageSize - 1) / pageSize
  }

  function Create<T>(pageNumber: int, pageSize: nat, totalCount: nat, items: seq<T>): Pagination<T>
    requires pageSize > 0
  {
    Pagination(pageNumber, PagesCount(totalCount, pageSize), pageSize, totalCount, items)
  }

  /** The ceiling: enough pages for every row, and one fewer would not do. */
  lemma PagesCountBounds(total: nat, pageSize: nat)
    requires pageSize > 0
    ensures var c := PagesCount(total, pageSize); total <= pageSize * c < total + pageSize
  {
    var a := total + pageSize - 1;
    assert a == pageSize * (a / pageSize) + a % pageSize;
  }
}
