/** The Spring Data paging values the registry passes around: a single-property sort,
    a page request and a page of results. */
module Paging {

  datatype SortDirection = Ascending | Descending

  /** A sort by one property. */
  datatype Sort = Sort(property: string, direction: SortDirection)

  /** `Sort.toString()` for a one-property sort: the property, a colon and the direction
      in capitals, as in "fullName: ASC". */
  function SortText(s: Sort): (r: string)
    ensures |s.property| < |r| && r[..|s.property|] == s.property
    ensures s.direction == Ascending ==> r[|s.property|..] == ": ASC"
    ensures s.direction == Descending ==> r[|s.property|..] == ": DESC"
  {
    s.property + ": " + (if s.direction == Ascending then "ASC" else "DESC")
  }

  /** A page request: zero-based page number, page size and sort. */
  datatype Pageable = Pageable(pageNumber: int, pageSize: int, sort: Sort)

  /** One page of a query result, with the totals of the whole result. */
  datatype Page<T> = Page(content: seq<T>, pageable: Pageable, totalElements: int, totalPages: int)

  /** The number of pages of size `size` needed for `total` elements. */
  function PageCount(total: nat, size: nat): (r: nat)
    requires size >= 1
    ensures total <= r * size
    ensures r == 0 || (r - 1) * size < total
  {
    if total == 0 then 0
    else if total <= size then 1
    else 1 + PageCount(total - size, size)
  }

  /** The slice of `all` that page `pageNumber` of size `pageSize` shows. */
  function Window<T>(all: seq<T>, pageNumber: nat, pageSize: nat): (r: seq<T>)
    ensures var offset := pageNumber * pageSize;
            |r| == if offset >= |all| then 0 else if pageSize <= |all| - offset then pageSize else |all| - offset
    ensures var offset := pageNumber * pageSize;
            forall k | 0 <= k < |r| :: offset + k < |all| && r[k] == all[offset + k]
  {
    var offset := pageNumber * pageSize;
    if offset >= |all| then []
    else if offset + pageSize <= |all| then all[offset..offset + pageSize]
    else all[offset..]
  }
}
