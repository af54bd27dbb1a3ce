/** Building the page request of a search from its pagination map, with defaults for
    the missing entries. */
module PageRequestExtensions {
  import opened Optional
  import opened Paging
  import opened ApiModel

  /** The pagination map, read through the casts the builder applies: an absent key and
      a key mapped to null both read as `None`. */
  datatype Pagination = Pagination(
    page: Option<int>,
    size: Option<int>,
    sort: Option<UserField>,
    direction: Option<Direction>)

  const DefaultPage := 0
  const DefaultSize := 20

  /** `PageRequest(pagination)`: page 0, size 20 and the `fullName` property unless given;
      descending only when the direction is `desc`. */
  function PageRequest(pagination: Pagination): (r: Pageable)
  {
    Pageable(
      pagination.page.GetOr(DefaultPage),
      pagination.size.GetOr(DefaultSize),
      Sort(
        pagination.sort.GetOr(FullName).Value(),
        if pagination.direction == Some(Desc) then Descending else Ascending))
  }

  /** Every missing entry takes its default, and a given entry passes through unchanged. */
  lemma PageRequestEntries(pagination: Pagination)
    ensures var r := PageRequest(pagination);
            && (pagination.page == None ==> r.pageNumber == 0)
            && (pagination.page.Some? ==> r.pageNumber == pagination.page.value)
            && (pagination.size == None ==> r.pageSize == 20)
            && (pagination.size.Some? ==> r.pageSize == pagination.size.value)
            && (pagination.sort == None ==> r.sort.property == "fullName")
            && (pagination.sort.Some? ==> r.sort.property == pagination.sort.value.Value())
  {
  }

  /** The order is descending exactly when `desc` is asked for; absent or `asc` ascends. */
  lemma DescendingIffDesc(pagination: Pagination)
    ensures PageRequest(pagination).sort.direction == Descending <==> pagination.direction == Some(Desc)
    ensures pagination.direction != Some(Desc) ==> PageRequest(pagination).sort.direction == Ascending
  {
  }

  /** An empty map gives page 0, size 20, sorted "fullName: ASC". */
  lemma EmptyPaginationDefaults()
    ensures var r := PageRequest(Pagination(None, None, None, None));
            r.pageNumber == 0 && r.pageSize == 20 && SortText(r.sort) == "fullName: ASC"
  {
  }

  /** Page 1, size 20, `fullName`, `asc` gives exactly those values and "fullName: ASC". */
  lemma GivenPaginationPassesThrough()
    ensures var r := PageRequest(Pagination(Some(1), Some(20), Some(FullName), Some(Asc)));
            r.pageNumber == 1 && r.pageSize == 20 && SortText(r.sort) == "fullName: ASC"
  {
  }
}
