/** The two mappers from a page of records to the paged response shape. */
module PageExtensions {
  import opened Optional
  import opened UserEntity
  import opened Paging
  import opened ApiModel
  import opened UserExtensions

  /** `content.map { it.toUserDTO() }`. */
  function ToUserDTOs(users: seq<User>): (r: seq<UserDTO>)
    requires forall u | u in users :: Presentable(u)
    ensures |r| == |users|
    ensures forall i | 0 <= i < |users| :: r[i] == ToUserDTO(users[i])
  {
    if users == [] then [] else [ToUserDTO(users[0])] + ToUserDTOs(users[1..])
  }

  /** `PageUserDTO?.fromPage(page)`: a non-null receiver is returned as it is; otherwise a
      response carrying the page request, the mapped content, the totals and the sort text. */
  function FromPage(receiver: Option<PageUserDTO>, page: Page<User>): (d: PageUserDTO)
    requires receiver.Some? || forall u | u in page.content :: Presentable(u)
    ensures receiver.Some? ==> d == receiver.value
    ensures receiver.None? ==>
              && d.pageable == Some(page.pageable)
              && |d.content| == |page.content|
              && (forall i | 0 <= i < |page.content| :: d.content[i] == ToUserDTO(page.content[i]))
              && d.total == Some(page.totalElements)
              && d.pageCount == Some(page.totalPages)
              && d.sortedBy == Some(SortText(page.pageable.sort))
              && d.currentPage == None && d.pageSize == None
  {
    match receiver
    case Some(dto) => dto
    case None =>
      PageUserDTO(
        pageable := Some(page.pageable),
        content := ToUserDTOs(page.content),
        total := Some(page.totalElements),
        pageCount := Some(page.totalPages),
        currentPage := None,
        pageSize := None,
        sortedBy := Some(SortText(page.pageable.sort)))
  }

  /** `Page<User>.toPageUserDTO()`: the page request, the mapped content, the totals and the
      requested page number and size; no sort text. */
  function ToPageUserDTO(page: Page<User>): (d: PageUserDTO)
    requires forall u | u in page.content :: Presentable(u)
    ensures d.pageable == Some(page.pageable)
    ensures |d.content| == |page.content|
    ensures forall i | 0 <= i < |page.content| :: d.content[i] == ToUserDTO(page.content[i])
    ensures d.total == Some(page.totalElements) && d.pageCount == Some(page.totalPages)
    ensures d.currentPage == Some(page.pageable.pageNumber) && d.pageSize == Some(page.pageable.pageSize)
    ensures d.sortedBy == None
  {
    PageUserDTO(
      pageable := Some(page.pageable),
      content := ToUserDTOs(page.content),
      total := Some(page.totalElements),
      pageCount := Some(page.totalPages),
      currentPage := Some(page.pageable.pageNumber),
      pageSize := Some(page.pageable.pageSize),
      sortedBy := None)
  }

  /** Both mappers agree on the page request, the content and the totals; they differ
      only in the sort text and the page number and size. */
  lemma MappersAgree(page: Page<User>)
    requires forall u | u in page.content :: Presentable(u)
    ensures var a := FromPage(None, page);
            var b := ToPageUserDTO(page);
            a == b.(currentPage := None, pageSize := None, sortedBy := Some(SortText(page.pageable.sort)))
  {
  }

  /** Mapping distributes over concatenation, so the order of the records is kept. */
  lemma {:induction false} ToUserDTOsAppend(a: seq<User>, b: seq<User>)
    requires forall u | u in a + b :: Presentable(u)
    ensures ToUserDTOs(a + b) == ToUserDTOs(a) + ToUserDTOs(b)
  {
    if a == [] {
      assert a + b == b;
    } else {
      assert (a + b)[1..] == a[1..] + b;
      ToUserDTOsAppend(a[1..], b);
    }
  }
}
