/** What each query of the user repository selects from the `tb_user` table, read off
    its derived name or its JPQL text. The table is a sequence of rows in storage order. */
module UserRepository {
  import opened Optional
  import opened Text
  import opened UserEntity
  import opened Paging

  /** `deletedAt IS NULL`. */
  predicate IsActive(u: User) {
    u.deletedAt.None?
  }

  /** `LOWER(u.fullName) LIKE ('%' || LOWER(fullName) || '%')`. */
  predicate NameContains(u: User, fullName: string) {
    Contains(Lower(u.fullName), Lower(fullName))
  }

  /** The single-record lookups. */
  datatype Lookup =
    | FindFirstByCpf(cpf: string)
    | FindFirstByIdAndDeletedAtIsNull(id: Uuid)
    | FindFirstByCpfAndDeletedAtIsNull(cpf: string)

  /** The condition a lookup puts on a row. Only the last two look at `deletedAt`. */
  predicate Hits(lookup: Lookup, u: User) {
    match lookup
    case FindFirstByCpf(cpf) => u.cpf == cpf
    case FindFirstByIdAndDeletedAtIsNull(id) => u.id == Some(id) && IsActive(u)
    case FindFirstByCpfAndDeletedAtIsNull(cpf) => u.cpf == cpf && IsActive(u)
  }

  /** The first row, in storage order, that the lookup hits; `None` when there is none. */
  function FindFirst(rows: seq<User>, lookup: Lookup): (r: Option<User>)
    ensures r.Some? ==> exists i | 0 <= i < |rows| :: rows[i] == r.value && Hits(lookup, rows[i])
    ensures r.None? <==> forall i | 0 <= i < |rows| :: !Hits(lookup, rows[i])
  {
    if rows == [] then None
    else if Hits(lookup, rows[0]) then Some(rows[0])
    else FindFirst(rows[1..], lookup)
  }

  /** The row at `i` is what the lookup finds when no earlier row is hit. */
  lemma {:induction false} FindFirstAt(rows: seq<User>, lookup: Lookup, i: nat)
    requires i < |rows| && Hits(lookup, rows[i])
    requires forall j | 0 <= j < i :: !Hits(lookup, rows[j])
    ensures FindFirst(rows, lookup) == Some(rows[i])
  {
    if i > 0 {
      FindFirstAt(rows[1..], lookup, i - 1);
    }
  }

  /** The CPF lookup sees soft-deleted rows too. */
  lemma FindFirstByCpfSeesDeleted(rows: seq<User>, i: nat)
    requires i < |rows| && !IsActive(rows[i])
    ensures FindFirst(rows, FindFirstByCpf(rows[i].cpf)).Some?
  {
  }

  /** The two active lookups never return a soft-deleted row. */
  lemma ActiveLookupsReturnActive(rows: seq<User>, id: Uuid, cpf: string)
    ensures var r := FindFirst(rows, FindFirstByIdAndDeletedAtIsNull(id));
            r.Some? ==> IsActive(r.value) && r.value.id == Some(id)
    ensures var r := FindFirst(rows, FindFirstByCpfAndDeletedAtIsNull(cpf));
            r.Some? ==> IsActive(r.value) && r.value.cpf == cpf
  {
  }

  /** The paged queries, one per repository method. */
  datatype Query =
    | FindAllByDeletedAtIsNull
    | FindAllByCpfAndDeletedAtIsNull(cpf: string)
    | FindAllByFullNameAndDeletedAtIsNull(fullName: string)
    | FindAllByCpfAndFullNameAndDeletedAtIsNull(cpf: string, fullName: string)

  /** The `WHERE` clause of a query; its count query uses the same one. */
  predicate Where(query: Query, u: User) {
    match query
    case FindAllByDeletedAtIsNull => IsActive(u)
    case FindAllByCpfAndDeletedAtIsNull(cpf) => u.cpf == cpf && IsActive(u)
    case FindAllByFullNameAndDeletedAtIsNull(fullName) => NameContains(u, fullName) && IsActive(u)
    case FindAllByCpfAndFullNameAndDeletedAtIsNull(cpf, fullName) =>
      u.cpf == cpf && NameContains(u, fullName) && IsActive(u)
  }

  /** The rows a query selects, in storage order. */
  function Select(rows: seq<User>, query: Query): (r: seq<User>)
    ensures |r| <= |rows|
    ensures forall u :: u in r <==> u in rows && Where(query, u)
  {
    if rows == [] then []
    else if Where(query, rows[0]) then [rows[0]] + Select(rows[1..], query)
    else Select(rows[1..], query)
  }

  /** Selection distributes over concatenation, so storage order is kept. */
  lemma {:induction false} SelectAppend(a: seq<User>, b: seq<User>, query: Query)
    ensures Select(a + b, query) == Select(a, query) + Select(b, query)
  {
    if a == [] {
      assert a + b == b;
    } else {
      assert (a + b)[1..] == a[1..] + b;
      SelectAppend(a[1..], b, query);
    }
  }

  /** The count query: `COUNT(u.id)` over the rows the `WHERE` clause keeps. */
  function CountQuery(rows: seq<User>, query: Query): (r: nat)
    ensures r <= |rows|
  {
    if rows == [] then 0
    else (if Where(query, rows[0]) && rows[0].id.Some? then 1 else 0) + CountQuery(rows[1..], query)
  }

  /** When every row has an id, the count query counts exactly the selected rows. */
  lemma {:induction false} CountIsSelectedSize(rows: seq<User>, query: Query)
    requires forall i | 0 <= i < |rows| :: rows[i].id.Some?
    ensures CountQuery(rows, query) == |Select(rows, query)|
  {
    if rows != [] {
      CountIsSelectedSize(rows[1..], query);
    }
  }

  /** One page of a query: the window of the selected rows the page request asks for,
      with the count query's total and the page count derived from it. */
  function QueryPage(rows: seq<User>, query: Query, pageable: Pageable): (p: Page<User>)
    requires pageable.pageNumber >= 0 && pageable.pageSize >= 1
    ensures p.pageable == pageable
    ensures p.content == Window(Select(rows, query), pageable.pageNumber, pageable.pageSize)
    ensures |p.content| <= pageable.pageSize
    ensures forall u | u in p.content :: u in rows && Where(query, u)
    ensures p.totalElements == CountQuery(rows, query)
    ensures p.totalPages == PageCount(p.totalElements, pageable.pageSize)
  {
    var selected := Select(rows, query);
    var content := Window(selected, pageable.pageNumber, pageable.pageSize);
    forall u | u in content ensures u in selected {
      var k :| 0 <= k < |content| && content[k] == u;
      assert selected[pageable.pageNumber * pageable.pageSize + k] == u;
    }
    var total := CountQuery(rows, query);
    Page(content, pageable, total, PageCount(total, pageable.pageSize))
  }

  /** A page is empty exactly when its offset is past the last selected row. */
  lemma PageEmptyIff(rows: seq<User>, query: Query, pageable: Pageable)
    requires pageable.pageNumber >= 0 && pageable.pageSize >= 1
    ensures QueryPage(rows, query, pageable).content == []
            <==> pageable.pageNumber * pageable.pageSize >= |Select(rows, query)|
  {
  }

  /** A page shorter than its size that is the first page or is not empty ends the
      result: its offset plus its length is the count query's total. That sum is the total
      Spring takes instead of running the count query in these cases, so the two agree
      when every stored row has an id. */
  lemma ShortPageTotal(rows: seq<User>, query: Query, pageable: Pageable)
    requires pageable.pageNumber >= 0 && pageable.pageSize >= 1
    requires forall i | 0 <= i < |rows| :: rows[i].id.Some?
    ensures var p := QueryPage(rows, query, pageable);
            |p.content| < pageable.pageSize && (pageable.pageNumber == 0 || |p.content| > 0)
            ==> pageable.pageNumber * pageable.pageSize + |p.content| == p.totalElements
  {
    CountIsSelectedSize(rows, query);
  }

  /** The first page is empty exactly when no row satisfies the query. */
  lemma FirstPageEmptyIff(rows: seq<User>, query: Query, size: int, sort: Sort)
    requires size >= 1
    ensures QueryPage(rows, query, Pageable(0, size, sort)).content == []
            <==> forall i | 0 <= i < |rows| :: !Where(query, rows[i])
  {
    var selected := Select(rows, query);
    if selected != [] {
      assert selected[0] in rows;
    } else {
      forall i | 0 <= i < |rows| ensures !Where(query, rows[i]) {
        assert rows[i] !in selected;
      }
    }
  }
}
