/** The user service: seven operations over the `tb_user` table, each answering with a
    value or a typed error. The table is the class's state; every call the service makes
    to the repository or the dispatcher is recorded, in order, in a ghost log. */
module Service {
  import opened Optional
  import opened Text
  import opened UserEntity
  import opened Paging
  import opened ApiModel
  import opened PageRequestExtensions
  import opened UserExtensions
  import opened PageExtensions
  import opened UserRepository
  import opened Exceptions

  /** What an operation answers: its value, or the exception it raises. */
  datatype Result<+T> = Ok(value: T) | Err(error: Exception)

  /** One call from the service to a collaborator. */
  datatype Call =
    | Find(lookup: Lookup)
    | Search(query: Query, pageable: Pageable)
    | Save(user: User)
    | Dispatch(userId: Uuid)

  /** The payload name the null-payload guard reports: the entity's class name. */
  const UserClassName := "dev.erickvieira.ppcc.service.user.domain.entity.User"

  /** What every stored row satisfies: it can be shown (id, birth date and creation time
      set), and no two rows share an id or a CPF, soft-deleted rows included. */
  predicate StoreInvariant(rows: seq<User>) {
    && (forall u | u in rows :: Presentable(u))
    && (forall i, j | 0 <= i < j < |rows| :: rows[i].id != rows[j].id)
    && (forall i, j | 0 <= i < j < |rows| :: rows[i].cpf != rows[j].cpf)
  }

  /** A soft-deleted row is never changed again, and no row disappears. */
  predicate DeletedRowsKept(before: seq<User>, after: seq<User>) {
    && |before| <= |after|
    && forall i | 0 <= i < |before| :: !IsActive(before[i]) ==> after[i] == before[i]
  }

  /** `ensurePayloadNotNull`: a null payload raises `NullPayloadException` naming the
      entity class; any other payload passes. */
  function EnsurePayloadNotNull<T>(payload: Option<T>): (r: Result<T>)
    ensures r.Ok? <==> payload.Some?
    ensures payload.Some? ==> r.value == payload.value
    ensures payload.None? ==> r.error == NullPayloadException(Some(UserClassName))
  {
    match payload
    case Some(p) => Ok(p)
    case None => Err(NullPayloadException(Some(UserClassName)))
  }

  /** `ensureCpfUniquenessForTheGivenUser`: the user passes only when no stored row,
      soft-deleted or not, has its CPF; otherwise `DuplicatedCpfException`. */
  function EnsureCpfUniqueness(rows: seq<User>, user: User): (r: Result<User>)
    ensures r.Ok? <==> forall i | 0 <= i < |rows| :: rows[i].cpf != user.cpf
    ensures r.Ok? ==> r.value == user
    ensures r.Err? ==> r.error == DuplicatedCpfException(user.cpf)
  {
    if FindFirst(rows, FindFirstByCpf(user.cpf)).None? then Ok(user)
    else Err(DuplicatedCpfException(user.cpf))
  }

  /** A soft-deleted record still holds its CPF: registering it again is refused. */
  lemma DeletedCpfStillBlocks(rows: seq<User>, user: User, i: nat)
    requires i < |rows| && rows[i].cpf == user.cpf && !IsActive(rows[i])
    ensures EnsureCpfUniqueness(rows, user) == Err(DuplicatedCpfException(user.cpf))
  {
  }

  /** In a table that keeps the invariant a CPF names at most one row: both CPF lookups
      find that row, the active one only while it is not deleted, so the answer does not
      depend on storage order. */
  lemma CpfIdentifiesRow(rows: seq<User>, i: nat)
    requires StoreInvariant(rows) && i < |rows|
    ensures FindFirst(rows, FindFirstByCpf(rows[i].cpf)) == Some(rows[i])
    ensures FindFirst(rows, FindFirstByCpfAndDeletedAtIsNull(rows[i].cpf)) == if IsActive(rows[i]) then Some(rows[i]) else None
  {
    assert forall j | 0 <= j < |rows| && j != i :: rows[j].cpf != rows[i].cpf;
    FindFirstAt(rows, FindFirstByCpf(rows[i].cpf), i);
    if IsActive(rows[i]) {
      FindFirstAt(rows, FindFirstByCpfAndDeletedAtIsNull(rows[i].cpf), i);
    }
  }

  /** The query a search runs: all active records without filters, the combined query
      with both, else the one for the filter given. */
  function SearchQuery(cpf: Option<string>, fullName: Option<string>): Query {
    if cpf == None && fullName == None then FindAllByDeletedAtIsNull
    else if cpf.Some? && fullName.Some? then FindAllByCpfAndFullNameAndDeletedAtIsNull(cpf.value, fullName.value)
    else if cpf.Some? then FindAllByCpfAndDeletedAtIsNull(cpf.value)
    else FindAllByFullNameAndDeletedAtIsNull(fullName.value)
  }

  /** Each combination of filters picks its own query. */
  lemma SearchQueryChoice(cpf: Option<string>, fullName: Option<string>)
    ensures cpf == None && fullName == None ==> SearchQuery(cpf, fullName) == FindAllByDeletedAtIsNull
    ensures cpf.Some? && fullName.Some? ==>
              SearchQuery(cpf, fullName) == FindAllByCpfAndFullNameAndDeletedAtIsNull(cpf.value, fullName.value)
    ensures cpf.Some? && fullName == None ==> SearchQuery(cpf, fullName) == FindAllByCpfAndDeletedAtIsNull(cpf.value)
    ensures cpf == None && fullName.Some? ==> SearchQuery(cpf, fullName) == FindAllByFullNameAndDeletedAtIsNull(fullName.value)
  {
  }

  /** Whatever query is picked, a row is selected exactly when it is active and meets
      every filter that is given; an absent filter constrains nothing. */
  lemma SearchQueryFilters(cpf: Option<string>, fullName: Option<string>, u: User)
    ensures Where(SearchQuery(cpf, fullName), u)
            <==> IsActive(u) && (cpf.Some? ==> u.cpf == cpf.value) && (fullName.Some? ==> NameContains(u, fullName.value))
  {
  }

  /** The six search terms, in order, with the numbers and enums rendered as text. */
  function SearchTerms(cpf: Option<string>, fullName: Option<string>, page: int, size: int, sort: UserField, direction: Direction): (r: seq<SearchTerm>)
    ensures |r| == 6 && r[0] == SearchTerm("cpf", cpf) && r[1] == SearchTerm("fullName", fullName)
    ensures forall k | 2 <= k < |r| :: r[k].value.Some?
  {
    [ SearchTerm("cpf", cpf), SearchTerm("fullName", fullName),
      SearchTerm("page", Some(IntToString(page))), SearchTerm("size", Some(IntToString(size))),
      SearchTerm("sort", Some(sort.Value())), SearchTerm("direction", Some(direction.Value())) ]
  }

  /** The pagination map of a search: all four entries present. */
  function SearchPagination(page: int, size: int, sort: UserField, direction: Direction): Pagination {
    Pagination(Some(page), Some(size), Some(sort), Some(direction))
  }

  /** A search with no match reports, in order, the filters that were given and then the
      four pagination terms; an absent filter is left out of the message. */
  lemma SearchTermsReported(cpf: Option<string>, fullName: Option<string>, page: int, size: int, sort: UserField, direction: Direction)
    ensures var terms := SearchTerms(cpf, fullName, page, size, sort, direction);
            NonNullTerms(terms)
            == (if cpf.Some? then [terms[0]] else []) + ((if fullName.Some? then [terms[1]] else []) + terms[2..])
  {
    var terms := SearchTerms(cpf, fullName, page, size, sort, direction);
    NonNullTermsAfterOptional(terms);
  }

  /** `save` of a record that has an id: the row with that id is replaced. */
  function Merged(rows: seq<User>, u: User): (r: seq<User>)
    requires u.id.Some?
    ensures |r| == |rows|
    ensures forall i | 0 <= i < |rows| :: r[i] == if rows[i].id == u.id then u else rows[i]
  {
    seq(|rows|, i requires 0 <= i < |rows| => if rows[i].id == u.id then u else rows[i])
  }

  /** Two tables that agree wherever either is hit give the same lookup result. */
  lemma {:induction false} FindFirstSameHits(a: seq<User>, b: seq<User>, lookup: Lookup)
    requires |a| == |b|
    requires forall j | 0 <= j < |a| :: Hits(lookup, a[j]) || Hits(lookup, b[j]) ==> a[j] == b[j]
    ensures FindFirst(a, lookup) == FindFirst(b, lookup)
  {
    if a != [] {
      FindFirstSameHits(a[1..], b[1..], lookup);
    }
  }

  /** Replacing the stored row at `i` by a presentable record with the same id and CPF
      keeps the invariant. */
  lemma MergedKeepsInvariant(rows: seq<User>, u: User, i: nat)
    requires StoreInvariant(rows) && Presentable(u)
    requires i < |rows| && rows[i].id == u.id && rows[i].cpf == u.cpf
    ensures StoreInvariant(Merged(rows, u))
  {
    var r := Merged(rows, u);
    forall v | v in r ensures Presentable(v) {
      var k :| 0 <= k < |r| && r[k] == v;
    }
    assert forall k | 0 <= k < |rows| :: r[k].cpf == rows[k].cpf;
  }

  /** After a replacement, looking the id up among active rows finds the new record if it
      is active and nothing if it is deleted. */
  lemma MergedLookup(rows: seq<User>, u: User, i: nat)
    requires StoreInvariant(rows) && u.id.Some?
    requires i < |rows| && rows[i].id == u.id
    ensures FindFirst(Merged(rows, u), FindFirstByIdAndDeletedAtIsNull(u.id.value)) == if IsActive(u) then Some(u) else None
  {
    var r := Merged(rows, u);
    var lookup := FindFirstByIdAndDeletedAtIsNull(u.id.value);
    assert forall j | 0 <= j < |r| && j != i :: r[j].id != u.id;
    if IsActive(u) {
      FindFirstAt(r, lookup, i);
    }
  }

  /** A replacement leaves the lookups of every other id unchanged. */
  lemma MergedOtherLookups(rows: seq<User>, u: User, id: Uuid)
    requires u.id.Some? && u.id != Some(id)
    ensures FindFirst(Merged(rows, u), FindFirstByIdAndDeletedAtIsNull(id)) == FindFirst(rows, FindFirstByIdAndDeletedAtIsNull(id))
  {
    FindFirstSameHits(Merged(rows, u), rows, FindFirstByIdAndDeletedAtIsNull(id));
  }

  /** Replacing an active row never touches a soft-deleted one. */
  lemma MergedKeepsDeletedRows(rows: seq<User>, u: User, i: nat)
    requires StoreInvariant(rows) && u.id.Some?
    requires i < |rows| && rows[i].id == u.id && IsActive(rows[i])
    ensures DeletedRowsKept(rows, Merged(rows, u))
  {
    assert forall j | 0 <= j < |rows| && j != i :: rows[j].id != u.id;
  }

  /** Saving a presentable record over the active row with its id: the invariant holds,
      no soft-deleted row changes, and the id then finds the saved record while it is
      active and nothing once it is deleted. */
  lemma SaveOverActive(rows: seq<User>, u: User, i: nat)
    requires StoreInvariant(rows) && Presentable(u)
    requires i < |rows| && rows[i].id == u.id && rows[i].cpf == u.cpf && IsActive(rows[i])
    ensures StoreInvariant(Merged(rows, u))
    ensures DeletedRowsKept(rows, Merged(rows, u))
    ensures FindFirst(Merged(rows, u), FindFirstByIdAndDeletedAtIsNull(u.id.value)) == if IsActive(u) then Some(u) else None
  {
    MergedKeepsInvariant(rows, u, i);
    MergedLookup(rows, u, i);
    MergedKeepsDeletedRows(rows, u, i);
  }

  /** Appending a presentable record with a new id and a CPF no row holds keeps the
      invariant, and the record can then be found by its id while it is active. */
  lemma PersistKeepsInvariant(rows: seq<User>, v: User)
    requires StoreInvariant(rows) && Presentable(v)
    requires forall i | 0 <= i < |rows| :: rows[i].id != v.id && rows[i].cpf != v.cpf
    ensures StoreInvariant(rows + [v])
    ensures DeletedRowsKept(rows, rows + [v])
    ensures IsActive(v) ==> FindFirst(rows + [v], FindFirstByIdAndDeletedAtIsNull(v.id.value)) == Some(v)
  {
    var r := rows + [v];
    assert forall u | u in r :: u in rows || u == v;
    if IsActive(v) {
      FindFirstAt(r, FindFirstByIdAndDeletedAtIsNull(v.id.value), |rows|);
    }
  }

  class UserService {
    /** The `tb_user` table, in storage order. */
    var rows: seq<User>
    /** Every repository and dispatcher call made so far, in order. */
    ghost var calls: seq<Call>

    ghost predicate Valid()
      reads this
    {
      StoreInvariant(rows)
    }

    constructor (initial: seq<User>)
      requires StoreInvariant(initial)
      ensures Valid() && rows == initial && calls == []
    {
      rows := initial;
      calls := [];
    }

    /** `userRepository.save` of a record whose id is already stored in an active row:
        that row is replaced. */
    method SaveExisting(updated: User, ghost i: nat)
      requires Valid() && Presentable(updated)
      requires i < |rows| && rows[i].id == updated.id && rows[i].cpf == updated.cpf && IsActive(rows[i])
      modifies this
      ensures Valid() && DeletedRowsKept(old(rows), rows)
      ensures rows == Merged(old(rows), updated)
      ensures calls == old(calls) + [Save(updated)]
      ensures FindFirst(rows, FindFirstByIdAndDeletedAtIsNull(updated.id.value)) == if IsActive(updated) then Some(updated) else None
    {
      SaveOverActive(rows, updated, i);
      rows := Merged(rows, updated);
      calls := calls + [Save(updated)];
    }

    /** `searchUsers`: runs the one query the filters pick on the requested page; an empty
        page is reported as `UserNotFoundException` with the six search terms. */
    method SearchUsers(fullName: Option<string>, cpf: Option<string>, page: int, size: int, sort: UserField, direction: Direction)
      returns (r: Result<PageUserDTO>)
      requires Valid()
      modifies this`calls
      ensures Valid()
      ensures page < 0 || size < 1 ==> r == Err(UnexpectedException(None)) && calls == old(calls)
      ensures page >= 0 && size >= 1 ==>
                var query := SearchQuery(cpf, fullName);
                var pageable := PageRequest(SearchPagination(page, size, sort, direction));
                var result := QueryPage(rows, query, pageable);
                && calls == old(calls) + [Search(query, pageable)]
                && (result.content == [] ==> r == Err(UserNotFoundException(SearchTerms(cpf, fullName, page, size, sort, direction))))
                && (result.content != [] ==> r == Ok(FromPage(None, result)))
    {
      var search := SearchTerms(cpf, fullName, page, size, sort, direction);
      var pageable := PageRequest(SearchPagination(page, size, sort, direction));
      if pageable.pageNumber < 0 || pageable.pageSize < 1 {
        // the page request builder refuses these, and the refusal surfaces as unexpected
        return Err(UnexpectedException(None));
      }
      var query := SearchQuery(cpf, fullName);
      var pagedResult := QueryPage(rows, query, pageable);
      calls := calls + [Search(query, pageable)];
      if pagedResult.content == [] {
        return Err(UserNotFoundException(search));
      }
      r := Ok(FromPage(None, pagedResult));
    }

    /** `createUser`: null payload first, then CPF uniqueness over every stored row, then
        one save (the store assigns `generatedId`) and one dispatch of the new id. */
    method CreateUser(userCreationDTO: Option<UserCreationDTO>, now: OffsetDateTime, generatedId: Uuid)
      returns (r: Result<UserDTO>)
      requires Valid()
      requires forall i | 0 <= i < |rows| :: rows[i].id != Some(generatedId)
      modifies this
      ensures Valid() && DeletedRowsKept(old(rows), rows)
      ensures userCreationDTO.None? ==>
                r == Err(NullPayloadException(Some(UserClassName))) && rows == old(rows) && calls == old(calls)
      ensures userCreationDTO.Some? ==>
                var user := FromUserCreationDTO(userCreationDTO.value, now);
                var probe := Find(FindFirstByCpf(user.cpf));
                if exists i | 0 <= i < |old(rows)| :: old(rows)[i].cpf == user.cpf then
                  r == Err(DuplicatedCpfException(user.cpf)) && rows == old(rows) && calls == old(calls) + [probe]
                else
                  var saved := user.(id := Some(generatedId));
                  && rows == old(rows) + [saved]
                  && calls == old(calls) + [probe] + [Save(user)] + [Dispatch(generatedId)]
                  && r == Ok(ToUserDTO(saved))
    {
      var payload := EnsurePayloadNotNull(userCreationDTO);
      if payload.Err? {
        return Err(payload.error);
      }
      var user := FromUserCreationDTO(payload.value, now);
      calls := calls + [Find(FindFirstByCpf(user.cpf))];
      var unique := EnsureCpfUniqueness(rows, user);
      if unique.Err? {
        return Err(unique.error);
      }
      var saved := user.(id := Some(generatedId));
      PersistKeepsInvariant(rows, saved);
      rows := rows + [saved];
      calls := calls + [Save(user)];
      calls := calls + [Dispatch(saved.id.value)];
      r := Ok(ToUserDTO(saved));
    }

    /** `retrieveUser`: the active record with the id, else `UserNotFoundException` on "id". */
    method RetrieveUser(userId: Uuid) returns (r: Result<UserDTO>)
      requires Valid()
      modifies this`calls
      ensures Valid()
      ensures calls == old(calls) + [Find(FindFirstByIdAndDeletedAtIsNull(userId))]
      ensures match FindFirst(rows, FindFirstByIdAndDeletedAtIsNull(userId))
              case Some(u) => r == Ok(ToUserDTO(u))
              case None => r == Err(UserNotFoundException([SearchTerm("id", Some(userId))]))
    {
      calls := calls + [Find(FindFirstByIdAndDeletedAtIsNull(userId))];
      var found := FindFirst(rows, FindFirstByIdAndDeletedAtIsNull(userId));
      match found
      case Some(u) => r := Ok(ToUserDTO(u));
      case None => r := Err(UserNotFoundException([SearchTerm("id", Some(userId))]));
    }

    /** `retrieveUserByCpf`: the active record with the CPF, else `UserNotFoundException`
        on "cpf"; the CPF is not validated. */
    method RetrieveUserByCpf(userCpf: string) returns (r: Result<UserDTO>)
      requires Valid()
      modifies this`calls
      ensures Valid()
      ensures calls == old(calls) + [Find(FindFirstByCpfAndDeletedAtIsNull(userCpf))]
      ensures match FindFirst(rows, FindFirstByCpfAndDeletedAtIsNull(userCpf))
              case Some(u) => r == Ok(ToUserDTO(u))
              case None => r == Err(UserNotFoundException([SearchTerm("cpf", Some(userCpf))]))
      ensures forall i | 0 <= i < |rows| && rows[i].cpf == userCpf && IsActive(rows[i]) :: r == Ok(ToUserDTO(rows[i]))
    {
      calls := calls + [Find(FindFirstByCpfAndDeletedAtIsNull(userCpf))];
      var found := FindFirst(rows, FindFirstByCpfAndDeletedAtIsNull(userCpf));
      forall i | 0 <= i < |rows| && rows[i].cpf == userCpf && IsActive(rows[i])
        ensures found == Some(rows[i])
      {
        CpfIdentifiesRow(rows, i);
      }
      match found
      case Some(u) => r := Ok(ToUserDTO(u));
      case None => r := Err(UserNotFoundException([SearchTerm("cpf", Some(userCpf))]));
    }

    /** `partiallyUpdateUser`: null payload first, then the active record, then one save of
        its sparse merge with the payload. */
    method PartiallyUpdateUser(userId: Uuid, userPartialUpdateDTO: Option<UserPartialUpdateDTO>, now: OffsetDateTime)
      returns (r: Result<UserDTO>)
      requires Valid()
      modifies this
      ensures Valid() && DeletedRowsKept(old(rows), rows)
      ensures userPartialUpdateDTO.None? ==>
                r == Err(NullPayloadException(Some(UserClassName))) && rows == old(rows) && calls == old(calls)
      ensures userPartialUpdateDTO.Some? ==>
                var probe := Find(FindFirstByIdAndDeletedAtIsNull(userId));
                match FindFirst(old(rows), FindFirstByIdAndDeletedAtIsNull(userId))
                case None =>
                  && r == Err(UserNotFoundException([SearchTerm("id", Some(userId))]))
                  && rows == old(rows) && calls == old(calls) + [probe]
                case Some(existing) =>
                  var updated := WithPartialValues(existing, userPartialUpdateDTO.value, now);
                  && rows == Merged(old(rows), updated)
                  && calls == old(calls) + [probe] + [Save(updated)]
                  && r == Ok(ToUserDTO(updated))
                  && FindFirst(rows, FindFirstByIdAndDeletedAtIsNull(userId)) == Some(updated)
    {
      var payload := EnsurePayloadNotNull(userPartialUpdateDTO);
      if payload.Err? {
        return Err(payload.error);
      }
      ghost var probe := Find(FindFirstByIdAndDeletedAtIsNull(userId));
      calls := calls + [probe];
      var found := FindFirst(rows, FindFirstByIdAndDeletedAtIsNull(userId));
      if found.None? {
        return Err(UserNotFoundException([SearchTerm("id", Some(userId))]));
      }
      ghost var i :| 0 <= i < |rows| && rows[i] == found.value && Hits(FindFirstByIdAndDeletedAtIsNull(userId), rows[i]);
      assert rows[i] in rows;
      var updated := WithPartialValues(found.value, payload.value, now);
      CopiesStayPresentable(found.value, payload.value, UserUpdateDTO("", 0, None, None), now);
      SaveExisting(updated, i);
      r := Ok(ToUserDTO(updated));
    }

    /** `updateUser`: null payload first, then the active record, then one save of its
        dense merge with the payload. */
    method UpdateUser(userId: Uuid, userUpdateDTO: Option<UserUpdateDTO>, now: OffsetDateTime)
      returns (r: Result<UserDTO>)
      requires Valid()
      modifies this
      ensures Valid() && DeletedRowsKept(old(rows), rows)
      ensures userUpdateDTO.None? ==>
                r == Err(NullPayloadException(Some(UserClassName))) && rows == old(rows) && calls == old(calls)
      ensures userUpdateDTO.Some? ==>
                var probe := Find(FindFirstByIdAndDeletedAtIsNull(userId));
                match FindFirst(old(rows), FindFirstByIdAndDeletedAtIsNull(userId))
                case None =>
                  && r == Err(UserNotFoundException([SearchTerm("id", Some(userId))]))
                  && rows == old(rows) && calls == old(calls) + [probe]
                case Some(existing) =>
                  var updated := WithFullValues(existing, userUpdateDTO.value, now);
                  && rows == Merged(old(rows), updated)
                  && calls == old(calls) + [probe] + [Save(updated)]
                  && r == Ok(ToUserDTO(updated))
                  && FindFirst(rows, FindFirstByIdAndDeletedAtIsNull(userId)) == Some(updated)
    {
      var payload := EnsurePayloadNotNull(userUpdateDTO);
      if payload.Err? {
        return Err(payload.error);
      }
      ghost var probe := Find(FindFirstByIdAndDeletedAtIsNull(userId));
      calls := calls + [probe];
      var found := FindFirst(rows, FindFirstByIdAndDeletedAtIsNull(userId));
      if found.None? {
        return Err(UserNotFoundException([SearchTerm("id", Some(userId))]));
      }
      ghost var i :| 0 <= i < |rows| && rows[i] == found.value && Hits(FindFirstByIdAndDeletedAtIsNull(userId), rows[i]);
      assert rows[i] in rows;
      var updated := WithFullValues(found.value, payload.value, now);
      CopiesStayPresentable(found.value, UserPartialUpdateDTO(None, None, None, None), payload.value, now);
      SaveExisting(updated, i);
      r := Ok(ToUserDTO(updated));
    }

    /** `deleteUser`: the active record is saved soft-deleted, and answered as it was
        before; afterwards no active record has the id. */
    method DeleteUser(userId: Uuid, now: OffsetDateTime) returns (r: Result<UserDTO>)
      requires Valid()
      modifies this
      ensures Valid() && DeletedRowsKept(old(rows), rows)
      ensures var probe := Find(FindFirstByIdAndDeletedAtIsNull(userId));
              match FindFirst(old(rows), FindFirstByIdAndDeletedAtIsNull(userId))
              case None =>
                && r == Err(UserNotFoundException([SearchTerm("id", Some(userId))]))
                && rows == old(rows) && calls == old(calls) + [probe]
              case Some(existing) =>
                && rows == Merged(old(rows), AsDeleted(existing, now))
                && calls == old(calls) + [probe] + [Save(AsDeleted(existing, now))]
                && r == Ok(ToUserDTO(existing))
      ensures FindFirst(rows, FindFirstByIdAndDeletedAtIsNull(userId)) == None
    {
      ghost var probe := Find(FindFirstByIdAndDeletedAtIsNull(userId));
      calls := calls + [probe];
      var found := FindFirst(rows, FindFirstByIdAndDeletedAtIsNull(userId));
      if found.None? {
        return Err(UserNotFoundException([SearchTerm("id", Some(userId))]));
      }
      ghost var i :| 0 <= i < |rows| && rows[i] == found.value && Hits(FindFirstByIdAndDeletedAtIsNull(userId), rows[i]);
      assert rows[i] in rows;
      var deleted := AsDeleted(found.value, now);
      CopiesStayPresentable(found.value, UserPartialUpdateDTO(None, None, None, None), UserUpdateDTO("", 0, None, None), now);
      SaveExisting(deleted, i);
      r := Ok(ToUserDTO(found.value));
    }
  }

  /** Deleting twice: the second deletion, and a retrieval after it, find nothing. */
  method DeleteTwice(service: UserService, userId: Uuid, first: OffsetDateTime, second: OffsetDateTime)
    returns (r1: Result<UserDTO>, r2: Result<UserDTO>, r3: Result<UserDTO>)
    requires service.Valid()
    modifies service
    ensures r2 == Err(UserNotFoundException([SearchTerm("id", Some(userId))]))
    ensures r3 == Err(UserNotFoundException([SearchTerm("id", Some(userId))]))
  {
    r1 := service.DeleteUser(userId, first);
    r2 := service.DeleteUser(userId, second);
    r3 := service.RetrieveUser(userId);
  }

  /** A created user is retrieved by its new id with the fields it was created with. */
  method CreateThenRetrieve(service: UserService, input: UserCreationDTO, now: OffsetDateTime, generatedId: Uuid)
    returns (created: Result<UserDTO>, retrieved: Result<UserDTO>)
    requires service.Valid()
    requires forall i | 0 <= i < |service.rows| :: service.rows[i].id != Some(generatedId)
    modifies service
    ensures created.Ok? ==> retrieved == created
    ensures created.Ok? ==> created.value == UserDTO(generatedId, input.cpf, input.fullName, input.birthDate, input.phone, input.email, now, None)
  {
    created := service.CreateUser(Some(input), now, generatedId);
    if created.Ok? {
      PersistKeepsInvariant(old(service.rows), FromUserCreationDTO(input, now).(id := Some(generatedId)));
    }
    retrieved := service.RetrieveUser(generatedId);
  }
}
