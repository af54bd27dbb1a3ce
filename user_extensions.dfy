/** The copy-constructors over `User`: creation from the creation payload, the sparse
    and the dense merge, soft deletion and the mapping to the response shape. Each takes
    the current instant as `now` instead of reading the clock. */
module UserExtensions {
  import opened Optional
  import opened Text
  import opened UserEntity
  import opened ApiModel

  /** A record `toUserDTO` can map: id, birth date and creation time are all set. */
  predicate Presentable(u: User) {
    u.id.Some? && u.birthDate.Some? && u.createdAt.Some?
  }

  /** `toUserDTO`: the visible fields copied unchanged (the deletion time is not shown). */
  function ToUserDTO(u: User): (d: UserDTO)
    requires Presentable(u)
    ensures u.id == Some(d.id) && u.birthDate == Some(d.birthDate) && u.createdAt == Some(d.createdAt)
    ensures d.cpf == u.cpf && d.fullName == u.fullName
    ensures d.phone == u.phone && d.email == u.email && d.updatedAt == u.updatedAt
  {
    UserDTO(u.id.value, u.cpf, u.fullName, u.birthDate.value, u.phone, u.email, u.createdAt.value, u.updatedAt)
  }

  /** `fromUserCreationDTO`: a new, not yet stored record created at `now`. */
  function FromUserCreationDTO(input: UserCreationDTO, now: OffsetDateTime): (u: User)
    ensures u.id == None
    ensures u.cpf == input.cpf && u.fullName == input.fullName && u.birthDate == Some(input.birthDate)
    ensures u.phone == input.phone && u.email == input.email
    ensures u.createdAt == Some(now) && u.updatedAt == None && u.deletedAt == None
  {
    DefaultUser().(
      cpf := input.cpf,
      fullName := input.fullName,
      birthDate := Some(input.birthDate),
      phone := input.phone,
      email := input.email,
      createdAt := Some(now))
  }

  /** `given?.ifBlank { previous } ?: previous` for a nullable old value. */
  function KeepUnlessGiven(given: Option<string>, previous: Option<string>): Option<string> {
    match given
    case None => previous
    case Some(g) => if IsBlank(g) then previous else Some(g)
  }

  /** The sparse merge `withUpdatedValues(UserPartialUpdateDTO)`: a text field takes the
      payload value only when it is non-null and non-blank, the birth date when non-null;
      otherwise the old value stays. */
  function WithPartialValues(u: User, values: UserPartialUpdateDTO, now: OffsetDateTime): (r: User)
    ensures r.id == u.id && r.cpf == u.cpf && r.createdAt == u.createdAt
    ensures r.updatedAt == Some(now) && r.deletedAt == None
    ensures r.fullName == if values.fullName.Some? && !IsBlank(values.fullName.value)
                          then values.fullName.value else u.fullName
    ensures r.birthDate == if values.birthDate.Some? then values.birthDate else u.birthDate
    ensures r.phone == if values.phone.Some? && !IsBlank(values.phone.value) then values.phone else u.phone
    ensures r.email == if values.email.Some? && !IsBlank(values.email.value) then values.email else u.email
  {
    DefaultUser().(
      id := u.id,
      cpf := u.cpf,
      fullName := (match values.fullName case Some(n) => IfBlank(n, u.fullName) case None => u.fullName),
      birthDate := if values.birthDate.Some? then values.birthDate else u.birthDate,
      phone := KeepUnlessGiven(values.phone, u.phone),
      email := KeepUnlessGiven(values.email, u.email),
      createdAt := u.createdAt,
      updatedAt := Some(now))
  }

  /** The dense merge `withUpdatedValues(UserUpdateDTO)`: every data field is the payload's,
      nulls included. */
  function WithFullValues(u: User, values: UserUpdateDTO, now: OffsetDateTime): (r: User)
    ensures r.id == u.id && r.cpf == u.cpf && r.createdAt == u.createdAt
    ensures r.updatedAt == Some(now) && r.deletedAt == None
    ensures r.fullName == values.fullName && r.birthDate == Some(values.birthDate)
    ensures r.phone == values.phone && r.email == values.email
  {
    DefaultUser().(
      id := u.id,
      cpf := u.cpf,
      fullName := values.fullName,
      birthDate := Some(values.birthDate),
      phone := values.phone,
      email := values.email,
      createdAt := u.createdAt,
      updatedAt := Some(now))
  }

  /** `asDeleted`: the same record, update time included, with the deletion time set. */
  function AsDeleted(u: User, now: OffsetDateTime): (r: User)
    ensures r.deletedAt == Some(now)
    ensures r.(deletedAt := u.deletedAt) == u
  {
    User(u.id, u.cpf, u.fullName, u.birthDate, u.phone, u.email, u.createdAt, u.updatedAt, Some(now))
  }

  /** The fields a sparse merge can change, with `updatedAt` left out. */
  function DataFields(u: User): (Option<Uuid>, string, string, Option<LocalDate>, Option<string>, Option<string>, Option<OffsetDateTime>, Option<OffsetDateTime>) {
    (u.id, u.cpf, u.fullName, u.birthDate, u.phone, u.email, u.createdAt, u.deletedAt)
  }

  /** Applying the same sparse payload twice changes nothing beyond the first application,
      apart from the update time. */
  lemma PartialMergeIdempotent(u: User, values: UserPartialUpdateDTO, first: OffsetDateTime, second: OffsetDateTime)
    ensures var once := WithPartialValues(u, values, first);
            var twice := WithPartialValues(once, values, second);
            DataFields(twice) == DataFields(once) && twice == once.(updatedAt := Some(second))
  {
  }

  /** In a sparse payload a blank text is the same as a null one. */
  lemma BlankIsAbsent(u: User, values: UserPartialUpdateDTO, blank: string, now: OffsetDateTime)
    requires IsBlank(blank)
    ensures WithPartialValues(u, values.(fullName := Some(blank)), now) == WithPartialValues(u, values.(fullName := None), now)
    ensures WithPartialValues(u, values.(phone := Some(blank)), now) == WithPartialValues(u, values.(phone := None), now)
    ensures WithPartialValues(u, values.(email := Some(blank)), now) == WithPartialValues(u, values.(email := None), now)
  {
  }

  /** A sparse payload that gives every field, none of them blank, merges exactly as the
      dense payload with the same values. */
  lemma CompleteSparseIsDense(u: User, values: UserPartialUpdateDTO, now: OffsetDateTime)
    requires values.fullName.Some? && !IsBlank(values.fullName.value)
    requires values.birthDate.Some?
    requires values.phone.Some? && !IsBlank(values.phone.value)
    requires values.email.Some? && !IsBlank(values.email.value)
    ensures WithPartialValues(u, values, now)
         == WithFullValues(u, UserUpdateDTO(values.fullName.value, values.birthDate.value, values.phone, values.email), now)
  {
  }

  /** The dense merge forgets the old data fields: two records with the same identity
      merge to the same result. */
  lemma DenseIgnoresOldData(u: User, v: User, values: UserUpdateDTO, now: OffsetDateTime)
    requires u.id == v.id && u.cpf == v.cpf && u.createdAt == v.createdAt
    ensures WithFullValues(u, values, now) == WithFullValues(v, values, now)
  {
  }

  /** A new name with a blank e-mail: the name changes and the e-mail is kept. */
  lemma SparseKeepsEmailOnBlank(u: User, now: OffsetDateTime)
    ensures var r := WithPartialValues(u, UserPartialUpdateDTO(Some("B"), None, None, Some("")), now);
            r.fullName == "B" && r.email == u.email && r.updatedAt == Some(now)
  {
    assert "B"[0] == 'B' && !IsWhitespace('B');
  }

  /** Merges and deletion keep a record presentable. */
  lemma CopiesStayPresentable(u: User, p: UserPartialUpdateDTO, f: UserUpdateDTO, now: OffsetDateTime)
    requires Presentable(u)
    ensures Presentable(WithPartialValues(u, p, now))
    ensures Presentable(WithFullValues(u, f, now))
    ensures Presentable(AsDeleted(u, now))
  {
  }

  /** A created record, once the store gives it an id, shows the payload's fields, that id,
      the creation time and no update time. */
  lemma CreatedRecordView(input: UserCreationDTO, id: Uuid, now: OffsetDateTime)
    ensures var saved := FromUserCreationDTO(input, now).(id := Some(id));
            Presentable(saved)
            && ToUserDTO(saved) == UserDTO(id, input.cpf, input.fullName, input.birthDate, input.phone, input.email, now, None)
  {
  }

  /** Soft deletion is invisible in the response shape. */
  lemma DeletionNotShown(u: User, now: OffsetDateTime)
    requires Presentable(u)
    ensures ToUserDTO(AsDeleted(u, now)) == ToUserDTO(u)
  {
  }
}
