/** The request and response shapes of the user API that the domain layer reads and
    builds. Their nullability follows the way the unit tests construct them. */
module ApiModel {
  import opened Optional
  import opened UserEntity
  import opened Paging

  /** The user as the API returns it; id, birth date and creation time are non-null. */
  datatype UserDTO = UserDTO(
    id: Uuid,
    cpf: string,
    fullName: string,
    birthDate: LocalDate,
    phone: Option<string>,
    email: Option<string>,
    createdAt: OffsetDateTime,
    updatedAt: Option<OffsetDateTime>)

  /** The creation payload. */
  datatype UserCreationDTO = UserCreationDTO(
    cpf: string,
    fullName: string,
    birthDate: LocalDate,
    phone: Option<string>,
    email: Option<string>)

  /** The sparse update payload: every field may be null. */
  datatype UserPartialUpdateDTO = UserPartialUpdateDTO(
    fullName: Option<string>,
    birthDate: Option<LocalDate>,
    phone: Option<string>,
    email: Option<string>)

  /** The dense update payload: name and birth date are always given. */
  datatype UserUpdateDTO = UserUpdateDTO(
    fullName: string,
    birthDate: LocalDate,
    phone: Option<string>,
    email: Option<string>)

  /** The sortable fields; `Value()` is the property name the store sorts by. */
  datatype UserField = Id | Cpf | FullName | BirthDate | Phone | Email | CreatedAt | UpdatedAt {
    function Value(): string {
      match this
      case Id => "id"
      case Cpf => "cpf"
      case FullName => "fullName"
      case BirthDate => "birthDate"
      case Phone => "phone"
      case Email => "email"
      case CreatedAt => "createdAt"
      case UpdatedAt => "updatedAt"
    }
  }

  /** The requested sort direction; `Value()` is its wire form. */
  datatype Direction = Asc | Desc {
    function Value(): string {
      if this == Asc then "asc" else "desc"
    }
  }

  /** The paged search response; fields a mapper does not set stay null. */
  datatype PageUserDTO = PageUserDTO(
    pageable: Option<Pageable>,
    content: seq<UserDTO>,
    total: Option<int>,
    pageCount: Option<int>,
    currentPage: Option<int>,
    pageSize: Option<int>,
    sortedBy: Option<string>)
}
